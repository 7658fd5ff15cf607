/** The heap of ch32h4_sbrk.c: two regions, the second used when the first is full. */
module Sbrk {

  /** Addresses of the two regions, which do not overlap. */
  datatype Layout = Layout(dtcmStart: nat, dtcmEnd: nat, sharedStart: nat, sharedEnd: nat)

  predicate Apart(l: Layout) {
    && 0 < l.dtcmStart <= l.dtcmEnd && 0 < l.sharedStart <= l.sharedEnd
    && (l.dtcmEnd <= l.sharedStart || l.sharedEnd <= l.dtcmStart)
  }

  /** The `n` addresses from `start` on. */
  ghost function Piece(start: int, n: int): iset<int> {
    iset x | Within(x, start, n)
  }

  predicate Within(x: int, start: int, n: int) { start <= x < start + n }

  class Heap {
    const layout: Layout
    /** `s_brk`, and `s_region`. Zero is NULL. */
    var brk: int
    var shared: bool
    /** The addresses that have been handed out and not been given back. */
    ghost var taken: iset<int>

    /** Everything handed out lies in one region, below the break if it is the current
        one. */
    ghost predicate Valid()
      reads this
    {
      && Apart(layout)
      && (brk == 0 ==> !shared && taken == iset{})
      && (brk != 0 && !shared ==> layout.dtcmStart <= brk <= layout.dtcmEnd)
      && (shared ==> layout.sharedStart <= brk <= layout.sharedEnd)
      && forall x :: x in taken ==>
           || layout.dtcmStart <= x < (if shared then layout.dtcmEnd else brk)
           || (shared && layout.sharedStart <= x < brk)
    }

    constructor (l: Layout)
      requires Apart(l)
      ensures Valid() && layout == l && taken == iset{} && !shared && Used() == 0
      ensures Free() == (l.dtcmEnd - l.dtcmStart) + (l.sharedEnd - l.sharedStart)
    {
      layout, brk, shared, taken := l, 0, false, iset{};
    }

    /** The break, once it has been set. */
    function Break(): int
      reads this
    {
      if brk == 0 then layout.dtcmStart else brk
    }

    /** What `ch32h4_heap_free` reports. */
    function Free(): int
      reads this
    {
      if shared then layout.sharedEnd - brk
      else layout.dtcmEnd - Break() + layout.sharedEnd - layout.sharedStart
    }

    /** Room left in the current region. */
    function Room(): int
      reads this
    {
      (if shared then layout.sharedEnd else layout.dtcmEnd) - Break()
    }

    /** What has been taken of the current region. */
    function Used(): int
      reads this
    {
      Break() - if shared then layout.sharedStart else layout.dtcmStart
    }

    /** `_sbrk`: it succeeds exactly if the current region has room, or it is the first
        and the second one has. What it hands out is in nobody's hands. A request too large
        for both still gives up what is left of the first. A negative increment always
        succeeds; the heap is in order after it exactly if no more was given back than had
        been taken of the current region, or the break is at NULL and starts over. */
    method Sbrk(incr: int) returns (start: int)
      requires Apart(layout)
      modifies this
      ensures old(Valid()) ==> (Valid() <==> old(Used()) + incr >= 0 || (!shared && brk == 0))
      ensures old(Valid()) ==>
        (start != -1 <==> incr <= old(Room()) || (old(!shared) && incr <= layout.sharedEnd - layout.sharedStart))
      ensures old(Valid()) && start == -1 ==> taken == old(taken)
      ensures old(Valid()) && start != -1 && incr >= 0 ==>
        start > 0 && old(taken) !! Piece(start, incr) && taken == old(taken) + Piece(start, incr)
      ensures old(Valid()) && incr < 0 ==>
        start == old(Break()) && taken == old(taken) - Piece(start + incr, -incr)
      ensures shared <==> old(shared) || incr > old(Room())
      ensures incr <= old(Room()) ==> start == old(Break()) && brk == start + incr
      ensures old(Valid()) && incr >= 0 ==> Free() == if shared && old(!shared)
        then layout.sharedEnd - layout.sharedStart - (if start == -1 then 0 else incr)
        else old(Free()) - (if start == -1 then 0 else incr)
    {
      if brk == 0 {
        brk := layout.dtcmStart;
      }
      var limit := if !shared then layout.dtcmEnd else layout.sharedEnd;
      if brk + incr > limit {
        if !shared {
          shared := true;
          brk := layout.sharedStart;
          if brk + incr <= layout.sharedEnd {
            start := brk;
            taken := taken + Piece(brk, incr);
            brk := brk + incr;
            return;
          }
        }
        return -1;
      }
      start := brk;
      taken := if incr >= 0 then taken + Piece(brk, incr) else taken - Piece(brk + incr, -incr);
      brk := brk + incr;
    }
  }

  /** More given back than had been taken of the second region: the next piece lies in
      neither. */
  method GivenBackTooMuch() returns (h: Heap, start: int)
    ensures fresh(h) && h.layout == Layout(1000, 2000, 5000, 9000) && h.shared && start == 4500
  {
    h := new Heap(Layout(1000, 2000, 5000, 9000));
    start := h.Sbrk(1500);
    start := h.Sbrk(-2000);
    start := h.Sbrk(100);
  }
}
