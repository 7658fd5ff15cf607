/** The DMA buffer pool of api/DMAPool.h: two bounded queues between which a fixed set of
    buffers circulates. Buffers are numbered in the order of their creation. */
module DMAPools {

  import opened Arith

  // ---- SPSCQueue -------------------------------------------------------------------------

  /** The index after `i`. */
  function After(i: nat, capacity: nat): (r: nat)
    requires i < capacity
    ensures r == if i + 1 == capacity then 0 else i + 1
  {
    if i + 1 == capacity then
      DivModUnique(i + 1, capacity, 1, 0);
      (i + 1) % capacity
    else
      DivModUnique(i + 1, capacity, 0, i + 1);
      (i + 1) % capacity
  }

  /** The elements from `tail` round to `head`. */
  function Between(b: seq<nat>, tail: nat, head: nat): (c: seq<nat>)
    requires tail < |b| && head < |b|
    ensures |c| < |b|
  {
    if tail <= head then b[tail..head] else b[tail..] + b[..head]
  }

  lemma BetweenLonger(b: seq<nat>, tail: nat, head: nat, data: nat)
    requires tail < |b| && head < |b|
    ensures After(head, |b|) == tail <==> |Between(b, tail, head)| == |b| - 1
    ensures After(head, |b|) != tail ==>
      Between(b[head := data], tail, After(head, |b|)) == Between(b, tail, head) + [data]
  {
  }

  lemma BetweenShorter(b: seq<nat>, tail: nat, head: nat)
    requires tail < |b| && head < |b|
    ensures tail == head <==> Between(b, tail, head) == []
    ensures tail != head ==> Between(b, tail, head) == [b[tail]] + Between(b, After(tail, |b|), head)
  {
    if tail < head {
      assert b[tail..head] == [b[tail]] + b[tail + 1..head];
    } else if head < tail {
      assert b[tail..] == [b[tail]] + b[tail + 1..];
      assert tail + 1 == |b| ==> b[tail + 1..] == [] && b[0..head] == b[..head];
      assert [b[tail]] + b[tail + 1..] + b[..head] == [b[tail]] + (b[tail + 1..] + b[..head]);
    }
  }

  /** The length of the array of a queue. */
  function Room(size: nat): nat { if size == 0 then 0 else size + 1 }

  class SPSCQueue {
    const buff: array<nat>
    var head: nat
    var tail: nat

    /** An array one longer than the queue can fill, or none for a queue of no size. */
    predicate Valid()
      reads this
    {
      if buff.Length == 0 then head == tail == 0 else head < buff.Length && tail < buff.Length
    }

    /** What is in the queue, oldest first. */
    ghost function Contents(): (c: seq<nat>)
      reads this, buff
      requires Valid()
      ensures c != [] ==> |c| < buff.Length
    {
      if buff.Length == 0 then [] else Between(buff[..], tail, head)
    }

    constructor (size: nat)
      ensures Valid() && Contents() == [] && fresh(buff)
      ensures buff.Length == Room(size) == if size == 0 then 0 else size + 1
    {
      buff := new nat[Room(size)](_ => 0);
      head, tail := 0, 0;
    }

    method Empty() returns (r: bool)
      requires Valid()
      ensures r <==> Contents() == []
    {
      if buff.Length > 0 {
        BetweenShorter(buff[..], tail, head);
      }
      r := tail == head;
    }

    /** Refuses exactly when the queue is full. A queue of no size would divide by zero. */
    method Push(data: nat) returns (ok: bool)
      requires Valid() && buff.Length > 0
      modifies this`head, buff
      ensures Valid()
      ensures ok <==> |old(Contents())| < buff.Length - 1
      ensures Contents() == if ok then old(Contents()) + [data] else old(Contents())
    {
      var curr := head;
      var next := After(curr, buff.Length);
      BetweenLonger(buff[..], tail, head, data);
      if next == tail {
        return false;
      }
      buff[curr] := data;
      head := next;
      return true;
    }

    /** `peek` leaves the queue as it is. */
    method Pop(peek: bool) returns (ok: bool, data: nat)
      requires Valid()
      modifies this`tail
      ensures Valid()
      ensures ok <==> old(Contents()) != []
      ensures ok ==> data == old(Contents())[0]
      ensures Contents() == if ok && !peek then old(Contents())[1..] else old(Contents())
    {
      var curr := tail;
      if buff.Length > 0 {
        BetweenShorter(buff[..], tail, head);
      }
      if buff.Length == 0 || curr == head {
        return false, 0;
      }
      data := buff[curr];
      if !peek {
        tail := After(curr, buff.Length);
      }
      ok := true;
    }
  }

  // ---- Where the buffers are ---------------------------------------------------------------

  /** The `n` buffers: those in the write queue and in the read queue, oldest first, and
      those held by whoever they were handed to. */
  datatype Places = Places(n: nat, w: seq<nat>, r: seq<nat>, held: set<nat>)

  ghost predicate Distinct(s: seq<nat>) {
    forall i, j :: 0 <= i < j < |s| ==> s[i] != s[j]
  }

  /** Every buffer is in exactly one place. */
  ghost predicate Circulates(p: Places) {
    && Distinct(p.w) && Distinct(p.r)
    && (forall b :: b in p.w ==> b < p.n && b !in p.r && b !in p.held)
    && (forall b :: b in p.r ==> b < p.n && b !in p.held)
    && (forall b :: b in p.held ==> b < p.n)
    && (forall b :: 0 <= b < p.n ==> b in p.w || b in p.r || b in p.held)
  }

  type Circulation = p: Places | Circulates(p) ghost witness Places(0, [], [], {})

  function Elements(s: seq<nat>): (e: set<nat>)
    ensures forall x :: x in e <==> x in s
  {
    set x | x in s
  }

  lemma {:induction false} DistinctCount(s: seq<nat>)
    requires Distinct(s)
    ensures |Elements(s)| == |s|
  {
    if s != [] {
      var last := s[|s| - 1];
      DistinctCount(s[..|s| - 1]);
      assert s == s[..|s| - 1] + [last];
      assert Elements(s) == Elements(s[..|s| - 1]) + {last};
    }
  }

  lemma {:induction false} BelowCount(e: set<nat>, n: nat)
    requires forall x :: x in e ==> x < n
    ensures |e| <= n
  {
    if n > 0 {
      BelowCount(e - {n - 1}, n - 1);
    } else {
      assert e == {};
    }
  }

  /** Distinct numbers below `n` that leave out at least one are fewer than `n`. */
  lemma OneIsMissing(s: seq<nat>, missing: nat, n: nat)
    requires Distinct(s) && missing < n && missing !in s && forall x :: x in s ==> x < n
    ensures |s| < n
  {
    DistinctCount(s);
    BelowCount(Elements(s) + {missing}, n);
  }

  /** The first of distinct elements is not among the others. */
  lemma FirstLeaves(s: seq<nat>)
    requires Distinct(s) && s != []
    ensures Distinct(s[1..]) && s[0] !in s[1..]
    ensures forall b :: b in s <==> b == s[0] || b in s[1..]
  {
    assert s == [s[0]] + s[1..];
  }

  /** The oldest buffer of the write queue is taken. */
  ghost function TakenToWrite(p: Circulation): (q: Circulation)
    requires p.w != []
    ensures q == p.(w := p.w[1..], held := p.held + {p.w[0]})
    ensures p.w[0] < p.n && p.w[0] !in p.held
  {
    FirstLeaves(p.w);
    p.(w := p.w[1..], held := p.held + {p.w[0]})
  }

  /** The oldest buffer of the read queue is taken. */
  ghost function TakenToRead(p: Circulation): (q: Circulation)
    requires p.r != []
    ensures q == p.(r := p.r[1..], held := p.held + {p.r[0]})
    ensures p.r[0] < p.n && p.r[0] !in p.held
  {
    FirstLeaves(p.r);
    p.(r := p.r[1..], held := p.held + {p.r[0]})
  }

  /** A held buffer goes behind the write queue: there is room. */
  ghost function ReturnedToWrite(p: Circulation, b: nat): (q: Circulation)
    requires b in p.held
    ensures q == p.(w := p.w + [b], held := p.held - {b}) && |p.w| < p.n && b < p.n
  {
    OneIsMissing(p.w, b, p.n);
    p.(w := p.w + [b], held := p.held - {b})
  }

  /** A held buffer goes behind the read queue: there is room. */
  ghost function ReturnedToRead(p: Circulation, b: nat): (q: Circulation)
    requires b in p.held
    ensures q == p.(r := p.r + [b], held := p.held - {b}) && |p.r| < p.n && b < p.n
  {
    OneIsMissing(p.r, b, p.n);
    p.(r := p.r + [b], held := p.held - {b})
  }

  lemma Numbered(w: seq<nat>)
    requires forall i :: 0 <= i < |w| ==> w[i] == i
    ensures Circulates(Places(|w|, w, [], {}))
  {
    forall b | 0 <= b < |w| ensures b in w {
      assert w[b] == b;
    }
  }

  ghost function AllToWrite(w: seq<nat>): (p: Circulation)
    requires forall i :: 0 <= i < |w| ==> w[i] == i
    ensures p == Places(|w|, w, [], {})
  {
    Numbered(w);
    Places(|w|, w, [], {})
  }

  // ---- DMAPool -----------------------------------------------------------------------------

  datatype Flag = Read | Write | Discont | Interleaved

  /** What `get_flags` makes of flags, as a value again: it returns a `bool`, and true is
      the bit of Read. */
  function AsFlags(f: set<Flag>): set<Flag> {
    if f != {} then {Read} else {}
  }

  /** Whether `free` returns a buffer to the write queue. */
  predicate Target(f: set<Flag>, own: set<Flag>) {
    Read in (if f == {} then AsFlags(own) else f)
  }

  lemma Shifted(w: seq<nat>, r: seq<nat>)
    requires r != []
    ensures (w + [r[0]]) + r[1..] == w + r
  {
  }

  lemma Extended(w: seq<nat>, r: seq<nat>, b: nat)
    ensures (w + r) + [b] == w + (r + [b])
  {
  }

  class DMAPool {
    const wqueue: SPSCQueue
    const rqueue: SPSCQueue
    /** The flags of each buffer. */
    const flags: array<set<Flag>>
    ghost var places: Circulation
    /** The buffers released to be read, and those taken to be read, in order. */
    ghost var written: seq<nat>
    ghost var read: seq<nat>

    /** The queues hold what `places` says; and the buffers taken to be read are the first
        of those released to be read, in the same order. */
    ghost predicate Valid()
      reads this, wqueue, rqueue, wqueue.buff, rqueue.buff
    {
      && wqueue != rqueue && wqueue.buff != rqueue.buff
      && wqueue.Valid() && wqueue.buff.Length == Room(places.n) && wqueue.Contents() == places.w
      && rqueue.Valid() && rqueue.buff.Length == Room(places.n) && rqueue.Contents() == places.r
      && flags.Length == places.n
      && written == read + places.r
    }

    /** All buffers start in the write queue. */
    constructor (n: nat)
      ensures Valid() && flags.Length == n && places.r == [] && places.held == {} && written == []
      ensures |places.w| == n && forall i :: 0 <= i < n ==> places.w[i] == i
      ensures fresh(wqueue) && fresh(rqueue) && fresh(wqueue.buff) && fresh(rqueue.buff) && fresh(flags)
    {
      wqueue := new SPSCQueue(n);
      rqueue := new SPSCQueue(n);
      flags := new set<Flag>[n](_ => {});
      written, read := [], [];
      new;
      for i := 0 to n
        invariant written == [] && read == []
        invariant wqueue.Valid() && rqueue.Valid() && rqueue.Contents() == []
        invariant |wqueue.Contents()| == i && forall k :: 0 <= k < i ==> wqueue.Contents()[k] == k
      {
        var ok := wqueue.Push(i);
      }
      places := AllToWrite(wqueue.Contents());
    }

    method Readable() returns (r: bool)
      requires Valid()
      ensures r <==> places.r != []
    {
      var e := rqueue.Empty();
      r := !e;
    }

    /** A buffer to read comes from the read queue, any other from the write queue. */
    method Alloc(f: set<Flag>) returns (ok: bool, b: nat)
      requires Valid()
      modifies this, wqueue`tail, rqueue`tail, flags
      ensures Valid() && written == old(written)
      ensures ok <==> (if Read in f then old(places).r else old(places).w) != []
      ensures !ok ==> places == old(places) && flags[..] == old(flags[..])
      ensures ok && Read in f ==> b == old(places).r[0] && places == TakenToRead(old(places))
      ensures ok && Read !in f ==> b == old(places).w[0] && places == TakenToWrite(old(places))
      ensures ok ==> flags[..] == old(flags[..])[b := old(flags[b]) - {Read, Write} + f]
    {
      if Read in f {
        ok, b := TakeRead();
      } else {
        ok, b := TakeWrite();
      }
      if ok {
        flags[b] := flags[b] - {Read, Write};
        flags[b] := flags[b] + f;
      }
    }

    method TakeRead() returns (ok: bool, b: nat)
      requires Valid()
      modifies this`places, this`read, rqueue`tail
      ensures Valid() && (ok <==> old(places).r != [])
      ensures if ok then b == old(places).r[0] && places == TakenToRead(old(places)) else places == old(places)
    {
      if places.r != [] {
        Shifted(read, places.r);
      }
      ok, b := rqueue.Pop(false);
      if ok {
        places, read := TakenToRead(places), read + [b];
      }
    }

    method TakeWrite() returns (ok: bool, b: nat)
      requires Valid()
      modifies this`places, wqueue`tail
      ensures Valid() && (ok <==> old(places).w != [])
      ensures if ok then b == old(places).w[0] && places == TakenToWrite(old(places)) else places == old(places)
    {
      ok, b := wqueue.Pop(false);
      if ok {
        places := TakenToWrite(places);
      }
    }

    /** A buffer taken to read goes back to the write queue, without its flags; any other
        goes to the read queue, behind all those released before. Neither is ever full. */
    method Free(b: nat, f: set<Flag>)
      requires Valid() && b in places.held
      modifies this, wqueue`head, wqueue.buff, rqueue`head, rqueue.buff, flags
      ensures Valid() && read == old(read)
      ensures Target(f, old(flags[b])) ==>
        places == ReturnedToWrite(old(places), b) && written == old(written) && flags[..] == old(flags[..])[b := {}]
      ensures !Target(f, old(flags[b])) ==>
        places == ReturnedToRead(old(places), b) && written == old(written) + [b] && flags[..] == old(flags[..])
    {
      var g := f;
      if g == {} {
        g := AsFlags(flags[b]);
      }
      if Read in g {
        flags[b] := {};
        PutToWrite(b);
      } else {
        PutToRead(b);
      }
    }

    method PutToWrite(b: nat)
      requires Valid() && b in places.held
      modifies this`places, wqueue`head, wqueue.buff
      ensures Valid() && places == ReturnedToWrite(old(places), b)
    {
      places := ReturnedToWrite(places, b);
      var ok := wqueue.Push(b);
    }

    method PutToRead(b: nat)
      requires Valid() && b in places.held
      modifies this`places, this`written, rqueue`head, rqueue.buff
      ensures Valid() && places == ReturnedToRead(old(places), b) && written == old(written) + [b]
    {
      Extended(read, places.r, b);
      places, written := ReturnedToRead(places, b), written + [b];
      var ok := rqueue.Push(b);
    }

    /** `DMABuffer::release`. */
    method Release(b: nat)
      requires Valid() && b in places.held
      modifies this, wqueue`head, wqueue.buff, rqueue`head, rqueue.buff, flags
      ensures Valid() && read == old(read)
      ensures Read in old(flags[b]) ==>
        places == ReturnedToWrite(old(places), b) && written == old(written) && flags[..] == old(flags[..])[b := {}]
      ensures Read !in old(flags[b]) ==>
        places == ReturnedToRead(old(places), b) && written == old(written) + [b] && flags[..] == old(flags[..])
    {
      Free(b, flags[b]);
    }

    /** One turn of the loop of `flush`. */
    method FlushOne()
      requires Valid() && places.r != []
      modifies this, wqueue, wqueue.buff, rqueue, rqueue.buff, flags
      ensures Valid() && written == old(written)
      ensures places == old(places).(w := old(places).w + [old(places).r[0]], r := old(places).r[1..])
    {
      var ok, b := Alloc({Read});
      if ok {
        Release(b);
      }
    }

    /** `flush`: everything waiting to be read goes back to be written, in order. */
    method Flush()
      requires Valid()
      modifies this, wqueue, wqueue.buff, rqueue, rqueue.buff, flags
      ensures Valid() && written == old(written)
      ensures places == old(places).(w := old(places).w + old(places).r, r := [])
    {
      ghost var was := places;
      var more := Readable();
      while more
        invariant Valid() && written == old(written)
        invariant more <==> places.r != []
        invariant places.n == was.n && places.held == was.held && places.w + places.r == was.w + was.r
        decreases |places.r|
      {
        Shifted(places.w, places.r);
        FlushOne();
        more := Readable();
      }
    }
  }

  // ---- Which release does what ---------------------------------------------------------------

  /** Freeing without flags, as `free(buf)`, is the same as releasing exactly when the
      buffer was taken to read or has no flags: one that was written goes back to the
      write queue instead, and is never read. */
  lemma DefaultFreeIsRelease(own: set<Flag>)
    ensures Target({}, own) == (Read in own) <==> Read in own || own == {}
  {
  }

  /** A buffer taken to write, filled, and given back by `free(buf)` instead of `release()`:
      it is at the end of the write queue, and nothing can be read. */
  method WrittenAndLost(pool: DMAPool) returns (ok: bool, b: nat)
    requires pool.Valid() && pool.places.r == [] && pool.places.w != []
    requires forall k :: 0 <= k < pool.flags.Length ==> pool.flags[k] == {}
    modifies pool, pool.wqueue, pool.wqueue.buff, pool.rqueue, pool.rqueue.buff, pool.flags
    ensures pool.Valid() && ok && b == old(pool.places.w[0])
    ensures pool.places == old(pool.places).(w := old(pool.places.w)[1..] + [b])
    ensures pool.places.r == [] && pool.written == old(pool.written)
  {
    ok, b := pool.Alloc({Write});
    assert pool.flags[..][b] == {Write};
    pool.Free(b, {});
  }
}
