/** The microsecond clock of wiring_time.c. A counter runs from 0 to one less than the
    ticks of a millisecond and starts again; an interrupt handler counts the wraps, some
    time after they happen. Time is counted in ticks since the counter was started. */
module SysTick {
  import opened Arith

  const TWO_32 := 0x1_0000_0000

  /** Ticks per millisecond and per microsecond, as `ch32h4_systick_init` derives them. */
  function PerMs(hclk: nat): nat { hclk / 1000 }

  function PerUs(hclk: nat): nat { hclk / 1000000 }

  /** The wraps of the counter up to time `t`, and the counter then. */
  function Wraps(t: nat, perMs: nat): nat
    requires perMs > 0
  {
    t / perMs
  }

  function Phase(t: nat, perMs: nat): nat
    requires perMs > 0
  {
    t % perMs
  }

  /** What `micros` makes of a number of wraps and a counter value. */
  function Reading(wraps: nat, cnt: nat, perUs: nat): nat
    requires perUs > 0
  {
    wraps * 1000 + cnt / perUs
  }

  /** Microseconds since the start, when a microsecond is a whole number of ticks. */
  lemma ReadingIsExact(t: nat, perMs: nat, perUs: nat)
    requires perUs > 0 && perMs == 1000 * perUs
    ensures Reading(Wraps(t, perMs), Phase(t, perMs), perUs) == t / perUs
  {
    var w, c := Wraps(t, perMs), Phase(t, perMs);
    DivMod(t, perMs);
    DivMod(c, perUs);
    MulAssoc(w, 1000, perUs);
    var q := w * 1000 + c / perUs;
    assert q * perUs == w * 1000 * perUs + c / perUs * perUs;
    DivModUnique(t, perUs, q, c % perUs);
  }

  /** Dropping multiples of 2^32 from the wraps drops them from the reading. */
  lemma ReadingModulo(wraps: nat, cnt: nat, perUs: nat)
    requires perUs > 0
    ensures (wraps % TWO_32 * 1000 + cnt / perUs) % TWO_32 == Reading(wraps, cnt, perUs) % TWO_32
  {
    var q, u := wraps / TWO_32, cnt / perUs;
    DivMod(wraps, TWO_32);
    var small := wraps % TWO_32 * 1000 + u;
    DivMod(small, TWO_32);
    DivModUnique(wraps * 1000 + u, TWO_32, q * 1000 + small / TWO_32, small % TWO_32);
  }

  // ---- What happens beside the reads ------------------------------------------------------

  /** The true time, in ticks; bit 0 of ISR; whether the handler has cleared that bit and
      not counted the wrap yet; and the wraps it has counted. */
  datatype State = State(now: nat, pending: bool, cleared: bool, handled: nat)

  /** Time passes, or the handler makes one of its two steps. */
  datatype Event = Elapse(later: nat) | Clear | Count

  /** Every wrap has been counted but for at most one. */
  ghost predicate Fits(s: State, perMs: nat)
    requires perMs > 0
  {
    && !(s.pending && s.cleared)
    && Wraps(s.now, perMs) == s.handled + if s.pending || s.cleared then 1 else 0
  }

  /** The handler is never delayed past a second wrap. */
  function Apply(s: State, e: Event, perMs: nat): State
    requires perMs > 0
  {
    match e
    case Elapse(later) =>
      var wraps := Wraps(later, perMs) - Wraps(s.now, perMs);
      if later >= s.now && (wraps == 0 || (wraps == 1 && !s.pending && !s.cleared))
      then s.(now := later, pending := s.pending || wraps == 1) else s
    case Clear => if s.pending then s.(pending := false, cleared := true) else s
    case Count => if s.cleared then s.(cleared := false, handled := s.handled + 1) else s
  }

  function Run(s: State, events: seq<Event>, perMs: nat): State
    requires perMs > 0
  {
    if events == [] then s else Apply(Run(s, events[..|events| - 1], perMs), events[|events| - 1], perMs)
  }

  /** Time passes and the handler does not run. */
  ghost predicate Quiet(events: seq<Event>) {
    forall i :: 0 <= i < |events| ==> events[i].Elapse?
  }

  /** `t` comes after `s`, and the handler has not run in between if `quiet`. */
  ghost predicate After(s: State, t: State, perMs: nat, quiet: bool)
    requires perMs > 0
  {
    && s.now <= t.now && s.handled <= t.handled && Wraps(s.now, perMs) <= Wraps(t.now, perMs)
    && (quiet ==> t.handled == s.handled && t.cleared == s.cleared && (s.pending ==> t.pending))
  }

  lemma {:induction false} RunKeeps(s: State, events: seq<Event>, perMs: nat)
    requires perMs > 0 && Fits(s, perMs)
    ensures var t := Run(s, events, perMs); Fits(t, perMs) && After(s, t, perMs, Quiet(events))
  {
    if events != [] {
      var before := events[..|events| - 1];
      RunKeeps(s, before, perMs);
      assert Quiet(events) ==> Quiet(before);
    }
  }

  // ---- The reads of micros -------------------------------------------------------------------

  /** What happens after the load of `s_millis`, after that of CNT, and after that of ISR. */
  datatype Gaps = Gaps(first: seq<Event>, second: seq<Event>, third: seq<Event>)

  /** What the reads take: the wraps and the counter, the instant of the counter, and the
      state they end in. */
  datatype Taken = Taken(wraps: nat, cnt: nat, at: nat, end: State)

  function Reads(s: State, g: Gaps, perMs: nat): Taken
    requires perMs > 0
  {
    var s1 := Run(s, g.first, perMs);
    var s2 := Run(s1, g.second, perMs);
    if s2.pending then
      var s3 := Run(s2, g.third, perMs);
      Taken(s.handled + 1, Phase(s3.now, perMs), s3.now, s3)
    else Taken(s.handled, Phase(s1.now, perMs), s1.now, s2)
  }

  /** The milliseconds by which the wraps taken are behind those of the instant taken. */
  function Lost(s: State, g: Gaps, perMs: nat): int
    requires perMs > 0
  {
    var r := Reads(s, g, perMs);
    Wraps(r.at, perMs) - r.wraps
  }

  /** The handler does not run between the reads, and is not in its middle before them. */
  ghost predicate Undisturbed(s: State, g: Gaps) {
    !s.cleared && Quiet(g.first) && Quiet(g.second) && Quiet(g.third)
  }

  /** From the first wrap that is not counted at the first read to the last read is less than
      one period. */
  ghost predicate Short(s: State, g: Gaps, perMs: nat)
    requires perMs > 0
  {
    Wraps(Reads(s, g, perMs).end.now, perMs) <= s.handled + 1
  }

  /** The first counter value comes from after a wrap that was not counted at the first
      read, and the bit of that wrap is clear by the time ISR is read. */
  ghost predicate Missed(s: State, g: Gaps, perMs: nat)
    requires perMs > 0
  {
    var s1 := Run(s, g.first, perMs);
    !Run(s1, g.second, perMs).pending && Wraps(s1.now, perMs) > s.handled
  }

  /** The reads are never ahead of the instant taken. Whatever the handler does, they are
      behind by no more than one wrap and those from the first read on; reads that are short,
      by one wrap exactly if it was missed; reads that are undisturbed are short and right. */
  lemma ReadsAreRight(s: State, g: Gaps, perMs: nat)
    requires perMs > 0 && Fits(s, perMs)
    ensures var r := Reads(s, g, perMs); s.now <= r.at <= r.end.now && Fits(r.end, perMs)
    ensures 0 <= Lost(s, g, perMs) <= 1 + Wraps(Reads(s, g, perMs).at, perMs) - Wraps(s.now, perMs)
    ensures Short(s, g, perMs) ==> Lost(s, g, perMs) == if Missed(s, g, perMs) then 1 else 0
    ensures Undisturbed(s, g) ==> Short(s, g, perMs) && !Missed(s, g, perMs)
  {
    var s1 := Run(s, g.first, perMs);
    var s2 := Run(s1, g.second, perMs);
    RunKeeps(s, g.first, perMs);
    RunKeeps(s1, g.second, perMs);
    RunKeeps(s2, g.third, perMs);
  }

  /** Whether the handler may run on while `micros` reads: it may if the caller is on the
      core that does not take its interrupt, or has interrupted it. */
  ghost predicate Possible(shielded: bool, s: State, g: Gaps, perMs: nat)
    requires perMs > 0
  {
    Fits(s, perMs) && Short(s, g, perMs) && (shielded ==> Undisturbed(s, g))
  }

  /** The result is the true count of microseconds at some instant inside the call. */
  ghost predicate CountsAnInstant(s: State, g: Gaps, perMs: nat, perUs: nat)
    requires perMs > 0 && perUs > 0
  {
    var r := Reads(s, g, perMs);
    exists at: nat :: s.now <= at <= r.end.now && Reading(r.wraps, r.cnt, perUs) == at / perUs
  }

  /** Every placement of the wrap and the handler among the reads gives the count of an
      instant inside the call if and only if the handler is shut out. */
  lemma RightExactlyIfShielded(shielded: bool, perUs: nat)
    requires perUs > 0
    ensures (forall s, g :: Possible(shielded, s, g, 1000 * perUs) ==> CountsAnInstant(s, g, 1000 * perUs, perUs))
            <==> shielded
  {
    var perMs := 1000 * perUs;
    if shielded {
      forall s, g | Possible(shielded, s, g, perMs) ensures CountsAnInstant(s, g, perMs, perUs) {
        ReadsAreRight(s, g, perMs);
        ReadingIsExact(Reads(s, g, perMs).at, perMs, perUs);
      }
    } else {
      var s, g := BackByAMillisecond(perUs);
    }
  }

  /** The wrap comes after the load of `s_millis`, and the handler runs before that of ISR. */
  const Overtaken := Gaps([Elapse(1000)], [Clear, Count], [])

  lemma Overtakes(perMs: nat, s: State, g: Gaps)
    requires perMs > 1 && s == State(perMs - 1, false, false, 0) && g == Gaps([Elapse(perMs)], [Clear, Count], [])
    ensures Fits(s, perMs) && Short(s, g, perMs) && Lost(s, g, perMs) == 1
    ensures Reads(s, g, perMs) == Taken(0, 0, perMs, State(perMs, false, false, 1))
  {
    DivModUnique(perMs - 1, perMs, 0, perMs - 1);
    DivModUnique(perMs, perMs, 1, 0);
    var s1 := Run(s, g.first, perMs);
    assert Run(s, [], perMs) == s && g.first[..0] == [];
    assert s1 == State(perMs, true, false, 0);
    assert g.second[..1] == [Clear] && [Clear][..0] == [];
    assert Run(s1, [Clear], perMs) == State(perMs, false, true, 0);
    assert Run(s1, g.second, perMs) == State(perMs, false, false, 1);
  }

  lemma BackByAMillisecond(perUs: nat) returns (s: State, g: Gaps)
    requires perUs > 0
    ensures Possible(false, s, g, 1000 * perUs) && !CountsAnInstant(s, g, 1000 * perUs, perUs)
  {
    var perMs := 1000 * perUs;
    s, g := State(perMs - 1, false, false, 0), Gaps([Elapse(perMs)], [Clear, Count], []);
    Overtakes(perMs, s, g);
    DivModUnique(0, perUs, 0, 0);
    forall at: nat | s.now <= at ensures at / perUs != 0 {
      DivAtLeast(at, perUs, 1);
    }
  }

  /** A result of `micros` for reads from `s` on: the true count `count` at the instant `at`,
      less the milliseconds lost. */
  ghost predicate Behind(s: State, g: Gaps, perMs: nat, us: nat, at: nat, count: int, lost: nat)
    requires perMs > 0
  {
    && at == Reads(s, g, perMs).at && lost == Lost(s, g, perMs)
    && us == (count - 1000 * lost) % TWO_32
    && (Undisturbed(s, g) ==> lost == 0)
    && (Short(s, g, perMs) ==> lost <= 1 && (lost == 1 <==> Missed(s, g, perMs)))
  }

  // ---- The clock -------------------------------------------------------------------------

  class Clock {
    const perMs: nat
    const perUs: nat
    /** The true time, in ticks; bit 0 of ISR, a wrap not counted yet; and whether the
        handler has cleared it and not counted it yet. */
    var now: nat
    var pending: bool
    var cleared: bool
    /** Wraps the handler has counted, and the same in 32 bits, `s_millis`. */
    ghost var handled: nat
    var millis: nat

    /** A whole number of ticks per microsecond. */
    ghost predicate Valid()
      reads this
    {
      perUs > 0 && perMs == 1000 * perUs && millis == handled % TWO_32 && Fits(Now(), perMs)
    }

    ghost function Now(): State
      reads this
    {
      State(now, pending, cleared, handled)
    }

    constructor (hclk: nat)
      requires hclk > 0 && hclk % 1000000 == 0
      ensures Valid() && Now() == State(0, false, false, 0) && perUs == hclk / 1000000
    {
      perMs, perUs := PerMs(hclk), PerUs(hclk);
      now, pending, cleared, handled, millis := 0, false, false, 0, 0;
      new;
      DivModUnique(0, perMs, 0, 0);
    }

    /** CNT. */
    method Counter() returns (c: nat)
      requires Valid()
      ensures c == Phase(now, perMs)
    {
      c := now % perMs;
    }

    /** The two steps of `SysTick0_Handler`. */
    method ClearBit()
      requires Valid()
      modifies this`pending, this`cleared
      ensures Valid() && Now() == Apply(old(Now()), Clear, perMs)
    {
      if pending {
        pending, cleared := false, true;
      }
    }

    method CountWrap()
      requires Valid()
      modifies this`cleared, this`handled, this`millis
      ensures Valid() && Now() == Apply(old(Now()), Count, perMs)
    {
      if cleared {
        AddModulo(handled, 1, TWO_32);
        cleared, handled, millis := false, handled + 1, (millis + 1) % TWO_32;
      }
    }

    /** `SysTick0_Handler`, on a core of its own or not: time goes on between its steps, but
        it ends before the next wrap. */
    method Handler(later: nat)
      requires Valid() && pending
      modifies this
      ensures Valid() && !pending && !cleared && handled == old(handled) + 1
    {
      ClearBit();
      Pass([Elapse(later)]);
      CountWrap();
    }

    method Elapsed(later: nat)
      requires Valid()
      modifies this`now, this`pending
      ensures Valid() && Now() == Apply(old(Now()), Elapse(later), perMs)
    {
      var wraps := later / perMs - now / perMs;
      if later >= now && (wraps == 0 || (wraps == 1 && !pending && !cleared)) {
        now, pending := later, pending || wraps == 1;
      }
    }

    /** What happens between two steps of the caller. */
    method Pass(events: seq<Event>)
      requires Valid()
      modifies this
      ensures Valid() && Now() == Run(old(Now()), events, perMs)
    {
      for i := 0 to |events|
        invariant Valid() && Now() == Run(old(Now()), events[..i], perMs)
      {
        assert events[..i + 1][..i] == events[..i];
        match events[i] {
          case Elapse(later) => Elapsed(later);
          case Clear => ClearBit();
          case Count => CountWrap();
        }
      }
      assert events[..|events|] == events;
    }

    /** The reads of `micros`. */
    method Sample(g: Gaps) returns (ms: nat, cnt: nat)
      requires Valid()
      modifies this
      ensures Valid()
      ensures var r := Reads(old(Now()), g, perMs); Now() == r.end && ms == r.wraps % TWO_32 && cnt == r.cnt
    {
      ms := millis;
      Pass(g.first);
      cnt := Counter();
      Pass(g.second);
      if pending {
        Pass(g.third);
        cnt := Counter();
        AddModulo(old(handled), 1, TWO_32);
        ms := (ms + 1) % TWO_32;
      }
    }

    /** `micros`, called at a time at which `before` goes on until interrupts are masked.
        The result is the true count of microseconds at an instant `at` inside the call,
        modulo 2^32, less the milliseconds lost: none if the handler is shut out of the
        reads, and if they are short never more than one. */
    method Micros(before: seq<Event>, g: Gaps) returns (us: nat, ghost at: nat, ghost lost: nat)
      requires Valid()
      modifies this
      ensures Valid() && old(now) <= at <= now
      ensures Behind(Run(old(Now()), before, perMs), g, perMs, us, at, at / perUs, lost)
      ensures Now() == Reads(Run(old(Now()), before, perMs), g, perMs).end
    {
      RunKeeps(Now(), before, perMs);
      Pass(before);
      ReadsAreRight(Now(), g, perMs);
      ghost var r := Reads(Now(), g, perMs);
      at, lost := r.at, Lost(Now(), g, perMs);
      var ms, cnt := Sample(g);
      ReadingBehind(r.wraps, cnt, at, perMs, perUs);
      us := (ms * 1000 + cnt / perUs) % TWO_32;
    }

    /** Two readings, and what goes on between the calls: their difference in 32 bits is the
        true difference of two instants inside the calls, but for the milliseconds lost. So
        the clock never goes backwards where the handler is shut out. */
    method Interval(before: seq<Event>, g: Gaps, between: seq<Event>, h: Gaps)
      returns (first: nat, second: nat, ghost from: nat, ghost to: nat, ghost early: nat, ghost late: nat)
      requires Valid()
      modifies this
      ensures Valid() && old(now) <= from <= to <= now && from / perUs <= to / perUs
      ensures (second - first) % TWO_32 == (to / perUs - from / perUs + 1000 * (early - late)) % TWO_32
      ensures var s := Run(old(Now()), before, perMs);
        var t := Run(Reads(s, g, perMs).end, between, perMs);
        Behind(s, g, perMs, first, from, from / perUs, early) && Behind(t, h, perMs, second, to, to / perUs, late)
    {
      first, from, early := Micros(before, g);
      second, to, late := Micros(between, h);
      InOrderOfTime(from, to, perUs);
      BehindBoth(from / perUs, to / perUs, early, late, first, second);
    }
  }

  lemma InOrderOfTime(from: nat, to: nat, perUs: nat)
    requires perUs > 0 && from <= to
    ensures from / perUs <= to / perUs
  {
    DivMod(from, perUs);
    DivAtLeast(to, perUs, from / perUs);
  }

  lemma BehindBoth(from: int, to: int, early: int, late: int, first: int, second: int)
    requires first == (from - 1000 * early) % TWO_32 && second == (to - 1000 * late) % TWO_32
    ensures (second - first) % TWO_32 == (to - from + 1000 * (early - late)) % TWO_32
  {
    DifferenceModulo(from - 1000 * early, to - 1000 * late);
  }

  lemma ReadingBehind(wraps: nat, cnt: nat, at: nat, perMs: nat, perUs: nat)
    requires perUs > 0 && perMs == 1000 * perUs && cnt == Phase(at, perMs)
    ensures (wraps % TWO_32 * 1000 + cnt / perUs) % TWO_32 == (at / perUs - 1000 * (Wraps(at, perMs) - wraps)) % TWO_32
  {
    ReadingIsExact(at, perMs, perUs);
    ReadingModulo(wraps, cnt, perUs);
  }

  /** A reading just before a wrap, and the state it leaves. */
  lemma BeforeTheWrap(s: State)
    requires s == State(0, false, false, 0)
    ensures var t := State(999, false, false, 0);
      && Run(s, [Elapse(999)], 1000) == t && Run(t, [], 1000) == t
      && Reads(t, Gaps([], [], []), 1000) == Taken(0, 999, 999, t) && Lost(t, Gaps([], [], []), 1000) == 0
  {
    assert [Elapse(999)][..0] == [];
    assert Run(s, [], 1000) == s;
  }

  /** On the core that does not take the interrupt the clock goes back, within two readings,
      from 999 to 0; their difference is more than an hour. */
  method GoesBackOnTheOtherCore() returns (first: nat, second: nat)
    ensures first == 999 && second == 0 && (second - first) % TWO_32 == 4_294_966_297
  {
    var clock := new Clock(1000000);
    ghost var from, to, early, late, t;
    t := Reads(State(999, false, false, 0), Gaps([], [], []), 1000).end;
    BeforeTheWrap(State(0, false, false, 0));
    Overtakes(1000, t, Overtaken);
    first, from, early := clock.Micros([Elapse(999)], Gaps([], [], []));
    SmallReading(State(999, false, false, 0), Gaps([], [], []), clock.perUs, first, from, early);
    second, to, late := clock.Micros([], Overtaken);
    SmallReading(t, Overtaken, clock.perUs, second, to, late);
    DivModUnique(-999, TWO_32, -1, 4_294_966_297);
  }

  lemma SmallReading(s: State, g: Gaps, perUs: nat, us: nat, at: nat, lost: nat)
    requires perUs == 1 && Behind(s, g, 1000, us, at, at / perUs, lost) && 0 <= at - 1000 * lost < TWO_32
    ensures us == Reads(s, g, 1000).at - 1000 * Lost(s, g, 1000)
  {
    DivModUnique(at, perUs, at, 0);
    DivModUnique(at - 1000 * lost, TWO_32, 0, at - 1000 * lost);
  }

  lemma DifferenceModulo(a: int, b: int)
    ensures (b % TWO_32 - a % TWO_32) % TWO_32 == (b - a) % TWO_32
  {
    DivMod(a, TWO_32);
    DivMod(b, TWO_32);
    DivMod(b - a, TWO_32);
    DivModUnique(b % TWO_32 - a % TWO_32, TWO_32, (b - a) / TWO_32 - b / TWO_32 + a / TWO_32, (b - a) % TWO_32);
  }

  // ---- Other clock rates -------------------------------------------------------------------

  /** The reading at true time `t`, with the rounded ticks of any clock rate. */
  function At(t: nat, hclk: nat): nat
    requires hclk >= 1000000
  {
    Reading(Wraps(t, PerMs(hclk)), Phase(t, PerMs(hclk)), PerUs(hclk))
  }

  /** Over one wrap the reading does not go backwards exactly if the ticks that a millisecond has
      beyond a thousand whole microseconds are no more than one microsecond's. */
  lemma ForwardsAtTheWrap(hclk: nat, wraps: nat)
    requires hclk >= 1000000
    ensures var p := PerMs(hclk);
      At(wraps * p + (p - 1), hclk) <= At((wraps + 1) * p, hclk) <==> p % 1000 <= PerUs(hclk)
  {
    var p, u := PerMs(hclk), PerUs(hclk);
    DivDiv(hclk, 1000, 1000);
    DivMod(p, 1000);
    DivModUnique(wraps * p + (p - 1), p, wraps, p - 1);
    DivModUnique((wraps + 1) * p, p, wraps + 1, 0);
    DivAtLeast(p - 1, u, 1001);
  }

  // ---- delayMicroseconds --------------------------------------------------------------------

  /** Ticks between two readings of the counter, as the loop computes them. */
  function Elapsed(prev: nat, now: nat, reload: nat): int {
    if now >= prev then now - prev else reload - prev + now
  }

  /** They are never more than the true ticks, and no fewer within one period. */
  lemma ElapsedIsModulo(a: nat, b: nat, reload: nat)
    requires reload > 0 && a <= b
    ensures 0 <= Elapsed(a % reload, b % reload, reload) <= b - a
    ensures b - a < reload ==> Elapsed(a % reload, b % reload, reload) == b - a
  {
    DivMod(a, reload);
    DivMod(b, reload);
    var e := Elapsed(a % reload, b % reload, reload);
    var q := b / reload - a / reload - if b % reload >= a % reload then 0 else 1;
    assert b - a == q * reload + e by {
      assert (b / reload - a / reload - 1) * reload == b / reload * reload - a / reload * reload - reload;
      assert (b / reload - a / reload) * reload == b / reload * reload - a / reload * reload;
    }
    MulCancelLess(-1, q, reload);
    MulMono(0, q, reload);
    if b - a < reload {
      MulCancelLess(q, 1, reload);
    }
  }

  /** The instants of the readings, in order. */
  ghost predicate InOrder(at: seq<nat>) {
    at != [] && forall i, j :: 0 <= i < j < |at| ==> at[i] <= at[j]
  }

  /** No two readings are a whole period apart. */
  ghost predicate Prompt(at: seq<nat>, reload: nat) {
    forall i :: 0 < i < |at| ==> at[i] - at[i - 1] < reload
  }

  /** `delayMicroseconds`, when the counter is read at the instants `at`: the first before
      the loop, the others one a turn. `waited` is the number of the last reading made.

      The ticks are counted in 32 bits. It never returns before so many have passed, and if
      no two readings are a millisecond apart it returns at the first reading that late; and
      they are the requested ones exactly if their number fits. */
  method DelayMicroseconds(us: nat, perUs: nat, at: seq<nat>) returns (returned: bool, waited: nat)
    requires perUs > 0 && InOrder(at)
    ensures waited < |at| && (!returned ==> waited == |at| - 1)
    ensures returned ==> at[waited] - at[0] >= us * perUs % TWO_32
    ensures Prompt(at, 1000 * perUs) ==>
      (waited > 0 ==> at[waited - 1] - at[0] < us * perUs % TWO_32)
      && (!returned ==> at[waited] - at[0] < us * perUs % TWO_32)
    ensures us * perUs % TWO_32 == us * perUs <==> us * perUs < TWO_32
  {
    waited := 0;
    FitsExactly(us * perUs);
    if us == 0 {
      return true, 0;
    }
    var reload := 1000 * perUs;
    returned, waited := Wait(us * perUs % TWO_32, reload, at);
  }

  lemma FitsExactly(n: nat)
    ensures n % TWO_32 <= n && (n % TWO_32 == n <==> n < TWO_32)
  {
    DivMod(n, TWO_32);
  }

  /** Whenever the number does not fit, prompt readings make it return too early. */
  method ReturnsEarly(us: nat, perUs: nat) returns (at: seq<nat>, returned: bool, waited: nat)
    requires perUs > 0 && us * perUs >= TWO_32
    ensures InOrder(at) && Prompt(at, 1000 * perUs) && returned && waited < |at|
    ensures at[waited] - at[0] == us * perUs % TWO_32 < us * perUs
  {
    FitsExactly(us * perUs);
    at := seq(us * perUs % TWO_32 + 1, i => i);
    returned, waited := DelayMicroseconds(us, perUs, at);
  }

  /** Forty-three seconds at a hundred ticks to the microsecond are over after four ticks. */
  method FortyThreeSeconds() returns (at: seq<nat>, returned: bool, waited: nat)
    ensures InOrder(at) && Prompt(at, 100_000) && returned && waited < |at| && at[waited] - at[0] == 4
  {
    at, returned, waited := ReturnsEarly(42_949_673, 100);
  }

  method Wait(ticks: nat, reload: nat, at: seq<nat>) returns (returned: bool, waited: nat)
    requires reload > 0 && InOrder(at)
    ensures waited < |at| && (!returned ==> waited == |at| - 1)
    ensures returned ==> at[waited] - at[0] >= ticks
    ensures Prompt(at, reload) ==>
      (waited > 0 ==> at[waited - 1] - at[0] < ticks) && (!returned ==> at[waited] - at[0] < ticks)
  {
    waited := 0;
    var remaining := ticks;
    var prev := at[0] % reload;
    while remaining > 0
      invariant waited < |at| && prev == at[waited] % reload
      invariant 0 <= ticks - remaining <= at[waited] - at[0] && (waited > 0 ==> remaining > 0)
      invariant Prompt(at, reload) ==> ticks - remaining == at[waited] - at[0]
      decreases |at| - waited
    {
      if waited + 1 == |at| {
        return false, waited;
      }
      ElapsedIsModulo(at[waited], at[waited + 1], reload);
      waited := waited + 1;
      var now := at[waited] % reload;
      var elapsed := Elapsed(prev, now, reload);
      if elapsed >= remaining {
        return true, waited;
      }
      remaining := remaining - elapsed;
      prev := now;
    }
    returned := true;
  }
}
