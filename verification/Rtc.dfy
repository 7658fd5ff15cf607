/** The real-time clock of ch32h4_rtc.c: a counter of seconds since 2000 in 32 bits, a
    divider that counts down within the second, and reads that may straddle a second. */
module Rtc {
  import opened Arith

  const TWO_32 := 0x1_0000_0000

  /** Seconds from 1970 to 2000. */
  const OFFSET: nat := 946684800

  /** What `ch32h4_rtc_set` stores, and what `ch32h4_rtc_get` makes of a counter; both in
      32 bits. */
  function Stored(seconds: int): nat {
    (seconds - OFFSET) % TWO_32
  }

  function Reported(counter: nat): nat {
    (counter + OFFSET) % TWO_32
  }

  /** Of the times the counter can hold, up to 2136, exactly those before 2106 are
      reported as they were set. */
  lemma SetIsReported(seconds: int)
    requires OFFSET <= seconds < OFFSET + TWO_32
    ensures Reported(Stored(seconds)) == seconds <==> seconds < TWO_32
  {
  }

  /** Microseconds into the second, `phase` ticks of `hz` into it. */
  function Micros(phase: nat, hz: nat): int
    requires hz > 0
  {
    phase * 1000000 / hz
  }

  lemma MicrosBelowMillion(phase: nat, hz: nat)
    requires phase < hz
    ensures 0 <= Micros(phase, hz) < 1000000
  {
    MulMono(0, phase, 1000000);
    MulMono(phase + 1, hz, 1000000);
    DivMod(phase * 1000000, hz);
    MulCancelLess(-1, Micros(phase, hz), hz);
    MulCancelLess(Micros(phase, hz), 1000000, hz);
  }

  /** Seconds gone, and ticks into the current one, at time `t`. */
  function Seconds(t: nat, hz: nat): nat
    requires hz > 0
  {
    t / hz
  }

  function Phase(t: nat, hz: nat): (p: nat)
    requires hz > 0
    ensures p < hz
  {
    t % hz
  }

  lemma SecondsGrow(t: nat, u: nat, hz: nat)
    requires hz > 0 && t <= u
    ensures Seconds(t, hz) <= Seconds(u, hz)
  {
    DivMod(t, hz);
    DivAtLeast(u, hz, t / hz);
  }

  class Clock {
    const hz: nat
    /** Time in ticks of the source since the counter was at zero. */
    var now: nat
    var running: bool

    predicate Valid()
      reads this
    {
      hz > 0
    }

    /** CNT. */
    method Counter() returns (c: nat)
      requires Valid()
      ensures c == Seconds(now, hz) % TWO_32
    {
      c := now / hz % TWO_32;
    }

    /** DIV. */
    method Divider() returns (d: nat)
      requires Valid()
      ensures d == hz - 1 - Phase(now, hz)
    {
      d := hz - 1 - Phase(now, hz);
    }

    /** Time passes, but not as much as the counter's whole range. */
    method Elapse()
      requires Valid()
      modifies this`now
      ensures now >= old(now) && Seconds(now, hz) < Seconds(old(now), hz) + TWO_32 / 2
    {
      var later: nat := *;
      if later >= now && later / hz < now / hz + TWO_32 / 2 {
        now := later;
      }
    }

    /** `ch32h4_rtc_get`, if one of the first `turns` turns of its loop sees no second
        begin. The result is the time of one instant `at` inside the call. */
    method Get(turns: nat) returns (ok: bool, seconds: nat, micros: int, ghost at: nat)
      requires Valid()
      modifies this`now
      ensures old(now) <= at <= now
      ensures !running ==> !ok
      ensures ok ==> seconds == (at / hz + 946684800) % TWO_32 && micros == at % hz * 1000000 / hz
      ensures ok ==> 0 <= micros < 1000000
    {
      ok, seconds, micros, at := false, 0, 0, now;
      if !running {
        return;
      }
      for i := 0 to turns
        invariant now >= old(now)
      {
        ghost var from := now;
        var cnt := Counter();
        Elapse();
        var div := Divider();
        at := now;
        Elapse();
        var again := Counter();
        if cnt == again {
          SameSecond(from, at, now, hz);
          ReportedIs(at, hz);
          seconds := Reported(cnt);
          var prl := hz - 1;
          var elapsed := if div > prl then 0 else prl - div;
          micros := Micros(elapsed, hz);
          MicrosBelowMillion(elapsed, hz);
          return true, seconds, micros, at;
        }
      }
      at := now;
    }

    /** `ch32h4_rtc_set`; `before` and `after` say whether the two waits succeed. */
    method Set(seconds: int, before: bool, after: bool) returns (ok: bool)
      requires Valid()
      modifies this`now
      ensures ok <==> running && seconds >= OFFSET && before && after
      ensures running && seconds >= OFFSET && before ==>
        now / hz == (seconds - 946684800) % TWO_32 && now % hz == old(now % hz)
      ensures !running || seconds < OFFSET || !before ==> now == old(now)
    {
      if !running || seconds < OFFSET || !before {
        return false;
      }
      var stored: nat := (seconds % TWO_32 - OFFSET) % TWO_32;
      StoredInWords(seconds);
      ghost var phase := Phase(now, hz);
      now := stored * hz + now % hz;
      MulMono(0, stored, hz);
      DivModUnique(now, hz, stored, phase);
      ok := after;
    }
  }

  /** Two equal readings of the counter have everything between them in one second. */
  lemma SameSecond(from: nat, at: nat, to: nat, hz: nat)
    requires hz > 0 && from <= at <= to
    requires Seconds(at, hz) < Seconds(from, hz) + TWO_32 / 2 && Seconds(to, hz) < Seconds(at, hz) + TWO_32 / 2
    requires Seconds(from, hz) % TWO_32 == Seconds(to, hz) % TWO_32
    ensures Seconds(at, hz) == Seconds(from, hz)
  {
    SecondsGrow(from, at, hz);
    SecondsGrow(at, to, hz);
    var f, t := Seconds(from, hz), Seconds(to, hz);
    assert f / TWO_32 == t / TWO_32;
  }

  lemma ReportedIs(at: nat, hz: nat)
    requires hz > 0
    ensures Reported(Seconds(at, hz) % TWO_32) == (at / hz + 946684800) % TWO_32
  {
    AddModulo(Seconds(at, hz), OFFSET, TWO_32);
  }

  lemma StoredInWords(seconds: int)
    ensures (seconds % TWO_32 - OFFSET) % TWO_32 == Stored(seconds)
  {
  }
}
