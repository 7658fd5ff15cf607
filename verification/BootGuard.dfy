/** The crash-loop breaker: main_v3f.c counts faulty boots in memory that survives a reset
    and stops waking the V5F when there have been too many; main_v5f.c clears the count
    once a boot has lasted three seconds. */
module BootGuard {

  const LIMIT: nat := 3
  const CONFIRMED_AFTER: nat := 3000

  /** What survives a reset: whether the region has been through here before, the count,
      and the records of a trap on the V3F and a fault on the V5F. */
  datatype Log = Log(valid: bool, count: nat, v3fTrap: bool, v5fFault: bool)

  /** The region as the boot first trusts it. */
  function Trusted(log: Log): Log {
    var l := if log.valid then log else Log(true, 0, false, false);
    if l.count > LIMIT then l.(count := 0) else l
  }

  function One(b: bool): nat {
    if b then 1 else 0
  }

  /** The causes this boot counts: the reset flags, and the two records. */
  function Causes(log: Log, lockup: bool): nat {
    One(lockup) + One(Trusted(log).v3fTrap) + One(Trusted(log).v5fFault)
  }

  function Counted(log: Log, lockup: bool): nat {
    Trusted(log).count + Causes(log, lockup)
  }

  predicate Wakes(log: Log, lockup: bool) {
    Counted(log, lockup) < LIMIT
  }

  /** The log when the V5F has been woken, or refused. */
  function Booted(log: Log, lockup: bool): Log {
    Log(true, if Wakes(log, lockup) then Counted(log, lockup) else 0, false, false)
  }

  // ---- The code ------------------------------------------------------------------------

  class FaultLog {
    var valid: bool
    var count: nat
    var v3fTrap: bool
    var v5fFault: bool
    var confirmed: bool

    function Now(): Log
      reads this
    {
      Log(valid, count, v3fTrap, v5fFault)
    }

    /** The checks that make the region worth reading. */
    method Validate()
      modifies this`valid, this`count, this`v3fTrap, this`v5fFault
      ensures Now() == Trusted(old(Now()))
    {
      if !valid {
        valid, count, v3fTrap, v5fFault := true, 0, false, false;
      }
      if count > LIMIT {
        count := 0;
      }
    }

    /** The part of `ch32h4_v3f_main` that reads and writes the log. */
    method V3fMain(lockup: bool) returns (woken: bool)
      modifies this
      ensures Now() == Booted(old(Now()), lockup) && !confirmed
      ensures woken <==> Wakes(old(Now()), lockup)
    {
      confirmed := false;
      Validate();
      if lockup {
        count := count + 1;
      }
      if v3fTrap {
        v3fTrap := false;
        count := count + 1;
      }
      if v5fFault {
        v5fFault := false;
        count := count + 1;
      }
      woken := count < LIMIT;
      if !woken {
        count := 0;
      }
    }

    /** One turn of the loop of the V5F. */
    method V5fTurn(millis: nat)
      modifies this`confirmed, this`count
      ensures confirmed <==> old(confirmed) || millis > 3000
      ensures count == if confirmed && !old(confirmed) then 0 else old(count)
    {
      if !confirmed && millis > CONFIRMED_AFTER {
        confirmed, count := true, 0;
      }
    }

    /** The loop of the V5F, for as many turns as it makes: `millis` is what the clock shows
        at each. */
    method V5fLoop(millis: seq<nat>)
      modifies this`confirmed, this`count
      ensures confirmed <==> old(confirmed) || Lasted(millis)
      ensures count == if confirmed && !old(confirmed) then 0 else old(count)
    {
      for i := 0 to |millis|
        invariant confirmed <==> old(confirmed) || Lasted(millis[..i])
        invariant count == if confirmed && !old(confirmed) then 0 else old(count)
      {
        assert millis[..i + 1] == millis[..i] + [millis[i]];
        LastedLonger(millis[..i], millis[i]);
        V5fTurn(millis[i]);
      }
      assert millis[..|millis|] == millis;
    }

    /** A boot, from the first line of `ch32h4_v3f_main` to the reset that ends it. */
    method Live(lockup: bool, life: Life) returns (woken: bool)
      modifies this
      ensures woken <==> Wakes(old(Now()), lockup)
      ensures Now() == Left(Booted(old(Now()), lockup), EndOf(life, woken))
    {
      woken := V3fMain(lockup);
      ghost var booted := Now();
      LiveOn(woken, life);
      assert Now() == Left(booted, EndOf(life, woken));
    }

    /** From there on: the loop, if the V5F was woken, and the records of the end. */
    method LiveOn(woken: bool, life: Life)
      requires !confirmed
      modifies this
      ensures Now() == Left(old(Now()), EndOf(life, woken))
    {
      if woken {
        V5fLoop(life.millis);
      }
      v3fTrap, v5fFault := life.v3fTrap, life.v5fFault;
    }

    /** One boot after the other. Which of them wakes the V5F, and the log that is left at
        each, are what `WakesAt` and `At` say of the ends of the runs. */
    method Boots(lockup: bool, lives: seq<Life>) returns (woken: seq<bool>, ghost ends: seq<End>)
      modifies this
      ensures |woken| == |ends| == |lives|
      ensures Now() == At(old(Now()), lockup, ends)
      ensures forall i :: 0 <= i < |lives| ==>
        woken[i] == WakesAt(old(Now()), lockup, ends[..i]) && ends[i] == EndOf(lives[i], woken[i])
    {
      woken, ends := [], [];
      var flags := lockup;
      for i := 0 to |lives|
        invariant |woken| == |ends| == i && flags == LastLockup(lockup, ends)
        invariant Now() == At(old(Now()), lockup, ends)
        invariant forall k :: 0 <= k < i ==>
          woken[k] == WakesAt(old(Now()), lockup, ends[..k]) && ends[k] == EndOf(lives[k], woken[k])
      {
        var w := Live(flags, lives[i]);
        OneMoreBoot(old(Now()), lockup, ends, EndOf(lives[i], w));
        flags, woken, ends := lives[i].lockup, woken + [w], ends + [EndOf(lives[i], w)];
      }
    }
  }

  /** A run lasts if the clock has been past three seconds in a turn of the loop. */
  ghost predicate Lasted(millis: seq<nat>) {
    exists i :: 0 <= i < |millis| && millis[i] > CONFIRMED_AFTER
  }

  lemma LastedLonger(before: seq<nat>, last: nat)
    ensures Lasted(before + [last]) <==> Lasted(before) || last > CONFIRMED_AFTER
  {
    var all := before + [last];
    assert all[|before|] == last;
    if Lasted(before) {
      var i :| 0 <= i < |before| && before[i] > CONFIRMED_AFTER;
      assert all[i] == before[i];
    }
  }

  // ---- Runs of boots -----------------------------------------------------------------------

  /** How a run ends, as the next boot sees it: whether it lasted long enough to be
      confirmed, and what it left behind. */
  datatype End = End(confirmed: bool, lockup: bool, v3fTrap: bool, v5fFault: bool)

  /** What a run does: the turns of its loop, if it has one, and the records of its end. */
  datatype Life = Life(millis: seq<nat>, lockup: bool, v3fTrap: bool, v5fFault: bool)

  /** A run is confirmed if the V5F was woken and its loop has lasted. */
  ghost function EndOf(life: Life, woken: bool): End {
    End(woken && Lasted(life.millis), life.lockup, life.v3fTrap, life.v5fFault)
  }

  predicate Recorded(e: End) {
    e.lockup || e.v3fTrap || e.v5fFault
  }

  /** The log at the next boot. */
  function Left(log: Log, e: End): Log {
    Log(log.valid, if e.confirmed then 0 else log.count, e.v3fTrap, e.v5fFault)
  }

  /** The log at the start of boot `n`, when the boots before it ended as `ends` says. */
  function At(first: Log, lockup: bool, ends: seq<End>): Log {
    if ends == [] then first
    else
      var before, e := ends[..|ends| - 1], ends[|ends| - 1];
      Left(Booted(At(first, lockup, before), LastLockup(lockup, before)), e)
  }

  function LastLockup(lockup: bool, ends: seq<End>): bool {
    if ends == [] then lockup else ends[|ends| - 1].lockup
  }

  lemma OneMoreBoot(first: Log, lockup: bool, ends: seq<End>, e: End)
    ensures At(first, lockup, ends + [e]) == Left(Booted(At(first, lockup, ends), LastLockup(lockup, ends)), e)
    ensures LastLockup(lockup, ends + [e]) == e.lockup
    ensures forall k :: 0 <= k <= |ends| ==> (ends + [e])[..k] == ends[..k]
  {
    assert (ends + [e])[..|ends|] == ends;
  }

  /** Whether boot `|ends|` wakes the V5F. */
  predicate WakesAt(first: Log, lockup: bool, ends: seq<End>) {
    Wakes(At(first, lockup, ends), LastLockup(lockup, ends))
  }

  /** Every boot before boot `|ends|` has woken the V5F, and each of their runs left a
      record without being confirmed. */
  predicate CrashLoop(first: Log, lockup: bool, ends: seq<End>) {
    ends == [] ||
    (var before, e := ends[..|ends| - 1], ends[|ends| - 1];
     CrashLoop(first, lockup, before) && WakesAt(first, lockup, before) && Recorded(e) && !e.confirmed)
  }

  /** A boot is refused exactly if the region is worth reading and so many causes come to
      three with the count in it; a count beyond three is not believed. */
  lemma RefusedExactly(log: Log, lockup: bool)
    ensures !Wakes(log, lockup) <==>
      log.valid &&
      var causes := (if lockup then 1 else 0) + (if log.v3fTrap then 1 else 0) + (if log.v5fFault then 1 else 0);
      causes + (if log.count > 3 then 0 else log.count) >= 3
  {
  }

  lemma CrashIsCounted(log: Log, lockup: bool, e: End)
    requires Wakes(log, lockup) && Recorded(e) && !e.confirmed
    ensures Counted(Left(Booted(log, lockup), e), e.lockup) > Counted(log, lockup)
  {
  }

  lemma {:induction false} CountGrows(first: Log, lockup: bool, ends: seq<End>)
    requires CrashLoop(first, lockup, ends)
    ensures Counted(At(first, lockup, ends), LastLockup(lockup, ends)) >= |ends|
  {
    if ends != [] {
      var before := ends[..|ends| - 1];
      CountGrows(first, lockup, before);
      CrashIsCounted(At(first, lockup, before), LastLockup(lockup, before), ends[|ends| - 1]);
    }
  }

  /** Whatever the memory held at first, a crash loop wakes the V5F at most three times
      before a boot that refuses. */
  lemma AtMostThreeWakes(first: Log, lockup: bool, ends: seq<End>)
    requires CrashLoop(first, lockup, ends)
    ensures |ends| <= 3
    ensures |ends| == 3 ==> !WakesAt(first, lockup, ends)
  {
    CountGrows(first, lockup, ends);
    if ends != [] {
      CountGrows(first, lockup, ends[..|ends| - 1]);
    }
  }

  /** After the first boot the count is below the limit at every entry, however the runs
      end; so it is never the range check that decides. */
  lemma CountStaysBelow(first: Log, lockup: bool, ends: seq<End>)
    requires ends != []
    ensures At(first, lockup, ends).valid && At(first, lockup, ends).count < LIMIT
  {
  }

  /** A refusal clears the count, so the next boot tries again: one reset is enough, if it
      does not itself leave records of all three kinds. */
  lemma RefusalIsForgotten(log: Log, lockup: bool, e: End)
    requires !Wakes(log, lockup)
    ensures Wakes(Left(Booted(log, lockup), e), e.lockup) <==> !(e.lockup && e.v3fTrap && e.v5fFault)
  {
  }

  /** A run that was confirmed, or a first boot, can be refused only on all three records
      at once. */
  lemma OneCrashIsForgiven(log: Log, e: End)
    requires log.valid && e.confirmed
    ensures Wakes(Left(log, e), e.lockup) <==> !(e.lockup && e.v3fTrap && e.v5fFault)
  {
  }
}
