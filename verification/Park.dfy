/** Parking the other core before flash is written (ch32h4_park.c), as a state
    machine over the single loads and stores of both cores.

    Each core has a channel: the words `req` and `ack`, the doorbell bit, and
    `live`. The core that owns the channel runs the handler or the poll on it; the
    other core asks on it. Both directions run at once, and a core that is inside
    `park_spin` does not run the rest of its program. */
module Park {

  datatype Core = V3F | V5F

  function Other(core: Core): Core {
    if core == V3F then V5F else V3F
  }

  /** Where the owner of a channel is: still starting, outside `park_spin`, or in
      front of one of its statements. */
  datatype Place =
    | Asleep | ClearsReq | ClearsStaleAck | ClearsStaleBell | GoesLive
    | Outside
    | SetsAck | Spins | ClearsAck | ClearsBell | Restores

  /** Where the other core is in `park_other`; `Holds` is from its return with
      true to `unpark_other`, and `granted` when an acknowledgement was seen. */
  datatype Asker = Idle | ResetsAck | SetsReq | Rings | Waits | GivesUp | Holds(granted: bool)

  /** `tested`: the owner is between the test of `park_check` and the call it
      guards. `expired`: a request was given up and its bell is still set. */
  datatype Channel = Channel(
    req: bool, ack: bool, bell: bool, live: bool,
    place: Place, asker: Asker,
    interrupts: bool, previous: bool, tested: bool, expired: bool)

  datatype System = System(v3f: Channel, v5f: Channel) {
    /** The channel on which `core` is parked. */
    function Of(core: Core): Channel {
      if core == V3F then v3f else v5f
    }

    function With(core: Core, c: Channel): System {
      if core == V3F then this.(v3f := c) else this.(v5f := c)
    }
  }

  // ---- Steps ------------------------------------------------------------------------

  datatype Action =
    // park_other and unpark_other, on the other core's channel
    | Ask | ResetAck | SetReq | Ring | SeeAck | Expire | GiveUp | Unpark
    // park_live_here, on the core's own channel
    | Boot
    // the handler and park_check
    | Trap | Poll | Test | Enter | SetAck | Look | ClearAck | ClearBell | Restore
    // the program's own use of mstatus
    | Mask | Unmask

  datatype Step = Step(core: Core, action: Action)

  /** When a new request may start. */
  datatype Guard = Always | NoExpiredBell | NoBell

  /** `atomicPoll`: the test of `park_check` and the masking are one step. */
  datatype Discipline = Discipline(guard: Guard, atomicPoll: bool)

  predicate MayAsk(g: Guard, c: Channel) {
    match g
    case Always => true
    case NoExpiredBell => !(c.bell && c.expired)
    case NoBell => !c.bell
  }

  predicate IsAsking(action: Action) {
    match action
    case Ask | ResetAck | SetReq | Ring | SeeAck | Expire | GiveUp | Unpark => true
    case _ => false
  }

  /** The asker's side of a channel. */
  predicate AskEnabled(d: Discipline, c: Channel, action: Action) {
    match action
    case Ask => c.asker == Idle && MayAsk(d.guard, c)
    case ResetAck => c.asker == ResetsAck
    case SetReq => c.asker == SetsReq
    case Ring => c.asker == Rings
    case SeeAck => c.asker == Waits && c.ack
    case Expire => c.asker == Waits
    case GiveUp => c.asker == GivesUp
    case Unpark => c.asker.Holds?
    case _ => false
  }

  function AskStep(c: Channel, action: Action): Channel {
    match action
    case Ask => c.(asker := if c.live then ResetsAck else Holds(false))
    case ResetAck => c.(ack := false, asker := SetsReq)
    case SetReq => c.(req := true, asker := Rings)
    case Ring => c.(bell := true, expired := false, asker := Waits)
    case SeeAck => c.(asker := Holds(true))
    case Expire => c.(asker := GivesUp)
    case GiveUp => c.(req := false, expired := true, asker := Idle)
    case Unpark => c.(req := false, asker := Idle)
    case _ => c
  }

  predicate Starting(p: Place) {
    match p
    case Asleep | ClearsReq | ClearsStaleAck | ClearsStaleBell | GoesLive => true
    case _ => false
  }

  /** In `park_spin`, from the masking of interrupts to their restoration. */
  predicate InSpin(p: Place) {
    match p
    case SetsAck | Spins | ClearsAck | ClearsBell | Restores => true
    case _ => false
  }

  /** The owner's side; `free` says that its own `park_other` is not under way. */
  predicate OwnEnabled(d: Discipline, c: Channel, free: bool, action: Action) {
    match action
    case Boot => Starting(c.place) && free
    case Trap => c.place == Outside && c.bell && c.interrupts
    case Poll => c.place == Outside && free && !c.tested && c.req && !c.ack
    case Test => !d.atomicPoll && c.place == Outside && free && !c.tested && c.req && !c.ack
    case Enter => !d.atomicPoll && c.place == Outside && c.tested
    case SetAck => c.place == SetsAck
    case Look => c.place == Spins
    case ClearAck => c.place == ClearsAck
    case ClearBell => c.place == ClearsBell
    case Restore => c.place == Restores
    case Mask => c.place == Outside && !c.tested
    case Unmask => c.place == Outside && !c.tested
    case _ => false
  }

  function OwnStep(c: Channel, action: Action): Channel {
    match action
    case Boot => Booted(c)
    case Trap => Entered(c)
    case Poll => Entered(c)
    case Test => c.(tested := true)
    case Enter => Entered(c).(tested := false)
    case SetAck => c.(ack := true, place := Spins)
    case Look => if c.req then c else c.(place := ClearsAck)
    case ClearAck => c.(ack := false, place := ClearsBell)
    case ClearBell => c.(bell := false, expired := false, place := Restores)
    case Restore => c.(interrupts := c.previous, place := Outside)
    case Mask => c.(interrupts := false)
    case Unmask => c.(interrupts := true)
    case _ => c
  }

  /** One statement of `park_live_here`. */
  function Booted(c: Channel): Channel {
    match c.place
    case Asleep => c.(place := ClearsReq)
    case ClearsReq => c.(req := false, place := ClearsStaleAck)
    case ClearsStaleAck => c.(ack := false, place := ClearsStaleBell)
    case ClearsStaleBell => c.(bell := false, place := GoesLive)
    case _ => c.(live := true, place := Outside)
  }

  /** Interrupts are masked, and what they were is kept. */
  function Entered(c: Channel): Channel {
    c.(previous := c.interrupts, interrupts := false, place := SetsAck)
  }

  /** The program of `core` runs: it is neither in `park_spin` nor about to be. */
  predicate Runs(s: System, core: Core) {
    !InSpin(s.Of(core).place) && !s.Of(core).tested
  }

  predicate Free(s: System, core: Core) {
    var a := s.Of(Other(core)).asker;
    a == Idle || a.Holds?
  }

  predicate Enabled(d: Discipline, s: System, step: Step) {
    if IsAsking(step.action)
    then Runs(s, step.core) && AskEnabled(d, s.Of(Other(step.core)), step.action)
    else OwnEnabled(d, s.Of(step.core), Free(s, step.core), step.action)
  }

  function Next(s: System, step: Step): System {
    if IsAsking(step.action)
    then s.With(Other(step.core), AskStep(s.Of(Other(step.core)), step.action))
    else s.With(step.core, OwnStep(s.Of(step.core), step.action))
  }

  /** Every step of the run is possible where it is taken. */
  predicate Follows(d: Discipline, s: System, run: seq<Step>) {
    run == [] ||
    (var before := run[..|run| - 1];
     Follows(d, s, before) && Enabled(d, After(s, before), run[|run| - 1]))
  }

  function After(s: System, run: seq<Step>): System {
    if run == [] then s else Next(After(s, run[..|run| - 1]), run[|run| - 1])
  }

  /** What `ch32h4_xcore_init` leaves: all words clear, no core live. */
  const RESET := Channel(false, false, false, false, Asleep, Idle, true, true, false, false)

  const POWER_UP := System(RESET, RESET)

  // ---- The invariant -----------------------------------------------------------------

  /** `req` is set from the store that sets it to the one that clears it. */
  predicate Requested(a: Asker) {
    match a
    case Rings | Waits | GivesUp => true
    case Holds(granted) => granted
    case _ => false
  }

  predicate Inv(c: Channel) {
    && (c.live <==> !Starting(c.place))
    && (c.req <==> Requested(c.asker))
    && (c.place == Spins ==> c.ack)
    && (c.ack ==> c.place == Spins || c.place == ClearsAck)
    && (InSpin(c.place) ==> c.place == Restores || c.bell || c.asker == Rings)
    && (c.asker == ResetsAck || c.asker == SetsReq || c.asker == Rings ==> c.live && !c.bell)
    && (c.asker == Waits || c.asker == GivesUp || c.asker == Holds(true) ==> c.bell)
    && (c.place == ClearsAck || c.place == ClearsBell ==> c.asker == Idle)
    && (c.asker == Holds(false) || !c.live ==> !c.bell && !c.req && !c.ack)
    && (InSpin(c.place) ==> !c.interrupts)
    && (c.asker == Holds(true) ==> c.place == Spins)
    && !c.tested
  }

  /** From `park_other` returning true on an acknowledgement to `unpark_other`, the
      core that was asked is in the loop of `park_spin`, with interrupts masked. */
  predicate Parked(c: Channel) {
    c.asker == Holds(true) ==> c.place == Spins && c.req && !c.interrupts
  }

  /** Not both cores are between a granted `park_other` and `unpark_other`. */
  predicate OneHolder(s: System) {
    !(s.v3f.asker == Holds(true) && s.v5f.asker == Holds(true))
  }

  predicate Invariant(s: System) {
    Inv(s.v3f) && Inv(s.v5f) && OneHolder(s)
  }

  const DISCIPLINE := Discipline(NoBell, true)

  lemma AskKeeps(c: Channel, action: Action)
    requires Inv(c) && IsAsking(action) && AskEnabled(DISCIPLINE, c, action)
    ensures Inv(AskStep(c, action))
  {
  }

  lemma OwnKeeps(c: Channel, free: bool, action: Action)
    requires Inv(c) && OwnEnabled(DISCIPLINE, c, free, action)
    ensures Inv(OwnStep(c, action))
  {
  }

  /** Every step of either core keeps the invariant. */
  lemma StepKeeps(s: System, step: Step)
    requires Invariant(s) && Enabled(DISCIPLINE, s, step)
    ensures Invariant(Next(s, step))
  {
    if IsAsking(step.action) {
      AskKeeps(s.Of(Other(step.core)), step.action);
    } else {
      OwnKeeps(s.Of(step.core), Free(s, step.core), step.action);
    }
  }

  lemma {:induction false} RunKeeps(s: System, run: seq<Step>)
    requires Invariant(s) && Follows(DISCIPLINE, s, run)
    ensures Invariant(After(s, run))
  {
    if run != [] {
      var before := run[..|run| - 1];
      RunKeeps(s, before);
      StepKeeps(After(s, before), run[|run| - 1]);
    }
  }

  // ---- Safety -------------------------------------------------------------------------

  /** Some run from power-up leads here. */
  ghost predicate Reachable(d: Discipline, s: System) {
    exists run :: Follows(d, POWER_UP, run) && After(POWER_UP, run) == s
  }

  lemma ReachableKeeps(s: System)
    requires Reachable(DISCIPLINE, s)
    ensures Invariant(s)
  {
    var run :| Follows(DISCIPLINE, POWER_UP, run) && After(POWER_UP, run) == s;
    RunKeeps(POWER_UP, run);
  }

  /** Under every interleaving, a core whose acknowledgement was seen spins with
      interrupts masked until it is released; and the two cores are never both in
      that position. The poll has to be one step, and no request may start while
      the bell is still set. */
  lemma HeldCoreIsParked(s: System, core: Core)
    requires Reachable(DISCIPLINE, s)
    ensures Parked(s.Of(core)) && OneHolder(s)
  {
    ReachableKeeps(s);
  }

  /** What the guard tests: with the bell clear and no request under way, the owner
      is out of `park_spin` but for restoring its interrupt state. */
  lemma ClearBellMeansOut(s: System, core: Core)
    requires Reachable(DISCIPLINE, s) && !s.Of(core).bell && s.Of(core).asker == Idle
    ensures var c := s.Of(core); (InSpin(c.place) ==> c.place == Restores) && !c.req && !c.ack
  {
    ReachableKeeps(s);
  }

  /** The owner's next step towards an acknowledgement. */
  function Answer(c: Channel): Action {
    match c.place
    case Restores => Restore
    case Outside => Trap
    case _ => SetAck
  }

  function AnswerSteps(c: Channel): nat {
    match c.place
    case Restores => 3
    case Outside => 2
    case SetsAck => 1
    case _ => 0
  }

  /** The program of the owner leaves interrupts enabled. */
  predicate Interruptible(c: Channel) {
    (c.place == Outside ==> c.interrupts) && (c.place == Restores ==> c.previous)
  }

  /** The step is not the asker's end of its wait, and does not mask the owner's interrupts. */
  predicate KeepsWaiting(core: Core, step: Step) {
    step != Step(Other(core), SeeAck) && step != Step(Other(core), Expire) && step != Step(core, Mask)
  }

  /** A step of the owner on its own channel. */
  predicate IsOwn(core: Core, step: Step) {
    step.core == core && !IsAsking(step.action) && step.action != Unmask
  }

  function OwnSteps(core: Core, run: seq<Step>): nat {
    if run == [] then 0 else OwnSteps(core, run[..|run| - 1]) + if IsOwn(core, run[|run| - 1]) then 1 else 0
  }

  predicate Waiting(c: Channel) {
    Inv(c) && c.asker == Waits && Interruptible(c)
  }

  /** A step of the owner on its own channel brings the answer nearer by one; every other
      step, on this channel or the other one, leaves it as near as it is. */
  lemma StepIsNearer(s: System, core: Core, step: Step)
    requires Invariant(s) && Waiting(s.Of(core)) && Enabled(DISCIPLINE, s, step) && KeepsWaiting(core, step)
    ensures var c, t := s.Of(core), Next(s, step).Of(core);
      && Waiting(t)
      && AnswerSteps(t) == if IsOwn(core, step) && AnswerSteps(c) > 0 then AnswerSteps(c) - 1 else AnswerSteps(c)
  {
    StepKeeps(s, step);
  }

  lemma {:induction false} RunIsNearer(s: System, core: Core, run: seq<Step>)
    requires Invariant(s) && Waiting(s.Of(core)) && Follows(DISCIPLINE, s, run)
    requires forall i :: 0 <= i < |run| ==> KeepsWaiting(core, run[i])
    ensures var c, t, n := s.Of(core), After(s, run).Of(core), OwnSteps(core, run);
      Waiting(t) && AnswerSteps(t) == if n < AnswerSteps(c) then AnswerSteps(c) - n else 0
  {
    if run != [] {
      var before := run[..|run| - 1];
      RunIsNearer(s, core, before);
      RunKeeps(s, before);
      StepIsNearer(After(s, before), core, run[|run| - 1]);
    }
  }

  /** A waiting request, in every run in which the asker waits on and the owner's program
      leaves interrupts enabled: it is acknowledged exactly when the owner has taken
      `AnswerSteps` steps on its channel, which are at most three; and until then the
      next of them is possible, whatever the other side does. */
  lemma WaitingRequestIsAnswered(s: System, core: Core, run: seq<Step>)
    requires Reachable(DISCIPLINE, s) && s.Of(core).asker == Waits && Interruptible(s.Of(core))
    requires Follows(DISCIPLINE, s, run) && forall i :: 0 <= i < |run| ==> KeepsWaiting(core, run[i])
    ensures var t := After(s, run);
      && (t.Of(core).ack <==> OwnSteps(core, run) >= AnswerSteps(s.Of(core)))
      && (!t.Of(core).ack ==>
            var next := Step(core, Answer(t.Of(core))); IsOwn(core, next) && Enabled(DISCIPLINE, t, next))
    ensures AnswerSteps(s.Of(core)) <= 3
  {
    ReachableKeeps(s);
    RunIsNearer(s, core, run);
    AnswerIsPossible(After(s, run).Of(core), Free(After(s, run), core));
  }

  lemma AnswerIsPossible(c: Channel, free: bool)
    requires Waiting(c)
    ensures c.ack <==> AnswerSteps(c) == 0
    ensures !c.ack ==> OwnEnabled(DISCIPLINE, c, free, Answer(c))
  {
  }

  // ---- Each condition is needed --------------------------------------------------------

  /** One more step of a run. */
  lemma Go(d: Discipline, s: System, core: Core, action: Action) returns (t: System)
    requires Reachable(d, s) && Enabled(d, s, Step(core, action))
    ensures Reachable(d, t) && t == Next(s, Step(core, action))
  {
    var run :| Follows(d, POWER_UP, run) && After(POWER_UP, run) == s;
    t := Next(s, Step(core, action));
    var longer := run + [Step(core, action)];
    assert longer[..|longer| - 1] == run;
    assert Follows(d, POWER_UP, longer) && After(POWER_UP, longer) == t;
  }

  lemma PowerUp(d: Discipline)
    ensures Reachable(d, POWER_UP)
  {
    assert Follows(d, POWER_UP, []) && After(POWER_UP, []) == POWER_UP;
  }

  lemma Boots(d: Discipline, s: System, core: Core) returns (t: System)
    requires Reachable(d, s) && Free(s, core) && Starting(s.Of(core).place)
    ensures Reachable(d, t) && Free(t, core) && t == s.With(core, Booted(s.Of(core)))
  {
    t := Go(d, s, core, Boot);
  }

  /** `park_live_here`, from its call to the store that sets `live`. */
  lemma GoesLiveFrom(d: Discipline, s: System, core: Core) returns (t: System)
    requires Reachable(d, s) && Free(s, core) && s.Of(core).place == Asleep
    ensures Reachable(d, t)
    ensures t == s.With(core, s.Of(core).(req := false, ack := false, bell := false, live := true, place := Outside))
  {
    t := Boots(d, s, core);
    t := Boots(d, t, core);
    t := Boots(d, t, core);
    t := Boots(d, t, core);
    t := Boots(d, t, core);
  }

  /** `park_other`, from the test of `live` to the doorbell. */
  lemma Requests(d: Discipline, s: System, core: Core) returns (t: System)
    requires Reachable(d, s) && Runs(s, core)
    requires var c := s.Of(Other(core)); c.live && c.asker == Idle && MayAsk(d.guard, c)
    ensures Reachable(d, t)
    ensures t == s.With(Other(core), s.Of(Other(core)).(
      ack := false, req := true, bell := true, expired := false, asker := Waits))
  {
    t := Go(d, s, core, Ask);
    t := Go(d, t, core, ResetAck);
    t := Go(d, t, core, SetReq);
    t := Go(d, t, core, Ring);
  }

  /** The doorbell interrupt is taken and acknowledged. */
  lemma Answers(d: Discipline, s: System, core: Core) returns (t: System)
    requires Reachable(d, s)
    requires var c := s.Of(core); c.place == Outside && c.bell && c.interrupts
    ensures Reachable(d, t)
    ensures t == s.With(core, Entered(s.Of(core)).(ack := true, place := Spins))
  {
    t := Go(d, s, core, Trap);
    t := Go(d, t, core, SetAck);
  }

  /** The asker sees the acknowledgement, uses it and takes the request back. */
  lemma UsesAndReleases(d: Discipline, s: System, core: Core) returns (t: System)
    requires Reachable(d, s) && Runs(s, core)
    requires var c := s.Of(Other(core)); c.asker == Waits && c.ack
    ensures Reachable(d, t)
    ensures t == s.With(Other(core), s.Of(Other(core)).(req := false, asker := Idle))
  {
    t := Go(d, s, core, SeeAck);
    t := Go(d, t, core, Unpark);
  }

  /** The owner sees the request gone and withdraws its acknowledgement. */
  lemma StopsSpinning(d: Discipline, s: System, core: Core) returns (t: System)
    requires Reachable(d, s) && s.Of(core).place == Spins && !s.Of(core).req
    ensures Reachable(d, t) && t == s.With(core, s.Of(core).(ack := false, place := ClearsBell))
  {
    t := Go(d, s, core, Look);
    t := Go(d, t, core, ClearAck);
  }

  /** A request is answered, used and taken back, and the owner is about to clear the
      bell. */
  lemma RunsItsCourse(d: Discipline, s: System) returns (t: System)
    requires Reachable(d, s) && Runs(s, V5F)
    requires var c := s.v3f; c.place == Outside && c.bell && c.interrupts && c.asker == Waits && c.req
    ensures Reachable(d, t)
    ensures t == s.With(V3F, s.v3f.(
      req := false, ack := false, asker := Idle, interrupts := false, previous := true, place := ClearsBell))
  {
    t := Answers(d, s, V3F);
    t := UsesAndReleases(d, t, V5F);
    t := StopsSpinning(d, t, V3F);
  }

  /** The owner clears the bell and goes back to its program. */
  lemma Returns(d: Discipline, s: System, core: Core) returns (t: System)
    requires Reachable(d, s) && s.Of(core).place == ClearsBell
    ensures Reachable(d, t)
    ensures t == s.With(core, s.Of(core).(
      bell := false, expired := false, interrupts := s.Of(core).previous, place := Outside))
  {
    t := Go(d, s, core, ClearBell);
    t := Go(d, t, core, Restore);
  }

  /** The request times out. */
  lemma TimesOut(d: Discipline, s: System, core: Core) returns (t: System)
    requires Reachable(d, s) && Runs(s, core) && s.Of(Other(core)).asker == Waits
    ensures Reachable(d, t)
    ensures t == s.With(Other(core), s.Of(Other(core)).(req := false, expired := true, asker := Idle))
  {
    t := Go(d, s, core, Expire);
    t := Go(d, t, core, GiveUp);
  }

  /** The asker is past `park_other` although the core it asked has left the loop. */
  predicate Broken(c: Channel) {
    c.asker == Holds(true) && c.place != Spins
  }

  /** The owner acknowledges a request that is not there and leaves the loop again. */
  lemma AcknowledgesNothing(d: Discipline, s: System) returns (t: System)
    requires Reachable(d, s) && s.v3f.place == SetsAck && !s.v3f.req
    ensures Reachable(d, t) && t == s.(v3f := s.v3f.(ack := true, place := ClearsAck))
  {
    t := Go(d, s, V3F, SetAck);
    t := Go(d, t, V3F, Look);
  }

  lemma TakesStaleAck(d: Discipline, s: System) returns (t: System)
    requires Reachable(d, s) && Runs(s, V5F) && s.v3f.asker == SetsReq && s.v3f.ack
    ensures Reachable(d, t)
    ensures t == s.(v3f := s.v3f.(req := true, bell := true, expired := false, asker := Holds(true)))
  {
    t := Go(d, s, V5F, SetReq);
    t := Go(d, t, V5F, Ring);
    t := Go(d, t, V5F, SeeAck);
  }

  /** What goes wrong each time: the owner is in front of `ack = 1` with nothing
      asked of it. The V5F starts a request, and the acknowledgement falls between
      its `ack = 0` and its `req = 1`. */
  lemma StaleEntryBreaks(d: Discipline, s: System) returns (t: System)
    requires Reachable(d, s) && Runs(s, V5F)
    requires var c := s.v3f; c.place == SetsAck && c.live && !c.req && c.asker == Idle && MayAsk(d.guard, c)
    ensures Reachable(d, t) && Broken(t.v3f)
  {
    t := Go(d, s, V5F, Ask);
    t := Go(d, t, V5F, ResetAck);
    t := AcknowledgesNothing(d, t);
    t := TakesStaleAck(d, t);
  }

  /** With no guard: the bell of a request that was given up is answered late. */
  lemma UnguardedRequestBreaks() returns (t: System)
    ensures Reachable(Discipline(Always, true), t) && Broken(t.v3f)
  {
    var d := Discipline(Always, true);
    PowerUp(d);
    var s := GoesLiveFrom(d, POWER_UP, V3F);
    s := Requests(d, s, V5F);
    s := TimesOut(d, s, V5F);
    s := Go(d, s, V3F, Trap);
    t := StaleEntryBreaks(d, s);
  }

  /** Guarding only against the bell of a request that was given up is not enough:
      after an answered request, the owner's late `CLR` wipes the next request's
      bell, and an entry from the poll then has no bell to show for itself. */
  lemma ExpiredBellGuardIsNotEnough() returns (t: System)
    ensures Reachable(Discipline(NoExpiredBell, true), t) && Broken(t.v3f)
  {
    var d := Discipline(NoExpiredBell, true);
    PowerUp(d);
    var s := GoesLiveFrom(d, POWER_UP, V3F);
    s := Requests(d, s, V5F);
    s := RunsItsCourse(d, s);
    s := Requests(d, s, V5F);
    s := Returns(d, s, V3F);
    s := Go(d, s, V3F, Poll);
    s := TimesOut(d, s, V5F);
    t := StaleEntryBreaks(d, s);
  }

  /** The doorbell is taken between the test of the poll and its call, for a request that
      runs its course. */
  lemma ParkedAfterTest(d: Discipline) returns (s: System)
    requires d == Discipline(NoBell, false)
    ensures Reachable(d, s)
    ensures s == POWER_UP.(v3f := RESET.(
      bell := true, live := true, place := ClearsBell, interrupts := false, tested := true))
  {
    PowerUp(d);
    s := GoesLiveFrom(d, POWER_UP, V3F);
    s := Requests(d, s, V5F);
    s := Go(d, s, V3F, Test);
    s := RunsItsCourse(d, s);
  }

  /** With the full guard but the poll in two steps: after that, the call of the poll
      enters with no request behind it. */
  lemma PollInTwoStepsBreaks() returns (t: System)
    ensures Reachable(Discipline(NoBell, false), t) && Broken(t.v3f)
  {
    var d := Discipline(NoBell, false);
    var s := ParkedAfterTest(d);
    s := Returns(d, s, V3F);
    s := Go(d, s, V3F, Enter);
    t := StaleEntryBreaks(d, s);
  }

  /** `loose` lets every request start that `strict` does, and splits the poll if that does. */
  predicate Looser(strict: Discipline, loose: Discipline) {
    && (strict.guard == loose.guard || loose.guard == Always || strict.guard == NoBell)
    && (strict.atomicPoll || !loose.atomicPoll)
  }

  lemma LooserEnables(strict: Discipline, loose: Discipline, s: System, step: Step)
    requires Looser(strict, loose) && Enabled(strict, s, step)
    ensures Enabled(loose, s, step)
  {
  }

  lemma {:induction false} LooserFollows(strict: Discipline, loose: Discipline, run: seq<Step>)
    requires Looser(strict, loose) && Follows(strict, POWER_UP, run)
    ensures Follows(loose, POWER_UP, run)
  {
    if run != [] {
      var before := run[..|run| - 1];
      LooserFollows(strict, loose, before);
      LooserEnables(strict, loose, After(POWER_UP, before), run[|run| - 1]);
    }
  }

  lemma LooserReaches(strict: Discipline, loose: Discipline, s: System)
    requires Looser(strict, loose) && Reachable(strict, s)
    ensures Reachable(loose, s)
  {
    var run :| Follows(strict, POWER_UP, run) && After(POWER_UP, run) == s;
    LooserFollows(strict, loose, run);
  }

  /** No run leads to a core that has left the loop while it is held. */
  ghost predicate Safe(d: Discipline) {
    forall s :: Reachable(d, s) ==> !Broken(s.v3f) && !Broken(s.v5f)
  }

  lemma BreaksLoosely(d: Discipline) returns (s: System)
    requires d != DISCIPLINE
    ensures Reachable(d, s) && Broken(s.v3f)
  {
    if d.guard == Always {
      s := UnguardedRequestBreaks();
      LooserReaches(Discipline(Always, true), d, s);
    } else if d.guard == NoExpiredBell {
      s := ExpiredBellGuardIsNotEnough();
      LooserReaches(Discipline(NoExpiredBell, true), d, s);
    } else {
      s := PollInTwoStepsBreaks();
    }
  }

  /** Of all the disciplines, exactly one is safe: requests wait for a clear bell, and the
      poll is one step. */
  lemma SafeExactly(d: Discipline)
    ensures Safe(d) <==> d == DISCIPLINE
  {
    if d == DISCIPLINE {
      forall s | Reachable(d, s) ensures !Broken(s.v3f) && !Broken(s.v5f) {
        HeldCoreIsParked(s, V3F);
        HeldCoreIsParked(s, V5F);
      }
    } else {
      var s := BreaksLoosely(d);
    }
  }

  /** A request to a core that is not live is granted at once; the core can then go
      live and run outside `park_spin` while the asker holds the grant. */
  lemma CoreNotYetLiveIsNotParked() returns (t: System)
    ensures Reachable(DISCIPLINE, t) && t.v3f.asker == Holds(false)
    ensures t.v3f.live && t.v3f.place == Outside
  {
    PowerUp(DISCIPLINE);
    t := Go(DISCIPLINE, POWER_UP, V5F, Ask);
    t := GoesLiveFrom(DISCIPLINE, t, V3F);
  }

  /** A core that had no need to park the other can itself be parked in the middle of
      what it holds the flash for: then both cores are past `park_other`. */
  lemma UnparkedHolderIsNotAlone() returns (t: System)
    ensures Reachable(DISCIPLINE, t) && t.v3f.asker == Holds(true) && t.v5f.asker == Holds(false)
  {
    PowerUp(DISCIPLINE);
    t := GoesLiveFrom(DISCIPLINE, POWER_UP, V3F);
    t := Go(DISCIPLINE, t, V3F, Ask);
    t := Requests(DISCIPLINE, t, V5F);
    t := Answers(DISCIPLINE, t, V3F);
    t := Go(DISCIPLINE, t, V5F, SeeAck);
  }

  // ---- Requests in both directions --------------------------------------------------------

  /** Each core is in the loop of `park_spin`, waiting for the other to release it. */
  predicate Deadlocked(s: System) {
    s.v3f.place == Spins && s.v3f.req && s.v5f.place == Spins && s.v5f.req
  }

  /** Two live cores that ask each other at the same time park each other. */
  lemma CrossedRequestsDeadlock() returns (t: System)
    ensures Reachable(DISCIPLINE, t) && Deadlocked(t)
  {
    PowerUp(DISCIPLINE);
    t := GoesLiveFrom(DISCIPLINE, POWER_UP, V3F);
    t := GoesLiveFrom(DISCIPLINE, t, V5F);
    t := Requests(DISCIPLINE, t, V3F);
    t := Requests(DISCIPLINE, t, V5F);
    t := Answers(DISCIPLINE, t, V3F);
    t := Answers(DISCIPLINE, t, V5F);
  }

  lemma DeadlockStays(d: Discipline, s: System, step: Step)
    requires Deadlocked(s) && Enabled(d, s, step)
    ensures Next(s, step) == s
  {
  }

  /** Nothing ever changes again: neither core runs, so neither timeout is noticed. */
  lemma {:induction false} DeadlockIsForever(d: Discipline, s: System, run: seq<Step>)
    requires Deadlocked(s) && Follows(d, s, run)
    ensures After(s, run) == s
  {
    if run != [] {
      DeadlockIsForever(d, s, run[..|run| - 1]);
      DeadlockStays(d, s, run[|run| - 1]);
    }
  }

  /** A step of `core` that changes the state, when the core is not in the loop. */
  function OwnMove(s: System, core: Core): Action {
    match s.Of(core).place
    case SetsAck => SetAck
    case ClearsAck => ClearAck
    case ClearsBell => ClearBell
    case Restores => Restore
    case Outside => if s.Of(core).interrupts then Mask else Unmask
    case _ => if Free(s, core) then Boot else AskMove(s.Of(Other(core)).asker)
  }

  function AskMove(a: Asker): Action {
    match a
    case ResetsAck => ResetAck
    case SetsReq => SetReq
    case Rings => Ring
    case Waits => Expire
    case _ => GiveUp
  }

  lemma OwnMoveChanges(s: System, core: Core)
    requires Invariant(s) && s.Of(core).place != Spins
    ensures var step := Step(core, OwnMove(s, core)); Enabled(DISCIPLINE, s, step) && Next(s, step) != s
  {
  }

  /** Some step changes the state. */
  ghost predicate CanMove(s: System) {
    exists step :: Enabled(DISCIPLINE, s, step) && Next(s, step) != s
  }

  lemma MovesUnlessDeadlocked(s: System) returns (step: Step)
    requires Invariant(s) && !Deadlocked(s)
    ensures Enabled(DISCIPLINE, s, step) && Next(s, step) != s
  {
    var core := if s.v3f.place != Spins || (s.v5f.place == Spins && !s.v3f.req) then V3F else V5F;
    if s.Of(core).place != Spins {
      step := Step(core, OwnMove(s, core));
      OwnMoveChanges(s, core);
    } else {
      step := Step(core, Look);
    }
  }

  /** Crossed requests are the only way in which nothing can happen any more. */
  lemma StuckExactlyWhenDeadlocked(s: System)
    requires Reachable(DISCIPLINE, s)
    ensures Deadlocked(s) <==> !CanMove(s)
  {
    ReachableKeeps(s);
    if Deadlocked(s) {
      forall step | Enabled(DISCIPLINE, s, step) ensures Next(s, step) == s {
        DeadlockStays(DISCIPLINE, s, step);
      }
    } else {
      var step := MovesUnlessDeadlocked(s);
    }
  }
}
