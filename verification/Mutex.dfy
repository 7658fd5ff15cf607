/** The recursive mutex of ch32h4_xcore.c: a hardware semaphore, and a nesting depth
    per core in one byte, as a state machine of both cores.

    A read of the semaphore takes it if it was free, and says whether it was. A core
    releases only what it holds. */
module Mutex {

  datatype Core = V3F | V5F

  datatype Owner = Free | By(core: Core)

  /** Outside the calls, or in front of: the read that takes, in `lock_rec` after it
      has counted; the read that takes, in `try_lock_rec`; the store of 1 after it; the
      release in `unlock_rec`. */
  datatype Place = Outside | Takes | Tries | Counts | Frees

  /** `depth` is the byte of `s_mutex_depth`. `nest` is what the program is entitled to
      believe: locks taken and not yet undone. `deepest` is the largest it has been.
      `handler` says that an interrupt handler on the core believes it has the lock. */
  datatype Side = Side(place: Place, depth: int, nest: nat, deepest: nat, handler: bool)

  datatype State = State(owner: Owner, v3f: Side, v5f: Side) {
    function Of(core: Core): Side {
      if core == V3F then v3f else v5f
    }

    function With(owner: Owner, core: Core, s: Side): State {
      if core == V3F then State(owner, s, v5f) else State(owner, v3f, s)
    }
  }

  /** `HandlerLock`: an interrupt handler calls `lock_rec` in the middle of one. */
  datatype Action = Lock | TryLock | Unlock | Take | Try | Count | Release | HandlerLock

  datatype Step = Step(core: Core, action: Action)

  /** `handlers` says whether interrupt handlers may lock on the core they interrupt. */
  predicate Enabled(handlers: bool, s: State, step: Step) {
    var c := s.Of(step.core);
    match step.action
    case Lock | TryLock | Unlock => c.place == Outside
    case Take => c.place == Takes
    case Try => c.place == Tries
    case Count => c.place == Counts
    case Release => c.place == Frees
    case HandlerLock => handlers && c.place == Takes && c.depth > 0
  }

  /** One more level, known to the program. */
  function Deeper(c: Side): Side {
    c.(place := Outside, nest := c.nest + 1, deepest := if c.nest + 1 > c.deepest then c.nest + 1 else c.deepest)
  }

  function Next(s: State, step: Step): State {
    var c := s.Of(step.core);
    var mine := By(step.core);
    match step.action
    case Lock =>
      var counted := c.(depth := (c.depth + 1) % 256);
      s.With(s.owner, step.core, if c.depth != 0 then Deeper(counted) else counted.(place := Takes))
    case TryLock =>
      s.With(s.owner, step.core,
        if c.depth != 0 then Deeper(c.(depth := (c.depth + 1) % 256)) else c.(place := Tries))
    case Take =>
      if s.owner == Free then s.With(mine, step.core, Deeper(c)) else s
    case Try =>
      if s.owner == Free then s.With(mine, step.core, c.(place := Counts))
      else s.With(s.owner, step.core, c.(place := Outside))
    case Count =>
      s.With(s.owner, step.core, Deeper(c.(depth := 1)))
    case Unlock =>
      var undone := c.(nest := if c.nest == 0 then 0 else c.nest - 1);
      s.With(s.owner, step.core,
        if c.depth == 0 then undone
        else undone.(depth := c.depth - 1, place := if c.depth == 1 then Frees else Outside))
    case Release =>
      s.With(if s.owner == mine then Free else s.owner, step.core, c.(place := Outside))
    case HandlerLock =>
      s.With(s.owner, step.core, c.(depth := (c.depth + 1) % 256, handler := true))
  }

  const RESET := State(Free, Side(Outside, 0, 0, 0, false), Side(Outside, 0, 0, 0, false))

  predicate Follows(handlers: bool, s: State, run: seq<Step>) {
    run == [] ||
    (var before := run[..|run| - 1];
     Follows(handlers, s, before) && Enabled(handlers, After(s, before), run[|run| - 1]))
  }

  function After(s: State, run: seq<Step>): State {
    if run == [] then s else Next(After(s, run[..|run| - 1]), run[|run| - 1])
  }

  /** Some run leads here. */
  ghost predicate Reachable(handlers: bool, s: State) {
    exists run :: Follows(handlers, RESET, run) && After(RESET, run) == s
  }

  /** The depth byte has wrapped: the nesting has once been 256. */
  predicate Wrapped(c: Side) {
    c.deepest >= 256
  }

  /** The semaphore is taken and released around the outermost level, until the depth
      wraps; from then on it is never released again. */
  predicate SideInv(mine: bool, c: Side) {
    && !c.handler && c.nest <= c.deepest
    && (!Wrapped(c) ==>
        && (c.place == Outside ==> c.depth == c.nest && (mine <==> c.nest > 0))
        && (c.place == Takes ==> c.depth == 1 && c.nest == 0 && !mine)
        && (c.place == Tries ==> c.depth == 0 && c.nest == 0 && !mine)
        && (c.place == Counts || c.place == Frees ==> c.depth == 0 && c.nest == 0 && mine))
    && (Wrapped(c) ==>
        && mine
        && (c.place == Outside || c.place == Tries ==> c.depth == 0)
        && (c.place == Takes ==> c.depth == 1)
        && c.place != Counts && c.place != Frees)
  }

  predicate Inv(s: State) {
    SideInv(s.owner == By(V3F), s.v3f) && SideInv(s.owner == By(V5F), s.v5f)
  }

  lemma StepKeeps(s: State, step: Step)
    requires Inv(s) && Enabled(false, s, step)
    ensures Inv(Next(s, step))
  {
  }

  lemma {:induction false} RunKeeps(run: seq<Step>)
    requires Follows(false, RESET, run)
    ensures Inv(After(RESET, run))
  {
    if run != [] {
      RunKeeps(run[..|run| - 1]);
      StepKeeps(After(RESET, run[..|run| - 1]), run[|run| - 1]);
    }
  }

  lemma ReachableKeeps(s: State)
    requires Reachable(false, s)
    ensures Inv(s)
  {
    var run :| Follows(false, RESET, run) && After(RESET, run) == s;
    RunKeeps(run);
  }

  /** The program of `core` may touch what the mutex protects. */
  predicate Inside(s: State, core: Core) {
    s.Of(core).nest > 0 || s.Of(core).handler
  }

  /** Under every interleaving the two cores are never both inside, however deep they
      nest: a core that is inside owns the semaphore. */
  lemma Excludes(s: State)
    requires Reachable(false, s)
    ensures !(Inside(s, V3F) && Inside(s, V5F))
    ensures forall core :: Inside(s, core) ==> s.owner == By(core)
  {
    ReachableKeeps(s);
  }

  /** The first lock and the first try of a core find a free semaphore: they return with it,
      one deep; and undoing that gives it back. */
  lemma FreeIsTaken(s: State, core: Core)
    requires Inv(s) && s.owner == Free && s.Of(core).place == Outside
    ensures var a, b := Next(s, Step(core, Lock)), Next(s, Step(core, TryLock));
      var t := Next(a, Step(core, Take));
      var u := Next(t, Step(core, Unlock));
      && a.Of(core).place == Takes && b.Of(core).place == Tries && u.Of(core).place == Frees
      && t.owner == By(core) && t.Of(core).place == Outside && t.Of(core).nest == 1
      && Next(Next(b, Step(core, Try)), Step(core, Count)) == t
      && Next(u, Step(core, Release)) == s.With(Free, core, s.Of(core).(deepest := t.Of(core).deepest))
  {
  }

  /** While the other core has it, a lock waits and a try leaves everything as it was. */
  lemma TakenIsRefused(s: State, core: Core, other: Core)
    requires Inv(s) && other != core && s.owner == By(other) && s.Of(core).place == Outside
    ensures Next(Next(s, Step(core, TryLock)), Step(core, Try)) == s
    ensures var a := Next(s, Step(core, Lock)); a.Of(core).place == Takes && Next(a, Step(core, Take)) == a
  {
  }

  /** A core that has it and is fewer than 255 deep gets it again at once by either call, and
      undoing that leaves it where it was. */
  lemma OwnerNests(s: State, core: Core)
    requires Inv(s) && s.Of(core).place == Outside && 0 < s.Of(core).nest && s.Of(core).deepest < 255
    ensures var t := Next(s, Step(core, Lock));
      && Next(s, Step(core, TryLock)) == t
      && t.Of(core).place == Outside && t.Of(core).nest == s.Of(core).nest + 1 && t.owner == s.owner
      && Next(t, Step(core, Unlock)) == s.With(s.owner, core, s.Of(core).(deepest := t.Of(core).deepest))
  {
  }

  /** When a core has no call under way, it owns the semaphore exactly when it is inside
      or has once nested 256 deep: balanced unlocks give the lock back if and only if
      the depth byte never wrapped. */
  lemma ReleasedUnlessWrapped(s: State, core: Core)
    requires Reachable(false, s) && s.Of(core).place == Outside
    ensures s.owner == By(core) <==> s.Of(core).nest > 0 || Wrapped(s.Of(core))
  {
    ReachableKeeps(s);
  }

  /** Once the depth has wrapped, the next `lock_rec` of that core waits for itself: no
      step of either core ever lets it through. */
  lemma WrappedLockNeverReturns(s: State, core: Core, step: Step)
    requires Inv(s) && Wrapped(s.Of(core)) && s.Of(core).place == Takes
    requires Enabled(false, s, step)
    ensures Inv(Next(s, step)) && Wrapped(Next(s, step).Of(core)) && Next(s, step).Of(core).place == Takes
  {
    StepKeeps(s, step);
  }

  /** One more step of a run. */
  lemma Go(handlers: bool, s: State, core: Core, action: Action) returns (t: State)
    requires Reachable(handlers, s) && Enabled(handlers, s, Step(core, action))
    ensures Reachable(handlers, t) && t == Next(s, Step(core, action))
  {
    var run :| Follows(handlers, RESET, run) && After(RESET, run) == s;
    var longer := run + [Step(core, action)];
    t := Next(s, Step(core, action));
    assert longer[..|longer| - 1] == run;
    assert Follows(handlers, RESET, longer) && After(RESET, longer) == t;
  }

  lemma PowerUp(handlers: bool)
    ensures Reachable(handlers, RESET)
  {
    var none: seq<Step> := [];
    assert Follows(handlers, RESET, none) && After(RESET, none) == RESET;
  }

  /** The V3F has nested `n` deep. */
  function Deep(n: nat): State {
    RESET.(owner := By(V3F), v3f := Side(Outside, if n == 256 then 0 else n, n, n, false))
  }

  lemma OneDeeper(handlers: bool, n: nat)
    requires 1 <= n < 256
    ensures Enabled(handlers, Deep(n), Step(V3F, Lock)) && Next(Deep(n), Step(V3F, Lock)) == Deep(n + 1)
  {
  }

  lemma FirstLock()
    ensures var s := Next(RESET, Step(V3F, Lock)); Enabled(false, s, Step(V3F, Take)) && Next(s, Step(V3F, Take)) == Deep(1)
  {
  }

  /** Nesting 255 deep and more is possible, and at 256 the byte reads zero. */
  lemma {:induction false} NestsDeep(handlers: bool, n: nat)
    requires 1 <= n <= 256
    ensures Reachable(handlers, Deep(n))
  {
    if n == 1 {
      PowerUp(handlers);
      FirstLock();
      var s := Go(handlers, RESET, V3F, Lock);
      s := Go(handlers, s, V3F, Take);
    } else {
      NestsDeep(handlers, n - 1);
      OneDeeper(handlers, n - 1);
      var s := Go(handlers, Deep(n - 1), V3F, Lock);
    }
  }

  lemma HandlerStep(s: State) returns (t: State)
    requires s == Next(Deep(1), Step(V5F, Lock))
    ensures t == Next(s, Step(V5F, HandlerLock))
    ensures Enabled(true, s, Step(V5F, HandlerLock)) && Inside(t, V3F) && Inside(t, V5F)
  {
    t := Next(s, Step(V5F, HandlerLock));
  }

  /** `lock_rec` counts before it takes. A handler that locks in between is let in
      although the other core has the lock. */
  lemma HandlerIsLetIn() returns (t: State)
    ensures Reachable(true, t) && Inside(t, V3F) && Inside(t, V5F)
  {
    NestsDeep(true, 1);
    var s := Go(true, Deep(1), V5F, Lock);
    t := HandlerStep(s);
    t := Go(true, s, V5F, HandlerLock);
  }
}
