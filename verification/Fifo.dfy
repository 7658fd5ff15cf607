/** The inter-core FIFO of ch32h4_xcore.c: one ring per direction, one producer core
    and one consumer core, and no lock.

    The class is the code, as one core runs it on its own. The state machine after it
    takes the same operations apart into their loads and stores and lets the two
    cores interleave them in every way. */
module Fifo {

  const DEPTH: nat := 8

  /** `x & (CH32H4_FIFO_DEPTH - 1)`. */
  function Wrap(x: int): (r: nat)
    ensures r < DEPTH
  {
    x % DEPTH
  }

  // ---- The ring as a queue ---------------------------------------------------------

  /** The slot `i` places after `tail`. */
  function Slot(tail: nat, i: nat): nat {
    Wrap(tail + i)
  }

  /** The `n` words from slot `tail` on. */
  function Waiting(buf: seq<int>, tail: nat, n: nat): (w: seq<int>)
    requires |buf| == DEPTH
    ensures |w| == n
    ensures forall i :: 0 <= i < n ==> w[i] == buf[Slot(tail, i)]
  {
    seq(n, i requires 0 <= i < n => buf[Slot(tail, i)])
  }

  /** Slots less than a whole turn apart are different. */
  lemma SlotsDiffer(tail: nat, i: nat, j: nat)
    requires i < j < DEPTH
    ensures Slot(tail, i) != Slot(tail, j)
  {
  }

  lemma NextSlot(tail: nat, i: nat)
    ensures Slot(Wrap(tail + 1), i) == Slot(tail, i + 1)
  {
  }

  lemma WrapNext(n: nat)
    ensures Wrap(Wrap(n) + 1) == Wrap(n + 1)
  {
  }

  lemma WrapDistance(n: nat, k: nat)
    requires k < DEPTH
    ensures Wrap(Wrap(n + k) - Wrap(n)) == k
    ensures Wrap(Wrap(n + k) + 1) == Wrap(n) <==> k == DEPTH - 1
  {
  }

  lemma OneFurther(tail: nat, head: nat)
    requires head < DEPTH && tail < DEPTH && Wrap(head + 1) != tail
    ensures Wrap(Wrap(head + 1) - tail) == Wrap(head - tail) + 1
    ensures Slot(tail, Wrap(head - tail)) == head
  {
  }

  lemma WaitingLast(buf: seq<int>, tail: nat, n: nat, value: int)
    requires |buf| == DEPTH && n < DEPTH
    ensures Waiting(buf[Slot(tail, n) := value], tail, n + 1) == Waiting(buf, tail, n) + [value]
  {
    forall i | 0 <= i < n ensures Slot(tail, i) != Slot(tail, n) {
      SlotsDiffer(tail, i, n);
    }
  }

  lemma OneNearer(tail: nat, head: nat)
    requires head < DEPTH && tail < DEPTH && head != tail
    ensures Wrap(head - tail) > 0 && Wrap(head - Wrap(tail + 1)) == Wrap(head - tail) - 1
  {
  }

  lemma WaitingFirst(buf: seq<int>, tail: nat, n: nat)
    requires |buf| == DEPTH && tail < DEPTH && n > 0
    ensures Waiting(buf, tail, n) == [buf[tail]] + Waiting(buf, Wrap(tail + 1), n - 1)
  {
    assert Slot(tail, 0) == tail;
    var w, rest := Waiting(buf, tail, n), Waiting(buf, Wrap(tail + 1), n - 1);
    forall i | 0 < i < n ensures w[i] == rest[i - 1] {
      NextSlot(tail, i - 1);
    }
  }

  class Ring {
    const buf: array<int>
    var head: nat
    var tail: nat

    ghost predicate Valid()
      reads this
    {
      buf.Length == DEPTH && head < DEPTH && tail < DEPTH
    }

    /** The words pushed and not yet popped, oldest first. */
    ghost function Contents(): (w: seq<int>)
      reads this, buf
      requires Valid()
      ensures |w| < DEPTH
    {
      Waiting(buf[..], tail, Wrap(head - tail))
    }

    constructor ()
      ensures Valid() && Contents() == [] && fresh(buf)
    {
      buf := new int[DEPTH](_ => 0);
      head, tail := 0, 0;
    }

    /** `ch32h4_fifo_push_nb`. */
    method PushNb(value: int) returns (ok: bool)
      requires Valid()
      modifies this`head, buf
      ensures Valid()
      ensures ok <==> |old(Contents())| < DEPTH - 1
      ensures Contents() == if ok then old(Contents()) + [value] else old(Contents())
    {
      var next := Wrap(head + 1);
      if next == tail {
        return false;
      }
      OneFurther(tail, head);
      WaitingLast(buf[..], tail, Wrap(head - tail), value);
      buf[head] := value;
      head := next;
      return true;
    }

    /** `ch32h4_fifo_pop_nb`. */
    method PopNb() returns (ok: bool, value: int)
      requires Valid()
      modifies this`tail
      ensures Valid()
      ensures ok <==> old(Contents()) != []
      ensures old(Contents()) == if ok then [value] + Contents() else Contents()
    {
      if tail == head {
        return false, 0;
      }
      OneNearer(tail, head);
      WaitingFirst(buf[..], tail, Wrap(head - tail));
      value := buf[tail];
      tail := Wrap(tail + 1);
      ok := true;
    }

    /** `ch32h4_fifo_available`. */
    method Available() returns (n: nat)
      requires Valid()
      ensures n == |Contents()|
    {
      n := Wrap(head - tail);
    }

    /** `ch32h4_fifo_drain`. */
    method Drain()
      requires Valid()
      modifies this`tail
      ensures Valid() && Contents() == []
    {
      tail := head;
    }
  }

  // ---- The ring under interleaving ----------------------------------------------------

  /** What `push_nb` has done: loaded its own index; seen room in the other; stored the
      word. */
  datatype Producer =
    | Idle
    | HasHead(value: int, head: nat)
    | HasRoom(value: int, head: nat)
    | HasStored(value: int, head: nat)

  /** What `pop_nb` has done: loaded its own index; seen a word; loaded the word. And
      `drain`: loaded the producer's index, when `seen` words had been pushed. */
  datatype Consumer =
    | Resting
    | HasTail(tail: nat)
    | HasWord(tail: nat)
    | HasLoaded(tail: nat, value: int)
    | Drains(head: nat, seen: nat)

  /** The shared words and both cores. The last five are history: every word pushed,
      every word popped and where in `pushed` it came from, how many words the
      consumer has moved past, and how many of those it dropped. */
  datatype State = State(
    buf: seq<int>, head: nat, tail: nat,
    producer: Producer, consumer: Consumer,
    pushed: seq<int>, popped: seq<int>, source: seq<nat>, taken: nat, dropped: int)

  datatype Step =
    | Push(value: int) | CheckRoom | Store | Publish
    | Pop | CheckWord | Load | Take
    | Drain | Drop

  predicate Enabled(s: State, step: Step) {
    match step
    case Push(_) => s.producer.Idle?
    case CheckRoom => s.producer.HasHead?
    case Store => s.producer.HasRoom? && s.producer.head < |s.buf|
    case Publish => s.producer.HasStored?
    case Pop => s.consumer.Resting?
    case CheckWord => s.consumer.HasTail?
    case Load => s.consumer.HasWord? && s.consumer.tail < |s.buf|
    case Take => s.consumer.HasLoaded?
    case Drain => s.consumer.Resting?
    case Drop => s.consumer.Drains?
  }

  function Next(s: State, step: Step): State
    requires Enabled(s, step)
  {
    match step
    case Push(value) => s.(producer := HasHead(value, s.head))
    case CheckRoom => s.(producer := if Wrap(s.producer.head + 1) == s.tail
                                     then Idle else HasRoom(s.producer.value, s.producer.head))
    case Store => s.(buf := s.buf[s.producer.head := s.producer.value],
                     producer := HasStored(s.producer.value, s.producer.head))
    case Publish => s.(head := Wrap(s.producer.head + 1), producer := Idle,
                       pushed := s.pushed + [s.producer.value])
    case Pop => s.(consumer := HasTail(s.tail))
    case CheckWord => s.(consumer := if s.consumer.tail == s.head then Resting else HasWord(s.consumer.tail))
    case Load => s.(consumer := HasLoaded(s.consumer.tail, s.buf[s.consumer.tail]))
    case Take => s.(tail := Wrap(s.consumer.tail + 1), consumer := Resting,
                    popped := s.popped + [s.consumer.value], source := s.source + [s.taken], taken := s.taken + 1)
    case Drain => s.(consumer := Drains(s.head, |s.pushed|))
    case Drop => s.(tail := s.consumer.head, consumer := Resting,
                    dropped := s.dropped + s.consumer.seen - s.taken,
                    taken := s.consumer.seen)
  }

  /** What `ch32h4_xcore_init` leaves, whatever the slots hold. */
  predicate Initial(s: State) {
    && |s.buf| == DEPTH && s.head == 0 && s.tail == 0
    && s.producer == Idle && s.consumer == Resting
    && s.pushed == [] && s.popped == [] && s.source == [] && s.taken == 0 && s.dropped == 0
  }

  /** The words of one run: states and the steps between them. */
  ghost predicate Run(states: seq<State>, steps: seq<Step>) {
    && |states| == |steps| + 1
    && Initial(states[0])
    && forall i :: 0 <= i < |steps| ==> Enabled(states[i], steps[i]) && states[i + 1] == Next(states[i], steps[i])
  }

  /** The indices are those of the words in flight, and these are in their slots. */
  ghost predicate InFlight(s: State) {
    && |s.buf| == DEPTH
    && s.taken <= |s.pushed| < s.taken + DEPTH
    && s.head == Wrap(|s.pushed|) && s.tail == Wrap(s.taken)
    && forall i :: s.taken <= i < |s.pushed| ==> s.buf[Wrap(i)] == s.pushed[i]
  }

  predicate ProducerKnows(s: State)
    requires |s.buf| == DEPTH
  {
    match s.producer
    case Idle => true
    case HasHead(_, h) => h == s.head
    case HasRoom(_, h) => h == s.head && h < DEPTH && |s.pushed| + 1 < s.taken + DEPTH
    case HasStored(v, h) => h == s.head && h < DEPTH && |s.pushed| + 1 < s.taken + DEPTH && s.buf[h] == v
  }

  predicate ConsumerKnows(s: State) {
    match s.consumer
    case Resting => true
    case HasTail(t) => t == s.tail
    case HasWord(t) => t == s.tail && s.taken < |s.pushed|
    case HasLoaded(t, v) => t == s.tail && s.taken < |s.pushed| && v == s.pushed[s.taken]
    case Drains(h, seen) => s.taken <= seen <= |s.pushed| && h == Wrap(seen)
  }

  /** The words popped are words pushed, in order, each at most once, and every word
      the consumer has moved past was popped or dropped. */
  ghost predicate InOrder(s: State)
    requires s.taken <= |s.pushed|
  {
    && |s.source| == |s.popped| && |s.popped| + s.dropped == s.taken && s.dropped >= 0
    && (forall i :: 0 <= i < |s.source| ==> s.source[i] < s.taken)
    && (forall i :: 0 <= i < |s.source| ==> s.popped[i] == s.pushed[s.source[i]])
    && (forall i, j :: 0 <= i < j < |s.source| ==> s.source[i] < s.source[j])
    && (s.dropped == 0 ==> s.popped == s.pushed[..s.taken])
  }

  ghost predicate Inv(s: State) {
    InFlight(s) && ProducerKnows(s) && ConsumerKnows(s) && InOrder(s)
  }

  // ---- What every step keeps -------------------------------------------------------------

  lemma PublishKeeps(s: State)
    requires Inv(s) && s.producer.HasStored?
    ensures Inv(Next(s, Publish))
  {
    WrapNext(|s.pushed|);
    var t := Next(s, Publish);
    assert t.pushed[..s.taken] == s.pushed[..s.taken];
    assert InFlight(t);
  }

  lemma StoreKeeps(s: State)
    requires Inv(s) && s.producer.HasRoom?
    ensures Inv(Next(s, Store))
  {
    forall i | s.taken <= i < |s.pushed| ensures Wrap(i) != s.producer.head {
      SlotsDiffer(s.taken, i - s.taken, |s.pushed| - s.taken);
    }
  }

  lemma TakeKeeps(s: State)
    requires Inv(s) && s.consumer.HasLoaded?
    ensures Inv(Next(s, Take))
  {
    WrapNext(s.taken);
    assert s.pushed[..s.taken + 1] == s.pushed[..s.taken] + [s.pushed[s.taken]];
  }

  lemma CheckRoomKeeps(s: State)
    requires Inv(s) && s.producer.HasHead?
    ensures Inv(Next(s, CheckRoom))
    ensures Next(s, CheckRoom).producer == Idle <==> |s.pushed| == s.taken + 7
  {
    WrapDistance(s.taken, |s.pushed| - s.taken);
  }

  lemma CheckWordKeeps(s: State)
    requires Inv(s) && s.consumer.HasTail?
    ensures Inv(Next(s, CheckWord))
    ensures Next(s, CheckWord).consumer == Resting <==> |s.pushed| == s.taken
  {
    WrapDistance(s.taken, |s.pushed| - s.taken);
  }

  lemma StepKeeps(s: State, step: Step)
    requires Inv(s) && Enabled(s, step)
    ensures Inv(Next(s, step))
  {
    match step
    case Store => StoreKeeps(s);
    case Publish => PublishKeeps(s);
    case Take => TakeKeeps(s);
    case CheckRoom => CheckRoomKeeps(s);
    case CheckWord => CheckWordKeeps(s);
    case _ =>
  }

  lemma {:induction false} RunKeeps(states: seq<State>, steps: seq<Step>, i: nat)
    requires Run(states, steps) && i < |states|
    ensures Inv(states[i])
  {
    if i > 0 {
      RunKeeps(states, steps, i - 1);
      StepKeeps(states[i - 1], steps[i - 1]);
    }
  }

  /** The words in flight. */
  ghost function Contents(s: State): seq<int>
    requires s.taken <= |s.pushed|
  {
    s.pushed[s.taken..]
  }

  /** What the two cores see of a run, at any of its states: the words popped are words
      pushed, in order; none is lost but by `drain`, and none is seen twice; and at most
      seven are in flight. Without a `drain` the words popped are a prefix of those
      pushed. */
  lemma DeliveredInOrder(states: seq<State>, steps: seq<Step>, i: nat)
    requires Run(states, steps) && i < |states|
    ensures var s := states[i];
      && s.taken <= |s.pushed| && |Contents(s)| <= 7 && InOrder(s)
      && |s.pushed| == |s.popped| + s.dropped + |Contents(s)|
      && (s.dropped == 0 ==> s.pushed == s.popped + Contents(s))
  {
    RunKeeps(states, steps, i);
  }

  /** Seen as a queue, only four steps do anything, each at one instant: the store that
      publishes appends, the store that takes removes the oldest, and the store that
      ends `drain` removes what was there when it looked. */
  lemma StepIsQueueStep(s: State, step: Step)
    requires Inv(s) && Enabled(s, step)
    ensures Next(s, step).taken <= |Next(s, step).pushed|
    ensures var t := Next(s, step);
      match step
      case Publish => Contents(t) == Contents(s) + [s.producer.value]
      case Take => Contents(s) == [s.consumer.value] + Contents(t)
      case Drop => Contents(t) == s.pushed[s.consumer.seen..]
      case _ => Contents(t) == Contents(s)
  {
    match step
    case Publish => assert (s.pushed + [s.producer.value])[s.taken..] == s.pushed[s.taken..] + [s.producer.value];
    case Take => assert s.pushed[s.taken..] == [s.pushed[s.taken]] + s.pushed[s.taken + 1..];
    case _ =>
  }

  /** `push_nb` refuses exactly when seven words are in flight at its load of `tail`, and
      `pop_nb` exactly when none is at its load of `head`. */
  lemma RefusedExactly(s: State)
    requires Inv(s)
    ensures s.producer.HasHead? ==> (Next(s, CheckRoom).producer == Idle <==> |Contents(s)| == 7)
    ensures s.consumer.HasTail? ==> (Next(s, CheckWord).consumer == Resting <==> Contents(s) == [])
  {
    if s.producer.HasHead? {
      CheckRoomKeeps(s);
    }
    if s.consumer.HasTail? {
      CheckWordKeeps(s);
    }
  }

  /** `available`: the number of words in flight when `head` is loaded. The consumer's
      own index does not move meanwhile, so that many can then be popped. */
  lemma AvailableIsExact(s: State)
    requires Inv(s)
    ensures Wrap(s.head - s.tail) == |Contents(s)|
  {
    WrapDistance(s.taken, |s.pushed| - s.taken);
  }

  /** A `drain` in between makes a word disappear: the prefix property does need that
      there is none. */
  lemma DrainDrops() returns (states: seq<State>, steps: seq<Step>)
    ensures Run(states, steps)
    ensures var s := states[|steps|]; s.taken == |s.pushed| == 1 && s.popped == []
  {
    var s0 := State([0, 0, 0, 0, 0, 0, 0, 0], 0, 0, Idle, Resting, [], [], [], 0, 0);
    var s1 := Next(s0, Push(5));
    var s2 := Next(s1, CheckRoom);
    var s3 := Next(s2, Store);
    var s4 := Next(s3, Publish);
    var s5 := Next(s4, Drain);
    var s6 := Next(s5, Drop);
    states := [s0, s1, s2, s3, s4, s5, s6];
    steps := [Push(5), CheckRoom, Store, Publish, Drain, Drop];
  }
}
