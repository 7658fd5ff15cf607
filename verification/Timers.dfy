/** Who owns which hardware timer: the registry of ch32h4_timer.c, and the two users of it
    that share pins, analogWrite (wiring_analog.c, ch32h4_pinmap.c) and tone (Tone.cpp).

    The functions say what each call does to the registry, the channel masks and the
    tone; the class has the code, and does just that. */
module Timers {

  const COUNT: nat := 12
  const TWO_32 := 0x1_0000_0000

  datatype Owner = Free | Pwm | Tone | Servo | I2s | Adc | User | Ticker | Audio

  /** A row of the PWM table. */
  datatype Entry = Entry(pin: nat, timer: nat, channel: nat, negated: bool)

  /** Rows name timers 1 to 12 and channels 1 to 4. */
  predicate Wellformed(table: seq<Entry>) {
    forall i :: 0 <= i < |table| ==> 1 <= table[i].timer <= COUNT && 1 <= table[i].channel <= 4
  }

  /** The board: its table, its number of pins, and the pins that go to the DAC. */
  datatype Board = Board(table: seq<Entry>, pins: nat, dac: set<nat>)

  /** `s_tone`: while there is a tone, its pin, its timer and the periods left. */
  datatype Playing = Silent | Playing(pin: nat, timer: nat, remaining: nat)

  datatype State = State(owner: seq<Owner>, mask: seq<set<nat>>, tone: Playing)

  predicate Shape(s: State) {
    |s.owner| == COUNT + 1 && |s.mask| == COUNT + 1
  }

  /** A timer is PWM's exactly when one of its channels is in use, and tone's exactly
      when it plays the tone. */
  predicate Inv(s: State) {
    && Shape(s)
    && (s.tone.Playing? ==> 1 <= s.tone.timer <= COUNT)
    && (forall t :: 1 <= t <= COUNT ==> (s.owner[t] == Pwm <==> s.mask[t] != {}))
    && (forall t :: 1 <= t <= COUNT ==> (s.owner[t] == Tone <==> s.tone.Playing? && s.tone.timer == t))
  }

  // ---- The registry ------------------------------------------------------------------

  predicate ValidId(id: nat) {
    1 <= id <= COUNT
  }

  predicate MayClaim(s: State, id: nat, o: Owner)
    requires Shape(s)
  {
    ValidId(id) && o != Free && (s.owner[id] == Free || s.owner[id] == o)
  }

  function Claimed(s: State, id: nat, o: Owner): State
    requires Shape(s)
  {
    if MayClaim(s, id, o) then s.(owner := s.owner[id := o]) else s
  }

  function Released(s: State, id: nat, o: Owner): State
    requires Shape(s)
  {
    if ValidId(id) && s.owner[id] == o then s.(owner := s.owner[id := Free]) else s
  }

  // ---- Searching the table --------------------------------------------------------------

  /** The first row from `from` on that `p` accepts, or the length of the table. */
  function First(table: seq<Entry>, from: nat, p: Entry -> bool): (i: nat)
    requires from <= |table|
    ensures from <= i <= |table|
    ensures i < |table| ==> p(table[i])
    ensures forall j :: from <= j < i ==> !p(table[j])
    decreases |table| - from
  {
    if from == |table| || p(table[from]) then from else First(table, from + 1, p)
  }

  predicate Owns(s: State, e: Entry, o: Owner) {
    e.timer < |s.owner| && s.owner[e.timer] == o
  }

  function Usable(s: State, pin: nat, o: Owner): Entry -> bool {
    (e: Entry) => e.pin == pin && !e.negated && Owns(s, e, o)
  }

  function Active(s: State, pin: nat): Entry -> bool {
    (e: Entry) => e.pin == pin && Owns(s, e, Pwm)
  }

  /** `ch32h4_pwm_find`: a row of a timer PWM already has before one of a free timer. */
  function PwmRow(b: Board, s: State, pin: nat): (i: nat)
    ensures i <= |b.table|
  {
    var joined := First(b.table, 0, Usable(s, pin, Pwm));
    if joined < |b.table| then joined else First(b.table, 0, Usable(s, pin, Free))
  }

  /** `ch32h4_pwm_find_active`: negated rows too. */
  function ActiveRow(b: Board, s: State, pin: nat): (i: nat)
    ensures i <= |b.table|
  {
    First(b.table, 0, Active(s, pin))
  }

  // ---- The calls ---------------------------------------------------------------------------

  predicate OnTimer(b: Board, pin: nat) {
    pin < b.pins && pin !in b.dac
  }

  function Written(b: Board, s: State, pin: nat): State
    requires Shape(s) && Wellformed(b.table)
  {
    var i := PwmRow(b, s, pin);
    if !OnTimer(b, pin) || i == |b.table| then s
    else
      var e := b.table[i];
      s.(owner := s.owner[e.timer := Pwm], mask := s.mask[e.timer := s.mask[e.timer] + {e.channel}])
  }

  function Stopped(b: Board, s: State, pin: nat): State
    requires Shape(s) && Wellformed(b.table)
  {
    var i := ActiveRow(b, s, pin);
    if !OnTimer(b, pin) || i == |b.table| then s
    else
      var e := b.table[i];
      var left := s.mask[e.timer] - {e.channel};
      var t := s.(mask := s.mask[e.timer := left]);
      if left == {} then Released(t, e.timer, Pwm) else t
  }

  function Silenced(s: State): State
    requires Shape(s)
  {
    if s.tone.Silent? then s else Released(s, s.tone.timer, Tone).(tone := Silent)
  }

  function NoTone(s: State, pin: nat): State
    requires Shape(s)
  {
    if s.tone.Playing? && s.tone.pin == pin then Silenced(s) else s
  }

  /** The number of periods a duration in milliseconds is counted out in; 0 is no limit. */
  function Periods(frequency: nat, duration: nat): nat {
    if duration == 0 then 0
    else
      var n := duration * frequency % TWO_32 / 1000;
      if n == 0 then 1 else n
  }

  function Toned(b: Board, s: State, pin: nat, frequency: nat, duration: nat): State
    requires Shape(s) && Wellformed(b.table)
  {
    if pin >= b.pins || frequency == 0 then NoTone(s, pin)
    else
      var quiet := Silenced(s);
      var i := First(b.table, 0, Usable(quiet, pin, Free));
      if i == |b.table| then quiet
      else
        var t := b.table[i].timer;
        quiet.(owner := quiet.owner[t := Tone], tone := Playing(pin, t, Periods(frequency, duration)))
  }

  /** `tone_tick`, for an update event of `timer`. */
  function Ticked(s: State, timer: nat): State
    requires Shape(s)
  {
    if s.tone.Silent? || s.tone.timer != timer || s.tone.remaining == 0 then s
    else
      var t := s.(tone := s.tone.(remaining := s.tone.remaining - 1));
      if t.tone.remaining == 0 then Silenced(t) else t
  }

  /** `ch32h4_timer_irqn`: the timers whose update interrupt is routed. */
  function Irqn(timer: nat): int {
    if 2 <= timer <= 5 then timer else -1
  }

  predicate Routed(timer: nat) {
    Irqn(timer) >= 0
  }

  /** Whether `tone_tick` is attached: there is a limit, and an interrupt to count it with. */
  predicate Counting(tone: Playing) {
    tone.Playing? && tone.remaining > 0 && Routed(tone.timer)
  }

  /** An update event of a timer, as it is dispatched. */
  function Updated(s: State, timer: nat): State
    requires Shape(s)
  {
    if Counting(s.tone) && s.tone.timer == timer then Ticked(s, timer) else s
  }

  // ---- Every run -----------------------------------------------------------------------------

  /** What a program may call. The last two are Servo, I2S and the others. */
  datatype Call =
    | AnalogWrite(pin: nat)
    | AnalogWriteStop(pin: nat)
    | StartTone(pin: nat, frequency: nat, duration: nat)
    | StopTone(pin: nat)
    | Update(timer: nat)
    | Claim(id: nat, who: Owner)
    | Release(id: nat, who: Owner)

  predicate Allowed(c: Call) {
    (c.Claim? || c.Release?) ==> c.who != Free && c.who != Pwm && c.who != Tone
  }

  function Apply(b: Board, s: State, c: Call): (t: State)
    requires Shape(s) && Wellformed(b.table)
    ensures Shape(t)
  {
    match c
    case AnalogWrite(pin) => Written(b, s, pin)
    case AnalogWriteStop(pin) => Stopped(b, s, pin)
    case StartTone(pin, frequency, duration) => Toned(b, s, pin, frequency, duration)
    case StopTone(pin) => NoTone(s, pin)
    case Update(timer) => Updated(s, timer)
    case Claim(id, who) => Claimed(s, id, who)
    case Release(id, who) => Released(s, id, who)
  }

  /** On whose behalf a call changes owners. */
  function Party(c: Call): Owner {
    match c
    case AnalogWrite(_) | AnalogWriteStop(_) => Pwm
    case StartTone(_, _, _) | StopTone(_) | Update(_) => Tone
    case Claim(_, who) => who
    case Release(_, who) => who
  }

  lemma SilencedKeeps(s: State)
    requires Inv(s)
    ensures Inv(Silenced(s))
  {
  }

  lemma WrittenKeeps(b: Board, s: State, pin: nat)
    requires Inv(s) && Wellformed(b.table)
    ensures Inv(Written(b, s, pin))
  {
  }

  lemma StoppedKeeps(b: Board, s: State, pin: nat)
    requires Inv(s) && Wellformed(b.table)
    ensures Inv(Stopped(b, s, pin))
  {
  }

  lemma TonedKeeps(b: Board, s: State, pin: nat, frequency: nat, duration: nat)
    requires Inv(s) && Wellformed(b.table)
    ensures Inv(Toned(b, s, pin, frequency, duration))
  {
    SilencedKeeps(s);
  }

  lemma CallKeeps(b: Board, s: State, c: Call)
    requires Inv(s) && Wellformed(b.table) && Allowed(c)
    ensures Inv(Apply(b, s, c))
  {
    match c
    case AnalogWrite(pin) => WrittenKeeps(b, s, pin);
    case AnalogWriteStop(pin) => StoppedKeeps(b, s, pin);
    case StartTone(pin, frequency, duration) => TonedKeeps(b, s, pin, frequency, duration);
    case _ => SilencedKeeps(s);
  }

  function Run(b: Board, s: State, calls: seq<Call>): (t: State)
    requires Shape(s) && Wellformed(b.table)
    ensures Shape(t)
  {
    if calls == [] then s else Apply(b, Run(b, s, calls[..|calls| - 1]), calls[|calls| - 1])
  }

  /** At reset nobody owns a timer. */
  function Reset(): (s: State)
    ensures Inv(s)
  {
    State(seq(COUNT + 1, _ => Free), seq(COUNT + 1, _ => {}), Silent)
  }

  /** In every sequence of calls. */
  lemma {:induction false} RunKeeps(b: Board, calls: seq<Call>)
    requires Wellformed(b.table) && forall i :: 0 <= i < |calls| ==> Allowed(calls[i])
    ensures Inv(Run(b, Reset(), calls))
  {
    if calls != [] {
      RunKeeps(b, calls[..|calls| - 1]);
      CallKeeps(b, Run(b, Reset(), calls[..|calls| - 1]), calls[|calls| - 1]);
    }
  }

  /** Nobody takes a timer another has, or gives one away: an owner changes only from free
      to the caller, or from the caller to free. */
  lemma NobodyTakesAnothers(b: Board, s: State, c: Call, t: nat)
    requires Inv(s) && Wellformed(b.table) && Allowed(c) && 1 <= t <= COUNT
    ensures var was, now := s.owner[t], Apply(b, s, c).owner[t];
      was != now ==> (was == Free && now == Party(c)) || (was == Party(c) && now == Free)
  {
  }

  // ---- What each call does, row by row --------------------------------------------------------

  /** Row `i` is one of the pin's, and not a negated one. */
  predicate PlainRow(b: Board, i: nat, pin: nat) {
    i < |b.table| && b.table[i].pin == pin && !b.table[i].negated
  }

  predicate AnyRow(b: Board, i: nat, pin: nat) {
    i < |b.table| && b.table[i].pin == pin
  }

  /** The first row of the table that is as wanted. */
  ghost predicate IsFirst(b: Board, i: nat, wanted: nat -> bool) {
    i < |b.table| && wanted(i) && forall j: nat :: j < i ==> !wanted(j)
  }

  predicate OwnedBy(b: Board, s: State, i: nat, o: Owner)
    requires Shape(s) && Wellformed(b.table)
  {
    i < |b.table| && s.owner[b.table[i].timer] == o
  }

  /** `noTone` of the pin that plays, and `tone` of it at frequency 0, silence the tone and
      give back its timer and nothing else; of any other pin they do nothing. */
  lemma NoToneSilences(b: Board, s: State, pin: nat, duration: nat)
    requires Inv(s) && Wellformed(b.table)
    ensures var t := Apply(b, s, StopTone(pin));
      && (if s.tone.Playing? && s.tone.pin == pin
          then t == State(s.owner[s.tone.timer := Free], s.mask, Silent) else t == s)
      && t == Apply(b, s, StartTone(pin, 0, duration))
      && (pin >= b.pins ==> forall frequency :: Apply(b, s, StartTone(pin, frequency, duration)) == t)
  {
  }

  /** A row `tone` can have: its timer is free, or was the old tone's. */
  predicate ForTone(b: Board, s: State, i: nat, pin: nat)
    requires Inv(s) && Wellformed(b.table)
  {
    && PlainRow(b, i, pin)
    && (s.owner[b.table[i].timer] == Free || (s.tone.Playing? && s.tone.timer == b.table[i].timer))
  }

  /** `tone` with a valid pin and frequency plays on that pin exactly if there is such a row,
      on the timer of the first, and is silent otherwise; the old tone's timer is free again,
      and no other owner and no mask changes. */
  lemma TonePlaysExactly(b: Board, s: State, pin: nat, frequency: nat, duration: nat)
    requires Inv(s) && Wellformed(b.table) && pin < b.pins && frequency > 0
    ensures var t := Apply(b, s, StartTone(pin, frequency, duration));
      var freed := if s.tone.Playing? then s.owner[s.tone.timer := Free] else s.owner;
      && t.mask == s.mask && (t.tone.Playing? <==> exists i: nat :: ForTone(b, s, i, pin))
      && (t.tone.Silent? ==> t.owner == freed)
      && (t.tone.Playing? ==> exists i: nat ::
            && ForTone(b, s, i, pin) && (forall j: nat :: j < i ==> !ForTone(b, s, j, pin))
            && t.owner == freed[b.table[i].timer := Tone]
            && t.tone.pin == pin && t.tone.timer == b.table[i].timer)
      && (t.tone.Playing? ==> t.tone.remaining == Limit(duration * frequency % TWO_32, duration))
  {
    var quiet := Silenced(s);
    var i := First(b.table, 0, Usable(quiet, pin, Free));
    forall j | 0 <= j < |b.table| ensures Usable(quiet, pin, Free)(b.table[j]) <==> ForTone(b, s, j, pin) {
    }
    if i < |b.table| {
      assert ForTone(b, s, i, pin);
    }
  }

  /** The periods of a tone: none counted without a duration, and at least one with it. */
  function Limit(product: nat, duration: nat): nat {
    if duration == 0 then 0 else if product < 1000 then 1 else product / 1000
  }

  /** `analogWrite` takes the first plain row of the pin on a PWM timer, or else the first on
      a free one; it marks that row's channel and makes the timer PWM's, and nothing else.
      Without such a row, or off the timers, it does nothing. */
  lemma WriteDrivesExactly(b: Board, s: State, pin: nat)
    requires Inv(s) && Wellformed(b.table)
    ensures var t := Apply(b, s, AnalogWrite(pin));
      var joins, frees := (i: nat) => PlainRow(b, i, pin) && OwnedBy(b, s, i, Pwm),
                          (i: nat) => PlainRow(b, i, pin) && OwnedBy(b, s, i, Free);
      var wanted := if exists i: nat :: joins(i) then joins else frees;
      if pin < b.pins && pin !in b.dac && exists i: nat :: wanted(i)
      then exists i: nat :: IsFirst(b, i, wanted) && Drives(s, t, b.table[i])
      else t == s
  {
    var joins, frees := (i: nat) => PlainRow(b, i, pin) && OwnedBy(b, s, i, Pwm),
                        (i: nat) => PlainRow(b, i, pin) && OwnedBy(b, s, i, Free);
    var u, v := First(b.table, 0, Usable(s, pin, Pwm)), First(b.table, 0, Usable(s, pin, Free));
    forall j: nat | j < |b.table| ensures Usable(s, pin, Pwm)(b.table[j]) <==> joins(j) {
    }
    forall j: nat | j < |b.table| ensures Usable(s, pin, Free)(b.table[j]) <==> frees(j) {
    }
    if u < |b.table| {
      assert joins(u) && IsFirst(b, u, joins);
    } else {
      assert !exists i: nat :: joins(i);
      if v < |b.table| {
        assert frees(v) && IsFirst(b, v, frees);
      }
    }
  }

  predicate Drives(s: State, t: State, e: Entry)
    requires Shape(s) && e.timer <= COUNT
  {
    t == State(s.owner[e.timer := Pwm], s.mask[e.timer := s.mask[e.timer] + {e.channel}], s.tone)
  }

  /** `analogWriteStop` takes the first row of the pin, negated or not, on a PWM timer; it
      unmarks that row's channel, and frees the timer exactly if that was its last. */
  lemma StopDropsExactly(b: Board, s: State, pin: nat)
    requires Inv(s) && Wellformed(b.table)
    ensures var t := Apply(b, s, AnalogWriteStop(pin));
      var wanted := (i: nat) => AnyRow(b, i, pin) && OwnedBy(b, s, i, Pwm);
      if pin < b.pins && pin !in b.dac && exists i: nat :: wanted(i)
      then exists i: nat :: IsFirst(b, i, wanted) && Drops(s, t, b.table[i])
      else t == s
  {
    var wanted := (i: nat) => AnyRow(b, i, pin) && OwnedBy(b, s, i, Pwm);
    var u := ActiveRow(b, s, pin);
    forall j: nat | j < |b.table| ensures Active(s, pin)(b.table[j]) <==> wanted(j) {
    }
    if u < |b.table| {
      assert wanted(u) && IsFirst(b, u, wanted);
    }
  }

  predicate Drops(s: State, t: State, e: Entry)
    requires Shape(s) && e.timer <= COUNT
  {
    var left := s.mask[e.timer] - {e.channel};
    t == State(if left == {} then s.owner[e.timer := Free] else s.owner, s.mask[e.timer := left], s.tone)
  }

  /** A claim takes the timer if it is free, and a release frees it if it is one's own; and
      neither does anything else. */
  lemma ClaimsAndReleases(b: Board, s: State, id: nat, who: Owner)
    requires Inv(s) && Wellformed(b.table) && who != Free
    ensures var t := Apply(b, s, Claim(id, who));
      if 1 <= id <= COUNT && s.owner[id] == Free then t == s.(owner := s.owner[id := who]) else t == s
    ensures var t := Apply(b, s, Release(id, who));
      if 1 <= id <= COUNT && s.owner[id] == who then t == s.(owner := s.owner[id := Free]) else t == s
  {
  }

  // ---- What undoes what ------------------------------------------------------------------------

  /** After an analogWrite that found row `i` for a channel not in use before, stopping the
      pin puts everything back if and only if the first row of the pin on a PWM timer,
      which may be a negated one, is of the same timer and channel. */
  lemma StopUndoesWrite(b: Board, s: State, pin: nat)
    requires Inv(s) && Wellformed(b.table) && OnTimer(b, pin) && PwmRow(b, s, pin) < |b.table|
    requires var e := b.table[PwmRow(b, s, pin)]; e.channel !in s.mask[e.timer]
    ensures var e, w := b.table[PwmRow(b, s, pin)], Written(b, s, pin);
      var a := ActiveRow(b, w, pin);
      a < |b.table| &&
      (Stopped(b, w, pin) == s <==> b.table[a].timer == e.timer && b.table[a].channel == e.channel)
  {
    var i := PwmRow(b, s, pin);
    var e, w := b.table[i], Written(b, s, pin);
    var a := ActiveRow(b, w, pin);
    assert Active(w, pin)(e);
    assert a <= i;
    var f, t := b.table[a], Stopped(b, w, pin);
    if f.timer == e.timer && f.channel == e.channel {
      assert s.mask[e.timer] + {e.channel} - {e.channel} == s.mask[e.timer];
      assert t.mask == s.mask && t.owner == s.owner;
    } else {
      assert e.channel in t.mask[e.timer];
    }
  }

  /** No negated row of a pin comes before one that is not, as the shipped tables promise. */
  predicate PlainFirst(table: seq<Entry>) {
    forall i, j :: 0 <= i < j < |table| && table[i].pin == table[j].pin && table[i].negated ==> table[j].negated
  }

  /** With such a table, a stop right after a first write always undoes it. */
  lemma PlainFirstUndoes(b: Board, s: State, pin: nat)
    requires Inv(s) && Wellformed(b.table) && OnTimer(b, pin) && PwmRow(b, s, pin) < |b.table|
    requires var e := b.table[PwmRow(b, s, pin)]; e.channel !in s.mask[e.timer]
    requires PlainFirst(b.table)
    ensures Stopped(b, Written(b, s, pin), pin) == s
  {
    StopUndoesWrite(b, s, pin);
    var i := PwmRow(b, s, pin);
    var e, w := b.table[i], Written(b, s, pin);
    assert Active(w, pin)(e);
    forall j | 0 <= j < i ensures !Active(w, pin)(b.table[j]) {
      assert b.table[j].pin == pin ==> !b.table[j].negated;
      assert !Usable(s, pin, Pwm)(b.table[j]) && !Usable(s, pin, s.owner[e.timer])(b.table[j]);
    }
  }

  /** The state with one channel unmarked, and its timer given back if that was the last. */
  function Unmarked(s: State, timer: nat, channel: nat): State
    requires Shape(s) && timer <= COUNT
  {
    var left := s.mask[timer] - {channel};
    var t := s.(mask := s.mask[timer := left]);
    if left == {} then Released(t, timer, Pwm) else t
  }

  /** Whenever a channel of one of the pin's rows is marked, stopping the pin unmarks that
      channel and no other if and only if the first row of the pin on a PWM timer is of
      that timer and channel. */
  lemma StopUnmarksExactly(b: Board, s: State, pin: nat, row: nat)
    requires Inv(s) && Wellformed(b.table) && OnTimer(b, pin)
    requires row < |b.table| && b.table[row].pin == pin && b.table[row].channel in s.mask[b.table[row].timer]
    ensures ActiveRow(b, s, pin) < |b.table|
    ensures var e, f := b.table[row], b.table[ActiveRow(b, s, pin)];
      Stopped(b, s, pin) == Unmarked(s, e.timer, e.channel) <==> f.timer == e.timer && f.channel == e.channel
  {
    var e, a := b.table[row], ActiveRow(b, s, pin);
    assert s.owner[e.timer] == Pwm;
    assert Active(s, pin)(e);
    assert a <= row;
    var f := b.table[a];
    if !(f.timer == e.timer && f.channel == e.channel) {
      assert e.channel in Stopped(b, s, pin).mask[e.timer];
      assert e.channel !in Unmarked(s, e.timer, e.channel).mask[e.timer];
    }
  }

  /** Whether the pin was ever written does not matter: its stop changes something exactly
      if the channel of its first row on a PWM timer is marked, by whichever pin. */
  lemma StopChangesExactly(b: Board, s: State, pin: nat)
    requires Inv(s) && Wellformed(b.table)
    ensures var a := ActiveRow(b, s, pin);
      Stopped(b, s, pin) != s <==>
      OnTimer(b, pin) && a < |b.table| && b.table[a].channel in s.mask[b.table[a].timer]
  {
    var a := ActiveRow(b, s, pin);
    if OnTimer(b, pin) && a < |b.table| {
      var f := b.table[a];
      if f.channel in s.mask[f.timer] {
        assert f.channel !in Stopped(b, s, pin).mask[f.timer];
      } else {
        assert s.mask[f.timer] - {f.channel} == s.mask[f.timer];
        assert s.mask[f.timer := s.mask[f.timer]] == s.mask;
      }
    }
  }

  // ---- Whose channel it is ------------------------------------------------------------------------

  /** A pin that analogWrite has put on a channel that is still marked. */
  datatype Use = Use(pin: nat, timer: nat, channel: nat)

  predicate Of(u: Use, e: Entry) {
    u.timer == e.timer && u.channel == e.channel
  }

  /** A write adds its pin; a stop ends the use of a channel for every pin that is on it. */
  function NextUses(b: Board, s: State, uses: set<Use>, c: Call): set<Use>
    requires Shape(s) && Wellformed(b.table)
  {
    match c
    case AnalogWrite(pin) =>
      var i := PwmRow(b, s, pin);
      if OnTimer(b, pin) && i < |b.table| then uses + {Use(pin, b.table[i].timer, b.table[i].channel)} else uses
    case AnalogWriteStop(pin) =>
      var i := ActiveRow(b, s, pin);
      if OnTimer(b, pin) && i < |b.table| then set u | u in uses && !Of(u, b.table[i]) else uses
    case _ => uses
  }

  /** The pins in use after a sequence of calls. */
  function Uses(b: Board, calls: seq<Call>): set<Use>
    requires Wellformed(b.table)
  {
    if calls == [] then {}
    else
      var before := calls[..|calls| - 1];
      NextUses(b, Run(b, Reset(), before), Uses(b, before), calls[|calls| - 1])
  }

  /** The marked channels are those in use. */
  ghost predicate Marks(s: State, uses: set<Use>)
    requires Shape(s)
  {
    && (forall u :: u in uses ==> 1 <= u.timer <= COUNT && u.channel in s.mask[u.timer])
    && (forall t, c :: 1 <= t <= COUNT && c in s.mask[t] ==> exists p :: Use(p, t, c) in uses)
  }

  lemma {:induction false} MasksAreUses(b: Board, calls: seq<Call>)
    requires Wellformed(b.table) && forall i :: 0 <= i < |calls| ==> Allowed(calls[i])
    ensures Marks(Run(b, Reset(), calls), Uses(b, calls))
  {
    if calls != [] {
      var before := calls[..|calls| - 1];
      MasksAreUses(b, before);
      CallMarks(b, Run(b, Reset(), before), Uses(b, before), calls[|calls| - 1]);
    }
  }

  lemma WriteMarks(s: State, uses: set<Use>, e: Entry, pin: nat)
    requires Shape(s) && Marks(s, uses) && 1 <= e.timer <= COUNT
    ensures Marks(s.(owner := s.owner[e.timer := Pwm], mask := s.mask[e.timer := s.mask[e.timer] + {e.channel}]),
                  uses + {Use(pin, e.timer, e.channel)})
  {
    var mask, now := s.mask[e.timer := s.mask[e.timer] + {e.channel}], uses + {Use(pin, e.timer, e.channel)};
    assert Use(pin, e.timer, e.channel) in now;
    forall t, c | 1 <= t <= COUNT && c in mask[t] ensures exists p :: Use(p, t, c) in now {
      if c in s.mask[t] {
        var p :| Use(p, t, c) in uses;
        assert Use(p, t, c) in now;
      }
    }
  }

  lemma StopUnmarks(s: State, uses: set<Use>, e: Entry)
    requires Shape(s) && Marks(s, uses) && 1 <= e.timer <= COUNT
    ensures Marks(Unmarked(s, e.timer, e.channel), set u | u in uses && !Of(u, e))
  {
    var t, now := Unmarked(s, e.timer, e.channel), set u | u in uses && !Of(u, e);
    forall k, c | 1 <= k <= COUNT && c in t.mask[k] ensures exists p :: Use(p, k, c) in now {
      var p :| Use(p, k, c) in uses;
      assert Use(p, k, c) in now;
    }
  }

  lemma CallMarks(b: Board, s: State, uses: set<Use>, c: Call)
    requires Shape(s) && Wellformed(b.table) && Marks(s, uses)
    ensures Marks(Apply(b, s, c), NextUses(b, s, uses, c))
  {
    match c
    case AnalogWrite(pin) =>
      var i := PwmRow(b, s, pin);
      if OnTimer(b, pin) && i < |b.table| {
        WriteMarks(s, uses, b.table[i], pin);
      }
    case AnalogWriteStop(pin) =>
      var i := ActiveRow(b, s, pin);
      if OnTimer(b, pin) && i < |b.table| {
        StopUnmarks(s, uses, b.table[i]);
      }
    case _ =>
      assert Apply(b, s, c).mask == s.mask;
  }

  /** The row whose channel a stop unmarks is used by no pin but the one that is stopped. */
  ghost predicate Own(b: Board, s: State, uses: set<Use>, pin: nat) {
    var a := ActiveRow(b, s, pin);
    OnTimer(b, pin) && a < |b.table| ==> forall u :: u in uses && Of(u, b.table[a]) ==> u.pin == pin
  }

  /** After any sequence of calls: a stop leaves the channel of every other pin in use
      marked if and only if no other pin uses the channel of the row it finds. */
  lemma StopSparesOthersExactly(b: Board, calls: seq<Call>, pin: nat)
    requires Wellformed(b.table) && forall i :: 0 <= i < |calls| ==> Allowed(calls[i])
    ensures var s, uses := Run(b, Reset(), calls), Uses(b, calls);
      (forall u :: u in uses && u.pin != pin ==>
        1 <= u.timer <= COUNT && u.channel in Stopped(b, s, pin).mask[u.timer])
      <==> Own(b, s, uses, pin)
  {
    MasksAreUses(b, calls);
    var s, uses := Run(b, Reset(), calls), Uses(b, calls);
    var a, t := ActiveRow(b, s, pin), Stopped(b, s, pin);
    if !Own(b, s, uses, pin) {
      var u :| u in uses && Of(u, b.table[a]) && u.pin != pin;
      assert u.channel !in t.mask[u.timer];
    }
  }

  /** PA0 and PA15 of the CH32H417QEU6, by their numbers. */
  const QEU6 := Board([Entry(0, 2, 1, false), Entry(0, 5, 1, false), Entry(0, 9, 1, false), Entry(15, 2, 1, false)],
                      16, {4, 5})

  /** A pin that was never written is stopped: the other pin on TIM2 goes silent. */
  lemma StopOfUnwrittenPin()
    ensures Wellformed(QEU6.table)
    ensures Use(15, 2, 1) in Uses(QEU6, [AnalogWrite(15)])
    ensures var t := Run(QEU6, Reset(), [AnalogWrite(15), AnalogWriteStop(0)]);
      t.mask[2] == {} && t.owner[2] == Free
  {
    var none, calls := Reset(), [AnalogWrite(15)];
    assert calls[..0] == [] && [AnalogWrite(15), AnalogWriteStop(0)][..1] == calls;
    assert PwmRow(QEU6, none, 15) == 3;
    var s := Written(QEU6, none, 15);
    assert Run(QEU6, none, calls) == s && s.owner[2] == Pwm && s.mask[2] == {1};
    assert ActiveRow(QEU6, s, 0) == 0;
  }

  /** Servo holds TIM2 while PA0 is written, and lets it go before PA15 is. */
  function SecondChoice(): (s: State)
    ensures Shape(s)
  {
    Released(Written(QEU6, Claimed(Reset(), 2, Servo), 0), 2, Servo)
  }

  lemma SecondChoiceIsTim5()
    ensures SecondChoice().owner == Reset().owner[5 := Pwm] && SecondChoice().mask == Reset().mask[5 := {1}]
  {
    assert PwmRow(QEU6, Claimed(Reset(), 2, Servo), 0) == 1;
    assert Reset().mask[5] + {1} == {1};
  }

  lemma RunOfThree(b: Board, s: State, c1: Call, c2: Call, c3: Call)
    requires Shape(s) && Wellformed(b.table)
    ensures Run(b, s, [c1, c2, c3]) == Apply(b, Apply(b, Apply(b, s, c1), c2), c3)
  {
    assert [c1, c2, c3][..2] == [c1, c2] && [c1, c2][..1] == [c1] && [c1][..0] == [];
    assert Run(b, s, [c1]) == Apply(b, Run(b, s, []), c1);
    assert Run(b, s, [c1, c2]) == Apply(b, Run(b, s, [c1]), c2);
  }

  lemma SecondChoiceIsARun(calls: seq<Call>)
    requires calls == [Claim(2, Servo), AnalogWrite(0), Release(2, Servo)]
    ensures Run(QEU6, Reset(), calls) == SecondChoice()
  {
    RunOfThree(QEU6, Reset(), Claim(2, Servo), AnalogWrite(0), Release(2, Servo));
    ThreeCalls(QEU6, Reset());
  }

  lemma ThreeCalls(b: Board, s: State)
    requires Shape(s) && Wellformed(b.table)
    ensures Apply(b, Apply(b, Apply(b, s, Claim(2, Servo)), AnalogWrite(0)), Release(2, Servo))
         == Released(Written(b, Claimed(s, 2, Servo), 0), 2, Servo)
  {
  }

  lemma FirstChoiceForAnother(s: State)
    requires s.owner == Reset().owner[5 := Pwm] && s.mask == Reset().mask[5 := {1}]
    ensures var w := Written(QEU6, s, 15);
      && w.mask[2] == {1} && w.mask[5] == {1}
      && var t := Stopped(QEU6, w, 0);
         t.owner[2] == Free && t.mask[2] == {} && t.owner[5] == Pwm && t.mask[5] == {1}
  {
    assert PwmRow(QEU6, s, 15) == 3;
    var w := Written(QEU6, s, 15);
    assert w.owner[2] == Pwm && w.mask[2] == {1} && w.owner[5] == Pwm && w.mask[5] == {1};
    assert ActiveRow(QEU6, w, 0) == 0;
  }

  /** A pin that went to its second choice is stopped when the first has become PWM's for
      another pin: that one goes silent, and the pin's own timer stays taken. */
  lemma StopOfSecondChoice(calls: seq<Call>)
    requires calls == [Claim(2, Servo), AnalogWrite(0), Release(2, Servo)]
    ensures var s := Apply(QEU6, Run(QEU6, Reset(), calls), AnalogWrite(15));
      && s.mask[2] == {1} && s.mask[5] == {1}
      && var t := Stopped(QEU6, s, 0);
         t.owner[2] == Free && t.mask[2] == {} && t.owner[5] == Pwm && t.mask[5] == {1}
  {
    SecondChoiceIsARun(calls);
    SecondChoiceIsTim5();
    FirstChoiceForAnother(SecondChoice());
  }

  // ---- How a tone ends -----------------------------------------------------------------------

  /** Calls that are not about the tone of this pin. */
  predicate LeavesTone(c: Call, pin: nat) {
    Allowed(c) && !c.StartTone? && c != StopTone(pin)
  }

  /** How often the timer has been updated. */
  function Updates(calls: seq<Call>, timer: nat): nat {
    if calls == [] then 0
    else Updates(calls[..|calls| - 1], timer) + if calls[|calls| - 1] == Update(timer) then 1 else 0
  }

  /** The tone after so many updates of its timer. */
  function CountedDown(tone: Playing, updates: nat): Playing
    requires tone.Playing?
  {
    if !Counting(tone) then tone
    else if updates < tone.remaining then tone.(remaining := tone.remaining - updates)
    else Silent
  }

  /** Whatever else the program does: a tone that is counted plays for exactly its number of
      periods, and any other does not end. It holds its timer as long as it plays, and no
      longer. */
  lemma {:induction false} ToneIsCountedOut(b: Board, s: State, calls: seq<Call>)
    requires Inv(s) && Wellformed(b.table) && s.tone.Playing?
    requires forall i :: 0 <= i < |calls| ==> LeavesTone(calls[i], s.tone.pin)
    ensures var t := Run(b, s, calls);
      && Inv(t) && t.tone == CountedDown(s.tone, Updates(calls, s.tone.timer))
      && (t.owner[s.tone.timer] == Tone <==> t.tone.Playing?)
  {
    if calls != [] {
      var before, c := calls[..|calls| - 1], calls[|calls| - 1];
      ToneIsCountedOut(b, s, before);
      CallKeeps(b, Run(b, s, before), c);
      assert LeavesTone(c, s.tone.pin);
    }
  }

  /** A tone ends by itself if and only if it has a limit and its timer is TIM2 to TIM5, whose
      update interrupts are routed. */
  lemma EndsItselfExactly(b: Board, s: State)
    requires Inv(s) && Wellformed(b.table) && s.tone.Playing?
    ensures (exists calls :: EndsBy(b, s, calls)) <==> s.tone.remaining > 0 && 2 <= s.tone.timer <= 5
  {
    if Counting(s.tone) {
      var calls := Repeated(s.tone.timer, s.tone.remaining);
      ToneIsCountedOut(b, s, calls);
      assert EndsBy(b, s, calls);
    } else {
      forall calls | EndsBy(b, s, calls) ensures false {
        ToneIsCountedOut(b, s, calls);
      }
    }
  }

  ghost predicate EndsBy(b: Board, s: State, calls: seq<Call>)
    requires Shape(s) && Wellformed(b.table) && s.tone.Playing?
  {
    && (forall i :: 0 <= i < |calls| ==> LeavesTone(calls[i], s.tone.pin))
    && Run(b, s, calls).tone.Silent?
  }

  function Repeated(timer: nat, n: nat): (calls: seq<Call>)
    ensures |calls| == n && Updates(calls, timer) == n
    ensures forall i :: 0 <= i < n ==> calls[i] == Update(timer)
  {
    if n == 0 then []
    else
      var before := Repeated(timer, n - 1);
      assert (before + [Update(timer)])[..n - 1] == before;
      before + [Update(timer)]
  }

  /** PA8 of the CH32H417QEU6 has one row, of TIM1. */
  const PA8_ON_TIM1 := Board([Entry(8, 1, 1, false)], 16, {4, 5})

  lemma PlaysOnTim1(s: State)
    requires s == Toned(PA8_ON_TIM1, Reset(), 8, 440, 100)
    ensures s.tone == Playing(8, 1, 44)
  {
    assert First(PA8_ON_TIM1.table, 0, Usable(Reset(), 8, Free)) == 0;
  }

  /** A tenth of a second of 440 Hz on it is forty-four periods that nobody counts: whatever
      the program does but stop it, the tone goes on and holds TIM1. */
  lemma TenthOfASecondGoesOn(s: State, calls: seq<Call>)
    requires s == Toned(PA8_ON_TIM1, Reset(), 8, 440, 100)
    requires forall i :: 0 <= i < |calls| ==> LeavesTone(calls[i], 8)
    ensures var t := Run(PA8_ON_TIM1, s, calls); t.tone == Playing(8, 1, 44) && t.owner[1] == Tone
  {
    PlaysOnTim1(s);
    TonedKeeps(PA8_ON_TIM1, Reset(), 8, 440, 100);
    ToneIsCountedOut(PA8_ON_TIM1, s, calls);
  }

  // ---- The code ----------------------------------------------------------------------------------

  class Core {
    const board: Board
    var owner: array<Owner>
    var mask: array<set<nat>>
    var active: bool
    var pin: nat
    var timer: nat
    var remaining: nat
    /** Whether `tone_tick` is attached to the timer. */
    var attached: bool

    ghost predicate Shaped()
      reads this
    {
      && Wellformed(board.table) && owner.Length == COUNT + 1 && mask.Length == COUNT + 1
      && (attached ==> active)
    }

    ghost predicate Valid()
      reads this
    {
      Shaped() && (attached <==> active && remaining > 0 && Routed(timer))
    }

    ghost function Now(): (s: State)
      reads this, owner, mask
      requires Shaped()
      ensures Shape(s)
    {
      State(owner[..], mask[..], if active then Playing(pin, timer, remaining) else Silent)
    }

    constructor (b: Board)
      requires Wellformed(b.table)
      ensures Valid() && Now() == Reset() && board == b && fresh(owner) && fresh(mask)
    {
      board := b;
      owner := new Owner[COUNT + 1](_ => Free);
      mask := new set<nat>[COUNT + 1](_ => {});
      active, pin, timer, remaining, attached := false, 0, 0, 0, false;
    }

    /** `ch32h4_timer_claim`. */
    method Claim(id: nat, o: Owner) returns (ok: bool)
      requires Shaped()
      modifies owner
      ensures Shaped() && Now() == Claimed(old(Now()), id, o) && (ok <==> MayClaim(old(Now()), id, o))
    {
      if !(1 <= id <= COUNT) || o == Free {
        return false;
      }
      if owner[id] == Free || owner[id] == o {
        owner[id] := o;
        return true;
      }
      return false;
    }

    /** `ch32h4_timer_release`. */
    method Release(id: nat, o: Owner)
      requires Shaped()
      modifies owner
      ensures Shaped() && Now() == Released(old(Now()), id, o)
    {
      if 1 <= id <= COUNT && owner[id] == o {
        owner[id] := Free;
      }
    }

    /** `ch32h4_timer_owner`. */
    method OwnerOf(id: nat) returns (o: Owner)
      requires Shaped()
      ensures o == if 1 <= id <= COUNT then Now().owner[id] else Free
    {
      o := if 1 <= id <= COUNT then owner[id] else Free;
    }

    /** `ch32h4_pwm_find`, in one pass: the index of the row, or the length of the table. */
    method PwmFind(p: nat) returns (row: nat)
      requires Valid()
      ensures row == PwmRow(board, Now(), p)
    {
      ghost var s := Now();
      var firstFree := |board.table|;
      var i := 0;
      while i < |board.table|
        invariant i <= |board.table|
        invariant First(board.table, 0, Usable(s, p, Pwm)) >= i
        invariant First(board.table, 0, Usable(s, p, Free)) >= i ==> firstFree == |board.table|
        invariant First(board.table, 0, Usable(s, p, Free)) < i ==>
          firstFree == First(board.table, 0, Usable(s, p, Free))
      {
        var e := board.table[i];
        if e.pin == p && !e.negated {
          var o := OwnerOf(e.timer);
          if o == Pwm {
            assert Usable(s, p, Pwm)(e);
            return i;
          }
          if o == Free && firstFree == |board.table| {
            assert Usable(s, p, Free)(e);
            firstFree := i;
          }
        }
        i := i + 1;
      }
      return firstFree;
    }

    /** `ch32h4_pwm_find_active`. */
    method PwmFindActive(p: nat) returns (row: nat)
      requires Valid()
      ensures row == ActiveRow(board, Now(), p)
    {
      ghost var s := Now();
      for i := 0 to |board.table|
        invariant First(board.table, 0, Active(s, p)) >= i
      {
        var e := board.table[i];
        if e.pin == p {
          var o := OwnerOf(e.timer);
          if o == Pwm {
            assert Active(s, p)(e);
            return i;
          }
        }
      }
      return |board.table|;
    }

    method AnalogWrite(p: nat)
      requires Valid()
      modifies owner, mask
      ensures Valid() && Now() == Written(board, old(Now()), p)
    {
      if p >= board.pins || p in board.dac {
        return;
      }
      var row := PwmFind(p);
      if row == |board.table| {
        return;
      }
      var e := board.table[row];
      var ok := Claim(e.timer, Pwm);
      if !ok {
        return;
      }
      mask[e.timer] := mask[e.timer] + {e.channel};
    }

    method AnalogWriteStop(p: nat)
      requires Valid()
      modifies owner, mask
      ensures Valid() && Now() == Stopped(board, old(Now()), p)
    {
      if p >= board.pins || p in board.dac {
        return;
      }
      var row := PwmFindActive(p);
      if row == |board.table| {
        return;
      }
      var e := board.table[row];
      var o := OwnerOf(e.timer);
      if o != Pwm {
        return;
      }
      mask[e.timer] := mask[e.timer] - {e.channel};
      if mask[e.timer] == {} {
        Release(e.timer, Pwm);
      }
    }

    method ToneStop()
      requires Shaped()
      modifies this`active, this`timer, this`attached, owner
      ensures Valid() && Now() == Silenced(old(Now()))
    {
      if !active {
        return;
      }
      attached := false;
      Release(timer, Tone);
      active, timer := false, 0;
    }

    method NoToneOn(p: nat)
      requires Valid()
      modifies this`active, this`timer, this`attached, owner
      ensures Valid() && Now() == NoTone(old(Now()), p)
    {
      if active && pin == p {
        ToneStop();
      }
    }

    /** The search of `tone`: the timer of the first row that is free, or 0. */
    method FindFree(p: nat) returns (t: nat)
      requires Valid()
      ensures var i := First(board.table, 0, Usable(Now(), p, Free));
        t == if i < |board.table| then board.table[i].timer else 0
    {
      ghost var s := Now();
      t := 0;
      for i := 0 to |board.table|
        invariant First(board.table, 0, Usable(s, p, Free)) >= i
        invariant t == 0
      {
        var e := board.table[i];
        if e.pin == p && !e.negated {
          var o := OwnerOf(e.timer);
          if o == Free {
            assert Usable(s, p, Free)(e);
            return e.timer;
          }
        }
      }
    }

    method StartTone(p: nat, frequency: nat, duration: nat)
      requires Valid()
      modifies this`active, this`pin, this`timer, this`remaining, this`attached, owner
      ensures Valid() && Now() == Toned(board, old(Now()), p, frequency, duration)
    {
      if p >= board.pins || frequency == 0 {
        NoToneOn(p);
        return;
      }
      if active {
        ToneStop();
      }
      var t := FindFree(p);
      if t == 0 {
        return;
      }
      var ok := Claim(t, Tone);
      if !ok {
        return;
      }
      pin, timer, remaining, active := p, t, duration, true;
      CountOut(t, frequency, duration);
    }

    /** The end of `tone`: a limit is counted out on the timer's interrupt, if it has one. */
    method CountOut(t: nat, frequency: nat, duration: nat)
      requires remaining == duration && !attached
      modifies this`remaining, this`attached
      ensures remaining == Periods(frequency, duration) && (attached <==> remaining > 0 && Routed(t))
    {
      if duration > 0 {
        attached := Irqn(t) >= 0;
        remaining := duration * frequency % TWO_32 / 1000;
        if remaining == 0 {
          remaining := 1;
        }
      }
    }

    method ToneTick(t: nat)
      requires Valid()
      modifies this`active, this`timer, this`remaining, this`attached, owner
      ensures Valid() && Now() == Ticked(old(Now()), t)
    {
      if !active || timer != t || remaining == 0 {
        return;
      }
      remaining := remaining - 1;
      if remaining == 0 {
        ToneStop();
      }
    }

    /** An update event of a timer: there is a vector for those whose interrupt is routed,
        and it calls what is attached. */
    method TimerDispatch(t: nat)
      requires Valid()
      modifies this`active, this`timer, this`remaining, this`attached, owner
      ensures Valid() && Now() == Updated(old(Now()), t)
    {
      if Irqn(t) >= 0 && attached && timer == t {
        ToneTick(t);
      }
    }
  }
}
