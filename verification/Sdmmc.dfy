/** The block path of ch32h4_sdmmc.c: transfers in chunks of eight blocks through two
    bounce buffers used in turn, on a data engine that does not go back to the start of
    a buffer when it is given the address it already holds.

    What the card and the engine answer is a parameter, `answers`: any wait, command or
    data phase may fail, with any error, until the answers run out. */
module Sdmmc {
  import opened SdArithmetic

  /** The bytes of one block. */
  type Block = seq<nat>

  const BOUNCE: nat := 8

  const ETIMEDOUT := -1
  const EIO := -2
  const ENODEV := -3
  const ERANGE := -4

  /** `data` in place of what was at `at`. */
  function Spliced(card: seq<Block>, at: nat, data: seq<Block>): (s: seq<Block>)
    requires at + |data| <= |card|
    ensures |s| == |card|
  {
    card[..at] + data + card[at + |data|..]
  }

  lemma SplicedNothing(card: seq<Block>, at: nat)
    requires at <= |card|
    ensures Spliced(card, at, []) == card
  {
  }

  /** Writing one block more. */
  lemma SplicedSnoc(card: seq<Block>, at: nat, data: seq<Block>, b: Block)
    requires at + |data| < |card|
    ensures Spliced(card, at, data)[at + |data| := b] == Spliced(card, at, data + [b])
  {
  }

  lemma OneSpliced(card: seq<Block>, at: nat, b: Block)
    requires at < |card|
    ensures Spliced(card, at, [b]) == card[at := b]
  {
  }

  /** Writing one chunk more. */
  lemma SplicedAppend(card: seq<Block>, at: nat, data: seq<Block>, more: seq<Block>)
    requires at + |data| + |more| <= |card|
    ensures Spliced(Spliced(card, at, data), at + |data|, more) == Spliced(card, at, data + more)
  {
  }

  /** `was` and `now` differ at most in the `n` blocks from `at` on. */
  ghost predicate Apart(was: seq<Block>, now: seq<Block>, at: nat, n: nat)
    requires |was| == |now|
  {
    forall k :: 0 <= k < |was| && !(at <= k < at + n) ==> now[k] == was[k]
  }

  lemma SplicedApart(was: seq<Block>, card: seq<Block>, block: nat, done: nat, data: seq<Block>)
    requires |was| == |card| && Apart(was, card, block, done) && block + done + |data| <= |card|
    ensures Apart(was, Spliced(card, block + done, data), block, done + |data|)
  {
  }

  /** The two sides of a transfer: the card, and the caller's buffer. */
  datatype Sides = Sides(card: seq<Block>, buf: seq<Block>)

  /** What `done` blocks of a transfer do, when the buffers take turns: a write has put that
      prefix of the caller's data on the card, a read has filled that prefix of the
      caller's buffer, and nothing else has changed. */
  ghost predicate Moved(was: Sides, now: Sides, block: nat, done: nat, write: bool) {
    if done == 0 then now == was
    else
      && done <= |was.buf| == |now.buf| && block + done <= |was.card| == |now.card|
      && if write then now.buf == was.buf && now.card == Spliced(was.card, block, was.buf[..done])
         else now.card == was.card && now.buf[..done] == was.card[block..block + done]
              && now.buf[done..] == was.buf[done..]
  }

  /** Whatever the engine does, a transfer of `done` blocks keeps to its own side, and there
      to those blocks. */
  ghost predicate Confined(was: Sides, now: Sides, block: nat, done: nat, write: bool) {
    && done <= |was.buf| == |now.buf| && |was.card| == |now.card|
    && if write then now.buf == was.buf && Apart(was.card, now.card, block, done)
       else now.card == was.card && now.buf[done..] == was.buf[done..]
  }

  lemma WriteStaysConfined(was: Sides, now: Sides, block: nat, done: nat, data: seq<Block>)
    requires |was.card| == |now.card| && block + done + |data| <= |now.card| && done + |data| <= |now.buf|
    requires Confined(was, now, block, done, true)
    ensures Confined(was, now.(card := Spliced(now.card, block + done, data)), block, done + |data|, true)
  {
    SplicedApart(was.card, now.card, block, done, data);
  }

  lemma WritesOn(was: Sides, now: Sides, block: nat, done: nat, data: seq<Block>)
    requires |was.card| == |now.card| && block + done + |data| <= |now.card| && done + |data| <= |now.buf|
    requires Moved(was, now, block, done, true) && data == now.buf[done..done + |data|]
    ensures Moved(was, now.(card := Spliced(now.card, block + done, data)), block, done + |data|, true)
  {
    var front := was.buf[..done];
    SplicedNothing(was.card, block);
    assert now.card == Spliced(was.card, block, front);
    SplicedAppend(was.card, block, front, data);
    assert front + data == was.buf[..done + |data|];
    SplicedNothing(now.card, block + done);
  }

  lemma SlicePrefix(s: seq<Block>, from: nat, n: nat, k: nat)
    requires from + n <= |s| && k <= n
    ensures s[from..from + n][..k] == s[from..from + k]
  {
  }

  lemma SendsOn(was: Sides, now: Sides, next: Sides, block: nat, done: nat, n: nat, data: seq<Block>, turns: bool)
    requires |was.card| == |now.card| && |data| <= n && block + done + n <= |now.card| && done + n <= |now.buf|
    requires next == now.(card := Spliced(now.card, block + done, data)) && Confined(was, now, block, done, true)
    requires turns ==> data == now.buf[done..done + n][..|data|]
    ensures Confined(was, next, block, done + |data|, true)
    ensures turns && Moved(was, now, block, done, true) ==> Moved(was, next, block, done + |data|, true)
  {
    WriteStaysConfined(was, now, block, done, data);
    if turns && Moved(was, now, block, done, true) {
      SlicePrefix(now.buf, done, n, |data|);
      WritesOn(was, now, block, done, data);
    }
  }

  lemma ReadsOn(was: Sides, now: Sides, next: Sides, block: nat, done: nat, n: nat)
    requires next.card == now.card && |next.buf| == |now.buf| && n > 0
    requires done + n <= |now.buf| && block + done + n <= |now.card|
    requires next.buf[..done] == now.buf[..done] && next.buf[done + n..] == now.buf[done + n..]
    ensures Confined(was, now, block, done, false) ==> Confined(was, next, block, done + n, false)
    ensures Moved(was, now, block, done, false) && next.buf[done..done + n] == now.card[block + done..block + done + n]
        ==> Moved(was, next, block, done + n, false)
  {
    if Confined(was, now, block, done, false) {
      Rests(was.buf, now.buf, next.buf, done, n);
    }
    if Moved(was, now, block, done, false) && next.buf[done..done + n] == now.card[block + done..block + done + n] {
      Rests(was.buf, now.buf, next.buf, done, n);
      assert next.buf[..done + n] == next.buf[..done] + next.buf[done..done + n];
    }
  }

  lemma Rests(was: seq<Block>, now: seq<Block>, next: seq<Block>, done: nat, n: nat)
    requires |was| == |now| == |next| && done + n <= |now|
    requires now[done..] == was[done..] && next[done + n..] == now[done + n..]
    ensures next[done + n..] == was[done + n..]
  {
    assert now[done + n..] == now[done..][n..];
    assert was[done + n..] == was[done..][n..];
  }

  // ---- The data engine -----------------------------------------------------------------

  /** The address register, as the number of the bounce buffer it holds; and how many whole
      blocks past it the engine's pointer stands, and how many bytes beyond those. */
  datatype Engine = Engine(beg: nat, pos: nat, skew: nat)

  /** The write to DMA_BEG1 that starts a transfer. */
  function Armed(e: Engine, half: nat): Engine {
    if e.beg == half then e else Engine(half, 0, 0)
  }

  const STATUS_SIZE: nat := 64
  const BLOCK_SIZE: nat := 512

  /** The status of CMD6 moves the pointer by its 64 bytes. */
  function Moved64(e: Engine): Engine {
    if e.skew + STATUS_SIZE < BLOCK_SIZE then e.(skew := e.skew + STATUS_SIZE)
    else Engine(e.beg, e.pos + 1, e.skew + STATUS_SIZE - BLOCK_SIZE)
  }

  lemma MovedBytes(e: Engine)
    requires e.skew < 512
    ensures var t := Moved64(e);
      t.beg == e.beg && t.skew < 512 && 512 * t.pos + t.skew == 512 * e.pos + e.skew + 64
  {
  }

  /** Where in the two buffers, laid end to end, the next block comes from or goes to. */
  function Pointer(e: Engine): nat {
    BOUNCE * e.beg + e.pos
  }

  /** Once armed, the engine stands at the head of the buffer. */
  predicate FromTheHead(e: Engine, half: nat) {
    Pointer(Armed(e, half)) == BOUNCE * half && Armed(e, half).skew == 0
  }

  /** So it does exactly when the address is a new one, or nothing has moved since it was
      given. */
  lemma ArmingRewinds(e: Engine, half: nat)
    ensures FromTheHead(e, half) <==> e.beg != half || (e.pos == 0 && e.skew == 0)
    ensures FromTheHead(e, half) <==> Armed(e, half) == Engine(half, 0, 0)
  {
  }

  datatype Status = Status(card: seq<Block>, dma: seq<Block>, engine: Engine, half: nat)

  /** The `n` blocks of the card are those the engine found from where it stood, as far as
      it stood between blocks and stayed in the buffers. */
  ghost predicate TookFrom(e: Engine, dma: seq<Block>, card: seq<Block>, block: nat, n: nat)
    requires block + n <= |card|
  {
    var p := Pointer(e);
    e.skew == 0 ==> forall i :: p <= i < p + n && i < |dma| ==> dma[i] == card[block + (i - p)]
  }

  /** A chunk was copied to the head of the buffer whose turn it was; and if the write
      succeeded, the card holds what lay where the engine, once armed, stood. */
  ghost predicate Sent(was: Status, now: Status, block: nat, chunk: seq<Block>, ret: int) {
    && was.half < 2 && |was.dma| == 2 * BOUNCE && |chunk| <= BOUNCE && now.half == 1 - was.half
    && now.dma == Spliced(was.dma, BOUNCE * was.half, chunk)
    && (ret == 0 ==>
          var e := Armed(was.engine, was.half);
          && block + |chunk| <= |was.card| == |now.card| && Apart(was.card, now.card, block, |chunk|)
          && now.engine == e.(pos := e.pos + |chunk|)
          && TookFrom(e, now.dma, now.card, block, |chunk|))
  }

  lemma SentFromTheHead(was: Status, now: Status, block: nat, chunk: seq<Block>)
    requires Sent(was, now, block, chunk, 0) && FromTheHead(was.engine, was.half)
    ensures block + |chunk| <= |was.card| && now.card == Spliced(was.card, block, chunk)
  {
    var p := BOUNCE * was.half;
    forall k | 0 <= k < |chunk| ensures now.card[block + k] == chunk[k] {
      assert now.dma[p + k] == chunk[k] && now.dma[p + k] == now.card[block + (p + k - p)];
    }
  }

  /** From the middle of a buffer, the first block that a successful write has put on the card
      is whatever lay there; a block beyond the chunk lay there from earlier. */
  lemma SentFromTheMiddle(was: Status, now: Status, block: nat, chunk: seq<Block>)
    requires Sent(was, now, block, chunk, 0) && |chunk| > 0
    requires was.engine.beg == was.half && was.engine.skew == 0 && 0 < was.engine.pos
    requires Pointer(was.engine) < |was.dma|
    ensures block + |chunk| <= |was.card| == |now.card|
    ensures now.card[block] ==
      if was.engine.pos < |chunk| then chunk[was.engine.pos] else was.dma[Pointer(was.engine)]
  {
    assert now.dma[Pointer(was.engine)] == now.card[block];
  }

  /** A write that succeeds puts the chunk on the card, whatever it is, exactly if arming
      goes back to the head of the buffer. */
  lemma RightExactlyFromTheHead(was: Status, block: nat, n: nat)
    requires was.half < 2 && |was.dma| == 2 * BOUNCE && 1 <= n <= BOUNCE && block + n <= |was.card|
    ensures FromTheHead(was.engine, was.half) <==>
            forall now, chunk :: |chunk| == n && Sent(was, now, block, chunk, 0) ==>
              now.card == Spliced(was.card, block, chunk)
  {
    if FromTheHead(was.engine, was.half) {
      forall now, chunk | |chunk| == n && Sent(was, now, block, chunk, 0)
        ensures now.card == Spliced(was.card, block, chunk)
      {
        SentFromTheHead(was, now, block, chunk);
      }
    } else {
      var now, chunk := WrongFromTheMiddle(was, block, n);
    }
  }

  /** A first block unlike what lies where the engine stands, followed by copies of that. */
  lemma WrongFromTheMiddle(was: Status, block: nat, n: nat) returns (now: Status, chunk: seq<Block>)
    requires was.half < 2 && |was.dma| == 2 * BOUNCE && 1 <= n <= BOUNCE && block + n <= |was.card|
    requires !FromTheHead(was.engine, was.half)
    ensures |chunk| == n && Sent(was, now, block, chunk, 0) && now.card != Spliced(was.card, block, chunk)
  {
    var e := Armed(was.engine, was.half);
    ArmingRewinds(was.engine, was.half);
    var stray: Block := if Pointer(e) < |was.dma| then was.dma[Pointer(e)] else [];
    chunk := [stray + [0]] + seq(n - 1, _ => stray);
    var dma := Spliced(was.dma, BOUNCE * was.half, chunk);
    var data := FoundBy(e, dma, n, stray);
    now := Status(Spliced(was.card, block, data), dma, e.(pos := e.pos + n), 1 - was.half);
    OnTheCard(was, now, block, chunk, 0, data);
    assert data[0] == stray;
    FirstDiffers(was.card, block, data, chunk);
  }

  /** What the engine finds from where it stands, and `other` where that is not known. */
  function FoundBy(e: Engine, dma: seq<Block>, n: nat, other: Block): (data: seq<Block>)
    ensures |data| == n && FromPointer(e, dma, data)
  {
    var p := Pointer(e);
    seq(n, k requires 0 <= k < n => if e.skew == 0 && p + k < |dma| then dma[p + k] else other)
  }

  lemma FirstDiffers(card: seq<Block>, block: nat, a: seq<Block>, b: seq<Block>)
    requires |a| == |b| > 0 && block + |a| <= |card| && a[0] != b[0]
    ensures Spliced(card, block, a) != Spliced(card, block, b)
  {
    assert Spliced(card, block, a)[block] == a[0] && Spliced(card, block, b)[block] == b[0];
  }

  /** What a read that succeeded has moved: the blocks of the card to where the engine, once
      armed, stood, as far as it stood between blocks and stayed in the buffers, and nothing
      to before that; and to the caller what is at the head of the buffer. */
  ghost predicate Received(was: Status, now: Status, block: nat, got: seq<Block>, ret: int) {
    ret == 0 ==>
      var e := Armed(was.engine, was.half);
      && was.half < 2 && |was.dma| == |now.dma| == 2 * BOUNCE && |got| <= BOUNCE
      && now.card == was.card && block + |got| <= |was.card|
      && (forall k :: 0 <= k < Pointer(e) && k < |was.dma| ==> now.dma[k] == was.dma[k])
      && TookFrom(e, now.dma, was.card, block, |got|)
      && got == now.dma[BOUNCE * was.half..BOUNCE * was.half + |got|]
  }

  lemma IsReceived(was: Status, now: Status, block: nat, got: seq<Block>)
    requires was.half < 2 && |was.dma| == |now.dma| == 2 * BOUNCE && |got| <= BOUNCE
    requires now.card == was.card && block + |got| <= |was.card|
    requires var e := Armed(was.engine, was.half);
      (forall k :: 0 <= k < Pointer(e) && k < |now.dma| ==> now.dma[k] == was.dma[k])
      && TookFrom(e, now.dma, now.card, block, |got|)
    requires got == now.dma[BOUNCE * was.half..BOUNCE * was.half + |got|]
    ensures Received(was, now, block, got, 0)
  {
  }

  lemma ReceivedFromTheHead(was: Status, now: Status, block: nat, got: seq<Block>)
    requires Received(was, now, block, got, 0) && FromTheHead(was.engine, was.half)
    ensures got == was.card[block..block + |got|]
  {
    var p := BOUNCE * was.half;
    forall k | 0 <= k < |got| ensures got[k] == was.card[block + k] {
      assert p + k < |now.dma| && now.dma[p + k] == was.card[block + k];
    }
  }

  /** From the middle, the blocks up to where the engine stood are what lay in the buffer. */
  lemma ReceivedFromTheMiddle(was: Status, now: Status, block: nat, got: seq<Block>)
    requires Received(was, now, block, got, 0) && was.engine.beg == was.half
    ensures forall k :: 0 <= k < |got| && k < was.engine.pos ==> got[k] == was.dma[BOUNCE * was.half + k]
  {
    var p := BOUNCE * was.half;
    forall k | 0 <= k < |got| && k < was.engine.pos ensures got[k] == was.dma[p + k] {
      assert got[k] == now.dma[p + k];
    }
  }

  /** One chunk more of a read. */
  lemma ReceivesOn(was: Sides, now: Sides, next: Sides, start: Status, end: Status, block: nat, done: nat, n: nat)
    requires now.card == next.card == start.card && |next.buf| == |now.buf| && n > 0
    requires done + n <= |now.buf| && block + done + n <= |now.card|
    requires next.buf[..done] == now.buf[..done] && next.buf[done + n..] == now.buf[done + n..]
    requires Received(start, end, block + done, next.buf[done..done + n], 0)
    ensures Confined(was, now, block, done, false) ==> Confined(was, next, block, done + n, false)
    ensures FromTheHead(start.engine, start.half) && Moved(was, now, block, done, false) ==>
      Moved(was, next, block, done + n, false)
  {
    if FromTheHead(start.engine, start.half) {
      ReceivedFromTheHead(start, end, block + done, next.buf[done..done + n]);
    }
    ReadsOn(was, now, next, block, done, n);
  }

  /** A read that succeeds hands over what is on the card, whatever that is, exactly if
      arming goes back to the head of the buffer. */
  lemma ReadRightExactlyFromTheHead(was: Status, block: nat, n: nat)
    requires was.half < 2 && |was.dma| == 2 * BOUNCE && 1 <= n <= BOUNCE && block + n <= |was.card|
    ensures FromTheHead(was.engine, was.half) <==>
            forall card, now, got :: |card| == |was.card| && |got| == n && Received(was.(card := card), now, block, got, 0)
              ==> got == card[block..block + n]
  {
    if FromTheHead(was.engine, was.half) {
      forall card, now, got | |card| == |was.card| && |got| == n && Received(was.(card := card), now, block, got, 0)
        ensures got == card[block..block + n]
      {
        ReceivedFromTheHead(was.(card := card), now, block, got);
      }
    } else {
      var card, now, got := StaleFromTheMiddle(was, block, n);
    }
  }

  lemma StaleFromTheMiddle(was: Status, block: nat, n: nat)
    returns (card: seq<Block>, now: Status, got: seq<Block>)
    requires was.half < 2 && |was.dma| == 2 * BOUNCE && 1 <= n <= BOUNCE && block + n <= |was.card|
    requires !FromTheHead(was.engine, was.half)
    ensures |card| == |was.card| && |got| == n && Received(was.(card := card), now, block, got, 0)
    ensures got != card[block..block + n]
  {
    var e, head := Armed(was.engine, was.half), BOUNCE * was.half;
    var p := Pointer(e);
    ArmingRewinds(was.engine, was.half);
    card := was.card[block := was.dma[head] + [0]];
    var dma: seq<Block> := seq(|was.dma|, k requires 0 <= k < |was.dma| =>
      if e.skew == 0 && p <= k < p + n then card[block + (k - p)] else was.dma[k]);
    got := dma[head..head + n];
    now := Status(card, dma, e, 1 - was.half);
    assert got[0] == was.dma[head] && card[block..block + n][0] == card[block];
  }

  /** `data` has been put on the card from where the engine stood. */
  lemma OnTheCard(was: Status, now: Status, block: nat, chunk: seq<Block>, ret: int, data: seq<Block>)
    requires was.half < 2 && |was.dma| == 2 * BOUNCE && |chunk| <= BOUNCE && now.half == 1 - was.half
    requires now.dma == Spliced(was.dma, BOUNCE * was.half, chunk)
    requires block + |data| <= |was.card| && now.card == Spliced(was.card, block, data)
    requires var e := Armed(was.engine, was.half);
      && FromPointer(e, now.dma, data)
      && (ret == 0 ==> |data| == |chunk| && now.engine == e.(pos := e.pos + |data|))
    ensures Sent(was, now, block, chunk, ret)
  {
    forall k | 0 <= k < |data| ensures now.card[block + k] == data[k] {
    }
  }

  /** As long as the pointer stays in the buffers, `data` is what lies from where it starts. */
  ghost predicate FromPointer(e: Engine, dma: seq<Block>, data: seq<Block>) {
    var p := Pointer(e);
    e.skew == 0 ==> forall i :: p <= i < p + |data| && i < |dma| ==> dma[i] == data[i - p]
  }

  lemma HeadOfBuffer(e: Engine, h: nat, dma: seq<Block>, chunk: seq<Block>, data: seq<Block>)
    requires Pointer(e) == BOUNCE * h && e.skew == 0 && FromPointer(e, dma, data)
    requires |data| <= |chunk| && BOUNCE * h + |chunk| <= |dma| && chunk == dma[BOUNCE * h..BOUNCE * h + |chunk|]
    ensures data == chunk[..|data|]
  {
    var p := BOUNCE * h;
    forall k | 0 <= k < |data| ensures data[k] == chunk[k] {
      assert dma[p + k] == data[p + k - p];
    }
  }

  /** The next answer is an error. */
  predicate Refused(answers: seq<int>) {
    answers != [] && answers[0] != 0
  }

  /** A write of one chunk, and how it fails if the first wait does: the turn is lost. */
  ghost predicate WroteChunk(was: Status, now: Status, block: nat, chunk: seq<Block>, ret: int, lost: bool,
                             idle: seq<int>, rest: seq<int>) {
    && Sent(was, now, block, chunk, ret)
    && (Refused(idle) ==> lost && ret == idle[0] && rest == idle[1..] && now.engine == was.engine && now.card == was.card)
  }

  // ---- What the driver is told -----------------------------------------------------------

  /** What it asks for: that the card is not busy, a command, the block counter, a data flag,
      CMD12, and that the card has programmed what it was sent. */
  datatype Wait = NotBusy | Command | Counter | DataFlag | Stop | Ready

  datatype Result = Result(what: Wait, ret: int)

  /** The first error among such results, or zero. */
  function FirstError(results: seq<Result>): int {
    if results == [] then 0 else if results[0].ret != 0 then results[0].ret else FirstError(results[1..])
  }

  /** Since `was` the driver has been told more, and `ret` is the first error in that. */
  ghost predicate Told(was: seq<Result>, now: seq<Result>, ret: int) {
    |was| <= |now| && now[..|was|] == was && ret == FirstError(now[|was|..])
  }

  /** It has asked first whether the card is busy, and, to say that a write has gone well, last
      whether the card has programmed it. */
  ghost predicate Asked(was: seq<Result>, now: seq<Result>, written: bool) {
    && |was| < |now| && now[|was|].what == NotBusy
    && (written ==> now[|now| - 1].what == Ready)
  }

  lemma FirstStays(a: seq<Result>, b: seq<Result>, c: seq<Result>, k: nat)
    requires k < |a| <= |b| <= |c| && b[..|a|] == a && c[..|b|] == b
    ensures c[k] == a[k]
  {
    assert b[..|a|][k] == b[k] && c[..|b|][k] == c[k];
  }

  lemma {:induction false} FirstErrorOfBoth(a: seq<Result>, b: seq<Result>)
    ensures FirstError(a + b) == if FirstError(a) != 0 then FirstError(a) else FirstError(b)
    decreases |a|
  {
    if a == [] {
      assert a + b == b;
    } else {
      FirstErrorOfBoth(a[1..], b);
      assert (a + b)[1..] == a[1..] + b;
    }
  }

  lemma {:induction false} FirstErrorIsZero(results: seq<Result>)
    ensures FirstError(results) == 0 <==> forall i :: 0 <= i < |results| ==> results[i].ret == 0
    decreases |results|
  {
    if results != [] {
      FirstErrorIsZero(results[1..]);
    }
  }

  /** After nothing but success, the first error is the first of what comes. */
  lemma ToldNext(was: seq<Result>, mid: seq<Result>, now: seq<Result>, ret: int)
    requires Told(was, mid, 0) && Told(mid, now, ret)
    ensures Told(was, now, ret)
  {
    ToldMore(was, mid, now, ret, ret);
  }

  /** What comes after an error does not matter. */
  lemma ToldMore(was: seq<Result>, mid: seq<Result>, now: seq<Result>, ret: int, next: int)
    requires |was| <= |mid| && mid[..|was|] == was && Told(mid, now, next)
    requires var e := FirstError(mid[|was|..]); ret == if e != 0 then e else next
    ensures Told(was, now, ret)
  {
    var a, b := mid[|was|..], now[|mid|..];
    FirstErrorOfBoth(a, b);
    assert now[|was|..] == a + b;
  }

  /** What is known of a transfer of one chunk that has left `buf` in the caller's hands. */
  ghost predicate DidChunk(was: Status, now: Status, block: nat, buf: seq<Block>, ret: int, lost: bool,
                           idle: seq<int>, rest: seq<int>, write: bool) {
    if write then WroteChunk(was, now, block, buf, ret, lost, idle, rest) else Received(was, now, block, buf, ret)
  }

  // ---- The controller and the card -----------------------------------------------------

  class Controller {
    /** The card. */
    var card: seq<Block>
    const cardType: CardType
    /** Multi-block commands the card has accepted, and CMD12s sent. */
    ghost var accepted: nat
    ghost var stopped: nat
    /** The results of the waits, commands and data flags to come; zero is success, and
        when none is left everything succeeds. */
    var answers: seq<int>
    /** The results the driver has been given, in order. */
    ghost var heard: seq<Result>

    /** The driver. */
    var initialised: bool
    var blockCount: nat
    var half: nat
    const dma: array<Block>

    /** The engine: its pointer, the blocks of this arming still to move, the card block
        they go to or come from, whether a write has been kicked off, and the block
        counter, which shows the previous total until the arming is picked up. */
    var engine: Engine
    var left: nat
    var at: nat
    var kicked: bool
    var shown: nat
    var stale: bool

    ghost predicate Valid()
      reads this
    {
      && dma.Length == 2 * BOUNCE && half < 2
      && blockCount == |card| < TWO_32 && (cardType == Sdsc ==> |card| <= 0x80_0000)
      && accepted == stopped
    }

    /** After `ch32h4_sd_begin`: the engine has been given no buffer yet. */
    constructor (cardType: CardType, card: seq<Block>, answers: seq<int>)
      requires |card| < TWO_32 && (cardType == Sdsc ==> |card| <= 0x80_0000)
      ensures Valid() && Alternates() && initialised && this.card == card && this.cardType == cardType
      ensures this.answers == answers && half == 0 && fresh(dma) && forall k :: 0 <= k < dma.Length ==> dma[k] == []
    {
      this.card, this.cardType := card, cardType;
      accepted, stopped := 0, 0;
      this.answers, heard := answers, [];
      initialised, blockCount, half := true, |card|, 0;
      dma := new Block[2 * BOUNCE](_ => []);
      engine, left, at, kicked, shown, stale := Engine(2, 0, 0), 0, 0, false, 0, false;
    }

    /** The buffer used next is not the one the engine was last given. */
    predicate Alternates()
      reads this
    {
      engine.beg != half
    }

    /** The engine will start at the head of the buffer whose turn it is. */
    predicate Rewinds()
      reads this
    {
      FromTheHead(engine, half)
    }

    /** `sd_wait_dat0`, `sd_wait_ready` and any command without data. */
    method Answer(what: Wait) returns (ret: int)
      modifies this`answers, this`heard
      ensures old(answers) == [] ==> ret == 0 && answers == []
      ensures old(answers) != [] ==> ret == old(answers)[0] && answers == old(answers)[1..]
      ensures heard == old(heard) + [Result(what, ret)] && Told(old(heard), heard, ret)
    {
      ret := 0;
      if answers != [] {
        ret, answers := answers[0], answers[1..];
      }
      heard := heard + [Result(what, ret)];
    }

    /** CMD17, CMD18, CMD24 or CMD25. A card refuses a range that is not on it. */
    method DataCommand(address: nat, n: nat) returns (ret: int)
      modifies this`at, this`accepted, this`answers, this`heard
      ensures old(answers) == [] ==> answers == [] && (Addressed(cardType, address) + n <= |card| ==> ret == 0)
      ensures ret == 0 ==> at == Addressed(cardType, address) && at + n <= |card|
      ensures accepted == old(accepted) + if ret == 0 && n > 1 then 1 else 0
      ensures Addressed(cardType, address) + n <= |card| ==> Told(old(heard), heard, ret)
    {
      ret := Answer(Command);
      if ret == 0 && Addressed(cardType, address) + n > |card| {
        ret := EIO;
      }
      if ret == 0 {
        at := Addressed(cardType, address);
        accepted := accepted + if n > 1 then 1 else 0;
      }
    }

    /** CMD12. */
    method StopCommand() returns (ret: int)
      modifies this`stopped, this`answers, this`heard
      ensures stopped == old(stopped) + 1 && Told(old(heard), heard, ret)
      ensures old(answers) == [] ==> ret == 0 && answers == []
    {
      stopped := stopped + 1;
      ret := Answer(Stop);
    }

    /** `sd_arm`. */
    method Arm(h: nat, n: nat)
      modifies this`engine, this`left, this`kicked, this`stale
      ensures engine == Armed(old(engine), h) && left == n && kicked && stale
    {
      engine := Armed(engine, h);
      left, kicked, stale := n, true, true;
    }

    /** `sd_blocks_done`: at some point the new arming is picked up. */
    method BlocksDone() returns (n: nat)
      modifies this`shown, this`stale
      ensures n == shown
      ensures old(stale) ==> (stale && shown == old(shown)) || (!stale && shown == 0)
      ensures !old(stale) ==> !stale && shown == old(shown)
      ensures answers == [] ==> !stale
    {
      var picksUp := *;
      if stale && (picksUp || answers == []) {
        stale, shown := false, 0;
      }
      n := shown;
    }

    /** `b` is the block at which the pointer stands, if it stands at one. */
    ghost predicate Lies(e: Engine, b: Block)
      reads dma
    {
      e.skew == 0 && Pointer(e) < dma.Length ==> b == dma[Pointer(e)]
    }

    /** A data phase that fails may have moved a part of a block. */
    method Abandon()
      modifies this`engine
      ensures engine.beg == old(engine.beg)
    {
      var pos: nat, skew: nat := *, *;
      engine := engine.(pos := pos, skew := skew);
    }

    /** One block goes to the card, from wherever the pointer stands. */
    method SendBlock()
      requires dma.Length == 2 * BOUNCE && left > 0 && at < |card|
      modifies this`card, this`engine, this`left, this`at, this`kicked, this`shown, this`stale
      ensures |card| == |old(card)| && forall k :: 0 <= k < |card| && k != old(at) ==> card[k] == old(card)[k]
      ensures Lies(old(engine), card[old(at)])
      ensures engine == old(engine).(pos := old(engine.pos) + 1)
      ensures left == old(left) - 1 && at == old(at) + 1 && !kicked
      ensures !stale && shown == (if old(stale) then 0 else old(shown)) + 1
    {
      var b: Block := *;
      if engine.skew == 0 && Pointer(engine) < dma.Length {
        b := dma[Pointer(engine)];
      }
      card := card[at := b];
      shown := (if stale then 0 else shown) + 1;
      engine := engine.(pos := engine.pos + 1);
      left, at, kicked, stale := left - 1, at + 1, false, false;
    }

    /** One block comes from the card, to wherever the pointer stands. */
    method ReceiveBlock()
      requires dma.Length == 2 * BOUNCE && left > 0 && at < |card|
      modifies this`engine, this`left, this`at, dma
      ensures forall k :: 0 <= k < dma.Length && k < Pointer(old(engine)) ==> dma[k] == old(dma[k])
      ensures old(engine.skew) == 0 ==>
        && (forall k :: 0 <= k < dma.Length && k != Pointer(old(engine)) ==> dma[k] == old(dma[k]))
        && Lies(old(engine), card[old(at)])
      ensures engine == old(engine).(pos := old(engine.pos) + 1)
      ensures left == old(left) - 1 && at == old(at) + 1
    {
      if Pointer(engine) < dma.Length {
        dma[Pointer(engine)] := card[at];
        if engine.skew > 0 {
          dma[Pointer(engine)] := *;
          if Pointer(engine) + 1 < dma.Length {
            dma[Pointer(engine) + 1] := *;
          }
        }
      }
      engine := engine.(pos := engine.pos + 1);
      left, at := left - 1, at + 1;
    }

    /** A flag of the write's data phase: an error, or one more block on the card. A block
        that was not kicked off never goes, and the wait runs out. */
    method WaitWriteFlag() returns (err: int)
      requires dma.Length == 2 * BOUNCE && left > 0 && at < |card|
      modifies this`card, this`engine, this`left, this`at, this`kicked, this`shown, this`stale, this`answers, this`heard
      ensures old(answers) == [] && old(kicked) ==> err == 0 && answers == []
      ensures old(kicked) ==> Told(old(heard), heard, err)
      ensures err == 0 ==> old(kicked)
      ensures err == 0 ==>
        && |card| == |old(card)| && (forall k :: 0 <= k < |card| && k != old(at) ==> card[k] == old(card)[k])
        && Lies(old(engine), card[old(at)])
        && engine == old(engine).(pos := old(engine.pos) + 1)
        && left == old(left) - 1 && at == old(at) + 1 && !kicked
        && !stale && shown == (if old(stale) then 0 else old(shown)) + 1
      ensures err != 0 ==> card == old(card) && engine.beg == old(engine.beg) && left == old(left) && at == old(at)
    {
      err := Answer(DataFlag);
      if err == 0 && !kicked {
        err := ETIMEDOUT;
      }
      if err == 0 {
        SendBlock();
      } else {
        Abandon();
      }
    }

    /** The wait for the counter to fall back to zero. */
    method AwaitReset() returns (ok: bool)
      modifies this`shown, this`stale, this`heard
      ensures Told(old(heard), heard, if ok then 0 else ETIMEDOUT)
      ensures ok ==> shown == 0
      ensures old(stale) ==> stale || shown == 0
      ensures old(stale) && answers == [] ==> ok
    {
      var patience: nat := *;
      var done := BlocksDone();
      while done != 0
        invariant done == shown && (old(stale) ==> stale || shown == 0) && heard == old(heard)
        invariant old(stale) && answers == [] ==> done == 0
        decreases patience
      {
        if patience == 0 {
          heard := heard + [Result(Counter, ETIMEDOUT)];
          return false;
        }
        patience := patience - 1;
        done := BlocksDone();
      }
      ok := true;
    }

    /** The wait for the next block of a write that has sent `sent` so far. */
    method SendNext(ghost was: seq<Block>, ghost from: nat, ghost e: Engine, ghost sent: seq<Block>)
      returns (err: int, ghost more: seq<Block>)
      requires dma.Length == 2 * BOUNCE && left > 0 && at == from + |sent| < |card| == |was|
      requires card == Spliced(was, from, sent) && engine == e.(pos := e.pos + |sent|) && FromPointer(e, dma[..], sent)
      modifies this`card, this`engine, this`left, this`at, this`kicked, this`shown, this`stale, this`answers, this`heard
      ensures old(answers) == [] && old(kicked) ==> err == 0 && answers == []
      ensures old(kicked) ==> Told(old(heard), heard, err)
      ensures err != 0 ==> card == old(card) && more == sent && engine.beg == e.beg
      ensures err == 0 ==>
        && |more| == |sent| + 1 && at == from + |more| && card == Spliced(was, from, more)
        && engine == e.(pos := e.pos + |more|) && left == old(left) - 1 && !kicked
        && !stale && shown == (if old(stale) then 0 else old(shown)) + 1
      ensures FromPointer(e, dma[..], more)
    {
      ghost var before := card;
      err := WaitWriteFlag();
      more := sent;
      if err == 0 {
        SplicedSnoc(was, from, sent, card[at - 1]);
        assert card == before[at - 1 := card[at - 1]];
        more := sent + [card[at - 1]];
      }
    }

    /** `sd_write_data`: wait for the counter to fall back to zero, then kick off every
        block after the first. On success all `n` blocks are on the card; on failure, a
        part of them from the front. */
    method WriteData(n: nat) returns (ret: int, ghost sent: seq<Block>)
      requires dma.Length == 2 * BOUNCE && 1 <= n <= BOUNCE && left == n && kicked && stale && at + n <= |card|
      modifies this`card, this`engine, this`left, this`at, this`kicked, this`shown, this`stale, this`answers, this`heard
      ensures |sent| <= n && card == Spliced(old(card), old(at), sent)
      ensures engine.beg == old(engine.beg) && (ret == 0 ==> engine == old(engine).(pos := old(engine.pos) + n))
      ensures FromPointer(old(engine), dma[..], sent)
      ensures ret == 0 ==> |sent| == n
      ensures old(answers) == [] ==> ret == 0 && answers == []
      ensures Told(old(heard), heard, ret)
    {
      sent := [];
      SplicedNothing(card, at);
      var ok := AwaitReset();
      if !ok {
        return ETIMEDOUT, sent;
      }
      var done := BlocksDone();
      while done < n
        invariant done == shown == |sent| <= n && left == n - |sent|
        invariant engine == old(engine).(pos := old(engine.pos) + |sent|) && at == old(at) + |sent|
        invariant card == Spliced(old(card), old(at), sent)
        invariant left > 0 ==> kicked
        invariant stale ==> sent == []
        invariant FromPointer(old(engine), dma[..], sent)
        invariant old(answers) == [] ==> answers == []
        invariant Told(old(heard), heard, 0)
        decreases n - |sent|
      {
        var err;
        ghost var before := heard;
        err, sent := SendNext(old(card), old(at), old(engine), sent);
        ToldNext(old(heard), before, heard, err);
        if err != 0 {
          return err, sent;
        }
        done := BlocksDone();
        if done >= n {
          break;
        }
        kicked := true;
      }
      ret := 0;
    }

    /** A read that started at `e`, with `was` in the buffers, has brought `n` blocks of the
        card, and nothing to before where it started. */
    ghost predicate Brought(e: Engine, was: seq<Block>, block: nat, n: nat)
      reads this`card, dma
      requires |was| == dma.Length && block + n <= |card|
    {
      && (forall k :: 0 <= k < Pointer(e) && k < dma.Length ==> dma[k] == was[k])
      && TookFrom(e, dma[..], card, block, n)
    }

    /** The next block of a read that has brought `got` so far. */
    method ReceiveNext(ghost e: Engine, ghost was: seq<Block>, ghost from: nat, ghost got: nat)
      requires dma.Length == 2 * BOUNCE == |was| && left > 0 && at == from + got < |card|
      requires engine == e.(pos := e.pos + got) && Brought(e, was, from, got)
      modifies this`engine, this`left, this`at, dma
      ensures engine == e.(pos := e.pos + got + 1)
      ensures left == old(left) - 1 && at == old(at) + 1 && Brought(e, was, from, got + 1)
    {
      ReceiveBlock();
    }

    /** `sd_read_data`: every flag but the last says that one more block has come. */
    method ReadData(n: nat) returns (ret: int)
      requires dma.Length == 2 * BOUNCE && 1 <= n <= BOUNCE && left == n && at + n <= |card|
      modifies this`engine, this`left, this`at, this`answers, this`heard, dma
      ensures engine.beg == old(engine.beg)
      ensures old(answers) == [] ==> ret == 0 && answers == []
      ensures Told(old(heard), heard, ret)
      ensures ret == 0 ==> Brought(old(engine), old(dma[..]), old(at), n)
    {
      ghost var e, was, from := engine, dma[..], at;
      ghost var got: nat := 0;
      while true
        invariant got <= n && left == n - got && at == from + got
        invariant engine == e.(pos := e.pos + got) && Brought(e, was, from, got)
        invariant old(answers) == [] ==> answers == []
        invariant Told(old(heard), heard, 0)
        decreases n - got
      {
        ghost var before := heard;
        ret := Answer(DataFlag);
        ToldNext(old(heard), before, heard, ret);
        if ret != 0 {
          Abandon();
          return;
        }
        if left == 0 {
          return 0;
        }
        ReceiveNext(e, was, from, got);
        got := got + 1;
        var tranDone := *;
        if (left == 0 && tranDone) || n == 1 {
          return 0;
        }
      }
    }

    /** `sd_transfer_dma`. The engine is armed for a write after its command and for a
        read before it. `data` is what a write has put on the card. */
    method TransferDma(block: nat, h: nat, n: nat, write: bool)
      returns (ret: int, ghost armed: bool, ghost data: seq<Block>)
      requires Valid() && 1 <= n <= BOUNCE && h < 2 && block + n <= |card|
      modifies this`card, this`accepted, this`stopped, this`engine, this`left, this`at, this`kicked, this`shown,
               this`stale, this`answers, this`heard, dma
      ensures Valid() && |data| <= n
      ensures armed ==> engine.beg == h
      ensures !armed ==> ret != 0 && engine == old(engine) && data == []
      ensures card == Spliced(old(card), block, data)
      ensures !write ==> data == []
      ensures write ==> dma[..] == old(dma[..]) && (ret == 0 ==> |data| == n)
      ensures write ==> FromPointer(Armed(old(engine), h), dma[..], data)
      ensures write && ret == 0 ==> engine == Armed(old(engine), h).(pos := Armed(old(engine), h).pos + n)
      ensures !write && ret == 0 ==> Brought(Armed(old(engine), h), old(dma[..]), block, n)
      ensures old(answers) == [] ==> ret == 0 && answers == []
      ensures Told(old(heard), heard, ret) && Asked(old(heard), heard, write && ret == 0)
      ensures Refused(old(answers)) ==> !armed && ret == old(answers)[0] && answers == old(answers)[1..]
    {
      SplicedNothing(card, block);
      armed, data := false, [];
      ghost var first := heard;
      ret := Answer(NotBusy);
      if ret != 0 {
        return;
      }
      ghost var told, asked := heard, heard;
      var accepts;
      if write {
        accepts, ret, armed, data := WriteOut(block, h, n);
      } else {
        accepts, ret, armed := ReadIn(block, h, n);
      }
      ToldNext(first, told, heard, ret);
      FirstStays(asked, asked, heard, |first|);
      if !accepts {
        return;
      }
      told := heard;
      ghost var next;
      ret, next := Finish(n, write, ret);
      ToldMore(first, told, heard, ret, next);
      FirstStays(asked, told, heard, |first|);
    }

    /** The command of a write, and its data if the card accepts that. */
    method WriteOut(block: nat, h: nat, n: nat)
      returns (accepts: bool, ret: int, ghost armed: bool, ghost data: seq<Block>)
      requires Valid() && 1 <= n <= BOUNCE && h < 2 && block + n <= |card|
      modifies this`card, this`accepted, this`engine, this`left, this`at, this`kicked, this`shown, this`stale,
               this`answers, this`heard
      ensures blockCount == |card| && accepted == stopped + if accepts && n > 1 then 1 else 0
      ensures |data| <= n && card == Spliced(old(card), block, data)
      ensures (!accepts ==> ret != 0) && (armed <==> accepts)
      ensures if armed then engine.beg == h else engine == old(engine) && data == []
      ensures ret == 0 ==> |data| == n && engine == Armed(old(engine), h).(pos := Armed(old(engine), h).pos + n)
      ensures FromPointer(Armed(old(engine), h), dma[..], data)
      ensures old(answers) == [] ==> ret == 0 && answers == []
      ensures Told(old(heard), heard, ret)
    {
      SplicedNothing(card, block);
      AddressIsRight(cardType, block);
      armed, data := false, [];
      ret := DataCommand(Address(cardType, block), n);
      accepts := ret == 0;
      if !accepts {
        return;
      }
      Arm(h, n);
      ghost var told := heard;
      armed := true;
      ret, data := WriteData(n);
      ToldNext(old(heard), told, heard, ret);
    }

    /** A read is armed before its command. */
    method ReadIn(block: nat, h: nat, n: nat) returns (accepts: bool, ret: int, ghost armed: bool)
      requires Valid() && 1 <= n <= BOUNCE && h < 2 && block + n <= |card|
      modifies this`accepted, this`engine, this`left, this`at, this`kicked, this`stale, this`answers, this`heard, dma
      ensures accepted == stopped + if accepts && n > 1 then 1 else 0
      ensures armed && engine.beg == h && (!accepts ==> ret != 0)
      ensures ret == 0 ==> Brought(Armed(old(engine), h), old(dma[..]), block, n)
      ensures old(answers) == [] ==> ret == 0 && answers == []
      ensures Told(old(heard), heard, ret)
    {
      AddressIsRight(cardType, block);
      Arm(h, n);
      armed := true;
      ret := DataCommand(Address(cardType, block), n);
      accepts := ret == 0;
      if accepts {
        ghost var told := heard;
        ret := ReadData(n);
        ToldNext(old(heard), told, heard, ret);
      }
    }

    /** The end of `sd_transfer_dma`: CMD12 closes every command for several blocks, and a write
        that has gone well waits until the card is ready. `next` is the first error in that;
        it matters if there was none before. */
    method Finish(n: nat, write: bool, before: int) returns (ret: int, ghost next: int)
      modifies this`stopped, this`answers, this`heard
      ensures Told(old(heard), heard, next) && ret == if before != 0 then before else next
      ensures write && ret == 0 ==> |heard| > |old(heard)| && heard[|heard| - 1].what == Ready
      ensures stopped == old(stopped) + if n > 1 then 1 else 0
      ensures old(answers) == [] ==> answers == [] && ret == before
    {
      ret, next := before, 0;
      if n > 1 {
        var stop := StopCommand();
        next := stop;
        if ret == 0 {
          ret := stop;
        }
      }
      if ret == 0 && write {
        ghost var told := heard;
        ret := Answer(Ready);
        ToldNext(old(heard), told, heard, ret);
        next := ret;
      }
    }

    /** The `memcpy` into a bounce buffer. */
    method CopyIn(h: nat, buf: array<Block>, from: nat, n: nat)
      requires dma.Length == 2 * BOUNCE && h < 2 && n <= BOUNCE && from + n <= buf.Length && buf != dma
      modifies dma
      ensures dma[..] == Spliced(old(dma[..]), BOUNCE * h, buf[from..from + n])
    {
      forall k | 0 <= k < n {
        dma[BOUNCE * h + k] := buf[from + k];
      }
    }

    /** The `memcpy` out of it. */
    method CopyOut(h: nat, buf: array<Block>, to: nat, n: nat)
      requires dma.Length == 2 * BOUNCE && h < 2 && n <= BOUNCE && to + n <= buf.Length && buf != dma
      modifies buf
      ensures buf[to..to + n] == dma[BOUNCE * h..BOUNCE * h + n]
      ensures buf[..to] == old(buf[..to]) && buf[to + n..] == old(buf[to + n..])
    {
      forall k | 0 <= k < n {
        buf[to + k] := dma[BOUNCE * h + k];
      }
    }

    /** What matters to the next transfer, and what a write has put on the card. */
    ghost function Now(): Status
      reads this, dma
    {
      Status(card, dma[..], engine, half)
    }

    /** A chunk that lies at the head of buffer `h` goes to the card, from where the engine's
        pointer stands when it has been armed. */
    method SendBuffer(ghost chunk: seq<Block>, block: nat, h: nat, n: nat)
      returns (ret: int, ghost armed: bool, ghost data: seq<Block>)
      requires Valid() && 1 <= n <= BOUNCE && h < 2 && block + n <= |card|
      requires chunk == dma[BOUNCE * h..BOUNCE * h + n]
      modifies this`card, this`accepted, this`stopped, this`engine, this`left, this`at, this`kicked, this`shown,
               this`stale, this`answers, this`heard, dma
      ensures Valid() && |data| <= n && card == Spliced(old(card), block, data) && dma[..] == old(dma[..])
      ensures ret == 0 ==> |data| == n
      ensures FromTheHead(old(engine), h) ==> data == chunk[..|data|]
      ensures FromPointer(Armed(old(engine), h), dma[..], data)
      ensures ret == 0 ==> engine == Armed(old(engine), h).(pos := Armed(old(engine), h).pos + n)
      ensures if armed then engine.beg == h else ret != 0 && engine == old(engine) && data == []
      ensures old(answers) == [] ==> ret == 0 && answers == []
      ensures Told(old(heard), heard, ret)
      ensures Refused(old(answers)) ==> !armed && ret == old(answers)[0] && answers == old(answers)[1..]
    {
      ret, armed, data := TransferDma(block, h, n, true);
      if FromTheHead(old(engine), h) {
        HeadOfBuffer(Armed(old(engine), h), h, dma[..], chunk, data);
      }
    }

    /** One turn of the loop of `sd_transfer` in a write. */
    method SendTurn(block: nat, buf: array<Block>, done: nat, n: nat)
      returns (ret: int, ghost lost: bool, ghost data: seq<Block>)
      requires Valid() && 1 <= n <= BOUNCE && done + n <= buf.Length && buf != dma && block + n <= |card|
      modifies this`card, this`accepted, this`stopped, this`engine, this`left, this`at, this`kicked, this`shown,
               this`stale, this`answers, this`heard, this`half, dma
      ensures Valid() && |data| <= n && card == Spliced(old(card), block, data)
      ensures ret == 0 ==> |data| == n
      ensures old(Rewinds()) ==> data == buf[done..done + n][..|data|]
      ensures WroteChunk(old(Now()), Now(), block, buf[done..done + n], ret, lost, old(answers), answers)
      ensures old(answers) == [] ==> ret == 0 && answers == []
      ensures Told(old(heard), heard, ret)
      ensures lost ==> ret != 0 && engine == old(engine) && half == 1 - old(half)
      ensures !lost ==> Alternates()
    {
      SplicedNothing(card, block);
      ghost var was := Now();
      var h := half;
      half := 1 - half;
      CopyIn(h, buf, done, n);
      ghost var armed;
      ret, armed, data := SendBuffer(buf[done..done + n], block, h, n);
      lost := !armed;
      OnTheCard(was, Now(), block, buf[done..done + n], ret, data);
    }

    /** One turn of the loop of `sd_transfer`, in a write that began at `was`. */
    method SendChunk(ghost was: Sides, block: nat, buf: array<Block>, done: nat, n: nat)
      returns (ret: int, ghost lost: bool, ghost moved: nat)
      requires Valid() && 1 <= n <= BOUNCE && done + n <= buf.Length && buf != dma && block + done + n <= |card|
      requires |was.card| == |card| && Confined(was, Sides(card, buf[..]), block, done, true)
      modifies this`card, this`accepted, this`stopped, this`engine, this`left, this`at, this`kicked, this`shown,
               this`stale, this`answers, this`heard, this`half, dma
      ensures Valid() && |card| == |old(card)|
      ensures moved <= done + n && (ret == 0 ==> moved == done + n)
      ensures Confined(was, Sides(card, buf[..]), block, moved, true)
      ensures old(Rewinds()) && Moved(was, old(Sides(card, buf[..])), block, done, true) ==>
        Moved(was, Sides(card, buf[..]), block, moved, true)
      ensures WroteChunk(old(Now()), Now(), block + done, buf[done..done + n], ret, lost, old(answers), answers)
      ensures old(answers) == [] ==> ret == 0 && answers == []
      ensures Told(old(heard), heard, ret)
      ensures lost ==> ret != 0 && engine == old(engine) && half == 1 - old(half)
      ensures !lost ==> Alternates()
    {
      ghost var now, start := Sides(card, buf[..]), Now();
      ghost var data;
      ret, lost, data := SendTurn(block + done, buf, done, n);
      moved := done + |data|;
      SendsOn(was, now, Sides(card, buf[..]), block, done, n, data, old(Rewinds()));
    }

    /** One turn of the loop of `sd_transfer` in a read. */
    method ReceiveTurn(block: nat, buf: array<Block>, done: nat, n: nat) returns (ret: int, ghost lost: bool)
      requires Valid() && 1 <= n <= BOUNCE && done + n <= buf.Length && buf != dma && block + n <= |card|
      modifies this`card, this`accepted, this`stopped, this`engine, this`left, this`at, this`kicked, this`shown,
               this`stale, this`answers, this`heard, this`half, dma, buf
      ensures Valid() && card == old(card)
      ensures ret != 0 ==> buf[..] == old(buf[..])
      ensures buf[..done] == old(buf[..done]) && buf[done + n..] == old(buf[done + n..])
      ensures Received(old(Now()), Now(), block, buf[done..done + n], ret)
      ensures old(answers) == [] ==> ret == 0 && answers == []
      ensures Told(old(heard), heard, ret)
      ensures lost ==> ret != 0 && engine == old(engine) && half == 1 - old(half)
      ensures !lost ==> Alternates()
    {
      ghost var was := Now();
      var h := half;
      half := 1 - half;
      SplicedNothing(card, block);
      ghost var armed, data := false, [];
      ret, armed, data := TransferDma(block, h, n, false);
      lost := !armed;
      if ret != 0 {
        return;
      }
      CopyOut(h, buf, done, n);
      IsReceived(was, Now(), block, buf[done..done + n]);
    }

    /** One turn of the loop of `sd_transfer`, in a read that began at `was`. */
    method ReceiveChunk(ghost was: Sides, block: nat, buf: array<Block>, done: nat, n: nat)
      returns (ret: int, ghost lost: bool, ghost moved: nat)
      requires Valid() && 1 <= n <= BOUNCE && done + n <= buf.Length && buf != dma && block + done + n <= |card|
      requires |was.card| == |card| && Confined(was, Sides(card, buf[..]), block, done, false)
      modifies this`card, this`accepted, this`stopped, this`engine, this`left, this`at, this`kicked, this`shown,
               this`stale, this`answers, this`heard, this`half, dma, buf
      ensures Valid() && |card| == |old(card)|
      ensures moved == if ret == 0 then done + n else done
      ensures Confined(was, Sides(card, buf[..]), block, moved, false)
      ensures old(answers) == [] ==> ret == 0 && answers == []
      ensures Told(old(heard), heard, ret)
      ensures old(Rewinds()) && Moved(was, old(Sides(card, buf[..])), block, done, false) ==>
        Moved(was, Sides(card, buf[..]), block, moved, false)
      ensures Received(old(Now()), Now(), block + done, buf[done..done + n], ret)
      ensures lost ==> ret != 0 && engine == old(engine) && half == 1 - old(half)
      ensures !lost ==> Alternates()
    {
      ghost var now, start := Sides(card, buf[..]), Now();
      ret, lost := ReceiveTurn(block + done, buf, done, n);
      moved := done;
      if ret == 0 {
        ReceivesOn(was, now, Sides(card, buf[..]), start, Now(), block, done, n);
        moved := done + n;
      }
    }

    /** One turn of the loop of `sd_transfer`. */
    method Chunk(ghost was: Sides, block: nat, buf: array<Block>, done: nat, n: nat, write: bool)
      returns (ret: int, ghost lost: bool, ghost moved: nat)
      requires Valid() && 1 <= n <= BOUNCE && done + n <= buf.Length && buf != dma && block + done + n <= |card|
      requires |was.card| == |card| && Confined(was, Sides(card, buf[..]), block, done, write)
      modifies this`card, this`accepted, this`stopped, this`engine, this`left, this`at, this`kicked, this`shown,
               this`stale, this`answers, this`heard, this`half, dma, buf
      ensures Valid() && |card| == |old(card)|
      ensures moved <= done + n && (ret == 0 ==> moved == done + n)
      ensures Confined(was, Sides(card, buf[..]), block, moved, write)
      ensures old(Rewinds()) && Moved(was, old(Sides(card, buf[..])), block, done, write) ==>
        Moved(was, Sides(card, buf[..]), block, moved, write)
      ensures DidChunk(old(Now()), Now(), block + done, buf[done..done + n], ret, lost, old(answers), answers, write)
      ensures old(answers) == [] ==> ret == 0 && answers == []
      ensures Told(old(heard), heard, ret)
      ensures lost ==> ret != 0 && engine == old(engine) && half == 1 - old(half)
      ensures !lost ==> Alternates()
    {
      if write {
        ret, lost, moved := SendChunk(was, block, buf, done, n);
      } else {
        ret, lost, moved := ReceiveChunk(was, block, buf, done, n);
      }
    }

    /** The loop of `sd_transfer`. */
    method Chunks(block: nat, buf: array<Block>, n: nat, write: bool)
      returns (ret: int, ghost lost: bool, ghost moved: nat)
      requires Valid() && 0 < n <= buf.Length && buf != dma && block + n <= |card|
      modifies this`card, this`accepted, this`stopped, this`engine, this`left, this`at, this`kicked, this`shown,
               this`stale, this`answers, this`heard, this`half, dma, buf
      ensures Valid() && |card| == |old(card)| && moved <= n && (ret == 0 ==> moved == n)
      ensures old(Rewinds()) ==> Moved(old(Sides(card, buf[..])), Sides(card, buf[..]), block, moved, write)
      ensures Confined(old(Sides(card, buf[..])), Sides(card, buf[..]), block, moved, write)
      ensures if lost then ret != 0 && (old(Alternates()) && engine.beg < 2 ==> !Alternates()) else Alternates()
      ensures n <= BOUNCE ==> DidChunk(old(Now()), Now(), block, buf[..n], ret, lost, old(answers), answers, write)
      ensures old(answers) == [] ==> ret == 0 && answers == []
      ensures Told(old(heard), heard, ret)
    {
      ghost var start, idle, was := Now(), answers, Sides(card, buf[..]);
      ghost var turns := Rewinds();
      var done := 0;
      ret, lost, moved := 0, false, 0;
      while done < n
        invariant moved == done <= n && Valid() && |card| == |was.card| && ret == 0 && !lost
        invariant turns ==> Moved(was, Sides(card, buf[..]), block, done, write)
        invariant if done == 0 then Now() == start && answers == idle else Alternates()
        invariant 0 < done && n <= BOUNCE ==>
          done == n && DidChunk(start, Now(), block, buf[..n], ret, lost, idle, answers, write)
        invariant idle == [] ==> answers == []
        invariant Told(old(heard), heard, 0)
        invariant Confined(was, Sides(card, buf[..]), block, done, write)
      {
        var k := if n - done > BOUNCE then BOUNCE else n - done;
        ghost var told := heard;
        ret, lost, moved := Chunk(was, block, buf, done, k, write);
        ToldNext(old(heard), told, heard, ret);
        if k == n {
          assert buf[done..done + k] == buf[..n];
        }
        if ret != 0 {
          break;
        }
        done := done + k;
      }
    }

    /** `sd_transfer`, behind `ch32h4_sd_read_blocks` and `ch32h4_sd_write_blocks`.

      `moved` blocks have reached the card, or the caller; `lost` says that the transfer
      failed after a chunk had taken its turn of the buffers and before the engine was
      given it. */
    method Transfer(block: nat, buf: array<Block>, n: nat, write: bool)
      returns (ret: int, ghost lost: bool, ghost moved: nat)
      requires Valid() && n <= buf.Length && buf != dma
      requires block + n < TWO_32
      modifies this`card, this`accepted, this`stopped, this`engine, this`left, this`at, this`kicked, this`shown,
               this`stale, this`answers, this`heard, this`half, dma, buf
      ensures Valid() && |card| == |old(card)| && moved <= n
      ensures ret == ENODEV && moved == 0 <== !initialised
      ensures ret == ERANGE && moved == 0 <== initialised && block + n > |card|
      ensures ret == 0 ==> initialised && block + n <= |card| && moved == n
      ensures old(Rewinds()) ==> Moved(old(Sides(card, buf[..])), Sides(card, buf[..]), block, moved, write)
      ensures Confined(old(Sides(card, buf[..])), Sides(card, buf[..]), block, moved, write)
      ensures (old(Rewinds()) && !lost ==> Rewinds()) && (old(Alternates()) && !lost ==> Alternates())
      ensures lost ==> ret != 0 && (old(Alternates()) && engine.beg < 2 ==> !Alternates())
      ensures 1 <= n <= BOUNCE && initialised && block + n <= |card| ==>
        DidChunk(old(Now()), Now(), block, buf[..n], ret, lost, old(answers), answers, write)
      ensures old(answers) == [] && initialised && block + n <= |card| ==> ret == 0 && answers == []
      ensures initialised && block + n <= |card| ==> Told(old(heard), heard, ret)
    {
      lost, moved := false, 0;
      if !initialised {
        return ENODEV, lost, moved;
      }
      if !InRange(block, n, blockCount) {
        return ERANGE, lost, moved;
      }
      if n == 0 {
        return 0, lost, moved;
      }
      ret, lost, moved := Chunks(block, buf, n, write);
    }

    /** `sd_switch_func`: no path between taking a turn and arming, so no turn is lost
        whatever fails, and the 64 bytes handed back are the card's. */
    method SwitchFunc() returns (ret: int, status: Block, ghost reply: Block)
      requires Valid()
      modifies this`half, this`engine, this`left, this`kicked, this`stale, this`answers, this`heard, dma
      ensures Valid() && Alternates() == if ret == 0 || half != old(half) then true else old(Alternates())
      ensures ret == 0 ==> half == 1 - old(half) && engine == Moved64(Armed(old(engine), old(half)))
      ensures ret == 0 && old(Rewinds()) ==> status == reply && |reply| == STATUS_SIZE
    {
      status, reply := [], [];
      ret := Answer(NotBusy);
      if ret != 0 {
        return;
      }
      var h := half;
      half := 1 - half;
      Arm(h, 1);
      ret := Answer(Command);
      if ret != 0 {
        return;
      }
      ret := Answer(DataFlag);
      if ret != 0 {
        Abandon();
        return;
      }
      reply := ReceiveStatus();
      left := 0;
      var front := dma[BOUNCE * h];
      status := if |front| < STATUS_SIZE then front else front[..STATUS_SIZE];
    }

    /** The 64 bytes of the status go to where the pointer stands, over the front of a block
        if it stands at one. */
    method ReceiveStatus() returns (ghost reply: Block)
      modifies this`engine, dma
      ensures engine == Moved64(old(engine)) && |reply| == STATUS_SIZE
      ensures old(engine.skew) == 0 && Pointer(old(engine)) < dma.Length ==>
        STATUS_SIZE <= |dma[Pointer(old(engine))]| && dma[Pointer(old(engine))][..STATUS_SIZE] == reply
    {
      var bytes: Block := *;
      var sent := if |bytes| >= STATUS_SIZE then bytes[..STATUS_SIZE] else seq(STATUS_SIZE, _ => 0);
      reply := sent;
      var p := Pointer(engine);
      if p < dma.Length {
        var rest := if |dma[p]| > STATUS_SIZE then dma[p][STATUS_SIZE..] else [];
        dma[p] := sent + rest;
        if engine.skew > 0 {
          dma[p] := *;
          if p + 1 < dma.Length {
            dma[p + 1] := *;
          }
        }
      }
      engine := Moved64(engine);
    }

    /** Two transfers in a row, both successful: what was written is what is read. */
    method WriteThenRead(block: nat, mine: array<Block>, back: array<Block>, n: nat) returns (wrote: int, read: int)
      requires Valid() && Rewinds() && n <= mine.Length && n <= back.Length && mine != dma && back != dma
      requires mine != back && block + n < TWO_32
      modifies this`card, this`accepted, this`stopped, this`engine, this`left, this`at, this`kicked, this`shown,
               this`stale, this`answers, this`heard, this`half, dma, mine, back
      ensures Valid()
      ensures wrote == 0 && read == 0 ==> back[..n] == old(mine[..n])
    {
      ghost var lost, moved;
      wrote, lost, moved := Transfer(block, mine, n, true);
      read := -1;
      if wrote == 0 {
        read, lost, moved := Transfer(block, back, n, false);
      }
    }
  }

  // ---- A run in which a turn is lost -----------------------------------------------------

  /** One block has been written from buffer 0. */
  ghost predicate WroteFirst(s: Status) {
    s.half == 1 && s.engine == Engine(0, 1, 0) && |s.dma| == 2 * BOUNCE && s.dma[1] == []
  }

  lemma FirstTransfer(was: Status, now: Status, b: Block)
    requires Sent(was, now, 0, [b], 0) && was.engine.beg != was.half == 0 && was.dma[1] == []
    ensures 1 <= |was.card| && now.card == was.card[0 := b] && WroteFirst(now)
  {
    ArmingRewinds(was.engine, was.half);
    SentFromTheHead(was, now, 0, [b]);
    OneSpliced(was.card, 0, b);
  }

  /** It is buffer 0's turn again. */
  ghost predicate LostTurn(s: Status) {
    s.half == 0 && s.engine == Engine(0, 1, 0) && |s.dma| == 2 * BOUNCE && s.dma[1] == []
  }

  lemma SecondTransfer(was: Status, now: Status, b: Block, ret: int, lost: bool, rest: seq<int>)
    requires WroteChunk(was, now, 1, [b], ret, lost, [ETIMEDOUT], rest) && WroteFirst(was)
    ensures ret == ETIMEDOUT && rest == [] && now.card == was.card && LostTurn(now)
  {
  }

  lemma ThirdTransfer(was: Status, now: Status, b: Block)
    requires Sent(was, now, 1, [b], 0) && LostTurn(was)
    ensures 2 <= |was.card| && now.card == was.card[1 := []]
  {
    SentFromTheMiddle(was, now, 1, [b]);
    assert now.card == was.card[1 := []];
  }

  /** A transfer that works, one that fails at its first wait and so loses its turn, and the
      same again: it succeeds, and on the card is not the block it was given. */
  method LostTurnWritesTheWrongBlock(card: seq<Block>, first: array<Block>, second: array<Block>)
    returns (c: Controller, failed: int, again: int)
    requires 2 <= |card| < TWO_32 && first.Length == 1 && second.Length == 1 && second[0] != []
    modifies first, second
    ensures fresh(c) && failed == ETIMEDOUT && again == 0
    ensures second[0] == old(second[0]) && c.card == card[0 := old(first[0])][1 := []]
  {
    c := new Controller(Sdhc, card, []);
    WriteFirst(c, first);
    c.answers := [ETIMEDOUT];
    failed := LoseTurn(c, second);
    again := WriteAgain(c, second);
  }

  method WriteFirst(c: Controller, first: array<Block>)
    requires c.Valid() && c.Alternates() && c.initialised && c.answers == [] && c.half == 0 && c.dma[1] == []
    requires first.Length == 1 && first != c.dma && |c.card| >= 1
    modifies c, c.dma, first
    ensures c.Valid() && c.initialised && WroteFirst(c.Now())
    ensures c.card == old(c.card)[0 := old(first[0])] && first[0] == old(first[0])
  {
    ghost var was, b := c.Now(), first[0];
    var ret: int;
    ghost var lost, moved;
    ret, lost, moved := c.Transfer(0, first, 1, true);
    assert first[..1] == [b];
    FirstTransfer(was, c.Now(), b);
  }

  method LoseTurn(c: Controller, second: array<Block>) returns (ret: int)
    requires c.Valid() && c.initialised && c.answers == [ETIMEDOUT] && WroteFirst(c.Now())
    requires second.Length == 1 && second != c.dma && |c.card| >= 2
    modifies c, c.dma, second
    ensures c.Valid() && c.initialised && c.answers == [] && LostTurn(c.Now())
    ensures ret == ETIMEDOUT && c.card == old(c.card) && second[0] == old(second[0])
  {
    ghost var was, b := c.Now(), second[0];
    ghost var lost, moved;
    ret, lost, moved := c.Transfer(1, second, 1, true);
    assert second[..1] == [b];
    SecondTransfer(was, c.Now(), b, ret, lost, c.answers);
  }

  method WriteAgain(c: Controller, second: array<Block>) returns (ret: int)
    requires c.Valid() && c.initialised && c.answers == [] && LostTurn(c.Now())
    requires second.Length == 1 && second != c.dma && |c.card| >= 2
    modifies c, c.dma, second
    ensures ret == 0 && second[0] == old(second[0]) && c.card == old(c.card)[1 := []]
  {
    ghost var was, b := c.Now(), second[0];
    ghost var lost, moved;
    ret, lost, moved := c.Transfer(1, second, 1, true);
    assert second[..1] == [b];
    ThirdTransfer(was, c.Now(), b);
  }
}
