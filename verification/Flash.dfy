/** The flash controller of ch32h4_flash_ll.c and the driver of ch32h4_flash.c, in
    32-bit words. An operation disturbs its page as long as it runs, and may fail to
    finish; `trace` keeps every content the array has had on the way. */
module Flash {
  import opened Arith

  type Words = seq<int>

  const PROG_WORDS: nat := 64
  const ERASED: int := 0xE339E339
  const SPIN_LIMIT: nat := 1000000

  function Erased(n: nat): (w: Words)
    ensures |w| == n && forall i :: 0 <= i < n ==> w[i] == ERASED
  {
    seq(n, _ => ERASED)
  }

  /** `page` in place of what was at `at`. */
  function Replaced(cells: Words, at: nat, page: Words): (c: Words)
    requires at + |page| <= |cells|
    ensures |c| == |cells|
  {
    cells[..at] + page + cells[at + |page|..]
  }

  /** `s` is `cells` but for the `n` words at `at`. */
  ghost predicate SameBut(s: Words, cells: Words, at: nat, n: nat) {
    |s| == |cells| && at + n <= |cells| && s[..at] == cells[..at] && s[at + n..] == cells[at + n..]
  }

  ghost predicate AllSameBut(states: seq<Words>, cells: Words, at: nat, n: nat) {
    forall i :: 0 <= i < |states| ==> SameBut(states[i], cells, at, n)
  }

  /** What the page primitives answered in going over `n` words: one answer for each page,
      up to the first failure. */
  ghost predicate UpToFailure(answers: seq<bool>, n: nat, page: nat) {
    && (forall i :: 0 <= i < |answers| - 1 ==> answers[i])
    && |answers| * page <= n && (false !in answers ==> |answers| * page == n)
  }

  /** The pages of the first `off` words have all been done. */
  ghost predicate AllDone(answers: seq<bool>, off: nat, page: nat) {
    false !in answers && |answers| * page == off
  }

  lemma OneMore(answers: seq<bool>, ok: bool, off: nat, n: nat, page: nat)
    requires AllDone(answers, off, page) && off + page <= n
    ensures if ok then AllDone(answers + [ok], off + page, page)
            else UpToFailure(answers + [ok], n, page) && false in answers + [ok]
  {
    assert (|answers| + 1) * page == off + page;
    assert (answers + [ok])[|answers|] == ok;
  }

  class Controller {
    var cells: Words
    ghost var trace: seq<Words>
    /** What the page primitives have returned. */
    ghost var outcomes: seq<bool>
    /** The locks of the controller and of fast programming. */
    var locked: bool
    var fastLocked: bool
    /** CR_PER and CR_PAGE_PG. */
    var per: bool
    var pagePg: bool
    /** The words written to the page buffer since CR_PAGE_PG was set. */
    var buffer: Words

    /** The wait for SR_BSY or SR_WR_BSY. It reads the bit until it is clear, and succeeds
        exactly if it was clear at one of the first SPIN_LIMIT readings. */
    method Wait() returns (ok: bool, ghost readings: seq<bool>)
      ensures 0 < |readings| <= 1_000_001
      ensures forall i :: 0 <= i < |readings| - 1 ==> readings[i]
      ensures ok <==> |readings| <= 1_000_000 && !readings[|readings| - 1]
      ensures !ok ==> |readings| == 1_000_001
    {
      var guard := SPIN_LIMIT;
      var busy := *;
      readings := [busy];
      while busy && guard != 0
        invariant 0 <= guard <= SPIN_LIMIT && |readings| == SPIN_LIMIT - guard + 1
        invariant readings[|readings| - 1] == busy && forall i :: 0 <= i < |readings| - 1 ==> readings[i]
        decreases guard
      {
        guard := guard - 1;
        busy := *;
        readings := readings + [busy];
      }
      ok := guard != 0;
    }

    method Unlock()
      modifies this`locked, this`fastLocked
      ensures !locked && !fastLocked
    {
      locked, fastLocked := false, false;
    }

    method Lock()
      modifies this`locked, this`fastLocked
      ensures locked && fastLocked
    {
      locked, fastLocked := true, true;
    }

    /** An operation has started on `n` words: their content is anything until it ends. */
    method Disturb(at: nat, n: nat)
      requires at + n <= |cells|
      modifies this`cells, this`trace
      ensures SameBut(cells, old(cells), at, n) && trace == old(trace) + [cells]
    {
      var page: Words := *;
      if |page| == n {
        cells := Replaced(cells, at, page);
      }
      trace := trace + [cells];
    }

    method Settle(at: nat, page: Words)
      requires at + |page| <= |cells|
      modifies this`cells, this`trace
      ensures cells == Replaced(old(cells), at, page) && trace == old(trace) + [cells]
    {
      cells := Replaced(cells, at, page);
      trace := trace + [cells];
    }

    /** CR_STRT: erases the page, if CR_PER is set and the controller is not locked. */
    method StartErase(at: nat, n: nat) returns (started: bool)
      requires at + n <= |cells|
      modifies this`cells, this`trace
      ensures started <==> per && !locked
      ensures if started then SameBut(cells, old(cells), at, n) && trace == old(trace) + [cells]
              else cells == old(cells) && trace == old(trace)
    {
      started := per && !locked;
      if started {
        Disturb(at, n);
      }
    }

    /** `ch32h4_flash_ll_erase_page`, of `n` words. */
    method ErasePage(at: nat, n: nat) returns (ok: bool, ghost states: seq<Words>)
      requires at + n <= |cells|
      modifies this`cells, this`trace, this`per, this`outcomes
      ensures outcomes == old(outcomes) + [ok]
      ensures per ==> old(per)
      ensures trace == old(trace) + states && AllSameBut(states, old(cells), at, n)
      ensures SameBut(cells, old(cells), at, n)
      ensures ok && !locked ==> cells == Replaced(old(cells), at, Erased(n))
    {
      states := [];
      ghost var readings;
      ok, readings := Wait();
      if ok {
        per := true;
        var started := StartErase(at, n);
        states := if started then [cells] else [];
        ok, readings := Wait();
        if ok && started {
          Settle(at, Erased(n));
          states := states + [cells];
        }
        per := false;
      }
      outcomes := outcomes + [ok];
    }

    /** CR_PG_STRT: commits the page buffer, if CR_PAGE_PG is set and both locks are open. */
    method StartProgram(at: nat) returns (started: bool)
      requires at + PROG_WORDS <= |cells|
      modifies this`cells, this`trace
      ensures started <==> pagePg && !locked && !fastLocked
      ensures if started then SameBut(cells, old(cells), at, PROG_WORDS) && trace == old(trace) + [cells]
              else cells == old(cells) && trace == old(trace)
    {
      started := pagePg && !locked && !fastLocked;
      if started {
        Disturb(at, PROG_WORDS);
      }
    }

    /** The loop that fills the page buffer. */
    method FillBuffer(src: Words) returns (ok: bool)
      requires |src| == PROG_WORDS
      modifies this`buffer
      ensures ok ==> buffer == src
    {
      buffer, ok := [], true;
      var i := 0;
      while ok && i < PROG_WORDS
        invariant i <= PROG_WORDS && (ok ==> buffer == src[..i])
        decreases PROG_WORDS - i, ok
      {
        buffer := buffer + [src[i]];
        ghost var readings;
        ok, readings := Wait();
        i := i + 1;
      }
    }

    /** `ch32h4_flash_ll_program_page`. Programming a page that is not erased may leave
        anything in it. */
    method ProgramPage(at: nat, src: Words) returns (ok: bool, ghost states: seq<Words>)
      requires at + PROG_WORDS <= |cells| && |src| == PROG_WORDS
      modifies this`cells, this`trace, this`pagePg, this`buffer, this`outcomes
      ensures outcomes == old(outcomes) + [ok]
      ensures !pagePg
      ensures trace == old(trace) + states && AllSameBut(states, old(cells), at, PROG_WORDS)
      ensures SameBut(cells, old(cells), at, PROG_WORDS)
      ensures ok && !locked && !fastLocked && old(cells[at..at + PROG_WORDS]) == Erased(PROG_WORDS) ==>
        cells == Replaced(old(cells), at, src)
    {
      states := [];
      var blank := cells[at..at + PROG_WORDS] == Erased(PROG_WORDS);
      pagePg := true;
      ghost var readings;
      ok, readings := Wait();
      if ok {
        ok, readings := Wait();
      }
      if ok {
        ok := FillBuffer(src);
      }
      if ok {
        var started := StartProgram(at);
        states := if started then [cells] else [];
        ok, readings := Wait();
        if ok && started && blank {
          Settle(at, buffer);
          states := states + [cells];
        }
      }
      pagePg := false;
      outcomes := outcomes + [ok];
    }

    // ---- ch32h4_flash.c -----------------------------------------------------------------

    /** `ch32h4_flash_erase`; addresses and lengths in words, `page` words to a page.
        `parks` is what `ch32h4_park_other` returns. It refuses what is not whole pages
        and what it cannot park for, and then touches nothing; otherwise it erases one page
        after the other up to the first that fails, and succeeds exactly if none does.
        Whatever happens, nothing outside the range changes and the controller ends up
        locked. */
    method Erase(at: nat, n: nat, page: nat, parks: bool) returns (ok: bool, ghost answers: seq<bool>)
      requires page > 0 && at + n <= |cells| && !per
      modifies this`cells, this`trace, this`per, this`locked, this`fastLocked, this`outcomes
      ensures n == 0 || at % page != 0 || n % page != 0 || !parks ==>
        !ok && cells == old(cells) && locked == old(locked) && answers == []
      ensures SameBut(cells, old(cells), at, n) && !per
      ensures outcomes == old(outcomes) + answers
      ensures n != 0 && at % page == 0 && n % page == 0 && parks ==>
        locked && fastLocked && UpToFailure(answers, n, page) && (ok <==> false !in answers)
      ensures ok ==> cells == Replaced(old(cells), at, Erased(n))
      ensures ok ==> forall i :: at <= i < at + n ==> cells[i] == 0xE339E339
    {
      SameAsItself(cells, at, n);
      answers := [];
      if n == 0 || at % page != 0 || n % page != 0 || !parks {
        return false, answers;
      }
      Unlock();
      ok := true;
      var off := 0;
      ghost var was := cells;
      ErasedSoFar(was, at, 0);
      while ok && off < n
        invariant off <= n && off % page == 0 && !per && !locked
        invariant SameBut(cells, was, at, n) && outcomes == old(outcomes) + answers
        invariant ok ==> AllDone(answers, off, page)
        invariant !ok ==> UpToFailure(answers, n, page) && false in answers
        invariant ok ==> cells == Replaced(was, at, Erased(off))
        decreases n - off, ok
      {
        WholePagesLeft(off, n, page);
        ghost var before := cells;
        ghost var states;
        ok, states := ErasePage(at + off, page);
        SameButWithin(cells, before, was, at, n, at + off, page);
        OneMore(answers, ok, off, n, page);
        answers := answers + [ok];
        if ok {
          ErasedNext(was, at, off, page);
          off := off + page;
        }
      }
      Lock();
    }

    /** `ch32h4_flash_write`. It refuses like `Erase`, and programs one page after the other
        up to the first that fails. It returns true exactly if none failed and the range
        reads back as the data; so it does if the range was erased and none failed. */
    method Write(at: nat, src: Words, parks: bool) returns (ok: bool, ghost answers: seq<bool>)
      requires at + |src| <= |cells| && !pagePg
      modifies this`cells, this`trace, this`pagePg, this`buffer, this`locked, this`fastLocked, this`outcomes
      ensures SameBut(cells, old(cells), at, |src|) && !pagePg
      ensures |src| == 0 ==> ok && cells == old(cells) && locked == old(locked)
      ensures |src| != 0 && (at % 64 != 0 || |src| % 64 != 0 || !parks) ==>
        !ok && cells == old(cells) && locked == old(locked) && answers == []
      ensures outcomes == old(outcomes) + answers
      ensures |src| != 0 && at % 64 == 0 && |src| % 64 == 0 && parks ==>
        && locked && fastLocked && UpToFailure(answers, |src|, 64)
        && (ok <==> false !in answers && cells == Replaced(old(cells), at, src))
        && (ok ==> cells[at..at + |src|] == src)
        && (false !in answers && old(cells[at..at + |src|]) == Erased(|src|) ==> ok)
    {
      SameAsItself(cells, at, |src|);
      answers := [];
      if |src| == 0 {
        return true, answers;
      }
      if at % PROG_WORDS != 0 || |src| % PROG_WORDS != 0 || !parks {
        return false, answers;
      }
      Unlock();
      ghost var was := cells;
      ok, answers := ProgramPages(at, src);
      Lock();
      if !ok {
        return;
      }
      RangeOfReplaced(was, at, src);
      ok := cells[at..at + |src|] == src;
      if ok {
        ReadsBack(cells, was, at, src);
      }
    }

    /** The loop of `ch32h4_flash_write`. */
    method ProgramPages(at: nat, src: Words) returns (ok: bool, ghost answers: seq<bool>)
      requires at + |src| <= |cells| && |src| % PROG_WORDS == 0 && !pagePg && !locked && !fastLocked
      modifies this`cells, this`trace, this`pagePg, this`buffer, this`outcomes
      ensures SameBut(cells, old(cells), at, |src|) && !pagePg
      ensures outcomes == old(outcomes) + answers && UpToFailure(answers, |src|, PROG_WORDS)
      ensures ok <==> false !in answers
      ensures ok && old(cells[at..at + |src|]) == Erased(|src|) ==> cells == Replaced(old(cells), at, src)
    {
      ok, answers := true, [];
      var off := 0;
      ghost var was := cells;
      ghost var blank := cells[at..at + |src|] == Erased(|src|);
      SameAsItself(cells, at, |src|);
      assert Replaced(was, at, src[..0]) == was;
      while ok && off < |src|
        invariant off <= |src| && off % PROG_WORDS == 0 && !pagePg
        invariant SameBut(cells, was, at, |src|) && outcomes == old(outcomes) + answers
        invariant ok ==> AllDone(answers, off, PROG_WORDS)
        invariant !ok ==> UpToFailure(answers, |src|, PROG_WORDS) && false in answers
        invariant ok && blank ==> cells == Replaced(was, at, src[..off])
        decreases |src| - off, ok
      {
        WholePagesLeft(off, |src|, PROG_WORDS);
        ghost var before, states := cells, [];
        ok, states := ProgramPage(at + off, src[off..off + PROG_WORDS]);
        SameButWithin(cells, before, was, at, |src|, at + off, PROG_WORDS);
        OneMore(answers, ok, off, |src|, PROG_WORDS);
        answers := answers + [ok];
        if blank {
          ProgramsNext(was, at, src, off);
        }
        off := off + PROG_WORDS;
      }
      assert src[..|src|] == src;
    }

    /** `ch32h4_flash_is_erased`, for whole words. */
    method IsErased(at: nat, n: nat) returns (r: bool)
      requires at + n <= |cells|
      ensures r <==> forall i :: at <= i < at + n ==> cells[i] == 0xE339E339
    {
      for i := 0 to n
        invariant forall k :: at <= k < at + i ==> cells[k] == ERASED
      {
        if cells[at + i] != ERASED {
          return false;
        }
      }
      r := true;
    }
  }

  // ---- Contents ---------------------------------------------------------------------------

  lemma SameAsItself(cells: Words, at: nat, n: nat)
    requires at + n <= |cells|
    ensures SameBut(cells, cells, at, n)
  {
  }

  /** A change inside a range that nothing else has left. */
  lemma SameButWithin(s: Words, before: Words, was: Words, at: nat, n: nat, from: nat, k: nat)
    requires SameBut(s, before, from, k) && SameBut(before, was, at, n) && at <= from && from + k <= at + n
    ensures SameBut(s, was, at, n)
  {
    assert s[..at] == s[..from][..at] && before[..at] == before[..from][..at];
    assert s[at + n..] == s[from + k..][at + n - (from + k)..];
    assert before[at + n..] == before[from + k..][at + n - (from + k)..];
  }

  lemma ErasedSoFar(was: Words, at: nat, n: nat)
    requires at + n <= |was| && n == 0
    ensures Replaced(was, at, Erased(n)) == was
  {
  }

  lemma ErasedNext(was: Words, at: nat, off: nat, page: nat)
    requires at + off + page <= |was|
    ensures Replaced(Replaced(was, at, Erased(off)), at + off, Erased(page)) == Replaced(was, at, Erased(off + page))
  {
    assert Erased(off) + Erased(page) == Erased(off + page);
  }

  lemma WholePagesLeft(off: nat, n: nat, page: nat)
    requires page > 0 && off % page == 0 && n % page == 0 && off < n
    ensures off + page <= n && (off + page) % page == 0
  {
    DivMod(off, page);
    DivMod(n, page);
    MulCancelLess(off / page, n / page, page);
    MulMono(off / page + 1, n / page, page);
    DivModUnique(off + page, page, off / page + 1, 0);
  }

  lemma RangeOfReplaced(was: Words, at: nat, src: Words)
    requires at + |src| <= |was|
    ensures Replaced(was, at, src)[at..at + |src|] == src
  {
  }

  lemma ReadsBack(s: Words, was: Words, at: nat, src: Words)
    requires at + |src| <= |s| && SameBut(s, was, at, |src|) && s[at..at + |src|] == src
    ensures s == Replaced(was, at, src)
  {
    assert s == s[..at] + s[at..at + |src|] + s[at + |src|..];
  }

  /** Programming the next page of an erased range. */
  lemma ProgramsNext(was: Words, at: nat, src: Words, off: nat)
    requires off + PROG_WORDS <= |src| && at + |src| <= |was| && was[at..at + |src|] == Erased(|src|)
    ensures var now := Replaced(was, at, src[..off]);
      && now[at + off..at + off + PROG_WORDS] == Erased(PROG_WORDS)
      && Replaced(now, at + off, src[off..off + PROG_WORDS]) == Replaced(was, at, src[..off + PROG_WORDS])
  {
    var now, range := Replaced(was, at, src[..off]), was[at..at + |src|];
    var page := now[at + off..at + off + PROG_WORDS];
    forall i | 0 <= i < |page| ensures page[i] == ERASED {
      assert page[i] == range[off + i];
    }
    assert src[..off] + src[off..off + PROG_WORDS] == src[..off + PROG_WORDS];
  }
}
