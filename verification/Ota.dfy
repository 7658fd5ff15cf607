/** Committing a new image over the running one (ch32h4_ota.c): the whole range is erased
    first and then programmed, and the part is reset when that is done or a page fails.

    The contents of the array at every step in between are what a loss of power leaves. */
module Ota {
  import opened Flash

  /** While erasing: so many pages are erased, the next one is anything, and the rest is
      what it was. */
  ghost predicate WhileErasing(s: Words, was: Words, dest: nat, len: nat, page: nat) {
    exists k: nat :: k + page <= len && dest + len <= |was| && ErasedTo(s, was, dest, k, page)
  }

  ghost predicate ErasedTo(s: Words, was: Words, dest: nat, k: nat, page: nat)
    requires dest + k <= |was|
  {
    SameBut(s, Replaced(was, dest, Erased(k)), dest + k, page)
  }

  /** The range with the first `k` words of the image in it, and erased beyond. */
  function Prefix(was: Words, dest: nat, image: Words, k: nat): Words
    requires dest + |image| <= |was| && k <= |image|
  {
    Replaced(was, dest, image[..k] + Erased(|image| - k))
  }

  /** While programming: a prefix of the image, one page that is anything, and erased words
      to the end of the range. */
  ghost predicate WhileProgramming(s: Words, was: Words, dest: nat, image: Words) {
    exists k: nat :: k + PROG_WORDS <= |image| && dest + |image| <= |was| && ProgrammedTo(s, was, dest, image, k)
  }

  ghost predicate ProgrammedTo(s: Words, was: Words, dest: nat, image: Words, k: nat)
    requires dest + |image| <= |was| && k <= |image|
  {
    SameBut(s, Prefix(was, dest, image, k), dest + k, PROG_WORDS)
  }

  /** The steps of a commit: first those that erase, then those that program. */
  ghost predicate Erasing(states: seq<Words>, was: Words, dest: nat, len: nat, page: nat) {
    forall i :: 0 <= i < |states| ==> WhileErasing(states[i], was, dest, len, page)
  }

  ghost predicate Programming(states: seq<Words>, was: Words, dest: nat, image: Words) {
    forall i :: 0 <= i < |states| ==> WhileProgramming(states[i], was, dest, image)
  }

  /** The first loop of `ch32h4_ota_commit`. */
  method EraseAll(flash: Controller, dest: nat, len: nat, page: nat)
    returns (ok: bool, ghost states: seq<Words>, ghost answers: seq<bool>)
    requires page > 0 && len % page == 0 && dest + len <= |flash.cells|
    requires !flash.locked && !flash.fastLocked && !flash.per
    modifies flash`cells, flash`trace, flash`per, flash`outcomes
    ensures !flash.per && |flash.cells| == |old(flash.cells)|
    ensures flash.outcomes == old(flash.outcomes) + answers && UpToFailure(answers, len, page)
    ensures ok <==> false !in answers
    ensures flash.trace == old(flash.trace) + states && Erasing(states, old(flash.cells), dest, len, page)
    ensures ok ==> flash.cells == Replaced(old(flash.cells), dest, Erased(len))
  {
    ok, states, answers := true, [], [];
    ghost var was := flash.cells;
    ErasedSoFar(was, dest, 0);
    var off := 0;
    while off < len
      invariant off <= len && off % page == 0 && !flash.per
      invariant flash.trace == old(flash.trace) + states && Erasing(states, was, dest, len, page)
      invariant flash.cells == Replaced(was, dest, Erased(off))
      invariant ok && AllDone(answers, off, page) && flash.outcomes == old(flash.outcomes) + answers
    {
      WholePagesLeft(off, len, page);
      ghost var more;
      ok, more := flash.ErasePage(dest + off, page);
      OneMore(answers, ok, off, len, page);
      answers := answers + [ok];
      forall i | 0 <= i < |more| ensures WhileErasing(more[i], was, dest, len, page) {
        assert ErasedTo(more[i], was, dest, off, page);
      }
      states := states + more;
      if !ok {
        return;
      }
      ErasedNext(was, dest, off, page);
      off := off + page;
    }
  }

  /** Programming the next page of the erased range. */
  lemma PrefixNext(was: Words, dest: nat, image: Words, k: nat)
    requires dest + |image| <= |was| && k + PROG_WORDS <= |image|
    ensures var now := Prefix(was, dest, image, k);
      && now[dest + k..dest + k + PROG_WORDS] == Erased(PROG_WORDS)
      && Replaced(now, dest + k, image[k..k + PROG_WORDS]) == Prefix(was, dest, image, k + PROG_WORDS)
  {
    var now := Prefix(was, dest, image, k);
    var page := now[dest + k..dest + k + PROG_WORDS];
    forall i | 0 <= i < |page| ensures page[i] == ERASED {
      assert page[i] == (image[..k] + Erased(|image| - k))[k + i];
    }
    assert image[..k] + image[k..k + PROG_WORDS] == image[..k + PROG_WORDS];
  }

  /** The second loop of `ch32h4_ota_commit`, in a commit that began on `was`. */
  method ProgramAll(flash: Controller, ghost was: Words, dest: nat, image: Words)
    returns (ok: bool, ghost states: seq<Words>, ghost answers: seq<bool>)
    requires |image| % PROG_WORDS == 0 && dest + |image| <= |was| == |flash.cells|
    requires !flash.locked && !flash.fastLocked && !flash.pagePg
    requires flash.cells == Prefix(was, dest, image, 0)
    modifies flash`cells, flash`trace, flash`pagePg, flash`buffer, flash`outcomes
    ensures !flash.pagePg && |flash.cells| == |was|
    ensures flash.outcomes == old(flash.outcomes) + answers && UpToFailure(answers, |image|, PROG_WORDS)
    ensures ok <==> false !in answers
    ensures flash.trace == old(flash.trace) + states && Programming(states, was, dest, image)
    ensures ok ==> flash.cells == Prefix(was, dest, image, |image|)
  {
    ok, states, answers := true, [], [];
    var off := 0;
    while off < |image|
      invariant off <= |image| && off % PROG_WORDS == 0 && !flash.pagePg
      invariant flash.trace == old(flash.trace) + states && Programming(states, was, dest, image)
      invariant flash.cells == Prefix(was, dest, image, off)
      invariant ok && AllDone(answers, off, PROG_WORDS) && flash.outcomes == old(flash.outcomes) + answers
    {
      WholePagesLeft(off, |image|, PROG_WORDS);
      PrefixNext(was, dest, image, off);
      ghost var more;
      ok, more := flash.ProgramPage(dest + off, image[off..off + PROG_WORDS]);
      OneMore(answers, ok, off, |image|, PROG_WORDS);
      answers := answers + [ok];
      forall i | 0 <= i < |more| ensures WhileProgramming(more[i], was, dest, image) {
        assert ProgrammedTo(more[i], was, dest, image, off);
      }
      states := states + more;
      if !ok {
        return;
      }
      off := off + PROG_WORDS;
    }
  }

  /** `ch32h4_ota_commit`, up to the reset that ends it. `image` is a whole number of
      programming pages and of erase pages. Every content on the way is one of the two
      kinds, all those of erasing before all those of programming. `erases` and `programs`
      are what the page primitives answered, up to the first failure; exactly if there is
      none the commit is done, and then the array holds the image in the range, and is
      locked. */
  method Commit(flash: Controller, dest: nat, image: Words, page: nat)
    returns (done: bool, ghost erasing: seq<Words>, ghost programming: seq<Words>,
             ghost erases: seq<bool>, ghost programs: seq<bool>)
    requires page > 0 && |image| % page == 0 && |image| % PROG_WORDS == 0
    requires dest + |image| <= |flash.cells| && !flash.per && !flash.pagePg
    modifies flash
    ensures flash.trace == old(flash.trace) + erasing + programming
    ensures Erasing(erasing, old(flash.cells), dest, |image|, page)
    ensures Programming(programming, old(flash.cells), dest, image)
    ensures flash.outcomes == old(flash.outcomes) + erases + programs
    ensures UpToFailure(erases, |image|, page)
    ensures if false in erases then programs == [] else UpToFailure(programs, |image|, PROG_WORDS)
    ensures done <==> false !in erases && false !in programs
    ensures done ==> flash.cells == Replaced(old(flash.cells), dest, image)
    ensures done ==> flash.locked && flash.fastLocked && !flash.per && !flash.pagePg
  {
    ghost var was := flash.cells;
    programming, programs := [], [];
    flash.Unlock();
    done, erasing, erases := EraseAll(flash, dest, |image|, page);
    if !done {
      return;
    }
    assert image[..0] + Erased(|image|) == Erased(|image|);
    done, programming, programs := ProgramAll(flash, was, dest, image);
    if !done {
      return;
    }
    assert image[..|image|] + Erased(0) == image;
    flash.Lock();
  }

  /** At no step has a word outside the range changed. */
  lemma OutsideIsUntouched(s: Words, was: Words, dest: nat, image: Words, page: nat)
    requires WhileErasing(s, was, dest, |image|, page) || WhileProgramming(s, was, dest, image)
    ensures SameBut(s, was, dest, |image|)
  {
    if WhileErasing(s, was, dest, |image|, page) {
      var k: nat :| k + page <= |image| && dest + |image| <= |was| && ErasedTo(s, was, dest, k, page);
      ReplacedIsSameBut(was, dest, Erased(k), |image|);
      SameButWithin(s, Replaced(was, dest, Erased(k)), was, dest, |image|, dest + k, page);
    } else {
      var k: nat :| k + PROG_WORDS <= |image| && dest + |image| <= |was| && ProgrammedTo(s, was, dest, image, k);
      ReplacedIsSameBut(was, dest, image[..k] + Erased(|image| - k), |image|);
      SameButWithin(s, Prefix(was, dest, image, k), was, dest, |image|, dest + k, PROG_WORDS);
    }
  }

  lemma ReplacedIsSameBut(was: Words, at: nat, range: Words, n: nat)
    requires |range| <= n && at + n <= |was|
    ensures SameBut(Replaced(was, at, range), was, at, n)
  {
  }

  /** Once a page is programmed nothing of the old content is left in the range: each word
      of it outside the unfinished page is the image's, before that page, or erased. */
  lemma NothingOldIsLeft(s: Words, was: Words, dest: nat, image: Words) returns (k: nat)
    requires WhileProgramming(s, was, dest, image)
    ensures k + PROG_WORDS <= |image| && dest + |image| <= |s|
    ensures s[dest..dest + k] == image[..k]
    ensures s[dest + k + PROG_WORDS..dest + |image|] == Erased(|image| - k - PROG_WORDS)
  {
    k :| k + PROG_WORDS <= |image| && dest + |image| <= |was| && ProgrammedTo(s, was, dest, image, k);
    var target, next, n := Prefix(was, dest, image, k), dest + k + PROG_WORDS, |image| - k - PROG_WORDS;
    PrefixParts(was, dest, image, k);
    SliceOfSlice(s, dest, dest + k);
    SliceOfSlice(target, dest, dest + k);
    SliceOfTail(s, next, n);
    SliceOfTail(target, next, n);
  }

  lemma SliceOfSlice(s: Words, from: nat, to: nat)
    requires from <= to <= |s|
    ensures s[from..to] == s[..to][from..]
  {
  }

  lemma SliceOfTail(s: Words, from: nat, n: nat)
    requires from + n <= |s|
    ensures s[from..from + n] == s[from..][..n]
  {
  }

  lemma PrefixParts(was: Words, dest: nat, image: Words, k: nat)
    requires dest + |image| <= |was| && k + PROG_WORDS <= |image|
    ensures var target := Prefix(was, dest, image, k);
      && target[dest..dest + k] == image[..k]
      && target[dest + k + PROG_WORDS..dest + |image|] == Erased(|image| - k - PROG_WORDS)
  {
    var target, range := Prefix(was, dest, image, k), image[..k] + Erased(|image| - k);
    RangeOfReplaced(was, dest, range);
    assert target[dest..dest + k] == target[dest..dest + |image|][..k];
    assert target[dest + k + PROG_WORDS..dest + |image|] == target[dest..dest + |image|][k + PROG_WORDS..];
  }
}
