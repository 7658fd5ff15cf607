/** The multi-target stream search of api/Stream.cpp.

  `findMulti` looks for several strings at once in a stream it can read only
  one character at a time. It keeps one index per target and, on a mismatch,
  walks that index back by comparing the target with itself, so there is no
  failure table. This module states what the search is for (`Search`, a plain
  race between suffix tests) and proves that the indices always are the exact
  longest partial matches, hence that the method computes `Search`.
 */
module StreamMatcher {

  /** What one timed read finds: a character, or nothing before the timeout. */
  datatype Arrival = Byte(c: char) | Timeout

  datatype Option<+T> = None | Some(value: T)

  /** One entry of the caller's target table. */
  datatype MultiTarget = MultiTarget(str: string, index: nat)

  /** A device stream. `pending` is what it will deliver, timeouts included;
      a stream with nothing left only ever times out. */
  class Stream {
    var pending: seq<Arrival>
    var consumed: string

    constructor (arrivals: seq<Arrival>)
      ensures pending == arrivals && consumed == ""
    {
      pending, consumed := arrivals, "";
    }

    method TimedRead() returns (a: Arrival)
      modifies this
      ensures a == Head(old(pending))
      ensures pending == Rest(old(pending))
      ensures consumed == old(consumed) + (if a.Byte? then [a.c] else [])
    {
      a := Head(pending);
      pending := Rest(pending);
      if a.Byte? {
        consumed := consumed + [a.c];
      }
    }

    /** Look at the next character without taking it; a timeout is waited out. */
    method TimedPeek() returns (a: Arrival)
      modifies this
      ensures a == Head(old(pending))
      ensures pending == AfterPeek(old(pending))
      ensures consumed == old(consumed)
    {
      a := Head(pending);
      if a.Timeout? {
        pending := Rest(pending);
      }
    }

    /** Take the character that was just peeked. */
    method Read()
      requires Head(pending).Byte?
      modifies this
      ensures pending == Rest(old(pending))
      ensures consumed == old(consumed) + [old(Head(pending)).c]
    {
      consumed := consumed + [pending[0].c];
      pending := pending[1..];
    }
  }

  function Head(pending: seq<Arrival>): Arrival {
    if pending == [] then Timeout else pending[0]
  }

  function Rest(pending: seq<Arrival>): seq<Arrival> {
    if pending == [] then [] else pending[1..]
  }

  function AfterPeek(pending: seq<Arrival>): seq<Arrival> {
    if Head(pending).Timeout? then Rest(pending) else pending
  }

  // ---- What the search means ------------------------------------------------

  predicate IsSuffix(p: string, s: string) {
    |p| <= |s| && s[|s| - |p|..] == p
  }

  /** `t` ends exactly at position `p` of `s`. */
  ghost predicate EndsAt(t: string, s: string, p: nat) {
    p <= |s| && IsSuffix(t, s[..p])
  }

  /** The lowest-numbered target that `s` ends with, or -1. */
  function LowestEnding(strs: seq<string>, s: string): (k: int)
    ensures -1 <= k < |strs|
    ensures k == -1 ==> forall j :: 0 <= j < |strs| ==> !IsSuffix(strs[j], s)
    ensures k >= 0 ==> IsSuffix(strs[k], s) && forall j :: 0 <= j < k ==> !IsSuffix(strs[j], s)
  {
    if strs == [] then -1
    else if IsSuffix(strs[0], s) then 0
    else
      var k := LowestEnding(strs[1..], s);
      if k == -1 then -1 else k + 1
  }

  /** The outcome of a race: the winner (-1 for none) and the text seen by then. */
  datatype Outcome = Outcome(winner: int, text: string, rest: seq<Arrival>)

  /** The race itself: read, and stop as soon as some target ends. */
  function Race(strs: seq<string>, text: string, pending: seq<Arrival>): (o: Outcome)
    ensures text <= o.text
    decreases |pending|
  {
    if Head(pending).Timeout? then Outcome(-1, text, Rest(pending))
    else
      var seen := text + [pending[0].c];
      var k := LowestEnding(strs, seen);
      if k >= 0 then Outcome(k, seen, pending[1..]) else Race(strs, seen, pending[1..])
  }

  /** An empty target wins before anything is read; otherwise the race decides. */
  function Search(strs: seq<string>, text: string, pending: seq<Arrival>): (o: Outcome)
    ensures text <= o.text
  {
    var k := LowestEnding(strs, "");
    if k >= 0 then Outcome(k, text, pending) else Race(strs, text, pending)
  }

  /** The search stops at the earliest position where any target ends, names
      the lowest-numbered target ending there, and reads nothing beyond it. */
  lemma {:induction false} RaceIsEarliest(strs: seq<string>, text: string, pending: seq<Arrival>)
    ensures var o := Race(strs, text, pending);
      && text <= o.text
      && (forall p, k :: |text| < p < |o.text| && 0 <= k < |strs| ==> !EndsAt(strs[k], o.text, p))
      && (o.winner >= 0 ==>
            && |text| < |o.text|
            && o.winner < |strs|
            && EndsAt(strs[o.winner], o.text, |o.text|)
            && (forall k :: 0 <= k < o.winner ==> !EndsAt(strs[k], o.text, |o.text|)))
      && (o.winner < 0 ==>
            && o.winner == -1
            && (forall p, k :: |text| < p <= |o.text| && 0 <= k < |strs| ==> !EndsAt(strs[k], o.text, p)))
    decreases |pending|
  {
    var o := Race(strs, text, pending);
    assert o.text[..|o.text|] == o.text;
    if Head(pending).Byte? {
      var seen := text + [pending[0].c];
      if LowestEnding(strs, seen) < 0 {
        RaceIsEarliest(strs, seen, pending[1..]);
        assert o.text[..|seen|] == seen;
        forall p, k | |text| < p < |o.text| && 0 <= k < |strs|
          ensures !EndsAt(strs[k], o.text, p)
        {
          if p == |seen| {
          }
        }
      }
    }
  }

  /** What the search has read is exactly the characters that arrived before it
      stopped: nothing is skipped, reordered or read ahead. */
  lemma {:induction false} RaceReadsInOrder(strs: seq<string>, text: string, pending: seq<Arrival>)
    ensures var o := Race(strs, text, pending);
      && |text| <= |o.text| <= |text| + |pending|
      && (forall i :: 0 <= i < |o.text| - |text| ==> pending[i] == Byte(o.text[|text| + i]))
      && (o.winner >= 0 ==> o.rest == pending[|o.text| - |text|..])
      && (o.winner < 0 ==>
            var n := |o.text| - |text|;
            Head(pending[n..]) == Timeout && o.rest == Rest(pending[n..]))
    decreases |pending|
  {
    if Head(pending).Byte? {
      var seen := text + [pending[0].c];
      if LowestEnding(strs, seen) < 0 {
        RaceReadsInOrder(strs, seen, pending[1..]);
        RaceIsEarliest(strs, seen, pending[1..]);
        var o := Race(strs, seen, pending[1..]);
        var n := |o.text| - |seen|;
        assert pending[1..][n..] == pending[n + 1..];
      }
    }
  }

  // ---- Partial matches ------------------------------------------------------

  /** `k` is the length of the longest proper prefix of `t` that ends `s`. */
  ghost predicate IsLongest(t: string, s: string, k: nat) {
    && k < |t|
    && IsSuffix(t[..k], s)
    && forall j :: k < j < |t| ==> !IsSuffix(t[..j], s)
  }

  lemma ExtendPrefix(t: string, s: string, c: char, j: nat)
    requires j < |t|
    ensures IsSuffix(t[..j + 1], s + [c]) <==> t[j] == c && IsSuffix(t[..j], s)
  {
    var p := t[..j + 1];
    if |p| <= |s| + 1 {
      assert p == t[..j] + [t[j]];
      assert (s + [c])[|s| + 1 - |p|..] == s[|s| - j..] + [c];
      if s[|s| - j..] + [c] == p {
        assert s[|s| - j..] == (s[|s| - j..] + [c])[..j] == p[..j] == t[..j];
        assert c == p[j];
      }
    }
  }

  lemma SuffixOfPrefix(t: string, s: string, k: nat, j: nat)
    requires j <= k <= |t| && IsSuffix(t[..k], s)
    ensures IsSuffix(t[..j], s) <==> t[..j] == t[k - j..k]
  {
    assert s[|s| - j..] == s[|s| - k..][k - j..];
    assert t[..k][k - j..] == t[k - j..k];
  }

  lemma LongestIsUnique(t: string, s: string, j: nat, k: nat)
    requires IsLongest(t, s, j) && IsLongest(t, s, k)
    ensures j == k
  {
    var a, b := t[..j], t[..k];
    assert IsSuffix(a, s) && IsSuffix(b, s);
  }

  /** The next character continues the partial match. */
  lemma Hit(t: string, s: string, k: nat, c: char)
    requires IsLongest(t, s, k) && t[k] == c
    ensures k + 1 == |t| ==> IsSuffix(t, s + [c])
    ensures k + 1 < |t| ==> !IsSuffix(t, s + [c]) && IsLongest(t, s + [c], k + 1)
  {
    ExtendPrefix(t, s, c, k);
    assert t[..|t|] == t;
    forall j | k + 1 < j <= |t|
      ensures !IsSuffix(t[..j], s + [c])
    {
      ExtendPrefix(t, s, c, j - 1);
    }
  }

  /** Walking back from a partial match of length `k` on the character `c`
      lands on `r`: the self-overlap it demands, and nothing longer has it. */
  ghost predicate IsFallback(t: string, k: nat, c: char, r: nat)
    requires k < |t|
  {
    && r <= k
    && (r > 0 ==> t[r - 1] == c && t[..r - 1] == t[k - (r - 1)..k])
    && forall j :: r <= j < k ==> !(t[j] == c && t[..j] == t[k - j..k])
  }

  /** The value the walk-back finds is the longest partial match of the stream. */
  lemma Miss(t: string, s: string, k: nat, c: char, r: nat)
    requires IsLongest(t, s, k) && t[k] != c && IsFallback(t, k, c, r)
    ensures !IsSuffix(t, s + [c]) && IsLongest(t, s + [c], r)
  {
    assert t[..|t|] == t;
    forall j | r < j <= |t|
      ensures !IsSuffix(t[..j], s + [c])
    {
      ExtendPrefix(t, s, c, j - 1);
      if j - 1 < k {
        SuffixOfPrefix(t, s, k, j - 1);
      }
    }
    if r > 0 {
      ExtendPrefix(t, s, c, r - 1);
      SuffixOfPrefix(t, s, k, r - 1);
    } else {
      assert IsSuffix(t[..0], s + [c]);
    }
  }

  /** The walk-back loop: it terminates with the exact fallback value. */
  method WalkBack(t: string, origIndex: nat, c: char) returns (index: nat)
    requires origIndex < |t|
    ensures IsFallback(t, origIndex, c, index)
  {
    index := origIndex;
    while index > 0
      invariant index <= origIndex
      invariant forall j :: index <= j < origIndex ==> !(t[j] == c && t[..j] == t[origIndex - j..origIndex])
    {
      index := index - 1;
      if c != t[index] {
        continue;
      }
      if index == 0 {
        index := index + 1;
        break;
      }
      var diff := origIndex - index;
      var i := 0;
      while i < index && t[i] == t[i + diff]
        invariant i <= index
        invariant forall m :: 0 <= m < i ==> t[m] == t[m + diff]
      {
        i := i + 1;
      }
      if i == index {
        assert t[..index] == t[origIndex - index..origIndex];
        index := index + 1;
        break;
      }
      assert t[..index][i] != t[origIndex - index..origIndex][i];
    }
  }

  // ---- The method -----------------------------------------------------------

  function Strs(targets: seq<MultiTarget>): (r: seq<string>)
    ensures |r| == |targets| && forall k :: 0 <= k < |r| ==> r[k] == targets[k].str
  {
    seq(|targets|, k requires 0 <= k < |targets| => targets[k].str)
  }

  /** Every index is the longest partial match of `text`. */
  ghost predicate Tracks(targets: seq<MultiTarget>, text: string) {
    forall k :: 0 <= k < |targets| ==> IsLongest(targets[k].str, text, targets[k].index)
  }

  /** A table with all indices zero tracks the empty text. */
  lemma FreshTableTracks(targets: seq<MultiTarget>)
    requires forall k :: 0 <= k < |targets| ==> targets[k].index == 0 && |targets[k].str| > 0
    ensures Tracks(targets, "")
  {
  }

  /** One target on one character: a hit moves its index on, a miss walks it
      back; `done` when the whole target has been seen. */
  method Advance(t: MultiTarget, c: char, ghost seen: string) returns (next: MultiTarget, done: bool)
    requires IsLongest(t.str, seen, t.index)
    ensures next.str == t.str
    ensures done == IsSuffix(t.str, seen + [c])
    ensures !done ==> IsLongest(t.str, seen + [c], next.index)
  {
    if c == t.str[t.index] {
      Hit(t.str, seen, t.index, c);
      return t.(index := t.index + 1), t.index + 1 == |t.str|;
    }
    if t.index == 0 {
      assert IsFallback(t.str, 0, c, 0);
      Miss(t.str, seen, 0, c, 0);
      return t, false;
    }
    var index := WalkBack(t.str, t.index, c);
    Miss(t.str, seen, t.index, c, index);
    return t.(index := index), false;
  }

  /** One character against every target in turn: the body of the read loop. */
  method Feed(targets: array<MultiTarget>, c: char, ghost seen: string) returns (r: int)
    requires Tracks(targets[..], seen)
    modifies targets
    ensures Strs(targets[..]) == old(Strs(targets[..]))
    ensures r == LowestEnding(old(Strs(targets[..])), seen + [c])
    ensures r < 0 ==> Tracks(targets[..], seen + [c])
  {
    ghost var strs := Strs(targets[..]);
    ghost var next := seen + [c];
    for k := 0 to targets.Length
      invariant forall j :: 0 <= j < targets.Length ==> targets[j].str == strs[j]
      invariant forall j :: 0 <= j < k ==> !IsSuffix(strs[j], next)
      invariant forall j :: 0 <= j < k ==> IsLongest(targets[j].str, next, targets[j].index)
      invariant forall j :: k <= j < targets.Length ==> IsLongest(targets[j].str, seen, targets[j].index)
    {
      var done;
      targets[k], done := Advance(targets[k], c, seen);
      if done {
        return k;
      }
    }
    return -1;
  }

  /** `findMulti`. `text` is what the table has already seen: "" for a table
      whose indices are all zero, and the earlier characters when a search
      that timed out is resumed with the same table. */
  method FindMulti(stream: Stream, targets: array<MultiTarget>, ghost text: string) returns (r: int)
    requires LowestEnding(Strs(targets[..]), "") < 0 ==> Tracks(targets[..], text)
    modifies stream, targets
    ensures Strs(targets[..]) == old(Strs(targets[..]))
    ensures var o := Search(old(Strs(targets[..])), text, old(stream.pending));
      && r == o.winner
      && stream.pending == o.rest
      && stream.consumed == old(stream.consumed) + o.text[|text|..]
      && (r < 0 ==> Tracks(targets[..], o.text))
  {
    ghost var strs := Strs(targets[..]);
    ghost var consumed := stream.consumed;
    for k := 0 to targets.Length
      invariant forall j :: 0 <= j < k ==> |strs[j]| > 0
    {
      if |targets[k].str| <= 0 {
        assert IsSuffix(strs[k], "");
        assert consumed + text[|text|..] == consumed;
        return k;
      }
    }

    ghost var seen, ahead := text, stream.pending;
    assert consumed + seen[|text|..] == consumed;
    while true
      invariant Strs(targets[..]) == strs && Tracks(targets[..], seen)
      invariant text <= seen && stream.consumed == consumed + seen[|text|..]
      invariant Race(strs, text, ahead) == Race(strs, seen, stream.pending)
      decreases |stream.pending|
    {
      var a := stream.TimedRead();
      if a.Timeout? {
        return -1;
      }
      assert (seen + [a.c])[|text|..] == seen[|text|..] + [a.c];
      r := Feed(targets, a.c, seen);
      seen := seen + [a.c];
      if r >= 0 {
        return;
      }
    }
  }

  /** `findUntil`: a race between the target and an optional terminator. */
  method FindUntil(stream: Stream, target: string, terminator: Option<string>) returns (found: bool)
    modifies stream
    ensures var strs := if terminator.None? then [target] else [target, terminator.value];
      var o := Search(strs, "", old(stream.pending));
      found == (o.winner == 0) && stream.pending == o.rest && stream.consumed == old(stream.consumed) + o.text
  {
    var t: array<MultiTarget>;
    if terminator.None? {
      t := new MultiTarget[] [MultiTarget(target, 0)];
    } else {
      t := new MultiTarget[] [MultiTarget(target, 0), MultiTarget(terminator.value, 0)];
    }
    ghost var strs := if terminator.None? then [target] else [target, terminator.value];
    assert Strs(t[..]) == strs;
    assert "" + stream.consumed == stream.consumed;
    if LowestEnding(strs, "") < 0 {
      forall k | 0 <= k < t.Length ensures |t[k].str| > 0 {
        assert !IsSuffix(strs[k], "");
      }
      FreshTableTracks(t[..]);
    }
    var r := FindMulti(stream, t, "");
    found := r == 0;
  }

  /** The characters that arrive before the first timeout, at `stop`. */
  function Arrived(pending: seq<Arrival>, stop: nat): string
    requires stop <= |pending| && forall i :: 0 <= i < stop ==> pending[i].Byte?
  {
    seq(stop, i requires 0 <= i < stop => pending[i].c)
  }

  lemma EndsInPrefix(t: string, s: string, n: nat, p: nat)
    requires n <= |s|
    ensures EndsAt(t, s[..n], p) <==> p <= n && EndsAt(t, s, p)
  {
    if p <= n {
      assert s[..n][..p] == s[..p];
    }
  }

  /** The race reads a prefix of what arrives, and all of it if nobody wins. */
  lemma RaceReadsArrived(strs: seq<string>, pending: seq<Arrival>, stop: nat)
    requires stop <= |pending| && forall i :: 0 <= i < stop ==> pending[i].Byte?
    requires Head(pending[stop..]).Timeout?
    ensures var o := Race(strs, "", pending);
      && |o.text| <= stop
      && o.text == Arrived(pending, stop)[..|o.text|]
      && (o.winner < 0 ==> |o.text| == stop)
  {
    var o := Race(strs, "", pending);
    var n := |o.text|;
    RaceReadsInOrder(strs, "", pending);
    RaceIsEarliest(strs, "", pending);
    assert stop < |pending| ==> Head(pending[stop..]) == pending[stop];
    assert n < |pending| ==> Head(pending[n..]) == pending[n];
  }

  /** `findUntil` is true exactly when the target ends somewhere in what arrives
      before the timeout and the terminator ends nowhere before that. */
  lemma FindUntilWinsTheRace(target: string, terminator: string, pending: seq<Arrival>, stop: nat)
    requires |target| > 0 && |terminator| > 0
    requires stop <= |pending| && forall i :: 0 <= i < stop ==> pending[i].Byte?
    requires Head(pending[stop..]).Timeout?
    ensures var all := Arrived(pending, stop);
      Search([target, terminator], "", pending).winner == 0 <==>
      exists p :: 0 <= p <= stop && EndsAt(target, all, p)
                  && forall q :: 0 <= q < p ==> !EndsAt(terminator, all, q)
  {
    var all := Arrived(pending, stop);
    var strs := [target, terminator];
    var o := Race(strs, "", pending);
    var n := |o.text|;
    RaceReadsArrived(strs, pending, stop);
    RaceIsEarliest(strs, "", pending);
    assert strs[0] == target && strs[1] == terminator;
    forall p, t | 0 <= p <= stop && t in strs
      ensures EndsAt(t, o.text, p) <==> p <= n && EndsAt(t, all, p)
    {
      EndsInPrefix(t, all, n, p);
    }
    if o.winner == 0 {
      assert EndsAt(target, all, n);
      forall q | 0 <= q < n ensures !EndsAt(terminator, all, q) {
        assert q > 0 ==> !EndsAt(strs[1], o.text, q);
      }
    } else {
      forall p | 0 <= p <= stop && EndsAt(target, all, p)
        ensures exists q :: 0 <= q < p && EndsAt(terminator, all, q)
      {
        LaterThanTheWinner(strs, o, n, all, p);
      }
    }
  }

  lemma LaterThanTheWinner(strs: seq<string>, o: Outcome, n: nat, all: string, p: nat)
    requires |strs| == 2 && |strs[0]| > 0 && |strs[1]| > 0
    requires n == |o.text| <= |all| && o.text == all[..n] && p <= |all| && EndsAt(strs[0], all, p)
    requires forall p, k :: 0 < p < n && 0 <= k < 2 ==> !EndsAt(strs[k], o.text, p)
    requires o.winner < 0 ==> n == |all| && forall p, k :: 0 < p <= n && 0 <= k < 2 ==> !EndsAt(strs[k], o.text, p)
    requires o.winner >= 0 ==> o.winner == 1 && EndsAt(strs[1], o.text, n) && !EndsAt(strs[0], o.text, n)
    ensures n < p && EndsAt(strs[1], all, n)
  {
    EndsInPrefix(strs[0], all, n, p);
    EndsInPrefix(strs[1], all, n, n);
  }
}
