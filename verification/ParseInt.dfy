/** `peekNextDigit` and `parseInt` of api/Stream.cpp.

  The parser is specified by what it does to the characters that arrive, and
  then shown to undo the number printer: a decimal printed by `print(long)`
  comes back as the number it was, and the stream is left right behind it.
 */
module ParseInt {
  import opened Arith
  import opened Numerals
  import Print
  import opened StreamMatcher

  datatype LookaheadMode = SkipAll | SkipNone | SkipWhitespace

  /** A parse: what was found, and what the stream still holds. */
  datatype Found<+T> = Found(value: T, rest: seq<Arrival>)

  function Signed(negative: bool, value: int): int { if negative then -value else value }

  predicate IsDigit(c: char) { '0' <= c <= '9' }

  predicate IsWhitespace(c: char) { c == ' ' || c == '\t' || c == '\r' || c == '\n' }

  /** Whether a character in front of the number is thrown away. */
  predicate Skipped(mode: LookaheadMode, c: char) {
    && c != '-' && !IsDigit(c)
    && (mode.SkipAll? || (mode.SkipWhitespace? && IsWhitespace(c)))
  }

  function NextDigit(mode: LookaheadMode, pending: seq<Arrival>): (f: Found<Option<char>>)
    ensures f.value.Some? ==> Head(f.rest) == Byte(f.value.value) && (f.value.value == '-' || IsDigit(f.value.value))
    decreases |pending|
  {
    match Head(pending)
    case Timeout => Found(None, Rest(pending))
    case Byte(c) =>
      if c == '-' || IsDigit(c) then Found(Some(c), pending)
      else if Skipped(mode, c) then NextDigit(mode, pending[1..])
      else Found(None, pending)
  }

  /** What a timeout narrows to as a `char`: it reads as -1. */
  const NOTHING := 255 as char

  /** The loop of `parseInt` from its test on: digits are taken, ignored characters passed
      over, anything else is left and ends it. So does a timeout, unless it is what is to be
      ignored: then the loop ends with the next character that does, or, if none ever
      arrives, not at all. */
  function Continue(negative: bool, value: int, ignore: char, pending: seq<Arrival>): Found<Option<int>>
    decreases |pending|
  {
    match Head(pending)
    case Timeout =>
      if ignore != NOTHING then Found(Some(Signed(negative, value)), Rest(pending))
      else if pending == [] then Found(None, [])
      else Continue(negative, value, ignore, pending[1..])
    case Byte(c) =>
      if c == ignore then Continue(negative, value, ignore, pending[1..])
      else if IsDigit(c) then Continue(negative, value * 10 + (c as int - '0' as int), ignore, pending[1..])
      else Found(Some(Signed(negative, value)), pending)
  }

  /** The loop, standing on the first character of the number. */
  function Accumulate(ignore: char, pending: seq<Arrival>): Found<Option<int>>
    requires Head(pending).Byte?
  {
    if pending[0].c == '-' && ignore != '-' then Continue(true, 0, ignore, pending[1..])
    else Continue(false, 0, ignore, pending)
  }

  /** None for a call that never returns. */
  function Parse(mode: LookaheadMode, ignore: char, pending: seq<Arrival>): Found<Option<int>> {
    var f := NextDigit(mode, pending);
    if f.value.None? then Found(Some(0), f.rest) else Accumulate(ignore, f.rest)
  }

  /** A character that ends a number. */
  predicate Ends(a: Arrival, ignore: char) {
    a.Byte? && a.c != ignore && !IsDigit(a.c)
  }

  lemma {:induction false} ContinueReturns(negative: bool, value: int, ignore: char, pending: seq<Arrival>)
    ensures Continue(negative, value, ignore, pending).value.Some? <==>
            ignore != NOTHING || exists i :: 0 <= i < |pending| && Ends(pending[i], ignore)
    decreases |pending|
  {
    if pending != [] {
      var rest, a := pending[1..], pending[0];
      var v := if a.Byte? && IsDigit(a.c) then value * 10 + (a.c as int - '0' as int) else value;
      ContinueReturns(negative, value, ignore, rest);
      ContinueReturns(negative, v, ignore, rest);
      assert Ends(pending[0], ignore) == Ends(a, ignore);
      assert pending == [a] + rest;
    }
  }

  /** A call returns unless it has begun a number, ignores what a timeout reads as, and
      nothing that ends a number ever follows. */
  lemma ReturnsExactly(mode: LookaheadMode, ignore: char, pending: seq<Arrival>)
    ensures var f := NextDigit(mode, pending);
      Parse(mode, ignore, pending).value.Some? <==>
        || f.value.None? || ignore != NOTHING
        || exists i :: 1 <= i < |f.rest| && Ends(f.rest[i], ignore)
  {
    var f := NextDigit(mode, pending);
    if f.value.Some? {
      var rest := f.rest;
      if f.value.value == '-' && ignore != '-' {
        ContinueReturns(true, 0, ignore, rest[1..]);
        assert rest == [rest[0]] + rest[1..];
      } else {
        ContinueReturns(false, 0, ignore, rest);
      }
    }
  }

  /** "7", and a minute later an "x", which is what the call has been waiting for. */
  lemma WaitsForEver()
    ensures Parse(SkipAll, NOTHING, [Byte('7')]).value == None
    ensures Parse(SkipAll, NOTHING, [Byte('7'), Timeout, Byte('x')]) == Found(Some(7), [Byte('x')])
  {
    var pending := [Byte('7'), Timeout, Byte('x')];
    assert pending[1..] == [Timeout, Byte('x')] && pending[1..][1..] == [Byte('x')];
    assert Continue(false, 7, NOTHING, pending[1..]) == Continue(false, 7, NOTHING, [Byte('x')]);
    assert Continue(false, 0, NOTHING, [Byte('7')]) == Continue(false, 7, NOTHING, []);
  }

  method PeekNextDigit(stream: Stream, mode: LookaheadMode) returns (c: Option<char>)
    modifies stream
    ensures var f := NextDigit(mode, old(stream.pending)); c == f.value && stream.pending == f.rest
  {
    while true
      invariant NextDigit(mode, stream.pending) == NextDigit(mode, old(stream.pending))
      decreases |stream.pending|
    {
      var a := stream.TimedPeek();
      if a.Timeout? {
        return None;
      }
      if a.c == '-' || IsDigit(a.c) {
        return Some(a.c);
      }
      match mode {
        case SkipNone =>
          return None;
        case SkipWhitespace =>
          if !IsWhitespace(a.c) {
            return None;
          }
        case SkipAll =>
      }
      stream.Read();
    }
  }

  /** `parseInt`, over mathematical integers. `returned` is false where the code goes on
      waiting for ever. */
  method ParseInt(stream: Stream, mode: LookaheadMode, ignore: char) returns (returned: bool, result: int)
    modifies stream
    ensures var f := Parse(mode, ignore, old(stream.pending));
      returned == f.value.Some? && (returned ==> result == f.value.value) && stream.pending == f.rest
  {
    var isNegative, value := false, 0;
    var first := PeekNextDigit(stream, mode);
    if first.None? {
      return true, 0;
    }
    ghost var whole := Accumulate(ignore, stream.pending);
    var a := Byte(first.value);
    var going := true;
    while going
      invariant going && a.Byte? ==> Head(stream.pending) == a
      invariant going ==> (if a == Byte('-') && ignore != '-' then Continue(true, 0, ignore, stream.pending[1..])
                           else Continue(isNegative, value, ignore, stream.pending)) == whole
      invariant going && a == Byte('-') && ignore != '-' ==> value == 0 && !isNegative
      invariant going && a.Timeout? ==> ignore == NOTHING
      invariant going && a.Byte? && a.c != '-' ==> IsDigit(a.c) || a.c == ignore
      invariant !going ==> whole == Found(Some(Signed(isNegative, value)), stream.pending)
      decreases going, |stream.pending|, a.Timeout?
    {
      var c := if a.Timeout? then NOTHING else a.c;
      if c == ignore {
      } else if c == '-' {
        isNegative := true;
      } else if IsDigit(c) {
        value := value * 10 + (c as int - '0' as int);
      }
      if a.Byte? {
        stream.Read();
      } else if stream.pending == [] {
        return false, 0;
      }
      a := stream.TimedPeek();
      c := if a.Timeout? then NOTHING else a.c;
      going := (a.Byte? && IsDigit(a.c)) || c == ignore;
    }
    returned, result := true, if isNegative then -value else value;
  }

  // ---- Reading back what was printed ---------------------------------------------

  function Bytes(s: string): (r: seq<Arrival>)
    ensures |r| == |s| && forall i :: 0 <= i < |s| ==> r[i] == Byte(s[i])
  {
    seq(|s|, i requires 0 <= i < |s| => Byte(s[i]))
  }

  /** What follows does not continue the number. */
  predicate EndsNumber(tail: seq<Arrival>, ignore: char) {
    if Head(tail).Byte? then Ends(Head(tail), ignore) else ignore != NOTHING
  }

  /** What a look-ahead mode passes over in front of the number: anything that is neither a
      digit nor a minus sign; blanks, tabs and line ends; or nothing. */
  ghost predicate PassedOver(mode: LookaheadMode, junk: string) {
    match mode
    case SkipAll => forall i :: 0 <= i < |junk| ==> junk[i] != '-' && !('0' <= junk[i] <= '9')
    case SkipWhitespace => forall i :: 0 <= i < |junk| ==> junk[i] in " \t\r\n"
    case SkipNone => junk == ""
  }

  lemma {:induction false} SkipsJunk(mode: LookaheadMode, junk: string, tail: seq<Arrival>)
    requires PassedOver(mode, junk)
    ensures NextDigit(mode, Bytes(junk) + tail) == NextDigit(mode, tail)
    decreases |junk|
  {
    if junk == "" {
      assert Bytes(junk) + tail == tail;
    } else {
      SkipsJunk(mode, junk[1..], tail);
      assert (Bytes(junk) + tail)[1..] == Bytes(junk[1..]) + tail;
    }
  }

  /** A character that the mode does not pass over and that does not begin a number ends the
      call, with 0; it is left in the stream, and all in front of it is gone. */
  lemma StopsInFrontOf(mode: LookaheadMode, ignore: char, junk: string, c: char, tail: seq<Arrival>)
    requires PassedOver(mode, junk) && !PassedOver(mode, [c]) && c != '-' && !('0' <= c <= '9')
    ensures Parse(mode, ignore, Bytes(junk) + ([Byte(c)] + tail)) == Found(Some(0), [Byte(c)] + tail)
  {
    SkipsJunk(mode, junk, [Byte(c)] + tail);
    assert mode != SkipAll by {
      assert [c][0] == c;
    }
  }

  /** The digits from the `i`-th on, and what follows them. */
  function DigitsFrom(digits: seq<nat>, i: nat, tail: seq<Arrival>): seq<Arrival>
    requires i <= |digits|
  {
    Bytes(Chars(digits, 'A')[i..]) + tail
  }

  lemma FirstOfDigits(digits: seq<nat>, i: nat, tail: seq<Arrival>)
    requires i < |digits|
    ensures var pending := DigitsFrom(digits, i, tail);
      && pending != [] && pending[0] == Byte(DigitChar(digits[i], 'A'))
      && pending[1..] == DigitsFrom(digits, i + 1, tail)
  {
    assert Chars(digits, 'A')[i..][1..] == Chars(digits, 'A')[i + 1..];
  }

  /** Taking the digits from the `i`-th on adds them to the value so far. */
  lemma {:induction false} TakesDigits(digits: seq<nat>, i: nat, negative: bool, ignore: char, tail: seq<Arrival>)
    requires i <= |digits| && forall k :: 0 <= k < |digits| ==> digits[k] < 10
    requires !IsDigit(ignore) && EndsNumber(tail, ignore)
    ensures Continue(negative, Value(digits[..i], 10), ignore, DigitsFrom(digits, i, tail))
         == Found(Some(Signed(negative, Value(digits, 10))), AfterPeek(tail))
    decreases |digits| - i
  {
    if i < |digits| {
      FirstOfDigits(digits, i, tail);
      ValueSnoc(digits, i);
      TakesDigits(digits, i + 1, negative, ignore, tail);
    } else {
      assert digits[..i] == digits && DigitsFrom(digits, i, tail) == tail;
    }
  }

  lemma ValueSnoc(digits: seq<nat>, i: nat)
    requires i < |digits|
    ensures Value(digits[..i + 1], 10) == Value(digits[..i], 10) * 10 + digits[i]
  {
    assert digits[..i + 1][..i] == digits[..i];
  }

  /** Its text, and what follows it, is a minus sign if need be and then the digits. */
  lemma TakesNumber(n: int, ignore: char, tail: seq<Arrival>, pending: seq<Arrival>)
    requires !IsDigit(ignore) && ignore != '-' && EndsNumber(tail, ignore)
    requires pending == Bytes(Print.Decimal(n)) + tail
    ensures Head(pending).Byte? && (Head(pending).c == '-' || IsDigit(Head(pending).c))
    ensures Accumulate(ignore, pending) == Found(Some(n), AfterPeek(tail))
  {
    var m: nat := if n < 0 then -n else n;
    var digits := Numeral(m, 10);
    NumeralDenotes(m, 10);
    TextOfNumber(n, m, digits, tail, pending);
    TakesText(n < 0, digits, ignore, tail, pending);
  }

  lemma TakesText(negative: bool, digits: seq<nat>, ignore: char, tail: seq<Arrival>, pending: seq<Arrival>)
    requires !IsDigit(ignore) && ignore != '-' && EndsNumber(tail, ignore)
    requires digits != [] && forall k :: 0 <= k < |digits| ==> digits[k] < 10
    requires if negative then pending != [] && pending[0] == Byte('-') && pending[1..] == DigitsFrom(digits, 0, tail)
             else pending == DigitsFrom(digits, 0, tail)
    ensures Head(pending).Byte? && (Head(pending).c == '-' || IsDigit(Head(pending).c))
    ensures Accumulate(ignore, pending) == Found(Some(Signed(negative, Value(digits, 10))), AfterPeek(tail))
  {
    assert digits[..0] == [] && Value([], 10) == 0;
    TakesDigits(digits, 0, negative, ignore, tail);
    FirstOfDigits(digits, 0, tail);
  }

  lemma TextOfNumber(n: int, m: nat, digits: seq<nat>, tail: seq<Arrival>, pending: seq<Arrival>)
    requires m == (if n < 0 then -n else n) && digits == Numeral(m, 10)
    requires pending == Bytes(Print.Decimal(n)) + tail
    ensures if n < 0 then pending != [] && pending[0] == Byte('-') && pending[1..] == DigitsFrom(digits, 0, tail)
            else pending == DigitsFrom(digits, 0, tail)
  {
    assert Chars(digits, 'A')[0..] == Text(m, 10, 'A');
  }

  /** What the loop takes notice of: not the ignored character, nor a timeout that reads
      as it. */
  predicate Noticed(a: Arrival, ignore: char) {
    if a.Byte? then a.c != ignore else ignore != NOTHING
  }

  function Without(p: seq<Arrival>, ignore: char): seq<Arrival> {
    if p == [] then []
    else (if Noticed(p[0], ignore) then [p[0]] else []) + Without(p[1..], ignore)
  }

  lemma {:induction false} WithoutNothing(s: string, ignore: char)
    requires ignore !in s
    ensures Without(Bytes(s), ignore) == Bytes(s)
    decreases |s|
  {
    if s != "" {
      WithoutNothing(s[1..], ignore);
      assert Bytes(s)[1..] == Bytes(s[1..]);
    }
  }

  /** Inside a number the ignored character might as well not be there. */
  lemma {:induction false} IgnoresAnywhere(negative: bool, value: int, ignore: char, p: seq<Arrival>, tail: seq<Arrival>)
    requires forall i :: 0 <= i < |p| && Noticed(p[i], ignore) ==> p[i].Byte? && IsDigit(p[i].c)
    ensures Continue(negative, value, ignore, p + tail) == Continue(negative, value, ignore, Without(p, ignore) + tail)
    decreases |p|
  {
    if p == [] {
      assert p + tail == tail;
    } else {
      var a, rest := p[0], p[1..];
      assert p == [a] + rest;
      FirstOf(a, rest, tail, p + tail);
      if Noticed(a, ignore) {
        IgnoresAnywhere(negative, value * 10 + (a.c as int - '0' as int), ignore, rest, tail);
        FirstOf(a, Without(rest, ignore), tail, Without(p, ignore) + tail);
      } else {
        IgnoresAnywhere(negative, value, ignore, rest, tail);
        assert Without(p, ignore) == Without(rest, ignore);
      }
    }
  }

  lemma FirstOf(a: Arrival, rest: seq<Arrival>, tail: seq<Arrival>, all: seq<Arrival>)
    requires all == ([a] + rest) + tail
    ensures all != [] && all[0] == a && all[1..] == rest + tail
  {
  }

  /** Print, then parse: the number comes back from behind whatever the mode passes over, with
      ignored characters anywhere behind its first character, and the stream stands right
      after it. */
  lemma ParseUndoesPrint(n: int, mode: LookaheadMode, junk: string, p: seq<Arrival>, ignore: char, tail: seq<Arrival>)
    requires PassedOver(mode, junk) && !('0' <= ignore <= '9') && ignore != '-' && EndsNumber(tail, ignore)
    requires p != [] && Noticed(p[0], ignore) && Without(p, ignore) == Bytes(Print.Decimal(n))
    ensures Parse(mode, ignore, Bytes(junk) + (p + tail)) == Found(Some(n), AfterPeek(tail))
  {
    TakesNumber(n, ignore, tail, Without(p, ignore) + tail);
    NumberIsDigits(n, p, ignore);
    AccumulatesAlike(p, ignore, tail);
    SkipsJunk(mode, junk, p + tail);
  }

  lemma AccumulatesAlike(p: seq<Arrival>, ignore: char, tail: seq<Arrival>)
    requires p != [] && Noticed(p[0], ignore) && p[0].Byte? && (p[0].c == '-' || IsDigit(p[0].c)) && ignore != '-'
    requires forall i :: 1 <= i < |p| && Noticed(p[i], ignore) ==> p[i].Byte? && IsDigit(p[i].c)
    ensures Head(p + tail) == Head(Without(p, ignore) + tail) == p[0]
    ensures Accumulate(ignore, p + tail) == Accumulate(ignore, Without(p, ignore) + tail)
  {
    var rest := p[1..];
    assert (p + tail)[1..] == rest + tail;
    assert Without(p, ignore) == [p[0]] + Without(rest, ignore);
    assert (Without(p, ignore) + tail)[1..] == Without(rest, ignore) + tail;
    if p[0].c == '-' {
      IgnoresAnywhere(true, 0, ignore, rest, tail);
    } else {
      IgnoresAnywhere(false, 0, ignore, p, tail);
    }
  }

  /** All that is noticed behind the first character is a digit, and that too unless it is
      the sign. */
  lemma NumberIsDigits(n: int, p: seq<Arrival>, ignore: char)
    requires p != [] && Noticed(p[0], ignore) && Without(p, ignore) == Bytes(Print.Decimal(n))
    ensures p[0].Byte? && (p[0].c == '-' || IsDigit(p[0].c))
    ensures forall i :: 1 <= i < |p| && Noticed(p[i], ignore) ==> p[i].Byte? && IsDigit(p[i].c)
  {
    var s := Print.Decimal(n);
    DecimalIsDigits(n);
    assert Without(p, ignore)[0] == p[0];
    forall i | 1 <= i < |p| && Noticed(p[i], ignore) ensures p[i].Byte? && IsDigit(p[i].c) {
      var k := NoticedIsKept(p, ignore, i);
      assert Without(p, ignore)[k] == Bytes(s)[k];
    }
  }

  lemma DecimalIsDigits(n: int)
    ensures var s := Print.Decimal(n);
      s != "" && (s[0] == '-' || IsDigit(s[0])) && forall i :: 1 <= i < |s| ==> IsDigit(s[i])
  {
    var m: nat := if n < 0 then -n else n;
    var digits := Text(m, 10, 'A');
    NumeralDenotes(m, 10);
    forall i | 0 <= i < |digits| ensures IsDigit(digits[i]) {
      assert digits[i] == DigitChar(Numeral(m, 10)[i], 'A');
    }
  }

  lemma {:induction false} NoticedIsKept(p: seq<Arrival>, ignore: char, i: nat) returns (k: nat)
    requires i < |p| && Noticed(p[i], ignore)
    ensures k < |Without(p, ignore)| && Without(p, ignore)[k] == p[i]
    ensures i > 0 && Noticed(p[0], ignore) ==> k > 0
    decreases i
  {
    if i == 0 {
      k := 0;
    } else {
      k := NoticedIsKept(p[1..], ignore, i - 1);
      if Noticed(p[0], ignore) {
        k := k + 1;
      }
    }
  }

  /** "1,234", when the comma is ignored. */
  lemma IgnoredComma(tail: seq<Arrival>)
    requires EndsNumber(tail, ',')
    ensures Parse(SkipNone, ',', Bytes("1,234") + tail) == Found(Some(1234), AfterPeek(tail))
  {
    var p := Bytes("1,234");
    Decimal1234();
    assert p[1..][1..] == Bytes("234");
    WithoutNothing("234", ',');
    assert Without(p[1..], ',') == Bytes("234");
    assert Without(p, ',') == Bytes("1234");
    ParseUndoesPrint(1234, SkipNone, "", p, ',', tail);
    assert Bytes("") + (p + tail) == p + tail;
  }

  lemma {:induction false} Decimal1234()
    ensures Print.Decimal(1234) == "1234"
  {
    assert Numeral(1234, 10) == Numeral(123, 10) + [4];
    assert Numeral(123, 10) == Numeral(12, 10) + [3];
    assert Numeral(12, 10) == [1] + [2];
    assert Numeral(1234, 10) == [1, 2, 3, 4];
  }
}
