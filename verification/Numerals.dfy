/** Positional numerals: what every number printer of the core must produce.

  `Numeral(n, base)` is the digit list of the reference implementation quoted
  in api/Print.cpp: divide, keep the remainder, repeat while anything is left.
  The lemmas say that it denotes `n`, that it has no leading zero, and that no
  other digit list does both.
 */
module Numerals {
  import opened Arith

  function Numeral(n: nat, base: nat): seq<nat>
    requires base >= 2
    decreases n
  {
    if n < base then [n]
    else
      DivSmaller(n, base);
      Numeral(n / base, base) + [n % base]
  }

  /** The number a digit list denotes, most significant digit first. */
  function Value(digits: seq<nat>, base: nat): nat {
    if digits == [] then 0 else Value(digits[..|digits| - 1], base) * base + digits[|digits| - 1]
  }

  /** Proper digits and no leading zero, except for zero itself. */
  predicate Canonical(digits: seq<nat>, base: nat) {
    && |digits| > 0
    && (forall i :: 0 <= i < |digits| ==> digits[i] < base)
    && (|digits| > 1 ==> digits[0] != 0)
  }

  lemma {:induction false} NumeralDenotes(n: nat, base: nat)
    requires base >= 2
    ensures Value(Numeral(n, base), base) == n
    ensures Canonical(Numeral(n, base), base)
    ensures n > 0 ==> Numeral(n, base)[0] != 0
    decreases n
  {
    var d := Numeral(n, base);
    if n < base {
      assert d[..0] == [];
      assert 0 * base == 0;
    } else {
      DivSmaller(n, base);
      DivMod(n, base);
      DivAtLeast(n, base, 1);
      NumeralDenotes(n / base, base);
      assert d[..|d| - 1] == Numeral(n / base, base);
    }
  }

  /** A digit list without a leading zero is determined by its value. */
  lemma {:induction false} NumeralIsUnique(digits: seq<nat>, base: nat)
    requires base >= 2 && Canonical(digits, base)
    ensures digits == Numeral(Value(digits, base), base)
    decreases |digits|
  {
    var last := |digits| - 1;
    var front := digits[..last];
    var v := Value(front, base);
    DivModUnique(v * base + digits[last], base, v, digits[last]);
    if front != [] {
      NumeralIsUnique(front, base);
      NonZeroValue(front, base);
      MulMono(1, v, base);
      assert digits == front + [digits[last]];
    } else {
      assert digits == [digits[0]] && v * base == 0;
    }
  }

  lemma {:induction false} NonZeroValue(digits: seq<nat>, base: nat)
    requires base >= 2 && |digits| > 0 && digits[0] != 0
    ensures Value(digits, base) > 0
    decreases |digits|
  {
    var front := digits[..|digits| - 1];
    if |digits| > 1 {
      NonZeroValue(front, base);
      MulMono(1, Value(front, base), base);
    } else {
      assert Value(front, base) * base == 0;
    }
  }

  /** The low `k` digits of `n`, inner and leading zeros included. */
  function Padded(n: nat, k: nat, base: nat): seq<nat>
    requires base >= 2
    decreases k
  {
    if k == 0 then [] else Padded(n / base, k - 1, base) + [n % base]
  }

  /** Splitting off `k` digits at once: the chunks of the fast printer. */
  lemma {:induction false} NumeralSplit(n: nat, k: nat, base: nat)
    requires base >= 2 && n >= Pow(base, k)
    ensures Pow(base, k) >= 1
    ensures Numeral(n, base) == Numeral(n / Pow(base, k), base) + Padded(n, k, base)
    decreases k
  {
    PowPositive(base, k);
    if k == 0 {
      assert Numeral(n, base) == Numeral(n, base) + [];
    } else {
      var p := Pow(base, k - 1);
      PowPositive(base, k - 1);
      SplitQuotient(n, base, p);
      NumeralSplit(n / base, k - 1, base);
      Associate(Numeral(n / base / p, base), Padded(n / base, k - 1, base), [n % base]);
    }
  }

  lemma SplitQuotient(n: nat, base: nat, p: nat)
    requires base >= 2 && p >= 1 && n >= base * p
    ensures n / base >= p && n / base / p == n / (base * p)
    ensures Numeral(n, base) == Numeral(n / base, base) + [n % base]
  {
    MulMono(1, p, base);
    assert p * base == base * p;
    DivAtLeast(n, base, p);
    DivDiv(n, base, p);
  }

  lemma Associate<T>(a: seq<T>, b: seq<T>, c: seq<T>)
    ensures (a + b) + c == a + (b + c)
  {
  }

  /** The low digits depend on the remainder only. */
  lemma {:induction false} PaddedOfRemainder(q: nat, r: nat, k: nat, base: nat)
    requires base >= 2 && r < Pow(base, k)
    ensures Padded(q * Pow(base, k) + r, k, base) == Padded(r, k, base)
    decreases k
  {
    if k > 0 {
      var p := Pow(base, k - 1);
      DivMod(r, base);
      var n, d, m := q * Pow(base, k) + r, r / base, r % base;
      Regroup(q, base, p, d);
      DivModUnique(n, base, q * p + d, m);
      assert p * base == base * p;
      MulCancelLess(d, p, base);
      PaddedOfRemainder(q, d, k - 1, base);
    }
  }

  lemma Regroup(q: nat, base: nat, p: nat, d: nat)
    ensures q * (base * p) + d * base == (q * p + d) * base
  {
    assert q * (base * p) == (q * p) * base;
  }

  /** A number below 2^k has at most k digits, whatever the base. */
  lemma {:induction false} NumeralLength(n: nat, base: nat, k: nat)
    requires base >= 2 && n < Pow(2, k)
    ensures |Numeral(n, base)| <= if k == 0 then 1 else k
    decreases k
  {
    if n >= base {
      var q := n / base;
      DivMod(n, base);
      DivAtLeast(n, base, 1);
      MulMono(2, base, q);
      assert Pow(2, 1) == 2 * Pow(2, 0);
      NumeralLength(q, base, k - 1);
    }
  }

  // ---- Characters -------------------------------------------------------------

  /** The character of a digit. Digits past 'Z' (bases above 36) wrap around
      the eight-bit character, as the C expression does. */
  function DigitChar(d: nat, letter: char): char {
    if d < 10 then ('0' as int + d) as char else ((letter as int + d - 10) % 256) as char
  }

  function Chars(digits: seq<nat>, letter: char): (s: string)
    ensures |s| == |digits| && forall i :: 0 <= i < |s| ==> s[i] == DigitChar(digits[i], letter)
  {
    seq(|digits|, i requires 0 <= i < |digits| => DigitChar(digits[i], letter))
  }

  /** What printing `n` must emit, with letters starting at `letter`. */
  function Text(n: nat, base: nat, letter: char): (s: string)
    requires base >= 2
    ensures |s| > 0
  {
    NumeralDenotes(n, base);
    Chars(Numeral(n, base), letter)
  }

  function Reverse<T>(s: seq<T>): (r: seq<T>)
    ensures |r| == |s| && forall i :: 0 <= i < |s| ==> r[i] == s[|s| - 1 - i]
  {
    if s == [] then [] else [s[|s| - 1]] + Reverse(s[..|s| - 1])
  }

  /** What a character stands for in a numeral, by the usual reading: '0' to '9', and the
      letters from ten on, capital or small; -1 for any other. */
  function DigitOf(c: char, small: bool): int {
    if '0' <= c <= '9' then c as int - '0' as int
    else if !small && 'A' <= c <= 'Z' then 10 + (c as int - 'A' as int)
    else if small && 'a' <= c <= 'z' then 10 + (c as int - 'a' as int)
    else -1
  }

  /** The number a text stands for, most significant digit first. */
  function ReadIn(s: string, base: nat, small: bool): int {
    if s == "" then 0 else ReadIn(s[..|s| - 1], base, small) * base + DigitOf(s[|s| - 1], small)
  }

  /** The text is a numeral of `n` in the base: its digits are of that base, it has no
      leading zero, and it reads as `n`. */
  ghost predicate Shows(s: string, n: int, base: nat, small: bool) {
    && s != "" && (forall i :: 0 <= i < |s| ==> 0 <= DigitOf(s[i], small) < base)
    && (|s| > 1 ==> s[0] != '0') && ReadIn(s, base, small) == n
  }

  lemma {:induction false} CharsRead(digits: seq<nat>, base: nat, small: bool)
    requires base <= 36 && forall i :: 0 <= i < |digits| ==> digits[i] < base
    ensures ReadIn(Chars(digits, if small then 'a' else 'A'), base, small) == Value(digits, base)
  {
    if digits != [] {
      var letter, n := if small then 'a' else 'A', |digits| - 1;
      CharsRead(digits[..n], base, small);
      assert Chars(digits, letter)[..n] == Chars(digits[..n], letter);
      CharRead(digits[n], small);
    }
  }

  lemma CharRead(d: nat, small: bool)
    requires d < 36
    ensures DigitOf(DigitChar(d, if small then 'a' else 'A'), small) == d
  {
  }

  /** The text of a number is its numeral in every base with a character for each digit. */
  lemma TextShows(n: nat, base: nat, small: bool)
    requires 2 <= base <= 36
    ensures Shows(Text(n, base, if small then 'a' else 'A'), n, base, small)
  {
    var digits, letter := Numeral(n, base), if small then 'a' else 'A';
    NumeralDenotes(n, base);
    CharsRead(digits, base, small);
    forall i | 0 <= i < |digits| ensures DigitOf(Chars(digits, letter)[i], small) == digits[i] {
      CharRead(digits[i], small);
    }
  }

  /** In the bases with a character for every digit, the text can be read back. */
  lemma TextDeterminesNumber(m: nat, n: nat, base: nat, letter: char)
    requires 2 <= base <= 36 && (letter == 'A' || letter == 'a')
    requires Text(m, base, letter) == Text(n, base, letter)
    ensures m == n
  {
    NumeralDenotes(m, base);
    NumeralDenotes(n, base);
    CharsInjective(Numeral(m, base), Numeral(n, base), letter);
  }

  lemma CharsInjective(a: seq<nat>, b: seq<nat>, letter: char)
    requires letter == 'A' || letter == 'a'
    requires forall i :: 0 <= i < |a| ==> a[i] < 36
    requires forall i :: 0 <= i < |b| ==> b[i] < 36
    requires Chars(a, letter) == Chars(b, letter)
    ensures a == b
  {
    assert |a| == |Chars(a, letter)| == |b|;
    forall i | 0 <= i < |a| ensures a[i] == b[i] {
      assert DigitChar(a[i], letter) == Chars(a, letter)[i] == DigitChar(b[i], letter);
    }
  }
}
