/** The number printers of api/Print.cpp and the converters of itoa.c.

  Three pieces of code turn a number into characters: the plain division loop
  (`printNumber`, and the reference quoted in a comment for 64-bit numbers),
  the fast 64-bit loop that peels off sixteen-bit chunks, and `itoa` and its
  relatives. Each is a method over its own character buffer here, and each is
  proved to emit exactly `Numerals.Text`.
 */
module Print {
  import opened Arith
  import opened Numerals

  const TWO_16 := 0x1_0000
  const TWO_31 := 0x8000_0000
  const TWO_32 := 0x1_0000_0000
  const TWO_64 := 0x1_0000_0000_0000_0000

  /** "Prevent crash if called with base == 1": anything below 2 means ten. */
  function EffectiveBase(base: nat): nat {
    if base < 2 then 10 else base
  }

  /** Digits are stored last first; storing one more puts it in front. */
  lemma ReverseSnoc(buf: seq<nat>, d: nat)
    ensures Reverse(buf + [d]) == [d] + Reverse(buf)
  {
    assert (buf + [d])[..|buf|] == buf;
  }

  /** What is left to print of `n`: nothing once it has reached zero. */
  function Remaining(n: nat, base: nat): seq<nat>
    requires base >= 2
  {
    if n == 0 then [] else Numeral(n, base)
  }

  lemma RemainingStep(n: nat, base: nat, done: seq<nat>)
    requires n > 0 && base >= 2
    ensures n / base < n
    ensures Remaining(n, base) + done == Remaining(n / base, base) + ([n % base] + done)
  {
    DivSmaller(n, base);
    DivMod(n, base);
    if n >= base {
      DivAtLeast(n, base, 1);
      assert Remaining(n, base) == Remaining(n / base, base) + [n % base];
    } else {
      DivModUnique(n, base, 0, n);
    }
  }

  lemma PaddedStep(a: seq<nat>, n: nat, k: nat, base: nat, done: seq<nat>)
    requires k > 0 && base >= 2
    ensures a + Padded(n, k, base) + done == a + Padded(n / base, k - 1, base) + ([n % base] + done)
  {
    var p := Padded(n / base, k - 1, base);
    assert Padded(n, k, base) == p + [n % base];
  }

  /** One chunk: a number above base^k is its quotient followed by `k` digits. */
  lemma ChunkStep(n: nat, k: nat, base: nat, done: seq<nat>)
    requires base >= 2 && n >= Pow(base, k)
    ensures Pow(base, k) >= 1 && n / Pow(base, k) >= 1
    ensures Numeral(n, base) + done
         == Numeral(n / Pow(base, k), base) + Padded(n % Pow(base, k), k, base) + done
  {
    var th := Pow(base, k);
    NumeralSplit(n, k, base);
    DivMod(n, th);
    DivAtLeast(n, th, 1);
    PaddedOfRemainder(n / th, n % th, k, base);
  }

  lemma PaddedLength(n: nat, k: nat, base: nat)
    requires base >= 2
    ensures |Padded(n, k, base)| == k
  {
  }

  /** A C string as `write(str)` sees it: up to its first NUL. */
  function CString(s: string): string {
    if s == "" || s[0] == '\0' then "" else [s[0]] + CString(s[1..])
  }

  lemma {:induction false} CStringIsWhole(s: string)
    ensures CString(s) == s <==> '\0' !in s
    ensures |CString(s)| <= |s|
  {
    if s != "" {
      assert s == [s[0]] + s[1..];
      if s[0] != '\0' {
        CStringIsWhole(s[1..]);
      }
    }
  }

  /** The character of the digit 201 is NUL, and no other digit's is: there the texts of
      the plain loop are cut off, and exactly there they are not what the fast form emits. */
  lemma CutExactly(n: nat, base: nat)
    requires 2 <= base < 256
    ensures CString(Text(n, base, 'A')) == Text(n, base, 'A') <==> 201 !in Numeral(n, base)
    ensures base <= 201 ==> CString(Text(n, base, 'A')) == Text(n, base, 'A')
  {
    NumeralDenotes(n, base);
    CStringIsWhole(Text(n, base, 'A'));
    NulDigit(Numeral(n, base), Text(n, base, 'A'));
  }

  lemma NulDigit(d: seq<nat>, t: string)
    requires t == Chars(d, 'A') && forall i :: 0 <= i < |d| ==> d[i] < 256
    ensures '\0' in t <==> 201 in d
  {
    forall i | 0 <= i < |d| ensures t[i] == '\0' <==> d[i] == 201 {
      assert t[i] == DigitChar(d[i], 'A');
    }
    if 201 in d {
      var i :| 0 <= i < |d| && d[i] == 201;
      assert t[i] == '\0';
    }
  }

  /** The first number that the reference and the fast form print differently. */
  lemma ReferenceIsCutOff()
    ensures CString(Text(201, 202, 'A')) == "" && |Text(201, 202, 'A')| == 1
  {
    assert Numeral(201, 202) == [201];
  }

  /** In bases 2 to 36 the text is the numeral of `n`, in capitals; base 0 and 1 are read as
      ten. */
  ghost predicate ShowsInBase(s: string, n: nat, base: nat) {
    && (2 <= base <= 36 ==> Shows(s, n, base, false))
    && (base < 2 ==> Shows(s, n, 10, false))
  }

  lemma TextInBase(n: nat, base: nat)
    ensures ShowsInBase(Text(n, EffectiveBase(base), 'A'), n, base)
  {
    if EffectiveBase(base) <= 36 {
      TextShows(n, EffectiveBase(base), false);
    }
  }

  /** What `print` of a signed number in a word of so many values is: a raw byte in base 0, a
      sign and the numeral in base ten alone, and in any other base, narrowed to eight bits,
      the numeral of the bit pattern. */
  ghost predicate ShowsSigned(s: string, n: int, base: int, modulus: nat)
    requires modulus > 0
  {
    if base == 0 then s == [(n % 256) as char]
    else if base == 10 && n < 0 then s != "" && s[0] == '-' && Shows(s[1..], -n, 10, false)
    else if base == 10 then Shows(s, n, 10, false)
    else ShowsInBase(s, n % modulus, base % 256)
  }

  class Printer {
    var output: string

    constructor ()
      ensures output == ""
    {
      output := "";
    }

    method Write(c: char)
      modifies this
      ensures output == old(output) + [c]
    {
      output := output + [c];
    }

    /** `write(str)`: the characters in front of the NUL. */
    method WriteChars(s: string) returns (n: nat)
      modifies this
      ensures output == old(output) + CString(s) && n == |CString(s)|
    {
      n := 0;
      assert s[0..] == s;
      while n < |s| && s[n] != '\0'
        invariant n <= |s| && CString(s) == s[..n] + CString(s[n..])
      {
        assert s[n..][1..] == s[n + 1..];
        n := n + 1;
      }
      assert CString(s[n..]) == "";
      output := output + s[..n];
    }

    /** `printNumber`. */
    method PrintNumber(n: nat, base: nat) returns (count: nat)
      requires n < TWO_32 && base < 256
      modifies this
      ensures output == old(output) + CString(Text(n, EffectiveBase(base), 'A'))
      ensures base <= 201 ==> output == old(output) + Text(n, EffectiveBase(base), 'A')
      ensures |old(output)| <= |output| && ShowsInBase(output[|old(output)|..], n, base)
      ensures count == |output| - |old(output)|
    {
      CutExactly(n, EffectiveBase(base));
      TextInBase(n, base);
      assert TWO_32 == Pow(2, 32) by { PowersOfTwo(); }
      var s := DivideLoop(n, EffectiveBase(base), 32, 'A');
      count := WriteChars(s);
    }

    /** The reference implementation for 64-bit numbers, quoted in the source. */
    method PrintULLReference(n: nat, base: nat) returns (count: nat)
      requires n < TWO_64 && base < 256
      modifies this
      ensures output == old(output) + CString(Text(n, EffectiveBase(base), 'A'))
      ensures base <= 201 ==> output == old(output) + Text(n, EffectiveBase(base), 'A')
      ensures |old(output)| <= |output| && ShowsInBase(output[|old(output)|..], n, base)
      ensures count == |output| - |old(output)|
    {
      CutExactly(n, EffectiveBase(base));
      TextInBase(n, base);
      assert TWO_64 == Pow(2, 64) by { PowersOfTwo(); }
      var s := DivideLoop(n, EffectiveBase(base), 64, 'A');
      count := WriteChars(s);
    }

    /** `printULLNumber`, the fast form. */
    method PrintULLNumber(n: nat, base: nat) returns (bytes: nat)
      requires n < TWO_64 && base < 256
      modifies this
      ensures output == old(output) + Text(n, EffectiveBase(base), 'A')
      ensures |old(output)| <= |output| && ShowsInBase(output[|old(output)|..], n, base)
      ensures bytes == |output| - |old(output)|
    {
      var buf := new nat[64](_ => 0);
      TextInBase(n, base);
      if n == 0 {
        Write('0');
        return 1;
      }
      bytes := FastDigits(buf, n, EffectiveBase(base));
      EmitBackwards(buf, bytes);
    }

    /** The final loop: the digits come out last first. */
    method EmitBackwards(buf: array<nat>, n: nat)
      requires n <= buf.Length
      modifies this
      ensures output == old(output) + Chars(Reverse(buf[..n]), 'A')
    {
      var i: nat := n;
      ghost var text := Chars(Reverse(buf[..n]), 'A');
      while i > 0
        invariant i <= n
        invariant output == old(output) + text[..n - i]
      {
        assert text[..n - i + 1] == text[..n - i] + [DigitChar(buf[i - 1], 'A')];
        Write(DigitChar(buf[i - 1], 'A'));
        i := i - 1;
      }
      assert text[..n] == text;
    }

    /** `print(long)`: base 0 is a raw byte, base ten alone is signed, and the
        base is narrowed to eight bits on the way down. */
    method PrintLong(n: int, base: int) returns (count: nat)
      requires -TWO_31 <= n < TWO_31
      modifies this
      ensures output == old(output) + LongText(n, base)
      ensures |old(output)| <= |output| && ShowsSigned(output[|old(output)|..], n, base, TWO_32)
      ensures count == |LongText(n, base)|
    {
      if base == 0 {
        Write((n % 256) as char);
        return 1;
      } else if base == 10 {
        DecimalShows(n);
        count := PrintSigned(n);
      } else {
        count := PrintNumber(n % TWO_32, base % 256);
      }
    }

    /** The negation is that of a machine word. */
    method PrintSigned(n: int) returns (count: nat)
      requires -TWO_31 <= n < TWO_31
      modifies this
      ensures output == old(output) + Decimal(n) && count == |Decimal(n)|
    {
      if n < 0 {
        DivModUnique(-n, TWO_32, 0, -n);
        count := PrintBehindSign((-n) % TWO_32);
      } else {
        count := PrintNumber(n, 10);
      }
    }

    method PrintBehindSign(n: nat) returns (count: nat)
      requires n < TWO_32
      modifies this
      ensures output == old(output) + ("-" + Text(n, 10, 'A')) && count == |"-" + Text(n, 10, 'A')|
    {
      Write('-');
      var m := PrintNumber(n, 10);
      Associate(old(output), "-", Text(n, 10, 'A'));
      count := m + 1;
    }

    /** `print(long long)`. */
    method PrintLongLong(n: int, base: int) returns (count: nat)
      requires -(TWO_64 / 2) <= n < TWO_64 / 2
      modifies this
      ensures output == old(output) + SignedText(n, base, TWO_64)
      ensures |old(output)| <= |output| && ShowsSigned(output[|old(output)|..], n, base, TWO_64)
      ensures count == |SignedText(n, base, TWO_64)|
    {
      if base == 0 {
        Write((n % 256) as char);
        return 1;
      } else if base == 10 {
        DecimalShows(n);
        count := PrintSignedLong(n);
      } else {
        count := PrintULLNumber(n % TWO_64, base % 256);
      }
    }

    method PrintSignedLong(n: int) returns (count: nat)
      requires -(TWO_64 / 2) <= n < TWO_64 / 2
      modifies this
      ensures output == old(output) + Decimal(n) && count == |Decimal(n)|
    {
      if n < 0 {
        count := PrintLongBehindSign((-n) % TWO_64);
      } else {
        count := PrintULLNumber(n, 10);
      }
    }

    method PrintLongBehindSign(n: nat) returns (count: nat)
      requires n < TWO_64
      modifies this
      ensures output == old(output) + ("-" + Text(n, 10, 'A')) && count == |"-" + Text(n, 10, 'A')|
    {
      Write('-');
      var m := PrintULLNumber(n, 10);
      Associate(old(output), "-", Text(n, 10, 'A'));
      count := m + 1;
    }
  }

  lemma DecimalShows(n: int)
    ensures var s := Decimal(n);
      if n < 0 then s != "" && s[0] == '-' && Shows(s[1..], -n, 10, false) else Shows(s, n, 10, false)
  {
    TextShows(if n < 0 then -n else n, 10, false);
    if n < 0 {
      assert Decimal(n)[1..] == Text(-n, 10, 'A');
    }
  }

  function SignedText(n: int, base: int, modulus: nat): string
    requires modulus > 0
  {
    if base == 0 then [(n % 256) as char]
    else if base == 10 then Decimal(n)
    else Text(n % modulus, EffectiveBase(base % 256), 'A')
  }

  /** In 32 bits, where the plain loop prints. */
  function LongText(n: int, base: int): string {
    if base == 0 || base == 10 then SignedText(n, base, TWO_32) else CString(SignedText(n, base, TWO_32))
  }

  /** A signed decimal. */
  function Decimal(n: int): string {
    if n < 0 then "-" + Text(-n, 10, 'A') else Text(n, 10, 'A')
  }

  lemma PowersOfTwo()
    ensures Pow(2, 32) == TWO_32 && Pow(2, 64) == TWO_64
  {
    assert Pow(2, 8) == 0x100;
    assert Pow(2, 16) == 0x1_0000;
    assert Pow(2, 24) == 0x100_0000;
    assert Pow(2, 32) == 0x1_0000_0000;
    assert Pow(2, 40) == 0x100_0000_0000;
    assert Pow(2, 48) == 0x1_0000_0000_0000;
    assert Pow(2, 56) == 0x100_0000_0000_0000;
  }

  /** `*--str = c`, in a buffer filled from its end. */
  method StoreBefore(buf: array<char>, str: nat, bits: nat, c: char)
    requires 0 < str <= bits < buf.Length
    modifies buf
    ensures buf[str - 1..bits] == [c] + old(buf[str..bits])
  {
    buf[str - 1] := c;
  }

  /** The plain loop of `printNumber`, of the quoted reference and of
      `utoa_common`: divide until nothing is left, filling a buffer of `bits`
      characters from its end. Every store is inside the buffer. */
  method DivideLoop(n0: nat, base: nat, bits: nat, letter: char) returns (s: string)
    requires base >= 2 && bits >= 1 && n0 < Pow(2, bits)
    ensures s == Text(n0, base, letter)
  {
    var buf := new char[bits + 1](_ => '\0');
    var str: nat, n: nat := bits, n0;
    ghost var done: seq<nat> := [];
    NumeralLength(n0, base, bits);
    var more := true;
    while more
      invariant str <= bits && str == bits - |done|
      invariant Numeral(n0, base) == (if more then Numeral(n, base) else []) + done
      invariant buf[str..bits] == Chars(done, letter)
      decreases more, n
    {
      NumeralStep(n, base, done);
      var c := n % base;
      n := n / base;
      CharsCons(c, done, letter);
      StoreBefore(buf, str, bits, DigitChar(c, letter));
      str := str - 1;
      done := [c] + done;
      more := n != 0;
    }
    assert Numeral(n0, base) == done;
    s := buf[str..bits];
  }

  lemma CharsCons(c: nat, done: seq<nat>, letter: char)
    ensures Chars([c] + done, letter) == [DigitChar(c, letter)] + Chars(done, letter)
  {
  }

  lemma NumeralStep(n: nat, base: nat, done: seq<nat>)
    requires base >= 2
    ensures n > 0 ==> n / base < n
    ensures Numeral(n, base) + done == Remaining(n / base, base) + ([n % base] + done)
    ensures |Numeral(n, base)| >= 1
  {
    if n == 0 {
      DivModUnique(0, base, 0, 0);
    } else {
      RemainingStep(n, base, done);
    }
  }

  /** The chunk size: a power of the base, at least the base, that still fits
      the sixteen-bit register at every step of the loop. */
  method LargestPower(base: nat) returns (th16: nat, innerLoops: nat)
    requires 2 <= base < 256
    ensures th16 == Pow(base, innerLoops) && innerLoops >= 1
    ensures base <= th16 < TWO_16 <= (th16 + 1) * base
  {
    var top := 0xFFFF / base;
    DivMod(0xFFFF, base);
    DivAtLeast(0xFFFF, base, 257);
    th16, innerLoops := 1, 0;
    while th16 < top
      invariant th16 == Pow(base, innerLoops)
      invariant innerLoops == 0 ==> th16 == 1
      invariant innerLoops >= 1 ==> th16 >= base
      invariant 1 <= th16 < TWO_16
      decreases TWO_16 - th16
    {
      MulMono(th16, top, base);
      MulMono(1, th16, base);
      MulMono(2, base, th16);
      assert th16 * base < TWO_16;
      th16 := (th16 * base) % TWO_16;
      innerLoops := innerLoops + 1;
    }
    MulMono(top + 1, th16 + 1, base);
    assert (top + 1) * base == top * base + base;
  }

  /** The two loops of the fast form: sixteen-bit chunks while the number is
      larger than a chunk, then its last sixteen bits. `buf` is filled with
      digits in reverse, never beyond its 64 entries. */
  method FastDigits(buf: array<nat>, n0: nat, base: nat) returns (i: nat)
    requires 2 <= base < 256 && 0 < n0 < TWO_64 && buf.Length == 64
    modifies buf
    ensures i <= 64 && Reverse(buf[..i]) == Numeral(n0, base)
  {
    var th16, innerLoops := LargestPower(base);
    assert TWO_64 == Pow(2, 64) by { PowersOfTwo(); }
    NumeralLength(n0, base, 64);
    var n64: nat := n0;
    i := 0;
    ghost var all := Numeral(n0, base);
    assert all == Numeral(n64, base) + Reverse(buf[..0]);
    while n64 > th16
      invariant n64 > 0 && i <= 64
      invariant all == Numeral(n64, base) + Reverse(buf[..i])
      decreases n64
    {
      DivSmaller(n64, th16);
      n64, i := NextChunk(buf, i, n64, th16, innerLoops, base, all);
    }
    i := WriteLast(buf, i, n64 % TWO_16, base, all);
  }

  /** The body of the 64-bit loop: one division, one chunk of digits. */
  method NextChunk(buf: array<nat>, i0: nat, n64: nat, th16: nat, innerLoops: nat, base: nat, ghost all: seq<nat>)
    returns (q: nat, i: nat)
    requires base >= 2 && th16 == Pow(base, innerLoops) && 0 < th16 < TWO_16 && n64 > th16
    requires i0 <= buf.Length && |all| <= buf.Length && all == Numeral(n64, base) + Reverse(buf[..i0])
    modifies buf
    ensures q == n64 / th16 && q > 0 && i <= buf.Length
    ensures all == Numeral(q, base) + Reverse(buf[..i])
  {
    q := n64 / th16;
    var r := n64 - q * th16;
    DivMod(n64, th16);
    ChunkStep(n64, innerLoops, base, Reverse(buf[..i0]));
    i := WriteChunk(buf, i0, r % TWO_16, base, innerLoops, all, Numeral(q, base));
  }

  /** The sixteen-bit loop over one remainder: exactly `innerLoops` digits. */
  method WriteChunk(buf: array<nat>, i0: nat, r0: nat, base: nat, innerLoops: nat,
                    ghost all: seq<nat>, ghost front: seq<nat>)
    returns (i: nat)
    requires base >= 2 && i0 <= buf.Length && |all| <= buf.Length
    requires all == front + Padded(r0, innerLoops, base) + Reverse(buf[..i0])
    modifies buf
    ensures i == i0 + innerLoops <= buf.Length
    ensures all == front + Reverse(buf[..i])
  {
    i := i0;
    var r: nat := r0;
    for j := 0 to innerLoops
      invariant i == i0 + j <= buf.Length
      invariant all == front + Padded(r, innerLoops - j, base) + Reverse(buf[..i])
    {
      var qq := r / base;
      PaddedStep(front, r, innerLoops - j, base, Reverse(buf[..i]));
      PaddedLength(r, innerLoops - j, base);
      DivMod(r, base);
      ReverseSnoc(buf[..i], r % base);
      buf[i] := r - qq * base;
      assert buf[..i + 1] == buf[..i] + [r % base];
      i := i + 1;
      r := qq;
    }
    assert front + Padded(r, 0, base) == front;
  }

  /** The last sixteen bits, without leading zeros. */
  method WriteLast(buf: array<nat>, i0: nat, n0: nat, base: nat, ghost all: seq<nat>) returns (i: nat)
    requires base >= 2 && i0 <= buf.Length && |all| <= buf.Length
    requires all == Remaining(n0, base) + Reverse(buf[..i0])
    modifies buf
    ensures i <= buf.Length && all == Reverse(buf[..i])
  {
    i := i0;
    var n16: nat := n0;
    while n16 > 0
      invariant i <= buf.Length
      invariant all == Remaining(n16, base) + Reverse(buf[..i])
    {
      var qq := n16 / base;
      RemainingStep(n16, base, Reverse(buf[..i]));
      DivMod(n16, base);
      ReverseSnoc(buf[..i], n16 % base);
      buf[i] := n16 - qq * base;
      assert buf[..i + 1] == buf[..i] + [n16 % base];
      i := i + 1;
      n16 := qq;
    }
  }

  // ---- itoa.c -------------------------------------------------------------------

  /** What `ltoa` leaves in the caller's string. */
  function LtoaText(value: int, radix: int): string
    requires -TWO_31 <= value < TWO_31
  {
    if radix < 2 || radix > 36 then ""
    else if radix == 10 && value < 0 then "-" + Text(-value, 10, 'a')
    else Text(value % TWO_32, radix, 'a')
  }

  /** In every radix from 2 to 36 that is the numeral, in small letters: of the number itself
      behind its sign in base ten, and of its bit pattern elsewhere. */
  lemma {:induction false} LtoaShows(value: int, radix: int)
    requires -TWO_31 <= value < TWO_31 && 2 <= radix <= 36 && (radix == 10 ==> value >= 0)
    ensures Shows(LtoaText(value, radix), if radix == 10 then value else value % TWO_32, radix, true)
  {
    TextShows(value % TWO_32, radix, true);
    if radix == 10 {
      DivModUnique(value, TWO_32, 0, value);
    }
  }

  lemma {:induction false} LtoaShowsNegative(value: int)
    requires -TWO_31 <= value < 0
    ensures var s := LtoaText(value, 10); s != "" && s[0] == '-' && Shows(s[1..], -value, 10, true)
  {
    TextShows(-value, 10, true);
    SignInFront(LtoaText(value, 10), Text(-value, 10, 'a'));
  }

  lemma SignInFront(s: string, digits: string)
    requires s == "-" + digits
    ensures s != "" && s[0] == '-' && s[1..] == digits
  {
  }

  /** `utoa_common`: fill a local buffer from its end, then copy it out with its
      terminator. Nothing past the terminator is touched. */
  method UtoaCommon(value: nat, dest: array<char>, at: nat, radix: nat)
    requires value < TWO_32 && 2 <= radix <= 36
    requires at + |Text(value, radix, 'a')| < dest.Length
    modifies dest
    ensures var t := Text(value, radix, 'a');
      && dest[..] == old(dest[..])[..at] + t + ['\0'] + old(dest[..])[at + |t| + 1..]
      && Shows(t, value, radix, true)
  {
    TextShows(value, radix, true);
    assert TWO_32 == Pow(2, 32) by { PowersOfTwo(); }
    var p := DivideLoop(value, radix, 32, 'a');
    CopyOut(p, dest, at);
  }

  /** The copy that ends `utoa_common`, up to and with the terminator. */
  method CopyOut(p: string, dest: array<char>, at: nat)
    requires at + |p| < dest.Length
    modifies dest
    ensures dest[..] == old(dest[..])[..at] + p + ['\0'] + old(dest[..])[at + |p| + 1..]
  {
    for out := 0 to |p|
      invariant dest[..at] == old(dest[..at]) && dest[at..at + out] == p[..out]
      invariant dest[at + out..] == old(dest[at + out..])
    {
      dest[at + out] := p[out];
    }
    dest[at + |p|] := '\0';
  }

  /** `ltoa_common`. The most negative number is negated as an unsigned one. */
  method LtoaCommon(value: int, dest: array<char>, radix: int)
    requires -TWO_31 <= value < TWO_31
    requires |LtoaText(value, radix)| < dest.Length
    modifies dest
    ensures var t := LtoaText(value, radix);
      dest[..] == t + ['\0'] + old(dest[..])[|t| + 1..]
    ensures radix < 2 || radix > 36 ==> dest[0] == '\0'
  {
    ghost var was := dest[..];
    if radix < 2 || radix > 36 {
      dest[0] := '\0';
      assert dest[..] == was[0 := '\0'];
      FromTheStart(was, "");
      return;
    }
    if radix == 10 && value < 0 {
      LtoaNegative(value, dest);
      return;
    }
    FromTheStart(was, Text(value % TWO_32, radix, 'a'));
    UtoaCommon(value % TWO_32, dest, 0, radix);
  }

  lemma FromTheStart(was: seq<char>, t: string)
    requires |t| < |was|
    ensures was[..0] + t + ['\0'] + was[0 + |t| + 1..] == t + ['\0'] + was[|t| + 1..]
    ensures t == "" ==> was[0 := '\0'] == t + ['\0'] + was[|t| + 1..]
  {
  }

  /** A negative decimal: the sign, and the number negated in 32 bits. */
  method LtoaNegative(value: int, dest: array<char>)
    requires -TWO_31 <= value < 0 && |Text(-value, 10, 'a')| + 1 < dest.Length
    modifies dest
    ensures var t := "-" + Text(-value, 10, 'a');
      dest[..] == t + ['\0'] + old(dest[..])[|t| + 1..]
  {
    ghost var was := dest[..];
    dest[0] := '-';
    assert dest[..] == was[0 := '-'];
    NegatedUnsigned(value);
    UtoaCommon((-(value % TWO_32)) % TWO_32, dest, 1, 10);
    AfterSign(was, was[0 := '-'], Text(-value, 10, 'a'));
  }

  lemma NegatedUnsigned(value: int)
    requires -TWO_31 <= value < 0
    ensures (-(value % TWO_32)) % TWO_32 == -value
  {
  }

  lemma AfterSign(was: seq<char>, signed: seq<char>, t: string)
    requires |t| + 1 < |was| && signed == was[0 := '-']
    ensures signed[..1] + t + ['\0'] + signed[|t| + 2..] == ("-" + t) + ['\0'] + was[|t| + 2..]
  {
    assert signed[..1] == "-";
  }
}
