/** The text forms of IP addresses: what api/IPAddress.cpp writes and reads.

  Pure definitions and the round-trip theorems; `IPAddress.dfy` holds the class
  whose in-place methods compute them.
 */
module IPText {
  import opened Arith
  import opened Numerals

  type byte = b: int | 0 <= b < 256

  datatype Option<+T> = None | Some(value: T)

  // ---- Fields ---------------------------------------------------------------------

  function Word(hi: byte, lo: byte): (w: nat)
    ensures w <= 0xFFFF && w / 256 == hi && w % 256 == lo
  {
    var h: int := hi;
    h * 256 + lo
  }

  /** The eight sixteen-bit fields of a sixteen-byte address. */
  function Fields(bytes: seq<byte>): (fs: seq<nat>)
    requires |bytes| == 16
    ensures |fs| == 8 && forall f :: 0 <= f < 8 ==> fs[f] == Word(bytes[2 * f], bytes[2 * f + 1])
  {
    seq(8, f requires 0 <= f < 8 => Word(bytes[2 * f], bytes[2 * f + 1]))
  }

  function Unpack(fields: seq<nat>): (bytes: seq<byte>)
    ensures |bytes| == 2 * |fields|
  {
    if fields == [] then []
    else [(fields[0] / 256) % 256, fields[0] % 256] + Unpack(fields[1..])
  }

  lemma {:induction false} UnpackAt(fields: seq<nat>, f: nat)
    requires f < |fields|
    ensures Unpack(fields)[2 * f] == (fields[f] / 256) % 256
    ensures Unpack(fields)[2 * f + 1] == fields[f] % 256
    decreases |fields|
  {
    if f > 0 {
      UnpackAt(fields[1..], f - 1);
    }
  }

  lemma UnpackFields(bytes: seq<byte>)
    requires |bytes| == 16
    ensures Unpack(Fields(bytes)) == bytes
  {
    var fs := Fields(bytes);
    forall i | 0 <= i < 16 ensures Unpack(fs)[i] == bytes[i] {
      UnpackAt(fs, i / 2);
      assert fs[i / 2] == Word(bytes[2 * (i / 2)], bytes[2 * (i / 2) + 1]);
    }
  }

  lemma {:induction false} UnpackConcat(a: seq<nat>, b: seq<nat>)
    ensures Unpack(a + b) == Unpack(a) + Unpack(b)
    decreases |a|
  {
    if a == [] {
      assert a + b == b;
    } else {
      assert (a + b)[1..] == a[1..] + b;
      UnpackConcat(a[1..], b);
    }
  }

  function Zeros(n: nat): (z: seq<nat>)
    ensures |z| == n && forall i :: 0 <= i < n ==> z[i] == 0
  {
    seq(n, _ => 0)
  }

  // ---- Writing ----------------------------------------------------------------------

  predicate ZeroRun(fields: seq<nat>, a: int, b: int) {
    0 <= a < b <= |fields| && forall i :: a <= i < b ==> fields[i] == 0
  }

  /** The run to compress (RFC 5952, sections 4.2.2 and 4.2.3): the leftmost of
      the longest runs of two or more zero fields, (-1, 1) when there is none. */
  ghost predicate IsCompressed(fields: seq<nat>, start: int, length: int) {
    && (forall a, b :: ZeroRun(fields, a, b) && b - a >= 2 ==> b - a <= length && (b - a == length ==> start <= a))
    && ((start == -1 && length == 1) || (length >= 2 && ZeroRun(fields, start, start + length)))
  }

  lemma CompressedIsUnique(fields: seq<nat>, s: int, l: int, s': int, l': int)
    requires IsCompressed(fields, s, l) && IsCompressed(fields, s', l')
    ensures s == s' && l == l'
  {
    if s >= 0 { assert ZeroRun(fields, s, s + l); }
    if s' >= 0 { assert ZeroRun(fields, s', s' + l'); }
  }

  /** The compressed run is maximal: the field in front of it is not zero. */
  lemma CompressedIsMaximal(fields: seq<nat>, start: int, length: int)
    requires IsCompressed(fields, start, length) && start > 0
    ensures fields[start - 1] != 0
  {
    if fields[start - 1] == 0 {
      assert ZeroRun(fields, start - 1, start + length);
    }
  }

  function Hex(digits: seq<nat>): string { Chars(digits, 'a') }

  /** Each item followed by a colon. */
  function Colons(items: seq<seq<nat>>): string {
    if items == [] then "" else Hex(items[0]) + ":" + Colons(items[1..])
  }

  /** The items with colons between them. */
  function Join(items: seq<seq<nat>>): string {
    if items == [] then "" else Colons(items[..|items| - 1]) + Hex(items[|items| - 1])
  }

  lemma {:induction false} ColonsSnoc(items: seq<seq<nat>>, d: seq<nat>)
    ensures Colons(items + [d]) == Colons(items) + Hex(d) + ":"
    decreases |items|
  {
    if items == [] {
      assert (items + [d])[1..] == [];
      assert Hex(d) + ":" + "" == "" + Hex(d) + ":";
    } else {
      assert (items + [d])[1..] == items[1..] + [d];
      ColonsSnoc(items[1..], d);
      var h, t, e := Hex(items[0]) + ":", Colons(items[1..]), Hex(d) + ":";
      assert t + Hex(d) + ":" == t + e;
      assert Colons(items) + Hex(d) + ":" == (h + t) + e;
      assert h + (t + e) == (h + t) + e;
    }
  }

  /** Minimal hexadecimal for each field: no leading zeros, lower case. */
  function Minimal(fields: seq<nat>): (items: seq<seq<nat>>)
    ensures |items| == |fields| && forall i :: 0 <= i < |items| ==> items[i] == Numeral(fields[i], 16)
  {
    seq(|fields|, i requires 0 <= i < |fields| => Numeral(fields[i], 16))
  }

  /** The canonical text of RFC 5952, for a given run to compress. */
  function CanonicalText(fields: seq<nat>, start: int, length: int): string
    requires start >= 0 ==> length >= 0 && start + length <= |fields|
  {
    var items := Minimal(fields);
    if start < 0 then Join(items) else Join(items[..start]) + "::" + Join(items[start + length..])
  }

  /** The uncompressed form: four hexadecimal digits for every field. */
  function Full(bytes: seq<byte>): string
    requires |bytes| == 16
  {
    Join(Padded4(bytes))
  }

  function Padded4(bytes: seq<byte>): (items: seq<seq<nat>>)
    requires |bytes| == 16
    ensures |items| == 8
    ensures forall f :: 0 <= f < 8 ==> items[f] == Padded(bytes[2 * f], 2, 16) + Padded(bytes[2 * f + 1], 2, 16)
  {
    seq(8, f requires 0 <= f < 8 => Padded(bytes[2 * f], 2, 16) + Padded(bytes[2 * f + 1], 2, 16))
  }

  /** Dotted decimal. */
  function Dotted(octets: seq<byte>): string
    requires |octets| == 4
  {
    Decimal(octets[0]) + "." + (Decimal(octets[1]) + "." + (Decimal(octets[2]) + "." + Decimal(octets[3])))
  }

  function Decimal(b: byte): string { Chars(Numeral(b, 10), 'A') }

  // ---- What the texts look like ---------------------------------------------------------

  /** Between separators, no number has a leading zero: a '0' at the start or behind a
      separator is the whole number. */
  ghost predicate Unpadded(s: string, separator: char) {
    forall i :: 0 <= i < |s| ==> Alone(s, i, separator)
  }

  predicate Alone(s: string, i: nat, separator: char)
    requires i < |s|
  {
    s[i] == '0' && (i == 0 || s[i - 1] == separator) ==> i + 1 == |s| || s[i + 1] == separator
  }

  /** Digits and lower-case letters of hexadecimal, and separators. */
  ghost predicate Lowercase(s: string, separator: char) {
    forall i :: 0 <= i < |s| ==> '0' <= s[i] <= '9' || 'a' <= s[i] <= 'f' || s[i] == separator
  }

  ghost predicate Plain(s: string, separator: char) {
    Unpadded(s, separator) && Lowercase(s, separator)
  }

  /** The text of one number: not empty, and "0" if it starts with that. */
  ghost predicate IsPiece(s: string, separator: char) {
    s != "" && separator !in s && (s[0] == '0' ==> |s| == 1) && Lowercase(s, separator)
  }

  lemma OnePiece(s: string, separator: char)
    requires IsPiece(s, separator)
    ensures Plain(s, separator)
  {
  }

  lemma PieceInFront(piece: string, separator: char, rest: string)
    requires IsPiece(piece, separator) && separator != '0' && Plain(rest, separator)
    ensures Plain(piece + ([separator] + rest), separator)
  {
    var s, n := piece + ([separator] + rest), |piece|;
    SeparatorInFront(separator, rest);
    var tail := [separator] + rest;
    assert forall k :: 0 <= k < n ==> s[k] == piece[k];
    forall i | 0 <= i < |s| ensures Alone(s, i, separator) {
      if i >= n {
        assert Alone(tail, i - n, separator) && s[i] == tail[i - n];
        assert i > n ==> s[i - 1] == tail[i - 1 - n];
        assert i + 1 < |s| ==> s[i + 1] == tail[i + 1 - n];
      }
    }
  }

  lemma SeparatorInFront(separator: char, rest: string)
    requires separator != '0' && Plain(rest, separator)
    ensures Plain([separator] + rest, separator)
  {
    var s := [separator] + rest;
    forall i | 0 <= i < |s| ensures Alone(s, i, separator) {
      if i > 0 {
        assert Alone(rest, i - 1, separator) && s[i] == rest[i - 1];
        assert i > 1 ==> s[i - 1] == rest[i - 2];
        assert i + 1 < |s| ==> s[i + 1] == rest[i];
      }
    }
  }

  /** A numeral in base ten or sixteen is such a text. */
  lemma NumeralIsPiece(n: nat, base: nat, letter: char, separator: char)
    requires (base == 10 || (base == 16 && letter == 'a')) && (separator == '.' || separator == ':')
    ensures IsPiece(Chars(Numeral(n, base), letter), separator)
  {
    NumeralDenotes(n, base);
    DigitsArePiece(Numeral(n, base), letter, separator);
  }

  lemma DigitsArePiece(d: seq<nat>, letter: char, separator: char)
    requires d != [] && (|d| > 1 ==> d[0] != 0) && (separator == '.' || separator == ':')
    requires forall i :: 0 <= i < |d| ==> d[i] < 10 || (d[i] < 16 && letter == 'a')
    ensures IsPiece(Chars(d, letter), separator)
  {
    var s := Chars(d, letter);
    forall i | 0 <= i < |s| ensures '0' <= s[i] <= '9' || 'a' <= s[i] <= 'f' {
      assert s[i] == DigitChar(d[i], letter);
    }
    assert s[0] == DigitChar(d[0], letter);
  }

  lemma DottedIsPlain(octets: seq<byte>)
    requires |octets| == 4
    ensures Plain(Dotted(octets), '.')
  {
    var a, b, c, d := Decimal(octets[0]), Decimal(octets[1]), Decimal(octets[2]), Decimal(octets[3]);
    NumeralIsPiece(octets[0], 10, 'A', '.');
    NumeralIsPiece(octets[1], 10, 'A', '.');
    NumeralIsPiece(octets[2], 10, 'A', '.');
    NumeralIsPiece(octets[3], 10, 'A', '.');
    OnePiece(d, '.');
    PieceInFront(c, '.', d);
    PieceInFront(b, '.', c + ("." + d));
    PieceInFront(a, '.', b + ("." + (c + ("." + d))));
    DotsRegrouped(a, b, c, d);
  }

  lemma DotsRegrouped(a: string, b: string, c: string, d: string)
    ensures a + ("." + (b + ("." + (c + ("." + d))))) == a + "." + (b + "." + (c + "." + d))
  {
    var e, f := c + "." + d, b + "." + (c + "." + d);
    assert c + ("." + d) == e;
    assert b + ("." + e) == f;
  }

  lemma {:induction false} ColonsInFront(items: seq<seq<nat>>, rest: string)
    requires Plain(rest, ':') && forall i :: 0 <= i < |items| ==> IsPiece(Hex(items[i]), ':')
    ensures Plain(Colons(items) + rest, ':')
  {
    if items == [] {
      assert "" + rest == rest;
    } else {
      ColonsInFront(items[1..], rest);
      PieceInFront(Hex(items[0]), ':', Colons(items[1..]) + rest);
      assert Colons(items) + rest == Hex(items[0]) + (":" + (Colons(items[1..]) + rest));
    }
  }

  lemma JoinInFront(items: seq<seq<nat>>, rest: string)
    requires rest == "" || (rest[0] == ':' && Plain(rest[1..], ':'))
    requires forall i :: 0 <= i < |items| ==> IsPiece(Hex(items[i]), ':')
    ensures Plain(Join(items) + rest, ':')
  {
    if rest != "" {
      SeparatorInFront(':', rest[1..]);
      assert rest == ":" + rest[1..];
    }
    if items == [] {
      assert "" + rest == rest;
    } else {
      var n := |items| - 1;
      var last := Hex(items[n]);
      if rest == "" {
        OnePiece(last, ':');
        assert last + rest == last;
      } else {
        PieceInFront(last, ':', rest[1..]);
      }
      ColonsInFront(items[..n], last + rest);
      assert Join(items) + rest == Colons(items[..n]) + (last + rest);
    }
  }

  /** The canonical text has no leading zeros and no capitals (RFC 5952, sections 4.1
      and 4.3). */
  lemma CanonicalIsPlain(fields: seq<nat>, start: int, length: int)
    requires start >= 0 ==> length >= 0 && start + length <= |fields|
    ensures Plain(CanonicalText(fields, start, length), ':')
  {
    var items := Minimal(fields);
    FieldsArePieces(fields, items);
    if start < 0 {
      JoinInFront(items, "");
      assert Join(items) + "" == Join(items);
    } else {
      DoubleIsPlain(items[..start], items[start + length..]);
    }
  }

  lemma FieldsArePieces(fields: seq<nat>, items: seq<seq<nat>>)
    requires items == Minimal(fields)
    ensures forall i :: 0 <= i < |items| ==> IsPiece(Hex(items[i]), ':')
  {
    forall i | 0 <= i < |items| ensures IsPiece(Hex(items[i]), ':') {
      NumeralIsPiece(fields[i], 16, 'a', ':');
    }
  }

  lemma DoubleIsPlain(front: seq<seq<nat>>, back: seq<seq<nat>>)
    requires forall i :: 0 <= i < |front| ==> IsPiece(Hex(front[i]), ':')
    requires forall i :: 0 <= i < |back| ==> IsPiece(Hex(back[i]), ':')
    ensures Plain(Join(front) + "::" + Join(back), ':')
  {
    var last, rest := Join(back), "::" + Join(back);
    JoinInFront(back, "");
    assert last + "" == last;
    SeparatorInFront(':', last);
    assert rest[1..] == ":" + last;
    JoinInFront(front, rest);
    assert Join(front) + "::" + last == Join(front) + rest;
  }

  // ---- Reading IPv6 -------------------------------------------------------------------

  /** A C string ends at its first NUL. */
  predicate Ends(s: string) { s == "" || s[0] == '\0' }

  function ToLower(c: char): char {
    if 'A' <= c <= 'Z' then (c as int + 32) as char else c
  }

  /** `isalnum(c) && c <= 'f'`, for a lower-cased character. */
  predicate IsHexChar(c: char) { '0' <= c <= '9' || 'a' <= c <= 'f' }

  function HexValue(c: char): nat
    requires IsHexChar(c)
  {
    if c >= 'a' then c as int - 'a' as int + 10 else c as int - '0' as int
  }

  /** The parser's variables: accumulator, fields stored, place of the double
      colon (-1 for none) and the address bytes written so far. */
  datatype Scan = Scan(acc: nat, colons: nat, double: int, bytes: seq<byte>) {
    predicate Ok() {
      acc <= 0xFFFF && colons <= 7 && -1 <= double <= colons && |bytes| == 16
    }

    function Store(): Scan
      requires Ok()
    {
      Scan(0, colons + 1, double, bytes[2 * colons := acc / 256][2 * colons + 1 := acc % 256])
    }
  }

  /** One turn of the loop of `fromString6`: the text left and the variables
      after it, or None for rejection. */
  function Step6(s: string, st: Scan): (r: Option<(string, Scan)>)
    requires !Ends(s) && st.Ok()
    ensures r.Some? ==> |r.value.0| < |s| && r.value.1.Ok()
  {
    var c := ToLower(s[0]);
    if IsHexChar(c) then
      var acc := st.acc * 16 + HexValue(c);
      if acc > 0xFFFF then None else Some((s[1..], st.(acc := acc)))
    else if c == ':' then
      var doubled := !Ends(s[1..]) && s[1] == ':';
      if doubled && (st.double >= 0 || (!Ends(s[2..]) && s[2] == ':')) then None
      else if !doubled && Ends(s[1..]) then None
      else if st.colons == 7 then None
      else if doubled then Some((s[2..], st.Store().(double := st.colons + (if st.acc != 0 then 1 else 0))))
      else Some((s[1..], st.Store()))
    else None
  }

  /** `fromString6` up to the end of the string. */
  function Scan6(s: string, st: Scan): (r: Option<Scan>)
    requires st.Ok()
    ensures r.Some? ==> r.value.Ok()
    decreases |s|
  {
    if Ends(s) then Some(st)
    else
      var next := Step6(s, st);
      if next.None? then None else Scan6(next.value.0, next.value.1)
  }

  /** The bytes that are stored when a text is given up. */
  function Left6(s: string, st: Scan): (b: seq<byte>)
    requires st.Ok()
    ensures |b| == 16
    decreases |s|
  {
    if Ends(s) || Step6(s, st).None? then st.bytes
    else
      var next := Step6(s, st);
      Left6(next.value.0, next.value.1)
  }

  /** The end of `fromString6`: the last field, and room for the zeros. */
  function Finish6(st: Scan): Option<seq<byte>>
    requires st.Ok()
  {
    if st.double == -1 && st.colons != 7 then None
    else if st.double > -1 && st.colons > 6 then None
    else
      var last := st.Store();
      if st.double == -1 then Some(last.bytes) else Some(Expand(last.bytes, last.colons, st.double))
  }

  /** Fields [double, colons) move to the end and zeros fill the gap. */
  function Expand(bytes: seq<byte>, colons: nat, double: nat): (r: seq<byte>)
    requires |bytes| == 16 && double <= colons <= 8
    ensures |r| == 16
  {
    bytes[..2 * double] + seq(16 - 2 * colons, _ => 0) + bytes[2 * double..2 * colons]
  }

  function Start(bytes: seq<byte>): Scan { Scan(0, 0, -1, bytes) }

  function Parse6(s: string, bytes: seq<byte>): Option<seq<byte>>
    requires |bytes| == 16
  {
    var r := Scan6(s, Start(bytes));
    if r.None? then None else Finish6(r.value)
  }

  // ---- Reading IPv4 -------------------------------------------------------------------

  datatype Scan4State = Scan4State(acc: int, dots: nat, octets: seq<byte>) {
    predicate Ok() { -1 <= acc <= 255 && dots <= 3 && |octets| == 4 }
  }

  function Scan4(s: string, st: Scan4State): (r: Option<Scan4State>)
    requires st.Ok()
    ensures r.Some? ==> r.value.Ok()
    decreases |s|
  {
    if Ends(s) then Some(st)
    else
      var c := s[0];
      if '0' <= c <= '9' then
        var d := c as int - '0' as int;
        var acc := if st.acc < 0 then d else st.acc * 10 + d;
        if acc > 255 then None else Scan4(s[1..], st.(acc := acc))
      else if c == '.' then
        if st.dots == 3 || st.acc < 0 then None
        else Scan4(s[1..], Scan4State(-1, st.dots + 1, st.octets[st.dots := st.acc]))
      else None
  }

  /** The octets that are stored when a text has been read or given up. */
  function Left4(s: string, st: Scan4State): (o: seq<byte>)
    requires st.Ok()
    ensures |o| == 4
    decreases |s|
  {
    if Ends(s) then st.octets
    else
      var c := s[0];
      if '0' <= c <= '9' then
        var d := c as int - '0' as int;
        var acc := if st.acc < 0 then d else st.acc * 10 + d;
        if acc > 255 then st.octets else Left4(s[1..], st.(acc := acc))
      else if c == '.' then
        if st.dots == 3 || st.acc < 0 then st.octets
        else Left4(s[1..], Scan4State(-1, st.dots + 1, st.octets[st.dots := st.acc]))
      else st.octets
  }

  function Parse4(s: string): Option<seq<byte>> {
    var r := Scan4(s, Scan4State(-1, 0, [0, 0, 0, 0]));
    if r.None? || r.value.dots != 3 || r.value.acc < 0 then None
    else Some(r.value.octets[3 := r.value.acc])
  }

  /** No text with a colon is an IPv4 address. */
  lemma {:induction false} Scan4RejectsColon(s: string, st: Scan4State, i: nat)
    requires st.Ok() && i < |s| && s[i] == ':' && forall k :: 0 <= k < i ==> s[k] != '\0'
    ensures Scan4(s, st).None?
    decreases |s|
  {
    if i > 0 {
      var c := s[0];
      if '0' <= c <= '9' {
        var acc := if st.acc < 0 then c as int - '0' as int else st.acc * 10 + (c as int - '0' as int);
        if acc <= 255 {
          Scan4RejectsColon(s[1..], st.(acc := acc), i - 1);
        }
      } else if c == '.' && st.dots < 3 && st.acc >= 0 {
        Scan4RejectsColon(s[1..], Scan4State(-1, st.dots + 1, st.octets[st.dots := st.acc]), i - 1);
      }
    }
  }

  /** Reading decimal digits multiplies them into the accumulator. */
  lemma {:induction false} Scan4Digits(digits: seq<nat>, i: nat, more: string, st: Scan4State)
    requires st.Ok() && i <= |digits| && (forall k :: 0 <= k < |digits| ==> digits[k] < 10)
    requires Value(digits, 10) <= 255
    requires st.acc == if i == 0 then -1 else Value(digits[..i], 10)
    ensures Scan4(Chars(digits, 'A')[i..] + more, st)
         == if digits == [] then Scan4(more, st) else Scan4(more, st.(acc := Value(digits, 10)))
    decreases |digits| - i
  {
    var s := Chars(digits, 'A')[i..] + more;
    if i == |digits| {
      assert s == more;
      assert digits[..i] == digits;
    } else {
      assert s[0] == DigitChar(digits[i], 'A');
      assert s[1..] == Chars(digits, 'A')[i + 1..] + more;
      ValuePrefix(digits, i, 10);
      assert digits[..0] == [];
      ValueMonotone(digits, i + 1, 10);
      Scan4Digits(digits, i + 1, more, st.(acc := Value(digits[..i + 1], 10)));
    }
  }

  lemma ValuePrefix(digits: seq<nat>, i: nat, base: nat)
    requires i < |digits|
    ensures Value(digits[..i + 1], base) == Value(digits[..i], base) * base + digits[i]
  {
    assert digits[..i + 1][..i] == digits[..i];
  }

  lemma ValueGrows(digits: seq<nat>, i: nat, base: nat)
    requires base >= 1 && i < |digits|
    ensures Value(digits[..i], base) <= Value(digits[..i + 1], base)
  {
    ValuePrefix(digits, i, base);
    MulMono(1, base, Value(digits[..i], base));
  }

  lemma {:induction false} ValueMonotone(digits: seq<nat>, i: nat, base: nat)
    requires base >= 1 && i <= |digits|
    ensures Value(digits[..i], base) <= Value(digits, base)
    decreases |digits| - i
  {
    if i == |digits| {
      assert digits[..i] == digits;
    } else {
      ValueGrows(digits, i, base);
      ValueMonotone(digits, i + 1, base);
    }
  }

  lemma Scan4Octet(b: byte, more: string, st: Scan4State)
    requires st.Ok() && st.acc == -1 && st.dots < 3
    ensures Scan4(Decimal(b) + "." + more, st)
         == Scan4(more, Scan4State(-1, st.dots + 1, st.octets[st.dots := b]))
  {
    NumeralDenotes(b, 10);
    var s := "." + more;
    assert Decimal(b) + "." + more == Chars(Numeral(b, 10), 'A')[0..] + s;
    Scan4Digits(Numeral(b, 10), 0, s, st);
    assert s[1..] == more;
  }

  /** The last octet ends the text. */
  lemma Scan4Last(b: byte, st: Scan4State)
    requires st.Ok() && st.acc == -1 && st.dots == 3
    ensures Scan4(Decimal(b), st) == Scan4("", st.(acc := b))
  {
    NumeralDenotes(b, 10);
    Scan4Digits(Numeral(b, 10), 0, "", st);
    assert Chars(Numeral(b, 10), 'A')[0..] + "" == Decimal(b);
  }

  /** Every IPv4 address is read back from its dotted form. */
  lemma DottedRoundTrip(octets: seq<byte>)
    requires |octets| == 4
    ensures Parse4(Dotted(octets)) == Some(octets)
  {
    var s3 := Decimal(octets[3]);
    var s2 := Decimal(octets[2]) + "." + s3;
    var s1 := Decimal(octets[1]) + "." + s2;
    var o: seq<byte> := [0, 0, 0, 0];
    var o1 := o[0 := octets[0]];
    var o2 := o1[1 := octets[1]];
    var o3 := o2[2 := octets[2]];
    Scan4Octet(octets[0], s1, Scan4State(-1, 0, o));
    Scan4Octet(octets[1], s2, Scan4State(-1, 1, o1));
    Scan4Octet(octets[2], s3, Scan4State(-1, 2, o2));
    Scan4Last(octets[3], Scan4State(-1, 3, o3));
    assert o3[3 := octets[3]] == octets;
  }

  // ---- Capitals -----------------------------------------------------------------------------

  function ToUpper(c: char): (r: char)
    ensures r != c <==> 'a' <= c <= 'z'
  {
    if 'a' <= c <= 'z' then (c as int - 32) as char else c
  }

  /** The text with its letters in upper case. */
  function Capitals(s: string): (t: string)
    ensures |t| == |s| && forall i :: 0 <= i < |s| ==> t[i] == ToUpper(s[i])
  {
    seq(|s|, i requires 0 <= i < |s| => ToUpper(s[i]))
  }

  lemma CapitalsFrom(s: string, i: nat)
    requires i <= |s|
    ensures Capitals(s)[i..] == Capitals(s[i..])
  {
  }

  /** A letter reads the same in both cases. */
  lemma {:induction false} StepIgnoresCase(s: string, st: Scan)
    requires !Ends(s) && st.Ok()
    ensures !Ends(Capitals(s)) && var r, t := Step6(s, st), Step6(Capitals(s), st);
      if r.None? then t.None? else t == Some((Capitals(r.value.0), r.value.1))
  {
    CapitalsFrom(s, 1);
    if |s| > 1 {
      CapitalsFrom(s, 2);
    }
    assert ToLower(ToUpper(s[0])) == ToLower(s[0]);
  }

  lemma {:induction false} Scan6IgnoresCase(s: string, st: Scan)
    requires st.Ok()
    ensures Scan6(Capitals(s), st) == Scan6(s, st)
    decreases |s|
  {
    if !Ends(s) {
      StepIgnoresCase(s, st);
      var next := Step6(s, st);
      if next.Some? {
        Scan6IgnoresCase(next.value.0, next.value.1);
      }
    }
  }

  lemma {:induction false} Scan4IgnoresCase(s: string, st: Scan4State)
    requires st.Ok()
    ensures Scan4(Capitals(s), st) == Scan4(s, st)
    decreases |s|
  {
    if !Ends(s) {
      CapitalsFrom(s, 1);
      var c := s[0];
      if '0' <= c <= '9' {
        var d := c as int - '0' as int;
        var acc := if st.acc < 0 then d else st.acc * 10 + d;
        if acc <= 255 {
          Scan4IgnoresCase(s[1..], st.(acc := acc));
        }
      } else if c == '.' && st.dots < 3 && st.acc >= 0 {
        Scan4IgnoresCase(s[1..], Scan4State(-1, st.dots + 1, st.octets[st.dots := st.acc]));
      }
    }
  }

  // ---- The IPv6 round trip --------------------------------------------------------------

  /** A field as a digit list: hexadecimal digits with a sixteen-bit value. */
  predicate IsItem(d: seq<nat>) {
    |d| > 0 && (forall i :: 0 <= i < |d| ==> d[i] < 16) && Value(d, 16) <= 0xFFFF
  }

  predicate AreItems(items: seq<seq<nat>>) {
    forall i :: 0 <= i < |items| ==> IsItem(items[i])
  }

  function Values(items: seq<seq<nat>>): (vs: seq<nat>)
    ensures |vs| == |items| && forall i :: 0 <= i < |vs| ==> vs[i] == Value(items[i], 16)
  {
    seq(|items|, i requires 0 <= i < |items| => Value(items[i], 16))
  }

  lemma HexDigitIsRead(d: nat)
    requires d < 16
    ensures var c := ToLower(DigitChar(d, 'a'));
      c == DigitChar(d, 'a') && IsHexChar(c) && HexValue(c) == d && c != ':' && c != '\0'
  {
  }

  /** One hexadecimal digit is read. */
  lemma Step6Digit(d: nat, rest: string, st: Scan)
    requires st.Ok() && d < 16 && st.acc * 16 + d <= 0xFFFF
    ensures var s := [DigitChar(d, 'a')] + rest;
      !Ends(s) && Step6(s, st) == Some((rest, st.(acc := st.acc * 16 + d)))
  {
    HexDigitIsRead(d);
    assert ([DigitChar(d, 'a')] + rest)[1..] == rest;
  }

  lemma {:induction false} Scan6Digit(d: nat, rest: string, st: Scan)
    requires st.Ok() && d < 16 && st.acc * 16 + d <= 0xFFFF
    ensures Scan6([DigitChar(d, 'a')] + rest, st) == Scan6(rest, st.(acc := st.acc * 16 + d))
  {
    Step6Digit(d, rest, st);
  }

  /** The `i`-th digit is read, and then the others. */
  lemma {:induction false} Scan6From(digits: seq<nat>, i: nat, more: string, st: Scan)
    requires st.Ok() && i < |digits| && digits[i] < 16 && st.acc * 16 + digits[i] <= 0xFFFF
    ensures Scan6(Hex(digits)[i..] + more, st) == Scan6(Hex(digits)[i + 1..] + more, st.(acc := st.acc * 16 + digits[i]))
  {
    var text, rest := Hex(digits)[i..] + more, Hex(digits)[i + 1..] + more;
    HexFrom(digits, i, more);
    assert text == [DigitChar(digits[i], 'a')] + rest;
    Scan6Digit(digits[i], rest, st);
  }

  lemma {:induction false} HexFrom(digits: seq<nat>, i: nat, more: string)
    requires i < |digits|
    ensures Hex(digits)[i..] + more == [DigitChar(digits[i], 'a')] + (Hex(digits)[i + 1..] + more)
  {
  }

  lemma PrefixValue(digits: seq<nat>, i: nat, base: nat)
    requires base >= 1 && i < |digits|
    ensures Value(digits[..i + 1], base) == Value(digits[..i], base) * base + digits[i] <= Value(digits, base)
  {
    ValuePrefix(digits, i, base);
    ValueMonotone(digits, i + 1, base);
  }

  lemma {:induction false} Scan6Digits(digits: seq<nat>, i: nat, more: string, st: Scan)
    requires st.Ok() && i <= |digits| && (forall k :: 0 <= k < |digits| ==> digits[k] < 16)
    requires Value(digits, 16) <= 0xFFFF && st.acc == Value(digits[..i], 16)
    ensures Scan6(Hex(digits)[i..] + more, st) == Scan6(more, st.(acc := Value(digits, 16)))
    decreases |digits| - i
  {
    if i == |digits| {
      assert Hex(digits)[i..] + more == more && digits[..i] == digits;
    } else {
      PrefixValue(digits, i, 16);
      Scan6From(digits, i, more, st);
      Scan6Digits(digits, i + 1, more, st.(acc := Value(digits[..i + 1], 16)));
    }
  }

  lemma Scan6Item(d: seq<nat>, more: string, st: Scan)
    requires IsItem(d) && st.Ok() && st.acc == 0
    ensures Scan6(Hex(d) + more, st) == Scan6(more, st.(acc := Value(d, 16)))
  {
    assert d[..0] == [];
    assert Hex(d)[0..] + more == Hex(d) + more;
    Scan6Digits(d, 0, more, st);
  }

  /** The bytes with `fields` stored from field `k` on. */
  function Put(bytes: seq<byte>, k: nat, fields: seq<nat>): (r: seq<byte>)
    requires |bytes| == 16 && k + |fields| <= 8
    ensures |r| == 16
  {
    bytes[..2 * k] + Unpack(fields) + bytes[2 * (k + |fields|)..]
  }

  lemma PutCons(bytes: seq<byte>, k: nat, v: nat, vs: seq<nat>)
    requires |bytes| == 16 && k + 1 + |vs| <= 8 && v <= 0xFFFF
    ensures Put(bytes[2 * k := v / 256][2 * k + 1 := v % 256], k + 1, vs) == Put(bytes, k, [v] + vs)
  {
    var b := bytes[2 * k := v / 256][2 * k + 1 := v % 256];
    assert ([v] + vs)[1..] == vs;
    assert b[..2 * (k + 1)] == bytes[..2 * k] + [v / 256, v % 256];
    assert b[2 * (k + 1 + |vs|)..] == bytes[2 * (k + 1 + |vs|)..];
  }

  lemma PutAll(bytes: seq<byte>, fields: seq<nat>)
    requires |bytes| == 16 && |fields| == 8
    ensures Put(bytes, 0, fields) == Unpack(fields)
  {
  }

  /** Text that goes on with a digit. */
  predicate GoesOn(s: string) { s != "" && IsHexChar(s[0]) }

  lemma Scan6Colon(more: string, st: Scan)
    requires st.Ok() && st.colons < 7 && GoesOn(more)
    ensures Scan6(":" + more, st) == Scan6(more, st.Store())
  {
    assert (":" + more)[1..] == more;
  }

  lemma Scan6ItemColon(d: seq<nat>, more: string, st: Scan)
    requires IsItem(d) && st.Ok() && st.acc == 0 && st.colons < 7 && GoesOn(more)
    ensures Scan6(Hex(d) + (":" + more), st) == Scan6(more, st.(acc := Value(d, 16)).Store())
    ensures GoesOn(Hex(d) + (":" + more))
  {
    Scan6Item(d, ":" + more, st);
    Scan6Colon(more, st.(acc := Value(d, 16)));
    HexDigitIsRead(d[0]);
  }

  /** The parser after storing `fields`. */
  function Stored(st: Scan, fields: seq<nat>): (r: Scan)
    requires st.Ok() && st.colons + |fields| <= 7
    ensures r.Ok() && r.colons == st.colons + |fields|
  {
    Scan(0, st.colons + |fields|, st.double, Put(st.bytes, st.colons, fields))
  }

  lemma StoredCons(st: Scan, v: nat, vs: seq<nat>)
    requires st.Ok() && st.colons + 1 + |vs| <= 7 && v <= 0xFFFF
    ensures Stored(st.(acc := v).Store(), vs) == Stored(st, [v] + vs)
  {
    PutCons(st.bytes, st.colons, v, vs);
  }

  lemma ColonsAppend(items: seq<seq<nat>>, more: string)
    requires items != []
    ensures Colons(items) + more == Hex(items[0]) + (":" + (Colons(items[1..]) + more))
  {
  }

  /** Fields in front of colons are stored one after the other. */
  lemma {:induction false} Scan6Colons(items: seq<seq<nat>>, more: string, st: Scan)
    requires AreItems(items) && st.Ok() && st.acc == 0 && st.colons + |items| <= 7 && GoesOn(more)
    ensures Scan6(Colons(items) + more, st) == Scan6(more, Stored(st, Values(items)))
    ensures GoesOn(Colons(items) + more)
    decreases |items|
  {
    if items == [] {
      assert Colons(items) + more == more;
      assert Put(st.bytes, st.colons, Values(items)) == st.bytes;
    } else {
      var rest, v := Colons(items[1..]) + more, Value(items[0], 16);
      assert IsItem(items[0]);
      Scan6Colons(items[1..], more, st.(acc := v).Store());
      Scan6ItemColon(items[0], rest, st);
      StoredCons(st, v, Values(items[1..]));
      assert Values(items) == [v] + Values(items[1..]);
      ColonsAppend(items, more);
    }
  }

  lemma Scan6End(d: seq<nat>, st: Scan)
    requires IsItem(d) && st.Ok() && st.acc == 0
    ensures Scan6(Hex(d), st) == Some(st.(acc := Value(d, 16)))
    ensures GoesOn(Hex(d))
  {
    Scan6Item(d, "", st);
    assert Hex(d) + "" == Hex(d);
    HexDigitIsRead(d[0]);
  }

  /** A whole list of fields: all but the last are stored, the last is in the
      accumulator when the string ends. */
  lemma Scan6Join(items: seq<seq<nat>>, st: Scan)
    requires AreItems(items) && |items| > 0
    requires st.Ok() && st.acc == 0 && st.colons + |items| <= 8
    ensures var n := |items| - 1;
      Scan6(Join(items), st) == Some(Stored(st, Values(items[..n])).(acc := Value(items[n], 16)))
    ensures GoesOn(Join(items))
  {
    var n := |items| - 1;
    Scan6End(items[n], Stored(st, Values(items[..n])));
    Scan6Colons(items[..n], Hex(items[n]), st);
  }

  /** Storing the last field completes the list. */
  lemma PutLast(bytes: seq<byte>, k: nat, vs: seq<nat>)
    requires |bytes| == 16 && |vs| > 0 && k + |vs| <= 8 && forall i :: 0 <= i < |vs| ==> vs[i] <= 0xFFFF
    ensures var n := |vs| - 1;
      Put(bytes, k, vs[..n])[2 * (k + n) := vs[n] / 256][2 * (k + n) + 1 := vs[n] % 256] == Put(bytes, k, vs)
  {
    var n := |vs| - 1;
    UnpackConcat(vs[..n], [vs[n]]);
    assert vs[..n] + [vs[n]] == vs;
    assert Unpack([vs[n]]) == [vs[n] / 256, vs[n] % 256];
  }

  lemma StoreLast(st: Scan, vs: seq<nat>)
    requires st.Ok() && |vs| > 0 && st.colons + |vs| <= 8 && forall i :: 0 <= i < |vs| ==> vs[i] <= 0xFFFF
    ensures var n := |vs| - 1;
      Stored(st, vs[..n]).(acc := vs[n]).Store()
      == Scan(0, st.colons + |vs|, st.double, Put(st.bytes, st.colons, vs))
  {
    PutLast(st.bytes, st.colons, vs);
  }

  lemma ValuesSlice(items: seq<seq<nat>>, n: nat)
    requires n <= |items|
    ensures Values(items)[..n] == Values(items[..n]) && Values(items)[n..] == Values(items[n..])
  {
  }

  /** Eight fields with colons between them are read back as they are. */
  lemma JoinRoundTrip(items: seq<seq<nat>>, bytes: seq<byte>)
    requires AreItems(items) && |items| == 8 && |bytes| == 16
    ensures Parse6(Join(items), bytes) == Some(Unpack(Values(items)))
  {
    Scan6Join(items, Start(bytes));
    ValuesSlice(items, 7);
    StoreLast(Start(bytes), Values(items));
    PutAll(bytes, Values(items));
  }

  /** Moving the fields behind the double colon puts zeros in front of them. */
  lemma ExpandPut(bytes: seq<byte>, k: nat, vs: seq<nat>, head: seq<nat>)
    requires |bytes| == 16 && 1 <= k && k + |vs| <= 7 && |head| <= k
    requires bytes[..2 * |head|] == Unpack(head)
    requires bytes[2 * |head|..2 * k] == Unpack(Zeros(k - |head|))
    ensures Expand(Put(bytes, k, vs), k + |vs|, |head|)
         == Unpack(head + Zeros(8 - k - |vs|) + (Zeros(k - |head|) + vs))
  {
    PutParts(bytes, k, vs, 2 * |head|);
    UnpackGap(head, 8 - k - |vs|, Zeros(k - |head|), vs);
  }

  /** The bytes of four stretches of fields, one after the other. */
  lemma UnpackGap(head: seq<nat>, gap: nat, zeros: seq<nat>, vs: seq<nat>)
    ensures Unpack(head + Zeros(gap) + (zeros + vs))
         == Unpack(head) + seq<byte>(2 * gap, _ => 0) + (Unpack(zeros) + Unpack(vs))
  {
    UnpackConcat(head + Zeros(gap), zeros + vs);
    UnpackConcat(head, Zeros(gap));
    UnpackConcat(zeros, vs);
    UnpackZeros(gap);
    assert seq<byte>(2 * gap, _ => 0) == Unpack(Zeros(gap));
  }

  lemma PutParts(bytes: seq<byte>, k: nat, vs: seq<nat>, h: nat)
    requires |bytes| == 16 && k + |vs| <= 8 && h <= 2 * k
    ensures Put(bytes, k, vs)[..h] == bytes[..h]
    ensures Put(bytes, k, vs)[h..2 * (k + |vs|)] == bytes[h..2 * k] + Unpack(vs)
  {
    Spliced(bytes, 2 * k, Unpack(vs), 2 * (k + |vs|), h);
  }

  lemma PutFront(bytes: seq<byte>, vs: seq<nat>)
    requires |bytes| == 16 && |vs| <= 8
    ensures var b, n := Put(bytes, 0, vs), 2 * |vs|;
      b[..n] == Unpack(vs) && b[n..n] == Unpack(Zeros(0))
  {
    PutParts(bytes, 0, vs, 0);
  }

  lemma Spliced<T>(a: seq<T>, i: nat, mid: seq<T>, j: nat, h: nat)
    requires h <= i && i + |mid| == j <= |a|
    ensures var r := a[..i] + mid + a[j..]; r[..h] == a[..h] && r[h..j] == a[h..i] + mid
  {
  }

  lemma UnpackZeros(n: nat)
    ensures Unpack(Zeros(n)) == seq(2 * n, _ => 0)
  {
    forall i | 0 <= i < 2 * n ensures Unpack(Zeros(n))[i] == 0 {
      UnpackAt(Zeros(n), i / 2);
    }
  }

  /** What the tail contributes: an empty one still stores a zero field. */
  function TailValues(tail: seq<seq<nat>>): seq<nat> {
    if tail == [] then [0] else Values(tail)
  }

  lemma {:induction false} Scan6Tail(tail: seq<seq<nat>>, st: Scan)
    requires AreItems(tail) && st.Ok() && st.acc == 0 && st.colons + |TailValues(tail)| <= 8
    ensures var vs := TailValues(tail); var n := |vs| - 1;
      && (forall i :: 0 <= i < |vs| ==> vs[i] <= 0xFFFF)
      && Scan6(Join(tail), st) == Some(Stored(st, vs[..n]).(acc := vs[n]))
    ensures tail == [] || GoesOn(Join(tail))
  {
    if tail == [] {
      assert Put(st.bytes, st.colons, [0][..0]) == st.bytes;
    } else {
      Scan6Join(tail, st);
      ValuesSlice(tail, |tail| - 1);
    }
  }

  /** Eight fields: `head`, then zeros, then `tail`. */
  function Refill(head: seq<nat>, tail: seq<nat>): (fields: seq<nat>)
    requires |head| + |tail| <= 8
    ensures |fields| == 8
  {
    head + Zeros(8 - |head| - |tail|) + tail
  }

  /** Where the zeros go when `tail` follows the double colon. */
  lemma GapOfZeros(head: seq<nat>, tail: seq<seq<nat>>, k: nat)
    requires |head| + |tail| <= 6 && k == if head == [] then 1 else |head|
    ensures var vs := TailValues(tail);
      && k + |vs| <= 7
      && head + Zeros(8 - k - |vs|) + (Zeros(k - |head|) + vs)
         == Refill(head, Values(tail))
  {
  }

  /** After a double colon: whatever follows it is read and the zeros are put in
      front of it. `head` is what was stored before it. */
  lemma TailRoundTrip(tail: seq<seq<nat>>, st: Scan, head: seq<nat>)
    requires AreItems(tail) && st.Ok() && st.acc == 0 && st.double == |head|
    requires |head| + |tail| <= 6 && st.colons == if head == [] then 1 else |head|
    requires st.bytes[..2 * |head|] == Unpack(head)
    requires st.bytes[2 * |head|..2 * st.colons] == Unpack(Zeros(st.colons - |head|))
    ensures var r := Scan6(Join(tail), st);
      r.Some? && Finish6(r.value) == Some(Unpack(Refill(head, Values(tail))))
    ensures tail == [] || GoesOn(Join(tail))
  {
    GapOfZeros(head, tail, st.colons);
    Scan6Tail(tail, st);
    FinishTail(st, TailValues(tail), head, Refill(head, Values(tail)));
  }

  lemma FinishTail(st: Scan, vs: seq<nat>, head: seq<nat>, fields: seq<nat>)
    requires st.Ok() && st.acc == 0 && st.double == |head| && 1 <= st.colons && st.colons + |vs| <= 7
    requires |vs| > 0 && (forall i :: 0 <= i < |vs| ==> vs[i] <= 0xFFFF) && |head| <= st.colons
    requires st.bytes[..2 * |head|] == Unpack(head)
    requires st.bytes[2 * |head|..2 * st.colons] == Unpack(Zeros(st.colons - |head|))
    requires head + Zeros(8 - st.colons - |vs|) + (Zeros(st.colons - |head|) + vs) == fields
    ensures var n := |vs| - 1; Finish6(Stored(st, vs[..n]).(acc := vs[n])) == Some(Unpack(fields))
  {
    StoreLast(st, vs);
    ExpandPut(st.bytes, st.colons, vs, head);
  }

  lemma Scan6DoubleColon(more: string, st: Scan)
    requires st.Ok() && st.colons < 7 && st.double == -1 && (more == "" || GoesOn(more))
    ensures Scan6("::" + more, st)
         == Scan6(more, st.Store().(double := st.colons + (if st.acc != 0 then 1 else 0)))
  {
    var s := "::" + more;
    assert s[1..] == ":" + more;
    assert s[2..] == more;
  }

  /** A leading double colon. */
  lemma LeadingRoundTrip(tail: seq<seq<nat>>, bytes: seq<byte>)
    requires AreItems(tail) && |tail| <= 6 && |bytes| == 16
    ensures Parse6("::" + Join(tail), bytes) == Some(Unpack(Refill([], Values(tail))))
  {
    var st := Start(bytes);
    var next := st.Store().(double := 0);
    UnpackZeros(1);
    TailRoundTrip(tail, next, []);
    Scan6DoubleColon(Join(tail), st);
  }

  /** Fields and then a double colon: where the parser stands after it. */
  lemma Scan6Head(head: seq<seq<nat>>, more: string, bytes: seq<byte>)
    requires AreItems(head) && 1 <= |head| <= 6 && |bytes| == 16 && (more == "" || GoesOn(more))
    requires Value(head[|head| - 1], 16) != 0
    ensures Scan6(Join(head) + ("::" + more), Start(bytes))
         == Scan6(more, Scan(0, |head|, |head|, Put(bytes, 0, Values(head))))
  {
    var n, st := |head| - 1, Start(bytes);
    var mid := Stored(st, Values(head[..n]));
    var v := Value(head[n], 16);
    ValuesSlice(head, n);
    StoreLast(st, Values(head));
    assert IsItem(head[n]);
    HexDigitIsRead(head[n][0]);
    Scan6Colons(head[..n], Hex(head[n]) + ("::" + more), st);
    Scan6Item(head[n], "::" + more, mid);
    Scan6DoubleColon(more, mid.(acc := v));
    assert Join(head) + ("::" + more) == Colons(head[..n]) + (Hex(head[n]) + ("::" + more));
  }

  /** Fields, a double colon, fields. */
  lemma InnerRoundTrip(head: seq<seq<nat>>, tail: seq<seq<nat>>, bytes: seq<byte>)
    requires AreItems(head) && AreItems(tail) && 1 <= |head| && |head| + |tail| <= 6 && |bytes| == 16
    requires Value(head[|head| - 1], 16) != 0
    ensures Parse6(Join(head) + ("::" + Join(tail)), bytes)
         == Some(Unpack(Refill(Values(head), Values(tail))))
  {
    var next := Scan(0, |head|, |head|, Put(bytes, 0, Values(head)));
    PutFront(bytes, Values(head));
    TailRoundTrip(tail, next, Values(head));
    Scan6Head(head, Join(tail), bytes);
  }

  /** A double colon stands for the zeros it replaced. */
  lemma CompressedRoundTrip(head: seq<seq<nat>>, tail: seq<seq<nat>>, bytes: seq<byte>)
    requires AreItems(head) && AreItems(tail) && |head| + |tail| <= 6 && |bytes| == 16
    requires head != [] ==> Value(head[|head| - 1], 16) != 0
    ensures Parse6(Join(head) + "::" + Join(tail), bytes)
         == Some(Unpack(Refill(Values(head), Values(tail))))
  {
    Regroup(Join(head), "::", Join(tail));
    if head == [] {
      LeadingRoundTrip(tail, bytes);
      assert Values(head) == [];
    } else {
      InnerRoundTrip(head, tail, bytes);
    }
  }

  lemma Regroup<T>(a: seq<T>, b: seq<T>, c: seq<T>)
    ensures a + b + c == a + (b + c) && (a == [] ==> a + b + c == b + c)
  {
  }

  lemma MinimalAreItems(fields: seq<nat>)
    requires forall i :: 0 <= i < |fields| ==> fields[i] <= 0xFFFF
    ensures AreItems(Minimal(fields)) && Values(Minimal(fields)) == fields
  {
    forall i | 0 <= i < |fields|
      ensures IsItem(Minimal(fields)[i]) && Values(Minimal(fields))[i] == fields[i]
    {
      NumeralDenotes(fields[i], 16);
    }
  }

  /** Every IPv6 address is read back from its canonical text. */
  lemma CanonicalRoundTrip(address: seq<byte>, start: int, length: int, bytes: seq<byte>)
    requires |address| == 16 && |bytes| == 16 && IsCompressed(Fields(address), start, length)
    ensures Parse6(CanonicalText(Fields(address), start, length), bytes) == Some(address)
  {
    UnpackFields(address);
    FieldsRoundTrip(Fields(address), start, length, bytes);
  }

  lemma FieldsRoundTrip(fields: seq<nat>, start: int, length: int, bytes: seq<byte>)
    requires |fields| == 8 && |bytes| == 16 && IsCompressed(fields, start, length)
    requires forall i :: 0 <= i < 8 ==> fields[i] <= 0xFFFF
    ensures Parse6(CanonicalText(fields, start, length), bytes) == Some(Unpack(fields))
  {
    if start < 0 {
      MinimalAreItems(fields);
      JoinRoundTrip(Minimal(fields), bytes);
    } else {
      if start > 0 {
        CompressedIsMaximal(fields, start, length);
      }
      RunRoundTrip(fields, start, length, bytes);
    }
  }

  lemma {:induction false} RunRoundTrip(fields: seq<nat>, start: nat, length: nat, bytes: seq<byte>)
    requires |fields| == 8 && |bytes| == 16 && length >= 2 && ZeroRun(fields, start, start + length)
    requires start > 0 ==> fields[start - 1] != 0
    requires forall i :: 0 <= i < 8 ==> fields[i] <= 0xFFFF
    ensures Parse6(Join(Minimal(fields)[..start]) + "::" + Join(Minimal(fields)[start + length..]), bytes)
         == Some(Unpack(fields))
  {
    var head, tail := Minimal(fields)[..start], Minimal(fields)[start + length..];
    ZeroRunSplits(fields, start, length);
    CompressedRoundTrip(head, tail, bytes);
  }

  lemma ZeroRunSplits(fields: seq<nat>, start: nat, length: nat)
    requires |fields| == 8 && length >= 2 && ZeroRun(fields, start, start + length)
    requires forall i :: 0 <= i < 8 ==> fields[i] <= 0xFFFF
    ensures var items := Minimal(fields); var head, tail := items[..start], items[start + length..];
      && AreItems(head) && AreItems(tail)
      && |head| + |tail| <= 6 && Refill(Values(head), Values(tail)) == fields
      && (start > 0 ==> Value(head[start - 1], 16) == fields[start - 1])
  {
    MinimalAreItems(fields);
    var items := Minimal(fields);
    var head, tail := items[..start], items[start + length..];
    assert forall i :: 0 <= i < |tail| ==> tail[i] == items[start + length + i];
    assert Values(head) == fields[..start];
    assert Values(tail) == fields[start + length..];
    assert fields == fields[..start] + Zeros(length) + fields[start + length..];
  }

  lemma ValueOfFour(d: seq<nat>)
    requires |d| == 4
    ensures Value(d, 16) == ((d[0] * 16 + d[1]) * 16 + d[2]) * 16 + d[3]
  {
    ValuePrefix(d, 0, 16);
    ValuePrefix(d, 1, 16);
    ValuePrefix(d, 2, 16);
    ValuePrefix(d, 3, 16);
    assert d[..0] == [] && d[..4] == d;
  }

  lemma FourDigits(hi: byte, lo: byte)
    ensures var d := Padded(hi, 2, 16) + Padded(lo, 2, 16);
      IsItem(d) && Value(d, 16) == Word(hi, lo)
  {
    TwoDigits(hi);
    TwoDigits(lo);
    var d := Padded(hi, 2, 16) + Padded(lo, 2, 16);
    assert d == [hi / 16 % 16, hi % 16, lo / 16 % 16, lo % 16];
    ValueOfFour(d);
  }

  lemma TwoDigits(b: byte)
    ensures Padded(b, 2, 16) == [b / 16 % 16, b % 16]
  {
    assert Padded(b / 16, 1, 16) == [] + [b / 16 % 16];
  }

  /** Every IPv6 address is read back from its uncompressed text. */
  lemma FullRoundTrip(address: seq<byte>, bytes: seq<byte>)
    requires |address| == 16 && |bytes| == 16
    ensures Parse6(Full(address), bytes) == Some(address)
  {
    var items := Padded4(address);
    forall f | 0 <= f < 8 ensures IsItem(items[f]) && Values(items)[f] == Fields(address)[f] {
      FourDigits(address[2 * f], address[2 * f + 1]);
    }
    assert Values(items) == Fields(address);
    UnpackFields(address);
    JoinRoundTrip(items, bytes);
  }

  /** What `fromString6` accepts, and the address it reads, do not depend on what
      the object held before: every byte of the result comes from the text. */
  lemma {:induction false} Scan6Independent(s: string, st: Scan, bytes: seq<byte>)
    requires st.Ok() && SamePrefix(st.bytes, bytes, 2 * st.colons)
    ensures var a, b := Scan6(s, st), Scan6(s, st.(bytes := bytes));
      && (a.Some? <==> b.Some?)
      && (a.Some? ==> Finish6(a.value) == Finish6(b.value))
    decreases |s|
  {
    if Ends(s) {
      Finish6Independent(st, bytes);
    } else {
      var a, b := Step6(s, st), Step6(s, st.(bytes := bytes));
      Step6Independent(s, st, bytes);
      if a.Some? {
        Scan6Independent(a.value.0, a.value.1, b.value.1.bytes);
      }
    }
  }

  lemma Step6Independent(s: string, st: Scan, bytes: seq<byte>)
    requires !Ends(s) && st.Ok() && SamePrefix(st.bytes, bytes, 2 * st.colons)
    ensures var a, b := Step6(s, st), Step6(s, st.(bytes := bytes));
      && (a.Some? <==> b.Some?)
      && (a.Some? ==>
            && b.value.0 == a.value.0
            && b.value.1 == a.value.1.(bytes := b.value.1.bytes)
            && SamePrefix(a.value.1.bytes, b.value.1.bytes, 2 * a.value.1.colons))
  {
    if st.colons < 7 {
      StoreIndependent(st, bytes);
    }
  }

  predicate SamePrefix(a: seq<byte>, b: seq<byte>, n: nat) {
    |a| == |b| == 16 && forall i :: 0 <= i < n && i < 16 ==> a[i] == b[i]
  }

  lemma StoreIndependent(st: Scan, bytes: seq<byte>)
    requires st.Ok() && SamePrefix(st.bytes, bytes, 2 * st.colons)
    ensures SamePrefix(st.Store().bytes, st.(bytes := bytes).Store().bytes, 2 * st.colons + 2)
  {
  }

  lemma Finish6Independent(st: Scan, bytes: seq<byte>)
    requires st.Ok() && SamePrefix(st.bytes, bytes, 2 * st.colons)
    ensures Finish6(st) == Finish6(st.(bytes := bytes))
  {
    StoreIndependent(st, bytes);
    var a, b := st.Store().bytes, st.(bytes := bytes).Store().bytes;
    if st.colons == 7 {
      assert a == b;
    } else if st.double >= 0 {
      assert Expand(a, st.colons + 1, st.double) == Expand(b, st.colons + 1, st.double);
    }
  }
}
