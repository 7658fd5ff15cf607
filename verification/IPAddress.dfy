/** The address class of api/IPAddress.cpp: sixteen bytes and a type, written by
    two parsers and read by three printers. */
module IPAddresses {
  import opened Arith
  import opened Numerals
  import opened IPText
  import Print

  datatype IPType = IPv4 | IPv6

  const V4_BYTES_INDEX := 12

  const ZERO16: seq<byte> := [0, 0, 0, 0, 0, 0, 0, 0, 0, 0, 0, 0, 0, 0, 0, 0]

  /** What `fromString` makes of a text. */
  function ParseAddress(s: string): (r: Option<(IPType, seq<byte>)>)
    ensures r.Some? ==> |r.value.1| == 16
  {
    var v4 := Parse4(s);
    if v4.Some? then Some((IPv4, ZERO16[..12] + v4.value))
    else
      var v6 := Parse6(s, ZERO16);
      if v6.Some? then Some((IPv6, v6.value)) else None
  }

  // ---- Printing, field by field ----------------------------------------------------

  /** The pieces of the fields before `f`, one after the other. */
  function Pieces(items: seq<seq<nat>>, start: int, length: int, f: nat): string
    requires |items| == 8 && f <= 8
  {
    if f == 0 then "" else Pieces(items, start, length, f - 1) + Piece(items, start, length, f - 1)
  }

  lemma {:induction false} PiecesAreEmitted(items: seq<seq<nat>>, start: int, length: int, f: nat)
    requires |items| == 8 && f <= 8
    requires if start < 0 then start == -1 && length == 1 else length >= 2 && start + length <= 8
    ensures Pieces(items, start, length, f) == Emitted(items, start, length, f)
  {
    if f == 0 {
      EmittedAll(items, start, length);
    } else {
      PiecesAreEmitted(items, start, length, f - 1);
      EmittedStep(items, start, length, f - 1);
    }
  }

  /** All the pieces make the canonical text. */
  lemma PiecesAreCanonical(fields: seq<nat>, start: int, length: int)
    requires |fields| == 8
    requires if start < 0 then start == -1 && length == 1 else length >= 2 && start + length <= 8
    ensures Pieces(Minimal(fields), start, length, |Minimal(fields)|) == CanonicalText(fields, start, length)
  {
    PiecesAreEmitted(Minimal(fields), start, length, 8);
    EmittedAll(Minimal(fields), start, length);
  }

  /** What has been printed of the fields before `f`, in closed form. */
  function Emitted(items: seq<seq<nat>>, start: int, length: int, f: nat): string
    requires |items| == 8 && f <= 8 && (start >= 0 ==> length >= 2 && start + length <= 8)
  {
    if start < 0 || f <= start then if f < 8 then Colons(items[..f]) else Join(items)
    else
      Colons(items[..start]) + (if start == 0 then "::" else ":")
      + if f < start + length then ""
        else if f < 8 then Colons(items[start + length..f])
        else Join(items[start + length..])
  }

  /** What printing field `f` adds. */
  function Piece(items: seq<seq<nat>>, start: int, length: int, f: nat): string
    requires |items| == 8 && f < 8
  {
    if f < start || f >= start + length then Hex(items[f]) + (if f < 7 then ":" else "")
    else if f == start then if start == 0 then "::" else ":"
    else ""
  }

  lemma ColonsOrJoin(items: seq<seq<nat>>, a: nat, f: nat)
    requires |items| == 8 && a <= f < 8
    ensures (if f + 1 < 8 then Colons(items[a..f + 1]) else Join(items[a..]))
         == Colons(items[a..f]) + (Hex(items[f]) + (if f < 7 then ":" else ""))
  {
    assert items[a..f + 1] == items[a..f] + [items[f]];
    ColonsSnoc(items[a..f], items[f]);
    if f == 7 {
      assert items[a..][..7 - a] == items[a..f];
    }
  }

  lemma EmittedStep(items: seq<seq<nat>>, start: int, length: int, f: nat)
    requires |items| == 8 && f < 8
    requires if start < 0 then start == -1 && length == 1 else length >= 2 && start + length <= 8
    ensures Emitted(items, start, length, f + 1) == Emitted(items, start, length, f) + Piece(items, start, length, f)
  {
    if start < 0 || f < start {
      assert items[0..] == items && items[0..f] == items[..f] && items[0..f + 1] == items[..f + 1];
      ColonsOrJoin(items, 0, f);
    } else if f >= start + length {
      AfterRun(items, start, start + length, f);
    }
  }

  lemma AfterRun(items: seq<seq<nat>>, start: nat, end: nat, f: nat)
    requires |items| == 8 && start + 2 <= end <= f < 8
    ensures Emitted(items, start, end - start, f + 1)
         == Emitted(items, start, end - start, f) + (Hex(items[f]) + (if f < 7 then ":" else ""))
  {
    ColonsOrJoin(items, end, f);
    var front := Colons(items[..start]) + (if start == 0 then "::" else ":");
    var piece := Hex(items[f]) + (if f < 7 then ":" else "");
    Associate(front, Colons(items[end..f]), piece);
  }

  lemma EmittedAll(items: seq<seq<nat>>, start: int, length: int)
    requires |items| == 8
    requires if start < 0 then start == -1 && length == 1 else length >= 2 && start + length <= 8
    ensures Emitted(items, start, length, 0) == ""
    ensures Emitted(items, start, length, 8)
         == if start < 0 then Join(items) else Join(items[..start]) + "::" + Join(items[start + length..])
  {
    if start > 0 {
      var head := items[..start];
      ColonsSnoc(head[..start - 1], head[start - 1]);
      assert head[..start - 1] + [head[start - 1]] == head;
    }
  }

  /** The nibble tests of `printTo` print a field without leading zeros. */
  lemma NibbleText(w: nat)
    requires w <= 0xFFFF
    ensures var c1, c2, c3, c4 := w / 4096, w / 256 % 16, w / 16 % 16, w % 16;
      Numeral(w, 16) == (if c1 > 0 then [c1] else [])
                      + (if c1 > 0 || c2 > 0 then [c2] else [])
                      + (if c1 > 0 || c2 > 0 || c3 > 0 then [c3] else [])
                      + [c4]
  {
    var q1, q2 := w / 16, w / 256;
    assert q2 == q1 / 16 && w / 4096 == q2 / 16;
    if w >= 16 {
      assert Numeral(w, 16) == Numeral(q1, 16) + [w % 16];
      if w >= 256 {
        assert Numeral(q1, 16) == Numeral(q2, 16) + [q1 % 16];
        if w >= 4096 {
          assert Numeral(q2, 16) == Numeral(q2 / 16, 16) + [q2 % 16];
        }
      }
    }
  }

  lemma NibbleChars(w: nat)
    requires w <= 0xFFFF
    ensures var c1, c2, c3, c4 := w / 256 / 16, w / 256 % 16, w % 256 / 16, w % 256 % 16;
      Hex(Numeral(w, 16)) == (if c1 > 0 then [DigitChar(c1, 'a')] else "")
                           + (if c1 > 0 || c2 > 0 then [DigitChar(c2, 'a')] else "")
                           + (if c1 > 0 || c2 > 0 || c3 > 0 then [DigitChar(c3, 'a')] else "")
                           + [DigitChar(c4, 'a')]
  {
    NibbleText(w);
    NibblesOfBytes(w, w / 256, w % 256);
    HexOfNibbles(Numeral(w, 16), w / 4096, w / 256 % 16, w / 16 % 16, w % 16);
  }

  lemma NibblesOfBytes(w: nat, hi: nat, lo: nat)
    requires w == hi * 256 + lo && lo < 256
    ensures w / 4096 == hi / 16 && w / 256 % 16 == hi % 16 && w / 16 % 16 == lo / 16 && w % 16 == lo % 16
  {
    DivMod(lo, 16);
    DivMod(hi, 16);
    DivModUnique(w, 256, hi, lo);
    DivModUnique(w, 16, hi * 16 + lo / 16, lo % 16);
    DivModUnique(hi * 16 + lo / 16, 16, hi, lo / 16);
    DivModUnique(w, 4096, hi / 16, hi % 16 * 256 + lo);
  }

  lemma HexOfNibbles(d: seq<nat>, c1: nat, c2: nat, c3: nat, c4: nat)
    requires d == (if c1 > 0 then [c1] else [])
                + (if c1 > 0 || c2 > 0 then [c2] else [])
                + (if c1 > 0 || c2 > 0 || c3 > 0 then [c3] else [])
                + [c4]
    ensures Hex(d) == (if c1 > 0 then [DigitChar(c1, 'a')] else "")
                    + (if c1 > 0 || c2 > 0 then [DigitChar(c2, 'a')] else "")
                    + (if c1 > 0 || c2 > 0 || c3 > 0 then [DigitChar(c3, 'a')] else "")
                    + [DigitChar(c4, 'a')]
  {
    var d1: seq<nat> := if c1 > 0 then [c1] else [];
    var d2: seq<nat> := if c1 > 0 || c2 > 0 then [c2] else [];
    var d3: seq<nat> := if c1 > 0 || c2 > 0 || c3 > 0 then [c3] else [];
    HexConcat(d1 + d2 + d3, [c4]);
    HexConcat(d1 + d2, d3);
    HexConcat(d1, d2);
  }

  lemma HexConcat(a: seq<nat>, b: seq<nat>)
    ensures Hex(a + b) == Hex(a) + Hex(b)
  {
  }

  // ---- The formats of `snprintf` ---------------------------------------------------------

  /** `snprintf` into `size` characters: the last one is for the NUL. */
  function Cut(text: string, size: nat): string
    requires size > 0
  {
    if |text| < size then text else text[..size - 1]
  }

  /** `%02x` of a byte. */
  function HexByte(b: byte): (s: string)
    ensures |s| == 2
  {
    [DigitChar(b / 16, 'a'), DigitChar(b % 16, 'a')]
  }

  /** The first `f` fields, four digits each, with colons between them. */
  ghost predicate ShowsFields(s: string, bytes: seq<byte>, f: nat)
    requires |bytes| == 16 && f <= 8
  {
    && |s| == (if f == 0 then 0 else 5 * f - 1)
    && (forall k :: 0 <= k < f ==> s[5 * k..5 * k + 4] == HexByte(bytes[2 * k]) + HexByte(bytes[2 * k + 1]))
    && (forall k :: 0 <= k < f - 1 ==> s[5 * k + 4] == ':')
  }

  lemma ShowsOneMore(s: string, bytes: seq<byte>, f: nat)
    requires |bytes| == 16 && f < 8 && ShowsFields(s, bytes, f)
    ensures ShowsFields(s + ((if f > 0 then ":" else "") + (HexByte(bytes[2 * f]) + HexByte(bytes[2 * f + 1]))), bytes, f + 1)
  {
    var t := s + ((if f > 0 then ":" else "") + (HexByte(bytes[2 * f]) + HexByte(bytes[2 * f + 1])));
    forall k | 0 <= k < f
      ensures t[5 * k..5 * k + 4] == HexByte(bytes[2 * k]) + HexByte(bytes[2 * k + 1])
    {
      assert t[5 * k..5 * k + 4] == s[5 * k..5 * k + 4];
    }
  }

  lemma NextField(s: string, bytes: seq<byte>, f: nat, items: seq<seq<nat>>)
    requires |bytes| == 16 && f < 8 && ShowsFields(s, bytes, f)
    requires items == Padded4(bytes) && s == Join(items[..f])
    ensures var t := s + ((if f > 0 then ":" else "") + (HexByte(bytes[2 * f]) + HexByte(bytes[2 * f + 1])));
      ShowsFields(t, bytes, f + 1) && t == Join(items[..f + 1])
  {
    PaddedText(bytes[2 * f], bytes[2 * f + 1]);
    JoinNext(items, f, Join(items[..f]));
    ShowsOneMore(s, bytes, f);
  }

  lemma JoinNext(items: seq<seq<nat>>, f: nat, s: string)
    requires f < |items| && s == Join(items[..f])
    ensures Join(items[..f + 1]) == s + ((if f > 0 then ":" else "") + Hex(items[f]))
  {
    assert items[..f] + [items[f]] == items[..f + 1];
    JoinSnoc(items[..f], items[f]);
  }

  lemma PaddedText(hi: byte, lo: byte)
    ensures Hex(Padded(hi, 2, 16) + Padded(lo, 2, 16)) == HexByte(hi) + HexByte(lo)
  {
    TwoDigits(hi);
    TwoDigits(lo);
    HexConcat(Padded(hi, 2, 16), Padded(lo, 2, 16));
  }

  lemma JoinSnoc(items: seq<seq<nat>>, d: seq<nat>)
    ensures Join(items + [d]) == Join(items) + ((if items == [] then "" else ":") + Hex(d))
  {
    assert (items + [d])[..|items|] == items;
    if items != [] {
      var n := |items| - 1;
      ColonsSnoc(items[..n], items[n]);
      assert items[..n] + [items[n]] == items;
    }
  }

  /** `%u` of a byte, from its hundreds, tens and units. */
  function UnsignedText(b: byte): (s: string)
    ensures |s| <= 3
  {
    (if b >= 100 then [DigitChar(b / 100, 'A')] else "")
    + (if b >= 10 then [DigitChar(b / 10 % 10, 'A')] else "")
    + [DigitChar(b % 10, 'A')]
  }

  lemma UnsignedIsDecimal(b: byte)
    ensures UnsignedText(b) == Decimal(b)
  {
    if b >= 10 {
      assert Numeral(b, 10) == Numeral(b / 10, 10) + [b % 10];
      if b >= 100 {
        assert Numeral(b / 10, 10) == Numeral(b / 100, 10) + [b / 10 % 10];
      }
    }
  }

  // ---- Finding the run to compress ----------------------------------------------------

  /** The best run among those that end before field `f`. */
  ghost predicate BestBefore(fields: seq<nat>, f: nat, start: int, length: int) {
    && f <= |fields|
    && ((start == -1 && length == 1)
        || (length >= 2 && start + length <= f && ZeroRun(fields, start, start + length)))
    && forall a, b :: ZeroRun(fields, a, b) && b <= f && b - a >= 2 ==>
         b - a <= length && (b - a == length ==> start <= a)
  }

  /** The run that ends exactly at field `f`, from as far back as it goes. */
  predicate CurrentRun(fields: seq<nat>, f: nat, start: int) {
    && f <= |fields|
    && (start == -1 ==> f == 0 || fields[f - 1] != 0)
    && (start != -1 ==> ZeroRun(fields, start, f) && (start > 0 ==> fields[start - 1] != 0))
  }

  lemma BestStep(fields: seq<nat>, f: nat, start: int, length: int, current: int)
    requires f < |fields| && BestBefore(fields, f, start, length) && CurrentRun(fields, f, current)
    ensures fields[f] != 0 ==> BestBefore(fields, f + 1, start, length) && CurrentRun(fields, f + 1, -1)
    ensures fields[f] == 0 ==>
      var c := if current == -1 then f else current;
      && CurrentRun(fields, f + 1, c)
      && (if f + 1 - c > length then BestBefore(fields, f + 1, c, f + 1 - c)
          else BestBefore(fields, f + 1, start, length))
  {
    if fields[f] == 0 {
      var c := if current == -1 then f else current;
      forall a, b | ZeroRun(fields, a, b) && b == f + 1
        ensures c <= a
      {
        assert c > 0 ==> fields[c - 1] != 0;
      }
    }
  }

  /** The variables of the first loop of `printTo`. */
  datatype RunScan = RunScan(start: int, length: int, current: int, currentLength: int)

  function NextRun(st: RunScan, f: nat, zero: bool): RunScan {
    if !zero then st.(current := -1)
    else
      var c := if st.current == -1 then f else st.current;
      var l := if st.current == -1 then 1 else st.currentLength + 1;
      if l > st.length then RunScan(c, l, c, l) else st.(current := c, currentLength := l)
  }

  function ScanRuns(fields: seq<nat>, f: nat): RunScan
    requires f <= |fields|
  {
    if f == 0 then RunScan(-1, 1, -1, 0) else NextRun(ScanRuns(fields, f - 1), f - 1, fields[f - 1] == 0)
  }

  lemma {:induction false} ScanRunsFindsBest(fields: seq<nat>, f: nat)
    requires f <= |fields|
    ensures var st := ScanRuns(fields, f);
      && BestBefore(fields, f, st.start, st.length)
      && CurrentRun(fields, f, st.current)
      && (st.current != -1 ==> st.currentLength == f - st.current)
  {
    if f > 0 {
      var st := ScanRuns(fields, f - 1);
      ScanRunsFindsBest(fields, f - 1);
      BestStep(fields, f - 1, st.start, st.length, st.current);
    }
  }

  /** Printing, then `fromString`: the canonical text of every IPv6 address. */
  lemma PrintedIPv6IsReadBack(address: seq<byte>, start: int, length: int)
    requires |address| == 16 && IsCompressed(Fields(address), start, length)
    ensures ParseAddress(CanonicalText(Fields(address), start, length)) == Some((IPv6, address))
  {
    var s := CanonicalText(Fields(address), start, length);
    CanonicalRoundTrip(address, start, length, ZERO16);
    TextHasColon(s, ZERO16);
  }

  /** Letters read the same in both cases. */
  lemma CaseIsIgnored(s: string)
    ensures ParseAddress(Capitals(s)) == ParseAddress(s)
  {
    Scan4IgnoresCase(s, Scan4State(-1, 0, [0, 0, 0, 0]));
    Scan6IgnoresCase(s, Start(ZERO16));
  }

  /** `toString`, then `fromString`: the uncompressed text of every IPv6 address. */
  lemma FullIPv6IsReadBack(address: seq<byte>)
    requires |address| == 16
    ensures ParseAddress(Full(address)) == Some((IPv6, address))
  {
    FullRoundTrip(address, ZERO16);
    TextHasColon(Full(address), ZERO16);
  }

  /** Every IPv4 address, printed or converted. */
  lemma IPv4IsReadBack(octets: seq<byte>)
    requires |octets| == 4
    ensures ParseAddress(Dotted(octets)) == Some((IPv4, ZERO16[..12] + octets))
  {
    DottedRoundTrip(octets);
  }

  /** No text is both: what reads as an IPv6 address is not an IPv4 address. */
  lemma TextHasColon(s: string, bytes: seq<byte>)
    requires |bytes| == 16 && Parse6(s, bytes).Some?
    ensures Parse4(s).None?
  {
    ColonNeeded(s, Start(bytes), Scan4State(-1, 0, [0, 0, 0, 0]));
  }

  lemma {:induction false} ColonNeeded(s: string, st: Scan, st4: Scan4State)
    requires st.Ok() && st4.Ok() && st.double == -1 && st.colons == 0
    requires Scan6(s, st).Some? && Finish6(Scan6(s, st).value).Some?
    ensures Scan4(s, st4).None?
    decreases |s|
  {
    if !Ends(s) {
      var next := Step6(s, st);
      if IsHexChar(ToLower(s[0])) && '0' <= s[0] <= '9' {
        var d := s[0] as int - '0' as int;
        var acc := if st4.acc < 0 then d else st4.acc * 10 + d;
        if acc <= 255 {
          ColonNeeded(s[1..], next.value.1, st4.(acc := acc));
        }
      }
    }
  }

  lemma ExpandedByIndex(was: seq<byte>, now: seq<byte>, colons: nat, double: nat)
    requires |was| == |now| == 16 && double <= colons <= 7
    requires forall k :: 0 <= k < 2 * double ==> now[k] == was[k]
    requires forall k :: 2 * double <= k < 16 - 2 * colons + 2 * double ==> now[k] == 0
    requires forall k :: 16 - 2 * colons + 2 * double <= k < 16 ==> now[k] == was[k - (16 - 2 * colons)]
    ensures now == Expand(was, colons, double)
  {
  }

  /** What a failed `fromString4` leaves in the object, and a failed `fromString`: the type is
      that of before, and the bytes are those of the fields read up to the failure. */
  function LeftByIPv4(s: string): (b: seq<byte>)
    ensures |b| == 16
  {
    ZERO16[..12] + Left4(s, Scan4State(-1, 0, [0, 0, 0, 0]))
  }

  function LeftBehind(s: string): (b: seq<byte>)
    ensures |b| == 16
  {
    Left6(s, Start(LeftByIPv4(s)))
  }

  class IPAddress {
    const bytes: array<byte>
    var ipType: IPType

    ghost predicate Valid()
      reads this
    {
      bytes.Length == 16
    }

    /** The pointer constructor: four bytes for IPv4, sixteen for IPv6. */
    constructor (t: IPType, source: seq<byte>)
      requires |source| == if t == IPv4 then 4 else 16
      ensures Valid() && fresh(bytes) && ipType == t
      ensures bytes[..] == if t == IPv4 then ZERO16[..12] + source else source
    {
      ipType := t;
      var b := new byte[16](_ => 0);
      bytes := b;
      new;
      var at := if t == IPv4 then V4_BYTES_INDEX else 0;
      for i := 0 to |source|
        invariant ipType == t && bytes == b
        invariant forall k :: 0 <= k < 16 ==> b[k] == if at <= k < at + i then source[k - at] else 0
      {
        b[at + i] := source[i];
      }
    }

    /** `toString4`: nothing is cut off by its sixteen characters, and `fromString` of the
        text is the address. */
    method ToString4() returns (s: string)
      requires Valid()
      ensures s == Dotted(bytes[12..]) && |s| < 16
      ensures ParseAddress(s) == Some((IPv4, ZERO16[..12] + bytes[12..])) && Plain(s, '.')
    {
      ghost var o := bytes[12..];
      s := "";
      for i := 0 to 4
        invariant |s| <= if i == 0 then 0 else 4 * i - 1
        invariant s + AfterOctets(o, i) == Dotted(o)
      {
        assert o[i] == bytes[V4_BYTES_INDEX + i];
        var piece := (if i > 0 then "." else "") + UnsignedText(bytes[V4_BYTES_INDEX + i]);
        UnsignedIsDecimal(o[i]);
        NextOctet(s, o, i);
        s := s + piece;
      }
      assert s == s + "";
      IPv4IsReadBack(o);
      DottedIsPlain(o);
      s := Cut(s, 16);
    }

    /** `toString6`: each field has its four hexadecimal digits at its own place, with a colon
        after all but the last; nothing is cut off by the forty characters, and `fromString`
        of the text is the address. */
    method ToString6() returns (s: string)
      requires Valid()
      ensures |s| == 39 && ShowsFields(s, bytes[..], 8)
      ensures ParseAddress(s) == Some((IPv6, bytes[..]))
    {
      ghost var items := Padded4(bytes[..]);
      s := "";
      for f := 0 to 8
        invariant s == Join(items[..f]) && ShowsFields(s, bytes[..], f)
      {
        var piece := HexByte(bytes[2 * f]) + HexByte(bytes[2 * f + 1]);
        NextField(s, bytes[..], f, items);
        s := s + ((if f > 0 then ":" else "") + piece);
      }
      assert items[..8] == items;
      FullIPv6IsReadBack(bytes[..]);
      s := Cut(s, 40);
    }

    method FromString4(s: string) returns (ok: bool)
      requires Valid()
      modifies this`ipType, bytes
      ensures Valid()
      ensures ok == Parse4(s).Some?
      ensures ok ==> ipType == IPv4 && bytes[..] == ZERO16[..12] + Parse4(s).value
      ensures !ok ==> ipType == old(ipType) && bytes[..] == LeftByIPv4(s)
    {
      forall i | 0 <= i < 16 {
        bytes[i] := 0;
      }
      var acc: int, dots: nat, i := -1, 0, 0;
      assert bytes[12..] == [0, 0, 0, 0] && s[0..] == s;
      ghost var left := Left4(s, Scan4State(-1, 0, [0, 0, 0, 0]));
      while i < |s| && s[i] != '\0'
        invariant ipType == old(ipType)
        invariant i <= |s| && bytes[..12] == ZERO16[..12] && dots <= 3 && -1 <= acc <= 255
        invariant Scan4(s, Scan4State(-1, 0, [0, 0, 0, 0])) == Scan4(s[i..], Scan4State(acc, dots, bytes[12..]))
        invariant left == Left4(s[i..], Scan4State(acc, dots, bytes[12..]))
      {
        assert bytes[..] == bytes[..12] + bytes[12..];
        var c := s[i];
        assert s[i..][1..] == s[i + 1..];
        i := i + 1;
        if '0' <= c <= '9' {
          acc := if acc < 0 then c as int - '0' as int else acc * 10 + (c as int - '0' as int);
          if acc > 255 {
            return false;
          }
        } else if c == '.' {
          if dots == 3 {
            return false;
          }
          if acc < 0 {
            return false;
          }
          ghost var octets: seq<int> := bytes[12..];
          bytes[V4_BYTES_INDEX + dots] := acc;
          assert bytes[12..] == octets[dots := acc];
          dots := dots + 1;
          acc := -1;
        } else {
          return false;
        }
      }
      assert bytes[..] == bytes[..12] + bytes[12..];
      if dots != 3 {
        return false;
      }
      if acc < 0 {
        return false;
      }
      ghost var octets: seq<int> := bytes[12..];
      bytes[V4_BYTES_INDEX + 3] := acc;
      assert bytes[12..] == octets[3 := acc];
      assert bytes[..] == bytes[..12] + bytes[12..];
      ipType := IPv4;
      return true;
    }

    method FromString6(s: string) returns (ok: bool)
      requires Valid()
      modifies this`ipType, bytes
      ensures Valid()
      ensures var r := Parse6(s, old(bytes[..]));
        ok == r.Some? && (ok ==> ipType == IPv6 && bytes[..] == r.value)
      ensures !ok ==> ipType == old(ipType) && bytes[..] == Left6(s, Start(old(bytes[..])))
    {
      var acc: nat, colons: nat, double: int, i: nat := 0, 0, -1, 0;
      assert s[0..] == s;
      while i < |s| && s[i] != '\0'
        invariant ipType == old(ipType)
        invariant i <= |s| && Scan(acc, colons, double, bytes[..]).Ok()
        invariant Scan6(s, Start(old(bytes[..]))) == Scan6(s[i..], Scan(acc, colons, double, bytes[..]))
        invariant Left6(s, Start(old(bytes[..]))) == Left6(s[i..], Scan(acc, colons, double, bytes[..]))
        decreases |s| - i
      {
        ghost var next := Step6(s[i..], Scan(acc, colons, double, bytes[..]));
        ok, acc, colons, double, i := ReadChar(s, i, acc, colons, double);
        if !ok {
          return;
        }
        assert next == Some((s[i..], Scan(acc, colons, double, bytes[..])));
      }
      ok := FinishInPlace(acc, colons, double);
      if ok {
        ipType := IPv6;
      }
    }

    /** The body of the loop, for the character at `i0`. */
    method ReadChar(s: string, i0: nat, acc0: nat, colons0: nat, double0: int)
      returns (ok: bool, acc: nat, colons: nat, double: int, i: nat)
      requires Valid() && i0 < |s| && s[i0] != '\0' && Scan(acc0, colons0, double0, bytes[..]).Ok()
      modifies bytes
      ensures var next := Step6(s[i0..], Scan(acc0, colons0, double0, old(bytes[..])));
        && ok == next.Some?
        && (ok ==> i0 < i <= |s| && next.value == (s[i..], Scan(acc, colons, double, bytes[..])))
        && (!ok ==> bytes[..] == old(bytes[..]))
    {
      acc, colons, double, i := acc0, colons0, double0, i0;
      ghost var rest, st := s[i..], Scan(acc, colons, double, bytes[..]);
      assert rest[1..] == s[i + 1..];
      assert i + 1 < |s| ==> rest[1] == s[i + 1] && rest[2..] == s[i + 2..];
      assert i + 2 < |s| ==> rest[2..][0] == s[i + 2];
      var c := ToLower(s[i]);
      i := i + 1;
      if IsHexChar(c) {
        acc := acc * 16 + HexValue(c);
        return acc <= 0xFFFF, acc, colons, double, i;
      }
      if c != ':' {
        return false, acc, colons, double, i;
      }
      if i < |s| && s[i] == ':' {
        if double >= 0 {
          return false, acc, colons, double, i;
        }
        if i + 1 < |s| && s[i + 1] == ':' {
          return false, acc, colons, double, i;
        }
        double := colons + (if acc != 0 then 1 else 0);
        i := i + 1;
      } else if i == |s| || s[i] == '\0' {
        return false, acc, colons, double, i;
      }
      if colons == 7 {
        return false, acc, colons, double, i;
      }
      bytes[colons * 2] := acc / 256;
      bytes[colons * 2 + 1] := acc % 256;
      assert bytes[..] == st.Store().bytes;
      return true, 0, colons + 1, double, i;
    }

    /** After the loop: the count of separators, the last field, the expansion. */
    method FinishInPlace(acc: nat, colons: nat, double: int) returns (ok: bool)
      requires Valid() && Scan(acc, colons, double, bytes[..]).Ok()
      modifies bytes
      ensures var r := Finish6(Scan(acc, colons, double, old(bytes[..])));
        ok == r.Some? && (if ok then bytes[..] == r.value else bytes[..] == old(bytes[..]))
    {
      if double == -1 && colons != 7 {
        return false;
      }
      if double > -1 && colons > 6 {
        return false;
      }
      ghost var st := Scan(acc, colons, double, bytes[..]);
      bytes[colons * 2] := acc / 256;
      bytes[colons * 2 + 1] := acc % 256;
      assert bytes[..] == st.Store().bytes;
      if double != -1 {
        ExpandInPlace(colons + 1, double);
      }
      return true;
    }

    /** The backward shift and the zero fill that expand a double colon. */
    method ExpandInPlace(colons: nat, double: nat)
      requires Valid() && double <= colons <= 7
      modifies bytes
      ensures bytes[..] == Expand(old(bytes[..]), colons, double)
    {
      ghost var was := bytes[..];
      ShiftBack(double * 2, colons * 2 - double * 2, 16 - colons * 2);
      ZeroFill(double * 2, 16 - colons * 2 + double * 2);
      ExpandedByIndex(was, bytes[..], colons, double);
    }

    method ZeroFill(from: nat, to: nat)
      requires Valid() && from <= to <= 16
      modifies bytes
      ensures forall k :: 0 <= k < 16 ==> bytes[k] == if from <= k < to then 0 else old(bytes[k])
    {
      for i := from to to
        invariant forall k :: 0 <= k < 16 ==> bytes[k] == if from <= k < i then 0 else old(bytes[k])
      {
        bytes[i] := 0;
      }
    }

    /** Move `count` bytes from `from` up by `gap`, to the end, last one first. */
    method ShiftBack(from: nat, count: nat, gap: nat)
      requires Valid() && from + count + gap == 16 && gap > 0
      modifies bytes
      ensures forall k :: 0 <= k < from ==> bytes[k] == old(bytes[k])
      ensures forall k :: from + gap <= k < 16 ==> bytes[k] == old(bytes[k - gap])
    {
      var i: int := count - 1;
      while i >= 0
        invariant -1 <= i < count
        invariant forall k :: 0 <= k <= from + gap + i && k < 16 ==> bytes[k] == old(bytes[k])
        invariant forall k :: from + gap + i < k < 16 ==> bytes[k] == old(bytes[k - gap])
      {
        bytes[from + gap + i] := bytes[from + i];
        i := i - 1;
      }
    }

    /** `fromString`: the IPv4 reading first, and the IPv6 one if that fails. The
        bytes the failed reading left behind do not matter. */
    method FromString(s: string) returns (ok: bool)
      requires Valid()
      modifies this`ipType, bytes
      ensures Valid()
      ensures var r := ParseAddress(s);
        ok == r.Some? && (ok ==> (ipType, bytes[..]) == r.value)
      ensures !ok ==> ipType == old(ipType) && bytes[..] == LeftBehind(s)
    {
      ok := FromString4(s);
      if !ok {
        Scan6Independent(s, Start(bytes[..]), ZERO16);
        ok := FromString6(s);
      }
    }

    /** The first loop of `printTo`: the run to compress. */
    method FindRun() returns (start: int, length: int)
      requires Valid()
      ensures IsCompressed(Fields(bytes[..]), start, length)
    {
      start, length := ScanRunsInPlace();
      ScanRunsFindsBest(Fields(bytes[..]), 8);
    }

    method ScanRunsInPlace() returns (start: int, length: int)
      requires Valid()
      ensures var st := ScanRuns(Fields(bytes[..]), 8); st.start == start && st.length == length
    {
      ghost var fields := Fields(bytes[..]);
      start, length := -1, 1;
      var currentStart, currentLength := -1, 0;
      for f := 0 to 8
        invariant ScanRuns(fields, f) == RunScan(start, length, currentStart, currentLength)
      {
        assert fields[f] == Word(bytes[f * 2], bytes[f * 2 + 1]);
        if bytes[f * 2] == 0 && bytes[f * 2 + 1] == 0 {
          if currentStart == -1 {
            currentStart := f;
            currentLength := 1;
          } else {
            currentLength := currentLength + 1;
          }
          if currentLength > length {
            start := currentStart;
            length := currentLength;
          }
        } else {
          currentStart := -1;
        }
      }
    }

    /** The nibble tests of the second loop. */
    static method PrintField(p: Print.Printer, hi: byte, lo: byte) returns (n: nat)
      modifies p
      ensures var text := Hex(Numeral(Word(hi, lo), 16));
        p.output == old(p.output) + text && n == |text|
    {
      var c1, c2, c3, c4 := hi / 16, hi % 16, lo / 16, lo % 16;
      NibbleChars(Word(hi, lo));
      n := 0;
      if c1 > 0 {
        p.Write(DigitChar(c1, 'a'));
        n := n + 1;
      }
      if c1 > 0 || c2 > 0 {
        p.Write(DigitChar(c2, 'a'));
        n := n + 1;
      }
      if c1 > 0 || c2 > 0 || c3 > 0 {
        p.Write(DigitChar(c3, 'a'));
        n := n + 1;
      }
      p.Write(DigitChar(c4, 'a'));
      n := n + 1;
    }

    /** `printTo` for IPv6: the canonical text of RFC 5952. */
    method PrintIPv6(p: Print.Printer) returns (n: nat, ghost start: int, ghost length: int)
      requires Valid()
      modifies p
      ensures IsCompressed(Fields(bytes[..]), start, length)
      ensures var text := CanonicalText(Fields(bytes[..]), start, length);
        p.output == old(p.output) + text && n == |text|
    {
      var longestStart, longestLength := FindRun();
      start, length := longestStart, longestLength;
      n := PrintFields(p, longestStart, longestLength);
    }

    /** The second loop, for any run of fields to leave out. */
    method PrintFields(p: Print.Printer, start: int, length: int) returns (n: nat)
      requires Valid()
      requires if start < 0 then start == -1 && length == 1 else length >= 2 && start + length <= 8
      modifies p
      ensures var text := CanonicalText(Fields(bytes[..]), start, length);
        p.output == old(p.output) + text && n == |text|
    {
      PiecesAreCanonical(Fields(bytes[..]), start, length);
      n := PrintPieces(p, start, length, Minimal(Fields(bytes[..])));
    }

    method PrintPieces(p: Print.Printer, start: int, length: int, ghost items: seq<seq<nat>>) returns (n: nat)
      requires Valid() && items == Minimal(Fields(bytes[..]))
      modifies p
      ensures p.output == old(p.output) + Pieces(items, start, length, |items|)
      ensures n == |Pieces(items, start, length, |items|)|
    {
      n := 0;
      ghost var was := p.output;
      var f := 0;
      while f < 8
        invariant 0 <= f <= 8 && items == Minimal(Fields(bytes[..]))
        invariant p.output == was + Pieces(items, start, length, f)
        invariant n == |Pieces(items, start, length, f)|
      {
        Associate(was, Pieces(items, start, length, f), Piece(items, start, length, f));
        var m := PrintPiece(p, start, length, f, items);
        n := n + m;
        f := f + 1;
      }
    }

    method PrintPiece(p: Print.Printer, start: int, length: int, f: nat, ghost items: seq<seq<nat>>) returns (n: nat)
      requires Valid() && f < 8 && items == Minimal(Fields(bytes[..]))
      modifies p
      ensures p.output == old(p.output) + Piece(items, start, length, f)
      ensures n == |Piece(items, start, length, f)|
    {
      n := 0;
      assert items[f] == Numeral(Word(bytes[f * 2], bytes[f * 2 + 1]), 16);
      if f < start || f >= start + length {
        n := PrintField(p, bytes[f * 2], bytes[f * 2 + 1]);
        if f < 7 {
          p.Write(':');
          n := n + 1;
        }
      } else if f == start {
        if start == 0 {
          p.Write(':');
          n := n + 1;
        }
        p.Write(':');
        n := n + 1;
      }
    }

    /** `printTo` for IPv4: dotted decimal. */
    method PrintIPv4(p: Print.Printer) returns (n: nat)
      requires Valid()
      modifies p
      ensures p.output == old(p.output) + Dotted(bytes[12..])
      ensures n == |p.output| - |old(p.output)|
    {
      ghost var o, was := bytes[12..], p.output;
      n := 0;
      for i := 0 to 3
        invariant o == bytes[12..]
        invariant n == |p.output| - |was|
        invariant p.output + DottedFrom(o, i) == was + Dotted(o)
      {
        ghost var before := p.output;
        assert o[i] == bytes[V4_BYTES_INDEX + i];
        var m := p.PrintNumber(bytes[V4_BYTES_INDEX + i], 10);
        p.Write('.');
        Regroup3(before, Decimal(o[i]), ".", DottedFrom(o, i + 1));
        n := n + m + 1;
      }
      var m := p.PrintNumber(bytes[V4_BYTES_INDEX + 3], 10);
      n := n + m;
    }

    /** `printTo`. */
    method PrintTo(p: Print.Printer) returns (n: nat)
      requires Valid()
      modifies p
      ensures ipType == IPv4 ==> p.output == old(p.output) + Dotted(bytes[12..])
      ensures |old(p.output)| <= |p.output| && var text := p.output[|old(p.output)|..];
        && p.output == old(p.output) + text && Plain(text, if ipType == IPv4 then '.' else ':')
        && ParseAddress(text) == Some((ipType, if ipType == IPv6 then bytes[..] else ZERO16[..12] + bytes[12..]))
      ensures ipType == IPv6 ==> exists start, length ::
        && IsCompressed(Fields(bytes[..]), start, length)
        && p.output == old(p.output) + CanonicalText(Fields(bytes[..]), start, length)
      ensures n == |p.output| - |old(p.output)|
    {
      if ipType == IPv6 {
        ghost var start, length;
        n, start, length := PrintIPv6(p);
        PrintedIPv6IsReadBack(bytes[..], start, length);
        CanonicalIsPlain(Fields(bytes[..]), start, length);
      } else {
        n := PrintIPv4(p);
        IPv4IsReadBack(bytes[12..]);
        DottedIsPlain(bytes[12..]);
      }
    }
  }

  /** Print one address and read the text into another, whatever that was before: it takes
      the type and, of an IPv6 address, all the bytes; of an IPv4 address the last four. So
      the two are the same address, byte for byte, exactly if it is an IPv6 address or its
      first twelve bytes are zero. */
  method PrintThenRead(a: IPAddress, b: IPAddress) returns (ok: bool)
    requires a.Valid() && b.Valid() && a != b && a.bytes != b.bytes
    modifies b`ipType, b.bytes
    ensures ok && b.Valid() && b.ipType == a.ipType
    ensures b.bytes[..] == if a.ipType == IPv6 then a.bytes[..] else ZERO16[..12] + a.bytes[12..]
    ensures b.bytes[..] == a.bytes[..] <==> a.ipType == IPv6 || a.bytes[..12] == ZERO16[..12]
  {
    var p := new Print.Printer();
    var n := a.PrintTo(p);
    SameFront(a.bytes[..]);
    assert p.output[0..] == p.output;
    ok := b.FromString(p.output);
  }

  lemma SameFront(address: seq<byte>)
    requires |address| == 16
    ensures address == ZERO16[..12] + address[12..] <==> address[..12] == ZERO16[..12]
  {
    assert address == address[..12] + address[12..];
    assert (ZERO16[..12] + address[12..])[..12] == ZERO16[..12];
  }

  // ---- Known texts ------------------------------------------------------------------------

  lemma {:induction false} KnownOctets()
    ensures Decimal(192) == "192" && Decimal(168) == "168" && Decimal(1) == "1" && Decimal(0) == "0"
  {
    UnsignedIsDecimal(192);
    UnsignedIsDecimal(168);
    UnsignedIsDecimal(1);
    UnsignedIsDecimal(0);
  }

  /** 192.168.1.0, and two addresses of RFC 5952: the longer run goes, and of two equally
      long the first. */
  method KnownTexts() returns (v4: string, longer: string, first: string)
    ensures v4 == "192.168.1.0"
    ensures longer == "2001:0:0:1::1"
    ensures first == "2001:db8::1:0:0:1"
  {
    v4 := TextOf(IPv4, [192, 168, 1, 0]);
    longer := TextOf(IPv6, [0x20, 0x01, 0, 0, 0, 0, 0, 1, 0, 0, 0, 0, 0, 0, 0, 1]);
    first := TextOf(IPv6, [0x20, 0x01, 0x0d, 0xb8, 0, 0, 0, 0, 0, 1, 0, 0, 0, 0, 0, 1]);
    KnownDotted();
    KnownLonger(Fields([0x20, 0x01, 0, 0, 0, 0, 0, 1, 0, 0, 0, 0, 0, 0, 0, 1]));
    KnownFirst(Fields([0x20, 0x01, 0x0d, 0xb8, 0, 0, 0, 0, 0, 1, 0, 0, 0, 0, 0, 1]));
  }

  /** What a new object of these bytes prints. */
  method TextOf(t: IPType, source: seq<byte>) returns (s: string)
    requires |source| == if t == IPv4 then 4 else 16
    ensures t == IPv4 ==> s == Dotted(source)
    ensures t == IPv6 ==>
      forall start, length | IsCompressed(Fields(source), start, length) :: s == CanonicalText(Fields(source), start, length)
  {
    var a := new IPAddress(t, source);
    var p := new Print.Printer();
    var n := a.PrintTo(p);
    s := p.output;
    if t == IPv4 {
      assert a.bytes[..][12..] == source;
    } else {
      ghost var u, v :| IsCompressed(Fields(source), u, v) && p.output == "" + CanonicalText(Fields(source), u, v);
      forall start, length | IsCompressed(Fields(source), start, length)
        ensures s == CanonicalText(Fields(source), start, length)
      {
        CompressedIsUnique(Fields(source), start, length, u, v);
      }
    }
  }

  lemma KnownDotted()
    ensures Dotted([192, 168, 1, 0]) == "192.168.1.0"
  {
    KnownOctets();
  }

  lemma {:induction false} KnownHex()
    ensures Hex(Numeral(0x2001, 16)) == "2001" && Hex(Numeral(0xdb8, 16)) == "db8"
    ensures Hex(Numeral(1, 16)) == "1" && Hex(Numeral(0, 16)) == "0"
  {
    NibbleChars(0x2001);
    NibbleChars(0xdb8);
  }

  lemma {:induction false} KnownLonger(fields: seq<nat>)
    requires fields == Fields([0x20, 0x01, 0, 0, 0, 0, 0, 1, 0, 0, 0, 0, 0, 0, 0, 1])
    ensures IsCompressed(fields, 4, 3) && CanonicalText(fields, 4, 3) == "2001:0:0:1::1"
  {
    assert |fields| == 8 && fields[0] == 0x2001 && fields[3] == 1 && fields[7] == 1;
    assert fields[1] == fields[2] == fields[4] == fields[5] == fields[6] == 0;
    LongerRun(fields);
    LongerText(Minimal(fields));
  }

  lemma {:induction false} LongerRun(fields: seq<nat>)
    requires |fields| == 8 && fields[0] != 0 && fields[3] != 0 && fields[7] != 0
    requires fields[4] == fields[5] == fields[6] == 0
    ensures IsCompressed(fields, 4, 3)
  {
    forall a, b | ZeroRun(fields, a, b) && b - a >= 2 ensures b - a <= 3 && (b - a == 3 ==> 4 <= a) {
      assert !(a <= 0 < b) && !(a <= 3 < b) && !(a <= 7 < b);
    }
  }

  lemma {:induction false} LongerText(items: seq<seq<nat>>)
    requires |items| == 8 && items[0] == Numeral(0x2001, 16) && items[1] == items[2] == Numeral(0, 16)
    requires items[3] == items[7] == Numeral(1, 16)
    ensures Join(items[..4]) + "::" + Join(items[7..]) == "2001:0:0:1::1"
  {
    KnownHex();
    JoinOfFour(items[..4]);
    JoinOfOne(items[7..]);
  }

  lemma {:induction false} KnownFirst(fields: seq<nat>)
    requires fields == Fields([0x20, 0x01, 0x0d, 0xb8, 0, 0, 0, 0, 0, 1, 0, 0, 0, 0, 0, 1])
    ensures IsCompressed(fields, 2, 2) && CanonicalText(fields, 2, 2) == "2001:db8::1:0:0:1"
  {
    assert |fields| == 8 && fields[0] == 0x2001 && fields[1] == 0xdb8 && fields[4] == 1 && fields[7] == 1;
    assert fields[2] == fields[3] == fields[5] == fields[6] == 0;
    FirstRun(fields);
    FirstText(Minimal(fields));
  }

  lemma {:induction false} FirstRun(fields: seq<nat>)
    requires |fields| == 8 && fields[0] != 0 && fields[1] != 0 && fields[4] != 0 && fields[7] != 0
    requires fields[2] == fields[3] == 0
    ensures IsCompressed(fields, 2, 2)
  {
    forall a, b | ZeroRun(fields, a, b) && b - a >= 2 ensures b - a <= 2 && (b - a == 2 ==> 2 <= a) {
      assert !(a <= 0 < b) && !(a <= 1 < b) && !(a <= 4 < b) && !(a <= 7 < b);
    }
  }

  lemma {:induction false} FirstText(items: seq<seq<nat>>)
    requires |items| == 8 && items[0] == Numeral(0x2001, 16) && items[1] == Numeral(0xdb8, 16)
    requires items[4] == items[7] == Numeral(1, 16) && items[5] == items[6] == Numeral(0, 16)
    ensures Join(items[..2]) + "::" + Join(items[4..]) == "2001:db8::1:0:0:1"
  {
    KnownHex();
    JoinOfTwo(items[..2]);
    JoinOfFour(items[4..]);
    assert Join(items[..2]) == "2001:db8" && Join(items[4..]) == "1:0:0:1";
  }

  lemma {:induction false} JoinOfOne(items: seq<seq<nat>>)
    requires |items| == 1
    ensures Join(items) == Hex(items[0])
  {
    assert "" + Hex(items[0]) == Hex(items[0]);
  }

  lemma {:induction false} JoinOfTwo(items: seq<seq<nat>>)
    requires |items| == 2
    ensures Join(items) == Hex(items[0]) + (":" + Hex(items[1]))
  {
    var one, x, y := items[..1], Hex(items[0]), Hex(items[1]);
    assert one[1..] == [] && Colons(one) == x + ":" + "";
    assert x + ":" + "" + y == x + (":" + y);
  }

  lemma {:induction false} JoinOfFour(items: seq<seq<nat>>)
    requires |items| == 4
    ensures Join(items) == Hex(items[0]) + (":" + Hex(items[1])) + (":" + Hex(items[2])) + (":" + Hex(items[3]))
  {
    JoinOfTwo(items[..2]);
    JoinSnoc(items[..2], items[2]);
    JoinSnoc(items[..3], items[3]);
    assert items[..2] + [items[2]] == items[..3] && items[..3] + [items[3]] == items;
  }

  /** "1:z" is no address, but its first field has been stored when that is found out. */
  lemma OneFieldIsLeft()
    ensures ParseAddress("1:z") == None && LeftBehind("1:z") == [0, 1] + ZERO16[2..]
  {
    var s := "1:z";
    var st4 := Scan4State(-1, 0, [0, 0, 0, 0]);
    assert s[1..] == ":z" && s[1..][1..] == "z";
    assert Scan4(s, st4) == Scan4(":z", st4.(acc := 1)) == None;
    assert Left4(s, st4) == Left4(":z", st4.(acc := 1)) == [0, 0, 0, 0];
    OneFieldOf(Start(ZERO16));
    assert LeftByIPv4(s) == ZERO16;
  }

  lemma {:induction false} OneFieldOf(st: Scan)
    requires st == Start(ZERO16)
    ensures Scan6("1:z", st) == None && Left6("1:z", st) == [0, 1] + ZERO16[2..]
  {
    var one := Scan(1, 0, -1, ZERO16);
    assert "1:z"[1..] == ":z";
    assert Step6("1:z", st) == Some((":z", one));
    SeparatorIsStored(one, one.Store());
  }

  lemma {:induction false} SeparatorIsStored(one: Scan, stored: Scan)
    requires one == Scan(1, 0, -1, ZERO16) && stored == one.Store()
    ensures Scan6(":z", one) == None && Left6(":z", one) == stored.bytes == [0, 1] + ZERO16[2..]
  {
    assert ":z"[1..] == "z";
    assert Step6(":z", one) == Some(("z", stored));
    assert Step6("z", stored) == None;
  }

  /** An IPv4 object after such a failure: printed and read back it is another address. */
  method FailedReadDoesNotRoundTrip() returns (a: IPAddress, b: IPAddress, read: bool, again: bool)
    ensures !read && again && a.ipType == b.ipType == IPv4
    ensures a.bytes[..] == [0, 1] + ZERO16[2..] && b.bytes[..] == ZERO16
  {
    a := new IPAddress(IPv4, [0, 0, 0, 0]);
    b := new IPAddress(IPv4, [0, 0, 0, 0]);
    OneFieldIsLeft();
    read := a.FromString("1:z");
    again := PrintThenRead(a, b);
  }

  lemma Regroup3(a: string, b: string, c: string, d: string)
    ensures a + (b + c + d) == a + b + c + d
  {
  }

  /** The dotted text from octet `i` on. */
  function DottedFrom(o: seq<byte>, i: nat): string
    requires |o| == 4 && i < 4
    decreases 4 - i
  {
    if i == 3 then Decimal(o[3]) else Decimal(o[i]) + "." + DottedFrom(o, i + 1)
  }

  /** What follows the first `i` octets. */
  function AfterOctets(o: seq<byte>, i: nat): string
    requires |o| == 4 && i <= 4
  {
    if i == 4 then "" else (if i > 0 then "." else "") + DottedFrom(o, i)
  }

  lemma NextOctet(s: string, o: seq<byte>, i: nat)
    requires |o| == 4 && i < 4
    ensures s + AfterOctets(o, i) == s + ((if i > 0 then "." else "") + Decimal(o[i])) + AfterOctets(o, i + 1)
  {
    OctetFirst(o, i, Decimal(o[i]));
    NextPiece(s, if i > 0 then "." else "", Decimal(o[i]), AfterOctets(o, i + 1), DottedFrom(o, i));
  }

  lemma OctetFirst(o: seq<byte>, i: nat, d: string)
    requires |o| == 4 && i < 4 && d == Decimal(o[i])
    ensures DottedFrom(o, i) == d + AfterOctets(o, i + 1)
  {
    if i < 3 {
      Associate(d, ".", DottedFrom(o, i + 1));
    }
  }

  lemma NextPiece(s: string, dot: string, d: string, rest: string, tail: string)
    requires tail == d + rest
    ensures s + (dot + tail) == s + (dot + d) + rest
  {
    Associate(dot, d, rest);
    Associate(s, dot + d, rest);
  }
}
