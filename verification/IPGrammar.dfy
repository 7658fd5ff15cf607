/** What `IPAddress::fromString` accepts, said of the text as a whole: it is cut at its
    separators, and what is between them are numbers. */
module IPGrammar {
  import opened Arith
  import opened Numerals
  import opened IPText

  /** A C string. */
  function CText(s: string): (t: string)
    ensures |t| <= |s|
  {
    if Ends(s) then "" else [s[0]] + CText(s[1..])
  }

  /** What is between the separators. */
  function Cut(s: string, separator: char): (p: seq<string>)
    ensures |p| >= 1
  {
    if s == "" then [""]
    else
      var rest := Cut(s[1..], separator);
      if s[0] == separator then [""] + rest else [[s[0]] + rest[0]] + rest[1..]
  }

  /** With `q` in front of the first piece. */
  function Behind(q: string, p: seq<string>): (r: seq<string>)
    requires |p| >= 1
    ensures |r| == |p|
  {
    [q + p[0]] + p[1..]
  }

  lemma BehindCharacter(q: string, c: char, p: seq<string>)
    requires |p| >= 1
    ensures Behind(q, Behind([c], p)) == Behind(q + [c], p)
  {
    assert q + ([c] + p[0]) == q + [c] + p[0];
  }

  lemma BehindNothing(p: seq<string>)
    requires |p| >= 1
    ensures Behind("", p) == p
  {
    assert "" + p[0] == p[0];
  }

  lemma CutFirst(c: char, s: string, separator: char)
    ensures Cut([c] + s, separator) == if c == separator then [""] + Cut(s, separator) else Behind([c], Cut(s, separator))
  {
    assert ([c] + s)[1..] == s;
  }

  // ---- Dotted decimal -----------------------------------------------------------------------

  predicate Decimals(p: string) {
    forall i :: 0 <= i < |p| ==> '0' <= p[i] <= '9'
  }

  function Number(p: string): int { ReadIn(p, 10, false) }

  /** A number up to 255, leading zeros and all. */
  predicate IsOctet(p: string) {
    p != "" && Decimals(p) && Number(p) <= 255
  }

  lemma {:induction false} NumberOfDecimals(p: string)
    requires Decimals(p)
    ensures Number(p) >= 0
  {
    if p != "" {
      NumberOfDecimals(p[..|p| - 1]);
    }
  }

  lemma NumberSnoc(q: string, c: char)
    requires '0' <= c <= '9'
    ensures Number(q + [c]) == Number(q) * 10 + (c as int - '0' as int)
  {
    assert (q + [c])[..|q|] == q;
  }

  lemma {:induction false} NumberGrows(q: string, more: string)
    requires Decimals(q) && Decimals(more)
    ensures Number(q + more) >= Number(q)
  {
    if more == "" {
      assert q + more == q;
    } else {
      var n := |more| - 1;
      NumberOfDecimals(q + more[..n]);
      NumberGrows(q, more[..n]);
      NumberSnoc(q + more[..n], more[n]);
      assert q + more == q + more[..n] + [more[n]];
    }
  }

  function Numbers(p: seq<string>): (v: seq<int>)
    ensures |v| == |p| && forall i :: 0 <= i < |p| ==> v[i] == Number(p[i])
  {
    seq(|p|, i requires 0 <= i < |p| => Number(p[i]))
  }

  predicate AreOctets(p: seq<string>) {
    forall i :: 0 <= i < |p| ==> IsOctet(p[i])
  }

  /** The bytes of such pieces. */
  function Bytes4(p: seq<string>): (b: seq<byte>)
    requires AreOctets(p)
    ensures |b| == |p| && forall i :: 0 <= i < |p| ==> b[i] == Number(p[i])
  {
    seq(|p|, i requires 0 <= i < |p| => Octet(p[i]))
  }

  function Octet(p: string): (b: byte)
    requires IsOctet(p)
    ensures b == Number(p)
  {
    NumberOfDecimals(p);
    Number(p)
  }

  /** What the rest of the pieces make of the octets so far. */
  function Result4(p: seq<string>, dots: nat, o: seq<byte>): Option<seq<byte>>
    requires dots <= 3 && |o| == 4
  {
    if |p| == 4 - dots && AreOctets(p) then Some(o[..dots] + Bytes4(p)) else None
  }

  function Finish4(r: Option<Scan4State>): Option<seq<byte>> {
    if r.None? || |r.value.octets| != 4 || r.value.dots != 3 || !(0 <= r.value.acc <= 255) then None
    else Some(r.value.octets[3 := r.value.acc])
  }

  function At4(q: string, dots: nat, o: seq<byte>): Scan4State {
    Scan4State(if q == "" then -1 else Number(q), dots, o)
  }

  lemma {:induction false} Scan4Exactly(s: string, q: string, dots: nat, o: seq<byte>)
    requires Decimals(q) && 0 <= Number(q) <= 255 && dots <= 3 && |o| == 4
    ensures Finish4(Scan4(s, At4(q, dots, o))) == Result4(Behind(q, Cut(CText(s), '.')), dots, o)
    decreases |s|
  {
    var p := Cut(CText(s), '.');
    if Ends(s) {
      assert Behind(q, p) == [q + ""] && q + "" == q;
      Last4(q, dots, o);
    } else {
      var c, rest := s[0], s[1..];
      CutFirst(c, CText(rest), '.');
      if '0' <= c <= '9' {
        Digit4(s, q, dots, o);
      } else if c == '.' {
        Dot4(s, q, dots, o);
      } else {
        assert Behind(q, p)[0][|q|] == c;
        assert !IsOctet(Behind(q, p)[0]);
      }
    }
  }

  lemma Last4(q: string, dots: nat, o: seq<byte>)
    requires Decimals(q) && 0 <= Number(q) <= 255 && dots <= 3 && |o| == 4
    ensures Finish4(Some(At4(q, dots, o))) == Result4([q], dots, o)
  {
    if dots == 3 && q != "" {
      assert AreOctets([q]) && Bytes4([q]) == [Number(q)];
      assert o[3 := Number(q)] == o[..3] + [Number(q)];
    } else if q == "" {
      assert !IsOctet([q][0]);
    }
  }

  lemma {:induction false} Digit4(s: string, q: string, dots: nat, o: seq<byte>)
    requires Decimals(q) && 0 <= Number(q) <= 255 && dots <= 3 && |o| == 4
    requires !Ends(s) && '0' <= s[0] <= '9'
    ensures Finish4(Scan4(s, At4(q, dots, o))) == Result4(Behind(q, Cut(CText(s), '.')), dots, o)
    decreases |s|, 0
  {
    var c, rest := s[0], s[1..];
    var p := Cut(CText(rest), '.');
    CutFirst(c, CText(rest), '.');
    BehindCharacter(q, c, p);
    TurnOfDigit4(s, q, dots, o);
    if Number(q + [c]) > 255 {
      TooLarge4(q + [c], p);
    } else {
      NumberOfDecimals(q + [c]);
      Scan4Exactly(rest, q + [c], dots, o);
    }
  }

  lemma TurnOfDigit4(s: string, q: string, dots: nat, o: seq<byte>)
    requires Decimals(q) && 0 <= Number(q) <= 255 && dots <= 3 && |o| == 4
    requires !Ends(s) && '0' <= s[0] <= '9'
    ensures Scan4(s, At4(q, dots, o)) ==
      if Number(q + [s[0]]) > 255 then None else Scan4(s[1..], At4(q + [s[0]], dots, o))
  {
    NumberSnoc(q, s[0]);
    NumberSnoc("", s[0]);
    assert "" + [s[0]] == [s[0]];
  }

  /** A digit too many. */
  lemma TooLarge4(q: string, p: seq<string>)
    requires |p| >= 1 && Decimals(q) && Number(q) > 255
    ensures !AreOctets(Behind(q, p))
  {
    var first := Behind(q, p)[0];
    if IsOctet(first) {
      assert forall i :: 0 <= i < |p[0]| ==> p[0][i] == first[|q| + i];
      NumberGrows(q, p[0]);
    }
  }

  lemma {:induction false} Dot4(s: string, q: string, dots: nat, o: seq<byte>)
    requires Decimals(q) && 0 <= Number(q) <= 255 && dots <= 3 && |o| == 4
    requires !Ends(s) && s[0] == '.'
    ensures Finish4(Scan4(s, At4(q, dots, o))) == Result4(Behind(q, Cut(CText(s), '.')), dots, o)
    decreases |s|, 0
  {
    var rest := s[1..];
    var p := Cut(CText(rest), '.');
    CutFirst('.', CText(rest), '.');
    var all := Behind(q, [""] + p);
    assert q + "" == q;
    assert all == [q] + p;
    TurnOfDot4(s, q, dots, o);
    if dots < 3 && q != "" {
      Scan4Exactly(rest, "", dots + 1, o[dots := Number(q)]);
      BehindNothing(p);
      OneMore4(q, p, dots, o);
    } else if q == "" {
      assert !IsOctet(all[0]);
    }
  }

  lemma TurnOfDot4(s: string, q: string, dots: nat, o: seq<byte>)
    requires Decimals(q) && 0 <= Number(q) <= 255 && dots <= 3 && |o| == 4
    requires !Ends(s) && s[0] == '.'
    ensures Scan4(s, At4(q, dots, o)) ==
      if q == "" || dots == 3 then None else Scan4(s[1..], At4("", dots + 1, o[dots := Number(q)]))
  {
  }

  lemma OneMore4(q: string, p: seq<string>, dots: nat, o: seq<byte>)
    requires IsOctet(q) && 0 <= Number(q) && dots < 3 && |o| == 4
    ensures Result4(p, dots + 1, o[dots := Number(q)]) == Result4([q] + p, dots, o)
  {
    var all := [q] + p;
    assert AreOctets(all) <==> AreOctets(p) by {
      if AreOctets(all) {
        assert forall i :: 0 <= i < |p| ==> p[i] == all[i + 1];
      }
    }
    if AreOctets(all) {
      assert Bytes4(all) == [Number(q)] + Bytes4(p);
      var n: byte := Number(q);
      assert o[dots := n][..dots + 1] == o[..dots] + [n];
      assert o[..dots] + [n] + Bytes4(p) == o[..dots] + ([n] + Bytes4(p));
    }
  }

  /** `fromString4` accepts exactly four numbers up to 255 with dots between them, and those
      are the octets. */
  lemma Parse4Exactly(s: string)
    ensures var p := Cut(CText(s), '.');
      Parse4(s) == if |p| == 4 && AreOctets(p) then Some(Bytes4(p)) else None
  {
    var o: seq<byte> := [0, 0, 0, 0];
    assert Number("") == 0;
    Scan4Exactly(s, "", 0, o);
    var p := Cut(CText(s), '.');
    BehindNothing(p);
    if AreOctets(p) {
      assert o[..0] + Bytes4(p) == Bytes4(p);
    }
  }

  // ---- IPv6 -------------------------------------------------------------------------------------

  /** What a character stands for in hexadecimal, capital or small; -1 for none. */
  function HexDigit(c: char): int {
    var d := if DigitOf(c, true) >= 0 then DigitOf(c, true) else DigitOf(c, false);
    if d < 16 then d else -1
  }

  function HexNumber(p: string): int {
    if p == "" then 0 else HexNumber(p[..|p| - 1]) * 16 + HexDigit(p[|p| - 1])
  }

  predicate Hexadecimal(p: string) {
    forall i :: 0 <= i < |p| ==> HexDigit(p[i]) >= 0
  }

  /** A number up to sixteen bits, leading zeros and all; nothing is zero. */
  predicate IsField(p: string) {
    Hexadecimal(p) && HexNumber(p) <= 0xFFFF
  }

  predicate AreFields(p: seq<string>) {
    forall i :: 0 <= i < |p| ==> IsField(p[i])
  }

  lemma {:induction false} HexOfDigits(p: string)
    requires Hexadecimal(p)
    ensures HexNumber(p) >= 0
  {
    if p != "" {
      HexOfDigits(p[..|p| - 1]);
    }
  }

  lemma HexSnoc(q: string, c: char)
    ensures HexNumber(q + [c]) == HexNumber(q) * 16 + HexDigit(c)
  {
    assert (q + [c])[..|q|] == q;
  }

  lemma {:induction false} HexGrows(q: string, more: string)
    requires Hexadecimal(q) && Hexadecimal(more)
    ensures HexNumber(q + more) >= HexNumber(q)
  {
    if more == "" {
      assert q + more == q;
    } else {
      var n := |more| - 1;
      HexOfDigits(q + more[..n]);
      HexGrows(q, more[..n]);
      HexSnoc(q + more[..n], more[n]);
      assert q + more == q + more[..n] + [more[n]];
    }
  }

  function Field(p: string): (v: nat)
    requires IsField(p)
    ensures v == HexNumber(p) <= 0xFFFF
  {
    HexOfDigits(p);
    HexNumber(p)
  }

  function FieldsOf(p: seq<string>): (v: seq<nat>)
    requires AreFields(p)
    ensures |v| == |p| && forall i :: 0 <= i < |p| ==> v[i] == HexNumber(p[i])
  {
    seq(|p|, i requires 0 <= i < |p| => Field(p[i]))
  }

  /** No piece but possibly the first is empty. */
  predicate Tight(p: seq<string>) {
    forall j :: 0 < j < |p| ==> p[j] != ""
  }

  /** Piece `g` is empty, between two separators, and no other but possibly the first; nor
      the last, unless the gap is in front of it. */
  predicate GapAt(p: seq<string>, g: nat) {
    && 0 < g < |p| - 1 && p[g] == ""
    && forall j :: 0 < j < |p| && j != g && p[j] == "" ==> g == |p| - 2 && j == |p| - 1
  }

  /** Zeros in place of field `g`, so that there are eight. */
  function Filled(v: seq<nat>, g: nat): (w: seq<nat>)
    requires g < |v| <= 8
  {
    v[..g] + Zeros(9 - |v|) + v[g + 1..]
  }

  /** The address such pieces are: eight fields; or up to seven, and a gap filled with
      zeros. */
  ghost predicate Means(p: seq<string>, r: Option<seq<byte>>) {
    if !AreFields(p) then r == None
    else if Tight(p) then r == if |p| == 8 then Some(Unpack(FieldsOf(p))) else None
    else if |p| <= 8 && exists g: nat :: GapAt(p, g)
    then forall g: nat :: GapAt(p, g) ==> r == Some(Unpack(Filled(FieldsOf(p), g)))
    else r == None
  }

  // ---- After the gap ----------------------------------------------------------------------------

  /** What the rest of the pieces make of the fields in front of the gap, and of those
      behind it. */
  function Result6(front: seq<nat>, h: seq<nat>, p: seq<string>): Option<seq<byte>>
    requires |p| >= 1
  {
    if AreFields(p) && Tight(p) && (p[0] == "" ==> |p| == 1 && h == []) && |front| + |h| + |p| <= 7
    then Some(Unpack(front + Zeros(8 - |front| - |h| - |p|) + (h + FieldsOf(p))))
    else None
  }

  function Finish(r: Option<Scan>): Option<seq<byte>> {
    if r.None? || !r.value.Ok() then None else Finish6(r.value)
  }

  /** The variables hold the fields `f`, and the piece `q` so far. */
  predicate Holds(st: Scan, q: string, f: seq<nat>, double: int) {
    && st.Ok() && IsField(q) && st.acc == HexNumber(q) && st.double == double
    && st.colons == |f| && (forall i :: 0 <= i < |f| ==> f[i] <= 0xFFFF)
    && st.bytes[..2 * |f|] == Unpack(f)
  }

  /** Where the gap is noted: behind the fields in front of it, or in front of a last one of
      them that is zero. */
  predicate Notes(double: int, front: seq<nat>) {
    && front != [] && |front| - 1 <= double <= |front|
    && (double == |front| - 1 ==> front[double] == 0)
  }

  lemma StoreHolds(st: Scan, q: string, f: seq<nat>, double: int)
    requires Holds(st, q, f, double) && |f| < 7
    ensures Holds(st.Store(), "", f + [HexNumber(q)], double)
  {
    var v: nat := HexNumber(q);
    UnpackConcat(f, [v]);
    assert Unpack([v]) == [v / 256 % 256, v % 256];
    assert HexNumber("") == 0;
    var b := st.Store().bytes;
    assert b[..2 * |f| + 2] == b[..2 * |f|] + [v / 256, v % 256];
    assert b[..2 * |f|] == st.bytes[..2 * |f|];
  }

  lemma HexCharacter(c: char)
    ensures IsHexChar(ToLower(c)) <==> HexDigit(c) >= 0
    ensures IsHexChar(ToLower(c)) ==> HexValue(ToLower(c)) == HexDigit(c)
    ensures ToLower(c) == ':' <==> c == ':'
  {
  }

  /** The bytes between the fields in front of the gap and those behind it are zeros. */
  lemma ExpandHolds(bytes: seq<byte>, front: seq<nat>, h: seq<nat>, double: nat)
    requires |bytes| == 16 && |front| + |h| <= 7 && Notes(double, front)
    requires bytes[..2 * (|front| + |h|)] == Unpack(front + h)
    ensures Expand(bytes, |front| + |h|, double) == Unpack(front + Zeros(8 - |front| - |h|) + h)
  {
    var f, n := front + h, |front| + |h|;
    assert f == f[..double] + f[double..];
    ZeroBytes(8 - n);
    ExpandIs(bytes, f[..double], Zeros(8 - n), f[double..]);
    GapMoves(front, h, double, 8 - n);
  }

  lemma ExpandIs(bytes: seq<byte>, a: seq<nat>, z: seq<nat>, b: seq<nat>)
    requires |a| + |z| + |b| == 8 && z != [] && AreZeros(Unpack(z))
    requires |bytes| == 16 && bytes[..2 * (|a| + |b|)] == Unpack(a + b)
    ensures Expand(bytes, |a| + |b|, |a|) == Unpack(a + z + b)
  {
    UnpackConcat(a, b);
    ExpandBytes(bytes, |a| + |b|, |a|, Unpack(a), Unpack(z), Unpack(b));
    UnpackThree(a, z, b);
  }

  lemma UnpackThree(a: seq<nat>, z: seq<nat>, b: seq<nat>)
    ensures Unpack(a + z + b) == Unpack(a) + Unpack(z) + Unpack(b)
  {
    UnpackConcat(a, z);
    UnpackConcat(a + z, b);
  }

  predicate AreZeros(z: seq<byte>) {
    forall i :: 0 <= i < |z| ==> z[i] == 0
  }

  lemma ZeroBytes(n: nat)
    ensures AreZeros(Unpack(Zeros(n)))
  {
    UnpackZeros(n);
  }

  lemma ExpandBytes(bytes: seq<byte>, n: nat, d: nat, a: seq<byte>, z: seq<byte>, b: seq<byte>)
    requires |bytes| == 16 && n <= 7 && bytes[..2 * n] == a + b && |a| == 2 * d <= 2 * n
    requires |z| == 16 - 2 * n && AreZeros(z)
    ensures Expand(bytes, n, d) == a + z + b
  {
    assert bytes[..2 * d] == (a + b)[..2 * d] == a;
    assert bytes[2 * d..2 * n] == (a + b)[2 * d..] == b;
    assert seq(16 - 2 * n, _ => 0) == z;
  }

  lemma GapMoves(front: seq<nat>, h: seq<nat>, double: nat, n: nat)
    requires Notes(double, front)
    ensures (front + h)[..double] + Zeros(n) + (front + h)[double..] == front + Zeros(n) + h
  {
    if double < |front| {
      assert front == front[..double] + [0];
      assert Zeros(n) + ([0] + h) == [0] + Zeros(n) + h;
      assert (front + h)[..double] == front[..double] && (front + h)[double..] == [0] + h;
      assert front[..double] + Zeros(n) + ([0] + h) == front[..double] + (Zeros(n) + ([0] + h));
      assert front[..double] + ([0] + Zeros(n) + h) == front + Zeros(n) + h;
    }
  }

  lemma LastAfter(q: string, st: Scan, front: seq<nat>, h: seq<nat>)
    requires Holds(st, q, front + h, st.double) && Notes(st.double, front) && (q == "" ==> h == [])
    ensures Finish(Some(st)) == Result6(front, h, [q])
  {
    if st.colons <= 6 {
      StoreHolds(st, q, front + h, st.double);
      var v: nat := HexNumber(q);
      assert front + h + [v] == front + (h + [v]);
      ExpandHolds(st.Store().bytes, front, h + [v], st.double);
      assert FieldsOf([q]) == [v];
    }
  }

  lemma {:induction false} ScanAfter(s: string, q: string, st: Scan, front: seq<nat>, h: seq<nat>)
    requires Holds(st, q, front + h, st.double) && Notes(st.double, front)
    requires q == "" ==> if Ends(s) then h == [] else s[0] != ':'
    ensures Finish(Scan6(s, st)) == Result6(front, h, Behind(q, Cut(CText(s), ':')))
    decreases |s|, 1
  {
    if Ends(s) {
      assert Behind(q, [""]) == [q + ""] && q + "" == q;
      LastAfter(q, st, front, h);
    } else {
      var c, rest := s[0], s[1..];
      CutFirst(c, CText(rest), ':');
      HexCharacter(c);
      if HexDigit(c) >= 0 {
        DigitAfter(s, q, st, front, h);
      } else if c == ':' {
        ColonAfter(s, q, st, front, h);
      } else {
        NoField(q, c, Cut(CText(rest), ':'));
      }
    }
  }

  /** A character that is no digit spoils its piece. */
  lemma NoField(q: string, c: char, p: seq<string>)
    requires |p| >= 1 && HexDigit(c) < 0
    ensures !AreFields(Behind(q, Behind([c], p)))
  {
    var first := Behind(q, Behind([c], p))[0];
    assert first[|q|] == c;
    assert !IsField(first);
  }

  /** And so does one digit too many. */
  lemma TooLarge(q: string, p: seq<string>)
    requires |p| >= 1 && Hexadecimal(q) && HexNumber(q) > 0xFFFF
    ensures !AreFields(Behind(q, p))
  {
    var first := Behind(q, p)[0];
    if IsField(first) {
      assert forall i :: 0 <= i < |p[0]| ==> p[0][i] == first[|q| + i];
      HexGrows(q, p[0]);
    }
  }

  lemma TurnOfDigit6(s: string, q: string, st: Scan)
    requires st.Ok() && IsField(q) && st.acc == HexNumber(q) && !Ends(s) && HexDigit(s[0]) >= 0
    ensures Hexadecimal(q + [s[0]])
    ensures var n := HexNumber(q + [s[0]]);
      if n > 0xFFFF then Scan6(s, st) == None else n >= 0 && Scan6(s, st) == Scan6(s[1..], st.(acc := n))
  {
    HexCharacter(s[0]);
    HexSnoc(q, s[0]);
  }

  lemma {:induction false} DigitAfter(s: string, q: string, st: Scan, front: seq<nat>, h: seq<nat>)
    requires Holds(st, q, front + h, st.double) && Notes(st.double, front)
    requires !Ends(s) && HexDigit(s[0]) >= 0
    ensures Finish(Scan6(s, st)) == Result6(front, h, Behind(q, Cut(CText(s), ':')))
    decreases |s|, 0
  {
    var c, rest := s[0], s[1..];
    var p := Cut(CText(rest), ':');
    CutFirst(c, CText(rest), ':');
    BehindCharacter(q, c, p);
    TurnOfDigit6(s, q, st);
    if HexNumber(q + [c]) > 0xFFFF {
      TooLarge(q + [c], p);
    } else {
      ScanAfter(rest, q + [c], st.(acc := HexNumber(q + [c])), front, h);
    }
  }

  lemma {:induction false} ColonAfter(s: string, q: string, st: Scan, front: seq<nat>, h: seq<nat>)
    requires Holds(st, q, front + h, st.double) && Notes(st.double, front)
    requires !Ends(s) && s[0] == ':' && q != ""
    ensures Finish(Scan6(s, st)) == Result6(front, h, Behind(q, Cut(CText(s), ':')))
    decreases |s|, 0
  {
    var rest := s[1..];
    var p := Cut(CText(rest), ':');
    CutFirst(':', CText(rest), ':');
    HexCharacter(':');
    assert Behind(q, [""] + p) == [q] + p by {
      assert q + "" == q;
    }
    if Ends(rest) {
      assert ([q] + p)[1] == "";
    } else if rest[0] == ':' {
      CutFirst(':', CText(rest[1..]), ':');
      assert ([q] + p)[1] == "";
    } else if st.colons < 7 {
      StoreHolds(st, q, front + h, st.double);
      var v: nat := HexNumber(q);
      assert front + h + [v] == front + (h + [v]);
      ScanAfter(rest, "", st.Store(), front, h + [v]);
      BehindNothing(p);
      FirstIsNotEmpty(rest);
      OneMoreAfter(q, p, front, h);
    }
  }

  lemma FirstIsNotEmpty(s: string)
    requires !Ends(s) && s[0] != ':'
    ensures Cut(CText(s), ':')[0] != ""
  {
    CutFirst(s[0], CText(s[1..]), ':');
  }

  lemma OneMoreAfter(q: string, p: seq<string>, front: seq<nat>, h: seq<nat>)
    requires IsField(q) && q != "" && |p| >= 1 && p[0] != "" && HexNumber(q) >= 0
    ensures Result6(front, h + [HexNumber(q)], p) == Result6(front, h, [q] + p)
  {
    MoreFields(q, p);
    MoreTight(q, p);
    if AreFields(p) {
      Regrouped(h, HexNumber(q), FieldsOf(p));
    }
  }

  lemma Regrouped(a: seq<nat>, v: nat, b: seq<nat>)
    ensures a + [v] + b == a + ([v] + b)
  {
  }

  lemma MoreTight(q: string, p: seq<string>)
    requires |p| >= 1 && p[0] != ""
    ensures Tight([q] + p) <==> Tight(p)
  {
    assert forall j :: 0 <= j < |p| ==> ([q] + p)[j + 1] == p[j];
  }

  lemma MoreFields(q: string, p: seq<string>)
    requires IsField(q) && HexNumber(q) >= 0
    ensures AreFields([q] + p) <==> AreFields(p)
    ensures AreFields(p) ==> FieldsOf([q] + p) == [HexNumber(q)] + FieldsOf(p)
  {
    MoreAreFields(q, p);
    if AreFields(p) {
      var v: nat := HexNumber(q);
      assert FieldsOf([q] + p) == [v] + FieldsOf(p);
    }
  }

  lemma MoreAreFields(q: string, p: seq<string>)
    requires IsField(q)
    ensures AreFields([q] + p) <==> AreFields(p)
  {
    var all := [q] + p;
    assert forall j :: 0 <= j < |p| ==> all[j + 1] == p[j];
    if AreFields(p) {
      forall j | 0 <= j < |all| ensures IsField(all[j]) {
        assert j > 0 ==> all[j] == p[j - 1];
      }
    }
  }

  // ---- Before the gap ---------------------------------------------------------------------------

  function FirstEmpty(p: seq<string>, j: nat): (k: nat)
    requires j <= |p|
    ensures j <= k <= |p| && (k < |p| ==> p[k] == "") && forall i :: j <= i < k ==> p[i] != ""
    decreases |p| - j
  {
    if j == |p| || p[j] == "" then j else FirstEmpty(p, j + 1)
  }

  /** What the rest of the pieces make of the fields so far, if there has been no gap. */
  function Result6Before(f: seq<nat>, p: seq<string>): Option<seq<byte>>
    requires |p| >= 1
  {
    if !AreFields(p) then None
    else
      var g := FirstEmpty(p, 1);
      if g == |p| then (if |f| + |p| == 8 then Some(Unpack(f + FieldsOf(p))) else None)
      else if g == |p| - 1 then None
      else Result6(f + FieldsOf(p[..g]), [], p[g + 1..])
  }

  lemma LastBefore(q: string, st: Scan, f: seq<nat>)
    requires Holds(st, q, f, -1)
    ensures Finish(Some(st)) == Result6Before(f, [q])
  {
    if st.colons == 7 {
      var v: nat := HexNumber(q);
      assert FieldsOf([q]) == [v];
      UnpackConcat(f, [v]);
      assert Unpack([v]) == [v / 256 % 256, v % 256];
      var b := st.Store().bytes;
      assert b == st.bytes[..14] + [v / 256, v % 256];
    }
  }

  lemma {:induction false} ScanBefore(s: string, q: string, st: Scan, f: seq<nat>)
    requires Holds(st, q, f, -1) && (q == "" ==> f == [] || (!Ends(s) && s[0] != ':'))
    ensures Finish(Scan6(s, st)) == Result6Before(f, Behind(q, Cut(CText(s), ':')))
    decreases |s|, 2
  {
    if Ends(s) {
      assert Behind(q, [""]) == [q + ""] && q + "" == q;
      LastBefore(q, st, f);
    } else {
      var c, rest := s[0], s[1..];
      CutFirst(c, CText(rest), ':');
      HexCharacter(c);
      if HexDigit(c) >= 0 {
        DigitBefore(s, q, st, f);
      } else if c == ':' {
        ColonBefore(s, q, st, f);
      } else {
        NoField(q, c, Cut(CText(rest), ':'));
      }
    }
  }

  lemma {:induction false} DigitBefore(s: string, q: string, st: Scan, f: seq<nat>)
    requires Holds(st, q, f, -1) && !Ends(s) && HexDigit(s[0]) >= 0
    ensures Finish(Scan6(s, st)) == Result6Before(f, Behind(q, Cut(CText(s), ':')))
    decreases |s|, 0
  {
    var c, rest := s[0], s[1..];
    var p := Cut(CText(rest), ':');
    CutFirst(c, CText(rest), ':');
    BehindCharacter(q, c, p);
    TurnOfDigit6(s, q, st);
    if HexNumber(q + [c]) > 0xFFFF {
      TooLarge(q + [c], p);
    } else {
      ScanBefore(rest, q + [c], st.(acc := HexNumber(q + [c])), f);
    }
  }

  lemma {:induction false} ColonBefore(s: string, q: string, st: Scan, f: seq<nat>)
    requires Holds(st, q, f, -1) && !Ends(s) && s[0] == ':' && (q == "" ==> f == [])
    ensures Finish(Scan6(s, st)) == Result6Before(f, Behind(q, Cut(CText(s), ':')))
    decreases |s|, 1
  {
    var rest := s[1..];
    var p := Cut(CText(rest), ':');
    CutFirst(':', CText(rest), ':');
    HexCharacter(':');
    assert Behind(q, [""] + p) == [q] + p by {
      assert q + "" == q;
    }
    if Ends(rest) {
      assert ([q] + p)[1] == "";
    } else if rest[0] == ':' {
      var more := Cut(CText(rest[1..]), ':');
      CutFirst(':', CText(rest[1..]), ':');
      assert [q] + ([""] + more) == [q, ""] + more;
      DoubleBefore(s, q, st, f, rest[1..], more);
    } else {
      SingleBefore(s, q, st, f, p);
    }
  }

  lemma {:induction false} SingleBefore(s: string, q: string, st: Scan, f: seq<nat>, p: seq<string>)
    requires Holds(st, q, f, -1) && !Ends(s) && s[0] == ':' && (q == "" ==> f == [])
    requires !Ends(s[1..]) && s[1] != ':' && p == Cut(CText(s[1..]), ':')
    ensures Finish(Scan6(s, st)) == Result6Before(f, [q] + p)
    decreases |s|, 0
  {
    var rest := s[1..];
    HexCharacter(':');
    FirstIsNotEmpty(rest);
    OneMoreBefore(q, p, f);
    if st.colons < 7 {
      StoreHolds(st, q, f, -1);
      ScanBefore(rest, "", st.Store(), f + [HexNumber(q)]);
      BehindNothing(p);
    } else {
      TooMany(f + [HexNumber(q)], p);
    }
  }

  lemma {:induction false} DoubleBefore(s: string, q: string, st: Scan, f: seq<nat>, rest: string, p: seq<string>)
    requires Holds(st, q, f, -1) && !Ends(s) && s[0] == ':' && !Ends(s[1..]) && s[1] == ':' && rest == s[2..]
    requires p == Cut(CText(rest), ':')
    ensures Finish(Scan6(s, st)) == Result6Before(f, [q, ""] + p)
    decreases |s|, 0
  {
    var v: nat := HexNumber(q);
    DoubleParts(q, p, f);
    if !Ends(rest) && rest[0] == ':' {
      CutFirst(':', CText(rest[1..]), ':');
    } else if st.colons < 7 {
      StoreHolds(st, q, f, -1);
      var double := st.colons + if st.acc != 0 then 1 else 0;
      assert f + [v] + [] == f + [v];
      ScanAfter(rest, "", st.Store().(double := double), f + [v], []);
      BehindNothing(p);
    }
  }

  lemma DoubleParts(q: string, p: seq<string>, f: seq<nat>)
    requires IsField(q) && |p| >= 1 && HexNumber(q) >= 0
    ensures Result6Before(f, [q, ""] + p) == Result6(f + [HexNumber(q)], [], p)
  {
    var all, v: nat := [q, ""] + p, HexNumber(q);
    assert all[1] == "" && all[..1] == [q] && all[2..] == p && FirstEmpty(all, 1) == 1;
    assert FieldsOf([q]) == [v];
    MoreFields("", p);
    MoreFields(q, [""] + p);
    assert [q] + ([""] + p) == all;
  }

  /** Beyond eight fields nothing is accepted. */
  lemma TooMany(f: seq<nat>, p: seq<string>)
    requires |f| == 8 && |p| >= 1
    ensures Result6Before(f, p) == None
  {
  }

  lemma OneMoreBefore(q: string, p: seq<string>, f: seq<nat>)
    requires IsField(q) && |p| >= 1 && p[0] != "" && HexNumber(q) >= 0
    ensures Result6Before(f + [HexNumber(q)], p) == Result6Before(f, [q] + p)
  {
    MoreFields(q, p);
    if AreFields(p) {
      FirstEmptyMoves(q, p, 1);
      if FirstEmpty(p, 1) == |p| {
        Regrouped(f, HexNumber(q), FieldsOf(p));
      } else if FirstEmpty(p, 1) < |p| - 1 {
        InFrontOfTheGap(q, p, f);
      }
    }
  }

  lemma InFrontOfTheGap(q: string, p: seq<string>, f: seq<nat>)
    requires IsField(q) && |p| >= 1 && AreFields(p) && HexNumber(q) >= 0
    requires AreFields([q] + p) && FirstEmpty([q] + p, 1) == FirstEmpty(p, 1) + 1 < |p|
    ensures Result6Before(f + [HexNumber(q)], p) == Result6Before(f, [q] + p)
  {
    var g := FirstEmpty(p, 1);
    FieldsInFront(q, p, f, g);
    var all := [q] + p;
    assert AreFields(all[..g + 1]);
    assert f + FieldsOf(all[..g + 1]) == f + [HexNumber(q)] + FieldsOf(p[..g]);
  }

  lemma FieldsInFront(q: string, p: seq<string>, f: seq<nat>, g: nat)
    requires IsField(q) && AreFields(p) && g < |p| && HexNumber(q) >= 0
    ensures AreFields(p[..g]) && AreFields(([q] + p)[..g + 1])
    ensures ([q] + p)[g + 2..] == p[g + 1..]
    ensures f + FieldsOf(([q] + p)[..g + 1]) == f + [HexNumber(q)] + FieldsOf(p[..g])
  {
    var v: nat := HexNumber(q);
    assert ([q] + p)[..g + 1] == [q] + p[..g];
    MoreFields(q, p[..g]);
    Regrouped(f, v, FieldsOf(p[..g]));
  }

  lemma {:induction false} FirstEmptyMoves(q: string, p: seq<string>, j: nat)
    requires j <= |p|
    ensures FirstEmpty([q] + p, j + 1) == FirstEmpty(p, j) + 1
    decreases |p| - j
  {
    if j < |p| && p[j] != "" {
      FirstEmptyMoves(q, p, j + 1);
    }
  }

  // ---- The whole text -----------------------------------------------------------------------------

  /** `fromString6` accepts exactly eight fields with colons between them, or up to seven and a
      gap; the first may be empty. */
  lemma Parse6Exactly(s: string, bytes: seq<byte>)
    requires |bytes| == 16
    ensures Means(Cut(CText(s), ':'), Parse6(s, bytes))
  {
    var p := Cut(CText(s), ':');
    assert HexNumber("") == 0 && Unpack([]) == [] && bytes[..0] == [];
    ScanBefore(s, "", Start(bytes), []);
    BehindNothing(p);
    if AreFields(p) {
      if Tight(p) {
        assert [] + FieldsOf(p) == FieldsOf(p);
      } else {
        OneGap(p);
      }
    }
  }

  lemma OneGap(p: seq<string>)
    requires |p| >= 1 && AreFields(p) && !Tight(p)
    ensures Means(p, Result6Before([], p))
  {
    var g := FirstEmpty(p, 1);
    assert g < |p| && p[g] == "";
    forall k: nat | GapAt(p, k) ensures k == g {
    }
    if g < |p| - 1 {
      GapResult(p, g);
    }
  }

  lemma GapResult(p: seq<string>, g: nat)
    requires AreFields(p) && 0 < g < |p| - 1 && FirstEmpty(p, 1) == g
    ensures Result6Before([], p) ==
      if GapAt(p, g) && |p| <= 8 then Some(Unpack(Filled(FieldsOf(p), g))) else None
  {
    var tail := p[g + 1..];
    GapParts(p, g);
    TightTail(p, g, tail);
    if GapAt(p, g) && |p| <= 8 {
      FieldsOfParts(p, g);
      FilledResult(FieldsOf(p), g, tail);
    }
  }

  lemma FilledResult(v: seq<nat>, g: nat, tail: seq<string>)
    requires g < |v| <= 8 && |tail| == |v| - g - 1 >= 1
    requires AreFields(tail) && [] + FieldsOf(tail) == v[g + 1..]
    requires Tight(tail) && (tail[0] == "" ==> |tail| == 1)
    ensures Result6(v[..g], [], tail) == Some(Unpack(Filled(v, g)))
  {
    assert 8 - g - |tail| == 9 - |v|;
  }

  lemma GapParts(p: seq<string>, g: nat)
    requires AreFields(p) && 0 < g < |p| - 1 && FirstEmpty(p, 1) == g
    ensures Result6Before([], p) == Result6(FieldsOf(p)[..g], [], p[g + 1..])
  {
    FieldsOfParts(p, g);
  }

  lemma FieldsOfParts(p: seq<string>, g: nat)
    requires AreFields(p) && g < |p|
    ensures AreFields(p[..g]) && [] + FieldsOf(p[..g]) == FieldsOf(p)[..g]
    ensures AreFields(p[g + 1..]) && [] + FieldsOf(p[g + 1..]) == FieldsOf(p)[g + 1..]
  {
  }

  lemma TightTail(p: seq<string>, g: nat, tail: seq<string>)
    requires 0 < g < |p| - 1 && FirstEmpty(p, 1) == g && tail == p[g + 1..]
    ensures GapAt(p, g) <==> Tight(tail) && (tail[0] == "" ==> |tail| == 1)
  {
    assert forall j :: 0 <= j < |tail| ==> tail[j] == p[g + 1 + j];
    assert forall j :: g < j < |p| ==> p[j] == tail[j - g - 1];
  }
}
