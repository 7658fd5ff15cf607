/** A digest from the list in section A.5 of RFC 1321, worked out operation by operation:
    MD5 ("abcdefghijklmnopqrstuvwxyz"). Bits are computed on bytes, as eight-bit vectors,
    and everything else on numbers. */
module MD5Suite {
  import opened Arith
  import opened Bits
  import opened MD5
  import MD5Builders

  // ---- Bitwise operations, eight bits at a time ---------------------------------------------

  /** A number with one more bit behind it. */
  function Bit1(h: nat, b: bool): nat { 2 * h + if b then 1 else 0 }

  lemma {:induction false} OneMore(h: nat, a: bool, g: nat, b: bool)
    ensures And(Bit1(h, a), Bit1(g, b)) == Bit1(And(h, g), a && b)
    ensures Or(Bit1(h, a), Bit1(g, b)) == Bit1(Or(h, g), a || b)
    ensures Xor(Bit1(h, a), Bit1(g, b)) == Bit1(Xor(h, g), a != b)
  {
    var x, y := Bit1(h, a), Bit1(g, b);
    assert x / 2 == h && y / 2 == g && x % 2 == (if a then 1 else 0) && y % 2 == if b then 1 else 0;
  }

  /** And with four more, the highest first. */
  function Bits4(h: nat, b3: bool, b2: bool, b1: bool, b0: bool): nat {
    Bit1(Bit1(Bit1(Bit1(h, b3), b2), b1), b0)
  }

  lemma {:induction false} FourMore(h: nat, a3: bool, a2: bool, a1: bool, a0: bool,
                                    g: nat, b3: bool, b2: bool, b1: bool, b0: bool)
    ensures var x, y := Bits4(h, a3, a2, a1, a0), Bits4(g, b3, b2, b1, b0);
      && And(x, y) == Bits4(And(h, g), a3 && b3, a2 && b2, a1 && b1, a0 && b0)
      && Or(x, y) == Bits4(Or(h, g), a3 || b3, a2 || b2, a1 || b1, a0 || b0)
      && Xor(x, y) == Bits4(Xor(h, g), a3 != b3, a2 != b2, a1 != b1, a0 != b0)
  {
    var x3, y3 := Bit1(h, a3), Bit1(g, b3);
    var x2, y2 := Bit1(x3, a2), Bit1(y3, b2);
    var x1, y1 := Bit1(x2, a1), Bit1(y2, b1);
    OneMore(h, a3, g, b3);
    OneMore(x3, a2, y3, b2);
    OneMore(x2, a1, y2, b1);
    OneMore(x1, a0, y1, b0);
  }

  /** A number with a byte behind it; and with the higher half of the byte, and the lower. */
  function Glued(h: nat, x: bv8): nat { 256 * h + x as int }

  function High(h: nat, x: bv8): nat { Bits4(h, x & 128 != 0, x & 64 != 0, x & 32 != 0, x & 16 != 0) }

  function Low(h: nat, x: bv8): nat { Bits4(h, x & 8 != 0, x & 4 != 0, x & 2 != 0, x & 1 != 0) }

  lemma {:induction false} HighAndLow(h: nat, x: bv8)
    ensures Low(High(h, x), x) == Glued(h, x)
  {
  }

  lemma {:induction false} Flags(x: bv8, y: bv8, m: bv8)
    requires m == 1 || m == 2 || m == 4 || m == 8 || m == 16 || m == 32 || m == 64 || m == 128
    ensures (x & y) & m != 0 <==> x & m != 0 && y & m != 0
    ensures (x | y) & m != 0 <==> x & m != 0 || y & m != 0
    ensures (x ^ y) & m != 0 <==> (x & m != 0) != (y & m != 0)
  {
  }

  /** A byte more. */
  lemma {:induction false} AndByte(h: nat, x: bv8, g: nat, y: bv8)
    ensures And(Glued(h, x), Glued(g, y)) == Glued(And(h, g), x & y)
  {
    FourMore(h, x & 128 != 0, x & 64 != 0, x & 32 != 0, x & 16 != 0, g, y & 128 != 0, y & 64 != 0, y & 32 != 0,
          y & 16 != 0);
    AndLow(High(h, x), x, High(g, y), y);
    Flags(x, y, 128);
    Flags(x, y, 64);
    Flags(x, y, 32);
    Flags(x, y, 16);
    assert And(High(h, x), High(g, y)) == High(And(h, g), x & y);
    HighAndLow(h, x);
    HighAndLow(g, y);
    HighAndLow(And(h, g), x & y);
  }

  lemma {:induction false} AndLow(h: nat, x: bv8, g: nat, y: bv8)
    ensures And(Low(h, x), Low(g, y)) == Low(And(h, g), x & y)
  {
    FourMore(h, x & 8 != 0, x & 4 != 0, x & 2 != 0, x & 1 != 0, g, y & 8 != 0, y & 4 != 0, y & 2 != 0, y & 1 != 0);
    Flags(x, y, 8);
    Flags(x, y, 4);
    Flags(x, y, 2);
    Flags(x, y, 1);
  }

  lemma {:induction false} OrByte(h: nat, x: bv8, g: nat, y: bv8)
    ensures Or(Glued(h, x), Glued(g, y)) == Glued(Or(h, g), x | y)
  {
    FourMore(h, x & 128 != 0, x & 64 != 0, x & 32 != 0, x & 16 != 0, g, y & 128 != 0, y & 64 != 0, y & 32 != 0,
          y & 16 != 0);
    OrLow(High(h, x), x, High(g, y), y);
    Flags(x, y, 128);
    Flags(x, y, 64);
    Flags(x, y, 32);
    Flags(x, y, 16);
    assert Or(High(h, x), High(g, y)) == High(Or(h, g), x | y);
    HighAndLow(h, x);
    HighAndLow(g, y);
    HighAndLow(Or(h, g), x | y);
  }

  lemma {:induction false} OrLow(h: nat, x: bv8, g: nat, y: bv8)
    ensures Or(Low(h, x), Low(g, y)) == Low(Or(h, g), x | y)
  {
    FourMore(h, x & 8 != 0, x & 4 != 0, x & 2 != 0, x & 1 != 0, g, y & 8 != 0, y & 4 != 0, y & 2 != 0, y & 1 != 0);
    Flags(x, y, 8);
    Flags(x, y, 4);
    Flags(x, y, 2);
    Flags(x, y, 1);
  }

  lemma {:induction false} XorByte(h: nat, x: bv8, g: nat, y: bv8)
    ensures Xor(Glued(h, x), Glued(g, y)) == Glued(Xor(h, g), x ^ y)
  {
    FourMore(h, x & 128 != 0, x & 64 != 0, x & 32 != 0, x & 16 != 0, g, y & 128 != 0, y & 64 != 0, y & 32 != 0,
          y & 16 != 0);
    XorLow(High(h, x), x, High(g, y), y);
    Flags(x, y, 128);
    Flags(x, y, 64);
    Flags(x, y, 32);
    Flags(x, y, 16);
    assert Xor(High(h, x), High(g, y)) == High(Xor(h, g), x ^ y);
    HighAndLow(h, x);
    HighAndLow(g, y);
    HighAndLow(Xor(h, g), x ^ y);
  }

  lemma {:induction false} XorLow(h: nat, x: bv8, g: nat, y: bv8)
    ensures Xor(Low(h, x), Low(g, y)) == Low(Xor(h, g), x ^ y)
  {
    FourMore(h, x & 8 != 0, x & 4 != 0, x & 2 != 0, x & 1 != 0, g, y & 8 != 0, y & 4 != 0, y & 2 != 0, y & 1 != 0);
    Flags(x, y, 8);
    Flags(x, y, 4);
    Flags(x, y, 2);
    Flags(x, y, 1);
  }

  // ---- Words of four bytes ---------------------------------------------------------------------

  /** A word by its bytes, the highest first. */
  datatype W = W(b3: bv8, b2: bv8, b1: bv8, b0: bv8)

  function Num(w: W): word { Glued(Glued(Glued(Glued(0, w.b3), w.b2), w.b1), w.b0) }

  function AndW(x: W, y: W): W { W(x.b3 & y.b3, x.b2 & y.b2, x.b1 & y.b1, x.b0 & y.b0) }

  lemma {:induction false} AndOfWords(x: W, y: W)
    ensures And(Num(x), Num(y)) == Num(AndW(x, y))
  {
    assert And(0, 0) == 0;
    AndTwo(0, 0, x.b3, x.b2, y.b3, y.b2);
    AndTwo(Glued(Glued(0, x.b3), x.b2), Glued(Glued(0, y.b3), y.b2), x.b1, x.b0, y.b1, y.b0);
  }

  lemma {:induction false} AndTwo(h: nat, g: nat, x1: bv8, x0: bv8, y1: bv8, y0: bv8)
    ensures And(Glued(Glued(h, x1), x0), Glued(Glued(g, y1), y0)) == Glued(Glued(And(h, g), x1 & y1), x0 & y0)
  {
    AndByte(h, x1, g, y1);
    AndByte(Glued(h, x1), x0, Glued(g, y1), y0);
  }

  function OrW(x: W, y: W): W { W(x.b3 | y.b3, x.b2 | y.b2, x.b1 | y.b1, x.b0 | y.b0) }

  lemma {:induction false} OrOfWords(x: W, y: W)
    ensures Or(Num(x), Num(y)) == Num(OrW(x, y))
  {
    assert Or(0, 0) == 0;
    OrTwo(0, 0, x.b3, x.b2, y.b3, y.b2);
    OrTwo(Glued(Glued(0, x.b3), x.b2), Glued(Glued(0, y.b3), y.b2), x.b1, x.b0, y.b1, y.b0);
  }

  lemma {:induction false} OrTwo(h: nat, g: nat, x1: bv8, x0: bv8, y1: bv8, y0: bv8)
    ensures Or(Glued(Glued(h, x1), x0), Glued(Glued(g, y1), y0)) == Glued(Glued(Or(h, g), x1 | y1), x0 | y0)
  {
    OrByte(h, x1, g, y1);
    OrByte(Glued(h, x1), x0, Glued(g, y1), y0);
  }

  function XorW(x: W, y: W): W { W(x.b3 ^ y.b3, x.b2 ^ y.b2, x.b1 ^ y.b1, x.b0 ^ y.b0) }

  lemma {:induction false} XorOfWords(x: W, y: W)
    ensures Xor(Num(x), Num(y)) == Num(XorW(x, y))
  {
    assert Xor(0, 0) == 0;
    XorTwo(0, 0, x.b3, x.b2, y.b3, y.b2);
    XorTwo(Glued(Glued(0, x.b3), x.b2), Glued(Glued(0, y.b3), y.b2), x.b1, x.b0, y.b1, y.b0);
  }

  lemma {:induction false} XorTwo(h: nat, g: nat, x1: bv8, x0: bv8, y1: bv8, y0: bv8)
    ensures Xor(Glued(Glued(h, x1), x0), Glued(Glued(g, y1), y0)) == Glued(Glued(Xor(h, g), x1 ^ y1), x0 ^ y0)
  {
    XorByte(h, x1, g, y1);
    XorByte(Glued(h, x1), x0, Glued(g, y1), y0);
  }

  lemma {:induction false} Complement(x: bv8)
    ensures (!x) as int == 255 - x as int
  {
  }

  function NotW(x: W): W { W(!x.b3, !x.b2, !x.b1, !x.b0) }

  lemma {:induction false} NotOfWord(x: W)
    ensures Not(Num(x)) == Num(NotW(x))
  {
    Complement(x.b3);
    Complement(x.b2);
    Complement(x.b1);
    Complement(x.b0);
  }

  // ---- One operation ---------------------------------------------------------------------------

  function FW(x: W, y: W, z: W): W { OrW(AndW(x, y), AndW(NotW(x), z)) }

  function GW(x: W, y: W, z: W): W { OrW(AndW(x, z), AndW(y, NotW(z))) }

  function HW(x: W, y: W, z: W): W { XorW(XorW(x, y), z) }

  function IW(x: W, y: W, z: W): W { XorW(y, OrW(x, NotW(z))) }

  /** The rotations as products and quotients: u is 2^s, and v is 2^(32-s). */
  predicate Rotates(s: shift, u: nat, v: nat) {
    u * v == 0x1_0000_0000 && v > 0 &&
    match s
    case 4 => u == 0x10 case 5 => u == 0x20 case 6 => u == 0x40 case 7 => u == 0x80
    case 9 => u == 0x200 case 10 => u == 0x400 case 11 => u == 0x800 case 12 => u == 0x1000
    case 14 => u == 0x4000 case 15 => u == 0x8000 case 16 => u == 0x1_0000 case 17 => u == 0x2_0000
    case 20 => u == 0x10_0000 case 21 => u == 0x20_0000 case 22 => u == 0x40_0000 case 23 => u == 0x80_0000
    case _ => false
  }

  lemma {:induction false} Powers()
    ensures Pow(2, 4) == 0x10 && Pow(2, 5) == 0x20 && Pow(2, 6) == 0x40 && Pow(2, 7) == 0x80
    ensures Pow(2, 9) == 0x200 && Pow(2, 10) == 0x400 && Pow(2, 11) == 0x800 && Pow(2, 12) == 0x1000
    ensures Pow(2, 14) == 0x4000 && Pow(2, 15) == 0x8000 && Pow(2, 16) == 0x1_0000 && Pow(2, 17) == 0x2_0000
    ensures Pow(2, 20) == 0x10_0000 && Pow(2, 21) == 0x20_0000 && Pow(2, 22) == 0x40_0000 && Pow(2, 23) == 0x80_0000
  {
    assert Pow(2, 8) == 0x100 && Pow(2, 13) == 0x2000 && Pow(2, 18) == 0x4_0000 && Pow(2, 19) == 0x8_0000;
  }

  lemma {:induction false} RotatesIs(s: shift, u: nat, v: nat)
    requires Rotates(s, u, v)
    ensures u == Pow(2, s) && v == Pow(2, 32 - s)
  {
    Powers();
    WordPower(s);
    var w := Pow(2, 32 - s);
    assert u * v == u * w && u > 0;
    if v < w {
      MulMono(v + 1, w, u);
    } else if w < v {
      MulMono(w + 1, v, u);
    }
  }

  /** How the sum of an operation comes about: it is i * 2^32 + h * v + l, rotated it is
      l * u + h, and that and b are j * 2^32 + r. */
  predicate Sums(a: word, b: word, f: word, x: word, t: word, u: nat, v: nat, i: nat, h: nat, l: nat, j: nat,
        r: word) {
    && l < v && h < u
    && a + f + x + t == i * 0x1_0000_0000 + (h * v + l)
    && b + (l * u + h) == j * 0x1_0000_0000 + r
  }

  lemma {:induction false} SumsAre(round: nat, a: word, b: word, c: word, d: word, f: word, x: word, t: word,
                                   s: shift, u: nat, v: nat, i: nat, h: nat, l: nat, j: nat, r: word)
    requires round < 4 && Rotates(s, u, v) && Sums(a, b, f, x, t, u, v, i, h, l, j, r)
    requires Auxiliary(round, b, c, d) == f
    ensures Operation(round, a, b, c, d, x, t, s) == r
  {
    var sum := h * v + l;
    SumIsWord(h, l, u, v);
    RotatedIs(sum, h, l, u, v, s);
    SumsAreWords(a, b, f, x, t, i, sum, l * u + h, j, r);
  }

  lemma {:induction false} SumsAreWords(a: word, b: word, f: word, x: word, t: word, i: nat, sum: word, y: nat,
        j: nat, r: word)
    requires a + f + x + t == i * 0x1_0000_0000 + sum && b + y == j * 0x1_0000_0000 + r
    ensures Plus(Plus(Plus(a, f), x), t) == sum && Plus(b, y) == r
  {
    PlusTwice(a, f, x, t, i, sum);
    DivModUnique(b + y, 0x1_0000_0000, j, r);
  }

  lemma {:induction false} RotatedIs(sum: word, h: nat, l: nat, u: nat, v: nat, s: shift)
    requires Rotates(s, u, v) && l < v && h < u && sum == h * v + l
    ensures RotateLeft(sum, s) == l * u + h
  {
    RotatesIs(s, u, v);
    RotateLeftIs(sum, s);
    assert RotateLeft(sum, s) == sum * u % 0x1_0000_0000 + sum / v;
    Rotated(h, l, u, v);
  }

  lemma SumIsWord(h: nat, l: nat, u: nat, v: nat)
    requires l < v && h < u && u * v == 0x1_0000_0000
    ensures 0 <= h * v + l < 0x1_0000_0000
  {
    MulMono(h, u - 1, v);
    assert (u - 1) * v == u * v - v;
    MulMono(0, h, v);
  }

  lemma PlusTwice(a: word, f: word, x: word, t: word, i: nat, sum: word)
    requires a + f + x + t == i * 0x1_0000_0000 + sum
    ensures Plus(Plus(Plus(a, f), x), t) == sum
  {
    AddModulo(a + f, x, 0x1_0000_0000);
    AddModulo(a + f + x, t, 0x1_0000_0000);
    DivModUnique(a + f + x + t, 0x1_0000_0000, i, sum);
  }

  lemma Rotated(h: nat, l: nat, u: nat, v: nat)
    requires l < v && h < u && u * v == 0x1_0000_0000
    ensures var sum := h * v + l; sum * u % 0x1_0000_0000 + sum / v == l * u + h
  {
    var sum := h * v + l;
    DivModUnique(sum, v, h, l);
    assert sum * u == h * (u * v) + l * u by {
      assert h * v * u == h * (u * v);
    }
    MulMono(l, v - 1, u);
    assert (v - 1) * u == u * v - u;
    MulMono(0, l, u);
    DivModUnique(sum * u, 0x1_0000_0000, h, l * u);
  }

  lemma {:induction false} OpF(a: W, b: W, c: W, d: W, x: word, t: word, s: shift, u: nat, v: nat,
                                f: W, i: nat, h: nat, l: nat, j: nat, r: W,
                                na: word, nb: word, nc: word, nd: word) returns (nr: word)
    requires na == Num(a) && nb == Num(b) && nc == Num(c) && nd == Num(d)
    requires Rotates(s, u, v) && f == FW(b, c, d) && Sums(Num(a), Num(b), Num(f), x, t, u, v, i, h, l, j, Num(r))
    ensures nr == Num(r) && Operation(0, na, nb, nc, nd, x, t, s) == nr
  {
    NotOfWord(b);
    AndOfWords(b, c);
    AndOfWords(NotW(b), d);
    OrOfWords(AndW(b, c), AndW(NotW(b), d));
    nr := Num(r);
    SumsAre(0, Num(a), Num(b), Num(c), Num(d), Num(f), x, t, s, u, v, i, h, l, j, Num(r));
  }

  lemma {:induction false} OpG(a: W, b: W, c: W, d: W, x: word, t: word, s: shift, u: nat, v: nat,
                                f: W, i: nat, h: nat, l: nat, j: nat, r: W,
                                na: word, nb: word, nc: word, nd: word) returns (nr: word)
    requires na == Num(a) && nb == Num(b) && nc == Num(c) && nd == Num(d)
    requires Rotates(s, u, v) && f == GW(b, c, d) && Sums(Num(a), Num(b), Num(f), x, t, u, v, i, h, l, j, Num(r))
    ensures nr == Num(r) && Operation(1, na, nb, nc, nd, x, t, s) == nr
  {
    NotOfWord(d);
    AndOfWords(b, d);
    AndOfWords(c, NotW(d));
    OrOfWords(AndW(b, d), AndW(c, NotW(d)));
    nr := Num(r);
    SumsAre(1, Num(a), Num(b), Num(c), Num(d), Num(f), x, t, s, u, v, i, h, l, j, Num(r));
  }

  lemma {:induction false} OpH(a: W, b: W, c: W, d: W, x: word, t: word, s: shift, u: nat, v: nat,
                                f: W, i: nat, h: nat, l: nat, j: nat, r: W,
                                na: word, nb: word, nc: word, nd: word) returns (nr: word)
    requires na == Num(a) && nb == Num(b) && nc == Num(c) && nd == Num(d)
    requires Rotates(s, u, v) && f == HW(b, c, d) && Sums(Num(a), Num(b), Num(f), x, t, u, v, i, h, l, j, Num(r))
    ensures nr == Num(r) && Operation(2, na, nb, nc, nd, x, t, s) == nr
  {
    XorOfWords(b, c);
    XorOfWords(XorW(b, c), d);
    nr := Num(r);
    SumsAre(2, Num(a), Num(b), Num(c), Num(d), Num(f), x, t, s, u, v, i, h, l, j, Num(r));
  }

  lemma {:induction false} OpI(a: W, b: W, c: W, d: W, x: word, t: word, s: shift, u: nat, v: nat,
                                f: W, i: nat, h: nat, l: nat, j: nat, r: W,
                                na: word, nb: word, nc: word, nd: word) returns (nr: word)
    requires na == Num(a) && nb == Num(b) && nc == Num(c) && nd == Num(d)
    requires Rotates(s, u, v) && f == IW(b, c, d) && Sums(Num(a), Num(b), Num(f), x, t, u, v, i, h, l, j, Num(r))
    ensures nr == Num(r) && Operation(3, na, nb, nc, nd, x, t, s) == nr
  {
    NotOfWord(d);
    OrOfWords(b, NotW(d));
    XorOfWords(c, OrW(b, NotW(d)));
    nr := Num(r);
    SumsAre(3, Num(a), Num(b), Num(c), Num(d), Num(f), x, t, s, u, v, i, h, l, j, Num(r));
  }

  // ---- The sixty-four operations ------------------------------------------------------------------

  /** What the operations give, behind the registers they start with: each changes the
      register that was changed longest ago. */
  predicate Done(m: seq<word>, t: seq<word>, i: nat)
    requires |m| == 16 && |t| == 68 && i < 64
  {
    Operation(i / 16, t[i], t[i + 3], t[i + 2], t[i + 1], m[MessageWord(i)], Sine(i), Rotation(i)) == t[i + 4]
  }

  /** The words of the padded message. */
  const WORDS: seq<word> := [0x64636261, 0x68676665, 0x6c6b6a69, 0x706f6e6d, 0x74737271, 0x78777675, 0x00807a79,
        0x00000000,
                             0x0, 0x0, 0x0, 0x0, 0x0, 0x0, 0xd0, 0x0]


  lemma {:induction false} Done0(m: seq<word>, t: seq<word>)
    requires m == WORDS && |t| == 68 && t[0] == 0x67452301 && t[1] == 0x10325476
    requires t[2] == 0x98badcfe && t[3] == 0xefcdab89 && t[4] == 0xd6d117a6
    ensures Done(m, t, 0)
  {
    var r := OpF(W(0x67, 0x45, 0x23, 0x01), W(0xef, 0xcd, 0xab, 0x89),
                 W(0x98, 0xba, 0xdc, 0xfe), W(0x10, 0x32, 0x54, 0x76),
                 m[MessageWord(0)], Sine(0), Rotation(0), 0x80, 0x2000000, W(0x98, 0xba, 0xdc, 0xfe),
                 2, 0x1d, 0x1ce06d8, 1, W(0xd6, 0xd1, 0x17, 0xa6), t[0], t[3], t[2], t[1]);
  }

  lemma {:induction false} Done1(m: seq<word>, t: seq<word>)
    requires m == WORDS && |t| == 68 && t[1] == 0x10325476 && t[2] == 0x98badcfe
    requires t[3] == 0xefcdab89 && t[4] == 0xd6d117a6 && t[5] == 0xaab1aaaa
    ensures Done(m, t, 1)
  {
    var r := OpF(W(0x10, 0x32, 0x54, 0x76), W(0xd6, 0xd1, 0x17, 0xa6),
                 W(0xef, 0xcd, 0xab, 0x89), W(0x98, 0xba, 0xdc, 0xfe),
                 m[MessageWord(1)], Sine(1), Rotation(1), 0x1000, 0x100000, W(0xce, 0xeb, 0xcb, 0xd8),
                 2, 0x304, 0xd3e09, 1, W(0xaa, 0xb1, 0xaa, 0xaa), t[1], t[4], t[3], t[2]);
  }

  lemma {:induction false} Done2(m: seq<word>, t: seq<word>)
    requires m == WORDS && |t| == 68 && t[2] == 0x98badcfe && t[3] == 0xefcdab89
    requires t[4] == 0xd6d117a6 && t[5] == 0xaab1aaaa && t[6] == 0x227d8cf1
    ensures Done(m, t, 2)
  {
    var r := OpF(W(0x98, 0xba, 0xdc, 0xfe), W(0xaa, 0xb1, 0xaa, 0xaa),
                 W(0xd6, 0xd1, 0x17, 0xa6), W(0xef, 0xcd, 0xab, 0x89),
                 m[MessageWord(2)], Sine(2), Rotation(2), 0x20000, 0x8000, W(0xc7, 0xdd, 0x03, 0xa3),
                 1, 0x1e247, 0x3be5, 1, W(0x22, 0x7d, 0x8c, 0xf1), t[2], t[5], t[4], t[3]);
  }

  lemma {:induction false} Done3(m: seq<word>, t: seq<word>)
    requires m == WORDS && |t| == 68 && t[3] == 0xefcdab89 && t[4] == 0xd6d117a6
    requires t[5] == 0xaab1aaaa && t[6] == 0x227d8cf1 && t[7] == 0x4503b812
    ensures Done(m, t, 3)
  {
    var r := OpF(W(0xef, 0xcd, 0xab, 0x89), W(0x22, 0x7d, 0x8c, 0xf1),
                 W(0xaa, 0xb1, 0xaa, 0xaa), W(0xd6, 0xd1, 0x17, 0xa6),
                 m[MessageWord(3)], Sine(3), Rotation(3), 0x400000, 0x400, W(0xf6, 0xb1, 0x9b, 0xa6),
                 3, 0x62b21, 0x8a, 0, W(0x45, 0x03, 0xb8, 0x12), t[3], t[6], t[5], t[4]);
  }

  lemma {:induction false} Done4(m: seq<word>, t: seq<word>)
    requires m == WORDS && |t| == 68 && t[4] == 0xd6d117a6 && t[5] == 0xaab1aaaa
    requires t[6] == 0x227d8cf1 && t[7] == 0x4503b812 && t[8] == 0xfe15f787
    ensures Done(m, t, 4)
  {
    var r := OpF(W(0xd6, 0xd1, 0x17, 0xa6), W(0x45, 0x03, 0xb8, 0x12),
                 W(0x22, 0x7d, 0x8c, 0xf1), W(0xaa, 0xb1, 0xaa, 0xaa),
                 m[MessageWord(4)], Sine(4), Rotation(4), 0x80, 0x2000000, W(0xaa, 0xb1, 0x8a, 0xb8),
                 2, 0x75, 0x172247e, 0, W(0xfe, 0x15, 0xf7, 0x87), t[4], t[7], t[6], t[5]);
  }

  lemma {:induction false} Done5(m: seq<word>, t: seq<word>)
    requires m == WORDS && |t| == 68 && t[5] == 0xaab1aaaa && t[6] == 0x227d8cf1
    requires t[7] == 0x4503b812 && t[8] == 0xfe15f787 && t[9] == 0xa811b278
    ensures Done(m, t, 5)
  {
    var r := OpF(W(0xaa, 0xb1, 0xaa, 0xaa), W(0xfe, 0x15, 0xf7, 0x87),
                 W(0x45, 0x03, 0xb8, 0x12), W(0x22, 0x7d, 0x8c, 0xf1),
                 m[MessageWord(5)], Sine(5), Rotation(5), 0x1000, 0x100000, W(0x44, 0x69, 0xb8, 0x72),
                 1, 0xaf1, 0xa9fbb, 1, W(0xa8, 0x11, 0xb2, 0x78), t[5], t[8], t[7], t[6]);
  }

  lemma {:induction false} Done6(m: seq<word>, t: seq<word>)
    requires m == WORDS && |t| == 68 && t[6] == 0x227d8cf1 && t[7] == 0x4503b812
    requires t[8] == 0xfe15f787 && t[9] == 0xa811b278 && t[10] == 0xb71122fc
    ensures Done(m, t, 6)
  {
    var r := OpF(W(0x22, 0x7d, 0x8c, 0xf1), W(0xa8, 0x11, 0xb2, 0x78),
                 W(0xfe, 0x15, 0xf7, 0x87), W(0x45, 0x03, 0xb8, 0x12),
                 m[MessageWord(6)], Sine(6), Rotation(6), 0x20000, 0x8000, W(0xed, 0x13, 0xba, 0x02),
                 1, 0x17084, 0x77f, 0, W(0xb7, 0x11, 0x22, 0xfc), t[6], t[9], t[8], t[7]);
  }

  lemma {:induction false} Done7(m: seq<word>, t: seq<word>)
    requires m == WORDS && |t| == 68 && t[7] == 0x4503b812 && t[8] == 0xfe15f787
    requires t[9] == 0xa811b278 && t[10] == 0xb71122fc && t[11] == 0xda9bbb0d
    ensures Done(m, t, 7)
  {
    var r := OpF(W(0x45, 0x03, 0xb8, 0x12), W(0xb7, 0x11, 0x22, 0xfc),
                 W(0xa8, 0x11, 0xb2, 0x78), W(0xfe, 0x15, 0xf7, 0x87),
                 m[MessageWord(7)], Sine(7), Rotation(7), 0x400000, 0x400, W(0xe8, 0x15, 0xf7, 0x7b),
                 2, 0xa9811, 0x8e, 0, W(0xda, 0x9b, 0xbb, 0x0d), t[7], t[10], t[9], t[8]);
  }

  lemma {:induction false} Done8(m: seq<word>, t: seq<word>)
    requires m == WORDS && |t| == 68 && t[8] == 0xfe15f787 && t[9] == 0xa811b278
    requires t[10] == 0xb71122fc && t[11] == 0xda9bbb0d && t[12] == 0xae752899
    ensures Done(m, t, 8)
  {
    var r := OpF(W(0xfe, 0x15, 0xf7, 0x87), W(0xda, 0x9b, 0xbb, 0x0d),
                 W(0xb7, 0x11, 0x22, 0xfc), W(0xa8, 0x11, 0xb2, 0x78),
                 m[MessageWord(8)], Sine(8), Rotation(8), 0x80, 0x2000000, W(0xb2, 0x11, 0x22, 0x7c),
                 2, 0xc, 0x1a7b2db, 1, W(0xae, 0x75, 0x28, 0x99), t[8], t[11], t[10], t[9]);
  }

  lemma {:induction false} Done9(m: seq<word>, t: seq<word>)
    requires m == WORDS && |t| == 68 && t[9] == 0xa811b278 && t[10] == 0xb71122fc
    requires t[11] == 0xda9bbb0d && t[12] == 0xae752899 && t[13] == 0x2bbe757f
    ensures Done(m, t, 9)
  {
    var r := OpF(W(0xa8, 0x11, 0xb2, 0x78), W(0xae, 0x75, 0x28, 0x99),
                 W(0xda, 0x9b, 0xbb, 0x0d), W(0xb7, 0x11, 0x22, 0xfc),
                 m[MessageWord(9)], Sine(9), Rotation(9), 0x1000, 0x100000, W(0x9b, 0x11, 0x2a, 0x6d),
                 1, 0xce6, 0x7d494, 1, W(0x2b, 0xbe, 0x75, 0x7f), t[9], t[12], t[11], t[10]);
  }

  lemma {:induction false} Done10(m: seq<word>, t: seq<word>)
    requires m == WORDS && |t| == 68 && t[10] == 0xb71122fc && t[11] == 0xda9bbb0d
    requires t[12] == 0xae752899 && t[13] == 0x2bbe757f && t[14] == 0x7d4bd80b
    ensures Done(m, t, 10)
  {
    var r := OpF(W(0xb7, 0x11, 0x22, 0xfc), W(0x2b, 0xbe, 0x75, 0x7f),
                 W(0xae, 0x75, 0x28, 0x99), W(0xda, 0x9b, 0xbb, 0x0d),
                 m[MessageWord(10)], Sine(10), Rotation(10), 0x20000, 0x8000, W(0xfa, 0x35, 0xaa, 0x19),
                 2, 0x1628c, 0x28c6, 0, W(0x7d, 0x4b, 0xd8, 0x0b), t[10], t[13], t[12], t[11]);
  }

  lemma {:induction false} Done11(m: seq<word>, t: seq<word>)
    requires m == WORDS && |t| == 68 && t[11] == 0xda9bbb0d && t[12] == 0xae752899
    requires t[13] == 0x2bbe757f && t[14] == 0x7d4bd80b && t[15] == 0x56cfa5cb
    ensures Done(m, t, 11)
  {
    var r := OpF(W(0xda, 0x9b, 0xbb, 0x0d), W(0x7d, 0x4b, 0xd8, 0x0b),
                 W(0x2b, 0xbe, 0x75, 0x7f), W(0xae, 0x75, 0x28, 0x99),
                 m[MessageWord(11)], Sine(11), Rotation(11), 0x400000, 0x400, W(0xab, 0x3e, 0x70, 0x9b),
                 2, 0x3cdc0, 0x366, 1, W(0x56, 0xcf, 0xa5, 0xcb), t[11], t[14], t[13], t[12]);
  }

  lemma {:induction false} Done12(m: seq<word>, t: seq<word>)
    requires m == WORDS && |t| == 68 && t[12] == 0xae752899 && t[13] == 0x2bbe757f
    requires t[14] == 0x7d4bd80b && t[15] == 0x56cfa5cb && t[16] == 0x1754a316
    ensures Done(m, t, 12)
  {
    var r := OpF(W(0xae, 0x75, 0x28, 0x99), W(0x56, 0xcf, 0xa5, 0xcb),
                 W(0x7d, 0x4b, 0xd8, 0x0b), W(0x2b, 0xbe, 0x75, 0x7f),
                 m[MessageWord(12)], Sine(12), Rotation(12), 0x80, 0x2000000, W(0x7d, 0x7b, 0xd0, 0x3f),
                 1, 0x4b, 0x18109fa, 1, W(0x17, 0x54, 0xa3, 0x16), t[12], t[15], t[14], t[13]);
  }

  lemma {:induction false} Done13(m: seq<word>, t: seq<word>)
    requires m == WORDS && |t| == 68 && t[13] == 0x2bbe757f && t[14] == 0x7d4bd80b
    requires t[15] == 0x56cfa5cb && t[16] == 0x1754a316 && t[17] == 0x85567d90
    ensures Done(m, t, 13)
  {
    var r := OpF(W(0x2b, 0xbe, 0x75, 0x7f), W(0x17, 0x54, 0xa3, 0x16),
                 W(0x56, 0xcf, 0xa5, 0xcb), W(0x7d, 0x4b, 0xd8, 0x0b),
                 m[MessageWord(13)], Sine(13), Rotation(13), 0x1000, 0x100000, W(0x7e, 0x4f, 0xf9, 0x0b),
                 1, 0xa7a, 0x6e01d, 0, W(0x85, 0x56, 0x7d, 0x90), t[13], t[16], t[15], t[14]);
  }

  lemma {:induction false} Done14(m: seq<word>, t: seq<word>)
    requires m == WORDS && |t| == 68 && t[14] == 0x7d4bd80b && t[15] == 0x56cfa5cb
    requires t[16] == 0x1754a316 && t[17] == 0x85567d90 && t[18] == 0x00df74d5
    ensures Done(m, t, 14)
  {
    var r := OpF(W(0x7d, 0x4b, 0xd8, 0x0b), W(0x85, 0x56, 0x7d, 0x90),
                 W(0x17, 0x54, 0xa3, 0x16), W(0x56, 0xcf, 0xa5, 0xcb),
                 m[MessageWord(14)], Sine(14), Rotation(14), 0x20000, 0x8000, W(0x57, 0xdd, 0xa1, 0x5b),
                 1, 0xf745, 0x3dc4, 1, W(0x00, 0xdf, 0x74, 0xd5), t[14], t[17], t[16], t[15]);
  }

  lemma {:induction false} Done15(m: seq<word>, t: seq<word>)
    requires m == WORDS && |t| == 68 && t[15] == 0x56cfa5cb && t[16] == 0x1754a316
    requires t[17] == 0x85567d90 && t[18] == 0x00df74d5 && t[19] == 0x608d6b7e
    ensures Done(m, t, 15)
  {
    var r := OpF(W(0x56, 0xcf, 0xa5, 0xcb), W(0x00, 0xdf, 0x74, 0xd5),
                 W(0x85, 0x56, 0x7d, 0x90), W(0x17, 0x54, 0xa3, 0x16),
                 m[MessageWord(15)], Sine(15), Rotation(15), 0x400000, 0x400, W(0x17, 0x56, 0xf7, 0x92),
                 0, 0x2df6a9, 0x17e, 0, W(0x60, 0x8d, 0x6b, 0x7e), t[15], t[18], t[17], t[16]);
  }

  lemma {:induction false} Done16(m: seq<word>, t: seq<word>)
    requires m == WORDS && |t| == 68 && t[16] == 0x1754a316 && t[17] == 0x85567d90
    requires t[18] == 0x00df74d5 && t[19] == 0x608d6b7e && t[20] == 0x2d8071cc
    ensures Done(m, t, 16)
  {
    var r := OpG(W(0x17, 0x54, 0xa3, 0x16), W(0x60, 0x8d, 0x6b, 0x7e),
                 W(0x00, 0xdf, 0x74, 0xd5), W(0x85, 0x56, 0x7d, 0x90),
                 m[MessageWord(16)], Sine(16), Rotation(16), 0x20, 0x8000000, W(0x00, 0x8d, 0x69, 0x55),
                 1, 0xe, 0x6679832, 1, W(0x2d, 0x80, 0x71, 0xcc), t[16], t[19], t[18], t[17]);
  }

  lemma {:induction false} Done17(m: seq<word>, t: seq<word>)
    requires m == WORDS && |t| == 68 && t[17] == 0x85567d90 && t[18] == 0x00df74d5
    requires t[19] == 0x608d6b7e && t[20] == 0x2d8071cc && t[21] == 0x5dcee119
    ensures Done(m, t, 17)
  {
    var r := OpG(W(0x85, 0x56, 0x7d, 0x90), W(0x2d, 0x80, 0x71, 0xcc),
                 W(0x60, 0x8d, 0x6b, 0x7e), W(0x00, 0xdf, 0x74, 0xd5),
                 m[MessageWord(17)], Sine(17), Rotation(17), 0x200, 0x800000, W(0x60, 0x80, 0x7b, 0xee),
                 1, 0x14d, 0x182737, 0, W(0x5d, 0xce, 0xe1, 0x19), t[17], t[20], t[19], t[18]);
  }

  lemma {:induction false} Done18(m: seq<word>, t: seq<word>)
    requires m == WORDS && |t| == 68 && t[18] == 0x00df74d5 && t[19] == 0x608d6b7e
    requires t[20] == 0x2d8071cc && t[21] == 0x5dcee119 && t[22] == 0xedfe7e4b
    ensures Done(m, t, 18)
  {
    var r := OpG(W(0x00, 0xdf, 0x74, 0xd5), W(0x5d, 0xce, 0xe1, 0x19),
                 W(0x2d, 0x80, 0x71, 0xcc), W(0x60, 0x8d, 0x6b, 0x7e),
                 m[MessageWord(18)], Sine(18), Rotation(18), 0x4000, 0x40000, W(0x4d, 0x8c, 0x71, 0x98),
                 0, 0x1d32, 0x240be, 0, W(0xed, 0xfe, 0x7e, 0x4b), t[18], t[21], t[20], t[19]);
  }

  lemma {:induction false} Done19(m: seq<word>, t: seq<word>)
    requires m == WORDS && |t| == 68 && t[19] == 0x608d6b7e && t[20] == 0x2d8071cc
    requires t[21] == 0x5dcee119 && t[22] == 0xedfe7e4b && t[23] == 0x4c2145b3
    ensures Done(m, t, 19)
  {
    var r := OpG(W(0x60, 0x8d, 0x6b, 0x7e), W(0xed, 0xfe, 0x7e, 0x4b),
                 W(0x5d, 0xce, 0xe1, 0x19), W(0x2d, 0x80, 0x71, 0xcc),
                 m[MessageWord(19)], Sine(19), Rotation(19), 0x100000, 0x1000, W(0x7d, 0xce, 0xf0, 0x59),
                 2, 0x2c768, 0x5e2, 1, W(0x4c, 0x21, 0x45, 0xb3), t[19], t[22], t[21], t[20]);
  }

  lemma {:induction false} Done20(m: seq<word>, t: seq<word>)
    requires m == WORDS && |t| == 68 && t[20] == 0x2d8071cc && t[21] == 0x5dcee119
    requires t[22] == 0xedfe7e4b && t[23] == 0x4c2145b3 && t[24] == 0x570c43e0
    ensures Done(m, t, 20)
  {
    var r := OpG(W(0x2d, 0x80, 0x71, 0xcc), W(0x4c, 0x21, 0x45, 0xb3),
                 W(0xed, 0xfe, 0x7e, 0x4b), W(0x5d, 0xce, 0xe1, 0x19),
                 m[MessageWord(20)], Sine(20), Rotation(20), 0x20, 0x8000000, W(0xec, 0x30, 0x5f, 0x53),
                 2, 0xd, 0x5757f1, 0, W(0x57, 0x0c, 0x43, 0xe0), t[20], t[23], t[22], t[21]);
  }

  lemma {:induction false} Done21(m: seq<word>, t: seq<word>)
    requires m == WORDS && |t| == 68 && t[21] == 0x5dcee119 && t[22] == 0xedfe7e4b
    requires t[23] == 0x4c2145b3 && t[24] == 0x570c43e0 && t[25] == 0x977efd2a
    ensures Done(m, t, 21)
  {
    var r := OpG(W(0x5d, 0xce, 0xe1, 0x19), W(0x57, 0x0c, 0x43, 0xe0),
                 W(0x4c, 0x21, 0x45, 0xb3), W(0xed, 0xfe, 0x7e, 0x4b),
                 m[MessageWord(21)], Sine(21), Rotation(21), 0x200, 0x800000, W(0x45, 0x0d, 0x43, 0xf0),
                 0, 0x14a, 0x20395c, 0, W(0x97, 0x7e, 0xfd, 0x2a), t[21], t[24], t[23], t[22]);
  }

  lemma {:induction false} Done22(m: seq<word>, t: seq<word>)
    requires m == WORDS && |t| == 68 && t[22] == 0xedfe7e4b && t[23] == 0x4c2145b3
    requires t[24] == 0x570c43e0 && t[25] == 0x977efd2a && t[26] == 0xc28ab49d
    ensures Done(m, t, 22)
  {
    var r := OpG(W(0xed, 0xfe, 0x7e, 0x4b), W(0x97, 0x7e, 0xfd, 0x2a),
                 W(0x57, 0x0c, 0x43, 0xe0), W(0x4c, 0x21, 0x45, 0xb3),
                 m[MessageWord(22)], Sine(22), Rotation(22), 0x4000, 0x40000, W(0x17, 0x2c, 0x47, 0x62),
                 1, 0x3773, 0xac2e, 0, W(0xc2, 0x8a, 0xb4, 0x9d), t[22], t[25], t[24], t[23]);
  }

  lemma {:induction false} Done23(m: seq<word>, t: seq<word>)
    requires m == WORDS && |t| == 68 && t[23] == 0x4c2145b3 && t[24] == 0x570c43e0
    requires t[25] == 0x977efd2a && t[26] == 0xc28ab49d && t[27] == 0xc9f162d4
    ensures Done(m, t, 23)
  {
    var r := OpG(W(0x4c, 0x21, 0x45, 0xb3), W(0xc2, 0x8a, 0xb4, 0x9d),
                 W(0x97, 0x7e, 0xfd, 0x2a), W(0x57, 0x0c, 0x43, 0xe0),
                 m[MessageWord(23)], Sine(23), Rotation(23), 0x100000, 0x1000, W(0xc2, 0x7a, 0xbc, 0x8a),
                 2, 0x6ae37, 0x76, 0, W(0xc9, 0xf1, 0x62, 0xd4), t[23], t[26], t[25], t[24]);
  }

  lemma {:induction false} Done24(m: seq<word>, t: seq<word>)
    requires m == WORDS && |t| == 68 && t[24] == 0x570c43e0 && t[25] == 0x977efd2a
    requires t[26] == 0xc28ab49d && t[27] == 0xc9f162d4 && t[28] == 0x25bfae3b
    ensures Done(m, t, 24)
  {
    var r := OpG(W(0x57, 0x0c, 0x43, 0xe0), W(0xc9, 0xf1, 0x62, 0xd4),
                 W(0xc2, 0x8a, 0xb4, 0x9d), W(0x97, 0x7e, 0xfd, 0x2a),
                 m[MessageWord(24)], Sine(24), Rotation(24), 0x20, 0x8000000, W(0xc1, 0xf0, 0x60, 0x95),
                 1, 0x7, 0x2de725b, 1, W(0x25, 0xbf, 0xae, 0x3b), t[24], t[27], t[26], t[25]);
  }

  lemma {:induction false} Done25(m: seq<word>, t: seq<word>)
    requires m == WORDS && |t| == 68 && t[25] == 0x977efd2a && t[26] == 0xc28ab49d
    requires t[27] == 0xc9f162d4 && t[28] == 0x25bfae3b && t[29] == 0x89980104
    ensures Done(m, t, 25)
  {
    var r := OpG(W(0x97, 0x7e, 0xfd, 0x2a), W(0x25, 0xbf, 0xae, 0x3b),
                 W(0xc9, 0xf1, 0x62, 0xd4), W(0xc2, 0x8a, 0xb4, 0x9d),
                 m[MessageWord(25)], Sine(25), Rotation(25), 0x200, 0x800000, W(0x09, 0xfb, 0xe6, 0x59),
                 1, 0xc9, 0x31ec29, 0, W(0x89, 0x98, 0x01, 0x04), t[25], t[28], t[27], t[26]);
  }

  lemma {:induction false} Done26(m: seq<word>, t: seq<word>)
    requires m == WORDS && |t| == 68 && t[26] == 0xc28ab49d && t[27] == 0xc9f162d4
    requires t[28] == 0x25bfae3b && t[29] == 0x89980104 && t[30] == 0xf8c8365f
    ensures Done(m, t, 26)
  {
    var r := OpG(W(0xc2, 0x8a, 0xb4, 0x9d), W(0x89, 0x98, 0x01, 0x04),
                 W(0x25, 0xbf, 0xae, 0x3b), W(0xc9, 0xf1, 0x62, 0xd4),
                 m[MessageWord(26)], Sine(26), Rotation(26), 0x4000, 0x40000, W(0xad, 0x9e, 0x8c, 0x2f),
                 2, 0x355b, 0x1bcc0, 0, W(0xf8, 0xc8, 0x36, 0x5f), t[26], t[29], t[28], t[27]);
  }

  lemma {:induction false} Done27(m: seq<word>, t: seq<word>)
    requires m == WORDS && |t| == 68 && t[27] == 0xc9f162d4 && t[28] == 0x25bfae3b
    requires t[29] == 0x89980104 && t[30] == 0xf8c8365f && t[31] == 0xe6d3b398
    ensures Done(m, t, 27)
  {
    var r := OpG(W(0xc9, 0xf1, 0x62, 0xd4), W(0xf8, 0xc8, 0x36, 0x5f),
                 W(0x89, 0x98, 0x01, 0x04), W(0x25, 0xbf, 0xae, 0x3b),
                 m[MessageWord(27)], Sine(27), Rotation(27), 0x100000, 0x1000, W(0xa8, 0x88, 0x27, 0x1f),
                 1, 0xb7d39, 0xee0, 1, W(0xe6, 0xd3, 0xb3, 0x98), t[27], t[30], t[29], t[28]);
  }

  lemma {:induction false} Done28(m: seq<word>, t: seq<word>)
    requires m == WORDS && |t| == 68 && t[28] == 0x25bfae3b && t[29] == 0x89980104
    requires t[30] == 0xf8c8365f && t[31] == 0xe6d3b398 && t[32] == 0xf54d8710
    ensures Done(m, t, 28)
  {
    var r := OpG(W(0x25, 0xbf, 0xae, 0x3b), W(0xe6, 0xd3, 0xb3, 0x98),
                 W(0xf8, 0xc8, 0x36, 0x5f), W(0x89, 0x98, 0x01, 0x04),
                 m[MessageWord(28)], Sine(28), Rotation(28), 0x20, 0x8000000, W(0xf0, 0xd0, 0x37, 0x5b),
                 1, 0x18, 0x73ce9b, 0, W(0xf5, 0x4d, 0x87, 0x10), t[28], t[31], t[30], t[29]);
  }

  lemma {:induction false} Done29(m: seq<word>, t: seq<word>)
    requires m == WORDS && |t| == 68 && t[29] == 0x89980104 && t[30] == 0xf8c8365f
    requires t[31] == 0xe6d3b398 && t[32] == 0xf54d8710 && t[33] == 0x927b72e2
    ensures Done(m, t, 29)
  {
    var r := OpG(W(0x89, 0x98, 0x01, 0x04), W(0xf5, 0x4d, 0x87, 0x10),
                 W(0xe6, 0xd3, 0xb3, 0x98), W(0xf8, 0xc8, 0x36, 0x5f),
                 m[MessageWord(29)], Sine(29), Rotation(29), 0x200, 0x800000, W(0xf6, 0x5b, 0x87, 0x90),
                 2, 0x1d2, 0x4e96f5, 1, W(0x92, 0x7b, 0x72, 0xe2), t[29], t[32], t[31], t[30]);
  }

  lemma {:induction false} Done30(m: seq<word>, t: seq<word>)
    requires m == WORDS && |t| == 68 && t[30] == 0xf8c8365f && t[31] == 0xe6d3b398
    requires t[32] == 0xf54d8710 && t[33] == 0x927b72e2 && t[34] == 0x2e69afc7
    ensures Done(m, t, 30)
  {
    var r := OpG(W(0xf8, 0xc8, 0x36, 0x5f), W(0x92, 0x7b, 0x72, 0xe2),
                 W(0xf5, 0x4d, 0x87, 0x10), W(0xe6, 0xd3, 0xb3, 0x98),
                 m[MessageWord(30)], Sine(30), Rotation(30), 0x4000, 0x40000, W(0x93, 0x5f, 0x36, 0x80),
                 1, 0x3ce5, 0x26fb8, 1, W(0x2e, 0x69, 0xaf, 0xc7), t[30], t[33], t[32], t[31]);
  }

  lemma {:induction false} Done31(m: seq<word>, t: seq<word>)
    requires m == WORDS && |t| == 68 && t[31] == 0xe6d3b398 && t[32] == 0xf54d8710
    requires t[33] == 0x927b72e2 && t[34] == 0x2e69afc7 && t[35] == 0xaeb35766
    ensures Done(m, t, 31)
  {
    var r := OpG(W(0xe6, 0xd3, 0xb3, 0x98), W(0x2e, 0x69, 0xaf, 0xc7),
                 W(0x92, 0x7b, 0x72, 0xe2), W(0xf5, 0x4d, 0x87, 0x10),
                 m[MessageWord(31)], Sine(31), Rotation(31), 0x100000, 0x1000, W(0x26, 0x7b, 0xf7, 0xe2),
                 1, 0x9a79f, 0x804, 0, W(0xae, 0xb3, 0x57, 0x66), t[31], t[34], t[33], t[32]);
  }

  lemma {:induction false} Done32(m: seq<word>, t: seq<word>)
    requires m == WORDS && |t| == 68 && t[32] == 0xf54d8710 && t[33] == 0x927b72e2
    requires t[34] == 0x2e69afc7 && t[35] == 0xaeb35766 && t[36] == 0xb4bf680e
    ensures Done(m, t, 32)
  {
    var r := OpH(W(0xf5, 0x4d, 0x87, 0x10), W(0xae, 0xb3, 0x57, 0x66),
                 W(0x2e, 0x69, 0xaf, 0xc7), W(0x92, 0x7b, 0x72, 0xe2),
                 m[MessageWord(32)], Sine(32), Rotation(32), 0x10, 0x10000000, W(0x12, 0xa1, 0x8a, 0x43),
                 2, 0x8, 0x60c10a, 0, W(0xb4, 0xbf, 0x68, 0x0e), t[32], t[35], t[34], t[33]);
  }

  lemma {:induction false} Done33(m: seq<word>, t: seq<word>)
    requires m == WORDS && |t| == 68 && t[33] == 0x927b72e2 && t[34] == 0x2e69afc7
    requires t[35] == 0xaeb35766 && t[36] == 0xb4bf680e && t[37] == 0x4c8ffa80
    ensures Done(m, t, 33)
  {
    var r := OpH(W(0x92, 0x7b, 0x72, 0xe2), W(0xb4, 0xbf, 0x68, 0x0e),
                 W(0xae, 0xb3, 0x57, 0x66), W(0x2e, 0x69, 0xaf, 0xc7),
                 m[MessageWord(33)], Sine(33), Rotation(33), 0x800, 0x200000, W(0x34, 0x65, 0x90, 0xaf),
                 1, 0x272, 0x12fa12, 1, W(0x4c, 0x8f, 0xfa, 0x80), t[33], t[36], t[35], t[34]);
  }

  lemma {:induction false} Done34(m: seq<word>, t: seq<word>)
    requires m == WORDS && |t| == 68 && t[34] == 0x2e69afc7 && t[35] == 0xaeb35766
    requires t[36] == 0xb4bf680e && t[37] == 0x4c8ffa80 && t[38] == 0x2361ed0a
    ensures Done(m, t, 34)
  {
    var r := OpH(W(0x2e, 0x69, 0xaf, 0xc7), W(0x4c, 0x8f, 0xfa, 0x80),
                 W(0xb4, 0xbf, 0x68, 0x0e), W(0xae, 0xb3, 0x57, 0x66),
                 m[MessageWord(34)], Sine(34), Rotation(34), 0x10000, 0x10000, W(0x56, 0x83, 0xc5, 0xe8),
                 0, 0xf28a, 0xd6d1, 1, W(0x23, 0x61, 0xed, 0x0a), t[34], t[37], t[36], t[35]);
  }

  lemma {:induction false} Done35(m: seq<word>, t: seq<word>)
    requires m == WORDS && |t| == 68 && t[35] == 0xaeb35766 && t[36] == 0xb4bf680e
    requires t[37] == 0x4c8ffa80 && t[38] == 0x2361ed0a && t[39] == 0x06a5e211
    ensures Done(m, t, 35)
  {
    var r := OpH(W(0xae, 0xb3, 0x57, 0x66), W(0x23, 0x61, 0xed, 0x0a),
                 W(0x4c, 0x8f, 0xfa, 0x80), W(0xb4, 0xbf, 0x68, 0x0e),
                 m[MessageWord(35)], Sine(35), Rotation(35), 0x800000, 0x200, W(0xdb, 0x51, 0x7f, 0x84),
                 2, 0x43f507, 0x1c6, 1, W(0x06, 0xa5, 0xe2, 0x11), t[35], t[38], t[37], t[36]);
  }

  lemma {:induction false} Done36(m: seq<word>, t: seq<word>)
    requires m == WORDS && |t| == 68 && t[36] == 0xb4bf680e && t[37] == 0x4c8ffa80
    requires t[38] == 0x2361ed0a && t[39] == 0x06a5e211 && t[40] == 0xb9c0c733
    ensures Done(m, t, 36)
  {
    var r := OpH(W(0xb4, 0xbf, 0x68, 0x0e), W(0x06, 0xa5, 0xe2, 0x11),
                 W(0x23, 0x61, 0xed, 0x0a), W(0x4c, 0x8f, 0xfa, 0x80),
                 m[MessageWord(36)], Sine(36), Rotation(36), 0x10, 0x10000000, W(0x69, 0x4b, 0xf5, 0x9b),
                 2, 0x2, 0xb31ae52, 0, W(0xb9, 0xc0, 0xc7, 0x33), t[36], t[39], t[38], t[37]);
  }

  lemma {:induction false} Done37(m: seq<word>, t: seq<word>)
    requires m == WORDS && |t| == 68 && t[37] == 0x4c8ffa80 && t[38] == 0x2361ed0a
    requires t[39] == 0x06a5e211 && t[40] == 0xb9c0c733 && t[41] == 0xf1e6dc7a
    ensures Done(m, t, 37)
  {
    var r := OpH(W(0x4c, 0x8f, 0xfa, 0x80), W(0xb9, 0xc0, 0xc7, 0x33),
                 W(0x06, 0xa5, 0xe2, 0x11), W(0x23, 0x61, 0xed, 0x0a),
                 m[MessageWord(37)], Sine(37), Rotation(37), 0x800, 0x200000, W(0x9c, 0x04, 0xc8, 0x28),
                 1, 0x547, 0x704c2, 0, W(0xf1, 0xe6, 0xdc, 0x7a), t[37], t[40], t[39], t[38]);
  }

  lemma {:induction false} Done38(m: seq<word>, t: seq<word>)
    requires m == WORDS && |t| == 68 && t[38] == 0x2361ed0a && t[39] == 0x06a5e211
    requires t[40] == 0xb9c0c733 && t[41] == 0xf1e6dc7a && t[42] == 0x23a9451b
    ensures Done(m, t, 38)
  {
    var r := OpH(W(0x23, 0x61, 0xed, 0x0a), W(0xf1, 0xe6, 0xdc, 0x7a),
                 W(0xb9, 0xc0, 0xc7, 0x33), W(0x06, 0xa5, 0xe2, 0x11),
                 m[MessageWord(38)], Sine(38), Rotation(38), 0x10000, 0x10000, W(0x4e, 0x83, 0xf9, 0x58),
                 1, 0x68a1, 0x31c2, 1, W(0x23, 0xa9, 0x45, 0x1b), t[38], t[41], t[40], t[39]);
  }

  lemma {:induction false} Done39(m: seq<word>, t: seq<word>)
    requires m == WORDS && |t| == 68 && t[39] == 0x06a5e211 && t[40] == 0xb9c0c733
    requires t[41] == 0xf1e6dc7a && t[42] == 0x23a9451b && t[43] == 0x8d41bf99
    ensures Done(m, t, 39)
  {
    var r := OpH(W(0x06, 0xa5, 0xe2, 0x11), W(0x23, 0xa9, 0x45, 0x1b),
                 W(0xf1, 0xe6, 0xdc, 0x7a), W(0xb9, 0xc0, 0xc7, 0x33),
                 m[MessageWord(39)], Sine(39), Rotation(39), 0x800000, 0x200, W(0x6b, 0x8f, 0x5e, 0x52),
                 1, 0x187a7e, 0xd3, 0, W(0x8d, 0x41, 0xbf, 0x99), t[39], t[42], t[41], t[40]);
  }

  lemma {:induction false} Done40(m: seq<word>, t: seq<word>)
    requires m == WORDS && |t| == 68 && t[40] == 0xb9c0c733 && t[41] == 0xf1e6dc7a
    requires t[42] == 0x23a9451b && t[43] == 0x8d41bf99 && t[44] == 0xa3e88ead
    ensures Done(m, t, 40)
  {
    var r := OpH(W(0xb9, 0xc0, 0xc7, 0x33), W(0x8d, 0x41, 0xbf, 0x99),
                 W(0x23, 0xa9, 0x45, 0x1b), W(0xf1, 0xe6, 0xdc, 0x7a),
                 m[MessageWord(40)], Sine(40), Rotation(40), 0x10, 0x10000000, W(0x5f, 0x0e, 0x26, 0xf8),
                 1, 0x4, 0x16a6cf1, 0, W(0xa3, 0xe8, 0x8e, 0xad), t[40], t[43], t[42], t[41]);
  }

  lemma {:induction false} Done41(m: seq<word>, t: seq<word>)
    requires m == WORDS && |t| == 68 && t[41] == 0xf1e6dc7a && t[42] == 0x23a9451b
    requires t[43] == 0x8d41bf99 && t[44] == 0xa3e88ead && t[45] == 0x02c0b11c
    ensures Done(m, t, 41)
  {
    var r := OpH(W(0xf1, 0xe6, 0xdc, 0x7a), W(0xa3, 0xe8, 0x8e, 0xad),
                 W(0x8d, 0x41, 0xbf, 0x99), W(0x23, 0xa9, 0x45, 0x1b),
                 m[MessageWord(41)], Sine(41), Rotation(41), 0x800, 0x200000, W(0x0d, 0x00, 0x74, 0x2f),
                 2, 0x26f, 0xbdb04, 1, W(0x02, 0xc0, 0xb1, 0x1c), t[41], t[44], t[43], t[42]);
  }

  lemma {:induction false} Done42(m: seq<word>, t: seq<word>)
    requires m == WORDS && |t| == 68 && t[42] == 0x23a9451b && t[43] == 0x8d41bf99
    requires t[44] == 0xa3e88ead && t[45] == 0x02c0b11c && t[46] == 0x66f6468d
    ensures Done(m, t, 42)
  {
    var r := OpH(W(0x23, 0xa9, 0x45, 0x1b), W(0x02, 0xc0, 0xb1, 0x1c),
                 W(0xa3, 0xe8, 0x8e, 0xad), W(0x8d, 0x41, 0xbf, 0x99),
                 m[MessageWord(42)], Sine(42), Rotation(42), 0x10000, 0x10000, W(0x2c, 0x69, 0x80, 0x28),
                 1, 0x9571, 0x6435, 0, W(0x66, 0xf6, 0x46, 0x8d), t[42], t[45], t[44], t[43]);
  }

  lemma {:induction false} Done43(m: seq<word>, t: seq<word>)
    requires m == WORDS && |t| == 68 && t[43] == 0x8d41bf99 && t[44] == 0xa3e88ead
    requires t[45] == 0x02c0b11c && t[46] == 0x66f6468d && t[47] == 0x90a35af5
    ensures Done(m, t, 43)
  {
    var r := OpH(W(0x8d, 0x41, 0xbf, 0x99), W(0x66, 0xf6, 0x46, 0x8d),
                 W(0x02, 0xc0, 0xb1, 0x1c), W(0xa3, 0xe8, 0x8e, 0xad),
                 m[MessageWord(43)], Sine(43), Rotation(43), 0x800000, 0x200, W(0xc7, 0xde, 0x79, 0x3c),
                 1, 0x2d1468, 0x53, 0, W(0x90, 0xa3, 0x5a, 0xf5), t[43], t[46], t[45], t[44]);
  }

  lemma {:induction false} Done44(m: seq<word>, t: seq<word>)
    requires m == WORDS && |t| == 68 && t[44] == 0xa3e88ead && t[45] == 0x02c0b11c
    requires t[46] == 0x66f6468d && t[47] == 0x90a35af5 && t[48] == 0xb5d41f9c
    ensures Done(m, t, 44)
  {
    var r := OpH(W(0xa3, 0xe8, 0x8e, 0xad), W(0x90, 0xa3, 0x5a, 0xf5),
                 W(0x66, 0xf6, 0x46, 0x8d), W(0x02, 0xc0, 0xb1, 0x1c),
                 m[MessageWord(44)], Sine(44), Rotation(44), 0x10, 0x10000000, W(0xf4, 0x95, 0xad, 0x64),
                 2, 0x7, 0x2530c4a, 0, W(0xb5, 0xd4, 0x1f, 0x9c), t[44], t[47], t[46], t[45]);
  }

  lemma {:induction false} Done45(m: seq<word>, t: seq<word>)
    requires m == WORDS && |t| == 68 && t[45] == 0x02c0b11c && t[46] == 0x66f6468d
    requires t[47] == 0x90a35af5 && t[48] == 0xb5d41f9c && t[49] == 0xa04b4904
    ensures Done(m, t, 45)
  {
    var r := OpH(W(0x02, 0xc0, 0xb1, 0x1c), W(0xb5, 0xd4, 0x1f, 0x9c),
                 W(0x90, 0xa3, 0x5a, 0xf5), W(0x66, 0xf6, 0x46, 0x8d),
                 m[MessageWord(45)], Sine(45), Rotation(45), 0x800, 0x200000, W(0x43, 0x81, 0x03, 0xe4),
                 1, 0x168, 0x1d4ee5, 1, W(0xa0, 0x4b, 0x49, 0x04), t[45], t[48], t[47], t[46]);
  }

  lemma {:induction false} Done46(m: seq<word>, t: seq<word>)
    requires m == WORDS && |t| == 68 && t[46] == 0x66f6468d && t[47] == 0x90a35af5
    requires t[48] == 0xb5d41f9c && t[49] == 0xa04b4904 && t[50] == 0x703d54d8
    ensures Done(m, t, 46)
  {
    var r := OpH(W(0x66, 0xf6, 0x46, 0x8d), W(0xa0, 0x4b, 0x49, 0x04),
                 W(0xb5, 0xd4, 0x1f, 0x9c), W(0x90, 0xa3, 0x5a, 0xf5),
                 m[MessageWord(46)], Sine(46), Rotation(46), 0x10000, 0x10000, W(0x85, 0x3c, 0x0c, 0x6d),
                 1, 0xbd4, 0xcff2, 1, W(0x70, 0x3d, 0x54, 0xd8), t[46], t[49], t[48], t[47]);
  }

  lemma {:induction false} Done47(m: seq<word>, t: seq<word>)
    requires m == WORDS && |t| == 68 && t[47] == 0x90a35af5 && t[48] == 0xb5d41f9c
    requires t[49] == 0xa04b4904 && t[50] == 0x703d54d8 && t[51] == 0x71d10367
    ensures Done(m, t, 47)
  {
    var r := OpH(W(0x90, 0xa3, 0x5a, 0xf5), W(0x70, 0x3d, 0x54, 0xd8),
                 W(0xa0, 0x4b, 0x49, 0x04), W(0xb5, 0xd4, 0x1f, 0x9c),
                 m[MessageWord(47)], Sine(47), Rotation(47), 0x800000, 0x200, W(0x65, 0xa2, 0x02, 0x40),
                 2, 0x13ae8f, 0x3, 0, W(0x71, 0xd1, 0x03, 0x67), t[47], t[50], t[49], t[48]);
  }

  lemma {:induction false} Done48(m: seq<word>, t: seq<word>)
    requires m == WORDS && |t| == 68 && t[48] == 0xb5d41f9c && t[49] == 0xa04b4904
    requires t[50] == 0x703d54d8 && t[51] == 0x71d10367 && t[52] == 0xfc32dd6e
    ensures Done(m, t, 48)
  {
    var r := OpI(W(0xb5, 0xd4, 0x1f, 0x9c), W(0x71, 0xd1, 0x03, 0x67),
                 W(0x70, 0x3d, 0x54, 0xd8), W(0xa0, 0x4b, 0x49, 0x04),
                 m[MessageWord(48)], Sine(48), Rotation(48), 0x40, 0x4000000, W(0x0f, 0xc8, 0xe3, 0x27),
                 2, 0x7, 0x2298768, 0, W(0xfc, 0x32, 0xdd, 0x6e), t[48], t[51], t[50], t[49]);
  }

  lemma {:induction false} Done49(m: seq<word>, t: seq<word>)
    requires m == WORDS && |t| == 68 && t[49] == 0xa04b4904 && t[50] == 0x703d54d8
    requires t[51] == 0x71d10367 && t[52] == 0xfc32dd6e && t[53] == 0x65456b34
    ensures Done(m, t, 49)
  {
    var r := OpI(W(0xa0, 0x4b, 0x49, 0x04), W(0xfc, 0x32, 0xdd, 0x6e),
                 W(0x71, 0xd1, 0x03, 0x67), W(0x70, 0x3d, 0x54, 0xd8),
                 m[MessageWord(49)], Sine(49), Rotation(49), 0x400, 0x400000, W(0x8e, 0x23, 0xfc, 0x08),
                 1, 0x1c6, 0x1a44a3, 1, W(0x65, 0x45, 0x6b, 0x34), t[49], t[52], t[51], t[50]);
  }

  lemma {:induction false} Done50(m: seq<word>, t: seq<word>)
    requires m == WORDS && |t| == 68 && t[50] == 0x703d54d8 && t[51] == 0x71d10367
    requires t[52] == 0xfc32dd6e && t[53] == 0x65456b34 && t[54] == 0xb35602cb
    ensures Done(m, t, 50)
  {
    var r := OpI(W(0x70, 0x3d, 0x54, 0xd8), W(0x65, 0x45, 0x6b, 0x34),
                 W(0xfc, 0x32, 0xdd, 0x6e), W(0x71, 0xd1, 0x03, 0x67),
                 m[MessageWord(50)], Sine(50), Rotation(50), 0x8000, 0x20000, W(0x13, 0x5d, 0x22, 0xd2),
                 1, 0x1797, 0x9c21, 0, W(0xb3, 0x56, 0x02, 0xcb), t[50], t[53], t[52], t[51]);
  }

  lemma {:induction false} Done51(m: seq<word>, t: seq<word>)
    requires m == WORDS && |t| == 68 && t[51] == 0x71d10367 && t[52] == 0xfc32dd6e
    requires t[53] == 0x65456b34 && t[54] == 0xb35602cb && t[55] == 0x33edb197
    ensures Done(m, t, 51)
  {
    var r := OpI(W(0x71, 0xd1, 0x03, 0x67), W(0xb3, 0x56, 0x02, 0xcb),
                 W(0x65, 0x45, 0x6b, 0x34), W(0xfc, 0x32, 0xdd, 0x6e),
                 m[MessageWord(51)], Sine(51), Rotation(51), 0x200000, 0x800, W(0xd6, 0x9a, 0x49, 0xef),
                 2, 0x17aecc, 0x404, 1, W(0x33, 0xed, 0xb1, 0x97), t[51], t[54], t[53], t[52]);
  }

  lemma {:induction false} Done52(m: seq<word>, t: seq<word>)
    requires m == WORDS && |t| == 68 && t[52] == 0xfc32dd6e && t[53] == 0x65456b34
    requires t[54] == 0xb35602cb && t[55] == 0x33edb197 && t[56] == 0xc1e942f1
    ensures Done(m, t, 52)
  {
    var r := OpI(W(0xfc, 0x32, 0xdd, 0x6e), W(0x33, 0xed, 0xb1, 0x97),
                 W(0xb3, 0x56, 0x02, 0xcb), W(0x65, 0x45, 0x6b, 0x34),
                 m[MessageWord(52)], Sine(52), Rotation(52), 0x40, 0x4000000, W(0x08, 0xa9, 0xb7, 0x14),
                 1, 0x1a, 0x237ee45, 0, W(0xc1, 0xe9, 0x42, 0xf1), t[52], t[55], t[54], t[53]);
  }

  lemma {:induction false} Done53(m: seq<word>, t: seq<word>)
    requires m == WORDS && |t| == 68 && t[53] == 0x65456b34 && t[54] == 0xb35602cb
    requires t[55] == 0x33edb197 && t[56] == 0xc1e942f1 && t[57] == 0xd9bb987c
    ensures Done(m, t, 53)
  {
    var r := OpI(W(0x65, 0x45, 0x6b, 0x34), W(0xc1, 0xe9, 0x42, 0xf1),
                 W(0x33, 0xed, 0xb1, 0x97), W(0xb3, 0x56, 0x02, 0xcb),
                 m[MessageWord(53)], Sine(53), Rotation(53), 0x400, 0x400000, W(0xfe, 0x04, 0x4e, 0x62),
                 2, 0x18b, 0x5f495, 0, W(0xd9, 0xbb, 0x98, 0x7c), t[53], t[56], t[55], t[54]);
  }

  lemma {:induction false} Done54(m: seq<word>, t: seq<word>)
    requires m == WORDS && |t| == 68 && t[54] == 0xb35602cb && t[55] == 0x33edb197
    requires t[56] == 0xc1e942f1 && t[57] == 0xd9bb987c && t[58] == 0x23a68048
    ensures Done(m, t, 54)
  {
    var r := OpI(W(0xb3, 0x56, 0x02, 0xcb), W(0xd9, 0xbb, 0x98, 0x7c),
                 W(0xc1, 0xe9, 0x42, 0xf1), W(0x33, 0xed, 0xb1, 0x97),
                 m[MessageWord(54)], Sine(54), Rotation(54), 0x8000, 0x20000, W(0x1c, 0x52, 0x9c, 0x8d),
                 1, 0x67cc, 0x93d5, 1, W(0x23, 0xa6, 0x80, 0x48), t[54], t[57], t[56], t[55]);
  }

  lemma {:induction false} Done55(m: seq<word>, t: seq<word>)
    requires m == WORDS && |t| == 68 && t[55] == 0x33edb197 && t[56] == 0xc1e942f1
    requires t[57] == 0xd9bb987c && t[58] == 0x23a68048 && t[59] == 0x83877d1b
    ensures Done(m, t, 55)
  {
    var r := OpI(W(0x33, 0xed, 0xb1, 0x97), W(0x23, 0xa6, 0x80, 0x48),
                 W(0xd9, 0xbb, 0x98, 0x7c), W(0xc1, 0xe9, 0x42, 0xf1),
                 m[MessageWord(55)], Sine(55), Rotation(55), 0x200000, 0x800, W(0xe6, 0x0d, 0x25, 0x32),
                 2, 0xfcd3, 0x2ff, 0, W(0x83, 0x87, 0x7d, 0x1b), t[55], t[58], t[57], t[56]);
  }

  lemma {:induction false} Done56(m: seq<word>, t: seq<word>)
    requires m == WORDS && |t| == 68 && t[56] == 0xc1e942f1 && t[57] == 0xd9bb987c
    requires t[58] == 0x23a68048 && t[59] == 0x83877d1b && t[60] == 0x0077c208
    ensures Done(m, t, 56)
  {
    var r := OpI(W(0xc1, 0xe9, 0x42, 0xf1), W(0x83, 0x87, 0x7d, 0x1b),
                 W(0x23, 0xa6, 0x80, 0x48), W(0xd9, 0xbb, 0x98, 0x7c),
                 m[MessageWord(56)], Sine(56), Rotation(56), 0x40, 0x4000000, W(0x84, 0x61, 0xff, 0xd3),
                 1, 0x2d, 0x1f3c113, 1, W(0x00, 0x77, 0xc2, 0x08), t[56], t[59], t[58], t[57]);
  }

  lemma {:induction false} Done57(m: seq<word>, t: seq<word>)
    requires m == WORDS && |t| == 68 && t[57] == 0xd9bb987c && t[58] == 0x23a68048
    requires t[59] == 0x83877d1b && t[60] == 0x0077c208 && t[61] == 0x847fc2e7
    ensures Done(m, t, 57)
  {
    var r := OpI(W(0xd9, 0xbb, 0x98, 0x7c), W(0x00, 0x77, 0xc2, 0x08),
                 W(0x83, 0x87, 0x7d, 0x1b), W(0x23, 0xa6, 0x80, 0x48),
                 m[MessageWord(57)], Sine(57), Rotation(57), 0x400, 0x400000, W(0x5f, 0xf8, 0x82, 0xa4),
                 2, 0xdf, 0x210200, 0, W(0x84, 0x7f, 0xc2, 0xe7), t[57], t[60], t[59], t[58]);
  }

  lemma {:induction false} Done58(m: seq<word>, t: seq<word>)
    requires m == WORDS && |t| == 68 && t[58] == 0x23a68048 && t[59] == 0x83877d1b
    requires t[60] == 0x0077c208 && t[61] == 0x847fc2e7 && t[62] == 0xa3e2247f
    ensures Done(m, t, 58)
  {
    var r := OpI(W(0x23, 0xa6, 0x80, 0x48), W(0x84, 0x7f, 0xc2, 0xe7),
                 W(0x00, 0x77, 0xc2, 0x08), W(0x83, 0x87, 0x7d, 0x1b),
                 m[MessageWord(58)], Sine(58), Rotation(58), 0x8000, 0x20000, W(0xfc, 0x08, 0x00, 0xef),
                 1, 0x6198, 0x3ec4, 0, W(0xa3, 0xe2, 0x24, 0x7f), t[58], t[61], t[60], t[59]);
  }

  lemma {:induction false} Done59(m: seq<word>, t: seq<word>)
    requires m == WORDS && |t| == 68 && t[59] == 0x83877d1b && t[60] == 0x0077c208
    requires t[61] == 0x847fc2e7 && t[62] == 0xa3e2247f && t[63] == 0x5e6bc930
    ensures Done(m, t, 59)
  {
    var r := OpI(W(0x83, 0x87, 0x7d, 0x1b), W(0xa3, 0xe2, 0x24, 0x7f),
                 W(0x84, 0x7f, 0xc2, 0xe7), W(0x00, 0x77, 0xc2, 0x08),
                 m[MessageWord(59)], Sine(59), Rotation(59), 0x200000, 0x800, W(0x7b, 0x95, 0xff, 0x18),
                 1, 0x9a4b1, 0x5d4, 1, W(0x5e, 0x6b, 0xc9, 0x30), t[59], t[62], t[61], t[60]);
  }

  lemma {:induction false} Done60(m: seq<word>, t: seq<word>)
    requires m == WORDS && |t| == 68 && t[60] == 0x0077c208 && t[61] == 0x847fc2e7
    requires t[62] == 0xa3e2247f && t[63] == 0x5e6bc930 && t[64] == 0x708ed9c2
    ensures Done(m, t, 60)
  {
    var r := OpI(W(0x00, 0x77, 0xc2, 0x08), W(0x5e, 0x6b, 0xc9, 0x30),
                 W(0xa3, 0xe2, 0x24, 0x7f), W(0x84, 0x7f, 0xc2, 0xe7),
                 m[MessageWord(60)], Sine(60), Rotation(60), 0x40, 0x4000000, W(0xdc, 0x09, 0xd9, 0x47),
                 2, 0x12, 0x488c42, 0, W(0x70, 0x8e, 0xd9, 0xc2), t[60], t[63], t[62], t[61]);
  }

  lemma {:induction false} Done61(m: seq<word>, t: seq<word>)
    requires m == WORDS && |t| == 68 && t[61] == 0x847fc2e7 && t[62] == 0xa3e2247f
    requires t[63] == 0x5e6bc930 && t[64] == 0x708ed9c2 && t[65] == 0x2baf1354
    ensures Done(m, t, 61)
  {
    var r := OpI(W(0x84, 0x7f, 0xc2, 0xe7), W(0x70, 0x8e, 0xd9, 0xc2),
                 W(0x5e, 0x6b, 0xc9, 0x30), W(0xa3, 0xe2, 0x24, 0x7f),
                 m[MessageWord(61)], Sine(61), Rotation(61), 0x400, 0x400000, W(0x22, 0xf4, 0x12, 0xf2),
                 1, 0x192, 0x2ec80e, 1, W(0x2b, 0xaf, 0x13, 0x54), t[61], t[64], t[63], t[62]);
  }

  lemma {:induction false} Done62(m: seq<word>, t: seq<word>)
    requires m == WORDS && |t| == 68 && t[62] == 0xa3e2247f && t[63] == 0x5e6bc930
    requires t[64] == 0x708ed9c2 && t[65] == 0x2baf1354 && t[66] == 0xd38f1e7f
    ensures Done(m, t, 62)
  {
    var r := OpI(W(0xa3, 0xe2, 0x24, 0x7f), W(0x2b, 0xaf, 0x13, 0x54),
                 W(0x70, 0x8e, 0xd9, 0xc2), W(0x5e, 0x6b, 0xc9, 0x30),
                 m[MessageWord(62)], Sine(62), Rotation(62), 0x8000, 0x20000, W(0xdb, 0x31, 0xee, 0x1d),
                 2, 0xb2b, 0x14fc0, 0, W(0xd3, 0x8f, 0x1e, 0x7f), t[62], t[65], t[64], t[63]);
  }

  lemma {:induction false} Done63(m: seq<word>, t: seq<word>)
    requires m == WORDS && |t| == 68 && t[63] == 0x5e6bc930 && t[64] == 0x708ed9c2
    requires t[65] == 0x2baf1354 && t[66] == 0xd38f1e7f && t[67] == 0x1116e6d8
    ensures Done(m, t, 63)
  {
    var r := OpI(W(0x5e, 0x6b, 0xc9, 0x30), W(0xd3, 0x8f, 0x1e, 0x7f),
                 W(0x2b, 0xaf, 0x13, 0x54), W(0x70, 0x8e, 0xd9, 0xc2),
                 m[MessageWord(63)], Sine(63), Rotation(63), 0x200000, 0x800, W(0xf4, 0x50, 0x2d, 0x2b),
                 2, 0x7c859, 0x1ec, 1, W(0x11, 0x16, 0xe6, 0xd8), t[63], t[66], t[65], t[64]);
  }

  // ---- The digest --------------------------------------------------------------------------------------

  /** A, D, C and B at the start, and what the sixty-four operations give. */
  function Trace(i: nat): word
    requires i < 68
  {
    match i
    case 0 => 0x67452301 case 1 => 0x10325476 case 2 => 0x98badcfe case 3 => 0xefcdab89
    case 4 => 0xd6d117a6 case 5 => 0xaab1aaaa case 6 => 0x227d8cf1 case 7 => 0x4503b812
    case 8 => 0xfe15f787 case 9 => 0xa811b278 case 10 => 0xb71122fc case 11 => 0xda9bbb0d
    case 12 => 0xae752899 case 13 => 0x2bbe757f case 14 => 0x7d4bd80b case 15 => 0x56cfa5cb
    case 16 => 0x1754a316 case 17 => 0x85567d90 case 18 => 0x00df74d5 case 19 => 0x608d6b7e
    case 20 => 0x2d8071cc case 21 => 0x5dcee119 case 22 => 0xedfe7e4b case 23 => 0x4c2145b3
    case 24 => 0x570c43e0 case 25 => 0x977efd2a case 26 => 0xc28ab49d case 27 => 0xc9f162d4
    case 28 => 0x25bfae3b case 29 => 0x89980104 case 30 => 0xf8c8365f case 31 => 0xe6d3b398
    case 32 => 0xf54d8710 case 33 => 0x927b72e2 case 34 => 0x2e69afc7 case 35 => 0xaeb35766
    case 36 => 0xb4bf680e case 37 => 0x4c8ffa80 case 38 => 0x2361ed0a case 39 => 0x06a5e211
    case 40 => 0xb9c0c733 case 41 => 0xf1e6dc7a case 42 => 0x23a9451b case 43 => 0x8d41bf99
    case 44 => 0xa3e88ead case 45 => 0x02c0b11c case 46 => 0x66f6468d case 47 => 0x90a35af5
    case 48 => 0xb5d41f9c case 49 => 0xa04b4904 case 50 => 0x703d54d8 case 51 => 0x71d10367
    case 52 => 0xfc32dd6e case 53 => 0x65456b34 case 54 => 0xb35602cb case 55 => 0x33edb197
    case 56 => 0xc1e942f1 case 57 => 0xd9bb987c case 58 => 0x23a68048 case 59 => 0x83877d1b
    case 60 => 0x0077c208 case 61 => 0x847fc2e7 case 62 => 0xa3e2247f case 63 => 0x5e6bc930
    case 64 => 0x708ed9c2 case 65 => 0x2baf1354 case 66 => 0xd38f1e7f case _ => 0x1116e6d8
  }

  lemma {:induction false} From0(m: seq<word>, t: seq<word>, i: nat)
    requires m == WORDS && |t| == 68 && (forall k :: 0 <= k < 68 ==> t[k] == Trace(k)) && 0 <= i < 8
    ensures Done(m, t, i)
  {
    match i
    case 0 => Done0(m, t);
    case 1 => Done1(m, t);
    case 2 => Done2(m, t);
    case 3 => Done3(m, t);
    case 4 => Done4(m, t);
    case 5 => Done5(m, t);
    case 6 => Done6(m, t);
    case _ => Done7(m, t);
  }

  lemma {:induction false} From8(m: seq<word>, t: seq<word>, i: nat)
    requires m == WORDS && |t| == 68 && (forall k :: 0 <= k < 68 ==> t[k] == Trace(k)) && 8 <= i < 16
    ensures Done(m, t, i)
  {
    match i
    case 8 => Done8(m, t);
    case 9 => Done9(m, t);
    case 10 => Done10(m, t);
    case 11 => Done11(m, t);
    case 12 => Done12(m, t);
    case 13 => Done13(m, t);
    case 14 => Done14(m, t);
    case _ => Done15(m, t);
  }

  lemma {:induction false} From16(m: seq<word>, t: seq<word>, i: nat)
    requires m == WORDS && |t| == 68 && (forall k :: 0 <= k < 68 ==> t[k] == Trace(k)) && 16 <= i < 24
    ensures Done(m, t, i)
  {
    match i
    case 16 => Done16(m, t);
    case 17 => Done17(m, t);
    case 18 => Done18(m, t);
    case 19 => Done19(m, t);
    case 20 => Done20(m, t);
    case 21 => Done21(m, t);
    case 22 => Done22(m, t);
    case _ => Done23(m, t);
  }

  lemma {:induction false} From24(m: seq<word>, t: seq<word>, i: nat)
    requires m == WORDS && |t| == 68 && (forall k :: 0 <= k < 68 ==> t[k] == Trace(k)) && 24 <= i < 32
    ensures Done(m, t, i)
  {
    match i
    case 24 => Done24(m, t);
    case 25 => Done25(m, t);
    case 26 => Done26(m, t);
    case 27 => Done27(m, t);
    case 28 => Done28(m, t);
    case 29 => Done29(m, t);
    case 30 => Done30(m, t);
    case _ => Done31(m, t);
  }

  lemma {:induction false} From32(m: seq<word>, t: seq<word>, i: nat)
    requires m == WORDS && |t| == 68 && (forall k :: 0 <= k < 68 ==> t[k] == Trace(k)) && 32 <= i < 40
    ensures Done(m, t, i)
  {
    match i
    case 32 => Done32(m, t);
    case 33 => Done33(m, t);
    case 34 => Done34(m, t);
    case 35 => Done35(m, t);
    case 36 => Done36(m, t);
    case 37 => Done37(m, t);
    case 38 => Done38(m, t);
    case _ => Done39(m, t);
  }

  lemma {:induction false} From40(m: seq<word>, t: seq<word>, i: nat)
    requires m == WORDS && |t| == 68 && (forall k :: 0 <= k < 68 ==> t[k] == Trace(k)) && 40 <= i < 48
    ensures Done(m, t, i)
  {
    match i
    case 40 => Done40(m, t);
    case 41 => Done41(m, t);
    case 42 => Done42(m, t);
    case 43 => Done43(m, t);
    case 44 => Done44(m, t);
    case 45 => Done45(m, t);
    case 46 => Done46(m, t);
    case _ => Done47(m, t);
  }

  lemma {:induction false} From48(m: seq<word>, t: seq<word>, i: nat)
    requires m == WORDS && |t| == 68 && (forall k :: 0 <= k < 68 ==> t[k] == Trace(k)) && 48 <= i < 56
    ensures Done(m, t, i)
  {
    match i
    case 48 => Done48(m, t);
    case 49 => Done49(m, t);
    case 50 => Done50(m, t);
    case 51 => Done51(m, t);
    case 52 => Done52(m, t);
    case 53 => Done53(m, t);
    case 54 => Done54(m, t);
    case _ => Done55(m, t);
  }

  lemma {:induction false} From56(m: seq<word>, t: seq<word>, i: nat)
    requires m == WORDS && |t| == 68 && (forall k :: 0 <= k < 68 ==> t[k] == Trace(k)) && 56 <= i < 64
    ensures Done(m, t, i)
  {
    match i
    case 56 => Done56(m, t);
    case 57 => Done57(m, t);
    case 58 => Done58(m, t);
    case 59 => Done59(m, t);
    case 60 => Done60(m, t);
    case 61 => Done61(m, t);
    case 62 => Done62(m, t);
    case _ => Done63(m, t);
  }

  lemma {:induction false} AllDone(m: seq<word>, t: seq<word>, i: nat)
    requires m == WORDS && |t| == 68 && (forall k :: 0 <= k < 68 ==> t[k] == Trace(k)) && i < 64
    ensures Done(m, t, i)
  {
    if i < 8 {
      From0(m, t, i);
    } else if i < 16 {
      From8(m, t, i);
    } else if i < 24 {
      From16(m, t, i);
    } else if i < 32 {
      From24(m, t, i);
    } else if i < 40 {
      From32(m, t, i);
    } else if i < 48 {
      From40(m, t, i);
    } else if i < 56 {
      From48(m, t, i);
    } else {
      From56(m, t, i);
    }
  }

  /** The registers after `i` operations, in the order in which the next one names them. */
  predicate Named(g: Registers, t: seq<word>, i: nat)
    requires |t| == 68 && i <= 64
  {
    if i % 4 == 0 then g == Registers(t[i], t[i + 3], t[i + 2], t[i + 1])
    else if i % 4 == 1 then g == Registers(t[i + 3], t[i + 2], t[i + 1], t[i])
    else if i % 4 == 2 then g == Registers(t[i + 2], t[i + 1], t[i], t[i + 3])
    else g == Registers(t[i + 1], t[i], t[i + 3], t[i + 2])
  }

  lemma {:induction false} One(m: seq<word>, t: seq<word>, i: nat, g: Registers)
    requires |m| == 16 && |t| == 68 && i < 64 && Done(m, t, i) && Named(g, t, i)
    ensures Named(Permuted(g, i, m[MessageWord(i)], Sine(i), Rotation(i)), t, i + 1)
  {
    var x, k, s := m[MessageWord(i)], Sine(i), Rotation(i);
    TurnsOver(i);
    if i % 4 == 0 {
      assert Permuted(g, i, x, k, s) == g.(a := Operation(i / 16, g.a, g.b, g.c, g.d, x, k, s));
    } else if i % 4 == 1 {
      assert Permuted(g, i, x, k, s) == g.(d := Operation(i / 16, g.d, g.a, g.b, g.c, x, k, s));
    } else if i % 4 == 2 {
      assert Permuted(g, i, x, k, s) == g.(c := Operation(i / 16, g.c, g.d, g.a, g.b, x, k, s));
    } else {
      assert Permuted(g, i, x, k, s) == g.(b := Operation(i / 16, g.b, g.c, g.d, g.a, x, k, s));
    }
  }

  lemma TurnsOver(i: nat)
    ensures (i + 1) % 4 == if i % 4 == 3 then 0 else i % 4 + 1
  {
  }

  /** When every operation gives what the trace says, so do all of them. */
  lemma {:induction false} Afterwards(m: seq<word>, t: seq<word>, i: nat)
    requires m == WORDS && |t| == 68 && (forall k :: 0 <= k < 68 ==> t[k] == Trace(k)) && i <= 64
    ensures Named(Rounds(INITIAL, m, i), t, i)
  {
    if i > 0 {
      Afterwards(m, t, i - 1);
      AllDone(m, t, i - 1);
      One(m, t, i - 1, Rounds(INITIAL, m, i - 1));
    }
  }

  const ALPHABET: seq<byte> := [
    0x61, 0x62, 0x63, 0x64, 0x65, 0x66, 0x67, 0x68,
    0x69, 0x6a, 0x6b, 0x6c, 0x6d, 0x6e, 0x6f, 0x70,
    0x71, 0x72, 0x73, 0x74, 0x75, 0x76, 0x77, 0x78,
    0x79, 0x7a
  ]

  /** The padded alphabet is one block, with these words. */
  lemma {:induction false} Padding(p: seq<byte>)
    requires p == PaddedMessage(ALPHABET)
    ensures |p| == 64 && p == ALPHABET + [0x80] + Zeros(29) + [208, 0, 0, 0, 0, 0, 0, 0]
  {
    assert ZeroCount(26) == 29;
    var n := Length64(208);
    ByteOfSmall(0);
    ByteOfSmall(1);
    ByteOfSmall(2);
    ByteOfSmall(3);
    ByteOfSmall(4);
    ByteOfSmall(5);
    ByteOfSmall(6);
    ByteOfSmall(7);
    assert n == [208, 0, 0, 0, 0, 0, 0, 0];
  }

  lemma {:induction false} ByteOfSmall(i: nat)
    ensures ByteAt(208, i) == if i == 0 then 208 else 0
  {
    PowPositive(256, i);
    if i > 0 {
      PowPositive(256, i - 1);
      MulMono(1, Pow(256, i - 1), 256);
      DivModUnique(208, Pow(256, i), 0, 208);
    }
  }

  lemma {:induction false} WordsOfPadding(p: seq<byte>)
    requires |p| == 64 && p == ALPHABET + [0x80] + Zeros(29) + [208, 0, 0, 0, 0, 0, 0, 0]
    ensures Words(p) == WORDS
  {
    Words0(p);
    Words4(p);
    Words8(p);
    Words12(p);
    assert |Words(p)| == |WORDS|;
  }

  lemma {:induction false} Words0(p: seq<byte>)
    requires |p| == 64 && p == ALPHABET + [0x80] + Zeros(29) + [208, 0, 0, 0, 0, 0, 0, 0]
    ensures Words(p)[0] == 0x64636261 && Words(p)[1] == 0x68676665
    ensures Words(p)[2] == 0x6c6b6a69 && Words(p)[3] == 0x706f6e6d
  {
    Letters(p, 0);
    Letters(p, 1);
    Letters(p, 2);
    Letters(p, 3);
  }

  lemma {:induction false} Letters(p: seq<byte>, j: nat)
    requires |p| == 64 && p == ALPHABET + [0x80] + Zeros(29) + [208, 0, 0, 0, 0, 0, 0, 0] && j < 6
    ensures Words(p)[j] == 0x64636261 + 0x04040404 * j
  {
    assert forall i :: 0 <= i < 26 ==> p[i] == ALPHABET[i] == 0x61 + i;
    WordAt(p, j, 0x61 + 4 * j, 0x62 + 4 * j, 0x63 + 4 * j, 0x64 + 4 * j);
  }

  lemma {:induction false} Words4(p: seq<byte>)
    requires |p| == 64 && p == ALPHABET + [0x80] + Zeros(29) + [208, 0, 0, 0, 0, 0, 0, 0]
    ensures Words(p)[4] == 0x74737271 && Words(p)[5] == 0x78777675 && Words(p)[6] == 0x807a79 && Words(p)[7] == 0x0
  {
    WordAt(p, 4, 0x71, 0x72, 0x73, 0x74);
    WordAt(p, 5, 0x75, 0x76, 0x77, 0x78);
    WordAt(p, 6, 0x79, 0x7a, 0x80, 0x00);
    WordAt(p, 7, 0x00, 0x00, 0x00, 0x00);
  }

  lemma {:induction false} Words8(p: seq<byte>)
    requires |p| == 64 && p == ALPHABET + [0x80] + Zeros(29) + [208, 0, 0, 0, 0, 0, 0, 0]
    ensures Words(p)[8] == 0x0 && Words(p)[9] == 0x0 && Words(p)[10] == 0x0 && Words(p)[11] == 0x0
  {
    WordAt(p, 8, 0x00, 0x00, 0x00, 0x00);
    WordAt(p, 9, 0x00, 0x00, 0x00, 0x00);
    WordAt(p, 10, 0x00, 0x00, 0x00, 0x00);
    WordAt(p, 11, 0x00, 0x00, 0x00, 0x00);
  }

  lemma {:induction false} Words12(p: seq<byte>)
    requires |p| == 64 && p == ALPHABET + [0x80] + Zeros(29) + [208, 0, 0, 0, 0, 0, 0, 0]
    ensures Words(p)[12] == 0x0 && Words(p)[13] == 0x0 && Words(p)[14] == 0xd0 && Words(p)[15] == 0x0
  {
    WordAt(p, 12, 0x00, 0x00, 0x00, 0x00);
    WordAt(p, 13, 0x00, 0x00, 0x00, 0x00);
    WordAt(p, 14, 0xd0, 0x00, 0x00, 0x00);
    WordAt(p, 15, 0x00, 0x00, 0x00, 0x00);
  }

  lemma {:induction false} WordAt(p: seq<byte>, j: nat, b0: byte, b1: byte, b2: byte, b3: byte)
    requires |p| == 64 && j < 16
    requires p[4 * j] == b0 && p[4 * j + 1] == b1 && p[4 * j + 2] == b2 && p[4 * j + 3] == b3
    ensures Words(p)[j] == b0 as int + 0x100 * b1 + 0x1_0000 * b2 + 0x100_0000 * b3
  {
    assert p[4 * j..4 * j + 4] == [b0, b1, b2, b3];
  }

  lemma {:induction false} Compressed(p: seq<byte>)
    requires |p| == 64 && Words(p) == WORDS
    ensures Compress(INITIAL, p) == Registers(0xd7d3fcc3, 0x00e49261, 0x6c49fb7d, 0x3be167ca)
  {
    var t := seq(68, i requires 0 <= i < 68 => Trace(i));
    Afterwards(Words(p), t, 64);
    var r := Rounds(INITIAL, Words(p), 64);
    assert r == Registers(t[64], t[67], t[66], t[65]);
    Added(r);
  }

  lemma {:induction false} Added(r: Registers)
    requires r == Registers(Trace(64), Trace(67), Trace(66), Trace(65))
    ensures Registers(Plus(INITIAL.a, r.a), Plus(INITIAL.b, r.b), Plus(INITIAL.c, r.c), Plus(INITIAL.d, r.d))
         == Registers(0xd7d3fcc3, 0x00e49261, 0x6c49fb7d, 0x3be167ca)
  {
  }

  const DIGEST: seq<byte> := [
    0xc3, 0xfc, 0xd3, 0xd7,
    0x61, 0x92, 0xe4, 0x00,
    0x7d, 0xfb, 0x49, 0x6c,
    0xca, 0x67, 0xe1, 0x3b
  ]

  lemma {:induction false} BytesOf(w: word, b0: byte, b1: byte, b2: byte, b3: byte)
    requires w == b0 as int + 0x100 * b1 + 0x1_0000 * b2 + 0x100_0000 * b3
    ensures WordBytes(w) == [b0, b1, b2, b3]
  {
    DivModUnique(w, 0x100, b1 as int + 0x100 * b2 + 0x1_0000 * b3, b0);
    DivModUnique(w, 0x1_0000, b2 as int + 0x100 * b3, b0 as int + 0x100 * b1);
    DivModUnique(w, 0x100_0000, b3, b0 as int + 0x100 * b1 + 0x1_0000 * b2);
    DivModUnique(b1 as int + 0x100 * b2 + 0x1_0000 * b3, 0x100, b2 as int + 0x100 * b3, b1);
    DivModUnique(b2 as int + 0x100 * b3, 0x100, b3, b2);
  }

  lemma {:induction false} OutputOf(r: Registers)
    requires r == Registers(0xd7d3fcc3, 0x00e49261, 0x6c49fb7d, 0x3be167ca)
    ensures Output(r) == DIGEST
  {
    BytesOf(r.a, 0xc3, 0xfc, 0xd3, 0xd7);
    BytesOf(r.b, 0x61, 0x92, 0xe4, 0x00);
    BytesOf(r.c, 0x7d, 0xfb, 0x49, 0x6c);
    BytesOf(r.d, 0xca, 0x67, 0xe1, 0x3b);
  }

  /** The entry of the list: c3fcd3d76192e4007dfb496cca67e13b. */
  lemma {:induction false} DigestOfAlphabet()
    ensures Digest(ALPHABET) == DIGEST
  {
    var p := PaddedMessage(ALPHABET);
    Padding(p);
    WordsOfPadding(p);
    Compressed(p);
    ChainOfBlock(INITIAL, p);
    OutputOf(Compress(INITIAL, p));
  }

  /** And the class computes it. */
  method AlphabetInPieces(n: nat) returns (d: seq<byte>)
    requires n <= |ALPHABET|
    ensures d == DIGEST
  {
    var pieces := [ALPHABET[..n], ALPHABET[n..]];
    d := MD5Builders.DigestInPieces(pieces);
    TwoPieces(pieces, n);
    DigestOfAlphabet();
  }

  lemma TwoPieces(pieces: seq<seq<byte>>, n: nat)
    requires n <= |ALPHABET| && pieces == [ALPHABET[..n], ALPHABET[n..]]
    ensures MD5Builders.Concat(pieces) == ALPHABET
  {
    assert pieces[..1] == [ALPHABET[..n]] && pieces[..1][..0] == [];
    assert MD5Builders.Concat(pieces[..1]) == ALPHABET[..n];
  }
}
