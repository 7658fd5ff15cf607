/** The MD5 digest of RFC 1321, as the RFC describes it.

  Section 3.4 lists sixty-four operations in four rounds, each naming the
  register it changes, the message word, the rotation and the sine constant it
  uses. `Rounds` executes exactly that list on registers A, B, C and D.
  `MD5Builder.dfy` holds the class that computes the digest incrementally.
 */
module MD5 {
  import opened Arith
  import opened Bits

  type byte = b: int | 0 <= b < 256
  type word = w: int | 0 <= w < 0x1_0000_0000
  type index = k: nat | k < 16
  type shift = s: nat | 0 < s < 32 witness 1

  // ---- Words and bytes (sections 2 and 3.1) ------------------------------------------

  /** Four bytes, low-order byte first. */
  function Word(b: seq<byte>): word
    requires |b| == 4
  {
    var b0: int, b1: int, b2: int, b3: int := b[0], b[1], b[2], b[3];
    b0 + 0x100 * b1 + 0x1_0000 * b2 + 0x100_0000 * b3
  }

  function WordBytes(w: word): (b: seq<byte>)
    ensures |b| == 4
  {
    [w % 256, w / 0x100 % 256, w / 0x1_0000 % 256, w / 0x100_0000 % 256]
  }

  /** Reading a word back from its bytes gives the word. */
  lemma WordRoundTrip(w: word)
    ensures Word(WordBytes(w)) == w
  {
    assert w / 0x1_0000 == w / 0x100 / 256 && w / 0x100_0000 == w / 0x1_0000 / 256;
  }

  /** The sixteen words of a block. */
  function Words(block: seq<byte>): (m: seq<word>)
    requires |block| == 64
    ensures |m| == 16 && forall i :: 0 <= i < 16 ==> m[i] == Word(block[4 * i..4 * i + 4])
  {
    seq(16, i requires 0 <= i < 16 => Word(block[4 * i..4 * i + 4]))
  }

  // ---- The auxiliary functions (section 3.4) -----------------------------------------

  function Not(x: word): word { 0xFFFF_FFFF - x }

  function F(x: word, y: word, z: word): nat { Or(And(x, y), And(Not(x), z)) }

  function G(x: word, y: word, z: word): nat { Or(And(x, z), And(y, Not(z))) }

  function H(x: word, y: word, z: word): nat { Xor(Xor(x, y), z) }

  function I(x: word, y: word, z: word): nat { Xor(y, Or(x, Not(z))) }

  function Auxiliary(round: nat, x: word, y: word, z: word): nat
    requires round < 4
  {
    if round == 0 then F(x, y, z)
    else if round == 1 then G(x, y, z)
    else if round == 2 then H(x, y, z)
    else I(x, y, z)
  }

  /** Addition of words (section 2): modulo 2^32. */
  function Plus(x: nat, y: nat): word { (x + y) % 0x1_0000_0000 }

  function ShiftLeft(x: word, c: nat): word
    decreases c
  {
    if c == 0 then x else ShiftLeft((2 * x) % 0x1_0000_0000, c - 1)
  }

  function ShiftRight(x: word, c: nat): word
    decreases c
  {
    if c == 0 then x else ShiftRight(x / 2, c - 1)
  }

  /** X <<< s (section 2): a circular shift. */
  function RotateLeft(x: word, s: shift): nat {
    Or(ShiftLeft(x, s), ShiftRight(x, 32 - s))
  }

  lemma {:induction false} ShiftLeftIs(x: word, c: nat)
    ensures ShiftLeft(x, c) == x * Pow(2, c) % 0x1_0000_0000
    decreases c
  {
    if c > 0 {
      var y := 2 * x % 0x1_0000_0000;
      ShiftLeftIs(y, c - 1);
      TimesModulo(2 * x, Pow(2, c - 1), 0x1_0000_0000);
      MulAssoc(x, 2, Pow(2, c - 1));
    }
  }

  lemma TimesModulo(n: nat, p: nat, m: nat)
    requires m > 0
    ensures n % m * p % m == n * p % m
  {
    DivMod(n, m);
    var q := n / m;
    assert n * p == q * p * m + n % m * p;
    DivMod(n % m * p, m);
    var t := n % m * p / m;
    assert n * p == (q * p + t) * m + n % m * p % m;
    DivModUnique(n * p, m, q * p + t, n % m * p % m);
  }

  lemma {:induction false} ShiftRightIs(x: word, c: nat)
    ensures Pow(2, c) > 0 && ShiftRight(x, c) == x / Pow(2, c)
    decreases c
  {
    PowPositive(2, c);
    if c > 0 {
      PowPositive(2, c - 1);
      ShiftRightIs(x / 2, c - 1);
      DivDiv(x, 2, Pow(2, c - 1));
    }
  }

  /** What goes out on the left comes in on the right. */
  lemma RotateLeftIs(x: word, s: shift)
    ensures Pow(2, 32 - s) > 0
    ensures RotateLeft(x, s) == x * Pow(2, s) % 0x1_0000_0000 + x / Pow(2, 32 - s)
  {
    var p, q := Pow(2, s), Pow(2, 32 - s);
    ShiftLeftIs(x, s);
    ShiftRightIs(x, 32 - s);
    PowPositive(2, s);
    WordPower(s);
    HighPart(x, p, q);
    OrCommutes(x % q * p, x / q);
    OrIsSum(x / q, x % q, s);
  }

  lemma WordPower(s: shift)
    ensures Pow(2, s) * Pow(2, 32 - s) == 0x1_0000_0000
  {
    PowSplit(2, s, 32 - s);
    assert Pow(2, 8) == 0x100 && Pow(2, 16) == 0x1_0000;
    PowSplit(2, 16, 16);
  }

  lemma HighPart(x: word, p: nat, q: nat)
    requires p > 0 && q > 0 && p * q == 0x1_0000_0000
    ensures x * p % 0x1_0000_0000 == x % q * p && x / q < p
  {
    DivMod(x, q);
    var h, l := x / q, x % q;
    assert x * p == h * (p * q) + l * p by {
      assert h * q * p == h * (p * q);
    }
    MulMono(l, q - 1, p);
    assert (q - 1) * p == p * q - p;
    MulMono(0, l, p);
    DivModUnique(x * p, 0x1_0000_0000, h, l * p);
    if h >= p {
      MulMono(p, h, q);
    }
  }

  /** The table T[1..64], floor(2^32 * abs(sin(i))), at index i - 1. */
  function Sine(i: nat): word
    requires i < 64
  {
    match i
    case 0 => 0xd76aa478 case 1 => 0xe8c7b756 case 2 => 0x242070db case 3 => 0xc1bdceee
    case 4 => 0xf57c0faf case 5 => 0x4787c62a case 6 => 0xa8304613 case 7 => 0xfd469501
    case 8 => 0x698098d8 case 9 => 0x8b44f7af case 10 => 0xffff5bb1 case 11 => 0x895cd7be
    case 12 => 0x6b901122 case 13 => 0xfd987193 case 14 => 0xa679438e case 15 => 0x49b40821
    case 16 => 0xf61e2562 case 17 => 0xc040b340 case 18 => 0x265e5a51 case 19 => 0xe9b6c7aa
    case 20 => 0xd62f105d case 21 => 0x02441453 case 22 => 0xd8a1e681 case 23 => 0xe7d3fbc8
    case 24 => 0x21e1cde6 case 25 => 0xc33707d6 case 26 => 0xf4d50d87 case 27 => 0x455a14ed
    case 28 => 0xa9e3e905 case 29 => 0xfcefa3f8 case 30 => 0x676f02d9 case 31 => 0x8d2a4c8a
    case 32 => 0xfffa3942 case 33 => 0x8771f681 case 34 => 0x6d9d6122 case 35 => 0xfde5380c
    case 36 => 0xa4beea44 case 37 => 0x4bdecfa9 case 38 => 0xf6bb4b60 case 39 => 0xbebfbc70
    case 40 => 0x289b7ec6 case 41 => 0xeaa127fa case 42 => 0xd4ef3085 case 43 => 0x04881d05
    case 44 => 0xd9d4d039 case 45 => 0xe6db99e5 case 46 => 0x1fa27cf8 case 47 => 0xc4ac5665
    case 48 => 0xf4292244 case 49 => 0x432aff97 case 50 => 0xab9423a7 case 51 => 0xfc93a039
    case 52 => 0x655b59c3 case 53 => 0x8f0ccc92 case 54 => 0xffeff47d case 55 => 0x85845dd1
    case 56 => 0x6fa87e4f case 57 => 0xfe2ce6e0 case 58 => 0xa3014314 case 59 => 0x4e0811a1
    case 60 => 0xf7537e82 case 61 => 0xbd3af235 case 62 => 0x2ad7d2bb case _ => 0xeb86d391
  }

  /** The message word of each operation, in the order of the RFC's tables. */
  function MessageWord(i: nat): index
    requires i < 64
  {
    match i
    case 0 => 0 case 1 => 1 case 2 => 2 case 3 => 3 case 4 => 4 case 5 => 5 case 6 => 6 case 7 => 7
    case 8 => 8 case 9 => 9 case 10 => 10 case 11 => 11 case 12 => 12 case 13 => 13 case 14 => 14 case 15 => 15
    case 16 => 1 case 17 => 6 case 18 => 11 case 19 => 0 case 20 => 5 case 21 => 10 case 22 => 15 case 23 => 4
    case 24 => 9 case 25 => 14 case 26 => 3 case 27 => 8 case 28 => 13 case 29 => 2 case 30 => 7 case 31 => 12
    case 32 => 5 case 33 => 8 case 34 => 11 case 35 => 14 case 36 => 1 case 37 => 4 case 38 => 7 case 39 => 10
    case 40 => 13 case 41 => 0 case 42 => 3 case 43 => 6 case 44 => 9 case 45 => 12 case 46 => 15 case 47 => 2
    case 48 => 0 case 49 => 7 case 50 => 14 case 51 => 5 case 52 => 12 case 53 => 3 case 54 => 10 case 55 => 1
    case 56 => 8 case 57 => 15 case 58 => 6 case 59 => 13 case 60 => 4 case 61 => 11 case 62 => 2 case _ => 9
  }

  /** The four rotations of each round, used in turn. */
  function Rotation(i: nat): shift
    requires i < 64
  {
    match (i / 16, i % 4)
    case (0, 0) => 7  case (0, 1) => 12 case (0, 2) => 17 case (0, _) => 22
    case (1, 0) => 5  case (1, 1) => 9  case (1, 2) => 14 case (1, _) => 20
    case (2, 0) => 4  case (2, 1) => 11 case (2, 2) => 16 case (2, _) => 23
    case (_, 0) => 6  case (_, 1) => 10 case (_, 2) => 15 case (_, _) => 21
  }

  // ---- The rounds ----------------------------------------------------------------------

  datatype Registers = Registers(a: word, b: word, c: word, d: word)

  /** Operation [abcd k s i]: a = b + ((a + f(b, c, d) + X[k] + T[i]) <<< s). */
  function Operation(round: nat, a: word, b: word, c: word, d: word, x: word, t: word, s: shift): word
    requires round < 4
  {
    Plus(b, RotateLeft(Plus(Plus(Plus(a, Auxiliary(round, b, c, d)), x), t), s))
  }

  /** Operation `i` of the RFC's list: the registers are named [ABCD], [DABC],
      [CDAB] and [BCDA] in turn, and only the first named one changes. */
  function Permuted(r: Registers, i: nat, x: word, t: word, s: shift): Registers
    requires i < 64
  {
    var round := i / 16;
    if i % 4 == 0 then r.(a := Operation(round, r.a, r.b, r.c, r.d, x, t, s))
    else if i % 4 == 1 then r.(d := Operation(round, r.d, r.a, r.b, r.c, x, t, s))
    else if i % 4 == 2 then r.(c := Operation(round, r.c, r.d, r.a, r.b, x, t, s))
    else r.(b := Operation(round, r.b, r.c, r.d, r.a, x, t, s))
  }

  /** The first `n` operations, on the words and constants the RFC lists. */
  function Rounds(r: Registers, m: seq<word>, n: nat): Registers
    requires |m| == 16 && n <= 64
  {
    if n == 0 then r
    else
      var i := n - 1;
      Permuted(Rounds(r, m, i), i, m[MessageWord(i)], Sine(i), Rotation(i))
  }

  /** All four rounds of sixteen operations, and the additions that follow them. */
  function Compress(r: Registers, block: seq<byte>): Registers
    requires |block| == 64
  {
    var m := Words(block);
    var s := Rounds(r, m, 4 * |m|);
    Registers(Plus(r.a, s.a), Plus(r.b, s.b), Plus(r.c, s.c), Plus(r.d, s.d))
  }

  // ---- The whole digest (sections 3.1 to 3.5) ----------------------------------------------

  const INITIAL := Registers(0x67452301, 0xefcdab89, 0x98badcfe, 0x10325476)

  /** The chaining state after all the complete blocks of `data`. */
  function Chain(r: Registers, data: seq<byte>): Registers
    decreases |data|
  {
    if |data| < 64 then r else Chain(Compress(r, data[..64]), data[64..])
  }

  /** The low-order eight bytes of a number, low-order byte first. */
  function Length64(n: nat): (b: seq<byte>)
    ensures |b| == 8
  {
    seq(8, i requires 0 <= i < 8 => ByteAt(n, i))
  }

  /** Byte `i` of a number, counted from the low end. */
  function ByteAt(n: nat, i: nat): byte {
    PowPositive(256, i);
    (n / Pow(256, i)) % 256
  }

  /** How many zero bytes follow the 0x80: up to 56 modulo 64. */
  function ZeroCount(length: nat): (z: nat)
    ensures z < 64 && (length + 1 + z) % 64 == 56
  {
    (119 - length % 64) % 64
  }

  function Zeros(n: nat): (z: seq<byte>)
    ensures |z| == n && forall i :: 0 <= i < n ==> z[i] == 0
  {
    seq(n, _ => 0)
  }

  /** The padded message: a 1 bit, zero bits, the length in bits modulo 2^64. */
  function PaddedMessage(m: seq<byte>): seq<byte> {
    m + [0x80] + Zeros(ZeroCount(|m|)) + Length64(8 * |m|)
  }

  function Output(r: Registers): (b: seq<byte>)
    ensures |b| == 16
  {
    WordBytes(r.a) + WordBytes(r.b) + WordBytes(r.c) + WordBytes(r.d)
  }

  /** The sixteen bytes are the registers A, B, C and D, each low-order byte first. */
  lemma OutputIsRegisters(r: Registers)
    ensures var o := Output(r);
      Word(o[..4]) == r.a && Word(o[4..8]) == r.b && Word(o[8..12]) == r.c && Word(o[12..]) == r.d
  {
    WordRoundTrip(r.a);
    WordRoundTrip(r.b);
    WordRoundTrip(r.c);
    WordRoundTrip(r.d);
    var o := Output(r);
    assert o[..4] == WordBytes(r.a) && o[4..8] == WordBytes(r.b);
    assert o[8..12] == WordBytes(r.c) && o[12..] == WordBytes(r.d);
  }

  function Digest(m: seq<byte>): (d: seq<byte>)
    ensures |d| == 16
  {
    Output(Chain(INITIAL, PaddedMessage(m)))
  }

  /** The padded message is a whole number of blocks. */
  lemma PaddedLength(m: seq<byte>)
    ensures |PaddedMessage(m)| % 64 == 0
  {
    var n, z := |m| + 1, ZeroCount(|m|);
    assert |PaddedMessage(m)| == n + z + 8;
  }

  /** Chaining over a whole number of blocks and then the rest is chaining over
      everything: blocks may be compressed as soon as they are complete. */
  lemma {:induction false} ChainSplit(r: Registers, front: seq<byte>, rest: seq<byte>)
    requires |front| % 64 == 0
    ensures Chain(r, front + rest) == Chain(Chain(r, front), rest)
    decreases |front|
  {
    if |front| < 64 {
      assert front + rest == rest;
    } else {
      SplitFirst(front, rest);
      ChainSplit(Compress(r, front[..64]), front[64..], rest);
    }
  }

  lemma SplitFirst(front: seq<byte>, rest: seq<byte>)
    requires |front| >= 64 && |front| % 64 == 0
    ensures |front[64..]| % 64 == 0
    ensures (front + rest)[..64] == front[..64]
    ensures (front + rest)[64..] == front[64..] + rest
  {
  }

  lemma ChainOfPartial(r: Registers, data: seq<byte>)
    requires |data| < 64
    ensures Chain(r, data) == r
  {
  }

  lemma ChainOfBlock(r: Registers, block: seq<byte>)
    requires |block| == 64
    ensures Chain(r, block) == Compress(r, block)
  {
    assert block[..64] == block && block[64..] == [];
  }
}
