/** The incremental digest of MD5Builder.cpp: sixty-four bytes of buffer, a
    chaining state, and a compression loop that rotates its registers. */
module MD5Builders {
  import opened Arith
  import opened Bits
  import opened MD5

  // ---- The rotating loop is the RFC's list of operations -----------------------------

  /** The message word the loop picks by arithmetic. */
  function PickWord(i: nat): nat
    requires i < 64
  {
    if i < 16 then i
    else if i < 32 then (5 * i + 1) % 16
    else if i < 48 then (3 * i + 5) % 16
    else (7 * i) % 16
  }

  /** The mixing function of the loop, as written there. */
  function Mix(i: nat, b: word, c: word, d: word): nat {
    if i < 16 then Or(And(b, c), And(Not(b), d))
    else if i < 32 then Or(And(d, b), And(Not(d), c))
    else if i < 48 then Xor(Xor(b, c), d)
    else Xor(c, Or(b, Not(d)))
  }

  /** The loop picks the message words the RFC lists. */
  lemma PicksListedWord(i: nat)
    requires i < 64
    ensures PickWord(i) == MessageWord(i)
  {
  }

  lemma MixIsAuxiliary(i: nat, b: word, c: word, d: word)
    requires i < 64
    ensures Mix(i, b, c, d) == Auxiliary(i / 16, b, c, d)
  {
    AndCommutes(b, d);
    AndCommutes(c, Not(d));
  }

  /** Four bytes put together with shifts and `|`, as the loop of `transform` does. */
  function Assembled(b0: nat, b1: nat, b2: nat, b3: nat): nat {
    Or(Or(Or(b0, 0x100 * b1), 0x1_0000 * b2), 0x100_0000 * b3)
  }

  lemma BytePowers()
    ensures Pow(2, 8) == 0x100 && Pow(2, 16) == 0x1_0000 && Pow(2, 24) == 0x100_0000
  {
    PowSplit(2, 8, 8);
    PowSplit(2, 16, 8);
  }

  /** The shifted bytes do not overlap, so the `|` of the source adds them. */
  lemma AssembledIsWord(b: seq<byte>)
    requires |b| == 4
    ensures Assembled(b[0], b[1], b[2], b[3]) == Word(b)
  {
    var b0: int, b1: int, b2: int, b3: int := b[0], b[1], b[2], b[3];
    BytePowers();
    var b01 := b0 + 0x100 * b1;
    var b012 := b01 + 0x1_0000 * b2;
    OrIsSum(b0, b1, 8);
    OrIsSum(b01, b2, 16);
    OrIsSum(b012, b3, 24);
  }

  /** The source adds the constant before the message word, the RFC after it. */
  lemma AddSwaps(n: nat, x: nat, t: nat)
    ensures Plus(Plus(n, t), x) == Plus(Plus(n, x), t)
  {
    AddModulo(n + t, x, 0x1_0000_0000);
    AddModulo(n + x, t, 0x1_0000_0000);
  }

  /** One turn of the loop, on message word `x` with constant `t`. */
  function Turn(v: Registers, i: nat, x: word, t: word, s: shift): Registers {
    var sum := Plus(Plus(Plus(v.a, Mix(i, v.b, v.c, v.d)), t), x);
    Registers(v.d, Plus(v.b, RotateLeft(sum, s)), v.b, v.c)
  }

  /** How the variables of the loop name the registers of the RFC after `i` turns. */
  function Turned(r: Registers, i: nat): Registers {
    if i % 4 == 0 then r
    else if i % 4 == 1 then Registers(r.d, r.a, r.b, r.c)
    else if i % 4 == 2 then Registers(r.c, r.d, r.a, r.b)
    else Registers(r.b, r.c, r.d, r.a)
  }

  lemma TurnChangesOne(v: Registers, i: nat, x: word, t: word, s: shift)
    requires i < 64
    ensures Turn(v, i, x, t, s) == Registers(v.d, Operation(i / 16, v.a, v.b, v.c, v.d, x, t, s), v.b, v.c)
  {
    MixIsAuxiliary(i, v.b, v.c, v.d);
    AddSwaps(Plus(v.a, Mix(i, v.b, v.c, v.d)), x, t);
  }

  /** The register operation `i` changes, set to `v`. */
  function Changed(r: Registers, i: nat, v: word): Registers {
    if i % 4 == 0 then r.(a := v)
    else if i % 4 == 1 then r.(d := v)
    else if i % 4 == 2 then r.(c := v)
    else r.(b := v)
  }

  lemma PermutedChanges(r: Registers, i: nat, x: word, t: word, s: shift)
    requires i < 64
    ensures var v := Turned(r, i);
      Permuted(r, i, x, t, s) == Changed(r, i, Operation(i / 16, v.a, v.b, v.c, v.d, x, t, s))
  {
  }

  /** The names move on by one. */
  lemma NamesMoveOn(r: Registers, i: nat, v: word)
    ensures var n := Turned(r, i); Turned(Changed(r, i, v), i + 1) == Registers(n.d, v, n.b, n.c)
  {
    assert (i + 1) % 4 == if i % 4 == 3 then 0 else i % 4 + 1;
  }

  /** One turn is one operation of the RFC. */
  lemma TurnIsOperation(r: Registers, i: nat, x: word, t: word, s: shift)
    requires i < 64
    ensures Turn(Turned(r, i), i, x, t, s) == Turned(Permuted(r, i, x, t, s), i + 1)
  {
    var n := Turned(r, i);
    TurnChangesOne(n, i, x, t, s);
    PermutedChanges(r, i, x, t, s);
    NamesMoveOn(r, i, Operation(i / 16, n.a, n.b, n.c, n.d, x, t, s));
  }

  /** The variables of the loop after its first `n` turns. */
  function Turns(r: Registers, m: seq<word>, n: nat): Registers
    requires |m| == 16 && n <= 64
  {
    if n == 0 then r
    else Turn(Turns(r, m, n - 1), n - 1, m[PickWord(n - 1)], Sine(n - 1), Rotation(n - 1))
  }

  /** The loop and the RFC's list agree after every operation. */
  lemma {:induction false} TurnsAreOperations(r: Registers, m: seq<word>, n: nat)
    requires |m| == 16 && n <= 64
    ensures Turns(r, m, n) == Turned(Rounds(r, m, n), n)
  {
    if n > 0 {
      var i := n - 1;
      TurnsAreOperations(r, m, i);
      PicksListedWord(i);
      TurnIsOperation(Rounds(r, m, i), i, m[PickWord(i)], Sine(i), Rotation(i));
    }
  }

  /** The rotating loop computes the four rounds. */
  lemma TurnsAreRounds(r: Registers, m: seq<word>)
    requires |m| == 16
    ensures Turns(r, m, 4 * |m|) == Rounds(r, m, 4 * |m|)
  {
    TurnsAreOperations(r, m, 4 * |m|);
  }

  // ---- Blocks and what is left over ----------------------------------------------------

  /** The complete blocks of a message, and the bytes after them. */
  function Blocks(m: seq<byte>): (f: seq<byte>)
    ensures |f| % 64 == 0
  {
    m[..|m| - |m| % 64]
  }

  function Leftover(m: seq<byte>): (r: seq<byte>)
    ensures |r| == |m| % 64
  {
    m[|m| - |m| % 64..]
  }

  /** Adding no more than fits the buffer: either it is still not full, or it
      holds exactly one more block. */
  lemma TakeSplits(m: seq<byte>, piece: seq<byte>)
    requires |Leftover(m)| + |piece| <= 64
    ensures |Leftover(m)| + |piece| < 64 ==>
      Blocks(m + piece) == Blocks(m) && Leftover(m + piece) == Leftover(m) + piece
    ensures |Leftover(m)| + |piece| == 64 ==>
      Blocks(m + piece) == Blocks(m) + (Leftover(m) + piece) && Leftover(m + piece) == []
  {
    var n, k := |m| - |m| % 64, |m| % 64 + |piece|;
    assert |m + piece| == n + k;
    DivModUnique(n + k, 64, n / 64 + k / 64, k % 64);
  }

  /** A full buffer goes into the state. */
  lemma FullBuffer(front: seq<byte>, block: seq<byte>)
    requires |front| % 64 == 0 && |block| == 64
    ensures Compress(Chain(INITIAL, front), block) == Chain(INITIAL, front + block)
  {
    ChainSplit(INITIAL, front, block);
    ChainOfBlock(Chain(INITIAL, front), block);
  }

  /** `m` followed by the first `i` bytes of `data`. */
  function Extended(m: seq<byte>, data: seq<byte>, i: nat): seq<byte>
    requires i <= |data|
  {
    m + data[..i]
  }

  lemma TakesNothing(m: seq<byte>, data: seq<byte>)
    ensures Extended(m, data, 0) == m && Extended(m, data, |data|) == m + data
  {
    assert data[..|data|] == data;
  }

  lemma TakesMore(m: seq<byte>, data: seq<byte>, i: nat, k: nat)
    requires i + k <= |data|
    ensures Extended(m, data, i + k) == Extended(m, data, i) + data[i..i + k]
  {
  }

  lemma NothingYet(m: seq<byte>)
    requires m == []
    ensures Leftover(m) == [] && Chain(INITIAL, Blocks(m)) == INITIAL
  {
    ChainOfPartial(INITIAL, Blocks(m));
  }

  const TWO_64 := 0x1_0000_0000_0000_0000

  lemma BitsOfConcat(m: seq<byte>, data: seq<byte>)
    ensures ((8 * |m|) % TWO_64 + |data| * 8) % TWO_64 == (8 * |m + data|) % TWO_64
  {
    AddModulo(8 * |m|, |data| * 8, TWO_64);
  }

  /** What `add(const char *)` passes on of a string: a sixteen-bit length. */
  function Narrowed(s: seq<byte>): (r: seq<byte>)
    ensures |r| <= 0xFFFF
  {
    s[..|s| % 0x1_0000]
  }

  /** Nothing is dropped exactly when the string is shorter than 64 KB. */
  lemma NarrowedIsWhole(s: seq<byte>)
    ensures Narrowed(s) == s <==> |s| < 0x1_0000
  {
    assert |s| < 0x1_0000 ==> s[..|s|] == s;
  }


  /** A message, the 1 bit in its byte, and `zeros` bytes. */
  function ZeroPadded(m: seq<byte>, zeros: nat): (p: seq<byte>)
    ensures |p| == |m| + 1 + zeros
  {
    m + [0x80] + Zeros(zeros)
  }

  lemma NoZeros(m: seq<byte>)
    ensures ZeroPadded(m, 0) == m + [0x80]
  {
  }

  lemma OneMoreZero(m: seq<byte>, zeros: nat)
    ensures ZeroPadded(m, zeros + 1) == ZeroPadded(m, zeros) + [0]
  {
    assert Zeros(zeros + 1) == Zeros(zeros) + [0];
  }

  // ---- The class -------------------------------------------------------------------------

  class MD5Builder {
    const state: array<word>
    var bits: nat
    const buf: array<byte>
    var buflen: nat
    const digest: array<byte>
    /** Everything added since `begin`. */
    ghost var message: seq<byte>

    ghost predicate Shape()
      reads this
    {
      state.Length == 4 && buf.Length == 64 && digest.Length == 16 && buf != digest
    }

    function Chaining(): Registers
      reads this, state
      requires Shape()
    {
      Registers(state[0], state[1], state[2], state[3])
    }

    /** Complete blocks are in the state, the rest is in the buffer, and the
        length in bits is that of the whole message, modulo 2^64. */
    ghost predicate Valid()
      reads this, state, buf
    {
      && Shape()
      && bits == (8 * |message|) % TWO_64
      && Pending(message)
    }

    constructor ()
      ensures Shape() && fresh(state) && fresh(buf) && fresh(digest)
    {
      state, buf, digest := new word[4](_ => 0), new byte[64](_ => 0), new byte[16](_ => 0);
      bits, buflen, message := 0, 0, [];
    }

    method Begin()
      requires Shape()
      modifies this, state, buf, digest
      ensures Valid() && message == []
    {
      state[0], state[1], state[2], state[3] := 0x67452301, 0xefcdab89, 0x98badcfe, 0x10325476;
      bits, buflen, message := 0, 0, [];
      forall i | 0 <= i < 64 {
        buf[i] := 0;
      }
      forall i | 0 <= i < 16 {
        digest[i] := 0;
      }
      NothingYet(message);
    }

    /** The words of a block, assembled byte by byte, and sixty-four turns. */
    method Transform(block: seq<byte>)
      requires Shape() && |block| == 64
      modifies state
      ensures Chaining() == Compress(old(Chaining()), block)
    {
      var m := LoadWords(block);
      var a, b, c, d := Loop(Chaining(), m, state[0], state[1], state[2], state[3]);
      TurnsAreRounds(Chaining(), m[..]);
      state[0], state[1], state[2], state[3] :=
        Plus(state[0], a), Plus(state[1], b), Plus(state[2], c), Plus(state[3], d);
    }

    static method LoadWords(block: seq<byte>) returns (m: array<word>)
      requires |block| == 64
      ensures fresh(m) && m[..] == Words(block)
    {
      m := new word[16](_ => 0);
      for i := 0 to 16
        invariant forall k :: 0 <= k < i ==> m[k] == Words(block)[k]
      {
        AssembledIsWord(block[4 * i..4 * i + 4]);
        m[i] := Assembled(block[i * 4], block[i * 4 + 1], block[i * 4 + 2], block[i * 4 + 3]);
      }
    }

    static method Loop(ghost r: Registers, m: array<word>, a0: word, b0: word, c0: word, d0: word)
      returns (a: word, b: word, c: word, d: word)
      requires m.Length == 16 && r == Registers(a0, b0, c0, d0)
      ensures Registers(a, b, c, d) == Turns(r, m[..], 4 * m.Length)
    {
      a, b, c, d := a0, b0, c0, d0;
      var i := 0;
      while i < 64
        invariant 0 <= i <= 64
        invariant Registers(a, b, c, d) == Turns(r, m[..], i)
      {
        a, b, c, d := OneTurn(i, m[PickWord(i)], a, b, c, d);
        i := i + 1;
      }
    }

    /** The body of the loop: mix, shift the names along, rotate and add. */
    static method OneTurn(i: nat, x: word, a0: word, b0: word, c0: word, d0: word)
      returns (a: word, b: word, c: word, d: word)
      requires i < 64
      ensures Registers(a, b, c, d) == Turn(Registers(a0, b0, c0, d0), i, x, Sine(i), Rotation(i))
    {
      b, c, d := b0, c0, d0;
      var f := Mix(i, b, c, d);
      var tmp := d;
      d := c;
      c := b;
      b := Plus(b, RotateLeft(Plus(Plus(Plus(a0, f), Sine(i)), x), Rotation(i)));
      a := tmp;
    }

    /** `add`: count the bits, then fill the buffer and compress it whenever it is full. */
    method Add(data: seq<byte>)
      requires Valid() && |data| <= 0xFFFF
      modifies this`bits, this`buflen, this`message, state, buf
      ensures Valid() && message == old(message) + data
    {
      BitsOfConcat(message, data);
      bits := (bits + |data| * 8) % TWO_64;
      Fill(data);
    }

    method Fill(data: seq<byte>)
      requires Shape() && Pending(message)
      modifies this`buflen, this`message, state, buf
      ensures Pending(message) && message == old(message) + data
    {
      var i := 0;
      ghost var m := message;
      TakesNothing(m, data);
      while i < |data|
        invariant 0 <= i <= |data| && Shape() && Pending(message)
        invariant message == Extended(m, data, i)
      {
        var room := 64 - buflen;
        var take := if |data| - i < room then |data| - i else room;
        TakesMore(m, data, i, take);
        Take(data[i..i + take]);
        i := i + take;
      }
    }

    /** `Valid`, but for the length in bits. */
    ghost predicate Pending(m: seq<byte>)
      reads this, state, buf
      requires Shape()
    {
      && buflen == |Leftover(m)|
      && Chaining() == Chain(INITIAL, Blocks(m))
      && buf[..buflen] == Leftover(m)
    }

    /** One turn of the loop of `add`: no more bytes than there is room for. */
    method Take(piece: seq<byte>)
      requires Shape() && Pending(message) && buflen + |piece| <= 64
      modifies this`buflen, this`message, state, buf
      ensures Pending(message) && message == old(message) + piece
    {
      ghost var m := message;
      TakeSplits(m, piece);
      CopyIn(piece);
      message := message + piece;
      if buflen == 64 {
        assert buf[..] == Leftover(m) + piece;
        FullBuffer(Blocks(m), buf[..]);
        Transform(buf[..]);
        buflen := 0;
      }
    }

    /** The `memcpy` into the buffer. */
    method CopyIn(piece: seq<byte>)
      requires Shape() && buflen + |piece| <= 64
      modifies this`buflen, buf
      ensures buflen == old(buflen) + |piece|
      ensures buf[..buflen] == old(buf[..buflen]) + piece
    {
      for k := 0 to |piece|
        invariant buflen == old(buflen)
        invariant buf[..buflen + k] == old(buf[..buflen]) + piece[..k]
      {
        buf[buflen + k] := piece[k];
        assert buf[..buflen + k + 1] == buf[..buflen + k] + [piece[k]];
      }
      buflen := buflen + |piece|;
    }

    /** `add(const char *)`: the length is narrowed to sixteen bits, so the whole
        string is added exactly when it is shorter than 64 KB. */
    method AddString(s: seq<byte>)
      requires Valid()
      modifies this`bits, this`buflen, this`message, state, buf
      ensures Valid() && message == old(message) + Narrowed(s)
    {
      Add(Narrowed(s));
    }

    /** `calculate`: the padding of the RFC, and the digest of what was added. */
    method Calculate()
      requires Valid()
      modifies this`bits, this`buflen, this`message, state, buf, digest
      ensures Shape() && digest[..] == Digest(old(message))
    {
      ghost var m := message;
      var captured := bits;
      Add([0x80]);
      Pad(m);
      WriteTail(m, captured);
      WriteDigest();
    }

    /** Zero bytes until the buffer has room for just the length. */
    method Pad(ghost m: seq<byte>)
      requires Valid() && message == m + [0x80]
      modifies this`bits, this`buflen, this`message, state, buf
      ensures Valid() && message == ZeroPadded(m, ZeroCount(|m|)) && buflen == 56
    {
      ghost var zeros := 0;
      NoZeros(m);
      while buflen != 56
        invariant Valid() && message == ZeroPadded(m, zeros)
        invariant zeros <= ZeroCount(|m|)
        decreases ZeroCount(|m|) - zeros
      {
        PaddingContinues(|m|, zeros);
        OneMoreZero(m, zeros);
        Add([0x00]);
        zeros := zeros + 1;
      }
      PaddingEnds(|m|, zeros);
    }

    /** The eight length bytes go straight into the buffer, which is then full. */
    method WriteTail(ghost m: seq<byte>, captured: nat)
      requires Valid() && buflen == 56 && captured == (8 * |m|) % TWO_64
      requires message == ZeroPadded(m, ZeroCount(|m|))
      modifies this`buflen, state, buf
      ensures Shape() && Chaining() == Chain(INITIAL, PaddedMessage(m))
    {
      LengthModulo(8 * |m|);
      var tail := Length64(captured);
      TakeSplits(message, tail);
      CopyIn(tail);
      assert buf[..] == Leftover(message) + tail;
      FullBuffer(Blocks(message), buf[..]);
      Transform(buf[..]);
      PaddedIsBlocks(m, message, tail);
      buflen := 0;
    }

    method WriteDigest()
      requires Shape()
      modifies digest
      ensures digest[..] == Output(Chaining())
    {
      ghost var r := Chaining();
      for i := 0 to 4
        invariant Chaining() == r
        invariant forall k :: 0 <= k < 4 * i ==> digest[k] == Output(r)[k]
      {
        var w := state[i];
        var b := WordBytes(w);
        digest[i * 4] := b[0];
        digest[i * 4 + 1] := b[1];
        digest[i * 4 + 2] := b[2];
        digest[i * 4 + 3] := b[3];
      }
    }
  }

  lemma PaddedIsBlocks(m: seq<byte>, message: seq<byte>, tail: seq<byte>)
    requires message == ZeroPadded(m, ZeroCount(|m|)) && tail == Length64(8 * |m|)
    requires |Leftover(message)| == 56
    ensures PaddedMessage(m) == Blocks(message) + (Leftover(message) + tail)
  {
    assert message == Blocks(message) + Leftover(message);
    assert PaddedMessage(m) == message + tail;
  }

  /** The padding loop has not overrun: there are still zeros to add. */
  lemma PaddingContinues(length: nat, zeros: nat)
    requires zeros <= ZeroCount(length) && (length + 1 + zeros) % 64 != 56
    ensures zeros < ZeroCount(length)
  {
  }

  lemma PaddingEnds(length: nat, zeros: nat)
    requires zeros <= ZeroCount(length) && (length + 1 + zeros) % 64 == 56
    ensures zeros == ZeroCount(length)
  {
  }

  /** The captured count modulo 2^64 has the same eight bytes. */
  lemma LengthModulo(n: nat)
    ensures Length64(n % TWO_64) == Length64(n)
  {
    assert Pow(256, 8) == TWO_64 by {
      PowSplit(256, 4, 4);
      assert Pow(256, 4) == 0x1_0000_0000;
    }
    forall i | 0 <= i < 8 ensures ByteAt(n % TWO_64, i) == ByteAt(n, i) {
      ByteOfModulo(n, i, 7 - i);
    }
  }

  lemma ByteOfModulo(n: nat, i: nat, j: nat)
    ensures Pow(256, i + 1 + j) > 0
    ensures ByteAt(n % Pow(256, i + 1 + j), i) == ByteAt(n, i)
  {
    var p, s := Pow(256, i), Pow(256, j);
    var modulus := Pow(256, i + 1 + j);
    PowPositive(256, i);
    PowPositive(256, i + 1 + j);
    PowSplit(256, i, 1 + j);
    DivMod(n, modulus);
    ByteOfSum(n / modulus, n % modulus, p, s);
  }

  /** Adding a multiple of p * 256 * s does not change the byte at p. */
  lemma ByteOfSum(q: nat, m: nat, p: nat, s: nat)
    requires p > 0
    ensures ((q * (p * (256 * s)) + m) / p) % 256 == (m / p) % 256
  {
    var n := q * (p * (256 * s)) + m;
    var high := q * s;
    assert q * (p * (256 * s)) == (256 * high) * p;
    DivMod(m, p);
    DivMod(m / p, 256);
    DivModUnique(n, p, 256 * high + m / p, m % p);
    DivModUnique(256 * high + m / p, 256, high + m / p / 256, m / p % 256);
  }

  function Concat(pieces: seq<seq<byte>>): seq<byte> {
    if pieces == [] then [] else Concat(pieces[..|pieces| - 1]) + pieces[|pieces| - 1]
  }

  /** However a message is split into `add` calls, the digest is that of the
      whole message. */
  method DigestInPieces(pieces: seq<seq<byte>>) returns (d: seq<byte>)
    requires forall i :: 0 <= i < |pieces| ==> |pieces[i]| <= 0xFFFF
    ensures d == Digest(Concat(pieces))
  {
    var md5 := new MD5Builder();
    md5.Begin();
    for i := 0 to |pieces|
      invariant md5.Valid() && md5.message == Concat(pieces[..i])
      invariant fresh(md5.state) && fresh(md5.buf) && fresh(md5.digest)
    {
      assert pieces[..i + 1][..i] == pieces[..i];
      md5.Add(pieces[i]);
    }
    assert pieces[..|pieces|] == pieces;
    md5.Calculate();
    d := md5.digest[..];
  }

  /** A string of 64 KB leaves no trace: the digest is that of the empty message. */
  method LongStringIsDropped(s: seq<byte>) returns (d: seq<byte>)
    requires |s| == 0x1_0000
    ensures d == Digest([])
  {
    var md5 := new MD5Builder();
    md5.Begin();
    md5.AddString(s);
    assert [] + Narrowed(s) == [];
    md5.Calculate();
    d := md5.digest[..];
  }
}
