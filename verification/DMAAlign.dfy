/** The memory of the DMA pool (api/DMAPool.h): one allocation, aligned by masking, cut
    into buffers of a rounded-up size. `w` is the width of a `size_t`, 32 on this part. */
module DMAAlignment {
  import opened Arith
  import opened Bits

  /** `x & ~(A - 1)`. */
  function Masked(x: nat, a: nat, w: nat): nat
    requires 0 < a <= Pow(2, w)
  {
    And(x, Pow(2, w) - a)
  }

  lemma {:induction false} AllOnes(x: nat, w: nat)
    requires x < Pow(2, w)
    ensures And(x, Pow(2, w) - 1) == x
    decreases w
  {
    if x != 0 {
      var m := Pow(2, w) - 1;
      assert m == 2 * (Pow(2, w - 1) - 1) + 1;
      DivModUnique(m, 2, Pow(2, w - 1) - 1, 1);
      AllOnes(x / 2, w - 1);
    }
  }

  lemma {:induction false} AndEven(x: nat, m: nat)
    ensures And(x, 2 * m) == 2 * And(x / 2, m)
  {
    assert 2 * m / 2 == m && 2 * m % 2 == 0;
    AndStep(x, 2 * m);
  }

  lemma RoundDownHalf(x: nat, p: nat)
    requires p > 0
    ensures 2 * p > 0 && 2 * (x / 2 / p * p) == x / (2 * p) * (2 * p)
  {
    DivDiv(x, 2, p);
    var q := x / 2 / p;
    assert q * (2 * p) == 2 * (q * p);
  }

  /** The top `w - k` of `w` bits. */
  function HighOnes(w: nat, k: nat): nat
    requires k <= w
  {
    if k == 0 then
      PowPositive(2, w);
      Pow(2, w) - 1
    else 2 * HighOnes(w - 1, k - 1)
  }

  lemma {:induction false} HighOnesIs(w: nat, k: nat)
    requires k <= w
    ensures HighOnes(w, k) == Pow(2, w) - Pow(2, k)
  {
    if k > 0 {
      HighOnesIs(w - 1, k - 1);
    }
  }

  /** Masking with the top bits rounds down to a multiple of 2^k. */
  lemma {:induction false} MaskRoundsDown(x: nat, w: nat, k: nat)
    requires x < Pow(2, w) && k <= w
    ensures Pow(2, k) > 0 && And(x, HighOnes(w, k)) == x / Pow(2, k) * Pow(2, k)
    decreases k
  {
    if k == 0 {
      AllOnes(x, w);
    } else {
      MaskRoundsDown(x / 2, w - 1, k - 1);
      AndEven(x, HighOnes(w - 1, k - 1));
      RoundDownHalf(x, Pow(2, k - 1));
    }
  }

  // ---- The pool's memory -----------------------------------------------------------------

  /** Room for the address that is stashed in front. */
  const STASH: nat := 4

  /** `aligned_malloc`, on what `malloc` returned. */
  function AlignedPointer(stashed: nat, a: nat, w: nat): nat
    requires 0 < a <= Pow(2, w)
  {
    Masked(stashed + (a - 1 + STASH), a, w)
  }

  /** The size of a buffer: its bytes, rounded up to a multiple of the alignment. */
  function BufferSize(bytes: nat, a: nat, w: nat): nat
    requires 0 < a <= Pow(2, w)
  {
    Masked(bytes + (a - 1), a, w)
  }

  /** `a` is a power of two that a `size_t` holds. */
  ghost predicate PowerOfTwo(a: nat, w: nat) {
    exists k: nat :: k <= w && a == Pow(2, k)
  }

  lemma {:induction false} PowMono(i: nat, j: nat)
    requires i <= j
    ensures 0 < Pow(2, i) <= Pow(2, j)
    decreases j
  {
    if i < j {
      PowMono(i, j - 1);
    } else {
      PowPositive(2, i);
    }
  }

  /** Masking rounds down to a multiple of the alignment. */
  lemma MaskedRoundsDown(x: nat, a: nat, w: nat)
    requires PowerOfTwo(a, w) && x < Pow(2, w)
    ensures 0 < a <= Pow(2, w) && Masked(x, a, w) % a == 0 && x - a < Masked(x, a, w) <= x
  {
    var k: nat :| k <= w && a == Pow(2, k);
    PowMono(k, w);
    MaskRoundsDown(x, w, k);
    HighOnesIs(w, k);
    DivMod(x, a);
    DivModUnique(x / a * a, a, x / a, 0);
  }

  /** For an alignment that is a power of two, the memory is aligned and lies, with the
      stashed pointer before it, inside the allocation of `size` plus the offset. */
  lemma PointerIsAligned(stashed: nat, size: nat, a: nat, w: nat)
    requires PowerOfTwo(a, w) && stashed + size + (a - 1 + STASH) < Pow(2, w)
    ensures 0 < a <= Pow(2, w)
    ensures var p := AlignedPointer(stashed, a, w);
      p % a == 0 && stashed + STASH <= p && p + size <= stashed + size + (a - 1 + STASH)
  {
    var offset := stashed + (a - 1 + STASH);
    MaskedRoundsDown(offset, a, w);
  }

  /** Every buffer starts at a multiple of the alignment, lies inside the memory of the
      `n` buffers, and ends before the next one starts. */
  lemma BuffersAreApart(mem: nat, bytes: nat, a: nat, w: nat, n: nat, i: nat, j: nat)
    requires PowerOfTwo(a, w) && bytes + (a - 1) < Pow(2, w) && i < j < n
    requires a > 0 && mem % a == 0
    ensures a <= Pow(2, w)
    ensures var s := BufferSize(bytes, a, w);
      && (mem + i * s) % a == 0 && (mem + j * s) % a == 0
      && mem <= mem + i * s && mem + i * s + bytes <= mem + j * s && mem + j * s + bytes <= mem + n * s
  {
    MaskedRoundsDown(bytes + (a - 1), a, w);
    Consecutive(mem, BufferSize(bytes, a, w), a, n, i, j);
  }

  lemma Consecutive(mem: nat, s: nat, a: nat, n: nat, i: nat, j: nat)
    requires a > 0 && mem % a == 0 && s % a == 0 && i < j < n
    ensures (mem + i * s) % a == 0 && (mem + j * s) % a == 0
    ensures 0 <= i * s && i * s + s <= j * s && j * s + s <= n * s
  {
    MultiplesAreAligned(mem, i, s, a);
    MultiplesAreAligned(mem, j, s, a);
    MulMono(0, i, s);
    MulMono(i + 1, j, s);
    MulMono(j + 1, n, s);
    assert (i + 1) * s == i * s + s && (j + 1) * s == j * s + s;
  }

  lemma MultiplesAreAligned(mem: nat, i: nat, s: nat, a: nat)
    requires a > 0 && mem % a == 0 && s % a == 0
    ensures (mem + i * s) % a == 0
  {
    DivMod(mem, a);
    DivMod(s, a);
    var q := s / a;
    MulAssoc(i, q, a);
    assert (mem / a + i * q) * a == mem / a * a + i * q * a;
    DivModUnique(mem + i * s, a, mem / a + i * q, 0);
  }

  // ---- Only powers of two are aligned -----------------------------------------------------

  lemma {:induction false} AndBelow(x: nat, m: nat)
    ensures And(x, m) <= m
    decreases m
  {
    if x != 0 && m != 0 {
      AndBelow(x / 2, m / 2);
    }
  }

  /** Masking with the complement of `m` takes away the bits of `m`. */
  lemma {:induction false} Complement(x: nat, m: nat, w: nat)
    requires x < Pow(2, w) && m < Pow(2, w)
    ensures And(x, Pow(2, w) - 1 - m) == x - And(x, m)
    decreases w
  {
    if w > 0 {
      var c := Pow(2, w) - 1 - m;
      Complement(x / 2, m / 2, w - 1);
      assert c / 2 == Pow(2, w - 1) - 1 - m / 2 && c % 2 == 1 - m % 2;
      AndStep(x, c);
      AndStep(x, m);
    }
  }

  lemma {:induction false} AndStep(x: nat, m: nat)
    ensures And(x, m) == 2 * And(x / 2, m / 2) + (if x % 2 == 1 && m % 2 == 1 then 1 else 0)
  {
  }

  /** Bits at and above those of `m` do not matter to it. */
  lemma {:induction false} AndPeriodic(x: nat, m: nat, p: nat)
    requires m < Pow(2, p)
    ensures And(x + Pow(2, p), m) == And(x, m)
    decreases p
  {
    if p > 0 {
      var q := Pow(2, p - 1);
      AndPeriodic(x / 2, m / 2, p - 1);
      assert (x + 2 * q) / 2 == x / 2 + q && (x + 2 * q) % 2 == x % 2;
      AndStep(x + 2 * q, m);
      AndStep(x, m);
    }
  }

  /** The power of two above `m`, and not above its double. */
  lemma {:induction false} PowerAbove(m: nat) returns (p: nat)
    requires m > 0
    ensures m < Pow(2, p) <= 2 * m
  {
    if m == 1 {
      p := 1;
    } else {
      p := PowerAbove(m / 2);
      p := p + 1;
    }
  }

  /** Where the mask gives a multiple of `a`, it leaves exactly the remainder out. */
  lemma MaskIsRemainder(x: nat, a: nat, w: nat)
    requires 0 < a <= Pow(2, w) && x < Pow(2, w) && Masked(x, a, w) % a == 0
    ensures And(x, a - 1) == x % a
  {
    Complement(x, a - 1, w);
    AndBelow(x, a - 1);
    var r := And(x, a - 1);
    DivMod(x - r, a);
    DivModUnique(x, a, (x - r) / a, r);
  }

  /** Numbers with the same remainder, at least one and less than two divisors apart. */
  lemma OneDivisorApart(x: nat, y: nat, a: nat)
    requires a > 0 && x % a == y % a && a <= y - x < 2 * a
    ensures y - x == a
  {
    DivMod(x, a);
    DivMod(y, a);
    var q := y / a - x / a;
    assert q * a == y - x;
    MulCancelLess(0, q, a);
    MulCancelLess(q, 2, a);
  }

  /** Two addresses a power of two apart, both aligned by the mask. */
  lemma BothAligned(x: nat, a: nat, p: nat, w: nat)
    requires 1 < a <= Pow(2, p) <= 2 * (a - 1) && x + Pow(2, p) < Pow(2, w)
    requires a <= Pow(2, w) && Masked(x, a, w) % a == 0 && Masked(x + Pow(2, p), a, w) % a == 0
    ensures a == Pow(2, p)
  {
    MaskIsRemainder(x, a, w);
    MaskIsRemainder(x + Pow(2, p), a, w);
    AndPeriodic(x, a - 1, p);
    OneDivisorApart(x, x + Pow(2, p), a);
  }

  /** `aligned_malloc` aligns whatever `malloc` gives it, a multiple of eight that is not
      null. */
  ghost predicate AlwaysAligns(a: nat, w: nat)
    requires 0 < a <= Pow(2, w)
  {
    forall s :: s > 0 && s % 8 == 0 && s + (a - 1 + STASH) < Pow(2, w) ==> AlignedPointer(s, a, w) % a == 0
  }

  lemma EightDivides(p: nat)
    requires Pow(2, p) >= 6
    ensures Pow(2, p) % 8 == 0 && Pow(2, p) >= 8
  {
    assert Pow(2, 2) == 4;
    if p >= 3 {
      PowSplit(2, 3, p - 3);
      assert Pow(2, 3) == 8;
      PowPositive(2, p - 3);
    } else {
      PowMono(p, 2);
    }
  }

  /** An aligning mask is that of a power of two. */
  lemma AligningIsPower(a: nat, w: nat)
    requires a % 2 == 0 && 6 <= a && 3 * a + 11 <= Pow(2, w) && AlwaysAligns(a, w)
    ensures PowerOfTwo(a, w)
  {
    var p := PowerAbove(a - 1);
    EightDivides(p);
    var q := Pow(2, p);
    assert AlignedPointer(8, a, w) % a == 0 && AlignedPointer(8 + q, a, w) % a == 0;
    BothAligned(8 + (a - 1 + STASH), a, p, w);
    if p > w {
      PowMono(w, p - 1);
    }
  }

  /** Of the even alignments that the check of `aligned_malloc` lets through, and that
      leave room for two addresses, it aligns for exactly the powers of two. */
  lemma AlignsExactly(a: nat, w: nat)
    requires a > 0 && a % 2 == 0 && 3 * a + 11 <= Pow(2, w)
    ensures AlwaysAligns(a, w) <==> PowerOfTwo(a, w)
  {
    if PowerOfTwo(a, w) {
      forall s | s > 0 && s % 8 == 0 && s + (a - 1 + STASH) < Pow(2, w)
        ensures AlignedPointer(s, a, w) % a == 0
      {
        PointerIsAligned(s, 0, a, w);
      }
    }
    if AlwaysAligns(a, w) {
      if a < 6 {
        SmallPowers(a, w);
      } else {
        AligningIsPower(a, w);
      }
    }
  }

  lemma SmallPowers(a: nat, w: nat)
    requires (a == 2 || a == 4) && a <= Pow(2, w)
    ensures PowerOfTwo(a, w)
  {
    assert Pow(2, 0) == 1 && Pow(2, 1) == 2 && Pow(2, 2) == 4;
    var k := if a == 2 then 1 else 2;
    if w < k {
      PowMono(w, k - 1);
    }
    assert a == Pow(2, k);
  }

  /** The memory `malloc` gives at address 8, aligned to 6, starts at 16. */
  lemma EvenIsNotEnough(w: nat)
    requires w >= 5
    ensures 6 <= Pow(2, w) && AlignedPointer(8, 6, w) == 16 && 16 % 6 != 0
  {
    PowMono(5, w);
    assert Pow(2, 5) == 32;
    Complement(17, 5, w);
    assert And(17, 5) == 1;
  }
}
