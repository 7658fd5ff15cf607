/** The arithmetic of ch32h4_sdmmc.c: the clock divider, the capacity a card reports,
    and the address and range of a transfer, all in 32-bit words. */
module SdArithmetic {
  import opened Arith

  const TWO_32 := 0x1_0000_0000

  // ---- sd_set_clock ----------------------------------------------------------------

  /** A setting of CLK_DIV: the clock is the source divided by `div`, and by 64 more
      in the low mode. */
  datatype Setting = Setting(high: bool, div: nat)

  predicate Allowed(s: Setting) {
    2 <= s.div <= 31
  }

  /** What the source is divided by in all: the smaller, the faster. */
  function Factor(s: Setting): nat {
    if s.high then s.div else 64 * s.div
  }

  /** Every faster setting, in either mode, would exceed `hz` exactly. */
  ghost predicate NothingFaster(hz: nat, src: nat, s: Setting) {
    forall faster: Setting :: Allowed(faster) && Factor(faster) < Factor(s) ==> src > hz * Factor(faster)
  }

  function Clamped(div: nat): (d: nat)
    ensures 2 <= d <= 31
  {
    if div < 2 then 2 else if div > 31 then 31 else div
  }

  /** The divider the code computes from a source and a request: rounded up, held to
      what the register takes, and summed in 32 bits. */
  function Divider(src: nat, hz: nat): (d: nat)
    requires hz > 0
    ensures 2 <= d <= 31
  {
    var sum: nat := (src + hz - 1) % TWO_32;
    Clamped(sum / hz)
  }

  /** What `SetClock` promises of a setting and the rate it returns. */
  ghost predicate Suits(hz: nat, src: nat, s: Setting, actual: nat) {
    && Allowed(s) && actual == src / Factor(s)
    && (actual <= hz <==> hz >= src / 64 / 31)
    && NothingFaster(hz, src, s)
  }

  /** Where the 32-bit sum of the code does no harm: it does not wrap, or the divider is 2
      in any case. So it is for every source up to 2^31 Hz. */
  predicate SumIsHarmless(hz: nat, src: nat) {
    hz < src / 31 || src + hz - 1 < TWO_32 || src / 2 <= hz
  }

  /** `sd_set_clock`: the setting, and the rate it returns. The rate never exceeds a
      request at or above the slowest rate there is, and every faster setting would;
      unless the sum has wrapped, when it always does exceed it. */
  method SetClock(hz: nat, src: nat) returns (s: Setting, actual: nat)
    requires 0 < hz < TWO_32 && src < TWO_32
    ensures Suits(hz, src, s, actual) <==> SumIsHarmless(hz, src)
    ensures Allowed(s) && actual == src / Factor(s) && NothingFaster(hz, src, s)
  {
    if hz >= src / 31 {
      s, actual := HighClock(hz, src);
    } else {
      s, actual := LowClock(hz, src);
    }
  }

  method HighClock(hz: nat, src: nat) returns (s: Setting, actual: nat)
    requires 0 < hz < TWO_32 && src < TWO_32 && hz >= src / 31
    ensures Suits(hz, src, s, actual) <==> SumIsHarmless(hz, src)
    ensures Allowed(s) && actual == src / Factor(s) && NothingFaster(hz, src, s)
  {
    var div := RoundUp(src, hz);
    s, actual := Setting(true, div), src / div;
    HighMode(hz, src, div);
  }

  method LowClock(hz: nat, src: nat) returns (s: Setting, actual: nat)
    requires 0 < hz < TWO_32 && src < TWO_32 && hz < src / 31
    ensures Suits(hz, src, s, actual)
  {
    var low: nat := src / 64;
    var div := RoundUp(low, hz);
    s, actual := Setting(false, div), low / div;
    LowMode(hz, src, low, div);
  }

  method RoundUp(src: nat, hz: nat) returns (div: nat)
    requires 0 < hz < TWO_32 && src < TWO_32
    ensures RoundedUp(src, hz, div)
  {
    DividerIsRoundedUp(src, hz);
    div := Divider(src, hz);
  }

  lemma SmallSourcesAreHarmless(hz: nat, src: nat)
    requires src <= 0x8000_0000
    ensures SumIsHarmless(hz, src)
  {
  }

  /** No setting at all is as slow as the 100 kHz that `ch32h4_sd_begin` accepts, when the
      source is at 400 MHz. */
  lemma HundredKilohertzIsOutOfReach(s: Setting)
    requires Allowed(s)
    ensures 400_000_000 / Factor(s) >= 201_612
  {
    DivMod(400_000_000, Factor(s));
    if 400_000_000 / Factor(s) < 201_612 {
      MulMono(400_000_000 / Factor(s), 201_611, Factor(s));
    }
  }

  /** The divisors below the chosen one are too small, and the chosen one, unless it is the
      last, is large enough exactly if the sum has not wrapped or 2 would do. */
  ghost predicate RoundedUp(src: nat, hz: nat, div: nat) {
    && 2 <= div <= 31
    && (forall d :: 2 <= d < div ==> hz * d < src)
    && (if div == 31 then src + hz - 1 < TWO_32
        else src / div <= hz <==> src + hz - 1 < TWO_32 || src / 2 <= hz)
  }

  lemma DividerIsRoundedUp(src: nat, hz: nat)
    requires 0 < hz < TWO_32 && src < TWO_32
    ensures RoundedUp(src, hz, Divider(src, hz))
  {
    if src + hz - 1 >= TWO_32 {
      var sum: nat := src + hz - 1 - TWO_32;
      DivModUnique(src + hz - 1, TWO_32, 1, sum);
      DivModUnique(sum, hz, 0, sum);
      assert Divider(src, hz) == 2;
    } else {
      DivModUnique(src + hz - 1, TWO_32, 0, src + hz - 1);
      Rounded(src, hz, (src + hz - 1) / hz);
      if Divider(src, hz) < 31 {
        DivAtMost(src, Divider(src, hz), hz);
      }
    }
  }

  lemma Rounded(n: nat, hz: nat, q: nat)
    requires hz > 0 && q == (n + hz - 1) / hz
    ensures forall d :: 2 <= d < Clamped(q) ==> hz * d < n
    ensures Clamped(q) < 31 ==> n <= hz * Clamped(q)
  {
    DivMod(n + hz - 1, hz);
    assert n <= q * hz && (q - 1) * hz < n;
    if q <= 31 {
      MulMono(q, Clamped(q), hz);
    }
    forall d | 2 <= d < Clamped(q) ensures hz * d < n {
      MulMono(d, q - 1, hz);
    }
  }

  lemma DivAtMost(n: nat, d: nat, hz: nat)
    requires d > 0 && n <= hz * d
    ensures n / d <= hz
  {
    DivMod(n, d);
    MulCancelLess(n / d - 1, hz, d);
  }

  lemma SlowestIsSlower(src: nat)
    ensures src / 64 / 31 <= src / 31
  {
    DivDiv(src, 64, 31);
    DivDiv(src, 31, 64);
    DivMod(src / 31, 64);
  }

  lemma HighMode(hz: nat, src: nat, div: nat)
    requires 0 < hz < TWO_32 && src < TWO_32 && hz >= src / 31 && RoundedUp(src, hz, div)
    ensures Suits(hz, src, Setting(true, div), src / div) <==> SumIsHarmless(hz, src)
    ensures NothingFaster(hz, src, Setting(true, div))
  {
    SlowestIsSlower(src);
  }

  lemma LowMode(hz: nat, src: nat, low: nat, div: nat)
    requires 0 < hz < TWO_32 && src < TWO_32 && hz < src / 31 && low == src / 64 && RoundedUp(low, hz, div)
    ensures Suits(hz, src, Setting(false, div), low / div)
  {
    DivDiv(src, 64, div);
    if div < 31 {
      SlowestIsLess(low, div);
    }
    LowIsFastest(hz, src, div);
  }

  lemma SlowestIsLess(low: nat, div: nat)
    requires 2 <= div <= 31
    ensures low / 31 <= low / div
  {
    DivMod(low, div);
    DivMod(low, 31);
    if low / 31 > low / div {
      MulMono(div, 31, low / 31);
      MulMono(low / div + 1, low / 31, div);
    }
  }

  lemma LowIsFastest(hz: nat, src: nat, div: nat)
    requires hz < src / 31 && 2 <= div <= 31
    requires forall d :: 2 <= d < div ==> hz * d < src / 64
    ensures NothingFaster(hz, src, Setting(false, div))
  {
    DivMod(src, 31);
    MulMono(hz + 1, src / 31, 31);
    DivMod(src, 64);
    forall faster: Setting | Allowed(faster) && Factor(faster) < 64 * div ensures src > hz * Factor(faster) {
      if faster.high {
        MulMono(faster.div, 31, hz);
      } else {
        MulAssoc(hz, faster.div, 64);
      }
    }
  }

  // ---- sd_capacity_blocks --------------------------------------------------------------

  /** The 128-bit CSD register, most significant word first. */
  datatype Csd = Csd(w0: nat, w1: nat, w2: nat, w3: nat)

  predicate Words(c: Csd) {
    c.w0 < TWO_32 && c.w1 < TWO_32 && c.w2 < TWO_32 && c.w3 < TWO_32
  }

  /** The number the register holds. */
  function Number(c: Csd): nat {
    ((c.w0 * TWO_32 + c.w1) * TWO_32 + c.w2) * TWO_32 + c.w3
  }

  // The fields of the register, by their bit numbers in the specification.

  /** Bits 127:126. */
  function Structure(c: Csd): nat { Number(c) / 0x4000_0000_0000_0000_0000_0000_0000_0000 }

  /** Bits 83:80. */
  function ReadBlLen(c: Csd): nat { Number(c) / 0x1_0000_0000_0000_0000_0000 % 0x10 }

  /** Version 1: bits 73:62. */
  function CSize1(c: Csd): nat { Number(c) / 0x4000_0000_0000_0000 % 0x1000 }

  /** Version 1: bits 49:47. */
  function CSizeMult(c: Csd): nat { Number(c) / 0x8000_0000_0000 % 8 }

  /** Version 2: bits 69:48. */
  function CSize2(c: Csd): nat { Number(c) / 0x1_0000_0000_0000 % 0x40_0000 }

  /** The capacity in bytes that the specification gives the fields. */
  function CapacityBytes(c: Csd): int {
    if Structure(c) >= 1 then (CSize2(c) + 1) * 0x8_0000
    else Version1Bytes(CSize1(c), CSizeMult(c), ReadBlLen(c))
  }

  function Version1Bytes(cSize: nat, cSizeMult: nat, readBlLen: nat): int {
    (cSize + 1) * Pow(2, cSizeMult + 2) * Pow(2, readBlLen)
  }

  /** `sd_capacity_blocks`, its shifts and masks written as divisions of the words. */
  function CapacityBlocks(c: Csd): nat {
    if c.w0 / 0x4000_0000 >= 1 then
      var cSize := c.w1 % 0x40 * 0x1_0000 + c.w2 / 0x1_0000;
      (cSize + 1) * 1024 % TWO_32
    else
      var readBlLen := c.w1 / 0x1_0000 % 0x10;
      var cSize := c.w1 % 0x400 * 4 + c.w2 / 0x4000_0000;
      var cSizeMult := c.w2 / 0x8000 % 8;
      Version1Blocks(cSize, cSizeMult, readBlLen)
  }

  function Version1Blocks(cSize: nat, cSizeMult: nat, readBlLen: nat): nat {
    var blocks := (cSize + 1) * Pow(2, cSizeMult + 2) % TWO_32;
    if readBlLen > 9 then blocks * Pow(2, readBlLen - 9) % TWO_32 else blocks
  }

  lemma HighFields(c: Csd)
    requires Words(c)
    ensures Structure(c) == c.w0 / 0x4000_0000
    ensures ReadBlLen(c) == c.w1 / 0x1_0000 % 0x10
  {
    var low: nat := c.w2 * TWO_32 + c.w3;
    var rest := (c.w0 % 0x4000_0000) * TWO_32 + c.w1;
    DivModUnique(Number(c), 0x4000_0000_0000_0000_0000_0000_0000_0000, c.w0 / 0x4000_0000,
                 rest * 0x1_0000_0000_0000_0000 + low);
    DivModUnique(Number(c), 0x1_0000_0000_0000_0000_0000, c.w0 * 0x1_0000 + c.w1 / 0x1_0000,
                 c.w1 % 0x1_0000 * 0x1_0000_0000_0000_0000 + low);
    DivModUnique(c.w0 * 0x1_0000 + c.w1 / 0x1_0000, 0x10, c.w0 * 0x1000 + c.w1 / 0x10_0000,
                 c.w1 / 0x1_0000 % 0x10);
  }

  lemma Size1Field(c: Csd)
    requires Words(c)
    ensures CSize1(c) == c.w1 % 0x400 * 4 + c.w2 / 0x4000_0000
  {
    var high: nat := c.w0 * TWO_32 + c.w1;
    DivModUnique(Number(c), 0x4000_0000_0000_0000, high * 4 + c.w2 / 0x4000_0000,
                 c.w2 % 0x4000_0000 * TWO_32 + c.w3);
    DivModUnique(high * 4 + c.w2 / 0x4000_0000, 0x1000, c.w0 * 0x40_0000 + c.w1 / 0x400,
                 c.w1 % 0x400 * 4 + c.w2 / 0x4000_0000);
  }

  lemma Size2Field(c: Csd)
    requires Words(c)
    ensures CSize2(c) == c.w1 % 0x40 * 0x1_0000 + c.w2 / 0x1_0000
  {
    var high: nat := c.w0 * TWO_32 + c.w1;
    DivModUnique(Number(c), 0x1_0000_0000_0000, high * 0x1_0000 + c.w2 / 0x1_0000,
                 c.w2 % 0x1_0000 * TWO_32 + c.w3);
    DivModUnique(high * 0x1_0000 + c.w2 / 0x1_0000, 0x40_0000, c.w0 * 0x400_0000 + c.w1 / 0x40,
                 c.w1 % 0x40 * 0x1_0000 + c.w2 / 0x1_0000);
  }

  lemma MultField(c: Csd)
    requires Words(c)
    ensures CSizeMult(c) == c.w2 / 0x8000 % 8
  {
    var high: nat := c.w0 * TWO_32 + c.w1;
    DivModUnique(Number(c), 0x8000_0000_0000, high * 0x2_0000 + c.w2 / 0x8000, c.w2 % 0x8000 * TWO_32 + c.w3);
    DivModUnique(high * 0x2_0000 + c.w2 / 0x8000, 8, high * 0x4000 + c.w2 / 0x4_0000, c.w2 / 0x8000 % 8);
  }

  lemma {:induction false} PowMono(i: nat, j: nat)
    requires i <= j
    ensures Pow(2, i) <= Pow(2, j)
    decreases j
  {
    if i < j {
      PowMono(i, j - 1);
    }
  }

  lemma Multiplied(n: nat, k: nat)
    requires 1 <= n && k <= 9
    ensures n <= n * Pow(2, k) <= n * 512
  {
    PowMono(0, k);
    PowMono(k, 9);
    assert Pow(2, 9) == 512;
    MulMono(1, Pow(2, k), n);
    MulMono(Pow(2, k), 512, n);
  }

  /** The blocks a version 1 register gives, before and after the adjustment for long
      blocks, are few enough never to wrap. */
  lemma Version1Fits(size: nat, mult: nat, len: nat)
    requires size < 0x1000 && mult < 8 && len < 0x10
    ensures var blocks := (size + 1) * Pow(2, mult + 2);
      && 0 < blocks <= 0x20_0000
      && Version1Blocks(size, mult, len) == if len > 9 then blocks * Pow(2, len - 9) else blocks
    ensures len <= 11 ==> Version1Blocks(size, mult, len) <= 0x80_0000
  {
    var blocks := (size + 1) * Pow(2, mult + 2);
    Multiplied(size + 1, mult + 2);
    if len > 9 {
      LongBlocks(blocks, len - 9);
    }
  }

  lemma LongBlocks(blocks: nat, k: nat)
    requires blocks <= 0x20_0000 && k <= 6
    ensures 0 <= blocks * Pow(2, k) <= 0x800_0000
    ensures k <= 2 ==> blocks * Pow(2, k) <= 0x80_0000
  {
    PowMono(k, 6);
    assert Pow(2, 6) == 64;
    MulMono(Pow(2, k), 64, blocks);
    if k <= 2 {
      PowMono(k, 2);
      MulMono(Pow(2, k), 4, blocks);
    }
  }

  lemma Version1ByFields(c: Csd)
    requires Words(c) && Structure(c) == 0
    ensures CapacityBlocks(c) == Version1Blocks(CSize1(c), CSizeMult(c), ReadBlLen(c))
  {
    HighFields(c);
    Size1Field(c);
    MultField(c);
  }

  /** Which registers `sd_capacity_blocks` reads right: version 2 unless C_SIZE is all
      ones, which wraps to zero; version 1 unless READ_BL_LEN is below 9. */
  predicate ReadRight(c: Csd) {
    if Structure(c) >= 1 then CSize2(c) != 0x3F_FFFF else ReadBlLen(c) >= 9
  }

  /** 512 times the block count is the capacity in bytes of the specification, exactly
      for those registers. */
  lemma CapacityIsRight(c: Csd)
    requires Words(c)
    ensures CapacityBlocks(c) * 512 == CapacityBytes(c) <==> ReadRight(c)
  {
    if Structure(c) >= 1 {
      HighFields(c);
      Size2Field(c);
    } else {
      Version1ByFields(c);
      Version1IsRight(CSize1(c), CSizeMult(c), ReadBlLen(c));
    }
  }

  /** The largest C_SIZE, of a card of two tebibytes, reads as no blocks at all. */
  lemma FullSizeReadsAsZero()
    ensures var c := Csd(0x4000_0000, 0x3F, 0xFFFF_0000, 0);
      CapacityBlocks(c) == 0 && CapacityBytes(c) == 0x200_0000_0000
  {
    var c := Csd(0x4000_0000, 0x3F, 0xFFFF_0000, 0);
    HighFields(c);
    Size2Field(c);
  }

  lemma Version1IsRight(size: nat, mult: nat, len: nat)
    requires size < 0x1000 && mult < 8 && len < 0x10
    ensures Version1Blocks(size, mult, len) * 512 == Version1Bytes(size, mult, len) <==> len >= 9
  {
    var blocks := (size + 1) * Pow(2, mult + 2);
    Version1Fits(size, mult, len);
    assert Pow(2, 9) == 512;
    if len >= 9 {
      PowSplit(2, len - 9, 9);
      MulAssoc(blocks, Pow(2, len - 9), 512);
    } else {
      PowMono(len, 8);
      assert Pow(2, 8) == 256;
      MulMono(Pow(2, len), 256, blocks);
    }
  }

  // ---- Addresses and ranges ---------------------------------------------------------------

  datatype CardType = Sdsc | Sdhc

  /** The command argument: a block number, or a byte address in 32 bits. */
  function Address(t: CardType, block: nat): nat {
    if t == Sdhc then block else block * 512 % TWO_32
  }

  /** The block the card takes the argument for. */
  function Addressed(t: CardType, address: nat): nat {
    if t == Sdhc then address else address / 512
  }

  /** A byte address names its block exactly when the block is below 2^23. */
  lemma AddressIsRight(t: CardType, block: nat)
    ensures Addressed(t, Address(t, block)) == block <==> t == Sdhc || block < 0x80_0000
  {
    if t == Sdsc {
      var q, r := block / 0x80_0000, block % 0x80_0000;
      DivModUnique(block * 512, TWO_32, q, r * 512);
    }
  }

  /** Every card whose register is version 1 with a block length the specification
      allows, 512 to 2048 bytes, is small enough for byte addresses. */
  lemma ByteAddressedCardsFit(c: Csd)
    requires Words(c) && Structure(c) == 0 && 9 <= ReadBlLen(c) <= 11
    ensures CapacityBlocks(c) <= 0x80_0000
  {
    Version1ByFields(c);
    Version1Fits(CSize1(c), CSizeMult(c), ReadBlLen(c));
  }

  /** The range check of `sd_transfer`, whose sum is a 32-bit one. */
  predicate InRange(block: nat, n: nat, count: nat) {
    (block + n) % TWO_32 <= count
  }

  /** What it lets through: ranges on the card, and ranges so far off it that their end
      wraps round. */
  lemma RangeCheckIsRight(block: nat, n: nat, count: nat)
    requires block < TWO_32 && n < TWO_32 && count < TWO_32
    ensures InRange(block, n, count) <==> block + n <= count || TWO_32 <= block + n <= TWO_32 + count
  {
  }
}
