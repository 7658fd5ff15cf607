/** Bitwise operations on unsigned integers, one bit at a time. */
module Bits {
  import opened Arith

  function And(x: nat, y: nat): nat {
    if x == 0 || y == 0 then 0
    else 2 * And(x / 2, y / 2) + (if x % 2 == 1 && y % 2 == 1 then 1 else 0)
  }

  function Or(x: nat, y: nat): nat {
    if x == 0 then y
    else if y == 0 then x
    else 2 * Or(x / 2, y / 2) + (if x % 2 == 1 || y % 2 == 1 then 1 else 0)
  }

  function Xor(x: nat, y: nat): nat {
    if x == 0 then y
    else if y == 0 then x
    else 2 * Xor(x / 2, y / 2) + (if x % 2 != y % 2 then 1 else 0)
  }

  lemma {:induction false} AndCommutes(x: nat, y: nat)
    ensures And(x, y) == And(y, x)
    decreases x
  {
    if x != 0 && y != 0 {
      AndCommutes(x / 2, y / 2);
    }
  }

  lemma {:induction false} OrCommutes(x: nat, y: nat)
    ensures Or(x, y) == Or(y, x)
    decreases x
  {
    if x != 0 && y != 0 {
      OrCommutes(x / 2, y / 2);
    }
  }

  /** Bit `k` of a number: x / 2^k % 2. */
  function Bit(x: nat, k: nat): (b: nat)
    ensures b < 2
    decreases k
  {
    if k == 0 then x % 2 else Bit(x / 2, k - 1)
  }

  lemma {:induction false} BitIs(x: nat, k: nat)
    ensures Pow(2, k) > 0 && Bit(x, k) == x / Pow(2, k) % 2
    decreases k
  {
    PowPositive(2, k);
    if k > 0 {
      PowPositive(2, k - 1);
      BitIs(x / 2, k - 1);
      DivDiv(x, 2, Pow(2, k - 1));
    }
  }

  lemma {:induction false} BitOfZero(k: nat)
    ensures Bit(0, k) == 0
  {
    if k > 0 {
      BitOfZero(k - 1);
    }
  }

  /** Each bit of the results is the bitwise one. */
  lemma {:induction false} BitsOfAnd(x: nat, y: nat, k: nat)
    ensures Bit(And(x, y), k) == if Bit(x, k) == 1 && Bit(y, k) == 1 then 1 else 0
    decreases k
  {
    BitOfZero(k);
    if x != 0 && y != 0 && k > 0 {
      BitsOfAnd(x / 2, y / 2, k - 1);
      assert And(x, y) / 2 == And(x / 2, y / 2);
    }
  }

  lemma {:induction false} BitsOfOr(x: nat, y: nat, k: nat)
    ensures Bit(Or(x, y), k) == if Bit(x, k) == 1 || Bit(y, k) == 1 then 1 else 0
    decreases k
  {
    BitOfZero(k);
    if x != 0 && y != 0 && k > 0 {
      BitsOfOr(x / 2, y / 2, k - 1);
      assert Or(x, y) / 2 == Or(x / 2, y / 2);
    }
  }

  lemma {:induction false} BitsOfXor(x: nat, y: nat, k: nat)
    ensures Bit(Xor(x, y), k) == if Bit(x, k) != Bit(y, k) then 1 else 0
    decreases k
  {
    BitOfZero(k);
    if x != 0 && y != 0 && k > 0 {
      BitsOfXor(x / 2, y / 2, k - 1);
      assert Xor(x, y) / 2 == Xor(x / 2, y / 2);
    }
  }

  /** Bits that do not overlap are put together by adding. */
  lemma {:induction false} OrIsSum(low: nat, high: nat, k: nat)
    requires low < Pow(2, k)
    ensures Or(low, high * Pow(2, k)) == low + high * Pow(2, k)
    decreases k
  {
    if k > 0 {
      var p := Pow(2, k - 1);
      assert high * (2 * p) == 2 * (high * p);
      OrIsSum(low / 2, high, k - 1);
    }
  }
}
