/** Bitwise operations on natural numbers, as C defines them on unsigned words. */
module Bits {
  import opened Arithmetic

  function BitOr(a: nat, b: nat): nat
  {
    if a == 0 && b == 0 then 0
    else 2 * BitOr(a / 2, b / 2) + (if a % 2 == 1 || b % 2 == 1 then 1 else 0)
  }

  function BitXor(a: nat, b: nat): nat
  {
    if a == 0 && b == 0 then 0
    else 2 * BitXor(a / 2, b / 2) + (if a % 2 != b % 2 then 1 else 0)
  }

  /** Whether bit i of x is set: `x & (1 << i)` is non-zero. */
  predicate Bit(x: nat, i: nat)
  {
    (x / Pow(2, i)) % 2 == 1
  }

  lemma {:induction false} OrWithZero(b: nat)
    ensures BitOr(0, b) == b && BitOr(b, 0) == b
  {
    if b != 0 {
      OrWithZero(b / 2);
    }
  }

  /** OR of operands whose bits do not overlap is their sum. */
  lemma {:induction false} OrDisjoint(a: nat, b: nat, s: nat)
    requires a < Pow(2, s) && b % Pow(2, s) == 0
    ensures BitOr(a, b) == a + b && BitOr(b, a) == a + b
  {
    if s == 0 {
      OrWithZero(b);
    } else {
      HalfOfMultiple(b, Pow(2, s - 1));
      OrDisjoint(a / 2, b / 2, s - 1);
    }
  }

  lemma HalfOfMultiple(b: nat, p: nat)
    requires p > 0 && b % (2 * p) == 0
    ensures b % 2 == 0 && (b / 2) % p == 0
  {
    var q := b / (2 * p);
    assert b == q * (2 * p) == 2 * (q * p);
    DivModUnique(b / 2, q, 0, p);
  }

  lemma {:induction false} OrIsZero(a: nat, b: nat)
    ensures BitOr(a, b) == 0 <==> a == 0 && b == 0
  {
    if a != 0 || b != 0 {
      OrIsZero(a / 2, b / 2);
    }
  }

  lemma {:induction false} XorIsZero(a: nat, b: nat)
    ensures BitXor(a, b) == 0 <==> a == b
  {
    if a != 0 || b != 0 {
      XorIsZero(a / 2, b / 2);
    }
  }

  lemma BitOfHalf(x: nat, i: nat)
    requires i > 0
    ensures Bit(x, i) <==> Bit(x / 2, i - 1)
  {
    ModSplit(x, 2, Pow(2, i - 1));
  }

  lemma XorStep(a: nat, b: nat)
    ensures BitXor(a, b) / 2 == BitXor(a / 2, b / 2) && (BitXor(a, b) % 2 == 1 <==> a % 2 != b % 2)
  {}

  lemma OrStep(a: nat, b: nat)
    ensures BitOr(a, b) / 2 == BitOr(a / 2, b / 2) && (BitOr(a, b) % 2 == 1 <==> a % 2 == 1 || b % 2 == 1)
  {}

  lemma LowestBit(x: nat)
    ensures Bit(x, 0) <==> x % 2 == 1
  {}

  /** XOR and OR work on every bit by itself. */
  lemma {:induction false} BitOfXor(a: nat, b: nat, i: nat)
    ensures Bit(BitXor(a, b), i) <==> Bit(a, i) != Bit(b, i)
    decreases i
  {
    hide Bit, BitXor;
    XorStep(a, b);
    if i == 0 {
      LowestBit(a);
      LowestBit(b);
      LowestBit(BitXor(a, b));
    } else {
      BitOfXor(a / 2, b / 2, i - 1);
      BitOfHalf(a, i);
      BitOfHalf(b, i);
      BitOfHalf(BitXor(a, b), i);
    }
  }

  lemma {:induction false} BitOfOr(a: nat, b: nat, i: nat)
    ensures Bit(BitOr(a, b), i) <==> Bit(a, i) || Bit(b, i)
    decreases i
  {
    hide Bit, BitOr;
    OrStep(a, b);
    if i == 0 {
      LowestBit(a);
      LowestBit(b);
      LowestBit(BitOr(a, b));
    } else {
      BitOfOr(a / 2, b / 2, i - 1);
      BitOfHalf(a, i);
      BitOfHalf(b, i);
      BitOfHalf(BitOr(a, b), i);
    }
  }

  /** A number below 2^n is determined by its n lowest bits. */
  lemma {:induction false} SameBits(a: nat, b: nat, n: nat)
    requires a < Pow(2, n) && b < Pow(2, n)
    requires forall i :: 0 <= i < n ==> (Bit(a, i) <==> Bit(b, i))
    ensures a == b
  {
    hide Bit;
    if n > 0 {
      LowestBit(a);
      LowestBit(b);
      assert Bit(a, 0) <==> Bit(b, 0);
      forall i | 0 <= i < n - 1 ensures Bit(a / 2, i) <==> Bit(b / 2, i) {
        BitOfHalf(a, i + 1);
        BitOfHalf(b, i + 1);
      }
      SameBits(a / 2, b / 2, n - 1);
    }
  }

  lemma {:induction false} XorBound(a: nat, b: nat, n: nat)
    requires a < Pow(2, n) && b < Pow(2, n)
    ensures BitXor(a, b) < Pow(2, n)
    decreases n
  {
    XorStep(a, b);
    if n == 0 {
      XorIsZero(0, 0);
    } else {
      hide BitXor;
      XorBound(a / 2, b / 2, n - 1);
    }
  }

  lemma {:induction false} XorWithZero(b: nat)
    ensures BitXor(0, b) == b == BitXor(b, 0)
  {
    if b != 0 {
      XorWithZero(b / 2);
    }
  }
}
