/** Residues modulo a prime. */
module Primes {
  import opened Arithmetic

  ghost predicate Prime(p: nat)
  {
    p >= 2 && forall d: nat :: d > 0 && Divides(d, p) ==> d == 1 || d == p
  }

  /** Every non-zero residue of a prime has an inverse. */
  lemma {:induction false} InverseMod(a: nat, m: nat) returns (u: int)
    requires Prime(m) && 0 < a < m
    ensures Cong(u * a, 1, m)
    decreases a
  {
    if a == 1 {
      u := 1;
      CongRefl(1, m);
    } else {
      var q, r := m / a, m % a;
      assert m == a * q + r;
      if r == 0 {
        DividesBy(a, m, q);
      }
      var v := InverseMod(r, m);
      u := -q * v;
      assert (-q * v) * a == v * r - v * m by {
        assert v * r == v * (m - a * q);
        MulDist(m, a * q, v);
        assert v * (a * q) == (q * v) * a;
        assert (-q * v) * a == -((q * v) * a);
      }
      assert (-v) * m == -(v * m);
      CongBy(u * a, v * r, m, -v);
      CongTrans(u * a, v * r, 1, m);
    }
  }

  /** A product of non-zero residues of a prime is not zero. */
  lemma NonZeroProduct(a: nat, b: nat, m: nat)
    requires Prime(m) && 0 < a < m && 0 < b < m
    ensures a * b >= 0 && (a * b) % m != 0
  {
    MulLe(0, a, b);
    if (a * b) % m == 0 {
      var u := InverseMod(a, m);
      CongMod(a * b, m);
      CongRefl(u, m);
      CongRefl(b, m);
      CongMul(u, u, 0, a * b, m);
      CongMul(u * a, 1, b, b, m);
      assert (u * a) * b == u * (a * b);
      CongTrans(0, u * (a * b), b, m);
      CongUnique(0, b, m);
    }
  }

  /** A product is 0 modulo a prime only if one of its factors is. */
  lemma ZeroFactor(a: int, b: int, m: nat)
    requires Prime(m) && Cong(a * b, 0, m)
    ensures Cong(a, 0, m) || Cong(b, 0, m)
  {
    hide Cong;
    CongMod(a, m);
    CongMod(b, m);
    CongMul(a, a % m, b, b % m, m);
    CongSym(a * b, (a % m) * (b % m), m);
    CongTrans((a % m) * (b % m), a * b, 0, m);
    CongIffMod((a % m) * (b % m), 0, m);
    if a % m != 0 && b % m != 0 {
      NonZeroProduct(a % m, b % m, m);
    }
  }
}
