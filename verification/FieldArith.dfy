/** Arithmetic modulo a field prime on reduced numbers, as the modular functions of uECC.c
    compute it on words, and coordinates that carry a power of a common scale. */
module FieldArith {
  import opened Arithmetic
  import opened Primes

  function FieldAdd(a: nat, b: nat, p: nat): (r: nat)
    requires p > 0
    ensures r < p
  {
    (a + b) % p
  }

  function FieldSub(a: nat, b: nat, p: nat): (r: nat)
    requires p > 0
    ensures r < p
  {
    (a - b) % p
  }

  function FieldMul(a: nat, b: nat, p: nat): (r: nat)
    requires p > 0
    ensures r < p
  {
    (a * b) % p
  }

  /** A shift by one bit, after adding the odd p to an odd number. */
  function FieldHalf(a: nat, p: nat): (r: nat)
    requires a < p && p % 2 == 1
    ensures r < p
  {
    if a % 2 == 1 then (a + p) / 2 else a / 2
  }

  // ---- What a result is congruent to ----

  lemma SumIs(a: nat, x: int, b: nat, y: int, p: nat)
    requires p > 0 && Cong(a, x, p) && Cong(b, y, p)
    ensures Cong(FieldAdd(a, b, p), x + y, p)
  {
    hide Cong;
    CongMod(a + b, p);
    CongAdd(a, x, b, y, p);
    CongTrans(FieldAdd(a, b, p), a + b, x + y, p);
  }

  lemma DifferenceIs(a: nat, x: int, b: nat, y: int, p: nat)
    requires p > 0 && Cong(a, x, p) && Cong(b, y, p)
    ensures Cong(FieldSub(a, b, p), x - y, p)
  {
    hide Cong;
    CongMod(a - b, p);
    CongAdd(a, x, b, y, p);
    CongTrans(FieldSub(a, b, p), a - b, x - y, p);
  }

  lemma ProductIs(a: nat, x: int, b: nat, y: int, p: nat)
    requires p > 0 && Cong(a, x, p) && Cong(b, y, p)
    ensures Cong(FieldMul(a, b, p), x * y, p)
  {
    hide Cong;
    CongMod(a * b, p);
    CongMul(a, x, b, y, p);
    CongTrans(FieldMul(a, b, p), a * b, x * y, p);
  }

  lemma HalfIs(a: nat, x: int, p: nat)
    requires a < p && p % 2 == 1 && Cong(a, x, p)
    ensures Cong(2 * FieldHalf(a, p), x, p)
  {
    hide Cong;
    CongBy(2 * FieldHalf(a, p), a, p, if a % 2 == 1 then 1 else 0);
    CongTrans(2 * FieldHalf(a, p), a, x, p);
  }

  lemma ZeroIs(a: nat, p: nat)
    requires a < p && Cong(a, 0, p)
    ensures a == 0
  {
    CongUnique(a, 0, p);
  }

  /** 1 / z, and 0 for 0. */
  method FieldInverse(z: nat, p: nat) returns (r: nat)
    requires Prime(p) && z < p
    ensures r < p && (z == 0 ==> r == 0) && (z != 0 ==> Cong(r * z, 1, p))
  {
    if z == 0 {
      return 0;
    }
    ghost var u := InverseMod(z, p);
    ghost var v := u % p;
    CongMod(u, p);
    CongRefl(z, p);
    CongMul(v, u, z, z, p);
    CongTrans(v * z, u * z, 1, p);
    CongIffMod(v * z, 1, p);
    r :| 0 <= r < p && (r * z) % p == 1 % p;
    CongIffMod(r * z, 1, p);
  }

  // ---- Scaled coordinates ----

  /** v is v times the k-th power of the scale z. */
  ghost predicate Scaled(a: int, v: int, z: nat, k: nat, p: nat)
  {
    Cong(a, v * Pow(z, k), p)
  }

  lemma ScaledProduct(a: int, v: int, i: nat, b: int, w: int, j: nat, z: nat, p: nat)
    requires Scaled(a, v, z, i, p) && Scaled(b, w, z, j, p)
    ensures Scaled(a * b, v * w, z, i + j, p)
  {
    hide Cong, Pow;
    var s, t := Pow(z, i), Pow(z, j);
    CongMul(a, v * s, b, w * t, p);
    PowAdd(z, i, j);
    assert (v * s) * (w * t) == (v * w) * (s * t) by {
      MulAssoc(v * s, w, t);
      assert (v * s) * w == (v * w) * s;
      MulAssoc(v * w, s, t);
    }
  }

  lemma ScaledSum(a: int, v: int, b: int, w: int, k: nat, z: nat, p: nat)
    requires Scaled(a, v, z, k, p) && Scaled(b, w, z, k, p)
    ensures Scaled(a + b, v + w, z, k, p) && Scaled(a - b, v - w, z, k, p)
  {
    hide Cong, Pow;
    CongAdd(a, v * Pow(z, k), b, w * Pow(z, k), p);
    MulDist(v, w, Pow(z, k));
  }

  lemma ScaledCong(a: int, b: int, v: int, w: int, z: nat, k: nat, p: nat)
    requires Cong(a, b, p) && Scaled(b, v, z, k, p) && Cong(v, w, p)
    ensures Scaled(a, w, z, k, p)
  {
    hide Cong, Pow;
    CongRefl(Pow(z, k), p);
    CongMul(v, w, Pow(z, k), Pow(z, k), p);
    CongTrans(a, b, v * Pow(z, k), p);
    CongTrans(a, v * Pow(z, k), w * Pow(z, k), p);
  }

  /** Moving to the scale s, which is d times the j-th power of z. */
  lemma Rescale(a: int, v: int, d: int, s: nat, z: nat, j: nat, p: nat)
    requires Scaled(s, d, z, j, p)
    ensures Scaled(a, v * (d * d), z, 2 * j, p) ==> Scaled(a, v, s, 2, p)
    ensures Scaled(a, v * (d * (d * d)), z, 3 * j, p) ==> Scaled(a, v, s, 3, p)
  {
    hide Cong;
    assert Pow(s, 2) == s * s && Pow(s, 3) == s * (s * s) by {
      assert Pow(s, 1) == s;
      assert Pow(s, 2) == s * Pow(s, 1);
      assert Pow(s, 3) == s * Pow(s, 2);
    }
    hide Pow;
    ScaledProduct(s, d, j, s, d, j, z, p);
    ScaledProduct(s, d, j, s * s, d * d, j + j, z, p);
    RescaleBy(a, v, d * d, s * s, z, 2 * j, p);
    RescaleBy(a, v, d * (d * d), s * (s * s), z, 3 * j, p);
  }

  lemma RescaleBy(a: int, v: int, e: int, t: int, z: nat, k: nat, p: nat)
    requires Scaled(t, e, z, k, p)
    ensures Scaled(a, v * e, z, k, p) ==> Cong(a, v * t, p)
  {
    hide Cong, Pow;
    CongRefl(v, p);
    CongMul(v, v, t, e * Pow(z, k), p);
    MulAssoc(v, e, Pow(z, k));
    CongSym(v * t, (v * e) * Pow(z, k), p);
    if Scaled(a, v * e, z, k, p) {
      CongTrans(a, (v * e) * Pow(z, k), v * t, p);
    }
  }
}
