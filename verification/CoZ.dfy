/** The point formulas of uECC.c on coordinates with a common Z, and what they compute: the
    sum by the line through two points, and what becomes of operands that have no such line. */
module CoZ {
  import opened Arithmetic
  import opened Primes
  import opened FieldArith

  /** (xs, ys) is the third point, negated, on the line of slope e / d through (x1, y1),
      the other point on it having the x-coordinate x2. */
  ghost predicate LineSum(x1: int, y1: int, x2: int, d: int, e: int, xs: int, ys: int, p: nat)
  {
    && Cong((xs + x1 + x2) * (d * d), e * e, p)
    && Cong((ys + y1) * d, e * (x1 - xs), p)
  }

  ghost predicate Chord(x1: int, y1: int, x2: int, y2: int, xs: int, ys: int, p: nat)
  {
    LineSum(x1, y1, x2, x2 - x1, y2 - y1, xs, ys, p)
  }

  /** The tangent of a curve y^2 = x^3 + a x + b. */
  ghost predicate Tangent(x: int, y: int, a: int, xs: int, ys: int, p: nat)
  {
    LineSum(x, y, x, 2 * y, 3 * (x * x) + a, xs, ys, p)
  }

  /** (X, Y) has the affine coordinates (x, y) at scale z. */
  ghost predicate AtScale(X: int, Y: int, x: int, y: int, z: nat, p: nat)
  {
    Scaled(X, x, z, 2, p) && Scaled(Y, y, z, 3, p)
  }

  // ---- The formulas ----

  /** What the line of slope e through (b, v) gives, with the other point's c. */
  ghost predicate LineResult(b: int, c: int, v: int, e: int, x: int, y: int, p: nat)
  {
    Cong(x, e * e - b - c, p) && Cong(y, e * (b - x) - v, p)
  }

  /** P', P + Q for P and Q at a common scale. */
  ghost predicate SumFormula(x1: int, y1: int, x2: int, y2: int, x1': int, y1': int, x3: int, y3: int, p: nat)
  {
    var d := x2 - x1;
    && Cong(x1', x1 * (d * d), p) && Cong(y1', y1 * (d * (d * d)), p)
    && LineResult(x1 * (d * d), x2 * (d * d), y1 * (d * (d * d)), y2 - y1, x3, y3, p)
  }

  /** P - Q, P + Q for P and Q at a common scale. */
  ghost predicate DifferenceFormula(x1: int, y1: int, x2: int, y2: int, x3': int, y3': int, x3: int, y3: int, p: nat)
  {
    var d := x2 - x1;
    && LineResult(x1 * (d * d), x2 * (d * d), y1 * (d * (d * d)), -y2 - y1, x3', y3', p)
    && LineResult(x1 * (d * d), x2 * (d * d), y1 * (d * (d * d)), y2 - y1, x3, y3, p)
  }

  /** P, Q => P', P + Q. */
  method XYcZAdd(x1: nat, y1: nat, x2: nat, y2: nat, p: nat) returns (X1: nat, Y1: nat, X2: nat, Y2: nat)
    requires x1 < p && y1 < p && x2 < p && y2 < p
    ensures X1 < p && Y1 < p && X2 < p && Y2 < p
    ensures SumFormula(x1, y1, x2, y2, X1, Y1, X2, Y2, p)
  {
    hide Cong, FieldSub, FieldMul;
    ghost var d, e := x2 - x1, y2 - y1;
    ghost var b, c := x1 * (d * d), x2 * (d * d);
    Reflexive(x1, y1, x2, y2, p);
    X1, Y1, X2, Y2 := x1, y1, x2, y2;
    var t5 := FieldSub(X2, X1, p);
    DifferenceIs(X2, x2, X1, x1, p);
    ProductIs(t5, d, t5, d, p);
    t5 := FieldMul(t5, t5, p);
    ProductIs(X1, x1, t5, d * d, p);
    X1 := FieldMul(X1, t5, p);
    ProductIs(X2, x2, t5, d * d, p);
    X2 := FieldMul(X2, t5, p);
    DifferenceIs(Y2, y2, Y1, y1, p);
    Y2 := FieldSub(Y2, Y1, p);
    ProductIs(Y2, e, Y2, e, p);
    t5 := FieldMul(Y2, Y2, p);
    DifferenceIs(t5, e * e, X1, b, p);
    t5 := FieldSub(t5, X1, p);
    DifferenceIs(t5, e * e - b, X2, c, p);
    t5 := FieldSub(t5, X2, p);
    DifferenceIs(X2, c, X1, b, p);
    X2 := FieldSub(X2, X1, p);
    ProductIs(Y1, y1, X2, c - b, p);
    Y1 := FieldMul(Y1, X2, p);
    CubeOf(y1, x1, x2, d);
    CongRefl(t5, p);
    DifferenceIs(X1, b, t5, t5, p);
    X2 := FieldSub(X1, t5, p);
    ProductIs(Y2, e, X2, b - t5, p);
    Y2 := FieldMul(Y2, X2, p);
    DifferenceIs(Y2, e * (b - t5), Y1, y1 * (c - b), p);
    Y2 := FieldSub(Y2, Y1, p);
    X2 := t5;
  }

  /** P, Q => P - Q, P + Q. */
  method XYcZAddC(x1: nat, y1: nat, x2: nat, y2: nat, p: nat) returns (X1: nat, Y1: nat, X2: nat, Y2: nat)
    requires x1 < p && y1 < p && x2 < p && y2 < p
    ensures X1 < p && Y1 < p && X2 < p && Y2 < p
    ensures DifferenceFormula(x1, y1, x2, y2, X1, Y1, X2, Y2, p)
  {
    hide Cong, FieldSub, FieldMul, FieldAdd;
    ghost var d, e, f := x2 - x1, y2 - y1, y2 + y1;
    ghost var b, c := x1 * (d * d), x2 * (d * d);
    Reflexive(x1, y1, x2, y2, p);
    X1, Y1, X2, Y2 := x1, y1, x2, y2;
    var t5 := FieldSub(X2, X1, p);
    DifferenceIs(X2, x2, X1, x1, p);
    ProductIs(t5, d, t5, d, p);
    t5 := FieldMul(t5, t5, p);
    ProductIs(X1, x1, t5, d * d, p);
    X1 := FieldMul(X1, t5, p);
    ProductIs(X2, x2, t5, d * d, p);
    X2 := FieldMul(X2, t5, p);
    SumIs(Y2, y2, Y1, y1, p);
    t5 := FieldAdd(Y2, Y1, p);
    DifferenceIs(Y2, y2, Y1, y1, p);
    Y2 := FieldSub(Y2, Y1, p);
    DifferenceIs(X2, c, X1, b, p);
    var t6 := FieldSub(X2, X1, p);
    ProductIs(Y1, y1, t6, c - b, p);
    Y1 := FieldMul(Y1, t6, p);
    CubeOf(y1, x1, x2, d);
    SumIs(X1, b, X2, c, p);
    t6 := FieldAdd(X1, X2, p);
    ProductIs(Y2, e, Y2, e, p);
    X2 := FieldMul(Y2, Y2, p);
    DifferenceIs(X2, e * e, t6, b + c, p);
    X2 := FieldSub(X2, t6, p);
    CongRefl(X2, p);
    DifferenceIs(X1, b, X2, X2, p);
    var t7 := FieldSub(X1, X2, p);
    ProductIs(Y2, e, t7, b - X2, p);
    Y2 := FieldMul(Y2, t7, p);
    DifferenceIs(Y2, e * (b - X2), Y1, y1 * (c - b), p);
    Y2 := FieldSub(Y2, Y1, p);
    ProductIs(t5, f, t5, f, p);
    t7 := FieldMul(t5, t5, p);
    DifferenceIs(t7, f * f, t6, b + c, p);
    t7 := FieldSub(t7, t6, p);
    CongRefl(t7, p);
    DifferenceIs(t7, t7, X1, b, p);
    t6 := FieldSub(t7, X1, p);
    ProductIs(t6, t7 - b, t5, f, p);
    t6 := FieldMul(t6, t5, p);
    DifferenceIs(t6, (t7 - b) * f, Y1, y1 * (c - b), p);
    OtherSlope(f, b, t7, y1, y2);
    Y1 := FieldSub(t6, Y1, p);
    X1 := t7;
  }

  lemma Reflexive(a: int, b: int, c: int, d: int, p: nat)
    ensures Cong(a, a, p) && Cong(b, b, p) && Cong(c, c, p) && Cong(d, d, p)
  {
    CongRefl(a, p);
    CongRefl(b, p);
    CongRefl(c, p);
    CongRefl(d, p);
  }

  lemma CubeOf(y: int, x1: int, x2: int, d: int)
    requires d == x2 - x1
    ensures y * (x2 * (d * d) - x1 * (d * d)) == y * (d * (d * d))
  {
    MulDist(x2, x1, d * d);
  }

  lemma OtherSlope(f: int, b: int, t: int, y1: int, y2: int)
    requires f == y2 + y1
    ensures f * f == (-y2 - y1) * (-y2 - y1) && (t - b) * f == (-y2 - y1) * (b - t)
  {
    assert -y2 - y1 == -f;
    assert (-f) * (b - t) == -(f * (b - t)) == f * (t - b);
    assert (-f) * (-f) == f * f;
  }

  /** (x, y) => (x z^2, y z^3). */
  method ApplyZ(x: nat, y: nat, z: nat, p: nat) returns (X: nat, Y: nat)
    requires x < p && y < p && z < p
    ensures X < p && Y < p && Cong(X, x * (z * z), p) && Cong(Y, y * (z * (z * z)), p)
  {
    hide Cong, FieldMul;
    Reflexive(x, y, z, z, p);
    ProductIs(z, z, z, z, p);
    var t1 := FieldMul(z, z, p);
    ProductIs(x, x, t1, z * z, p);
    X := FieldMul(x, t1, p);
    ProductIs(t1, z * z, z, z, p);
    t1 := FieldMul(t1, z, p);
    assert (z * z) * z == z * (z * z);
    ProductIs(y, y, t1, z * (z * z), p);
    Y := FieldMul(y, t1, p);
  }

  /** The doubled point for half the slope h: 2 h = 3 x^2 + a z^4, at scale y z. */
  ghost predicate DoubleFormula(x: int, y: int, z: int, a: int, h: int, X: int, Y: int, Z: int, p: nat)
  {
    && Cong(2 * h, 3 * (x * x) + a * ((z * z) * (z * z)), p)
    && LineResult(x * (y * y), x * (y * y), (y * y) * (y * y), h, X, Y, p)
    && Cong(Z, y * z, p)
  }

  /** Half the slope for a = 0: 3/2 x^2. */
  method SlopeSecp256k1(x: nat, p: nat) returns (h: nat)
    requires x < p && p % 2 == 1
    ensures h < p && Cong(2 * h, 3 * (x * x), p)
  {
    hide Cong, FieldMul;
    CongRefl(x, p);
    ProductIs(x, x, x, x, p);
    var t1 := FieldMul(x, x, p);
    h := HalfOfThree(t1, x * x, p);
  }

  /** x^2 - z^4 as (x + z^2) (x - z^2). */
  method SquaresApart(x: nat, z: nat, p: nat) returns (t1: nat)
    requires x < p && z < p
    ensures t1 < p && Cong(t1, x * x - (z * z) * (z * z), p)
  {
    hide Cong, FieldSub, FieldMul, FieldAdd;
    ghost var zz := z * z;
    SquareDifference(x, zz);
    Reflexive(x, z, 0, 0, p);
    ProductIs(z, z, z, z, p);
    var t3 := FieldMul(z, z, p);
    SumIs(x, x, t3, zz, p);
    t1 := FieldAdd(x, t3, p);
    SumIs(t3, zz, t3, zz, p);
    t3 := FieldAdd(t3, t3, p);
    DifferenceIs(t1, x + zz, t3, zz + zz, p);
    t3 := FieldSub(t1, t3, p);
    ProductIs(t1, x + zz, t3, x - zz, p);
    t1 := FieldMul(t1, t3, p);
  }

  /** Half of three times a number modulo p. */
  method HalfOfThree(t: nat, ghost q: int, p: nat) returns (h: nat)
    requires t < p && p % 2 == 1 && Cong(t, q, p)
    ensures h < p && Cong(2 * h, 3 * q, p)
  {
    hide Cong, FieldAdd, FieldHalf;
    SumIs(t, q, t, q, p);
    h := FieldAdd(t, t, p);
    SumIs(h, q + q, t, q, p);
    h := FieldAdd(h, t, p);
    HalfIs(h, q + q + q, p);
    h := FieldHalf(h, p);
  }

  /** Half the slope for a = -3: 3/2 (x^2 - z^4). */
  method SlopeDefault(x: nat, z: nat, p: nat) returns (h: nat)
    requires x < p && z < p && p % 2 == 1
    ensures h < p && Cong(2 * h, 3 * (x * x) - 3 * ((z * z) * (z * z)), p)
  {
    hide Cong;
    var t1 := SquaresApart(x, z, p);
    h := HalfOfThree(t1, x * x - (z * z) * (z * z), p);
  }

  /** Doubling for a = 0. */
  method DoubleSecp256k1(x1: nat, y1: nat, z1: nat, p: nat) returns (X1: nat, Y1: nat, Z1: nat, ghost h: nat)
    requires x1 < p && y1 < p && z1 < p && p % 2 == 1
    ensures X1 < p && Y1 < p && Z1 < p
    ensures z1 == 0 ==> X1 == x1 && Y1 == y1 && Z1 == 0
    ensures z1 != 0 ==> DoubleFormula(x1, y1, z1, 0, h, X1, Y1, Z1, p)
  {
    X1, Y1, Z1, h := x1, y1, z1, 0;
    if Z1 == 0 {
      return;
    }
    var b := SlopeSecp256k1(x1, p);
    h := b;
    NoLinearTerm(z1);
    hide Cong;
    X1, Y1, Z1 := DoubleBySlope(x1, y1, z1, b, p);
  }

  lemma NoLinearTerm(z: int)
    ensures 0 * ((z * z) * (z * z)) == 0
  {}

  /** Doubling for a = -3. */
  method DoubleDefault(x1: nat, y1: nat, z1: nat, p: nat) returns (X1: nat, Y1: nat, Z1: nat, ghost h: nat)
    requires x1 < p && y1 < p && z1 < p && p % 2 == 1
    ensures X1 < p && Y1 < p && Z1 < p
    ensures z1 == 0 ==> X1 == x1 && Y1 == y1 && Z1 == 0
    ensures z1 != 0 ==> DoubleFormula(x1, y1, z1, -3, h, X1, Y1, Z1, p)
  {
    X1, Y1, Z1, h := x1, y1, z1, 0;
    if Z1 == 0 {
      return;
    }
    var b := SlopeDefault(x1, z1, p);
    h := b;
    hide Cong;
    X1, Y1, Z1 := DoubleBySlope(x1, y1, z1, b, p);
  }

  /** The part that both doublings have in common: A = x y^2, y^4 and z3 = y z, then
      x3 = b^2 - 2 A and y3 = b (A - x3) - y^4. */
  method DoubleBySlope(x1: nat, y1: nat, z1: nat, b: nat, p: nat) returns (x3: nat, y3: nat, z3: nat)
    requires x1 < p && y1 < p && z1 < p && b < p
    ensures x3 < p && y3 < p && z3 < p
    ensures LineResult(x1 * (y1 * y1), x1 * (y1 * y1), (y1 * y1) * (y1 * y1), b, x3, y3, p) && Cong(z3, y1 * z1, p)
  {
    hide Cong, FieldMul, LineResult;
    ghost var s := y1 * y1;
    Reflexive(x1, y1, z1, 0, p);
    ProductIs(y1, y1, y1, y1, p);
    var t4 := FieldMul(y1, y1, p);
    ProductIs(x1, x1, t4, s, p);
    var t5 := FieldMul(x1, t4, p);
    ProductIs(t4, s, t4, s, p);
    t4 := FieldMul(t4, t4, p);
    ProductIs(y1, y1, z1, z1, p);
    z3 := FieldMul(y1, z1, p);
    x3, y3 := DoubleEnd(b, t5, x1 * s, t4, s * s, p);
  }

  lemma SquareDifference(x: int, zz: int)
    ensures (x + zz) * (x - zz) == x * x - zz * zz
  {
    MulDist(x, zz, x - zz);
    MulDist(x, zz, x);
    MulDist(x, zz, zz);
  }

  /** The end of both doublings: b^2 - 2a and b (a - x3) - y^4. */
  method DoubleEnd(b: nat, ta: nat, ghost a: int, ty: nat, ghost y4: int, p: nat) returns (x3: nat, y3: nat)
    requires 0 < p && Cong(ta, a, p) && Cong(ty, y4, p)
    ensures x3 < p && y3 < p && LineResult(a, a, y4, b, x3, y3, p)
  {
    hide Cong, FieldSub, FieldMul;
    CongRefl(b, p);
    ProductIs(b, b, b, b, p);
    x3 := FieldMul(b, b, p);
    DifferenceIs(x3, b * b, ta, a, p);
    x3 := FieldSub(x3, ta, p);
    DifferenceIs(x3, b * b - a, ta, a, p);
    x3 := FieldSub(x3, ta, p);
    CongRefl(x3, p);
    DifferenceIs(ta, a, x3, x3, p);
    y3 := FieldSub(ta, x3, p);
    ProductIs(b, b, y3, a - x3, p);
    y3 := FieldMul(b, y3, p);
    DifferenceIs(y3, b * (a - x3), ty, y4, p);
    y3 := FieldSub(y3, ty, p);
  }

  // ---- The formulas on points of a common scale ----

  /** The line through scaled coordinates gives the sum at the scale s = d z^j. */
  lemma LineAtScale(b: int, c: int, v: int, slope: int, X: int, Y: int, s: nat, z: nat, j: nat,
                    x1: int, y1: int, x2: int, d: int, e: int, xs: int, ys: int, p: nat)
    requires LineResult(b, c, v, slope, X, Y, p) && LineSum(x1, y1, x2, d, e, xs, ys, p)
    requires Scaled(b, x1 * (d * d), z, 2 * j, p) && Scaled(c, x2 * (d * d), z, 2 * j, p)
    requires Scaled(v, y1 * (d * (d * d)), z, 3 * j, p) && Scaled(slope, e, z, j, p) && Scaled(s, d, z, j, p)
    ensures AtScale(X, Y, xs, ys, s, p)
  {
    hide Cong, Scaled;
    var dd := d * d;
    ScaledProduct(slope, e, j, slope, e, j, z, p);
    ScaledSum(slope * slope, e * e, b, x1 * dd, 2 * j, z, p);
    ScaledSum(slope * slope - b, e * e - x1 * dd, c, x2 * dd, 2 * j, z, p);
    LineX(x1, x2, d, e, xs, p);
    ScaledCong(X, slope * slope - b - c, e * e - x1 * dd - x2 * dd, xs * dd, z, 2 * j, p);
    ScaledSum(b, x1 * dd, X, xs * dd, 2 * j, z, p);
    ScaledProduct(slope, e, j, b - X, x1 * dd - xs * dd, 2 * j, z, p);
    ScaledSum(slope * (b - X), e * (x1 * dd - xs * dd), v, y1 * (d * dd), 3 * j, z, p);
    LineY(x1, y1, d, e, xs, ys, p);
    ScaledCong(Y, slope * (b - X) - v, e * (x1 * dd - xs * dd) - y1 * (d * dd), ys * (d * dd), z, 3 * j, p);
    Rescale(X, xs, d, s, z, j, p);
    Rescale(Y, ys, d, s, z, j, p);
  }

  lemma LineX(x1: int, x2: int, d: int, e: int, xs: int, p: nat)
    requires Cong((xs + x1 + x2) * (d * d), e * e, p)
    ensures Cong(e * e - x1 * (d * d) - x2 * (d * d), xs * (d * d), p)
  {
    hide Cong;
    var dd := d * d;
    MulDist(xs + x1, x2, dd);
    MulDist(xs, x1, dd);
    CongSym((xs + x1 + x2) * dd, e * e, p);
    CongRefl(x1 * dd + x2 * dd, p);
    CongAdd(e * e, (xs + x1 + x2) * dd, x1 * dd + x2 * dd, x1 * dd + x2 * dd, p);
  }

  lemma LineY(x1: int, y1: int, d: int, e: int, xs: int, ys: int, p: nat)
    requires Cong((ys + y1) * d, e * (x1 - xs), p)
    ensures Cong(e * (x1 * (d * d) - xs * (d * d)) - y1 * (d * (d * d)), ys * (d * (d * d)), p)
  {
    hide Cong;
    var dd := d * d;
    CongRefl(dd, p);
    CongMul((ys + y1) * d, e * (x1 - xs), dd, dd, p);
    assert ((ys + y1) * d) * dd == ys * (d * dd) + y1 * (d * dd) by {
      MulAssoc(ys + y1, d, dd);
      MulDist(ys, y1, d * dd);
    }
    assert (e * (x1 - xs)) * dd == e * (x1 * dd - xs * dd) by {
      MulAssoc(e, x1 - xs, dd);
      MulDist(x1, xs, dd);
    }
    CongSym(ys * (d * dd) + y1 * (d * dd), e * (x1 * dd - xs * dd), p);
    CongRefl(y1 * (d * dd), p);
    CongAdd(e * (x1 * dd - xs * dd), ys * (d * dd) + y1 * (d * dd), y1 * (d * dd), y1 * (d * dd), p);
  }

  /** The parts that both formulas start with, for two points at scale z. */
  lemma CommonParts(X1: int, Y1: int, X2: int, Y2: int, x1: int, y1: int, x2: int, y2: int, s: nat, z: nat, p: nat)
    requires AtScale(X1, Y1, x1, y1, z, p) && AtScale(X2, Y2, x2, y2, z, p) && Cong(s, z * (X2 - X1), p)
    ensures var (D, d) := (X2 - X1, x2 - x1);
      && Scaled(X1 * (D * D), x1 * (d * d), z, 6, p) && Scaled(X2 * (D * D), x2 * (d * d), z, 6, p)
      && Scaled(Y1 * (D * (D * D)), y1 * (d * (d * d)), z, 9, p) && Scaled(s, d, z, 3, p)
      && Scaled(Y2 - Y1, y2 - y1, z, 3, p) && Scaled(-Y2 - Y1, -y2 - y1, z, 3, p)
  {
    hide Cong, Scaled;
    var D, d := X2 - X1, x2 - x1;
    ScaledSum(X2, x2, X1, x1, 2, z, p);
    ScaledProduct(D, d, 2, D, d, 2, z, p);
    ScaledProduct(D, d, 2, D * D, d * d, 4, z, p);
    ScaledProduct(X1, x1, 2, D * D, d * d, 4, z, p);
    ScaledProduct(X2, x2, 2, D * D, d * d, 4, z, p);
    ScaledProduct(Y1, y1, 3, D * (D * D), d * (d * d), 6, z, p);
    ScaledSum(Y2, y2, Y1, y1, 3, z, p);
    ScaleItself(z, p);
    ScaledProduct(z, 1, 1, D, d, 2, z, p);
    CongRefl(d, p);
    ScaledCong(s, z * D, 1 * d, d, z, 3, p);
    ScaledSum(0, 0, Y2, y2, 3, z, p);
    ScaledSum(-Y2, -y2, Y1, y1, 3, z, p);
  }

  lemma ScaleItself(z: nat, p: nat)
    ensures Scaled(z, 1, z, 1, p) && Scaled(0, 0, z, 3, p)
  {
    assert Pow(z, 1) == z;
    CongRefl(z, p);
    CongRefl(0, p);
  }

  /** P, Q become P and P + Q at the scale z (X2 - X1). */
  lemma SumAtScale(X1: int, Y1: int, X2: int, Y2: int, x1: int, y1: int, x2: int, y2: int, z: nat,
                   X1': int, Y1': int, X3: int, Y3: int, xs: int, ys: int, s: nat, p: nat)
    requires AtScale(X1, Y1, x1, y1, z, p) && AtScale(X2, Y2, x2, y2, z, p) && Cong(s, z * (X2 - X1), p)
    requires SumFormula(X1, Y1, X2, Y2, X1', Y1', X3, Y3, p) && Chord(x1, y1, x2, y2, xs, ys, p)
    ensures AtScale(X1', Y1', x1, y1, s, p) && AtScale(X3, Y3, xs, ys, s, p)
  {
    hide Cong, Scaled;
    var D, d := X2 - X1, x2 - x1;
    CommonParts(X1, Y1, X2, Y2, x1, y1, x2, y2, s, z, p);
    LineAtScale(X1 * (D * D), X2 * (D * D), Y1 * (D * (D * D)), Y2 - Y1, X3, Y3, s, z, 3,
                x1, y1, x2, d, y2 - y1, xs, ys, p);
    CongRefl(x1 * (d * d), p);
    CongRefl(y1 * (d * (d * d)), p);
    ScaledCong(X1', X1 * (D * D), x1 * (d * d), x1 * (d * d), z, 6, p);
    ScaledCong(Y1', Y1 * (D * (D * D)), y1 * (d * (d * d)), y1 * (d * (d * d)), z, 9, p);
    Rescale(X1', x1, d, s, z, 3, p);
    Rescale(Y1', y1, d, s, z, 3, p);
  }

  /** P, Q become P - Q and P + Q at the scale z (X2 - X1). */
  lemma DifferenceAtScale(X1: int, Y1: int, X2: int, Y2: int, x1: int, y1: int, x2: int, y2: int, z: nat,
                          X3': int, Y3': int, X3: int, Y3: int, xd: int, yd: int, xs: int, ys: int, s: nat, p: nat)
    requires AtScale(X1, Y1, x1, y1, z, p) && AtScale(X2, Y2, x2, y2, z, p) && Cong(s, z * (X2 - X1), p)
    requires DifferenceFormula(X1, Y1, X2, Y2, X3', Y3', X3, Y3, p)
    requires Chord(x1, y1, x2, -y2, xd, yd, p) && Chord(x1, y1, x2, y2, xs, ys, p)
    ensures AtScale(X3', Y3', xd, yd, s, p) && AtScale(X3, Y3, xs, ys, s, p)
  {
    hide Cong, Scaled;
    var D, d := X2 - X1, x2 - x1;
    CommonParts(X1, Y1, X2, Y2, x1, y1, x2, y2, s, z, p);
    LineAtScale(X1 * (D * D), X2 * (D * D), Y1 * (D * (D * D)), Y2 - Y1, X3, Y3, s, z, 3,
                x1, y1, x2, d, y2 - y1, xs, ys, p);
    LineAtScale(X1 * (D * D), X2 * (D * D), Y1 * (D * (D * D)), -Y2 - Y1, X3', Y3', s, z, 3,
                x1, y1, x2, d, -y2 - y1, xd, yd, p);
  }

  /** Doubling, to the scale y z. */
  lemma DoubleAtScale(X: int, Y: int, x: int, y: int, z: nat, a: int, h: int, X3: int, Y3: int, s: nat,
                      xs: int, ys: int, p: nat)
    requires p % 2 == 1 && AtScale(X, Y, x, y, z, p) && DoubleFormula(X, Y, z, a, h, X3, Y3, s, p)
    requires Tangent(x, y, a, xs, ys, p)
    ensures AtScale(X3, Y3, xs, ys, s, p) && Scaled(s, y, z, 4, p)
  {
    hide Cong, Scaled;
    var A, Y4, d := X * (Y * Y), (Y * Y) * (Y * Y), 2 * y;
    DoubleParts(X, Y, x, y, z, a, h, s, p);
    TwiceLine(A, Y4, h, X3, Y3, p);
    assert x * (d * d) == 4 * (x * (y * y)) && y * (d * (d * d)) == 8 * ((y * y) * (y * y)) by {
      FourAndEight(x, y);
    }
    LineAtScale(4 * A, 4 * A, 8 * Y4, 2 * h, 4 * X3, 8 * Y3, 2 * s, z, 4, x, y, x, d, 3 * (x * x) + a, xs, ys, p);
    HalfScale(X3, Y3, xs, ys, s, p);
  }

  lemma FourAndEight(x: int, y: int)
    ensures x * ((2 * y) * (2 * y)) == 4 * (x * (y * y))
    ensures y * ((2 * y) * ((2 * y) * (2 * y))) == 8 * ((y * y) * (y * y))
  {
    var s := y * y;
    assert (2 * y) * (2 * y) == 4 * s;
    assert x * (4 * s) == 4 * (x * s);
    assert (2 * y) * (4 * s) == 8 * (y * s);
    assert y * (8 * (y * s)) == 8 * (y * (y * s));
    MulAssoc(y, y, s);
  }

  lemma DoubleParts(X: int, Y: int, x: int, y: int, z: nat, a: int, h: int, s: nat, p: nat)
    requires AtScale(X, Y, x, y, z, p) && Cong(s, Y * z, p)
    requires Cong(2 * h, 3 * (X * X) + a * ((z * z) * (z * z)), p)
    ensures Scaled(4 * (X * (Y * Y)), 4 * (x * (y * y)), z, 8, p)
    ensures Scaled(8 * ((Y * Y) * (Y * Y)), 8 * ((y * y) * (y * y)), z, 12, p)
    ensures Scaled(2 * h, 3 * (x * x) + a, z, 4, p) && Scaled(s, y, z, 4, p) && Scaled(2 * s, 2 * y, z, 4, p)
  {
    hide Cong, Scaled;
    ScaledProduct(Y, y, 3, Y, y, 3, z, p);
    ScaledProduct(X, x, 2, Y * Y, y * y, 6, z, p);
    ScaledProduct(Y * Y, y * y, 6, Y * Y, y * y, 6, z, p);
    ScaledProduct(X, x, 2, X, x, 2, z, p);
    ScaleItself(z, p);
    ScaledProduct(z, 1, 1, z, 1, 1, z, p);
    ScaledProduct(z * z, 1, 2, z * z, 1, 2, z, p);
    ScaledTimes(X * (Y * Y), x * (y * y), 4, z, 8, p);
    ScaledTimes((Y * Y) * (Y * Y), (y * y) * (y * y), 8, z, 12, p);
    ScaledTimes(X * X, x * x, 3, z, 4, p);
    ScaledTimes((z * z) * (z * z), 1, a, z, 4, p);
    ScaledSum(3 * (X * X), 3 * (x * x), a * ((z * z) * (z * z)), a * 1, 4, z, p);
    CongRefl(3 * (x * x) + a, p);
    ScaledCong(2 * h, 3 * (X * X) + a * ((z * z) * (z * z)), 3 * (x * x) + a * 1, 3 * (x * x) + a, z, 4, p);
    ScaledProduct(Y, y, 3, z, 1, 1, z, p);
    CongRefl(y, p);
    ScaledCong(s, Y * z, y * 1, y, z, 4, p);
    ScaledTimes(s, y, 2, z, 4, p);
  }

  lemma ScaledTimes(u: int, v: int, t: int, z: nat, k: nat, p: nat)
    requires Scaled(u, v, z, k, p)
    ensures Scaled(t * u, t * v, z, k, p)
  {
    hide Cong, Pow;
    CongRefl(t, p);
    CongMul(t, t, u, v * Pow(z, k), p);
    MulAssoc(t, v, Pow(z, k));
  }

  lemma TwiceLine(A: int, V: int, h: int, X: int, Y: int, p: nat)
    requires LineResult(A, A, V, h, X, Y, p)
    ensures LineResult(4 * A, 4 * A, 8 * V, 2 * h, 4 * X, 8 * Y, p)
  {
    hide Cong;
    CongRefl(4, p);
    CongRefl(8, p);
    CongMul(4, 4, X, h * h - A - A, p);
    CongMul(8, 8, Y, h * (A - X) - V, p);
    assert (2 * h) * (2 * h) == 4 * (h * h);
    assert (2 * h) * (4 * A - 4 * X) == 8 * (h * (A - X)) by {
      assert 4 * A - 4 * X == 4 * (A - X);
      MulAssoc(2 * h, 4, A - X);
      assert (2 * h) * 4 == 8 * h;
      MulAssoc(8, h, A - X);
    }
  }

  lemma HalfScale(X: int, Y: int, x: int, y: int, s: nat, p: nat)
    requires p % 2 == 1 && AtScale(4 * X, 8 * Y, x, y, 2 * s, p)
    ensures AtScale(X, Y, x, y, s, p)
  {
    hide Cong;
    PowTwoThree(s);
    PowTwoThree(2 * s);
    hide Pow;
    EightTimes(x, y, s);
    CancelEight(X, x * (s * s), Y, y * (s * (s * s)), p);
  }

  lemma EightTimes(x: int, y: int, s: int)
    ensures x * ((2 * s) * (2 * s)) == 4 * (x * (s * s))
    ensures y * ((2 * s) * ((2 * s) * (2 * s))) == 8 * (y * (s * (s * s)))
  {
    FourAndEight(x, s);
    assert (2 * s) * (2 * s) == 4 * (s * s);
    assert (2 * s) * (4 * (s * s)) == 8 * (s * (s * s));
    assert y * (8 * (s * (s * s))) == 8 * (y * (s * (s * s)));
  }

  lemma CancelEight(X: int, q: int, Y: int, r: int, p: nat)
    requires p % 2 == 1 && Cong(4 * X, 4 * q, p) && Cong(8 * Y, 8 * r, p)
    ensures Cong(X, q, p) && Cong(Y, r, p)
  {
    CongHalve(2 * X, 2 * q, p);
    CongHalve(X, q, p);
    CongHalve(4 * Y, 4 * r, p);
    CongHalve(2 * Y, 2 * r, p);
    CongHalve(Y, r, p);
  }

  lemma PowTwoThree(s: nat)
    ensures Pow(s, 2) == s * s && Pow(s, 3) == s * (s * s)
  {
    assert Pow(s, 1) == s;
    assert Pow(s, 2) == s * Pow(s, 1);
    assert Pow(s, 3) == s * Pow(s, 2);
  }

  // ---- Operands without a line ----

  /** What has the equation of the curve with all but the leading terms gone: y^2 = x^3. */
  ghost predicate Cusp(x: int, y: int, p: nat) { Cong(y * y, x * (x * x), p) }

  /** The state that an addition of opposite points leaves: (0, 0) and a point of the cusp. */
  ghost predicate Collapsed(x1: int, y1: int, x2: int, y2: int, p: nat)
  {
    (x1 == 0 && y1 == 0 && Cusp(x2, y2, p)) || (x2 == 0 && y2 == 0 && Cusp(x1, y1, p))
  }

  /** Opposite points have the difference (0, 0) and a sum on the cusp. */
  lemma OppositeDifference(x1: int, y1: int, x2: int, y2: int, X1: nat, Y1: nat, X2: int, Y2: int, p: nat)
    requires X1 < p && Y1 < p && x1 == x2 && Cong(y2 + y1, 0, p)
    requires DifferenceFormula(x1, y1, x2, y2, X1, Y1, X2, Y2, p)
    ensures X1 == 0 && Y1 == 0 && Cusp(X2, Y2, p)
  {
    hide Cong, LineResult, Cusp;
    assert x2 - x1 == 0 && x1 * (0 * 0) == 0 && x2 * (0 * 0) == 0 && y1 * (0 * (0 * 0)) == 0;
    assert LineResult(0, 0, 0, -y2 - y1, X1, Y1, p) && LineResult(0, 0, 0, y2 - y1, X2, Y2, p);
    CongRefl(0, p);
    CongAdd(0, 0, y2 + y1, 0, p);
    VanishingLine(-y2 - y1, X1, Y1, p);
    LineThroughOrigin(y2 - y1, X2, Y2, p);
  }

  lemma VanishingLine(e: int, x: nat, y: nat, p: nat)
    requires x < p && y < p && Cong(e, 0, p) && LineResult(0, 0, 0, e, x, y, p)
    ensures x == 0 && y == 0
  {
    hide Cong;
    CongMul(e, 0, e, 0, p);
    CongTrans(x, e * e, 0, p);
    ZeroIs(x, p);
    CongRefl(-x, p);
    CongMul(e, 0, -x, -x, p);
    CongTrans(y, e * (-x), 0, p);
    ZeroIs(y, p);
  }

  lemma LineThroughOrigin(e: int, x: int, y: int, p: nat)
    requires LineResult(0, 0, 0, e, x, y, p)
    ensures Cusp(x, y, p)
  {
    hide Cong;
    var s := e * e;
    CongRefl(0, p);
    CongAdd(0, 0, x, s, p);
    CongRefl(e, p);
    CongMul(e, e, -x, -s, p);
    CongTrans(y, e * (-x), e * (-s), p);
    CongMul(y, e * (-s), y, e * (-s), p);
    assert (e * (-s)) * (e * (-s)) == s * (s * s) by {
      assert e * (-s) == -(e * s);
      assert (-(e * s)) * (-(e * s)) == (e * s) * (e * s);
      MulAssoc(e * s, e, s);
      assert (e * s) * e == s * s;
      MulAssoc(s, s, s);
    }
    CongMul(x, s, x, s, p);
    CongMul(x, s, x * x, s * s, p);
    CongSym(x * (x * x), s * (s * s), p);
    CongTrans(y * y, s * (s * s), x * (x * x), p);
  }

  /** From a collapsed state the difference and the sum are both (0, 0). */
  lemma CollapsedDifference(x1: int, y1: int, x2: int, y2: int, X1: nat, Y1: nat, X2: nat, Y2: nat, p: nat)
    requires X1 < p && Y1 < p && X2 < p && Y2 < p
    requires Collapsed(x1, y1, x2, y2, p) && DifferenceFormula(x1, y1, x2, y2, X1, Y1, X2, Y2, p)
    ensures X1 == 0 && Y1 == 0 && X2 == 0 && Y2 == 0
  {
    hide Cong;
    if x1 == 0 && y1 == 0 && Cusp(x2, y2, p) {
      FromOrigin(x2, y2, -y2, X1, Y1, p);
      FromOrigin(x2, y2, y2, X2, Y2, p);
    } else {
      ToOrigin(x1, y1, X1, Y1, p);
      ToOrigin(x1, y1, X2, Y2, p);
    }
  }

  /** The line from (0, 0) to a point of the cusp. */
  lemma FromOrigin(x: int, y: int, e: int, X: nat, Y: nat, p: nat)
    requires X < p && Y < p && Cusp(x, y, p) && (e == y || e == -y)
    requires LineResult(0 * (x * x), x * (x * x), 0 * (x * (x * x)), e, X, Y, p)
    ensures X == 0 && Y == 0
  {
    hide Cong;
    var c := x * (x * x);
    assert 0 * (x * x) == 0 && 0 * c == 0;
    assert e * e == y * y;
    CongRefl(c, p);
    CongAdd(y * y, c, c, c, p);
    CongTrans(X, e * e - c, 0, p);
    ZeroIs(X, p);
    assert e * (0 - X) == 0;
    ZeroIs(Y, p);
  }

  /** The line from a point of the cusp to (0, 0): slope -y over -x, both ways. */
  lemma ToOrigin(x: int, y: int, X: nat, Y: nat, p: nat)
    requires X < p && Y < p && Cusp(x, y, p)
    requires var d := 0 - x; LineResult(x * (d * d), 0 * (d * d), y * (d * (d * d)), 0 - y, X, Y, p)
    ensures X == 0 && Y == 0
  {
    hide Cong;
    var d, c := 0 - x, x * (x * x);
    assert d * d == x * x && 0 * (d * d) == 0;
    assert d * (d * d) == -c && y * (-c) == -(y * c);
    var e := 0 - y;
    assert e * e == y * y;
    CongRefl(c, p);
    CongAdd(y * y, c, c, c, p);
    CongTrans(X, e * e - c - 0, 0, p);
    ZeroIs(X, p);
    assert e * (c - 0) - y * (-c) == 0;
    ZeroIs(Y, p);
  }

  /** A sum with (0, 0) as the second operand keeps the state collapsed. */
  lemma CollapsedSum(x1: int, y1: int, X1: int, Y1: int, X2: nat, Y2: nat, p: nat)
    requires X2 < p && Y2 < p && Cusp(x1, y1, p) && SumFormula(x1, y1, 0, 0, X1, Y1, X2, Y2, p)
    ensures X2 == 0 && Y2 == 0 && Cusp(X1, Y1, p)
  {
    hide Cong;
    ToOrigin(x1, y1, X2, Y2, p);
    var x, y := x1, y1;
    var d, c := 0 - x, x * (x * x);
    assert x * (d * d) == c && y * (d * (d * d)) == -(y * c) by {
      assert d * d == x * x;
      assert d * (d * d) == -c;
      assert y * (-c) == -(y * c);
    }
    CuspPower(x, y, p);
    CongMul(X1, c, X1, c, p);
    CongMul(X1, c, X1 * X1, c * c, p);
    CongMul(Y1, -(y * c), Y1, -(y * c), p);
    assert (-(y * c)) * (-(y * c)) == (y * c) * (y * c);
    CongTrans(Y1 * Y1, (y * c) * (y * c), c * (c * c), p);
    CongSym(X1 * (X1 * X1), c * (c * c), p);
    CongTrans(Y1 * Y1, c * (c * c), X1 * (X1 * X1), p);
  }

  lemma CuspPower(x: int, y: int, p: nat)
    requires Cusp(x, y, p)
    ensures var c := x * (x * x); Cong((y * c) * (y * c), c * (c * c), p)
  {
    hide Cong;
    var c := x * (x * x);
    CongRefl(c * c, p);
    CongMul(y * y, c, c * c, c * c, p);
    assert (y * c) * (y * c) == (y * y) * (c * c) by {
      MulAssoc(y * c, y, c);
      assert (y * c) * y == (y * y) * c;
      MulAssoc(y * y, c, c);
    }
  }

  /** Doubling (0, 0) leads onto the cusp. */
  lemma DoubledOrigin(z: int, a: int, h: int, X: int, Y: int, s: nat, p: nat)
    requires s < p && DoubleFormula(0, 0, z, a, h, X, Y, s, p)
    ensures s == 0 && Cusp(X, Y, p)
  {
    assert 0 * z == 0;
    hide Cong;
    ZeroIs(s, p);
    LineThroughOrigin(h, X, Y, p);
  }
}
