/** Curves: the parameters, what is assumed of the points, and what the point formulas do to
    points held at a common scale. */
module Curves {
  import opened Arithmetic
  import opened CoZ
  import opened FieldArith
  import opened Group
  import opened Octets
  import opened Primes
  import opened Vli

  /** The affine coordinates of a point; the point at infinity is (0, 0). */
  datatype Coordinates = Coordinates(x: nat, y: nat)

  /** Which of the two doubling functions: for y^2 = x^3 - 3x + b or for y^2 = x^3 + b. */
  datatype Doubling = Default | Secp256k1

  /** Points are elements of group, with coordinates x and y modulo p; order holds n; words
      have 8 * W bits. */
  datatype Curve<!P> = Curve(group: Group<P>, base: P, x: P -> nat, y: P -> nat, p: nat, doubling: Doubling,
                             W: nat, numWords: nat, numBytes: nat, numNBits: nat, order: array<nat>)

  function Width<P>(c: Curve<P>): nat { 8 * c.W }

  function At<P>(c: Curve<P>, q: P): Coordinates { Coordinates(c.x(q), c.y(q)) }

  const ORIGIN := Coordinates(0, 0)

  ghost function Order<P>(c: Curve<P>): nat
    requires c.numWords <= c.order.Length
    reads c.order
  {
    Val(c.order[..], c.numWords, Width(c))
  }

  ghost predicate ValidSizes<P>(c: Curve<P>)
    reads c.order
  {
    && c.W >= 1 && c.numNBits >= 1
    && c.numWords == (c.numNBits + (Width(c) - 1)) / Width(c)
    && c.numWords == (c.numBytes + (c.W - 1)) / c.W
    && c.numWords <= Base(Width(c))
    && c.order.Length == c.numWords && WordsTo(c.order[..], c.numWords, Width(c))
    && Pow(2, c.numNBits - 1) <= Order(c) < Pow(2, c.numNBits)
    && Order(c) % 2 == 1 && Prime(Order(c))
  }

  // ---- What is assumed of the points ----

  ghost predicate OrderLaw<P>(c: Curve<P>, q: P)
    requires c.numWords <= c.order.Length
    reads c.order
  {
    Mul(c.group, Order(c), q) == c.group.zero
  }

  ghost predicate CoordinateLaw<P>(c: Curve<P>, q: P) { c.x(q) < c.p && c.y(q) < c.p }

  ghost predicate OppositeLaw<P>(c: Curve<P>, q: P)
  {
    q != c.group.zero ==> c.x(c.group.neg(q)) == c.x(q) && Cong(c.y(c.group.neg(q)) + c.y(q), 0, c.p)
  }

  /** Points with the same x-coordinate are equal or opposite, and equal if y is the same. */
  ghost predicate PointLaw<P>(c: Curve<P>, q: P, r: P)
  {
    q != c.group.zero && r != c.group.zero && c.x(q) == c.x(r) ==>
      (q == r || q == c.group.neg(r)) && (c.y(q) == c.y(r) ==> q == r)
  }

  ghost predicate ChordLaw<P>(c: Curve<P>, q: P, r: P)
  {
    Separate(c.group, q, r) ==>
      var s := c.group.add(q, r);
      Chord(c.x(q), c.y(q), c.x(r), c.y(r), c.x(s), c.y(s), c.p)
  }

  function Linear(doubling: Doubling): int { match doubling case Default => -3 case Secp256k1 => 0 }

  ghost predicate TangentLaw<P>(c: Curve<P>, q: P)
  {
    q != c.group.zero ==>
      var s := c.group.add(q, q);
      Tangent(c.x(q), c.y(q), Linear(c.doubling), c.x(s), c.y(s), c.p)
  }

  ghost predicate ValidPoints<P(!new)>(c: Curve<P>)
  {
    && IsGroup(c.group) && Prime(c.p) && c.p % 2 == 1 && c.p <= OctetPow(c.numBytes)
    && c.base != c.group.zero && c.x(c.base) != 0 && At(c, c.group.zero) == ORIGIN
    && (forall q :: CoordinateLaw(c, q))
    && (forall q :: OppositeLaw(c, q))
    && (forall q, r :: PointLaw(c, q, r))
    && (forall q, r :: ChordLaw(c, q, r))
    && (forall q :: TangentLaw(c, q))
  }

  /** The points form a commutative group by the chord and tangent rule modulo an odd prime
      that numBytes octets can hold, and an odd prime n of numNBits bits annihilates them. */
  ghost predicate ValidCurve<P(!new)>(c: Curve<P>)
    reads c.order
  {
    ValidSizes(c) && ValidPoints(c) && forall q :: OrderLaw(c, q)
  }

  // ---- Sizes ----

  /** The order fills its words up to the top one. */
  lemma OrderFacts<P>(c: Curve<P>)
    requires ValidSizes(c)
    ensures c.numWords >= 1 && c.order[c.numWords - 1] != 0
    ensures 2 <= c.numNBits <= c.numWords * Width(c) && Order(c) >= 3
    ensures Order(c) < Pow(Base(Width(c)), c.numWords)
    ensures Pow(2, c.numWords * Width(c)) == Pow(Base(Width(c)), c.numWords)
    ensures c.numBytes <= c.numWords * c.W && (c.numNBits + 7) / 8 <= c.numWords * c.W
  {
    hide Pow, Val, Prime;
    SmallestOrder(c);
    WordsSuffice(c);
    PowMul(2, Width(c), c.numWords);
    assert Width(c) * c.numWords == c.numWords * Width(c);
    ValBound(c.order[..], c.numWords, Width(c));
    TopWordUsed(c);
  }

  lemma WordsSuffice<P>(c: Curve<P>)
    requires ValidSizes(c)
    ensures c.numWords >= 1 && (c.numWords - 1) * Width(c) <= c.numNBits - 1 && c.numNBits <= c.numWords * Width(c)
    ensures c.numBytes <= c.numWords * c.W && (c.numNBits + 7) / 8 <= c.numWords * c.W
  {
    hide Pow, Val, Prime;
    var n, nb := c.numWords, c.numNBits;
    CeilDiv(nb, Width(c), n);
    CeilDiv(c.numBytes, c.W, n);
    OctetsOfOrder(nb, c.W);
    CeilDiv((nb + 7) / 8, c.W, n);
  }

  lemma TopWordUsed<P>(c: Curve<P>)
    requires ValidSizes(c) && c.numWords >= 1
    ensures c.order[c.numWords - 1] != 0
  {
    hide Pow, Val, Prime;
    var n, w, nb := c.numWords, Width(c), c.numNBits;
    WordsSuffice(c);
    if c.order[n - 1] == 0 {
      ValStep(c.order[..], n - 1, w);
      ValBound(c.order[..], n - 1, w);
      PowMul(2, w, n - 1);
      assert w * (n - 1) == (n - 1) * w;
      PowMonotonic(2, (n - 1) * w, nb - 1);
    }
  }

  lemma SmallestOrder<P>(c: Curve<P>)
    requires ValidSizes(c)
    ensures c.numNBits >= 2 && Order(c) >= 3
  {
    assert Pow(2, 1) == 2;
    hide Val;
  }

  lemma CeilDiv(x: int, m: int, q: int)
    requires m >= 1 && q == (x + (m - 1)) / m
    ensures x <= q * m && (x >= 1 ==> q >= 1 && 0 <= (q - 1) * m <= x - 1)
  {
    var r := (x + (m - 1)) % m;
    assert x + (m - 1) == m * q + r;
    assert m * q == q * m;
    MulDist(q, 1, m);
    if x >= 1 {
      if q < 1 {
        MulLe(q, 0, m);
      }
      MulLe(0, q - 1, m);
    }
  }

  /** A number of at most numBytes octets fits in numWords words. */
  lemma OctetsFit(num: nat, n: nat, W: nat)
    requires num <= n * W
    ensures OctetPow(num) <= Pow(Base(8 * W), n)
  {
    hide Pow;
    assert 8 * W * n == 8 * (n * W);
    PowMul(2, 8 * W, n);
    PowMonotonic(2, 8 * num, 8 * (n * W));
  }

  // ---- Points and their coordinates ----

  /** The registers (X, Y) hold the point q at scale z. */
  ghost predicate Holds<P>(c: Curve<P>, q: P, z: nat, X: nat, Y: nat)
  {
    && q != c.group.zero && 0 < z < c.p && X < c.p && Y < c.p
    && AtScale(X, Y, c.x(q), c.y(q), z, c.p)
  }

  lemma OwnDouble<P(!new)>(c: Curve<P>, q: P)
    requires ValidCurve(c) && q != c.group.zero
    ensures c.group.add(q, q) != c.group.zero && q != c.group.neg(q)
  {
    hide Mul, Val, Pow, IsGroup, Prime;
    assert OrderLaw(c, q);
    NoHalfTurn(c.group, Order(c), q);
  }

  /** No point of odd order lies on the x-axis. */
  lemma NotOnAxis<P(!new)>(c: Curve<P>, q: P)
    requires ValidCurve(c) && q != c.group.zero
    ensures 0 < c.y(q) < c.p
  {
    hide Mul, Val, Pow, IsGroup, Prime;
    OwnDouble(c, q);
    var n := c.group.neg(q);
    assert OppositeLaw(c, q) && CoordinateLaw(c, q) && CoordinateLaw(c, n);
    OnlyInverse(c.group, c.group.zero, q);
    AddZero(c.group, q);
    OnlyInverse(c.group, q, q);
    assert PointLaw(c, q, n);
    if c.y(q) == 0 {
      CongUnique(c.y(n), 0, c.p);
    }
  }

  lemma DistinctX<P(!new)>(c: Curve<P>, q: P, r: P)
    requires ValidCurve(c) && Separate(c.group, q, r)
    ensures !Cong(c.x(r) - c.x(q), 0, c.p)
  {
    hide Cong, Mul, Val, Pow, IsGroup, Prime;
    assert CoordinateLaw(c, q) && CoordinateLaw(c, r) && PointLaw(c, q, r);
    if Cong(c.x(r) - c.x(q), 0, c.p) {
      CongRefl(c.x(q), c.p);
      CongAdd(c.x(r) - c.x(q), 0, c.x(q), c.x(q), c.p);
      CongUnique(c.x(r), c.x(q), c.p);
    }
  }

  /** A scale of z^k times a factor that is not 0 is not 0. */
  lemma {:induction false} NonZeroPower(z: nat, k: nat, p: nat)
    requires Prime(p) && 0 < z < p
    ensures !Cong(Pow(z, k), 0, p)
  {
    if k == 0 {
      if Cong(1, 0, p) {
        CongUnique(1, 0, p);
      }
    } else {
      NonZeroPower(z, k - 1, p);
      if Cong(Pow(z, k), 0, p) {
        ZeroFactor(z, Pow(z, k - 1), p);
        CongUnique(z, 0, p);
      }
    }
  }

  lemma NonZeroScale(s: nat, d: int, z: nat, k: nat, p: nat)
    requires Prime(p) && 0 < z < p && s < p && Scaled(s, d, z, k, p) && !Cong(d, 0, p)
    ensures s != 0
  {
    hide Cong, Pow, Prime;
    if s == 0 {
      CongSym(0, d * Pow(z, k), p);
      ZeroFactor(d, Pow(z, k), p);
      NonZeroPower(z, k, p);
    }
  }

  lemma SlopeCong(x1: int, y1: int, x2: int, d: int, e: int, e': int, xs: int, ys: int, p: nat)
    requires LineSum(x1, y1, x2, d, e, xs, ys, p) && Cong(e, e', p)
    ensures LineSum(x1, y1, x2, d, e', xs, ys, p)
  {
    hide Cong;
    CongMul(e, e', e, e', p);
    CongTrans((xs + x1 + x2) * (d * d), e * e, e' * e', p);
    CongRefl(x1 - xs, p);
    CongMul(e, e', x1 - xs, x1 - xs, p);
    CongTrans((ys + y1) * d, e * (x1 - xs), e' * (x1 - xs), p);
  }

  /** XYcZ_add on separate points: Q and Q + R, at the scale z (X2 - X1). */
  lemma SumHolds<P(!new)>(c: Curve<P>, q: P, r: P, z: nat, X1: nat, Y1: nat, X2: nat, Y2: nat,
                          X1': nat, Y1': nat, X3: nat, Y3: nat, s: nat)
    requires ValidCurve(c) && Separate(c.group, q, r)
    requires Holds(c, q, z, X1, Y1) && Holds(c, r, z, X2, Y2)
    requires X1' < c.p && Y1' < c.p && X3 < c.p && Y3 < c.p && s < c.p && Cong(s, z * (X2 - X1), c.p)
    requires SumFormula(X1, Y1, X2, Y2, X1', Y1', X3, Y3, c.p)
    ensures Holds(c, q, s, X1', Y1') && Holds(c, c.group.add(q, r), s, X3, Y3)
  {
    hide Cong, Mul, Val, Pow, IsGroup, Prime, Scaled, SumFormula, Chord;
    var sum := c.group.add(q, r);
    assert ChordLaw(c, q, r);
    SeparateParts(c.group, q, r);
    DistinctX(c, q, r);
    SumAtScale(X1, Y1, X2, Y2, c.x(q), c.y(q), c.x(r), c.y(r), z, X1', Y1', X3, Y3, c.x(sum), c.y(sum), s, c.p);
    CommonParts(X1, Y1, X2, Y2, c.x(q), c.y(q), c.x(r), c.y(r), s, z, c.p);
    NonZeroScale(s, c.x(r) - c.x(q), z, 3, c.p);
  }

  /** XYcZ_addC on separate points: Q - R and Q + R, at the scale z (X2 - X1). */
  lemma DifferenceHolds<P(!new)>(c: Curve<P>, q: P, r: P, z: nat, X1: nat, Y1: nat, X2: nat, Y2: nat,
                                 X3': nat, Y3': nat, X3: nat, Y3: nat, s: nat)
    requires ValidCurve(c) && Separate(c.group, q, r)
    requires Holds(c, q, z, X1, Y1) && Holds(c, r, z, X2, Y2)
    requires X3' < c.p && Y3' < c.p && X3 < c.p && Y3 < c.p && s < c.p && Cong(s, z * (X2 - X1), c.p)
    requires DifferenceFormula(X1, Y1, X2, Y2, X3', Y3', X3, Y3, c.p)
    ensures Holds(c, c.group.add(q, c.group.neg(r)), s, X3', Y3') && Holds(c, c.group.add(q, r), s, X3, Y3)
  {
    hide Cong, Mul, Val, Pow, IsGroup, Prime, Scaled, DifferenceFormula;
    var sum, dif := c.group.add(q, r), c.group.add(q, c.group.neg(r));
    SeparateParts(c.group, q, r);
    assert ChordLaw(c, q, r);
    OppositeChord(c, q, r);
    DistinctX(c, q, r);
    DifferenceAtScale(X1, Y1, X2, Y2, c.x(q), c.y(q), c.x(r), c.y(r), z, X3', Y3', X3, Y3,
                      c.x(dif), c.y(dif), c.x(sum), c.y(sum), s, c.p);
    CommonParts(X1, Y1, X2, Y2, c.x(q), c.y(q), c.x(r), c.y(r), s, z, c.p);
    NonZeroScale(s, c.x(r) - c.x(q), z, 3, c.p);
  }

  lemma OppositeChord<P(!new)>(c: Curve<P>, q: P, r: P)
    requires ValidCurve(c) && Separate(c.group, q, r)
    ensures var dif := c.group.add(q, c.group.neg(r));
            Chord(c.x(q), c.y(q), c.x(r), 0 - c.y(r), c.x(dif), c.y(dif), c.p)
  {
    hide Cong, Mul, Val, Pow, IsGroup, Prime, LineSum;
    var n := c.group.neg(r);
    var dif := c.group.add(q, n);
    SeparateParts(c.group, q, r);
    assert ChordLaw(c, q, n) && OppositeLaw(c, r);
    CongRefl(c.y(r) + c.y(q), c.p);
    CongAdd(c.y(n) + c.y(r), 0, c.y(r) + c.y(q), c.y(r) + c.y(q), c.p);
    SlopeCong(c.x(q), c.y(q), c.x(r), c.x(r) - c.x(q), c.y(n) - c.y(q), 0 - c.y(r) - c.y(q), c.x(dif), c.y(dif), c.p);
  }

  /** Doubling, at the scale Y z. */
  lemma DoubleHolds<P(!new)>(c: Curve<P>, q: P, z: nat, X: nat, Y: nat, h: nat, X3: nat, Y3: nat, s: nat)
    requires ValidCurve(c) && Holds(c, q, z, X, Y) && X3 < c.p && Y3 < c.p && s < c.p
    requires DoubleFormula(X, Y, z, Linear(c.doubling), h, X3, Y3, s, c.p)
    ensures Holds(c, c.group.add(q, q), s, X3, Y3)
  {
    hide Cong, Mul, Val, Pow, IsGroup, Scaled, DoubleFormula;
    var sum := c.group.add(q, q);
    assert TangentLaw(c, q);
    OwnDouble(c, q);
    DoubleAtScale(X, Y, c.x(q), c.y(q), z, Linear(c.doubling), h, X3, Y3, s, c.x(sum), c.y(sum), c.p);
    NotOnAxis(c, q);
    if Cong(c.y(q), 0, c.p) {
      CongUnique(c.y(q), 0, c.p);
    }
    NonZeroScale(s, c.y(q), z, 4, c.p);
  }

  /** Opposite points at one scale have the same X and opposite Y. */
  lemma OppositeRegisters<P(!new)>(c: Curve<P>, q: P, r: P, z: nat, X1: nat, Y1: nat, X2: nat, Y2: nat)
    requires ValidCurve(c) && q == c.group.neg(r) && Holds(c, q, z, X1, Y1) && Holds(c, r, z, X2, Y2)
    ensures X1 == X2 && Cong(Y2 + Y1, 0, c.p)
  {
    hide Cong, Mul, Val, Pow, IsGroup, Prime;
    assert OppositeLaw(c, r);
    SameScaled(X1, X2, c.x(r), z, 2, c.p);
    hide Scaled;
    ScaledSum(Y2, c.y(r), Y1, c.y(q), 3, z, c.p);
    ScaledCong(Y2 + Y1, Y2 + Y1, c.y(r) + c.y(q), 0, z, 3, c.p) by { CongRefl(Y2 + Y1, c.p); }
    ScaledZero(Y2 + Y1, z, 3, c.p);
  }

  lemma ScaledZero(a: int, z: nat, k: nat, p: nat)
    requires Scaled(a, 0, z, k, p)
    ensures Cong(a, 0, p)
  {}

  lemma SameScaled(a: nat, b: nat, v: int, z: nat, k: nat, p: nat)
    requires a < p && b < p && Scaled(a, v, z, k, p) && Scaled(b, v, z, k, p)
    ensures a == b
  {
    hide Cong, Pow;
    CongSym(b, v * Pow(z, k), p);
    CongTrans(a, v * Pow(z, k), b, p);
    CongUnique(a, b, p);
  }

  /** Applying 1 / z gives the affine coordinates back. */
  lemma Unscaled<P(!new)>(c: Curve<P>, q: P, z: nat, X: nat, Y: nat, w: int, x: nat, y: nat)
    requires ValidCurve(c) && Holds(c, q, z, X, Y) && x < c.p && y < c.p && Cong(w * z, 1, c.p)
    requires Cong(x, X * (w * w), c.p) && Cong(y, Y * (w * (w * w)), c.p)
    ensures x == c.x(q) && y == c.y(q)
  {
    hide Cong, Mul, Val, IsGroup, Prime;
    hide Scaled, Pow;
    assert CoordinateLaw(c, q);
    UnscaledPair(X, Y, c.x(q), c.y(q), z, w, w * z, x, y, c.p);
  }

  lemma UnscaledPair(X: int, Y: int, x: nat, y: nat, z: nat, w: int, one: int, x': nat, y': nat, p: nat)
    requires AtScale(X, Y, x, y, z, p) && x < p && y < p && x' < p && y' < p && one == w * z && Cong(one, 1, p)
    requires Cong(x', X * (w * w), p) && Cong(y', Y * (w * (w * w)), p)
    ensures x' == x && y' == y
  {
    hide Cong;
    PowTwoThree(z);
    hide Pow;
    Powers(w, z, one);
    CongMul(one, 1, one, 1, p);
    CongMul(one, 1, one * one, 1, p);
    UnscaledBy(X, x, Pow(z, 2), w * w, one * one, x', p);
    UnscaledBy(Y, y, Pow(z, 3), w * (w * w), one * (one * one), y', p);
  }

  lemma Powers(w: int, z: int, u: int)
    requires u == w * z
    ensures (w * w) * (z * z) == u * u
    ensures (w * (w * w)) * (z * (z * z)) == u * (u * u)
  {
    assert (w * w) * (z * z) == u * u;
    assert (w * (w * w)) * (z * (z * z)) == u * ((w * w) * (z * z));
  }

  lemma UnscaledBy(X: int, x: nat, zk: int, wk: int, one: int, result: nat, p: nat)
    requires x < p && result < p && Cong(X, x * zk, p) && Cong(result, X * wk, p)
    requires wk * zk == one && Cong(one, 1, p)
    ensures result == x
  {
    hide Cong;
    CongRefl(wk, p);
    CongMul(X, x * zk, wk, wk, p);
    assert (x * zk) * wk == x * one;
    CongRefl(x, p);
    CongMul(x, x, one, 1, p);
    CongTrans(result, X * wk, x * one, p);
    CongTrans(result, x * one, x * 1, p);
    CongUnique(result, x, p);
  }

  /** double_jacobian of this curve. */
  method DoubleJacobian<P>(c: Curve<P>, x1: nat, y1: nat, z1: nat)
    returns (X1: nat, Y1: nat, Z1: nat, ghost h: nat)
    requires x1 < c.p && y1 < c.p && z1 < c.p && c.p % 2 == 1
    ensures X1 < c.p && Y1 < c.p && Z1 < c.p
    ensures z1 == 0 ==> X1 == x1 && Y1 == y1 && Z1 == 0
    ensures z1 != 0 ==> DoubleFormula(x1, y1, z1, Linear(c.doubling), h, X1, Y1, Z1, c.p)
  {
    match c.doubling {
      case Default => X1, Y1, Z1, h := DoubleDefault(x1, y1, z1, c.p);
      case Secp256k1 => X1, Y1, Z1, h := DoubleSecp256k1(x1, y1, z1, c.p);
    }
  }
}
