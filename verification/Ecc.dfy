/** Scalar regularisation, the Montgomery ladder with its exceptional scalars, public keys and
    shared secrets. */
module Ecc {
  import opened Arithmetic
  import opened Bits
  import opened CoZ
  import opened Curves
  import opened FieldArith
  import opened Group
  import opened Octets
  import opened Primes
  import opened Vli
  import opened VliModular

  /** Only multiples of n annihilate a point that is not the one at infinity. */
  lemma PointOrder<P(!new)>(c: Curve<P>, k: nat, q: P)
    requires ValidCurve(c) && q != c.group.zero
    ensures Mul(c.group, k, q) == c.group.zero <==> k % Order(c) == 0
  {
    var g, n := c.group, Order(c);
    hide Mul, Pow, Val, ValidPoints;
    assert IsGroup(c.group) && OrderLaw(c, q) by { UsefulLaws(c, q); }
    MulOrder(g, k, n, q);
    OneTimes(g, q);
    var r := k % n;
    if r != 0 && Mul(g, r, q) == g.zero {
      var u := InverseMod(r, n);
      var v := u % n;
      CongMod(u, n);
      CongRefl(r, n);
      CongMul(v, u, r, r, n);
      CongTrans(v * r, u * r, 1, n);
      MulLe(0, v, r);
      MulProduct(g, v, r, v * r, q);
      MulZero(g, v);
      MulCong(g, v * r, 1, n, q);
    }
  }

  lemma UsefulLaws<P(!new)>(c: Curve<P>, q: P)
    requires ValidCurve(c)
    ensures IsGroup(c.group) && OrderLaw(c, q) && CoordinateLaw(c, q) && Prime(c.p) && c.p % 2 == 1
    ensures c.p <= OctetPow(c.numBytes) && c.x(c.group.zero) == 0 && c.y(c.group.zero) == 0
    ensures c.base != c.group.zero && c.x(c.base) != 0
  {}

  lemma OneTimes<P(!new)>(g: Group<P>, p: P)
    requires IsGroup(g)
    ensures Mul(g, 0, p) == g.zero && Mul(g, 1, p) == p && Mul(g, 2, p) == g.add(p, p)
  {
    AddZero(g, p);
    assert Mul(g, 1, p) == g.add(Mul(g, 0, p), p);
    assert Mul(g, 2, p) == g.add(Mul(g, 1, p), p);
  }

  // ---- Scalar regularisation ----

  /** The number whose bits below nb are those of s, with bit nb set and none above. */
  function WithTopBit(s: nat, nb: nat): (r: nat)
    ensures Pow(2, nb) <= r < 2 * Pow(2, nb)
  {
    Pow(2, nb) + s % Pow(2, nb)
  }

  /** The multiplier that the regularised scalar stands for in the ladder: of k + n and
      k + 2n, kept in `size` values, the one with bit nb set, where an overflow of the first
      sum counts as that bit. */
  function LadderScalar(k: nat, n: nat, nb: nat, size: nat): nat
    requires size > 0
  {
    var k0 := (k + n) % size;
    if TakesFirst(k, n, nb, size) then WithTopBit(k0, nb) else WithTopBit((k0 + n) % size, nb)
  }

  predicate TakesFirst(k: nat, n: nat, nb: nat, size: nat)
    requires size > 0
  {
    size <= k + n || (Pow(2, nb) < size && Bit((k + n) % size, nb))
  }

  /** For every key of at most nb bits the multiplier is the key plus once or twice the
      order, with bit nb set and none above. */
  lemma RegularisedScalar(k: nat, n: nat, nb: nat, size: nat)
    requires nb >= 1 && Pow(2, nb - 1) <= n < Pow(2, nb) && k < Pow(2, nb) && Pow(2, nb) <= size
    requires Pow(2, nb) < size ==> 2 * Pow(2, nb) <= size
    ensures LadderScalar(k, n, nb, size) == k + (if TakesFirst(k, n, nb, size) then n else 2 * n)
    ensures Pow(2, nb) <= LadderScalar(k, n, nb, size) < 2 * Pow(2, nb)
    ensures Cong(LadderScalar(k, n, nb, size), k, n) && (TakesFirst(k, n, nb, size) <==> Pow(2, nb) <= k + n)
  {
    assert Pow(2, nb) == 2 * Pow(2, nb - 1);
    hide Pow;
    ChosenSum(k, n, Pow(2, nb), size, (k + n) % size, TakesFirst(k, n, nb, size));
    CongBy(k + n, k, n, 1);
    CongBy(k + 2 * n, k, n, 2);
  }

  lemma ChosenSum(k: int, n: int, p: int, size: int, k0: int, first: bool)
    requires 0 <= k < p && 0 <= n < p <= 2 * n + k && (p == size || 2 * p <= size) && k0 == (k + n) % size
    requires first <==> size <= k + n || (p < size && (k0 / p) % 2 == 1)
    ensures 0 <= k0 && (first ==> p + k0 % p == k + n)
    ensures 0 <= (k0 + n) % size && (!first ==> p + (k0 + n) % size % p == k + 2 * n && k + n < p)
  {
    if size <= k + n {
      DivModUnique(k + n, 1, k + n - size, size);
      DivModUnique(k0, 0, k0, p);
    } else {
      DivModUnique(k + n, 0, k + n, size);
      if p < size && p <= k0 {
        DivModUnique(k0, 1, k0 - p, p);
      } else {
        DivModUnique(k0, 0, k0, p);
        SecondSum(k, n, p, size);
      }
    }
  }

  lemma SecondSum(k: int, n: int, p: int, size: int)
    requires 0 <= k && 0 <= n < p && k + n < p <= k + 2 * n && (p == size || 2 * p <= size)
    ensures 0 <= (k + n + n) % size && p + (k + n + n) % size % p == k + 2 * n
  {
    if p == size {
      DivModUnique(k + n + n, 1, k + n + n - p, p);
      DivModUnique(k + n + n - p, 0, k + n + n - p, p);
    } else {
      DivModUnique(k + n + n, 0, k + n + n, size);
      DivModUnique(k + n + n, 1, k + n + n - p, p);
    }
  }

  /** k0 = k + n and k1 = k + 2n, and whether k0 is the one with bit num_n_bits set (its
      carry counting as that bit). k may be the same array as k0. */
  method RegularizeK<P(!new)>(k: array<nat>, k0: array<nat>, k1: array<nat>, c: Curve<P>) returns (carry: bool)
    requires ValidSizes(c) && WordsTo(k[..], c.numWords, Width(c))
    requires k0.Length >= c.numWords && k1.Length >= c.numWords
    requires k0 != k1 && k0 != c.order && k1 != c.order
    modifies k0, k1
    ensures WordsTo(k0[..], c.numWords, Width(c)) && WordsTo(k1[..], c.numWords, Width(c))
    ensures WithTopBit(Val((if carry then k0 else k1)[..], c.numWords, Width(c)), c.numNBits)
         == LadderScalar(old(Val(k[..], c.numWords, Width(c))), Order(c), c.numNBits, Pow(Base(Width(c)), c.numWords))
  {
    var n, w := c.numWords, Width(c);
    hide Pow, Val, Bit;
    ghost var x, size := Val(k[..], n, w), Pow(Base(w), n);
    OrderFacts(c);
    PowGap(c.numNBits, n * w);
    ValBound(k[..], n, w);
    var carry0 := VliAdd(k0, k, c.order, n, w);
    carry := carry0 != 0;
    ValBound(k0[..], n, w);
    AddWithCarry(x + Order(c), carry0, Val(k0[..], n, w), size);
    if !carry && c.numNBits < n * w {
      carry := VliTestBit(k0, n, c.numNBits, w);
    }
    ghost var first := Val(k0[..], n, w);
    ghost var before := k0[..];
    var carry1 := VliAdd(k1, k0, c.order, n, w);
    ValBound(k1[..], n, w);
    AddWithCarry(first + Order(c), carry1, Val(k1[..], n, w), size);
    assert k0[..] == before;
  }

  lemma AddWithCarry(sum: int, carry: int, v: int, size: int)
    requires 0 <= v < size && v + carry * size == sum && 0 <= carry <= 1
    ensures v == sum % size && (carry == 1 <==> size <= sum)
  {
    DivModUnique(sum, carry, v, size);
  }

  lemma PowGap(x: nat, y: nat)
    requires x <= y
    ensures Pow(2, x) <= Pow(2, y) && (x < y <==> Pow(2, x) < Pow(2, y))
    ensures x < y ==> 2 * Pow(2, x) <= Pow(2, y)
  {
    PowMonotonic(2, x, y);
    if x < y {
      PowMonotonic(2, x + 1, y);
    }
  }

  // ---- The Montgomery ladder ----

  /** t without its i lowest bits. */
  function HighBits(t: nat, i: nat): nat { t / Pow(2, i) }

  /** The bits of the ladder's multiplier, taken from the top. */
  lemma LadderBit(s: nat, nb: nat, i: nat)
    requires i < nb
    ensures HighBits(WithTopBit(s, nb), i)
         == 2 * HighBits(WithTopBit(s, nb), i + 1) + (if Bit(s, i) then 1 else 0)
  {
    var t := WithTopBit(s, nb);
    NextBit(t, i);
    DivModUnique(t, 1, s % Pow(2, nb), Pow(2, nb));
    BitOfRemainder(t, i, nb);
    BitOfRemainder(s, i, nb);
  }

  lemma NextBit(t: nat, i: nat)
    ensures HighBits(t, i) == 2 * HighBits(t, i + 1) + (if Bit(t, i) then 1 else 0)
  {
    ModSplit(t, Pow(2, i), 2);
    assert Pow(2, i + 1) == Pow(2, i) * 2;
  }

  /** One ladder step: from k P and (k + 1) P to 2k P and (2k + 1) P, or to (2k + 1) P and
      (2k + 2) P. */
  lemma LadderStep<P(!new)>(g: Group<P>, k: nat, p: P, r0: P, r1: P)
    requires IsGroup(g) && r0 == Mul(g, k, p) && r1 == Mul(g, k + 1, p)
    ensures g.add(r1, r0) == g.add(r0, r1) == Mul(g, 2 * k + 1, p)
    ensures g.add(g.add(r1, r0), g.add(r1, g.neg(r0))) == Mul(g, 2 * k + 2, p)
    ensures g.add(g.add(r0, r1), g.add(r0, g.neg(r1))) == Mul(g, 2 * k, p)
  {
    hide Mul;
    MulSum(g, k, k + 1, p);
    MulSum(g, k + 1, k + 1, p);
    MulSum(g, k, k, p);
    Comm(g, r0, r1);
    SumPlusDifference(g, r0, r1);
    SumPlusDifference(g, r1, r0);
  }

  /** With the bits of m above bit i taken, adding the two registers does not meet opposite
      points: their sum is not a multiple of n. */
  ghost predicate Turn(m: nat, i: nat, n: nat)
    requires n > 0
  {
    (2 * HighBits(m, i) + 1) % n != 0
  }

  /** No step of the ladder from bit nb down to bit `from` meets opposite points. The other
      operands without a line, infinity and equal points, come up only after those. */
  ghost predicate Clear(m: nat, from: nat, nb: nat, n: nat)
    requires n > 0
  {
    forall i :: from <= i <= nb ==> Turn(m, i, n)
  }

  /** What the ladder reaches for multiplier m and point q: m q, or the point at infinity. */
  ghost function Reached<P>(c: Curve<P>, m: nat, nb: nat, q: P): P
    requires c.numWords <= c.order.Length && Order(c) > 0
    reads c.order
  {
    if c.x(q) != 0 && Clear(m, 1, nb, Order(c)) then Mul(c.group, m, q) else c.group.zero
  }

  /** The registers hold k q and (k + 1) q, or have collapsed. */
  ghost predicate Registers<P>(c: Curve<P>, q: P, k: nat, live: bool, z: nat, x0: nat, y0: nat, x1: nat, y1: nat)
  {
    && x0 < c.p && y0 < c.p && x1 < c.p && y1 < c.p
    && if live then q != c.group.zero && Holds(c, Mul(c.group, k, q), z, x0, y0)
                    && Holds(c, Mul(c.group, k + 1, q), z, x1, y1)
       else Collapsed(x0, y0, x1, y1, c.p)
  }

  /** Between the two halves of a step: the difference of the registers, q up to its sign, in
      the one that `bit` names and their sum in the other. */
  ghost predicate HalfWay<P>(c: Curve<P>, q: P, k: nat, bit: bool, live: bool, z: nat, xd: nat, yd: nat, xs: nat, ys: nat)
  {
    && xd < c.p && yd < c.p && xs < c.p && ys < c.p
    && if live then
         var d := if bit then q else c.group.neg(q);
         && q != c.group.zero && Separate(c.group, Mul(c.group, 2 * k + 1, q), d)
         && Holds(c, d, z, xd, yd) && Holds(c, Mul(c.group, 2 * k + 1, q), z, xs, ys)
       else xd == 0 && yd == 0 && Cusp(xs, ys, c.p)
  }

  /** P => 2 P, P', with the given initial Z. */
  method XYcZInitialDouble<P(!new)>(c: Curve<P>, point: Coordinates, initialZ: nat, ghost q: P)
    returns (X1: nat, Y1: nat, X2: nat, Y2: nat, ghost scale: nat)
    requires ValidCurve(c) && point == At(c, q) && 0 < initialZ < c.p
    ensures X1 < c.p && Y1 < c.p && X2 < c.p && Y2 < c.p && (q == c.group.zero ==> X2 == 0 && Y2 == 0)
    ensures Registers(c, q, 1, q != c.group.zero, scale, X2, Y2, X1, Y1)
  {
    hide Pow, Val, Mul, Cong, IsGroup, Prime, Scaled, DoubleFormula, ValidPoints;
    UsefulLaws(c, q);
    var z := initialZ;
    X1, Y1 := ApplyZ(point.x, point.y, z, c.p);
    ghost var h;
    ghost var x, y := X1, Y1;
    X1, Y1, z, h := DoubleJacobian(c, X1, Y1, z);
    X2, Y2 := ApplyZ(point.x, point.y, z, c.p);
    scale := z;
    OneTimes(c.group, q);
    if q != c.group.zero {
      AppliedHolds(c, q, initialZ, x, y);
      DoubleHolds(c, q, initialZ, x, y, h, X1, Y1, z);
      AppliedHolds(c, q, z, X2, Y2);
    } else {
      AppliedZero(initialZ, x, y, c.p);
      AppliedZero(z, X2, Y2, c.p);
      DoubledOrigin(initialZ, Linear(c.doubling), h, X1, Y1, z, c.p);
    }
  }

  lemma AppliedHolds<P(!new)>(c: Curve<P>, q: P, z: nat, X: nat, Y: nat)
    requires q != c.group.zero && 0 < z < c.p && X < c.p && Y < c.p
    requires Cong(X, c.x(q) * (z * z), c.p) && Cong(Y, c.y(q) * (z * (z * z)), c.p)
    ensures Holds(c, q, z, X, Y)
  {
    PowTwoThree(z);
    hide Pow, Cong;
  }

  lemma AppliedZero(z: nat, X: nat, Y: nat, p: nat)
    requires X < p && Y < p && Cong(X, 0 * (z * z), p) && Cong(Y, 0 * (z * (z * z)), p)
    ensures X == 0 && Y == 0
  {
    hide Cong;
    assert 0 * (z * z) == 0 && 0 * (z * (z * z)) == 0;
    ZeroIs(X, p);
    ZeroIs(Y, p);
  }

  /** Everything times 0. */
  lemma ScaledAway(x: nat, y: nat, X: nat, Y: nat, p: nat)
    requires X < p && Y < p && Cong(X, x * (0 * 0), p) && Cong(Y, y * (0 * (0 * 0)), p)
    ensures X == 0 && Y == 0
  {
    ZeroIs(X, p);
    ZeroIs(Y, p);
  }

  /** The first half of a step. */
  lemma StepDown<P(!new)>(c: Curve<P>, q: P, k: nat, bit: bool, live: bool, z: nat, xd: nat, yd: nat, xs: nat, ys: nat,
                          Xd: nat, Yd: nat, Xs: nat, Ys: nat, s: nat, n: nat)
    requires ValidCurve(c) && n == Order(c) && n > 0 && Xd < c.p && Yd < c.p && Xs < c.p && Ys < c.p
    requires if bit then Registers(c, q, k, live, z, xs, ys, xd, yd) else Registers(c, q, k, live, z, xd, yd, xs, ys)
    requires DifferenceFormula(xd, yd, xs, ys, Xd, Yd, Xs, Ys, c.p) && s < c.p && Cong(s, z * (xs - xd), c.p)
    ensures HalfWay(c, q, k, bit, live && (2 * k + 1) % n != 0, s, Xd, Yd, Xs, Ys)
  {
    hide Pow, Val, Mul, Cong, IsGroup, Prime, Scaled, DifferenceFormula, ValidPoints, ValidSizes, Holds, Collapsed;
    UsefulLaws(c, q);
    if live {
      var r0, r1 := Mul(c.group, k, q), Mul(c.group, k + 1, q);
      var a, b := if bit then r1 else r0, if bit then r0 else r1;
      assert Holds(c, a, z, xd, yd) && Holds(c, b, z, xs, ys);
      LadderStep(c.group, k, q, r0, r1);
      PointOrder(c, 2 * k + 1, q);
      OnlyInverse(c.group, a, b);
      Neighbours(c.group, k, q);
      if (2 * k + 1) % n == 0 {
        OppositeRegisters(c, a, b, z, xd, yd, xs, ys);
        OppositeDifference(xd, yd, xs, ys, Xd, Yd, Xs, Ys, c.p);
      } else {
        SeparateRegisters(c, q, k, a, b, z, xd, yd, xs, ys);
        DifferenceHolds(c, a, b, z, xd, yd, xs, ys, Xd, Yd, Xs, Ys, s);
      }
    } else {
      CollapsedDifference(xd, yd, xs, ys, Xd, Yd, Xs, Ys, c.p) by {
        assert Collapsed(xd, yd, xs, ys, c.p) by { CollapsedSym(xs, ys, xd, yd, c.p); }
      }
      CuspAtOrigin(c.p);
    }
  }

  lemma CollapsedSym(x0: nat, y0: nat, x1: nat, y1: nat, p: nat)
    ensures Collapsed(x0, y0, x1, y1, p) <==> Collapsed(x1, y1, x0, y0, p)
  {}

  lemma CuspAtOrigin(p: nat)
    ensures Cusp(0, 0, p)
  {
    CongRefl(0, p);
  }

  /** (k + 1) q - k q is q, and the other way round its opposite. */
  lemma Neighbours<P(!new)>(g: Group<P>, k: nat, q: P)
    requires IsGroup(g)
    ensures g.add(Mul(g, k + 1, q), g.neg(Mul(g, k, q))) == q
    ensures g.add(Mul(g, k, q), g.neg(Mul(g, k + 1, q))) == g.neg(q)
  {
    var a, b := Mul(g, k, q), Mul(g, k + 1, q);
    assert b == g.add(a, q);
    hide Mul;
    Comm(g, a, q);
    Assoc(g, q, a, g.neg(a));
    Cancel(g, a);
    AddZero(g, q);
    var m := g.neg(b);
    Comm(g, a, m);
    Assoc(g, a, m, q);
    Assoc(g, m, a, q);
    Comm(g, m, b);
    Cancel(g, b);
    OnlyInverse(g, g.add(a, m), q);
    assert g.add(g.add(a, m), q) == g.add(m, b);
  }

  lemma SeparateRegisters<P(!new)>(c: Curve<P>, q: P, k: nat, a: P, b: P, z: nat, xd: nat, yd: nat, xs: nat, ys: nat)
    requires ValidCurve(c) && q != c.group.zero && Holds(c, a, z, xd, yd) && Holds(c, b, z, xs, ys)
    requires c.group.add(a, b) != c.group.zero
    requires c.group.add(a, c.group.neg(b)) in {q, c.group.neg(q)}
    ensures Separate(c.group, a, b) && Separate(c.group, c.group.add(a, b), c.group.add(a, c.group.neg(b)))
  {
    hide Pow, Val, Mul, Cong, IsGroup, Prime, Scaled, ValidPoints, ValidSizes, AtScale;
    UsefulLaws(c, q);
    OnlyInverse(c.group, a, b);
    Cancel(c.group, b);
    OnlyInverse(c.group, c.group.zero, q);
    AddZero(c.group, q);
    OwnDouble(c, a);
    OwnDouble(c, b);
    SeparateSums(c.group, a, b);
  }

  /** The second half of a step. */
  lemma StepUp<P(!new)>(c: Curve<P>, q: P, k: nat, bit: bool, live: bool, z: nat, xd: nat, yd: nat, xs: nat, ys: nat,
                        Xs: nat, Ys: nat, Xd: nat, Yd: nat, s: nat)
    requires ValidCurve(c) && Xd < c.p && Yd < c.p && Xs < c.p && Ys < c.p
    requires HalfWay(c, q, k, bit, live, z, xd, yd, xs, ys)
    requires SumFormula(xs, ys, xd, yd, Xs, Ys, Xd, Yd, c.p) && s < c.p && Cong(s, z * (xd - xs), c.p)
    ensures if bit then Registers(c, q, 2 * k + 1, live, s, Xs, Ys, Xd, Yd)
            else Registers(c, q, 2 * k, live, s, Xd, Yd, Xs, Ys)
  {
    hide Pow, Val, Mul, Cong, IsGroup, Prime, Scaled, SumFormula, ValidPoints, ValidSizes, Holds, Cusp;
    UsefulLaws(c, q);
    if live {
      var d := if bit then q else c.group.neg(q);
      SumHolds(c, Mul(c.group, 2 * k + 1, q), d, z, xs, ys, xd, yd, Xs, Ys, Xd, Yd, s);
      Around(c.group, k, q);
    } else {
      CollapsedSum(xs, ys, Xs, Ys, Xd, Yd, c.p);
    }
  }

  lemma Around<P(!new)>(g: Group<P>, k: nat, q: P)
    requires IsGroup(g)
    ensures g.add(Mul(g, 2 * k + 1, q), q) == Mul(g, 2 * k + 2, q)
    ensures g.add(Mul(g, 2 * k + 1, q), g.neg(q)) == Mul(g, 2 * k, q)
  {
    var a := Mul(g, 2 * k, q);
    assert Mul(g, 2 * k + 1, q) == g.add(a, q);
    hide Mul;
    Assoc(g, a, q, g.neg(q));
    Cancel(g, q);
    AddZero(g, a);
  }

  /** The two registers, apart from each other and from the order's words. */
  ghost predicate TwoRegisters<P>(c: Curve<P>, rx: array<nat>, ry: array<nat>)
  {
    rx.Length == 2 && ry.Length == 2 && rx != ry && rx != c.order && ry != c.order
  }

  /** One whole step, with the next bit of the scalar. */
  method LadderMove<P(!new)>(c: Curve<P>, rx: array<nat>, ry: array<nat>, bit: bool,
                             ghost n: nat, ghost q: P, ghost k: nat, ghost live: bool, ghost z: nat)
    returns (ghost scale: nat)
    requires ValidCurve(c) && n == Order(c) && TwoRegisters(c, rx, ry)
    requires Registers(c, q, k, live, z, rx[0], ry[0], rx[1], ry[1])
    modifies rx, ry
    ensures n > 0 && Registers(c, q, 2 * k + (if bit then 1 else 0), live && (2 * k + 1) % n != 0, scale,
                               rx[0], ry[0], rx[1], ry[1])
  {
    hide Pow, Val, Mul, Cong, IsGroup, Prime, Holds, DifferenceFormula, SumFormula, ValidPoints, Collapsed, HalfWay,
         Registers;
    var nb := if bit then 0 else 1;
    scale := LadderDown(c, rx, ry, nb, n, q, k, bit, live, z);
    scale := LadderUp(c, rx, ry, nb, q, k, bit, live && (2 * k + 1) % n != 0, scale, rx[1 - nb], rx[nb]);
  }

  method LadderDown<P(!new)>(c: Curve<P>, rx: array<nat>, ry: array<nat>, nb: nat,
                             ghost n: nat, ghost q: P, ghost k: nat, ghost bit: bool, ghost live: bool, ghost z: nat)
    returns (ghost scale: nat)
    requires ValidCurve(c) && n == Order(c) && TwoRegisters(c, rx, ry) && nb == if bit then 0 else 1
    requires Registers(c, q, k, live, z, rx[0], ry[0], rx[1], ry[1])
    modifies rx, ry
    ensures n > 0 && HalfWay(c, q, k, bit, live && (2 * k + 1) % n != 0, scale,
                             rx[1 - nb], ry[1 - nb], rx[nb], ry[nb])
  {
    hide Pow, Val, Mul, Cong, IsGroup, Prime, Holds, DifferenceFormula, ValidPoints, Collapsed, HalfWay;
    UsefulLaws(c, q);
    ghost var xd: int, yd, xs: int, ys := rx[1 - nb], ry[1 - nb], rx[nb], ry[nb];
    scale := (z * (xs - xd)) % c.p;
    CongMod(z * (xs - xd), c.p);
    var X1, Y1, X2, Y2 := XYcZAddC(rx[1 - nb], ry[1 - nb], rx[nb], ry[nb], c.p);
    StepDown(c, q, k, bit, live, z, xd, yd, xs, ys, X1, Y1, X2, Y2, scale, n);
    rx[1 - nb], ry[1 - nb], rx[nb], ry[nb] := X1, Y1, X2, Y2;
  }

  method LadderUp<P(!new)>(c: Curve<P>, rx: array<nat>, ry: array<nat>, nb: nat,
                           ghost q: P, ghost k: nat, ghost bit: bool, ghost live: bool, ghost z: nat,
                           ghost xd: nat, ghost xs: nat)
    returns (ghost scale: nat)
    requires ValidCurve(c) && TwoRegisters(c, rx, ry) && nb == if bit then 0 else 1
    requires HalfWay(c, q, k, bit, live, z, rx[1 - nb], ry[1 - nb], rx[nb], ry[nb])
    requires xd == rx[1 - nb] && xs == rx[nb]
    modifies rx, ry
    ensures Registers(c, q, 2 * k + (if bit then 1 else 0), live, scale, rx[0], ry[0], rx[1], ry[1])
    ensures scale < c.p && Cong(scale, z * (xd - xs), c.p)
  {
    hide Pow, Val, Mul, Cong, IsGroup, Prime, Holds, SumFormula, ValidPoints, Collapsed, Registers, Separate, Cusp;
    UsefulLaws(c, q);
    ghost var yd, ys := ry[1 - nb], ry[nb];
    scale := (z * (xd - xs)) % c.p;
    CongMod(z * (xd - xs), c.p);
    var X1, Y1, X2, Y2 := XYcZAdd(rx[nb], ry[nb], rx[1 - nb], ry[1 - nb], c.p);
    StepUp(c, q, k, bit, live, z, xd, yd, xs, ys, X1, Y1, X2, Y2, scale);
    rx[nb], ry[nb], rx[1 - nb], ry[1 - nb] := X1, Y1, X2, Y2;
  }

  /** Xb yP / (xP Yb (X1 - X0)), or 0 if the denominator is 0. */
  method FindScale(x0: nat, x1: nat, xb: nat, yb: nat, point: Coordinates, p: nat) returns (z: nat)
    requires Prime(p) && x0 < p && x1 < p && xb < p && yb < p
    ensures z < p
    ensures var d := ((x1 - x0) * yb) * point.x;
            if Cong(d, 0, p) then z == 0 else Cong(z * d, point.y * xb, p)
  {
    hide Cong, Prime, FieldSub, FieldMul;
    ghost var d := ((x1 - x0) * yb) * point.x;
    Reflexive(x0, x1, xb, yb, p);
    Reflexive(point.x, point.y, 0, 0, p);
    DifferenceIs(x1, x1, x0, x0, p);
    z := FieldSub(x1, x0, p);
    ProductIs(z, x1 - x0, yb, yb, p);
    z := FieldMul(z, yb, p);
    ProductIs(z, (x1 - x0) * yb, point.x, point.x, p);
    z := FieldMul(z, point.x, p);
    ghost var denominator := z;
    z := FieldInverse(z, p);
    ghost var i := z;
    ProductIs(z, i, point.y, point.y, p) by { CongRefl(i, p); }
    z := FieldMul(z, point.y, p);
    ProductIs(z, i * point.y, xb, xb, p);
    z := FieldMul(z, xb, p);
    if Cong(d, 0, p) {
      CongTrans(denominator, d, 0, p);
      ZeroIs(denominator, p);
      assert (0 * point.y) * xb == 0;
      ZeroIs(z, p);
    } else {
      if denominator == 0 {
        CongSym(0, d, p);
      }
      Quotient(z, i, point.y, xb, denominator, d, p);
    }
  }

  lemma Quotient(z: int, i: int, y: int, x: int, den: int, d: int, p: nat)
    requires Cong(z, (i * y) * x, p) && Cong(den, d, p) && Cong(i * den, 1, p)
    ensures Cong(z * d, y * x, p)
  {
    hide Cong;
    CongSym(den, d, p);
    CongMul(z, (i * y) * x, d, den, p);
    assert ((i * y) * x) * den == (i * den) * (y * x) by {
      MulAssoc(i, y, x);
      MulAssoc(i, y * x, den);
      assert (y * x) * den == den * (y * x);
      MulAssoc(i, den, y * x);
    }
    CongRefl(y * x, p);
    CongMul(i * den, 1, y * x, y * x, p);
    CongTrans(z * d, (i * den) * (y * x), 1 * (y * x), p);
  }

  /** What FindScale finds from the difference of the registers is 1 / Z after the last half
      step. */
  lemma FoundScale<P(!new)>(c: Curve<P>, q: P, k: nat, bit: bool, z: nat, xd: nat, yd: nat, xs: nat, ys: nat, s: nat, w: nat)
    requires ValidCurve(c) && c.x(q) != 0 && HalfWay(c, q, k, bit, true, z, xd, yd, xs, ys)
    requires 0 < s < c.p && Cong(s, z * (xd - xs), c.p)
    requires var d := ((if bit then xd - xs else xs - xd) * yd) * c.x(q);
             if Cong(d, 0, c.p) then w == 0 else Cong(w * d, c.y(q) * xd, c.p)
    ensures Cong(w * s, 1, c.p)
  {
    hide Pow, Val, Mul, Cong, IsGroup, Prime, Scaled, ValidPoints, ValidSizes, Separate;
    UsefulLaws(c, q);
    NotOnAxis(c, q);
    hide At, Holds;
    var y := if bit then yd else 0 - yd;
    var e := if bit then xd - xs else xs - xd;
    SignedProduct(xd, xs, yd);
    UpToSign(c, q, bit, z, xd, yd);
    hide HalfWay;
    ScaleFraction(c.x(q), c.y(q), z, xd, y, xd - xs, s, w, (e * yd) * c.x(q), c.p);
  }

  lemma SignedProduct(a: int, b: int, y: int)
    ensures (b - a) * y == (a - b) * (0 - y)
  {}

  lemma UpToSign<P(!new)>(c: Curve<P>, q: P, bit: bool, z: nat, xd: nat, yd: nat)
    requires ValidCurve(c) && q != c.group.zero && Holds(c, if bit then q else c.group.neg(q), z, xd, yd)
    ensures Scaled(xd, c.x(q), z, 2, c.p) && Scaled(if bit then yd else 0 - yd, c.y(q), z, 3, c.p)
  {
    hide Pow, Val, Mul, Cong, IsGroup, Prime, Scaled, ValidSizes;
    if !bit {
      var n := c.group.neg(q);
      assert OppositeLaw(c, q);
      ScaleItself(z, c.p);
      ScaledSum(0, 0, yd, c.y(n), 3, z, c.p);
      CongRefl(c.y(n), c.p);
      CongAdd(c.y(n) + c.y(q), 0, c.y(n), c.y(n), c.p);
      CongSym(c.y(q), 0 - c.y(n), c.p);
      CongRefl(0 - yd, c.p);
      ScaledCong(0 - yd, 0 - yd, 0 - c.y(n), c.y(q), z, 3, c.p);
    }
  }

  lemma ScaleFraction(x: nat, y: nat, z: nat, X: int, Y: int, D: int, s: int, w: int, d: int, p: nat)
    requires Prime(p) && 0 < x < p && 0 < y < p && 0 < z < p && 0 < s < p && Cong(s, z * D, p)
    requires Scaled(X, x, z, 2, p) && Scaled(Y, y, z, 3, p) && d == (D * Y) * x
    requires if Cong(d, 0, p) then w == 0 else Cong(w * d, y * X, p)
    ensures Cong(w * s, 1, p)
  {
    hide Cong, Prime;
    PowTwoThree(z);
    var k := (y * x) * Pow(z, 2);
    Denominator(x, y, z, Y, D, s, d, k, p);
    CommonFactor(x, y, z, k, p);
    if Cong(d, 0, p) {
      CongSym(d, k * s, p);
      CongTrans(k * s, d, 0, p);
      ZeroFactor(k, s, p);
      CongUnique(s, 0, p);
    }
    hide Pow;
    CongRefl(y, p);
    CongMul(y, y, X, x * Pow(z, 2), p);
    MulAssoc(y, x, Pow(z, 2));
    CongRefl(w, p);
    CongMul(w, w, d, k * s, p);
    CongSym(w * d, w * (k * s), p);
    CongTrans(w * (k * s), w * d, y * X, p);
    CongTrans(w * (k * s), y * X, k, p);
    CongRefl(k, p);
    CongAdd(w * (k * s), k, k, k, p);
    assert w * (k * s) - k == k * (w * s - 1) by {
      MulAssoc(w, k, s);
      MulAssoc(k, w, s);
      assert w * k == k * w;
      MulDist(w * s, 1, k);
    }
    ZeroFactor(k, w * s - 1, p);
    CongRefl(1, p);
    CongAdd(w * s - 1, 0, 1, 1, p);
  }

  lemma Denominator(x: int, y: int, z: nat, Y: int, D: int, s: int, d: int, k: int, p: nat)
    requires Scaled(Y, y, z, 3, p) && d == (D * Y) * x && k == (y * x) * Pow(z, 2) && Cong(s, z * D, p)
    ensures Cong(d, k * s, p)
  {
    hide Cong;
    var z2 := Pow(z, 2);
    assert Pow(z, 3) == z * z2;
    hide Pow;
    CongRefl(D * x, p);
    CongMul(Y, y * (z * z2), D * x, D * x, p);
    assert d == Y * (D * x);
    CongSym(s, z * D, p);
    CongRefl(k, p);
    CongMul(k, k, z * D, s, p);
    assert (y * (z * z2)) * (D * x) == k * (z * D) by {
      MulAssoc(y, z, z2);
      assert (y * (z * z2)) * (D * x) == (y * x) * ((z * z2) * D);
      assert (z * z2) * D == z2 * (z * D);
      MulAssoc(y * x, z2, z * D);
    }
    CongTrans(d, k * (z * D), k * s, p);
  }

  lemma CommonFactor(x: nat, y: nat, z: nat, k: int, p: nat)
    requires Prime(p) && 0 < x < p && 0 < y < p && 0 < z < p && k == (y * x) * Pow(z, 2)
    ensures !Cong(k, 0, p)
  {
    hide Cong, Prime, Pow;
    if Cong(k, 0, p) {
      ZeroFactor(y * x, Pow(z, 2), p);
      NonZeroPower(z, 2, p);
      ZeroFactor(y, x, p);
      if Cong(y, 0, p) {
        CongUnique(y, 0, p);
      } else {
        CongUnique(x, 0, p);
      }
    }
  }

  /** The last step: between its halves 1 / Z is found from the difference of the registers,
      which is the point itself up to its sign. A point with x = 0 yields 0 for it, like
      collapsed registers. */
  method LadderEnd<P(!new)>(c: Curve<P>, rx: array<nat>, ry: array<nat>, point: Coordinates, bit: bool,
                            ghost n: nat, ghost q: P, ghost k: nat, ghost live: bool, ghost z0: nat)
    returns (result: Coordinates)
    requires ValidCurve(c) && n == Order(c) && TwoRegisters(c, rx, ry) && point == At(c, q)
    requires Registers(c, q, k, live, z0, rx[0], ry[0], rx[1], ry[1])
    modifies rx, ry
    ensures n > 0 && result == At(c, if live && (2 * k + 1) % n != 0 && c.x(q) != 0
                                     then Mul(c.group, 2 * k + (if bit then 1 else 0), q) else c.group.zero)
  {
    hide Pow, Val, Mul, Cong, IsGroup, Prime, ValidPoints, Cusp, Collapsed, Separate, AtScale;
    UsefulLaws(c, q);
    var nb := if bit then 0 else 1;
    ghost var z1 := LadderDown(c, rx, ry, nb, n, q, k, bit, live, z0);
    ghost var still := live && (2 * k + 1) % n != 0;
    ghost var xd, yd, xs, ys := rx[1 - nb], ry[1 - nb], rx[nb], ry[nb];
    var z := FindScale(rx[0], rx[1], rx[1 - nb], ry[1 - nb], point, c.p);
    ghost var s := LadderUp(c, rx, ry, nb, q, k, bit, still, z1, xd, xs);
    var x, y := ApplyZ(rx[0], ry[0], z, c.p);
    result := Coordinates(x, y);
    EndOfLadder(c, q, k, bit, still, z1, xd, yd, xs, ys, s, rx[0], ry[0], rx[1], ry[1], z, x, y);
  }

  /** The coordinates that the last step leaves, through the scale found. */
  lemma EndOfLadder<P(!new)>(c: Curve<P>, q: P, k: nat, bit: bool, live: bool, z: nat, xd: nat, yd: nat, xs: nat, ys: nat,
                             s: nat, x0: nat, y0: nat, x1: nat, y1: nat, w: nat, x: nat, y: nat)
    requires ValidCurve(c) && HalfWay(c, q, k, bit, live, z, xd, yd, xs, ys)
    requires Registers(c, q, 2 * k + (if bit then 1 else 0), live, s, x0, y0, x1, y1) && Cong(s, z * (xd - xs), c.p)
    requires var d := ((if bit then xd - xs else xs - xd) * yd) * c.x(q);
             if Cong(d, 0, c.p) then w == 0 else Cong(w * d, c.y(q) * xd, c.p)
    requires x < c.p && y < c.p && Cong(x, x0 * (w * w), c.p) && Cong(y, y0 * (w * (w * w)), c.p)
    ensures Coordinates(x, y) == At(c, if live && c.x(q) != 0 then Mul(c.group, 2 * k + (if bit then 1 else 0), q)
                                       else c.group.zero)
  {
    hide Pow, Val, Mul, Cong, IsGroup, Prime, ValidPoints, ValidSizes, Cusp, Separate, AtScale;
    UsefulLaws(c, q);
    if live && c.x(q) != 0 {
      FoundScale(c, q, k, bit, z, xd, yd, xs, ys, s, w);
      Unscaled(c, Mul(c.group, 2 * k + (if bit then 1 else 0), q), s, x0, y0, w, x, y);
    } else {
      var e: int := xd as int - xs as int;
      NothingTimes(if bit then e else 0 - e, yd, c.x(q), c.p);
      ScaledAway(x0, y0, x, y, c.p);
    }
  }

  lemma NothingTimes(d: int, y: int, x: int, p: nat)
    requires y == 0 || x == 0
    ensures Cong((d * y) * x, 0, p)
  {
    CongRefl(0, p);
  }

  lemma TopIsSet(s: nat, nb: nat)
    ensures HighBits(WithTopBit(s, nb), nb) == 1
    ensures HighBits(WithTopBit(s, nb), 0) == WithTopBit(s, nb)
  {
    DivModUnique(WithTopBit(s, nb), 1, s % Pow(2, nb), Pow(2, nb));
    assert Pow(2, 0) == 1;
  }

  /** The ladder, from the bit below the top one down to bit 0. */
  method Ladder<P(!new)>(c: Curve<P>, point: Coordinates, scalar: array<nat>, initialZ: nat, numBits: nat,
                         ghost s: nat, ghost q: P)
    returns (result: Coordinates)
    requires ValidCurve(c) && 2 <= numBits <= c.numWords * Width(c) + 1
    requires WordsTo(scalar[..], c.numWords, Width(c)) && s == Val(scalar[..], c.numWords, Width(c))
    requires point == At(c, q) && 0 < initialZ < c.p
    ensures Order(c) > 0 && result == At(c, Reached(c, WithTopBit(s, numBits - 1), numBits - 1, q))
  {
    hide Pow, Val, Mul, IsGroup, WithTopBit, Bit, HighBits, WordsTo, ValidPoints, Registers, Clear, Prime, Reached;
    var w := Width(c);
    ghost var nb, n := numBits - 1, Order(c);
    ghost var t := WithTopBit(s, nb);
    TopIsSet(s, nb);
    var rx, ry := new nat[2], new nat[2];
    ghost var z;
    rx[1], ry[1], rx[0], ry[0], z := XYcZInitialDouble(c, point, initialZ, q);
    ClearAtTop(t, nb, n);
    var i := numBits - 2;
    while i > 0
      invariant 0 <= i < nb && TwoRegisters(c, rx, ry)
      invariant Registers(c, q, HighBits(t, i + 1), q != c.group.zero && Clear(t, i + 2, nb, n), z,
                          rx[0], ry[0], rx[1], ry[1])
    {
      var bit := VliTestBit(scalar, c.numWords, i, w);
      LadderBit(s, nb, i);
      ClearStep(t, i + 1, nb, n);
      z := LadderMove(c, rx, ry, bit, n, q, HighBits(t, i + 1), q != c.group.zero && Clear(t, i + 2, nb, n), z);
      i := i - 1;
    }
    var bit := VliTestBit(scalar, c.numWords, 0, w);
    LadderBit(s, nb, 0);
    ClearStep(t, 1, nb, n);
    result := LadderEnd(c, rx, ry, point, bit, n, q, HighBits(t, 1), q != c.group.zero && Clear(t, 2, nb, n), z);
    ReachedAtEnd(c, t, nb, q);
  }

  lemma ReachedAtEnd<P(!new)>(c: Curve<P>, t: nat, nb: nat, q: P)
    requires ValidCurve(c) && nb >= 1
    ensures Order(c) > 0
    ensures Reached(c, t, nb, q)
         == if (q != c.group.zero && Clear(t, 2, nb, Order(c))) && (2 * HighBits(t, 1) + 1) % Order(c) != 0 && c.x(q) != 0
            then Mul(c.group, t, q) else c.group.zero
  {
    hide Pow, Val, Mul, IsGroup, HighBits, ValidPoints, Clear, Prime;
    UsefulLaws(c, q);
    ClearStep(t, 1, nb, Order(c));
  }

  lemma ClearAtTop(m: nat, nb: nat, n: nat)
    requires n > 0
    ensures Clear(m, nb + 1, nb, n)
  {}

  lemma ClearStep(m: nat, i: nat, nb: nat, n: nat)
    requires n > 0 && i <= nb
    ensures Clear(m, i, nb, n) <==> Clear(m, i + 1, nb, n) && (2 * HighBits(m, i) + 1) % n != 0
  {
    hide HighBits;
    if Clear(m, i, nb, n) {
      assert Turn(m, i, n);
    }
  }

  /** Writes a coordinate as words. */
  method StoreCoordinate<P(!new)>(c: Curve<P>, v: nat, words: array<nat>)
    requires ValidCurve(c) && v < c.p && words.Length == c.numWords && words != c.order
    modifies words
    ensures WordsTo(words[..], c.numWords, Width(c)) && Val(words[..], c.numWords, Width(c)) == v
  {
    var n, w := c.numWords, Width(c);
    UsefulLaws(c, c.base);
    OrderFacts(c);
    OctetsFit(c.numBytes, n, c.W);
    assert Pow(Base(w), 0) == 1;
    assert Val(words[..], 0, w) == 0;
    hide Pow, Val, OctetPow, ValidPoints, WordsSum;
    var rest := v;
    for i := 0 to n
      invariant 0 <= rest && WordsSum(words[..], i, rest, v, w)
    {
      ghost var before, was := words[..], rest;
      words[i] := rest % Base(w);
      rest := rest / Base(w);
      OneMoreWord(before, words[..], i, was, v, w);
    }
    AllWords(words[..], n, rest, v, w);
  }

  /** The first i words and the rest that is to come make up v. */
  ghost predicate WordsSum(s: seq<nat>, i: nat, rest: nat, v: nat, w: nat)
  {
    WordsTo(s, i, w) && Val(s, i, w) + rest * Pow(Base(w), i) == v
  }

  lemma OneMoreWord(before: seq<nat>, after: seq<nat>, i: nat, rest: nat, v: nat, w: nat)
    requires i < |before| && after == before[i := rest % Base(w)] && WordsSum(before, i, rest, v, w)
    ensures 0 <= rest / Base(w) && WordsSum(after, i + 1, rest / Base(w), v, w)
  {
    ValFrame(before, after, i, w);
    ValStep(after, i, w);
    PowStep(Base(w), i + 1);
    hide Val, Pow;
    DigitOff(rest, Base(w), Pow(Base(w), i));
  }

  lemma AllWords(s: seq<nat>, n: nat, rest: nat, v: nat, w: nat)
    requires WordsSum(s, n, rest, v, w) && v < Pow(Base(w), n)
    ensures WordsTo(s, n, w) && Val(s, n, w) == v
  {
    ValBound(s, n, w);
    hide Val, Pow;
    NoCarryOut(rest, Val(s, n, w), v, Pow(Base(w), n));
  }

  lemma DigitOff(x: int, b: int, p: int)
    requires b > 0 && x >= 0
    ensures 0 <= x / b && (x % b) * p + (x / b) * (b * p) == x * p
  {
    assert x == (x / b) * b + x % b;
    MulDist((x / b) * b, x % b, p);
    assert ((x / b) * b) * p == (x / b) * (b * p);
  }

  /** The ladder on words: the multiplier is the scalar's bits below num_bits - 1 with bit
      num_bits - 1 taken as set. px receives the x-coordinate of the result. */
  method EccPointMult<P(!new)>(c: Curve<P>, px: array<nat>, point: Coordinates, scalar: array<nat>, initialZ: nat,
                               numBits: nat, ghost q: P)
    returns (result: Coordinates)
    requires ValidCurve(c) && 2 <= numBits <= c.numWords * Width(c) + 1
    requires WordsTo(scalar[..], c.numWords, Width(c)) && px.Length == c.numWords && px != c.order
    requires point == At(c, q) && 0 < initialZ < c.p
    modifies px
    ensures Order(c) > 0 && result == At(c, Reached(c, WithTopBit(old(Val(scalar[..], c.numWords, Width(c))), numBits - 1),
                                                    numBits - 1, q))
    ensures WordsTo(px[..], c.numWords, Width(c)) && Val(px[..], c.numWords, Width(c)) == result.x
  {
    hide Pow, Val, Mul, WithTopBit, ValidPoints, Reached;
    ghost var s := Val(scalar[..], c.numWords, Width(c));
    result := Ladder(c, point, scalar, initialZ, numBits, s, q);
    UsefulLaws(c, Reached(c, WithTopBit(s, numBits - 1), numBits - 1, q));
    StoreCoordinate(c, result.x, px);
  }

  // ---- Which scalars the ladder fails for ----

  /** A caller's test: neither of the two highest scalars, nor 1 if it is n + 1 plus n that
      gets the top bit. */
  ghost predicate SafeScalar(k: nat, n: nat, nb: nat)
  {
    k != n - 2 && k != n - 1 && !(k == 1 && n + 1 < Pow(2, nb))
  }

  /** The ladder's steps for a scalar in 1 .. n - 1 avoid opposite points exactly if the scalar
      passes the test. */
  lemma ExceptionalScalars(k: nat, n: nat, nb: nat, size: nat)
    requires nb >= 2 && n % 2 == 1 && Pow(2, nb - 1) <= n < Pow(2, nb) <= size && 0 < k < n
    requires Pow(2, nb) < size ==> 2 * Pow(2, nb) <= size
    ensures Clear(LadderScalar(k, n, nb, size), 1, nb, n) <==> SafeScalar(k, n, nb)
  {
    hide LadderScalar, HighBits, Clear, TakesFirst;
    assert Pow(2, nb) == 2 * Pow(2, nb - 1) && Pow(2, nb - 1) == 2 * Pow(2, nb - 2);
    hide Pow;
    RegularisedScalar(k, n, nb, size);
    var m := LadderScalar(k, n, nb, size);
    ChosenMultiplier(k, n, m, Pow(2, nb), TakesFirst(k, n, nb, size));
    AllTurns(m, n, nb);
  }

  /** The only step that can meet opposite points takes the multiplier without its two lowest
      bits. */
  lemma AllTurns(m: nat, n: nat, nb: nat)
    requires nb >= 2 && n % 2 == 1 && n < m < 4 * n - 3 && m != 3 * n - 1 && m != 3 * n
    requires m < 2 * Pow(2, nb) && Pow(2, nb - 1) <= n
    ensures Clear(m, 1, nb, n) <==> !(2 * n - 2 <= m <= 2 * n + 1)
  {
    hide HighBits, Pow, Turn;
    forall i | 1 <= i <= nb
      ensures Turn(m, i, n) <==> i != 2 || !(2 * n - 2 <= m <= 2 * n + 1)
    {
      OneTurn(m, i, n, nb);
    }
    if 2 * n - 2 <= m <= 2 * n + 1 {
      assert !Turn(m, 2, n);
    }
  }

  lemma ChosenMultiplier(k: int, n: int, m: int, p: int, first: bool)
    requires 0 < k < n && n % 2 == 1 && p <= 2 * n && n < p && p % 4 == 0 && p <= m < 2 * p
    requires m == k + (if first then n else 2 * n) && (first <==> p <= k + n)
    ensures m > n && m < 4 * n - 3 && m != 3 * n - 1 && m != 3 * n
    ensures 2 * n - 2 <= m <= 2 * n + 1 <==> k == n - 2 || k == n - 1 || (k == 1 && n + 1 < p)
  {}

  lemma OneTurn(m: nat, i: nat, n: nat, nb: nat)
    requires 1 <= i <= nb && nb >= 2 && n % 2 == 1 && n < m < 4 * n - 3 && m != 3 * n - 1 && m != 3 * n
    requires m < 2 * Pow(2, nb) && Pow(2, nb - 1) <= n
    ensures Turn(m, i, n) <==> i != 2 || !(2 * n - 2 <= m <= 2 * n + 1)
  {
    if i <= 2 {
      assert Pow(2, 1) == 2 && Pow(2, 2) == 4;
      hide Pow;
      FirstTurns(m, m / 2, m / 4, n);
    } else {
      ShortPrefix(m, i, nb);
      hide Pow, HighBits;
      DivModUnique(2 * HighBits(m, i) + 1, 0, 2 * HighBits(m, i) + 1, n);
    }
  }

  lemma FirstTurns(m: int, a: int, b: int, n: int)
    requires n % 2 == 1 && 0 < n < m < 4 * n - 3 && m != 3 * n - 1 && m != 3 * n
    requires 2 * a <= m <= 2 * a + 1 && 4 * b <= m <= 4 * b + 3
    ensures (2 * a + 1) % n != 0
    ensures (2 * b + 1) % n != 0 <==> !(2 * n - 2 <= m <= 2 * n + 1)
  {
    OddMultiple(2 * a + 1, n);
    OddMultiple(2 * b + 1, n);
    ByHalves(m, a, b, n);
  }

  lemma ByHalves(m: int, a: int, b: int, n: int)
    requires n % 2 == 1 && n < m < 4 * n - 3 && m != 3 * n - 1 && m != 3 * n
    requires 2 * a <= m <= 2 * a + 1 && 4 * b <= m <= 4 * b + 3
    ensures 2 * a + 1 != n && 2 * a + 1 != 3 * n && 2 * b + 1 != 3 * n
    ensures 2 * b + 1 == n <==> 2 * n - 2 <= m <= 2 * n + 1
  {}

  /** An odd number below 5 n is a multiple of the odd n only as n or 3 n. */
  lemma OddMultiple(x: int, n: int)
    requires 0 < x < 5 * n && x % 2 == 1 && n % 2 == 1
    ensures x % n == 0 <==> x == n || x == 3 * n
  {
    var q: int :| 0 <= q < 5 && q * n <= x < (q + 1) * n;
    DivModUnique(x, q, x - q * n, n);
  }

  /** Three or more bits off a number of nb + 1 bits leave less than a quarter of 2^nb. */
  lemma ShortPrefix(m: nat, i: nat, nb: nat)
    requires 3 <= i <= nb && m < 2 * Pow(2, nb)
    ensures 2 * HighBits(m, i) + 1 < Pow(2, nb - 1)
  {
    assert Pow(2, 3) == 8 by {
      assert Pow(2, 2) == 4;
    }
    assert Pow(2, nb) == 2 * Pow(2, nb - 1) && Pow(2, nb - 1) == 2 * Pow(2, nb - 2);
    PowMonotonic(2, 3, i);
    hide Pow;
    SmallQuotient8(m, Pow(2, i), Pow(2, nb - 2));
  }

  lemma SmallQuotient8(m: int, d: int, p: int)
    requires 0 <= m < 8 * p && d >= 8
    ensures 0 <= m / d < p
  {
    var q := m / d;
    assert m == d * q + m % d;
    if q < 0 {
      MulLe(q, -1, d);
    } else {
      MulLe(8, d, q);
    }
  }

  // ---- Public keys and shared secrets ----

  ghost function Multiplier<P>(c: Curve<P>, k: nat): nat
    requires c.numWords <= c.order.Length
    reads c.order
  {
    LadderScalar(k, Order(c), c.numNBits, Pow(Base(Width(c)), c.numWords))
  }

  /** What comes out for a scalar k and a point q: k q, or infinity if the ladder fails. */
  ghost function Delivered<P>(c: Curve<P>, k: nat, q: P): P
    requires c.numWords <= c.order.Length
    reads c.order
  {
    if c.x(q) != 0 && SafeScalar(k, Order(c), c.numNBits) then Mul(c.group, k, q) else c.group.zero
  }

  /** Through the regularised scalar the ladder delivers the multiple by the scalar itself. */
  lemma RegularMultiple<P(!new)>(c: Curve<P>, k: nat, q: P)
    requires ValidCurve(c) && 0 < k < Order(c)
    ensures Reached(c, Multiplier(c, k), c.numNBits, q) == Delivered(c, k, q)
  {
    hide Pow, Val, Mul, LadderScalar, ValidPoints, SafeScalar, Clear, Prime;
    var n, nb, size := Order(c), c.numNBits, Pow(Base(Width(c)), c.numWords);
    OrderFacts(c);
    UsefulLaws(c, q);
    PowGap(nb, c.numWords * Width(c));
    RegularisedScalar(k, n, nb, size);
    ExceptionalScalars(k, n, nb, size);
    MulCong(c.group, LadderScalar(k, n, nb, size), k, n, q);
  }

  /** Only the point at infinity has the coordinates (0, 0). */
  lemma OnlyOrigin<P(!new)>(c: Curve<P>, q: P)
    requires ValidCurve(c)
    ensures At(c, q) == ORIGIN <==> q == c.group.zero
  {
    hide Pow, Val, Mul, IsGroup, Prime, ValidSizes;
    if q != c.group.zero {
      NotOnAxis(c, q);
    }
  }

  lemma DeliveredBase<P(!new)>(c: Curve<P>, d: nat)
    requires ValidCurve(c) && 0 < d < Order(c)
    ensures At(c, Delivered(c, d, c.base)) != ORIGIN <==> SafeScalar(d, Order(c), c.numNBits)
    ensures SafeScalar(d, Order(c), c.numNBits) ==> Delivered(c, d, c.base) == Mul(c.group, d, c.base)
  {
    hide Pow, Val, Mul, ValidPoints, SafeScalar, Prime;
    UsefulLaws(c, c.base);
    OnlyOrigin(c, Delivered(c, d, c.base));
    PointOrder(c, d, c.base);
    DivModUnique(d, 0, d, Order(c));
  }

  /** The keys for which the ladder gives no public key: n - 2 and n - 1 always, and 1 for every
      order but 2^num_n_bits - 1. */
  lemma KeysWithoutPublicKey<P(!new)>(c: Curve<P>)
    requires ValidCurve(c)
    ensures Order(c) >= 3
    ensures Reached(c, Multiplier(c, Order(c) - 2), c.numNBits, c.base) == c.group.zero
    ensures Reached(c, Multiplier(c, Order(c) - 1), c.numNBits, c.base) == c.group.zero
    ensures Order(c) != Pow(2, c.numNBits) - 1 ==> Reached(c, Multiplier(c, 1), c.numNBits, c.base) == c.group.zero
  {
    hide Pow, Val, Mul, ValidPoints, Reached, Multiplier, Prime;
    OrderFacts(c);
    RegularMultiple(c, Order(c) - 2, c.base);
    RegularMultiple(c, Order(c) - 1, c.base);
    RegularMultiple(c, 1, c.base);
  }

  /** k times a point, through regularisation into the two buffers and the ladder. */
  method RegularMult<P(!new)>(c: Curve<P>, px: array<nat>, point: Coordinates, k: array<nat>, ghost q: P)
    returns (result: Coordinates)
    requires ValidCurve(c) && WordsTo(k[..], c.numWords, Width(c)) && point == At(c, q)
    requires px.Length == c.numWords && px != c.order
    modifies px
    ensures Order(c) > 0
         && result == At(c, Reached(c, Multiplier(c, old(Val(k[..], c.numWords, Width(c)))), c.numNBits, q))
    ensures WordsTo(px[..], c.numWords, Width(c)) && Val(px[..], c.numWords, Width(c)) == result.x
  {
    hide Pow, Val, Mul, LadderScalar, WithTopBit, Reached, ValidPoints;
    var tmp1, tmp2 := new nat[c.numWords], new nat[c.numWords];
    OrderFacts(c);
    UsefulLaws(c, q);
    assert c.p > 1;
    var carry := RegularizeK(k, tmp1, tmp2, c);
    result := EccPointMult(c, px, point, if carry then tmp1 else tmp2, 1, c.numNBits + 1, q);
  }

  /** The public key of a private key in 1 .. n - 1; fails exactly when the ladder does. */
  method EccPointComputePublicKey<P(!new)>(c: Curve<P>, d: array<nat>) returns (publicKey: Coordinates, ok: bool)
    requires ValidCurve(c) && WordsTo(d[..], c.numWords, Width(c)) && 0 < Val(d[..], c.numWords, Width(c)) < Order(c)
    ensures var k := Val(d[..], c.numWords, Width(c));
      && (ok <==> SafeScalar(k, Order(c), c.numNBits))
      && (ok ==> publicKey == At(c, Mul(c.group, k, c.base)))
  {
    hide Pow, Val, Mul, LadderScalar, ValidPoints, SafeScalar, Reached, Prime;
    ghost var k := Val(d[..], c.numWords, Width(c));
    var px := new nat[c.numWords];
    publicKey := RegularMult(c, px, At(c, c.base), d, c.base);
    ok := publicKey != ORIGIN;
    RegularMultiple(c, k, c.base);
    DeliveredBase(c, k);
  }

  /** The public key d G; fails exactly when the private key is not in 1 .. n - 1 or the ladder
      fails for it. */
  method ComputePublicKey<P(!new)>(c: Curve<P>, privateKey: seq<nat>) returns (publicKey: Coordinates, ok: bool)
    requires ValidCurve(c) && Bytes(privateKey) && |privateKey| == (c.numNBits + 7) / 8
    ensures ok <==> 0 < BigEndian(privateKey) < Order(c) && SafeScalar(BigEndian(privateKey), Order(c), c.numNBits)
    ensures ok ==> publicKey == At(c, Mul(c.group, BigEndian(privateKey), c.base))
  {
    hide Pow, Val, Mul, BigEndian, ValidPoints, SafeScalar, Prime;
    var n, w := c.numWords, Width(c);
    var d := new nat[n];
    publicKey := ORIGIN;
    OctetsOfOrder(c.numNBits, c.W);
    VliBytesToNative(d, privateKey, n, c.W);
    var zero := VliIsZero(d, n, w);
    if zero {
      return publicKey, false;
    }
    var cmp := VliCmp(c.order, d, n, w);
    if cmp != 1 {
      return publicKey, false;
    }
    publicKey, ok := EccPointComputePublicKey(c, d);
  }

  /** What the random number source answers: absent, failing, or a number. */
  datatype Rng = NoRng | RngFails | RngGives(words: seq<nat>)

  /** The source's number is in 1 .. top - 1. */
  ghost predicate RandomBelow<P>(c: Curve<P>, rng: Rng, top: nat)
  {
    rng.RngGives? ==>
      |rng.words| == c.numWords && WordsTo(rng.words, c.numWords, Width(c)) &&
      0 < Val(rng.words, c.numWords, Width(c)) < top
  }

  /** The initial Z: 1, or a random number that is put in the given buffer. */
  method LoadInitialZ<P(!new)>(c: Curve<P>, z: array<nat>, rng: Rng) returns (initialZ: nat, ok: bool)
    requires ValidCurve(c) && z.Length == c.numWords && RandomBelow(c, rng, c.p)
    modifies z
    ensures ok <==> !rng.RngFails?
    ensures ok ==> 0 < initialZ < c.p
  {
    hide Pow, Val, ValidPoints, ValidSizes, OctetPow;
    UsefulLaws(c, c.base);
    assert c.p > 1 by { PrimeAboveOne(c.p); }
    match rng {
      case NoRng => return 1, true;
      case RngFails => return 0, false;
      case RngGives(words) =>
        for i := 0 to c.numWords
          invariant forall j :: 0 <= j < i ==> z[j] == words[j]
        {
          z[i] := words[i];
        }
        ValFrame(z[..], words, c.numWords, Width(c));
        return Val(z[..], c.numWords, Width(c)), true;
    }
  }

  lemma PrimeAboveOne(p: nat)
    requires Prime(p)
    ensures p > 1
  {}

  /** The x-coordinate of (private key) times (public key), as octets. A random initial Z is
      put in the buffer that the ladder does not use. */
  method SharedSecret<P(!new)>(c: Curve<P>, publicKey: Coordinates, privateKey: seq<nat>, secret: array<nat>, rng: Rng,
                               ghost q: P)
    returns (ok: bool)
    requires ValidCurve(c) && Bytes(privateKey) && |privateKey| == (c.numNBits + 7) / 8
    requires publicKey == At(c, q)
    requires secret.Length == c.numBytes && secret != c.order && RandomBelow(c, rng, c.p)
    modifies secret
    ensures rng.RngFails? ==> !ok
    ensures Order(c) > 0
    ensures !rng.RngFails? ==>
      var r := Reached(c, Multiplier(c, BigEndian(privateKey)), c.numNBits, q);
      (ok <==> r != c.group.zero) && Bytes(secret[..]) && BigEndian(secret[..]) == c.x(r)
  {
    hide Pow, Val, Mul, LadderScalar, WithTopBit, BigEndian, OctetPow, ValidPoints, Reached, Prime, RandomBelow;
    var n := c.numWords;
    var d, tmp, px := new nat[n], new nat[n], new nat[n];
    OctetsOfOrder(c.numNBits, c.W);
    VliBytesToNative(d, privateKey, n, c.W);
    OrderFacts(c);
    UsefulLaws(c, q);
    var carry := RegularizeK(d, d, tmp, c);
    var scalar, unused := if carry then d else tmp, if carry then tmp else d;
    ghost var s := scalar[..];
    var initialZ, loaded := LoadInitialZ(c, unused, rng);
    if !loaded {
      return false;
    }
    assert scalar[..] == s;
    var point := EccPointMult(c, px, publicKey, scalar, initialZ, c.numNBits + 1, q);
    StoreSecret(c, secret, px, point, Reached(c, Multiplier(c, BigEndian(privateKey)), c.numNBits, q));
    ok := point != ORIGIN;
  }

  /** The x-coordinate as octets. */
  method StoreSecret<P(!new)>(c: Curve<P>, secret: array<nat>, px: array<nat>, point: Coordinates, ghost r: P)
    requires ValidCurve(c) && secret.Length == c.numBytes && secret != c.order && secret != px && point == At(c, r)
    requires WordsTo(px[..], c.numWords, Width(c)) && Val(px[..], c.numWords, Width(c)) == point.x
    modifies secret
    ensures Bytes(secret[..]) && BigEndian(secret[..]) == c.x(r) && (point != ORIGIN <==> r != c.group.zero)
  {
    hide Pow, Val, BigEndian, OctetPow, ValidPoints;
    OrderFacts(c);
    UsefulLaws(c, r);
    VliNativeToBytes(secret, 0, c.numBytes, px, c.numWords, c.W);
    assert secret[0..0 + c.numBytes] == secret[..];
    SmallQuotient(c.x(r), OctetPow(c.numBytes));
    OnlyOrigin(c, r);
  }

  /** SEC 1, section 3.3.1: both sides of a key agreement reach the same point. */
  lemma AgreementPoint<P(!new)>(c: Curve<P>, a: nat, b: nat)
    requires IsGroup(c.group)
    ensures Mul(c.group, a, Mul(c.group, b, c.base)) == Mul(c.group, b, Mul(c.group, a, c.base))
  {
    MulLe(0, a, b);
    assert a * b == b * a;
    hide Mul;
    MulProduct(c.group, a, b, a * b, c.base);
    MulProduct(c.group, b, a, a * b, c.base);
  }

  lemma AgreementNonZero<P(!new)>(c: Curve<P>, a: nat, b: nat)
    requires ValidCurve(c) && 0 < a < Order(c) && 0 < b < Order(c)
    ensures Mul(c.group, a, Mul(c.group, b, c.base)) != c.group.zero
  {
    hide Pow, Val, Mul, ValidPoints, Prime;
    UsefulLaws(c, c.base);
    DivModUnique(a, 0, a, Order(c));
    DivModUnique(b, 0, b, Order(c));
    PointOrder(c, b, c.base);
    PointOrder(c, a, Mul(c.group, b, c.base));
  }

  /** Both parties of a key agreement succeed exactly if the ladder serves both private keys
      and both public keys, and no random number source fails; then they derive the same
      secret, whatever numbers those sources give. */
  method KeyAgreement<P(!new)>(c: Curve<P>, a: seq<nat>, b: seq<nat>, rngA: Rng, rngB: Rng)
    returns (secretA: array<nat>, secretB: array<nat>, ok: bool)
    requires ValidCurve(c) && Bytes(a) && Bytes(b) && |a| == |b| == (c.numNBits + 7) / 8
    requires 0 < BigEndian(a) < Order(c) && 0 < BigEndian(b) < Order(c)
    requires RandomBelow(c, rngA, c.p) && RandomBelow(c, rngB, c.p)
    ensures ok <==> && SafeScalar(BigEndian(a), Order(c), c.numNBits) && c.x(Mul(c.group, BigEndian(a), c.base)) != 0
                    && SafeScalar(BigEndian(b), Order(c), c.numNBits) && c.x(Mul(c.group, BigEndian(b), c.base)) != 0
                    && !rngA.RngFails? && !rngB.RngFails?
    ensures ok ==> secretA[..] == secretB[..]
  {
    hide Pow, Val, Mul, LadderScalar, BigEndian, ValidPoints, SafeScalar, Reached, Prime, RandomBelow;
    ghost var da, db := BigEndian(a), BigEndian(b);
    ghost var qa, qb := Mul(c.group, da, c.base), Mul(c.group, db, c.base);
    UsefulLaws(c, c.base);
    secretA, secretB := new nat[c.numBytes], new nat[c.numBytes];
    var publicA, okA := ComputePublicKey(c, a);
    var publicB, okB := ComputePublicKey(c, b);
    if !okA || !okB {
      return secretA, secretB, false;
    }
    var oneA := SharedSecret(c, publicB, a, secretA, rngA, qb);
    var oneB := SharedSecret(c, publicA, b, secretB, rngB, qa);
    ok := oneA && oneB;
    RegularMultiple(c, da, qb);
    RegularMultiple(c, db, qa);
    AgreementPoint(c, da, db);
    AgreementNonZero(c, da, db);
    if ok {
      BigEndianUnique(secretA[..], secretB[..]);
    }
  }
}
