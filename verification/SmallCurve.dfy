/** A curve small enough to be written out: y^2 = x^3 - 3x + 10 modulo 11, whose 7 points are
    the multiples of (2, 1). It meets what is assumed of curves, and on it signing runs into
    the cases that verification refuses. */
module SmallCurves {
  import opened Arithmetic
  import opened CoZ
  import opened Curves
  import opened Ecc
  import opened Ecdsa
  import opened Group
  import opened Octets
  import opened Primes
  import opened Vli

  /** The multiples 0 .. 6 of the base point. */
  datatype Point = P0 | P1 | P2 | P3 | P4 | P5 | P6

  function Index(q: Point): (k: nat)
    ensures k < 7
  {
    match q case P0 => 0 case P1 => 1 case P2 => 2 case P3 => 3 case P4 => 4 case P5 => 5 case P6 => 6
  }

  function FromIndex(k: nat): (q: Point)
    requires k < 7
    ensures Index(q) == k
  {
    if k == 0 then P0 else if k == 1 then P1 else if k == 2 then P2 else if k == 3 then P3
    else if k == 4 then P4 else if k == 5 then P5 else P6
  }

  function AddPoints(q: Point, r: Point): (s: Point)
    ensures Index(s) == (Index(q) + Index(r)) % 7
  {
    var k := Index(q) + Index(r);
    if k < 7 then FromIndex(k) else FromIndex(k - 7)
  }

  function Opposite(q: Point): Point { if q == P0 then P0 else FromIndex(7 - Index(q)) }

  function X(q: Point): nat
  {
    match q case P0 => 0 case P1 => 2 case P2 => 8 case P3 => 10 case P4 => 10 case P5 => 8 case P6 => 2
  }

  function Y(q: Point): nat
  {
    match q case P0 => 0 case P1 => 1 case P2 => 5 case P3 => 1 case P4 => 10 case P5 => 6 case P6 => 10
  }

  const POINTS: Group<Point> := Group(P0, AddPoints, Opposite)

  lemma IndexUnique(q: Point, r: Point)
    requires Index(q) == Index(r)
    ensures q == r
  {}

  lemma Associates(a: Point, b: Point, c: Point)
    ensures AddPoints(AddPoints(a, b), c) == AddPoints(a, AddPoints(b, c))
  {
    RemaindersAssociate(Index(a), Index(b), Index(c));
    hide Index, AddPoints;
    IndexUnique(AddPoints(AddPoints(a, b), c), AddPoints(a, AddPoints(b, c)));
  }

  lemma RemaindersAssociate(a: nat, b: nat, c: nat)
    requires a < 7 && b < 7 && c < 7
    ensures ((a + b) % 7 + c) % 7 == (a + (b + c) % 7) % 7
  {
    WrapOnce(a + b, 7);
    WrapOnce((a + b) % 7 + c, 7);
    WrapOnce(b + c, 7);
    WrapOnce(a + (b + c) % 7, 7);
  }

  lemma PointsAreGroup()
    ensures IsGroup(POINTS)
  {
    forall a: Point
      ensures UnitLaw(POINTS, a) && InverseLaw(POINTS, a)
    {
      IndexUnique(AddPoints(a, P0), a);
      IndexUnique(AddPoints(a, Opposite(a)), P0);
    }
    forall a: Point, b: Point, c: Point
      ensures AssociativeLaw(POINTS, a, b, c)
    {
      Associates(a, b, c);
    }
  }

  /** LineSum modulo 11, with the multiples of 11 given. */
  predicate LineHolds(x1: int, y1: int, x2: int, d: int, e: int, xs: int, ys: int, u: int, v: int)
  {
    (xs + x1 + x2) * (d * d) - e * e == 11 * u && (ys + y1) * d - e * (x1 - xs) == 11 * v
  }

  lemma LineByMultiples(x1: int, y1: int, x2: int, d: int, e: int, xs: int, ys: int, u: int, v: int)
    requires LineHolds(x1, y1, x2, d, e, xs, ys, u, v)
    ensures LineSum(x1, y1, x2, d, e, xs, ys, 11)
  {
    CongBy((xs + x1 + x2) * (d * d), e * e, 11, u);
    CongBy((ys + y1) * d, e * (x1 - xs), 11, v);
  }

  /** The chords and tangents of P1 .. P6, a row for each point. */
  lemma Lines()
    ensures LineHolds(2, 1, 2, 2, 9, 8, 5, -3, 6) && LineHolds(2, 1, 8, 6, 4, 10, 1, 64, 4)
         && LineHolds(2, 1, 10, 8, 0, 10, 10, 128, 8) && LineHolds(2, 1, 10, 8, 9, 8, 6, 109, 10)
         && LineHolds(2, 1, 8, 6, 5, 2, 10, 37, 6)
    ensures LineHolds(8, 5, 2, -6, -4, 10, 1, 64, -4) && LineHolds(8, 5, 8, 10, 189, 10, 10, -3011, 48)
         && LineHolds(8, 5, 10, 2, -4, 8, 6, 8, 2) && LineHolds(8, 5, 10, 2, 5, 2, 10, 5, 0)
         && LineHolds(8, 5, 2, -6, 5, 2, 1, 37, -6)
    ensures LineHolds(10, 1, 2, -8, 0, 10, 10, 128, -8) && LineHolds(10, 1, 8, -2, 4, 8, 6, 8, -2)
         && LineHolds(10, 1, 10, 2, 297, 2, 10, -8011, -214) && LineHolds(10, 1, 8, -2, 5, 2, 1, 5, -4)
         && LineHolds(10, 1, 2, -8, 9, 8, 5, 109, -6)
    ensures LineHolds(10, 10, 2, -8, -9, 8, 6, 109, -10) && LineHolds(10, 10, 8, -2, -5, 2, 10, 5, 0)
         && LineHolds(10, 10, 10, 20, 297, 2, 1, -7219, -196) && LineHolds(10, 10, 8, -2, -4, 8, 5, 8, -2)
         && LineHolds(10, 10, 2, -8, 0, 10, 1, 128, -8)
    ensures LineHolds(8, 6, 2, -6, -5, 2, 10, 37, -6) && LineHolds(8, 6, 10, 2, -5, 2, 1, 5, 4)
         && LineHolds(8, 6, 10, 2, 4, 8, 5, 8, 2) && LineHolds(8, 6, 8, 12, 189, 10, 1, -2907, 42)
         && LineHolds(8, 6, 2, -6, 4, 10, 10, 64, -8)
    ensures LineHolds(2, 10, 8, 6, -5, 2, 1, 37, 6) && LineHolds(2, 10, 10, 8, -9, 8, 5, 109, 6)
         && LineHolds(2, 10, 10, 8, 0, 10, 1, 128, 8) && LineHolds(2, 10, 8, 6, -4, 10, 10, 64, 8)
         && LineHolds(2, 10, 2, 20, 9, 8, 6, 429, 34)
  {}

  lemma ChordOf(q: Point, r: Point)
    requires q != P0 && r != P0 && X(q) != X(r)
    ensures var s := AddPoints(q, r); Chord(X(q), Y(q), X(r), Y(r), X(s), Y(s), 11)
  {
    hide LineHolds, LineSum;
    Lines();
    var s, d, e := AddPoints(q, r), X(r) - X(q), Y(r) - Y(q);
    var u, v :| LineHolds(X(q), Y(q), X(r), d, e, X(s), Y(s), u, v);
    LineByMultiples(X(q), Y(q), X(r), d, e, X(s), Y(s), u, v);
  }

  function TangentRise(q: Point): nat
  {
    match q case P0 => 0 case P1 => 9 case P2 => 189 case P3 => 297 case P4 => 297 case P5 => 189 case P6 => 9
  }

  lemma RiseOf(q: Point)
    requires q != P0
    ensures 3 * (X(q) * X(q)) - 3 == TangentRise(q)
  {
    match q {
      case P1 => assert X(P1) * X(P1) == 2 * 2;
      case P2 => assert X(P2) * X(P2) == 8 * 8;
      case P3 => assert X(P3) * X(P3) == 10 * 10;
      case P4 => assert X(P4) * X(P4) == 10 * 10;
      case P5 => assert X(P5) * X(P5) == 8 * 8;
      case P6 => assert X(P6) * X(P6) == 2 * 2;
    }
  }

  lemma RisingLine(q: Point)
    requires q != P0
    ensures var s := AddPoints(q, q); LineSum(X(q), Y(q), X(q), 2 * Y(q), TangentRise(q), X(s), Y(s), 11)
  {
    hide LineHolds, LineSum;
    Lines();
    match q {
      case P1 => LineByMultiples(2, 1, 2, 2, 9, 8, 5, -3, 6);
      case P2 => LineByMultiples(8, 5, 8, 10, 189, 10, 10, -3011, 48);
      case P3 => LineByMultiples(10, 1, 10, 2, 297, 2, 10, -8011, -214);
      case P4 => LineByMultiples(10, 10, 10, 20, 297, 2, 1, -7219, -196);
      case P5 => LineByMultiples(8, 6, 8, 12, 189, 10, 1, -2907, 42);
      case P6 => LineByMultiples(2, 10, 2, 20, 9, 8, 6, 429, 34);
    }
  }

  lemma TangentOf(q: Point)
    requires q != P0
    ensures var s := AddPoints(q, q); Tangent(X(q), Y(q), -3, X(s), Y(s), 11)
  {
    hide LineSum, X, Y, AddPoints, TangentRise;
    RiseOf(q);
    RisingLine(q);
  }

  // ---- The curve ----

  /** The parameters, with 8-bit words. */
  ghost predicate IsSmall(c: Curve<Point>)
    reads c.order
  {
    && c.group == POINTS && c.base == P1 && c.x == X && c.y == Y && c.p == 11 && c.doubling == Default
    && c.W == 1 && c.numWords == 1 && c.numBytes == 1 && c.numNBits == 3 && c.order[..] == [7]
  }

  lemma SmallPrimes()
    ensures Prime(7) && Prime(11)
  {
    forall d: nat | d > 0 && Divides(d, 7)
      ensures d == 1 || d == 7
    {
      DivisorRemainder(d, 7);
      assert 7 % 2 != 0 && 7 % 3 != 0 && 7 % 4 != 0 && 7 % 5 != 0 && 7 % 6 != 0;
    }
    forall d: nat | d > 0 && Divides(d, 11)
      ensures d == 1 || d == 11
    {
      DivisorRemainder(d, 11);
      assert 11 % 2 != 0 && 11 % 3 != 0 && 11 % 4 != 0 && 11 % 5 != 0 && 11 % 6 != 0;
      assert 11 % 7 != 0 && 11 % 8 != 0 && 11 % 9 != 0 && 11 % 10 != 0;
    }
  }

  lemma DivisorRemainder(d: nat, p: nat)
    requires d > 0 && p > 0 && Divides(d, p)
    ensures d <= p && p % d == 0
  {
    DividesLe(d, p);
    var q :| p == Times(q, d);
    DivModUnique(p, q, 0, d);
  }

  lemma {:induction false} MultiplesOf(k: nat, q: Point)
    ensures 0 <= k * Index(q) && Index(Mul(POINTS, k, q)) == (k * Index(q)) % 7
  {
    hide Index, AddPoints;
    var i := Index(q);
    if k == 0 {
      IndexOfZero();
    } else {
      MultiplesOf(k - 1, q);
      MulDist(k, 1, i);
      RemainderStep((k - 1) * i, i, k * i);
    }
  }

  lemma IndexOfZero()
    ensures Index(P0) == 0
  {}

  lemma RemainderStep(a: nat, b: nat, c: nat)
    requires c == a + b
    ensures (a % 7 + b) % 7 == c % 7
  {}

  lemma SmallSizes(c: Curve<Point>)
    requires IsSmall(c)
    ensures ValidSizes(c) && Order(c) == 7
  {
    assert Pow(2, 1) == 2;
    assert Pow(2, 2) == 4;
    assert Pow(2, 3) == 8;
    PowMonotonic(2, 3, 8);
    assert Val(c.order[..], 1, 8) == 0 + 7 * Pow(Base(8), 0);
    SmallPrimes();
  }

  lemma SmallPoints(c: Curve<Point>)
    requires IsSmall(c)
    ensures ValidPoints(c)
  {
    PointsAreGroup();
    SmallPrimes();
    PowMonotonic(2, 4, 8);
    assert Pow(2, 4) == 16;
    forall q: Point
      ensures CoordinateLaw(c, q) && OppositeLaw(c, q) && TangentLaw(c, q)
    {
      OppositeOf(q);
      if q != P0 {
        TangentOf(q);
      }
    }
    forall q: Point, r: Point
      ensures PointLaw(c, q, r) && ChordLaw(c, q, r)
    {
      PairOf(c, q, r);
    }
  }

  lemma OppositeOf(q: Point)
    ensures X(q) < 11 && Y(q) < 11
    ensures q != P0 ==> X(Opposite(q)) == X(q) && Cong(Y(Opposite(q)) + Y(q), 0, 11)
  {
    if q != P0 {
      CongBy(Y(Opposite(q)) + Y(q), 0, 11, 1);
    }
  }

  lemma PairOf(c: Curve<Point>, q: Point, r: Point)
    requires IsSmall(c)
    ensures PointLaw(c, q, r) && ChordLaw(c, q, r)
  {
    hide AddPoints, LineSum;
    if q != P0 && r != P0 {
      SameAbscissa(q, r);
      if X(q) != X(r) {
        ChordOf(q, r);
      }
    }
  }

  lemma SameAbscissa(q: Point, r: Point)
    requires q != P0 && r != P0
    ensures X(q) == X(r) ==> q == r || (q == Opposite(r) && Y(q) != Y(r))
  {}

  method SmallCurve() returns (c: Curve<Point>)
    ensures IsSmall(c) && ValidCurve(c)
  {
    var order := new nat[] [7];
    c := Curve(POINTS, P1, X, Y, 11, Default, 1, 1, 1, 3, order);
    SmallCurveIsValid(c);
  }

  lemma SmallCurveIsValid(c: Curve<Point>)
    requires IsSmall(c)
    ensures ValidCurve(c) && Order(c) == 7
  {
    SmallSizes(c);
    SmallPoints(c);
    hide ValidPoints, ValidSizes, Pow, Val, Mul, Index;
    forall q: Point
      ensures OrderLaw(c, q)
    {
      MultiplesOf(7, q);
      RemainderOfMultiple(Index(q));
      IndexOfZero();
      IndexUnique(Mul(POINTS, 7, q), P0);
    }
  }

  lemma RemainderOfMultiple(i: nat)
    ensures (7 * i) % 7 == 0
  {}

  // ---- Signatures that are made and refused ----

  lemma SmallMultiples()
    ensures Mul(POINTS, 1, P1) == P1 && Mul(POINTS, 2, P1) == P2
  {
    hide Mul;
    MultiplesOf(1, P1);
    MultiplesOf(2, P1);
    IndexUnique(Mul(POINTS, 1, P1), P1);
    IndexUnique(Mul(POINTS, 2, P1), P2);
  }

  /** Private key 2 and nonce 2 on the hash value 3: x(2 G) = 8 is not below 7, so the stored r
      is refused, although both scalars are safe. */
  lemma UnreducedR(c: Curve<Point>)
    requires IsSmall(c)
    ensures c.x(Delivered(c, 2, c.base)) == 8
    ensures SignatureParts(c, 2, 3, 2, 8, 6) && !Accepts(c, Mul(c.group, 2, c.base), 3, 8, 6)
  {
    SmallCurveIsValid(c);
    SmallMultiples();
    assert Pow(2, 3) == 8 by { SmallPowers(); }
    hide ValidPoints, ValidSizes, Pow, Val, Mul, Accepts;
    CongBy(6 * 2, 3 + 8 * 2, 7, -1);
    SignatureAccepted(c, 2, 3, 2, 8, 6);
  }

  /** Private key 2 and nonce 1 on the hash value 3: s is 0, which is stored and refused. */
  lemma ZeroS(c: Curve<Point>)
    requires IsSmall(c)
    ensures c.x(Delivered(c, 1, c.base)) == 2
    ensures SignatureParts(c, 2, 3, 1, 2, 0) && !Accepts(c, Mul(c.group, 2, c.base), 3, 2, 0)
  {
    SmallCurveIsValid(c);
    SmallMultiples();
    assert Pow(2, 3) == 8 by { SmallPowers(); }
    hide ValidPoints, ValidSizes, Pow, Val, Mul, Accepts;
    CongBy(0 * 1, 3 + 2 * 2, 7, -1);
    SignatureAccepted(c, 2, 3, 1, 2, 0);
  }

  lemma SmallPowers()
    ensures Pow(2, 3) == 8
  {
    assert Pow(2, 1) == 2;
    assert Pow(2, 2) == 4;
  }
}
