/** Abstract commutative groups and multiples of a point: what the curve's point formulas
    are taken to compute. */
module Group {
  import opened Arithmetic

  datatype Group<!P> = Group(zero: P, add: (P, P) -> P, neg: P -> P)

  ghost predicate UnitLaw<P>(g: Group<P>, a: P) { g.add(a, g.zero) == a }

  ghost predicate InverseLaw<P>(g: Group<P>, a: P) { g.add(a, g.neg(a)) == g.zero }

  ghost predicate CommutativeLaw<P>(g: Group<P>, a: P, b: P) { g.add(a, b) == g.add(b, a) }

  ghost predicate AssociativeLaw<P>(g: Group<P>, a: P, b: P, c: P)
  {
    g.add(g.add(a, b), c) == g.add(a, g.add(b, c))
  }

  /** The laws of a commutative group. */
  ghost predicate IsGroup<P(!new)>(g: Group<P>)
  {
    && (forall a :: UnitLaw(g, a))
    && (forall a :: InverseLaw(g, a))
    && (forall a, b :: CommutativeLaw(g, a, b))
    && (forall a, b, c :: AssociativeLaw(g, a, b, c))
  }

  /** k times the point p. */
  ghost function Mul<P>(g: Group<P>, k: nat, p: P): P
  {
    if k == 0 then g.zero else g.add(Mul(g, k - 1, p), p)
  }

  lemma Assoc<P(!new)>(g: Group<P>, a: P, b: P, c: P)
    requires IsGroup(g)
    ensures g.add(g.add(a, b), c) == g.add(a, g.add(b, c))
  {
    assert AssociativeLaw(g, a, b, c);
  }

  lemma Comm<P(!new)>(g: Group<P>, a: P, b: P)
    requires IsGroup(g)
    ensures g.add(a, b) == g.add(b, a)
  {
    assert CommutativeLaw(g, a, b);
  }

  lemma {:induction false} MulSum<P(!new)>(g: Group<P>, k: nat, l: nat, p: P)
    requires IsGroup(g)
    ensures Mul(g, k + l, p) == g.add(Mul(g, k, p), Mul(g, l, p))
  {
    AddZero(g, Mul(g, k, p));
    if l > 0 {
      MulSum(g, k, l - 1, p);
      Assoc(g, Mul(g, k, p), Mul(g, l - 1, p), p);
    }
  }

  lemma AddZero<P(!new)>(g: Group<P>, a: P)
    requires IsGroup(g)
    ensures g.add(a, g.zero) == a && g.add(g.zero, a) == a
  {
    assert UnitLaw(g, a);
    Comm(g, a, g.zero);
  }

  lemma {:induction false} MulZero<P(!new)>(g: Group<P>, k: nat)
    requires IsGroup(g)
    ensures Mul(g, k, g.zero) == g.zero
  {
    if k > 0 {
      MulZero(g, k - 1);
      AddZero(g, g.zero);
    }
  }

  lemma {:induction false} MulProduct<P(!new)>(g: Group<P>, k: nat, l: nat, kl: nat, p: P)
    requires IsGroup(g) && kl == k * l
    ensures Mul(g, kl, p) == Mul(g, k, Mul(g, l, p))
  {
    if k == 0 {
      assert kl == 0;
    } else {
      TimesStep(k, l);
      MulProduct(g, k - 1, l, kl - l, p);
      MulSum(g, kl - l, l, p);
    }
  }

  lemma TimesStep(k: nat, l: nat)
    requires k > 0
    ensures k * l == (k - 1) * l + l && (k - 1) * l >= 0
  {
    MulDist(k, 1, l);
    MulLe(0, k - 1, l);
  }

  /** Multiples of a point depend only on the multiplier modulo the point's order. */
  lemma MulOrder<P(!new)>(g: Group<P>, k: nat, n: nat, p: P)
    requires IsGroup(g) && n > 0 && Mul(g, n, p) == g.zero
    ensures Mul(g, k, p) == Mul(g, k % n, p)
  {
    var q, r := k / n, k % n;
    assert k == q * n + r && q >= 0 && k - r >= 0;
    hide Mul;
    MulProduct(g, q, n, k - r, p);
    MulZero(g, q);
    MulSum(g, k - r, r, p);
    AddZero(g, Mul(g, r, p));
  }

  lemma MulCong<P(!new)>(g: Group<P>, k: nat, l: nat, n: nat, p: P)
    requires IsGroup(g) && n > 0 && Mul(g, n, p) == g.zero && Cong(k, l, n)
    ensures Mul(g, k, p) == Mul(g, l, p)
  {
    hide Mul;
    CongIffMod(k, l, n);
    MulOrder(g, k, n, p);
    MulOrder(g, l, n, p);
  }

  lemma Cancel<P(!new)>(g: Group<P>, a: P)
    requires IsGroup(g)
    ensures g.add(a, g.neg(a)) == g.zero
  {
    assert InverseLaw(g, a);
  }

  /** Adding a sum and a difference doubles the first term. */
  lemma SumPlusDifference<P(!new)>(g: Group<P>, a: P, b: P)
    requires IsGroup(g)
    ensures g.add(g.add(a, b), g.add(a, g.neg(b))) == g.add(a, a)
  {
    var d := g.add(a, g.neg(b));
    Cancel(g, b);
    AddZero(g, a);
    Assoc(g, a, b, d);
    Comm(g, b, d);
    Assoc(g, a, g.neg(b), b);
    Comm(g, g.neg(b), b);
    assert g.add(d, b) == g.add(a, g.zero);
  }

  /** The operands for which a sum is found by the line through two points: neither is zero
      and they are neither equal nor opposite. */
  ghost predicate Separate<P>(g: Group<P>, a: P, b: P)
  {
    a != g.zero && b != g.zero && a != b && a != g.neg(b)
  }

  /** The inverse is the only one. */
  lemma OnlyInverse<P(!new)>(g: Group<P>, a: P, b: P)
    requires IsGroup(g)
    ensures g.add(a, b) == g.zero <==> a == g.neg(b)
    ensures g.neg(g.neg(a)) == a
  {
    var m := g.neg(b);
    Cancel(g, b);
    Comm(g, b, m);
    Assoc(g, a, b, m);
    AddZero(g, a);
    AddZero(g, m);
    Cancel(g, a);
    Cancel(g, g.neg(a));
    var n := g.neg(g.neg(a));
    Assoc(g, a, g.neg(a), n);
    AddZero(g, n);
  }

  lemma SeparateParts<P(!new)>(g: Group<P>, a: P, b: P)
    requires IsGroup(g) && Separate(g, a, b)
    ensures g.add(a, b) != g.zero && g.add(a, g.neg(b)) != g.zero && g.neg(b) != g.zero
    ensures Separate(g, a, g.neg(b)) && Separate(g, b, a)
  {
    OnlyInverse(g, a, b);
    OnlyInverse(g, a, g.neg(b));
    OnlyInverse(g, b, b);
    OnlyInverse(g, b, a);
    OnlyInverse(g, g.zero, b);
    AddZero(g, b);
    Comm(g, a, b);
  }

  /** Without elements of order 2, the sum and the difference of separate points are separate. */
  lemma SeparateSums<P(!new)>(g: Group<P>, a: P, b: P)
    requires IsGroup(g) && Separate(g, a, b) && g.add(a, a) != g.zero && g.add(b, b) != g.zero
    ensures Separate(g, g.add(a, b), g.add(a, g.neg(b)))
  {
    var s, d := g.add(a, b), g.add(a, g.neg(b));
    SeparateParts(g, a, b);
    SumPlusDifference(g, a, b);
    OnlyInverse(g, s, d);
    if s == d {
      var n := g.neg(a);
      Comm(g, a, b);
      Comm(g, a, g.neg(b));
      Assoc(g, b, a, n);
      Assoc(g, g.neg(b), a, n);
      Cancel(g, a);
      AddZero(g, b);
      AddZero(g, g.neg(b));
      Cancel(g, b);
    }
  }

  /** In a group of odd order only zero is its own opposite. */
  lemma NoHalfTurn<P(!new)>(g: Group<P>, n: nat, a: P)
    requires IsGroup(g) && n % 2 == 1 && Mul(g, n, a) == g.zero && a != g.zero
    ensures g.add(a, a) != g.zero && a != g.neg(a)
  {
    assert Mul(g, 1, a) == a && Mul(g, 2, a) == g.add(a, a) by {
      AddZero(g, a);
      assert Mul(g, 1, a) == g.add(Mul(g, 0, a), a);
    }
    hide Mul;
    if g.add(a, a) == g.zero {
      MulOrder(g, n, 2, a);
    }
    OnlyInverse(g, a, a);
  }
}
