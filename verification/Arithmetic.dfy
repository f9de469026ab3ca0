/** Powers, divisibility and congruence on integers, with the few facts the word
    arithmetic and the group arithmetic need. */
module Arithmetic {

  function Pow(b: nat, e: nat): (r: nat)
    ensures b > 0 ==> r > 0
  {
    if e == 0 then 1 else b * Pow(b, e - 1)
  }

  lemma {:induction false} PowAdd(b: nat, x: nat, y: nat)
    ensures Pow(b, x + y) == Pow(b, x) * Pow(b, y)
  {
    if x == 0 {
    } else {
      PowAdd(b, x - 1, y);
      assert Pow(b, x + y) == b * Pow(b, x - 1 + y);
      MulAssoc(b, Pow(b, x - 1), Pow(b, y));
    }
  }

  lemma {:induction false} PowMul(b: nat, x: nat, y: nat)
    ensures Pow(Pow(b, x), y) == Pow(b, x * y)
  {
    if y == 0 {
    } else {
      PowMul(b, x, y - 1);
      assert x * y == x + x * (y - 1);
      PowAdd(b, x, x * (y - 1));
    }
  }

  lemma {:induction false} PowMonotonic(b: nat, x: nat, y: nat)
    requires b >= 1 && x <= y
    ensures Pow(b, x) <= Pow(b, y)
  {
    PowAdd(b, x, y - x);
    MulLe(1, Pow(b, y - x), Pow(b, x));
  }

  // ---- Multiplication, one small step at a time ----

  lemma MulAssoc(x: int, y: int, z: int)
    ensures x * (y * z) == (x * y) * z
  {}

  lemma MulLe(x: int, y: int, z: int)
    requires x <= y && 0 <= z
    ensures x * z <= y * z && z * x <= z * y
  {}

  lemma MulDist(x: int, y: int, z: int)
    ensures (x + y) * z == x * z + y * z
    ensures (x - y) * z == x * z - y * z
    ensures z * (x + y) == z * x + z * y
    ensures z * (x - y) == z * x - z * y
  {}

  /** A quotient and remainder are determined by x == q * m + r with 0 <= r < m. */
  lemma DivModUnique(x: int, q: int, r: int, m: int)
    requires 0 <= r < m && x == q * m + r
    ensures x / m == q && x % m == r
  {
    var q', r' := x / m, x % m;
    assert x == q' * m + r';
    MulDist(q, q', m);
    if q' < q {
      MulLe(1, q - q', m);
    } else if q' > q {
      MulLe(1, q' - q, m);
    }
  }

  /** What unsigned wrap-around gives for a value that is at most one modulus off. */
  lemma WrapOnce(x: int, m: int)
    requires m > 0 && -m <= x < 2 * m
    ensures x % m == if x < 0 then x + m else if x < m then x else x - m
  {
    if x < 0 {
      DivModUnique(x, -1, x + m, m);
    } else if x < m {
      DivModUnique(x, 0, x, m);
    } else {
      DivModUnique(x, 1, x - m, m);
    }
  }

  lemma ModSplit(x: int, a: nat, b: nat)
    requires a > 0 && b > 0 && 0 <= x
    ensures a * b > 0
    ensures x % (a * b) == (x % a) + a * ((x / a) % b)
    ensures x / (a * b) == (x / a) / b
  {
    var q, r := x / a, x % a;
    var q2, r2 := q / b, q % b;
    assert x == q * a + r;
    assert q == q2 * b + r2;
    assert q * a == q2 * (a * b) + a * r2 by {
      MulDist(q2 * b, r2, a);
      MulAssoc(q2, b, a);
      assert b * a == a * b;
    }
    MulLe(r2, b - 1, a);
    MulDist(b, 1, a);
    assert 0 <= r + a * r2 < a * b by { MulLe(0, r2, a); }
    MulLe(1, a, b);
    DivModUnique(x, q2, r + a * r2, a * b);
  }

  // ---- Divisibility and congruence ----

  function Times(q: int, m: int): int { q * m }

  ghost predicate Divides(d: int, x: int) {
    exists q: int :: x == Times(q, d)
  }

  /** a and b differ by a multiple of m. */
  ghost predicate Cong(a: int, b: int, m: int) {
    exists q: int :: a - b == Times(q, m)
  }

  lemma CongBy(a: int, b: int, m: int, q: int)
    requires a - b == q * m
    ensures Cong(a, b, m)
  {
    assert a - b == Times(q, m);
  }

  lemma CongRefl(a: int, m: int)
    ensures Cong(a, a, m)
  {
    CongBy(a, a, m, 0);
  }

  lemma CongSym(a: int, b: int, m: int)
    requires Cong(a, b, m)
    ensures Cong(b, a, m)
  {
    var q :| a - b == Times(q, m);
    assert -q * m == -(q * m);
    CongBy(b, a, m, -q);
  }

  lemma CongTrans(a: int, b: int, c: int, m: int)
    requires Cong(a, b, m) && Cong(b, c, m)
    ensures Cong(a, c, m)
  {
    var q :| a - b == Times(q, m);
    var r :| b - c == Times(r, m);
    MulDist(q, r, m);
    CongBy(a, c, m, q + r);
  }

  lemma CongAdd(a: int, b: int, c: int, d: int, m: int)
    requires Cong(a, b, m) && Cong(c, d, m)
    ensures Cong(a + c, b + d, m)
    ensures Cong(a - c, b - d, m)
  {
    var q :| a - b == Times(q, m);
    var r :| c - d == Times(r, m);
    MulDist(q, r, m);
    CongBy(a + c, b + d, m, q + r);
    CongBy(a - c, b - d, m, q - r);
  }

  lemma CongMul(a: int, b: int, c: int, d: int, m: int)
    requires Cong(a, b, m) && Cong(c, d, m)
    ensures Cong(a * c, b * d, m)
  {
    var q :| a - b == Times(q, m);
    var r :| c - d == Times(r, m);
    assert a * c - b * d == (a - b) * c + b * (c - d) by {
      MulDist(a, b, c);
      MulDist(c, d, b);
    }
    assert (q * m) * c == (q * c) * m;
    assert b * (r * m) == (b * r) * m;
    MulDist(q * c, b * r, m);
    CongBy(a * c, b * d, m, q * c + b * r);
  }

  lemma CongMod(a: int, m: int)
    requires m > 0
    ensures Cong(a % m, a, m) && Cong(a, a % m, m)
  {
    CongBy(a, a % m, m, a / m);
    CongSym(a, a % m, m);
  }

  lemma CongUnique(a: int, b: int, m: int)
    requires 0 <= a < m && 0 <= b < m && Cong(a, b, m)
    ensures a == b
  {
    var q :| a - b == Times(q, m);
    if q >= 1 {
      MulLe(1, q, m);
    } else if q <= -1 {
      MulLe(q, -1, m);
    }
  }

  lemma CongIffMod(a: int, b: int, m: int)
    requires m > 0
    ensures Cong(a, b, m) <==> a % m == b % m
  {
    CongMod(a, m);
    CongMod(b, m);
    if Cong(a, b, m) {
      CongTrans(a % m, a, b, m);
      CongTrans(a % m, b, b % m, m);
      CongUnique(a % m, b % m, m);
    }
    if a % m == b % m {
      CongTrans(a, a % m, b, m);
    }
  }

  /** Halving is allowed in a congruence to an odd modulus. */
  lemma CongHalve(a: int, b: int, m: int)
    requires m % 2 == 1 && Cong(2 * a, 2 * b, m)
    ensures Cong(a, b, m)
  {
    var q :| 2 * a - 2 * b == Times(q, m);
    var h := m / 2;
    assert m == 2 * h + 1;
    MulDist(2 * h, 1, q);
    assert q * m == 2 * (q * h) + q;
    var p := a - b - q * h;
    assert q == 2 * p;
    assert (2 * p) * m == 2 * (p * m);
    CongBy(a, b, m, p);
  }

  lemma DividesBy(d: int, x: int, q: int)
    requires x == q * d
    ensures Divides(d, x)
  {
    assert x == Times(q, d);
  }

  lemma DividesAdd(d: int, x: int, y: int)
    requires Divides(d, x) && Divides(d, y)
    ensures Divides(d, x + y) && Divides(d, x - y)
  {
    var q :| x == Times(q, d);
    var r :| y == Times(r, d);
    MulDist(q, r, d);
    DividesBy(d, x + y, q + r);
    DividesBy(d, x - y, q - r);
  }

  lemma DividesLe(d: int, x: int)
    requires d > 0 && x > 0 && Divides(d, x)
    ensures d <= x
  {
    var q :| x == Times(q, d);
    if q <= 0 {
      MulLe(q, 0, d);
    } else {
      MulLe(1, q, d);
    }
  }

  /** An odd divisor of 2 * x divides x. */
  lemma DividesHalf(d: int, x: int)
    requires d % 2 == 1 && Divides(d, 2 * x)
    ensures Divides(d, x)
  {
    var q :| 2 * x == Times(q, d);
    CongBy(2 * x, 2 * 0, d, q);
    CongHalve(x, 0, d);
    var p :| x - 0 == Times(p, d);
    DividesBy(d, x, p);
  }

  lemma DividesOdd(d: int, x: int)
    requires Divides(d, x) && x % 2 == 1
    ensures d % 2 == 1
  {
    var q :| x == Times(q, d);
    OddFactor(q, d / 2, d % 2);
  }

  lemma OddFactor(q: int, h: int, r: int)
    requires (q * (2 * h + r)) % 2 == 1 && 0 <= r <= 1
    ensures r == 1
  {
    assert q * (2 * h + r) == 2 * (q * h) + q * r;
  }
}
