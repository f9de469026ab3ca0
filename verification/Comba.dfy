/** Comba multiplication and squaring: each word of the product is summed in a three-word
    accumulator (r0, r1, r2), column by column. */
module Comba {
  import opened Arithmetic
  import opened Bits
  import opened Vli

  /** The number in the three-word accumulator. */
  function Acc(r0: nat, r1: nat, r2: nat, b: nat): nat { r0 + b * (r1 + b * r2) }

  lemma AccDigits(r0: nat, r1: nat, r2: nat, b: nat)
    requires r0 < b && r1 < b && r2 < b
    ensures Acc(r0, r1, r2, b) < b * (b * b)
    ensures Acc(r0, r1, r2, b) == (r0 + b * r1) + (b * b) * r2
  {
    MulDist(r1, b * r2, b);
    MulAssoc(b, b, r2);
    PairBelow(r0, r1, b);
    TopBelow(r0 + b * r1, r2, b * b, b);
  }

  lemma TopBelow(low: int, high: int, m: int, b: int)
    requires 0 <= low < m && 0 <= high < b
    ensures low + m * high < b * m
  {
    MulLe(high, b - 1, m);
    MulDist(b, 1, m);
  }

  // ---- Adding a product to the accumulator ----

  /** A low pair with carry t out of it, and the wrapped top word s2, together are the
      accumulator after adding p, modulo the accumulator's size. */
  lemma AccPlus(r0: nat, r1: nat, r2: nat, p: int, s0: nat, s1: nat, s2: nat, b: nat, t: int)
    requires r0 < b && r1 < b && r2 < b && s0 < b && s1 < b && b >= 2
    requires s0 + b * s1 + (b * b) * t == r0 + b * r1 + p
    requires s2 == (r2 + t) % b
    ensures Acc(s0, s1, s2, b) == (Acc(r0, r1, r2, b) + p) % (b * (b * b))
  {
    AccDigits(r0, r1, r2, b);
    AccDigits(s0, s1, s2, b);
    PairBelow(s0, s1, b);
    HighPlus(r0 + b * r1, r2, p, s0 + b * s1, s2, t, b * b, b);
  }

  lemma HighPlus(low: int, high: int, p: int, low': int, high': int, t: int, m: int, b: int)
    requires b >= 2 && 0 <= low' && low' < m && low' + m * t == low + p && high' == (high + t) % b
    ensures low' + m * high' == (low + m * high + p) % (b * m)
  {
    var d := (high + t) / b;
    assert high + t == b * d + high';
    var x := low + m * high + p;
    assert x == low' + m * (high + t) by { MulDist(high, t, m); }
    assert m * (high + t) == d * (b * m) + m * high' by {
      MulDist(b * d, high', m);
      assert m * (b * d) == d * (b * m);
    }
    TopBelow(low', high', m, b);
    MulLe(0, high', m);
    DivModUnique(x, d, low' + m * high', b * m);
  }

  lemma ProductBelow(a: nat, c: nat, b: nat)
    requires a < b && c < b
    ensures 0 <= a * c <= (b - 1) * (b - 1) < b * b
  {
    MulLe(0, a, c);
    MulLe(a, b - 1, c);
    MulLe(c, b - 1, b - 1);
  }

  lemma PairBelow(r0: nat, r1: nat, b: nat)
    requires r0 < b && r1 < b
    ensures 0 <= b * r1 && r0 + b * r1 < b * b
  {
    MulLe(r1, b - 1, b);
  }

  /** Splitting a double word into its words. */
  lemma PairDigits(x: nat, b: nat)
    requires x < b * b && b > 0
    ensures 0 <= x / b < b && 0 <= x % b < b && x == x % b + b * (x / b)
  {
    if x / b >= b {
      MulLe(b, x / b, b);
    }
  }

  lemma OrPair(r0: nat, r1: nat, w: nat)
    requires r0 < Base(w)
    ensures BitOr(r1 * Base(w), r0) == r0 + Base(w) * r1
  {
    DivModUnique(r1 * Base(w), r1, 0, Base(w));
    OrDisjoint(r0, r1 * Base(w), w);
  }

  /** Adding p to a double word: the wrapped sum's two words and the carry out of it. */
  lemma DoubleWordAdd(p: int, low: int, sum: int, c: int, b: int)
    requires 0 <= p < b * b && 0 <= low < b * b && b > 0
    requires sum == (low + p) % (b * b) && c == if sum < p then 1 else 0
    ensures 0 <= sum && 0 <= sum / b < b && 0 <= sum % b < b
    ensures sum % b + b * (sum / b) + (b * b) * c == low + p
  {
    CarryTrick(p, low, 0, b * b);
    PairDigits(sum, b);
  }

  /** muladd with a double-width type: adds a * b to the accumulator. */
  method MulAdd(a: nat, b: nat, r0: nat, r1: nat, r2: nat, w: nat) returns (s0: nat, s1: nat, s2: nat)
    requires w >= 1 && a < Base(w) && b < Base(w) && r0 < Base(w) && r1 < Base(w) && r2 < Base(w)
    ensures s0 < Base(w) && s1 < Base(w) && s2 < Base(w)
    ensures Acc(s0, s1, s2, Base(w))
         == (Acc(r0, r1, r2, Base(w)) + a * b) % (Base(w) * (Base(w) * Base(w)))
  {
    BaseEven(w);
    hide Pow, BitOr;
    var B := Base(w);
    ProductBelow(a, b, B);
    PairBelow(r0, r1, B);
    OrPair(r0, r1, w);
    var p := a * b;
    var r01 := BitOr(r1 * B, r0);
    var sum := (r01 + p) % (B * B);
    var c := if sum < p then 1 else 0;
    DoubleWordAdd(p, r01, sum, c, B);
    s2 := (r2 + c) % B;
    s1 := sum / B;
    s0 := sum % B;
    AccPlus(r0, r1, r2, p, s0, s1, s2, B, c);
  }

  /** mul2add with a double-width type: adds 2 * a * b to the accumulator. */
  method Mul2Add(a: nat, b: nat, r0: nat, r1: nat, r2: nat, w: nat) returns (s0: nat, s1: nat, s2: nat)
    requires w >= 1 && a < Base(w) && b < Base(w) && r0 < Base(w) && r1 < Base(w) && r2 < Base(w)
    ensures s0 < Base(w) && s1 < Base(w) && s2 < Base(w)
    ensures Acc(s0, s1, s2, Base(w))
         == (Acc(r0, r1, r2, Base(w)) + 2 * (a * b)) % (Base(w) * (Base(w) * Base(w)))
  {
    BaseEven(w);
    hide Pow, BitOr;
    var B := Base(w);
    ProductBelow(a, b, B);
    PairBelow(r0, r1, B);
    OrPair(r0, r1, w);
    var p := a * b;
    var r01 := BitOr(r1 * B, r0);
    var t := p / Pow(2, w * 2 - 1);
    TopBit(p, w);
    s2 := (r2 + t) % B;
    p := (p * 2) % (B * B);
    var sum := (r01 + p) % (B * B);
    var c := if sum < p then 1 else 0;
    DoubleWordAdd(p, r01, sum, c, B);
    AddTwice(r2, t, c, B);
    s2 := (s2 + c) % B;
    s1 := sum / B;
    s0 := sum % B;
    MulDist(t, c, B * B);
    AccPlus(r0, r1, r2, 2 * (a * b), s0, s1, s2, B, t + c);
  }

  /** Doubling a double word: the bit lost at the top is its highest bit. */
  lemma TopBit(p: nat, w: nat)
    requires w >= 1 && p < Base(w) * Base(w)
    ensures 0 <= p / Pow(2, w * 2 - 1) <= 1
    ensures 2 * p == (p * 2) % (Base(w) * Base(w)) + (Base(w) * Base(w)) * (p / Pow(2, w * 2 - 1))
  {
    var h := Pow(2, w * 2 - 1);
    PowAdd(2, w, w);
    assert Base(w) * Base(w) == 2 * h;
    if p < h {
      DivModUnique(p, 0, p, h);
      DivModUnique(p * 2, 0, p * 2, 2 * h);
    } else {
      DivModUnique(p, 1, p - h, h);
      DivModUnique(p * 2, 1, p * 2 - 2 * h, 2 * h);
    }
  }

  lemma AddTwice(r: nat, t: nat, c: nat, b: nat)
    requires r < b && t <= 1 && c <= 1 && b >= 2
    ensures ((r + t) % b + c) % b == (r + (t + c)) % b
  {
    WrapOnce(r + t, b);
    WrapOnce((r + t) % b + c, b);
    if r + t + c < b {
      WrapOnce(r + (t + c), b);
    } else {
      WrapOnce(r + (t + c), b);
    }
  }

  // ---- The forms without a double-width type: half-word products ----

  /** a * b as two words p1, p0, from four half-word products. */
  method HalfWordProduct(a: nat, b: nat, w: nat) returns (p0: nat, p1: nat)
    requires w >= 2 && w % 2 == 0 && a < Base(w) && b < Base(w)
    ensures p0 < Base(w) && p1 < Base(w) && a * b == p0 + Base(w) * p1
  {
    hide Pow, BitOr;
    var H := Base(w / 2);
    var B := Base(w);
    HalfBase(w);
    PairDigits(a, H);
    PairDigits(b, H);
    var a0, a1 := a % H, a / H;
    var b0, b1 := b % H, b / H;
    HalfWords(a0, a1, b0, b1, H);
    var i0 := a0 * b0;
    var i1 := a0 * b1;
    var i2 := a1 * b0;
    var i3 := a1 * b1;
    i2 := (i2 + i0 / H) % B;
    i2 := (i2 + i1) % B;
    if i2 < i1 {
      i3 := i3 + H; // below: the sum stays within a word
    }
    LowHalf(i2, H);
    OrDisjointHalf(i0 % H, i2 % H, w);
    p0 := BitOr(i0 % H, (i2 * H) % B);
    p1 := i3 + i2 / H;
    HighWord(a, b, p0, p1, B);
  }

  /** The four half-word products: the middle ones overflow a word at most once, and then
      the carry goes to the high half of the high word. */
  lemma HalfWords(a0: int, a1: int, b0: int, b1: int, h: int)
    requires 0 <= a0 < h && 0 <= a1 < h && 0 <= b0 < h && 0 <= b1 < h && h >= 2
    ensures 0 <= a0 * b0 && 0 <= a0 * b1 && 0 <= a1 * b0 && 0 <= a1 * b1
    ensures var i0, i1, m := a0 * b0, a0 * b1, (a1 * b0 + (a0 * b0) / h) % (h * h);
            var i2 := (m + i1) % (h * h);
            var o := if i2 < i1 then h else 0;
            0 <= m && 0 <= i2 && 0 <= i2 / h && 0 <= i0 % h < h && 0 <= i2 % h < h &&
            0 <= i0 % h + h * (i2 % h) < h * h && 0 <= (i2 % h) * h &&
            (a0 + h * a1) * (b0 + h * b1) == (i0 % h + h * (i2 % h)) + (h * h) * (a1 * b1 + o + i2 / h)
  {
    ProductBelow(a0, b0, h);
    ProductBelow(a0, b1, h);
    ProductBelow(a1, b0, h);
    ProductBelow(a1, b1, h);
    HalfProducts(a0, a1, b0, b1, h);
    MiddleWord(a0 * b0, a0 * b1, a1 * b0, a1 * b1, h);
  }

  lemma MiddleWord(i0: int, i1: int, i2: int, i3: int, h: int)
    requires 0 <= i0 <= (h - 1) * (h - 1) < h * h && 0 <= i1 < h * h && 0 <= i2 <= (h - 1) * (h - 1) && h >= 2
    ensures var m := (i2 + i0 / h) % (h * h);
            var s := (m + i1) % (h * h);
            var o := if s < i1 then h else 0;
            0 <= m && 0 <= s && 0 <= s / h && 0 <= i0 % h < h && 0 <= s % h < h &&
            0 <= i0 % h + h * (s % h) < h * h && 0 <= (s % h) * h &&
            (h * h) * i3 + h * (i1 + i2 + i0 / h) + i0 % h
              == (i0 % h + h * (s % h)) + (h * h) * (i3 + o + s / h)
  {
    var hh := h * h;
    PairDigits(i0, h);
    var m := i2 + i0 / h;
    assert (h - 1) * (h - 1) + h - 1 < hh;
    WrapOnce(m, hh);
    CarryTrick(i1, m, 0, hh);
    var s := (m + i1) % hh;
    PairDigits(s, h);
    PairBelow(i0 % h, s % h, h);
    MulLe(0, s % h, h);
    HalfSum(i3, s, if s < i1 then 1 else 0, m + i1, i0 % h, h);
  }

  lemma HighWord(a: nat, b: nat, p0: int, p1: int, base: int)
    requires a < base && b < base && 0 <= p0 && a * b == p0 + base * p1
    ensures p1 < base
  {
    ProductBelow(a, b, base);
    if p1 >= base {
      MulLe(base, p1, base);
    }
  }

  lemma HalfBase(w: nat)
    requires w >= 2 && w % 2 == 0
    ensures Base(w) == Base(w / 2) * Base(w / 2) && Base(w / 2) >= 2
  {
    PowAdd(2, w / 2, w / 2);
  }

  lemma HalfProducts(a0: int, a1: int, b0: int, b1: int, h: int)
    requires h >= 1
    ensures (a0 + h * a1) * (b0 + h * b1)
         == (h * h) * (a1 * b1) + h * (a0 * b1 + a1 * b0 + (a0 * b0) / h) + (a0 * b0) % h
  {
    MulDist(a0, h * a1, b0 + h * b1);
    MulDist(b0, h * b1, a0);
    MulDist(b0, h * b1, h * a1);
    assert a0 * (h * b1) == h * (a0 * b1) && (h * a1) * b0 == h * (a1 * b0);
    assert (h * a1) * (h * b1) == (h * h) * (a1 * b1);
    assert a0 * b0 == h * ((a0 * b0) / h) + (a0 * b0) % h;
  }

  lemma LowHalf(x: nat, h: nat)
    requires h > 0
    ensures (x * h) % (h * h) == (x % h) * h
  {
    LowHalfBy(x, x / h, x % h, h);
  }

  lemma LowHalfBy(x: int, q: int, r: int, h: int)
    requires x == h * q + r && 0 <= r < h
    ensures (x * h) % (h * h) == r * h
  {
    MulDist(h * q, r, h);
    assert (h * q) * h == q * (h * h);
    MulLe(0, r, h);
    MulLe(r, h - 1, h);
    MulDist(h, 1, h);
    DivModUnique(x * h, q, r * h, h * h);
  }

  lemma OrDisjointHalf(lo: nat, hi: nat, w: nat)
    requires w % 2 == 0 && lo < Base(w / 2)
    ensures BitOr(lo, hi * Base(w / 2)) == lo + Base(w / 2) * hi
  {
    OrPair(lo, hi, w / 2);
    DivModUnique(hi * Base(w / 2), hi, 0, Base(w / 2));
    OrDisjoint(lo, hi * Base(w / 2), w / 2);
  }

  lemma HalfSum(i3: int, i2: int, o: int, mid: int, lo: int, h: int)
    requires h > 0 && 0 <= o && mid == i2 + o * (h * h) && o <= 1
    ensures (h * h) * i3 + h * mid + lo
         == (lo + h * (i2 % h)) + (h * h) * (i3 + (if o == 1 then h else 0) + i2 / h)
  {
    assert i2 == h * (i2 / h) + i2 % h;
    MulDist(h * (i2 / h), i2 % h, h);
    assert h * (h * (i2 / h)) == (h * h) * (i2 / h);
    MulDist(i2, o * (h * h), h);
    assert h * (1 * (h * h)) == (h * h) * h;
    MulDist(i3, i2 / h, h * h);
    MulDist(i3 + i2 / h, h, h * h);
  }

  /** Adds the two words p1, p0 (with t more going to the top word) to the accumulator. */
  method AddPair(p0: nat, p1: nat, r0: nat, r1: nat, r2: nat, w: nat)
    returns (s0: nat, s1: nat, s2: nat, ghost c: nat)
    requires w >= 1 && p0 < Base(w) && p1 < Base(w) && r0 < Base(w) && r1 < Base(w) && r2 < Base(w)
    ensures s0 < Base(w) && s1 < Base(w) && c <= 1 && s2 == (r2 + c) % Base(w)
    ensures s0 + Base(w) * s1 + (Base(w) * Base(w)) * c == r0 + Base(w) * r1 + (p0 + Base(w) * p1)
  {
    hide Pow, BitOr;
    var B := Base(w);
    CarryTrick(p0, r0, 0, B);
    s0 := (r0 + p0) % B;
    var c0 := if s0 < p0 then 1 else 0;
    WrapOnce(p1 + c0, B);
    WrapOnce(r1 + (p1 + c0) % B, B);
    s1 := (r1 + (p1 + c0) % B) % B;
    var c1 := if s1 < p1 || (s1 == p1 && s0 < p0) then 1 else 0;
    s2 := (r2 + c1) % B;
    c := c1;
    assert s1 + c1 * B == r1 + p1 + c0;
    assert s0 + c0 * B == r0 + p0;
    CarryPair(s0, c0, r0, p0, s1, c1, r1, p1, B);
  }

  /** Two word additions chained by a carry. */
  lemma CarryPair(s0: int, c0: int, r0: int, p0: int, s1: int, c1: int, r1: int, p1: int, b: int)
    requires s0 + c0 * b == r0 + p0 && s1 + c1 * b == r1 + p1 + c0
    ensures s0 + b * s1 + (b * b) * c1 == (r0 + b * r1) + (p0 + b * p1)
  {
    MulDist(s1, c1 * b, b);
    MulDist(r1 + p1, c0, b);
    MulDist(r1, p1, b);
    assert b * (c1 * b) == (b * b) * c1;
  }

  /** muladd from half words: the same result as the double-width form. */
  method MulAddHalf(a: nat, b: nat, r0: nat, r1: nat, r2: nat, w: nat) returns (s0: nat, s1: nat, s2: nat)
    requires w >= 2 && w % 2 == 0
    requires a < Base(w) && b < Base(w) && r0 < Base(w) && r1 < Base(w) && r2 < Base(w)
    ensures s0 < Base(w) && s1 < Base(w) && s2 < Base(w)
    ensures Acc(s0, s1, s2, Base(w))
         == (Acc(r0, r1, r2, Base(w)) + a * b) % (Base(w) * (Base(w) * Base(w)))
  {
    BaseEven(w);
    hide Pow, BitOr;
    var p0, p1 := HalfWordProduct(a, b, w);
    ghost var c;
    s0, s1, s2, c := AddPair(p0, p1, r0, r1, r2, w);
    AccPlus(r0, r1, r2, a * b, s0, s1, s2, Base(w), c);
  }

  /** Doubles the pair (p1, p0), returning the bit shifted out of the top. */
  method DoublePair(p0: nat, p1: nat, w: nat) returns (q0: nat, q1: nat, top: nat)
    requires w >= 1 && p0 < Base(w) && p1 < Base(w)
    ensures q0 < Base(w) && q1 < Base(w) && top <= 1
    ensures q0 + Base(w) * q1 + (Base(w) * Base(w)) * top == 2 * (p0 + Base(w) * p1)
  {
    BaseEven(w);
    assert Pow(2, 1) == 2 * Pow(2, 0) == 2;
    hide Pow, BitOr;
    var B := Base(w);
    DoubleWord(p1, w);
    DoubleWord(p0, w);
    top := p1 / Pow(2, w - 1);
    var u := p0 / Pow(2, w - 1);
    OrDisjoint(u, (p1 * 2) % B, 1);
    q1 := BitOr((p1 * 2) % B, u);
    q0 := (p0 * 2) % B;
    CarryPair(q0, u, p0, p0, q1, top, p1, p1, B);
  }

  /** mul2add from half words: the same result as the double-width form. */
  method Mul2AddHalf(a: nat, b: nat, r0: nat, r1: nat, r2: nat, w: nat) returns (s0: nat, s1: nat, s2: nat)
    requires w >= 2 && w % 2 == 0
    requires a < Base(w) && b < Base(w) && r0 < Base(w) && r1 < Base(w) && r2 < Base(w)
    ensures s0 < Base(w) && s1 < Base(w) && s2 < Base(w)
    ensures Acc(s0, s1, s2, Base(w))
         == (Acc(r0, r1, r2, Base(w)) + 2 * (a * b)) % (Base(w) * (Base(w) * Base(w)))
  {
    BaseEven(w);
    hide Pow;
    var p0, p1 := HalfWordProduct(a, b, w);
    var t;
    p0, p1, t := DoublePair(p0, p1, w);
    s2 := (r2 + t) % Base(w);
    ghost var c;
    s0, s1, s2, c := AddPair(p0, p1, r0, r1, s2, w);
    AddTwice(r2, t, c, Base(w));
    MulDist(t, c, Base(w) * Base(w));
    AccPlus(r0, r1, r2, 2 * (a * b), s0, s1, s2, Base(w), t + c);
  }

  lemma DoubleWord(x: nat, w: nat)
    requires w >= 1 && x < Base(w)
    ensures 0 <= x / Pow(2, w - 1) <= 1
    ensures 2 * x == (x * 2) % Base(w) + Base(w) * (x / Pow(2, w - 1))
    ensures 0 <= (x * 2) % Base(w) <= Base(w) - 2 && ((x * 2) % Base(w)) % Pow(2, 1) == 0
  {
    var h := Pow(2, w - 1);
    assert Base(w) == 2 * h && Pow(2, 1) == 2 * Pow(2, 0);
    if x < h {
      DivModUnique(x, 0, x, h);
      DivModUnique(x * 2, 0, x * 2, 2 * h);
    } else {
      DivModUnique(x, 1, x - h, h);
      DivModUnique(x * 2, 1, x * 2 - 2 * h, 2 * h);
    }
  }

  // ---- Columns of the product ----

  /** Word i of an n-word number, and 0 outside it. */
  ghost function At(s: seq<nat>, n: nat, i: int): nat
    requires n <= |s|
  {
    if 0 <= i < n then s[i] else 0
  }

  /** The first hi terms of column k: sums l[i] * r[k - i]. */
  ghost function ColumnTo(l: seq<nat>, r: seq<nat>, n: nat, k: int, hi: nat): nat
    requires n <= |l| && n <= |r|
  {
    if hi == 0 then 0
    else ColumnTo(l, r, n, k, hi - 1) + At(l, n, hi - 1) * At(r, n, k - (hi - 1))
  }

  /** Columns 0..K-1, weighted, using only the first `rows` words of l. */
  ghost function ColumnSum(l: seq<nat>, r: seq<nat>, n: nat, rows: nat, K: nat, w: nat): nat
    requires n <= |l| && n <= |r|
  {
    if K == 0 then 0
    else ColumnSum(l, r, n, rows, K - 1, w) + ColumnTo(l, r, n, K - 1, rows) * Pow(Base(w), K - 1)
  }

  /** One row of the product: r shifted up by `up` words, cut off after K columns. */
  ghost function RowSum(r: seq<nat>, n: nat, up: nat, K: nat, w: nat): nat
    requires n <= |r|
  {
    if K == 0 then 0 else RowSum(r, n, up, K - 1, w) + At(r, n, K - 1 - up) * Pow(Base(w), K - 1)
  }

  lemma {:induction false} RowIsShift(r: seq<nat>, n: nat, up: nat, K: nat, w: nat)
    requires n <= |r|
    ensures K < up ==> RowSum(r, n, up, K, w) == 0
    ensures K >= up ==>
      RowSum(r, n, up, K, w) == Pow(Base(w), up) * Val(r, if K - up < n then K - up else n, w)
  {
    hide Pow;
    if K > 0 {
      RowIsShift(r, n, up, K - 1, w);
      if up < K && K - up <= n {
        PowAdd(Base(w), up, K - 1 - up);
        DistStep(Pow(Base(w), up), Val(r, K - 1 - up, w), r[K - 1 - up], Pow(Base(w), K - 1 - up));
      }
    }
  }

  lemma {:induction false} AddRow(l: seq<nat>, r: seq<nat>, n: nat, rows: nat, K: nat, w: nat)
    requires n <= |l| && n <= |r|
    ensures ColumnSum(l, r, n, rows + 1, K, w)
         == ColumnSum(l, r, n, rows, K, w) + At(l, n, rows) * RowSum(r, n, rows, K, w)
  {
    hide Pow;
    if K > 0 {
      AddRow(l, r, n, rows, K - 1, w);
      var p := Pow(Base(w), K - 1);
      var c, a, x := ColumnTo(l, r, n, K - 1, rows), At(l, n, rows), At(r, n, K - 1 - rows);
      assert ColumnTo(l, r, n, K - 1, rows + 1) == c + a * x;
      RowStep(c, a, x, p, RowSum(r, n, rows, K - 1, w));
    }
  }

  lemma RowStep(c: int, a: int, x: int, p: int, row: int)
    ensures (c + a * x) * p == c * p + a * (x * p)
    ensures a * (row + x * p) == a * row + a * (x * p)
  {
    MulDist(c, a * x, p);
    assert (a * x) * p == a * (x * p);
    MulDist(row, x * p, a);
  }

  /** The weighted columns of the whole product are the product of the values. */
  lemma {:induction false} ColumnsAreProduct(l: seq<nat>, r: seq<nat>, n: nat, rows: nat, K: nat, w: nat)
    requires n <= |l| && n <= |r| && rows <= n && rows + n <= K + 1
    ensures ColumnSum(l, r, n, rows, K, w) == Val(l, rows, w) * Val(r, n, w)
  {
    hide Pow;
    if rows == 0 {
      NoRows(l, r, n, K, w);
    } else {
      ColumnsAreProduct(l, r, n, rows - 1, K, w);
      AddRow(l, r, n, rows - 1, K, w);
      RowIsShift(r, n, rows - 1, K, w);
      var d: int, p: int, v: int := l[rows - 1], Pow(Base(w), rows - 1), Val(r, n, w);
      MulDist(Val(l, rows - 1, w), d * p, v);
      MulAssoc(d, p, v);
    }
  }

  lemma {:induction false} NoRows(l: seq<nat>, r: seq<nat>, n: nat, K: nat, w: nat)
    requires n <= |l| && n <= |r|
    ensures ColumnSum(l, r, n, 0, K, w) == 0
  {
    if K > 0 {
      NoRows(l, r, n, K - 1, w);
    }
  }

  /** Terms that are zero do not matter. */
  lemma {:induction false} ColumnGap(l: seq<nat>, r: seq<nat>, n: nat, k: int, lo: nat, hi: nat)
    requires n <= |l| && n <= |r| && lo <= hi
    requires forall i :: lo <= i < hi ==> At(l, n, i) == 0 || At(r, n, k - i) == 0
    ensures ColumnTo(l, r, n, k, hi) == ColumnTo(l, r, n, k, lo)
  {
    if lo < hi {
      ColumnGap(l, r, n, k, lo, hi - 1);
      assert At(l, n, hi - 1) == 0 || At(r, n, k - (hi - 1)) == 0;
    }
  }

  lemma {:induction false} ColumnBound(l: seq<nat>, r: seq<nat>, n: nat, k: int, hi: nat, w: nat)
    requires WordsTo(l, n, w) && WordsTo(r, n, w)
    ensures ColumnTo(l, r, n, k, hi) <= (if hi < n then hi else n) * ((Base(w) - 1) * (Base(w) - 1))
  {
    hide Pow;
    if hi > 0 {
      ColumnBound(l, r, n, k, hi - 1, w);
      if hi <= n {
        ProductBelow(At(l, n, hi - 1), At(r, n, k - (hi - 1)), Base(w));
        MulDist(hi - 1, 1, (Base(w) - 1) * (Base(w) - 1));
      }
    }
  }

  /** With at most 2^w words, a carry below two words plus any part of a column stays
      inside the three-word accumulator. */
  lemma ColumnFits(carry: nat, column: nat, n: nat, b: nat)
    requires carry < b * b && column <= n * ((b - 1) * (b - 1)) && n <= b && b >= 1
    ensures carry + column < b * (b * b)
  {
    var m := (b - 1) * (b - 1);
    MulLe(n, b, m);
    assert m == b * b - 2 * b + 1;
    MulDist(b * b - 2 * b, 1, b);
    MulDist(b * b, 2 * b, b);
    assert b * (2 * b) == 2 * (b * b);
    assert b <= b * b;
  }

  /** Storing the lowest accumulator word and shifting the accumulator down. */
  lemma StoreColumn(v: nat, r0: nat, r1: nat, r2: nat, b: nat, k: nat)
    ensures v + r0 * Pow(b, k) + Pow(b, k + 1) * Acc(r1, r2, 0, b) == v + Pow(b, k) * Acc(r0, r1, r2, b)
  {
    assert Pow(b, k + 1) == b * Pow(b, k);
    hide Pow;
    var p, t := Pow(b, k), r1 + b * r2;
    assert b * 0 == 0;
    MulDist(r0, b * t, p);
    assert p * (b * t) == (b * p) * t;
  }

  /** A column of the lower half: its terms are l[0] r[k] .. l[k] r[0]. */
  method LowColumn(left: array<nat>, right: array<nat>, k: nat, r: nat, r': nat, n: nat, w: nat)
    returns (r0: nat, r1: nat, r2: nat)
    requires w >= 1 && 1 <= n <= Base(w) && k < n && WordsTo(left[..], n, w) && WordsTo(right[..], n, w)
    requires r < Base(w) && r' < Base(w)
    ensures r0 < Base(w) && r1 < Base(w) && r2 < Base(w)
    ensures Acc(r0, r1, r2, Base(w)) == Acc(r, r', 0, Base(w)) + ColumnTo(left[..], right[..], n, k, n)
  {
    hide Pow, Acc;
    r0, r1, r2 := r, r', 0;
    ghost var carry, b := Acc(r, r', 0, Base(w)), Base(w);
    CarryBelow(r, r', b);
    var i := 0;
    while i <= k
      invariant 0 <= i <= k + 1 && r0 < b && r1 < b && r2 < b
      invariant Acc(r0, r1, r2, b) == carry + ColumnTo(left[..], right[..], n, k, i)
    {
      r0, r1, r2 := AddTerm(left[..], right[..], n, k, i, carry, r0, r1, r2, left[i], right[k - i], w);
      i := i + 1;
    }
    ColumnGap(left[..], right[..], n, k, k + 1, n);
  }

  /** A column of the upper half: its terms begin with l[k + 1 - n] r[n - 1]. */
  method HighColumn(left: array<nat>, right: array<nat>, k: nat, r: nat, r': nat, n: nat, w: nat)
    returns (r0: nat, r1: nat, r2: nat)
    requires w >= 1 && 1 <= n <= Base(w) && n <= k < n * 2 - 1 && WordsTo(left[..], n, w) && WordsTo(right[..], n, w)
    requires r < Base(w) && r' < Base(w)
    ensures r0 < Base(w) && r1 < Base(w) && r2 < Base(w)
    ensures Acc(r0, r1, r2, Base(w)) == Acc(r, r', 0, Base(w)) + ColumnTo(left[..], right[..], n, k, n)
  {
    hide Pow, Acc;
    r0, r1, r2 := r, r', 0;
    ghost var carry, b := Acc(r, r', 0, Base(w)), Base(w);
    CarryBelow(r, r', b);
    var i := (k + 1) - n;
    ColumnGap(left[..], right[..], n, k, 0, i);
    while i < n
      invariant k + 1 - n <= i <= n && r0 < b && r1 < b && r2 < b
      invariant Acc(r0, r1, r2, b) == carry + ColumnTo(left[..], right[..], n, k, i)
    {
      r0, r1, r2 := AddTerm(left[..], right[..], n, k, i, carry, r0, r1, r2, left[i], right[k - i], w);
      i := i + 1;
    }
  }

  /** result = left * right: 2n words from n-word operands. */
  method VliMult(result: array<nat>, left: array<nat>, right: array<nat>, n: nat, w: nat)
    requires w >= 1 && 1 <= n <= Base(w) && 2 * n <= result.Length
    requires WordsTo(left[..], n, w) && WordsTo(right[..], n, w)
    requires result != left && result != right
    modifies result
    ensures WordsTo(result[..], 2 * n, w)
    ensures Val(result[..], 2 * n, w) == Val(left[..], n, w) * Val(right[..], n, w)
    ensures forall i :: 2 * n <= i < result.Length ==> result[i] == old(result[i])
  {
    hide Pow, Val, ColumnSum;
    var r0, r1, r2 := 0, 0, 0;
    var k := 0;
    ghost var l, r, b := left[..], right[..], Base(w);
    NothingStored(result[..], l, r, n, w);
    hide ColumnsDone, ColumnTo, Acc;
    while k < n
      invariant 0 <= k <= n && left[..] == l && right[..] == r
      invariant r0 < b && r1 < b && r2 == 0
      invariant ColumnsDone(result[..], k, r0, r1, l, r, n, w)
      invariant forall j :: 2 * n <= j < result.Length ==> result[j] == old(result[j])
    {
      ghost var carry, before := Acc(r0, r1, 0, b), result[..];
      r0, r1, r2 := LowColumn(left, right, k, r0, r1, n, w);
      result[k] := r0;
      ColumnStored(before, result[..], k, r0, r1, r2, carry, l, r, n, w);
      r0 := r1;
      r1 := r2;
      r2 := 0;
      k := k + 1;
    }
    while k < n * 2 - 1
      invariant n <= k <= n * 2 - 1 && left[..] == l && right[..] == r
      invariant r0 < b && r1 < b && r2 == 0
      invariant ColumnsDone(result[..], k, r0, r1, l, r, n, w)
      invariant forall j :: 2 * n <= j < result.Length ==> result[j] == old(result[j])
    {
      ghost var carry, before := Acc(r0, r1, 0, b), result[..];
      r0, r1, r2 := HighColumn(left, right, k, r0, r1, n, w);
      result[k] := r0;
      ColumnStored(before, result[..], k, r0, r1, r2, carry, l, r, n, w);
      r0 := r1;
      r1 := r2;
      r2 := 0;
      k := k + 1;
    }
    ghost var before := result[..];
    result[n * 2 - 1] := r0;
    LastWord(before, result[..], r0, r1, l, r, n, w);
  }

  /** The words stored so far and the two-word carry account for the first k columns. */
  ghost predicate ColumnsDone(result: seq<nat>, k: nat, r0: nat, r1: nat,
                              l: seq<nat>, r: seq<nat>, n: nat, w: nat)
  {
    n <= |l| && n <= |r| && WordsTo(result, k, w) &&
    Val(result, k, w) + Pow(Base(w), k) * Acc(r0, r1, 0, Base(w)) == ColumnSum(l, r, n, n, k, w)
  }

  lemma CarryBelow(r0: nat, r1: nat, b: nat)
    requires r0 < b && r1 < b
    ensures Acc(r0, r1, 0, b) < b * b
  {
    PairBelow(r0, r1, b);
  }

  lemma NothingStored(result: seq<nat>, l: seq<nat>, r: seq<nat>, n: nat, w: nat)
    requires n <= |l| && n <= |r|
    ensures ColumnsDone(result, 0, 0, 0, l, r, n, w)
  {}

  /** One accumulation step of a column; the accumulator does not overflow. */
  method AddTerm(ghost l: seq<nat>, ghost r: seq<nat>, ghost n: nat, ghost k: nat, ghost i: nat, ghost carry: nat,
                 r0: nat, r1: nat, r2: nat, a: nat, b: nat, w: nat)
    returns (s0: nat, s1: nat, s2: nat)
    requires w >= 1 && WordsTo(l, n, w) && WordsTo(r, n, w) && 1 <= n <= Base(w)
    requires i < n && 0 <= k - i < n && a == l[i] && b == r[k - i]
    requires r0 < Base(w) && r1 < Base(w) && r2 < Base(w) && carry < Base(w) * Base(w)
    requires Acc(r0, r1, r2, Base(w)) == carry + ColumnTo(l, r, n, k, i)
    ensures s0 < Base(w) && s1 < Base(w) && s2 < Base(w)
    ensures Acc(s0, s1, s2, Base(w)) == carry + ColumnTo(l, r, n, k, i + 1)
  {
    hide Pow;
    assert ColumnTo(l, r, n, k, i + 1) == ColumnTo(l, r, n, k, i) + a * b;
    ColumnBound(l, r, n, k, i + 1, w);
    hide Acc, ColumnTo;
    ghost var column := ColumnTo(l, r, n, k, i + 1);
    FitsModulus(carry, column, column, i + 1, n, Base(w));
    s0, s1, s2 := MulAdd(a, b, r0, r1, r2, w);
  }

  lemma ColumnStored(before: seq<nat>, after: seq<nat>, k: nat, r0: nat, r1: nat, r2: nat, carry: nat,
                     l: seq<nat>, r: seq<nat>, n: nat, w: nat)
    requires n <= |l| && n <= |r| && k < |before| == |after|
    requires r0 < Base(w) && after == before[k := r0]
    requires exists c0, c1 :: carry == Acc(c0, c1, 0, Base(w)) && ColumnsDone(before, k, c0, c1, l, r, n, w)
    requires Acc(r0, r1, r2, Base(w)) == carry + ColumnTo(l, r, n, k, n)
    ensures ColumnsDone(after, k + 1, r1, r2, l, r, n, w)
  {
    hide Pow, Val, ColumnTo, ColumnSum;
    ValFrame(before, after, k, w);
    ValStep(after, k, w);
    ColumnSumStep(l, r, n, n, k, w);
    StoreColumn(Val(before, k, w), r0, r1, r2, Base(w), k);
    AddColumn(Pow(Base(w), k), carry, ColumnTo(l, r, n, k, n));
    hide Acc;
    assert WordsTo(after, k + 1, w);
  }

  lemma ColumnSumStep(l: seq<nat>, r: seq<nat>, n: nat, rows: nat, k: nat, w: nat)
    requires n <= |l| && n <= |r|
    ensures ColumnSum(l, r, n, rows, k + 1, w)
         == ColumnSum(l, r, n, rows, k, w) + ColumnTo(l, r, n, k, rows) * Pow(Base(w), k)
  {}

  lemma AddColumn(p: int, carry: int, c: int)
    ensures p * (carry + c) == p * carry + c * p
  {
    MulDist(carry, c, p);
  }

  lemma LastWord(before: seq<nat>, result: seq<nat>, r0: nat, r1: nat, l: seq<nat>, r: seq<nat>, n: nat, w: nat)
    requires n >= 1 && 2 * n <= |before| && r0 < Base(w) && result == before[2 * n - 1 := r0]
    requires WordsTo(l, n, w) && WordsTo(r, n, w)
    requires ColumnsDone(before, 2 * n - 1, r0, r1, l, r, n, w)
    ensures r1 == 0 && WordsTo(result, 2 * n, w)
    ensures Val(result, 2 * n, w) == Val(l, n, w) * Val(r, n, w)
  {
    hide Pow;
    var k, b := 2 * n - 1, Base(w);
    ValFrame(before, result, k, w);
    ValStep(result, k, w);
    hide Val, ColumnSum;
    ColumnsAreProduct(l, r, n, n, k, w);
    StoreColumn(Val(result, k, w), r0, r1, 0, b, k);
    assert Acc(r1, 0, 0, b) == r1;
    ValBound(l, n, w);
    ValBound(r, n, w);
    PowAdd(b, n, n);
    ProductBelowBoth(Val(l, n, w), Val(r, n, w), Pow(b, n));
    if r1 >= 1 {
      MulLe(1, r1, Pow(b, 2 * n));
    }
  }

  lemma ProductBelowBoth(x: nat, y: nat, p: nat)
    requires x < p && y < p
    ensures x * y < p * p
  {
    ProductBelow(x, y, p);
  }

  // ---- Squaring: each cross term once, doubled ----

  /** The terms uECC_vli_square adds for column k from index 0 up to hi. */
  ghost function SquareTo(l: seq<nat>, n: nat, k: nat, hi: nat): nat
    requires n <= |l|
  {
    if hi == 0 then 0
    else
      SquareTo(l, n, k, hi - 1) +
      (if 2 * (hi - 1) < k then 2 * (At(l, n, hi - 1) * At(l, n, k - (hi - 1)))
       else if 2 * (hi - 1) == k then At(l, n, hi - 1) * At(l, n, k - (hi - 1))
       else 0)
  }

  /** A square's column reads the same from both ends. */
  lemma {:induction false} ColumnMirror(l: seq<nat>, n: nat, k: nat, j: nat)
    requires n <= |l| && j <= k + 1
    ensures ColumnTo(l, l, n, k, k + 1) == ColumnTo(l, l, n, k, k + 1 - j) + ColumnTo(l, l, n, k, j)
  {
    if j > 0 {
      ColumnMirror(l, n, k, j - 1);
      var i := k + 1 - j;
      assert ColumnTo(l, l, n, k, i + 1) == ColumnTo(l, l, n, k, i) + At(l, n, i) * At(l, n, k - i);
    }
  }

  lemma {:induction false} SquareIsDouble(l: seq<nat>, n: nat, k: nat, hi: nat)
    requires n <= |l| && (hi == 0 || 2 * (hi - 1) < k)
    ensures SquareTo(l, n, k, hi) == 2 * ColumnTo(l, l, n, k, hi)
  {
    if hi > 0 {
      SquareIsDouble(l, n, k, hi - 1);
    }
  }

  /** Doubling the terms below the diagonal accounts for the whole column. */
  lemma SquareIsColumn(l: seq<nat>, n: nat, k: nat)
    requires n <= |l|
    ensures SquareTo(l, n, k, k / 2 + 1) == ColumnTo(l, l, n, k, k + 1)
  {
    var j := (k + 1) / 2;
    SquareIsDouble(l, n, k, j);
    ColumnMirror(l, n, k, j);
    assert k + 1 - j == k / 2 + 1;
  }

  lemma {:induction false} SquareGrows(l: seq<nat>, n: nat, k: nat, lo: nat, hi: nat)
    requires n <= |l| && lo <= hi
    ensures SquareTo(l, n, k, lo) <= SquareTo(l, n, k, hi)
  {
    if lo < hi {
      SquareGrows(l, n, k, lo, hi - 1);
      MulLe(0, At(l, n, hi - 1), At(l, n, k - (hi - 1)));
    }
  }

  lemma {:induction false} SquareGap(l: seq<nat>, n: nat, k: nat, hi: nat)
    requires n <= |l| && (hi == 0 || hi + n <= k + 1)
    ensures SquareTo(l, n, k, hi) == 0
  {
    if hi > 0 {
      SquareGap(l, n, k, hi - 1);
      assert At(l, n, k - (hi - 1)) == 0;
    }
  }

  method AddSquareTerm(ghost l: seq<nat>, ghost n: nat, k: nat, i: nat, ghost carry: nat,
                       r0: nat, r1: nat, r2: nat, a: nat, b: nat, w: nat)
    returns (s0: nat, s1: nat, s2: nat)
    requires w >= 1 && WordsTo(l, n, w) && 1 <= n <= Base(w)
    requires 2 * i <= k && k - i < n && a == l[i] && b == l[k - i]
    requires r0 < Base(w) && r1 < Base(w) && r2 < Base(w) && carry < Base(w) * Base(w)
    requires Acc(r0, r1, r2, Base(w)) == carry + SquareTo(l, n, k, i)
    ensures s0 < Base(w) && s1 < Base(w) && s2 < Base(w)
    ensures Acc(s0, s1, s2, Base(w)) == carry + SquareTo(l, n, k, i + 1)
  {
    SquareTermFits(l, n, k, i, carry, a, b, w);
    hide Pow, SquareTo, Acc;
    if i < k - i {
      s0, s1, s2 := Mul2Add(a, b, r0, r1, r2, w);
    } else {
      s0, s1, s2 := MulAdd(a, b, r0, r1, r2, w);
    }
  }

  lemma SquareTermFits(l: seq<nat>, n: nat, k: nat, i: nat, carry: nat, a: nat, b: nat, w: nat)
    requires w >= 1 && WordsTo(l, n, w) && 1 <= n <= Base(w)
    requires 2 * i <= k && k - i < n && a == l[i] && b == l[k - i]
    requires carry < Base(w) * Base(w)
    ensures var next := carry + SquareTo(l, n, k, i + 1);
            next == carry + SquareTo(l, n, k, i) + (if i < k - i then 2 * (a * b) else a * b) &&
            next == next % (Base(w) * (Base(w) * Base(w)))
  {
    hide Pow;
    var next := SquareTo(l, n, k, i + 1);
    assert next == SquareTo(l, n, k, i) + if 2 * i < k then 2 * (a * b) else a * b;
    SquareGrows(l, n, k, i + 1, k / 2 + 1);
    SquareIsColumn(l, n, k);
    ColumnBound(l, l, n, k, k + 1, w);
    hide SquareTo, ColumnTo;
    FitsModulus(carry, next, ColumnTo(l, l, n, k, k + 1), k + 1, n, Base(w));
  }

  lemma FitsModulus(carry: nat, sum: nat, column: nat, terms: nat, n: nat, b: nat)
    requires carry < b * b && sum <= column && n <= b && b >= 1
    requires column <= (if terms < n then terms else n) * ((b - 1) * (b - 1))
    ensures carry + sum == (carry + sum) % (b * (b * b))
  {
    MulLe(if terms < n then terms else n, n, (b - 1) * (b - 1));
    ColumnFits(carry, sum, n, b);
    DivModUnique(carry + sum, 0, carry + sum, b * (b * b));
  }

  /** One column of a square, from its first term up to the diagonal. */
  method SquareColumn(left: array<nat>, k: nat, r: nat, r': nat, n: nat, w: nat) returns (r0: nat, r1: nat, r2: nat)
    requires w >= 1 && 1 <= n <= Base(w) && k < n * 2 - 1 && WordsTo(left[..], n, w)
    requires r < Base(w) && r' < Base(w)
    ensures r0 < Base(w) && r1 < Base(w) && r2 < Base(w)
    ensures Acc(r0, r1, r2, Base(w)) == Acc(r, r', 0, Base(w)) + ColumnTo(left[..], left[..], n, k, n)
  {
    hide Pow, Acc;
    r0, r1, r2 := r, r', 0;
    ghost var carry, b, l := Acc(r, r', 0, Base(w)), Base(w), left[..];
    CarryBelow(r, r', b);
    var i := if k < n then 0 else (k + 1) - n;
    SquareGap(l, n, k, i);
    SquareIsColumn(l, n, k);
    ColumnGap(l, l, n, k, if n < k + 1 then n else k + 1, if n < k + 1 then k + 1 else n);
    hide SquareTo, ColumnTo;
    while i <= k && i <= k - i
      invariant 0 <= i <= k / 2 + 1 && (k < n || k + 1 - n <= i)
      invariant r0 < b && r1 < b && r2 < b
      invariant Acc(r0, r1, r2, b) == carry + SquareTo(l, n, k, i)
    {
      r0, r1, r2 := AddSquareTerm(l, n, k, i, carry, r0, r1, r2, left[i], left[k - i], w);
      i := i + 1;
    }
  }

  /** result = left * left, word for word what VliMult would store. */
  method VliSquare(result: array<nat>, left: array<nat>, n: nat, w: nat)
    requires w >= 1 && 1 <= n <= Base(w) && 2 * n <= result.Length
    requires WordsTo(left[..], n, w) && result != left
    modifies result
    ensures WordsTo(result[..], 2 * n, w)
    ensures Val(result[..], 2 * n, w) == Val(left[..], n, w) * Val(left[..], n, w)
    ensures forall i :: 2 * n <= i < result.Length ==> result[i] == old(result[i])
  {
    hide Pow, Val, ColumnSum;
    var r0, r1, r2 := 0, 0, 0;
    var k := 0;
    ghost var l, b := left[..], Base(w);
    NothingStored(result[..], l, l, n, w);
    hide ColumnsDone, ColumnTo, Acc;
    while k < n * 2 - 1
      invariant 0 <= k <= n * 2 - 1 && left[..] == l
      invariant r0 < b && r1 < b && r2 == 0
      invariant ColumnsDone(result[..], k, r0, r1, l, l, n, w)
      invariant forall j :: 2 * n <= j < result.Length ==> result[j] == old(result[j])
    {
      ghost var carry, before := Acc(r0, r1, 0, b), result[..];
      r0, r1, r2 := SquareColumn(left, k, r0, r1, n, w);
      result[k] := r0;
      ColumnStored(before, result[..], k, r0, r1, r2, carry, l, l, n, w);
      r0 := r1;
      r1 := r2;
      r2 := 0;
      k := k + 1;
    }
    ghost var before := result[..];
    result[n * 2 - 1] := r0;
    LastWord(before, result[..], r0, r1, l, l, n, w);
  }
}
