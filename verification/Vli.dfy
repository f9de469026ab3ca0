/** Multi-word unsigned integers: arrays of w-bit words, least significant word first
    (micro-ecc's "vli" layer), with the carry and borrow arithmetic of uECC.c. */
module Vli {
  import opened Arithmetic
  import opened Bits

  /** The word base 2^w. */
  function Base(w: nat): (b: nat)
    ensures b > 0
  {
    Pow(2, w)
  }

  /** The first n elements are words. */
  ghost predicate WordsTo(s: seq<nat>, n: nat, w: nat)
  {
    n <= |s| && forall i :: 0 <= i < n ==> s[i] < Base(w)
  }

  /** The number held in the first n words of s. */
  function Val(s: seq<nat>, n: nat, w: nat): nat
    requires n <= |s|
  {
    if n == 0 then 0 else Val(s, n - 1, w) + s[n - 1] * Pow(Base(w), n - 1)
  }

  // ---- Facts about values ----

  lemma {:induction false} ValFrame(s: seq<nat>, t: seq<nat>, n: nat, w: nat)
    requires n <= |s| && n <= |t|
    requires forall i :: 0 <= i < n ==> s[i] == t[i]
    ensures Val(s, n, w) == Val(t, n, w)
  {
    if n > 0 {
      ValFrame(s, t, n - 1, w);
    }
  }

  lemma {:induction false} ValBound(s: seq<nat>, n: nat, w: nat)
    requires WordsTo(s, n, w)
    ensures Val(s, n, w) < Pow(Base(w), n)
  {
    if n > 0 {
      ValBound(s, n - 1, w);
      var p := Pow(Base(w), n - 1);
      MulLe(s[n - 1] + 1, Base(w), p);
      MulDist(s[n - 1], 1, p);
    }
  }

  lemma {:induction false} ValZero(s: seq<nat>, n: nat, w: nat)
    requires n <= |s|
    ensures Val(s, n, w) == 0 <==> forall i :: 0 <= i < n ==> s[i] == 0
  {
    if n > 0 {
      ValZero(s, n - 1, w);
      if s[n - 1] > 0 {
        MulLe(1, s[n - 1], Pow(Base(w), n - 1));
      }
    }
  }

  /** A number's first n + m words split into a low and a high part. */
  lemma {:induction false} ValSplit(s: seq<nat>, n: nat, m: nat, w: nat)
    requires n + m <= |s|
    ensures Val(s, n + m, w) == Val(s, n, w) + Pow(Base(w), n) * Val(s[n..], m, w)
  {
    if m > 0 {
      hide Pow;
      ValSplit(s, n, m - 1, w);
      var b, k := Base(w), n + m - 1;
      assert Val(s, n + m, w) == Val(s, k, w) + s[k] * Pow(b, k);
      assert s[n..][m - 1] == s[k];
      PowAdd(b, n, m - 1);
      DistStep(Pow(b, n), Val(s[n..], m - 1, w), s[k], Pow(b, m - 1));
    }
  }

  lemma TermSum(t: int, x: int, y: int, p: int)
    requires t == x + y
    ensures t * p == x * p + y * p
  {
    MulDist(x, y, p);
  }

  lemma DistStep(p: int, v: int, d: int, q: int)
    ensures p * (v + d * q) == p * v + d * (p * q)
  {
    MulDist(v, d * q, p);
    assert p * (d * q) == d * (p * q);
  }

  /** Words are determined by the value they hold. */
  lemma {:induction false} ValUnique(s: seq<nat>, t: seq<nat>, n: nat, w: nat)
    requires WordsTo(s, n, w) && WordsTo(t, n, w)
    requires Val(s, n, w) == Val(t, n, w)
    ensures forall i :: 0 <= i < n ==> s[i] == t[i]
  {
    if n > 0 {
      ValBound(s, n - 1, w);
      ValBound(t, n - 1, w);
      var p := Pow(Base(w), n - 1);
      DivModUnique(Val(s, n, w), s[n - 1], Val(s, n - 1, w), p);
      DivModUnique(Val(s, n, w), t[n - 1], Val(t, n - 1, w), p);
      ValUnique(s, t, n - 1, w);
    }
  }

  lemma WordsJoin(s: seq<nat>, n: nat, m: nat, w: nat)
    requires n + m <= |s| && WordsTo(s, n, w) && WordsTo(s[n..], m, w)
    ensures WordsTo(s, n + m, w)
  {
    assert forall i :: n <= i < n + m ==> s[i] == s[n..][i - n];
  }

  lemma ValStep(s: seq<nat>, k: nat, w: nat)
    requires k < |s|
    ensures Val(s, k + 1, w) == Val(s, k, w) + s[k] * Pow(Base(w), k)
  {}

  lemma ValOne(s: seq<nat>, n: nat, w: nat)
    requires 1 <= n <= |s| && s[0] == 1 && forall i :: 1 <= i < n ==> s[i] == 0
    ensures Val(s, n, w) == 1
  {
    ValSplit(s, 1, n - 1, w);
    ValZero(s[1..], n - 1, w);
    assert Val(s, 1, w) == 1 * Pow(Base(w), 0);
  }

  /** The lowest word and the rest. */
  lemma ValFirst(s: seq<nat>, n: nat, w: nat)
    requires 1 <= n <= |s|
    ensures Val(s, n, w) == s[0] + Base(w) * Val(s[1..], n - 1, w)
  {
    ValSplit(s, 1, n - 1, w);
    assert Val(s, 1, w) == Val(s, 0, w) + s[0] * Pow(Base(w), 0);
    assert Pow(Base(w), 1) == Base(w) * Pow(Base(w), 0);
  }

  lemma BaseEven(w: nat)
    requires w >= 1
    ensures Base(w) == 2 * Pow(2, w - 1) >= 2 && Base(w) % 2 == 0
  {}

  lemma EvenTimes(x: nat, b: nat, h: nat)
    requires b % 2 == 0
    ensures (x + b * h) % 2 == x % 2
  {
    assert b == 2 * (b / 2);
    assert (2 * (b / 2)) * h == 2 * ((b / 2) * h);
  }

  /** The value's parity is that of its lowest word. */
  lemma ValParity(s: seq<nat>, n: nat, w: nat)
    requires 1 <= n <= |s| && w >= 1
    ensures Val(s, n, w) % 2 == s[0] % 2
  {
    BaseEven(w);
    hide Pow, Val;
    ValFirst(s, n, w);
    EvenTimes(s[0], Base(w), Val(s[1..], n - 1, w));
  }

  /** Dropping the j lowest words divides by the j-th power of the base. */
  lemma ValDrop(s: seq<nat>, n: nat, j: nat, w: nat)
    requires WordsTo(s, n, w) && j <= n
    ensures Val(s, n, w) / Pow(Base(w), j) == Val(s[j..], n - j, w)
    ensures Val(s, n, w) % Pow(Base(w), j) == Val(s, j, w)
  {
    var h, p := Val(s[j..], n - j, w), Pow(Base(w), j);
    ValSplit(s, j, n - j, w);
    ValBound(s, j, w);
    assert p * h == h * p;
    DivModUnique(Val(s, n, w), h, Val(s, j, w), p);
  }

  /** Word j is the value's j-th digit in base 2^w. */
  lemma ValDigit(s: seq<nat>, n: nat, j: nat, w: nat)
    requires WordsTo(s, n, w) && j < n
    ensures (Val(s, n, w) / Pow(Base(w), j)) % Base(w) == s[j]
  {
    hide Pow, Val;
    ValDrop(s, n, j, w);
    ValDrop(s[j..], n - j, 1, w);
    OneWord(s[j..], w);
  }

  lemma OneWord(s: seq<nat>, w: nat)
    requires |s| >= 1
    ensures Val(s, 1, w) == s[0] && Pow(Base(w), 1) == Base(w)
  {
    assert Pow(Base(w), 1) == Base(w) * Pow(Base(w), 0);
    assert Val(s, 1, w) == Val(s, 0, w) + s[0] * Pow(Base(w), 0);
  }

  // ---- One word of an addition or subtraction ----

  /** The carry out of left + right + carry, found by comparing the wrapped sum with
      left; when they are equal the carry in is also the carry out. */
  lemma CarryTrick(l: nat, r: nat, c: nat, b: nat)
    requires l < b && r < b && c <= 1
    ensures var sum := (l + r + c) % b;
            var c' := if sum != l then (if sum < l then 1 else 0) else c;
            sum + c' * b == l + r + c
  {
    WrapOnce(l + r + c, b);
  }

  lemma BorrowTrick(l: nat, r: nat, c: nat, b: nat)
    requires l < b && r < b && c <= 1
    ensures var diff := (l - r - c) % b;
            var c' := if diff != l then (if diff > l then 1 else 0) else c;
            diff - c' * b == l - r - c
  {
    WrapOnce(l - r - c, b);
  }

  lemma WordStep(sum: int, c': int, l: int, r: int, c: int, b: nat, i: nat)
    requires sum + c' * b == l + r + c
    ensures sum * Pow(b, i) + c' * Pow(b, i + 1) == l * Pow(b, i) + r * Pow(b, i) + c * Pow(b, i)
  {
    assert Pow(b, i + 1) == b * Pow(b, i);
    hide Pow;
    var p := Pow(b, i);
    assert c' * (b * p) == (c' * b) * p;
    MulDist(sum, c' * b, p);
    MulDist(l, r, p);
    MulDist(l + r, c, p);
  }

  lemma BorrowStep(diff: int, c': int, l: int, r: int, c: int, b: nat, i: nat)
    requires diff - c' * b == l - r - c
    ensures diff * Pow(b, i) - c' * Pow(b, i + 1) == l * Pow(b, i) - r * Pow(b, i) - c * Pow(b, i)
  {
    hide Pow;
    assert (-c') * b == -(c' * b);
    WordStep(diff, -c', l, -r, -c, b, i);
    assert (-c') * Pow(b, i + 1) == -(c' * Pow(b, i + 1));
    assert (-r) * Pow(b, i) == -(r * Pow(b, i)) && (-c) * Pow(b, i) == -(c * Pow(b, i));
  }

  // ---- The operations ----

  method VliClear(vli: array<nat>, n: nat, w: nat)
    requires n <= vli.Length
    modifies vli
    ensures forall i :: 0 <= i < n ==> vli[i] == 0
    ensures forall i :: n <= i < vli.Length ==> vli[i] == old(vli[i])
    ensures WordsTo(vli[..], n, w) && Val(vli[..], n, w) == 0
  {
    for i := 0 to n
      invariant forall j :: 0 <= j < i ==> vli[j] == 0
      invariant forall j :: n <= j < vli.Length ==> vli[j] == old(vli[j])
    {
      vli[i] := 0;
    }
    ValZero(vli[..], n, w);
  }

  /** vli = 1: cleared, then its lowest word set. */
  method VliSetOne(vli: array<nat>, n: nat, w: nat)
    requires w >= 1 && 1 <= n <= vli.Length
    modifies vli
    ensures WordsTo(vli[..], n, w) && Val(vli[..], n, w) == 1
    ensures forall i :: n <= i < vli.Length ==> vli[i] == old(vli[i])
  {
    BaseEven(w);
    hide Pow, Val;
    VliClear(vli, n, w);
    vli[0] := 1;
    ValOne(vli[..], n, w);
  }

  method VliIsZero(vli: array<nat>, n: nat, w: nat) returns (zero: bool)
    requires n <= vli.Length
    ensures zero <==> Val(vli[..], n, w) == 0
  {
    var bits := 0;
    for i := 0 to n
      invariant bits == 0 <==> forall j :: 0 <= j < i ==> vli[j] == 0
    {
      OrIsZero(bits, vli[i]);
      bits := BitOr(bits, vli[i]);
    }
    ValZero(vli[..], n, w);
    zero := bits == 0;
  }

  method VliTestBit(vli: array<nat>, n: nat, bit: nat, w: nat) returns (set_: bool)
    requires w >= 1 && WordsTo(vli[..], n, w) && bit < n * w
    ensures set_ <==> Bit(Val(vli[..], n, w), bit)
  {
    var j, k := bit / w, bit % w;
    assert bit == j * w + k;
    if j >= n {
      MulLe(n, j, w);
    }
    set_ := Bit(vli[j], k);
    BitOfWord(vli[..], n, j, k, w);
    assert w * j + k == bit;
  }

  lemma BitOfWord(s: seq<nat>, n: nat, j: nat, k: nat, w: nat)
    requires WordsTo(s, n, w) && j < n && k < w
    ensures Bit(Val(s, n, w), w * j + k) <==> Bit(s[j], k)
  {
    hide Pow, Val;
    var v := Val(s, n, w);
    var p, x := Pow(2, w * j), v / Pow(2, w * j);
    assert x % Base(w) == s[j] by {
      ValDigit(s, n, j, w);
      PowMul(2, w, j);
    }
    assert v / Pow(2, w * j + k) == x / Pow(2, k) by {
      PowAdd(2, w * j, k);
      ModSplit(v, p, Pow(2, k));
    }
    BitOfRemainder(x, k, w);
  }

  /** Taking a remainder by 2^w leaves the bits below w alone. */
  lemma BitOfRemainder(x: nat, k: nat, w: nat)
    requires k < w
    ensures Bit(x % Pow(2, w), k) <==> Bit(x, k)
  {
    PowDouble(w - k - 1);
    hide Pow;
    PowAdd(2, k, w - k);
    QuotientParity(x, Pow(2, k), Pow(2, w - k - 1));
  }

  lemma PowDouble(e: nat)
    ensures Pow(2, e + 1) == 2 * Pow(2, e)
  {}

  lemma QuotientOfRemainder(x: nat, p: nat, q: nat)
    requires p > 0 && q > 0
    ensures p * q > 0 && (x % (p * q)) / p == (x / p) % q
  {
    ModSplit(x, p, q);
    DivModUnique(x % (p * q), (x / p) % q, x % p, p);
  }

  lemma QuotientParity(x: nat, p: nat, e: nat)
    requires p > 0 && e > 0
    ensures ((x % (p * (2 * e))) / p) % 2 == (x / p) % 2
  {
    QuotientOfRemainder(x, p, 2 * e);
    ModSplit(x / p, 2, e);
  }

  /** The index just above the highest non-zero word. */
  method VliNumDigits(vli: array<nat>, max: nat) returns (d: nat)
    requires max <= vli.Length
    ensures d <= max && (d > 0 ==> vli[d - 1] != 0)
    ensures forall i :: d <= i < max ==> vli[i] == 0
  {
    d := max;
    while d > 0 && vli[d - 1] == 0
      invariant 0 <= d <= max
      invariant forall i :: d <= i < max ==> vli[i] == 0
    {
      d := d - 1;
    }
  }

  /** The number of bits needed to represent the value. */
  method VliNumBits(vli: array<nat>, max: nat, w: nat) returns (bits: nat)
    requires w >= 1 && WordsTo(vli[..], max, w)
    ensures Val(vli[..], max, w) < Pow(2, bits)
    ensures bits > 0 ==> Pow(2, bits - 1) <= Val(vli[..], max, w)
    ensures bits <= max * w
  {
    assert Pow(2, 0) == 1;
    hide Pow;
    var d := VliNumDigits(vli, max);
    ValSplit(vli[..], d, max - d, w);
    ValZero(vli[..][d..], max - d, w);
    if d == 0 {
      return 0;
    }
    var digit := vli[d - 1];
    var i := 0;
    ghost var top := digit;
    while digit > 0
      invariant 0 <= i && 0 <= digit == top / Pow(2, i)
      invariant digit > 0 || i > 0
      invariant i > 0 ==> Pow(2, i - 1) <= top
      decreases digit
    {
      HalfOfQuotient(top, i);
      digit := digit / 2;
      i := i + 1;
    }
    QuotientZero(top, i);
    BitLengthWithin(top, i, w);
    MulLe(d, max, w);
    MulDist(d, 1, w);
    MulLe(0, d - 1, w);
    TopWordBits(vli[..], d, i, w);
    bits := (d - 1) * w + i;
  }

  lemma HalfOfQuotient(top: nat, i: nat)
    ensures (top / Pow(2, i)) / 2 == top / Pow(2, i + 1)
    ensures top / Pow(2, i) > 0 ==> Pow(2, i) <= top
  {
    ModSplit(top, Pow(2, i), 2);
    assert Pow(2, i + 1) == Pow(2, i) * 2;
    if top < Pow(2, i) {
      DivModUnique(top, 0, top, Pow(2, i));
    }
  }

  lemma QuotientZero(top: nat, i: nat)
    requires top / Pow(2, i) == 0
    ensures top < Pow(2, i)
  {
    assert top == Pow(2, i) * (top / Pow(2, i)) + top % Pow(2, i);
  }

  lemma BitLengthWithin(top: nat, i: nat, w: nat)
    requires top < Pow(2, w) && i > 0 && Pow(2, i - 1) <= top
    ensures i <= w
  {
    if i > w {
      PowMonotonic(2, w, i - 1);
    }
  }

  lemma TopWordBits(s: seq<nat>, d: nat, i: nat, w: nat)
    requires 1 <= d && WordsTo(s, d, w) && i >= 1
    requires Pow(2, i - 1) <= s[d - 1] < Pow(2, i)
    ensures Pow(2, (d - 1) * w + i - 1) <= Val(s, d, w) < Pow(2, (d - 1) * w + i)
  {
    var p := Pow(Base(w), d - 1);
    PowMul(2, w, d - 1);
    assert w * (d - 1) == (d - 1) * w;
    PowAdd(2, (d - 1) * w, i - 1);
    PowAdd(2, (d - 1) * w, i);
    ValBound(s, d - 1, w);
    MulLe(Pow(2, i - 1), s[d - 1], p);
    MulLe(s[d - 1] + 1, Pow(2, i), p);
    MulDist(s[d - 1], 1, p);
  }

  method VliSet(dest: array<nat>, src: array<nat>, n: nat, w: nat)
    requires n <= dest.Length && WordsTo(src[..], n, w)
    modifies dest
    ensures forall i :: 0 <= i < n ==> dest[i] == old(src[i])
    ensures forall i :: n <= i < dest.Length ==> dest[i] == old(dest[i])
    ensures WordsTo(dest[..], n, w) && Val(dest[..], n, w) == old(Val(src[..], n, w))
  {
    for i := 0 to n
      invariant forall j :: 0 <= j < i ==> dest[j] == old(src[j])
      invariant forall j :: i <= j < src.Length ==> src[j] == old(src[j])
      invariant forall j :: n <= j < dest.Length ==> dest[j] == old(dest[j])
    {
      dest[i] := src[i];
    }
    ValFrame(dest[..], old(src[..]), n, w);
  }

  /** The sign of left - right, scanning from the most significant word. */
  method VliCmpUnsafe(left: array<nat>, right: array<nat>, n: nat, w: nat) returns (r: int)
    requires WordsTo(left[..], n, w) && WordsTo(right[..], n, w)
    ensures r == Sign(Val(left[..], n, w) - Val(right[..], n, w))
  {
    var i := n;
    while i > 0
      invariant 0 <= i <= n
      invariant Val(left[..], n, w) + Val(right[..], i, w) == Val(left[..], i, w) + Val(right[..], n, w)
    {
      i := i - 1;
      if left[i] > right[i] {
        TopWordDecides(left[..], right[..], i, w);
        return 1;
      } else if left[i] < right[i] {
        TopWordDecides(right[..], left[..], i, w);
        return -1;
      }
    }
    return 0;
  }

  function Sign(x: int): int { if x > 0 then 1 else if x < 0 then -1 else 0 }

  lemma TopWordDecides(s: seq<nat>, t: seq<nat>, i: nat, w: nat)
    requires WordsTo(s, i + 1, w) && WordsTo(t, i + 1, w) && s[i] > t[i]
    ensures Val(s, i + 1, w) > Val(t, i + 1, w)
  {
    ValBound(t, i, w);
    MulLe(t[i] + 1, s[i], Pow(Base(w), i));
    MulDist(t[i], 1, Pow(Base(w), i));
  }

  /** Whether left and right hold the same value, looking at every word. */
  method VliEqual(left: array<nat>, right: array<nat>, n: nat, w: nat) returns (eq: bool)
    requires WordsTo(left[..], n, w) && WordsTo(right[..], n, w)
    ensures eq <==> Val(left[..], n, w) == Val(right[..], n, w)
  {
    var diff := 0;
    var i := n;
    while i > 0
      invariant 0 <= i <= n
      invariant diff == 0 <==> forall j :: i <= j < n ==> left[j] == right[j]
    {
      i := i - 1;
      XorIsZero(left[i], right[i]);
      OrIsZero(diff, BitXor(left[i], right[i]));
      diff := BitOr(diff, BitXor(left[i], right[i]));
    }
    eq := diff == 0;
    if eq {
      ValFrame(left[..], right[..], n, w);
    } else if Val(left[..], n, w) == Val(right[..], n, w) {
      ValUnique(left[..], right[..], n, w);
    }
  }

  /** result = left + right, returning the carry; result may be left or right. */
  method VliAdd(result: array<nat>, left: array<nat>, right: array<nat>, n: nat, w: nat)
    returns (carry: nat)
    requires w >= 1 && n <= result.Length && WordsTo(left[..], n, w) && WordsTo(right[..], n, w)
    modifies result
    ensures carry <= 1 && WordsTo(result[..], n, w)
    ensures Val(result[..], n, w) + carry * Pow(Base(w), n)
         == old(Val(left[..], n, w)) + old(Val(right[..], n, w))
    ensures forall i :: n <= i < result.Length ==> result[i] == old(result[i])
  {
    hide Pow;
    carry := 0;
    var b := Base(w);
    ghost var l, r := left[..], right[..];
    for i := 0 to n
      invariant carry <= 1 && WordsTo(result[..], i, w)
      invariant Val(result[..], i, w) + carry * Pow(b, i) == Val(l, i, w) + Val(r, i, w)
      invariant forall j :: i <= j < left.Length ==> left[j] == l[j]
      invariant forall j :: i <= j < right.Length ==> right[j] == r[j]
      invariant forall j :: n <= j < result.Length ==> result[j] == old(result[j])
    {
      CarryTrick(left[i], right[i], carry, b);
      var sum := (left[i] + right[i] + carry) % b;
      ghost var c, before := carry, result[..];
      if sum != left[i] {
        carry := if sum < left[i] then 1 else 0;
      }
      result[i] := sum;
      WordStep(sum, carry, l[i], r[i], c, b, i);
      ValFrame(before, result[..], i, w);
    }
  }

  /** result = left - right, returning the borrow; result may be left or right. */
  method VliSub(result: array<nat>, left: array<nat>, right: array<nat>, n: nat, w: nat)
    returns (borrow: nat)
    requires w >= 1 && n <= result.Length && WordsTo(left[..], n, w) && WordsTo(right[..], n, w)
    modifies result
    ensures borrow <= 1 && WordsTo(result[..], n, w)
    ensures Val(result[..], n, w) - borrow * Pow(Base(w), n)
         == old(Val(left[..], n, w)) - old(Val(right[..], n, w))
    ensures forall i :: n <= i < result.Length ==> result[i] == old(result[i])
  {
    hide Pow;
    borrow := 0;
    var b := Base(w);
    ghost var l, r := left[..], right[..];
    for i := 0 to n
      invariant borrow <= 1 && WordsTo(result[..], i, w)
      invariant Val(result[..], i, w) - borrow * Pow(b, i) == Val(l, i, w) - Val(r, i, w)
      invariant forall j :: i <= j < left.Length ==> left[j] == l[j]
      invariant forall j :: i <= j < right.Length ==> right[j] == r[j]
      invariant forall j :: n <= j < result.Length ==> result[j] == old(result[j])
    {
      BorrowTrick(left[i], right[i], borrow, b);
      var diff := (left[i] - right[i] - borrow) % b;
      ghost var c, before := borrow, result[..];
      if diff != left[i] {
        borrow := if diff > left[i] then 1 else 0;
      }
      result[i] := diff;
      BorrowStep(diff, borrow, l[i], r[i], c, b, i);
      ValFrame(before, result[..], i, w);
    }
  }

  /** A borrow out of a subtraction tells the order of the operands. */
  lemma BorrowOrders(l: nat, r: nat, d: nat, borrow: nat, p: nat)
    requires l < p && r < p && d < p && borrow <= 1 && d - borrow * p == l - r
    ensures borrow == 1 <==> l < r
  {}

  /** The sign of left - right, by a full subtraction. */
  method VliCmp(left: array<nat>, right: array<nat>, n: nat, w: nat) returns (r: int)
    requires w >= 1 && WordsTo(left[..], n, w) && WordsTo(right[..], n, w)
    ensures r == Sign(Val(left[..], n, w) - Val(right[..], n, w))
  {
    var tmp := new nat[n];
    var neg := VliSub(tmp, left, right, n, w);
    var equal := VliIsZero(tmp, n, w);
    ValBound(left[..], n, w);
    ValBound(right[..], n, w);
    ValBound(tmp[..], n, w);
    BorrowOrders(Val(left[..], n, w), Val(right[..], n, w), Val(tmp[..], n, w), neg, Pow(Base(w), n));
    r := (if equal then 0 else 1) - 2 * (if neg == 1 then 1 else 0);
  }

  /** Halves the n words that start at off, working down from the top word. */
  method VliRshift1(vli: array<nat>, off: nat, n: nat, w: nat)
    requires w >= 1 && off + n <= vli.Length && WordsTo(vli[off..], n, w)
    modifies vli
    ensures WordsTo(vli[off..], n, w)
    ensures Val(vli[off..], n, w) == old(Val(vli[off..], n, w)) / 2
    ensures forall i :: 0 <= i < off || off + n <= i < vli.Length ==> vli[i] == old(vli[i])
  {
    hide Pow, BitOr, Val, WordsTo;
    ghost var s := vli[off..];
    ghost var done: seq<nat> := []; // the words halved so far
    NoWordsHalved(s[n..], w);
    var carry := 0;
    var h := Pow(2, w - 1);
    var i := n;
    ghost var out := 0; // the bit shifted out of word i
    while i > 0
      invariant 0 <= i <= n && 0 <= out <= 1 && carry == out * h
      invariant |done| == n - i && forall j :: 0 <= j < n - i ==> vli[off + i + j] == done[j]
      invariant forall j :: 0 <= j < off + i || off + n <= j < vli.Length ==> vli[j] == old(vli[j])
      invariant WordsTo(done, n - i, w) && Val(s[i..], n - i, w) == 2 * Val(done, n - i, w) + out
    {
      i := i - 1;
      var temp := vli[off + i];
      OneOfWords(s, n, i, w);
      ShiftedWord(temp, out, carry, w);
      vli[off + i] := BitOr(temp / 2, carry);
      carry := (temp * h) % Base(w);
      ShiftOneWord(s[i..], done, vli[off + i], n - i, out, w);
      done := [vli[off + i]] + done;
      out := temp % 2;
    }
    assert s[0..] == s;
    WordsFrame(done, vli[off..], n, w);
  }

  lemma NoWordsHalved(s: seq<nat>, w: nat)
    ensures WordsTo([], 0, w) && Val(s, 0, w) == 0 == Val([], 0, w)
  {}

  lemma OneOfWords(s: seq<nat>, n: nat, i: nat, w: nat)
    requires WordsTo(s, n, w) && i < n
    ensures n <= |s| && s[i] < Base(w) && s[i..][0] == s[i] && s[i..][1..] == s[i + 1..]
  {}

  lemma WordsFrame(s: seq<nat>, t: seq<nat>, n: nat, w: nat)
    requires WordsTo(s, n, w) && n <= |t| && forall i :: 0 <= i < n ==> s[i] == t[i]
    ensures WordsTo(t, n, w) && Val(t, n, w) == Val(s, n, w)
  {
    ValFrame(s, t, n, w);
  }

  /** Putting one more halved word below those that are done. */
  lemma ShiftOneWord(s: seq<nat>, done: seq<nat>, word: nat, n: nat, out: nat, w: nat)
    requires w >= 1 && 1 <= n <= |s| && |done| == n - 1 && WordsTo(done, n - 1, w) && word < Base(w)
    requires Val(s[1..], n - 1, w) == 2 * Val(done, n - 1, w) + out
    requires word == s[0] / 2 + out * Pow(2, w - 1)
    ensures WordsTo([word] + done, n, w) && Val(s, n, w) == 2 * Val([word] + done, n, w) + s[0] % 2
  {
    assert ([word] + done)[1..] == done;
    ShiftWord(s, [word] + done, n, out, w);
  }

  /** Halving one more word below words that were halved with `out` shifted out. */
  lemma ShiftWord(s: seq<nat>, t: seq<nat>, n: nat, out: nat, w: nat)
    requires w >= 1 && 1 <= n <= |s| && n <= |t|
    requires Val(s[1..], n - 1, w) == 2 * Val(t[1..], n - 1, w) + out
    requires t[0] == s[0] / 2 + out * Pow(2, w - 1)
    ensures Val(s, n, w) == 2 * Val(t, n, w) + s[0] % 2
  {
    BaseEven(w);
    hide Pow, Val;
    ValFirst(s, n, w);
    ValFirst(t, n, w);
    ShiftStep(Val(s[1..], n - 1, w), Val(t[1..], n - 1, w), out, Pow(2, w - 1));
  }

  /** A word shifted right with the bit shifted out of the word above put on top, and the
      bit it shifts out in turn. */
  lemma ShiftedWord(temp: nat, out: nat, carry: nat, w: nat)
    requires w >= 1 && temp < Base(w) && out <= 1 && carry == out * Pow(2, w - 1)
    ensures BitOr(temp / 2, carry) == temp / 2 + carry < Base(w)
    ensures (temp * Pow(2, w - 1)) % Base(w) == (temp % 2) * Pow(2, w - 1)
  {
    var h := Pow(2, w - 1);
    DivModUnique(carry, out, 0, h);
    OrDisjoint(temp / 2, carry, w - 1);
    assert out == 0 || out == 1;
    ShiftOutBit(temp, h);
  }

  lemma ShiftOutBit(temp: nat, h: nat)
    requires h > 0
    ensures (temp * h) % (2 * h) == (temp % 2) * h
  {
    var q, r := temp / 2, temp % 2;
    assert temp * h == q * (2 * h) + r * h;
    assert r == 0 || r == 1;
    DivModUnique(temp * h, q, r * h, 2 * h);
  }

  lemma ShiftStep(hs: int, hv: int, o: int, h: int)
    requires hs == 2 * hv + o
    ensures (2 * h) * hs == 2 * ((2 * h) * hv) + 2 * (o * h)
  {
    MulDist(2 * hv, o, 2 * h);
    assert (2 * h) * (2 * hv) == 2 * ((2 * h) * hv);
    assert (2 * h) * o == 2 * (o * h);
  }
}
