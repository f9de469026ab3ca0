/** Modular arithmetic on multi-word integers: addition and subtraction with one
    correction, reduction by shift and subtract, and inversion by binary Euclid. */
module VliModular {
  import opened Arithmetic
  import opened Bits
  import opened Vli
  import opened Comba

  // ---- Addition and subtraction ----

  /** result = left + right, less mod once if needed. Reduced when left < mod; otherwise
      still congruent. */
  method VliModAdd(result: array<nat>, left: array<nat>, right: array<nat>, mod: array<nat>, n: nat, w: nat)
    requires w >= 1 && n <= result.Length && result != mod
    requires WordsTo(left[..], n, w) && WordsTo(right[..], n, w) && WordsTo(mod[..], n, w)
    requires Val(right[..], n, w) < Val(mod[..], n, w)
    modifies result
    ensures WordsTo(result[..], n, w)
    ensures Cong(Val(result[..], n, w), old(Val(left[..], n, w)) + old(Val(right[..], n, w)), Val(mod[..], n, w))
    ensures old(Val(left[..], n, w)) < Val(mod[..], n, w) ==>
      Val(result[..], n, w) == (old(Val(left[..], n, w)) + old(Val(right[..], n, w))) % Val(mod[..], n, w)
    ensures forall i :: n <= i < result.Length ==> result[i] == old(result[i])
  {
    hide Pow, Val;
    ghost var l: int, r: int, m: int := Val(left[..], n, w), Val(right[..], n, w), Val(mod[..], n, w);
    ValBound(left[..], n, w);
    ValBound(mod[..], n, w);
    var carry := VliAdd(result, left, right, n, w);
    ValBound(result[..], n, w);
    ghost var sum := Val(result[..], n, w);
    var c := VliCmpUnsafe(mod, result, n, w);
    if carry != 0 || c != 1 {
      var borrow := VliSub(result, result, mod, n, w);
      ValBound(result[..], n, w);
      AddThenSub(l, r, m, sum, carry, Val(result[..], n, w), borrow, Pow(Base(w), n));
      CongBy(Val(result[..], n, w), l + r, m, -1);
    } else {
      CongRefl(l + r, m);
    }
    if l < m {
      WrapOnce(l + r, m);
    }
  }

  lemma AddThenSub(l: nat, r: nat, m: nat, sum: nat, carry: nat, d: nat, borrow: nat, p: nat)
    requires l < p && r < m < p && sum < p && d < p && carry <= 1 && borrow <= 1
    requires sum + carry * p == l + r && d - borrow * p == sum - m
    requires carry == 1 || m <= sum
    ensures d == l + r - m
  {}

  /** result = (left - right) % mod, for reduced operands. */
  method VliModSub(result: array<nat>, left: array<nat>, right: array<nat>, mod: array<nat>, n: nat, w: nat)
    requires w >= 1 && n <= result.Length && result != mod
    requires WordsTo(left[..], n, w) && WordsTo(right[..], n, w) && WordsTo(mod[..], n, w)
    requires Val(left[..], n, w) < Val(mod[..], n, w) && Val(right[..], n, w) < Val(mod[..], n, w)
    modifies result
    ensures WordsTo(result[..], n, w)
    ensures Val(result[..], n, w) == (old(Val(left[..], n, w)) - old(Val(right[..], n, w))) % Val(mod[..], n, w)
    ensures forall i :: n <= i < result.Length ==> result[i] == old(result[i])
  {
    hide Pow, Val;
    ghost var l: int, r: int, m: int := Val(left[..], n, w), Val(right[..], n, w), Val(mod[..], n, w);
    ValBound(mod[..], n, w);
    var borrow := VliSub(result, left, right, n, w);
    ValBound(result[..], n, w);
    ghost var diff := Val(result[..], n, w);
    if borrow != 0 {
      var carry := VliAdd(result, result, mod, n, w);
      ValBound(result[..], n, w);
      SubThenAdd(l, r, m, diff, Val(result[..], n, w), carry, Pow(Base(w), n));
    }
    WrapOnce(l - r, m);
  }

  /** The borrow out of the subtraction and the carry out of the addition cancel. */
  lemma SubThenAdd(l: nat, r: nat, m: nat, diff: nat, d: nat, carry: nat, p: nat)
    requires l < m && r < m < p && diff < p && d < p && carry <= 1
    requires diff - 1 * p == l - r && d + carry * p == diff + m
    ensures d == l - r + m
  {}

  // ---- Reduction ----

  /** Halves a 2n-word number held as two n-word halves. */
  method HalveBoth(mm: array<nat>, n: nat, w: nat)
    requires w >= 1 && n >= 1 && mm.Length == 2 * n && WordsTo(mm[..], 2 * n, w)
    modifies mm
    ensures WordsTo(mm[..], 2 * n, w) && Val(mm[..], 2 * n, w) == old(Val(mm[..], 2 * n, w)) / 2
  {
    hide Pow, Val, BitOr;
    ghost var s := mm[..];
    ghost var lo := Val(s, n, w);
    var h := Pow(2, w - 1);
    assert s[0..] == s;
    VliRshift1(mm, 0, n, w);
    ghost var s1 := mm[..];
    assert s1[0..] == s1 && mm[0..] == mm[..] && s1[n..] == s[n..];
    ValBound(s, n, w);
    HalfTopWord(s1, n, lo, w);
    BorrowedBit(mm[n - 1], mm[n], w);
    mm[n - 1] := BitOr(mm[n - 1], (mm[n] * h) % Base(w));
    ghost var s2 := mm[..];
    assert s2[n..] == s[n..] && s2 == s1[n - 1 := s1[n - 1] + (s[n] % 2) * h];
    VliRshift1(mm, n, n, w);
    WordsJoin(mm[..], n, n, w);
    HalvedValue(s, s1, s2, mm[..], n, w);
  }

  /** The bit moved from the upper half's lowest word onto the lower half's top word. */
  lemma BorrowedBit(top: nat, word: nat, w: nat)
    requires w >= 1 && top < Pow(2, w - 1)
    ensures 0 <= (word * Pow(2, w - 1)) % Base(w)
    ensures BitOr(top, (word * Pow(2, w - 1)) % Base(w)) == top + (word % 2) * Pow(2, w - 1) < Base(w)
  {
    BaseEven(w);
    hide Pow, BitOr;
    var h := Pow(2, w - 1);
    ShiftOutBit(word, h);
    DivModUnique((word % 2) * h, word % 2, 0, h);
    OrDisjoint(top, (word % 2) * h, w - 1);
  }

  lemma HalvedValue(s: seq<nat>, s1: seq<nat>, s2: seq<nat>, s3: seq<nat>, n: nat, w: nat)
    requires w >= 1 && n >= 1 && |s| == |s1| == |s2| == |s3| == 2 * n
    requires Val(s1, n, w) == Val(s, n, w) / 2
    requires s2 == s1[n - 1 := s1[n - 1] + (s[n] % 2) * Pow(2, w - 1)]
    requires forall i :: 0 <= i < n ==> s3[i] == s2[i]
    requires Val(s3[n..], n, w) == Val(s[n..], n, w) / 2
    ensures Val(s3, 2 * n, w) == Val(s, 2 * n, w) / 2
  {
    BaseEven(w);
    PowStep(Base(w), n);
    hide Pow, Val;
    AddToTopWord(s1, s2, n, (s[n] % 2) * Pow(2, w - 1), w);
    ValFrame(s2, s3, n, w);
    ValSplit(s, n, n, w);
    ValSplit(s3, n, n, w);
    ValParity(s[n..], n, w);
    HalveHalves(Val(s, n, w), Val(s[n..], n, w), Pow(2, w - 1), Pow(Base(w), n - 1));
  }

  lemma PowStep(b: nat, n: nat)
    requires n >= 1
    ensures Pow(b, n) == b * Pow(b, n - 1)
  {}

  lemma HalfTopWord(s: seq<nat>, n: nat, lo: nat, w: nat)
    requires w >= 1 && n >= 1 && WordsTo(s, n, w) && lo < Pow(Base(w), n) && Val(s, n, w) == lo / 2
    ensures s[n - 1] < Pow(2, w - 1)
  {
    BaseEven(w);
    PowStep(Base(w), n);
    ValStep(s, n - 1, w);
    hide Pow, Val;
    TopDigitBelow(s[n - 1], Val(s, n - 1, w), lo, Pow(2, w - 1), Pow(Base(w), n - 1));
  }

  lemma TopDigitBelow(d: int, v: int, lo: int, h: int, p: int)
    requires 0 <= v && p > 0 && v + d * p == lo / 2 && lo < (2 * h) * p
    ensures d < h
  {
    MulAssoc(2, h, p);
    if d >= h {
      MulLe(h, d, p);
    }
  }

  lemma AddToTopWord(s: seq<nat>, t: seq<nat>, n: nat, d: nat, w: nat)
    requires 1 <= n <= |s| && t == s[n - 1 := s[n - 1] + d]
    ensures Val(t, n, w) == Val(s, n, w) + d * Pow(Base(w), n - 1)
  {
    hide Pow, Val, Base;
    ValFrame(s, t, n - 1, w);
    ValStep(s, n - 1, w);
    ValStep(t, n - 1, w);
    TermSum(t[n - 1], s[n - 1], d, Pow(Base(w), n - 1));
  }

  lemma HalveHalves(lo: nat, hi: nat, h: nat, q: nat)
    ensures (lo / 2 + ((hi % 2) * h) * q) + ((2 * h) * q) * (hi / 2) == (lo + ((2 * h) * q) * hi) / 2
  {
    var p := h * q;
    MulAssoc(2, h, q);
    MulAssoc(hi % 2, h, q);
    MulAssoc(2, p, hi);
    MulDist(2 * (hi / 2), hi % 2, p);
    assert p * (2 * (hi / 2)) == 2 * (p * (hi / 2));
    assert (2 * p) * (hi / 2) == 2 * (p * (hi / 2));
    assert p * hi == 2 * (p * (hi / 2)) + (hi % 2) * p;
  }

  /** The words of mod shifted left by less than a word, into the upper half of mm. */
  method ShiftIntoTop(mm: array<nat>, mod: array<nat>, n: nat, s: nat, w: nat)
    requires mm != mod && mm.Length == 2 * n && WordsTo(mod[..], n, w) && s < w
    requires Val(mod[..], n, w) * Pow(2, s) < Pow(Base(w), n)
    modifies mm
    ensures forall i :: 0 <= i < n ==> mm[i] == old(mm[i])
    ensures WordsTo(mm[n..], n, w) && Val(mm[n..], n, w) == Val(mod[..], n, w) * Pow(2, s)
  {
    if s > 0 {
      var carry := 0;
      ghost var m := mod[..];
      NoWords(mm[n..], m, s, w);
      hide Pow, Val, BitOr;
      for index := 0 to n
        invariant mod[..] == m && 0 <= carry < Pow(2, s)
        invariant forall i :: 0 <= i < n ==> mm[i] == old(mm[i])
        invariant WordsTo(mm[n..], index, w)
        invariant Val(mm[n..], index, w) + carry * Pow(Base(w), index) == Val(m, index, w) * Pow(2, s)
      {
        ghost var before, c := mm[n..], carry;
        ShiftedLeft(mod[index], carry, s, w);
        var x := (mod[index] * Pow(2, s)) % Base(w);
        mm[n + index] := BitOr(x, carry);
        carry := mod[index] / Pow(2, w - s);
        assert mm[n..] == before[index := mm[n + index]];
        ShiftLeftStep(before, mm[n..], m, index, c, carry, s, w);
      }
      ValBound(mm[n..], n, w);
      NoCarryOut(carry, Val(mm[n..], n, w), Val(m, n, w) * Pow(2, s), Pow(Base(w), n));
    } else {
      VliSetAt(mm, n, mod, n, w);
      assert Pow(2, 0) == 1;
    }
  }

  lemma NoWords(s: seq<nat>, t: seq<nat>, e: nat, w: nat)
    ensures Val(s, 0, w) == Val(t, 0, w) == 0 && 0 < Pow(2, e)
  {}

  lemma NoCarryOut(carry: int, v: int, total: int, p: int)
    requires 0 <= carry && 0 <= v && 0 < p && v + carry * p == total < p
    ensures carry == 0
  {
    if carry > 0 {
      MulLe(1, carry, p);
    }
  }

  /** VliSet with a destination offset. */
  method VliSetAt(dest: array<nat>, off: nat, src: array<nat>, n: nat, w: nat)
    requires off + n <= dest.Length && WordsTo(src[..], n, w) && dest != src
    modifies dest
    ensures forall i :: 0 <= i < off ==> dest[i] == old(dest[i])
    ensures WordsTo(dest[off..], n, w) && Val(dest[off..], n, w) == Val(src[..], n, w)
  {
    for i := 0 to n
      invariant forall j :: 0 <= j < off ==> dest[j] == old(dest[j])
      invariant forall j :: 0 <= j < i ==> dest[off..][j] == src[j]
    {
      dest[off + i] := src[i];
    }
    ValFrame(dest[off..], src[..], n, w);
  }

  lemma ShiftedLeft(x: nat, carry: nat, s: nat, w: nat)
    requires 0 < s < w && x < Base(w) && carry < Pow(2, s)
    ensures 0 <= (x * Pow(2, s)) % Base(w) && 0 <= x / Pow(2, w - s) < Pow(2, s)
    ensures BitOr((x * Pow(2, s)) % Base(w), carry) == (x * Pow(2, s)) % Base(w) + carry < Base(w)
    ensures (x * Pow(2, s)) % Base(w) + Base(w) * (x / Pow(2, w - s)) == x * Pow(2, s)
  {
    hide Pow, BitOr;
    var p, q := Pow(2, s), Pow(2, w - s);
    PowAdd(2, s, w - s);
    ShiftParts(x, p, q);
    DivModUnique((x % q) * p, x % q, 0, p);
    OrDisjoint(carry, (x % q) * p, s);
    MulLe(x % q + 1, q, p);
    MulDist(x % q, 1, p);
  }

  lemma ShiftParts(x: int, p: int, q: int)
    requires p > 0 && q > 0 && 0 <= x < p * q
    ensures 0 <= x / q < p && (x * p) % (p * q) == (x % q) * p
    ensures (x % q) * p + (p * q) * (x / q) == x * p
  {
    SplitTimes(x / q, x % q, p, q);
    assert x == q * (x / q) + x % q;
    DivModUnique(x * p, x / q, (x % q) * p, p * q);
    if x / q >= p {
      MulLe(p, x / q, q);
    }
  }

  lemma SplitTimes(d: int, r: int, p: int, q: int)
    requires 0 <= r < q && p > 0
    ensures (q * d + r) * p == d * (p * q) + r * p == r * p + (p * q) * d
    ensures 0 <= r * p < p * q
  {
    MulDist(q * d, r, p);
    assert (q * d) * p == d * (p * q) == (p * q) * d;
    MulLe(r + 1, q, p);
    MulDist(r, 1, p);
    MulLe(0, r, p);
  }

  lemma ShiftLeftStep(before: seq<nat>, after: seq<nat>, m: seq<nat>, i: nat, c: nat, c': nat, s: nat, w: nat)
    requires i < |before| == |after| && i < |m|
    requires after == before[i := after[i]]
    requires after[i] + Base(w) * c' == m[i] * Pow(2, s) + c
    requires Val(before, i, w) + c * Pow(Base(w), i) == Val(m, i, w) * Pow(2, s)
    ensures Val(after, i + 1, w) + c' * Pow(Base(w), i + 1) == Val(m, i + 1, w) * Pow(2, s)
  {
    ValFrame(before, after, i, w);
    ValStep(after, i, w);
    ValStep(m, i, w);
    PowStep(Base(w), i + 1);
    hide Pow, Val;
    ShiftLeftSum(Val(before, i, w), Val(m, i, w), after[i], m[i], c, c', Base(w), Pow(Base(w), i), Pow(2, s));
  }

  lemma ShiftLeftSum(v: int, u: int, x: int, y: int, c: int, c': int, b: int, p: int, t: int)
    requires x + b * c' == y * t + c && v + c * p == u * t
    ensures v + x * p + c' * (b * p) == (u + y * p) * t
  {
    MulDist(u, y * p, t);
    assert (y * p) * t == (y * t) * p;
    assert c' * (b * p) == (b * c') * p;
    MulDist(x, b * c', p);
    MulDist(y * t, c, p);
  }

  /** result = product % mod, for a 2n-word product and a modulus whose top word is not
      zero; product is used as one of the two buffers. */
  method VliMmod(result: array<nat>, product: array<nat>, mod: array<nat>, n: nat, w: nat)
    requires w >= 1 && n >= 1 && n <= result.Length && product.Length == 2 * n
    requires WordsTo(product[..], 2 * n, w) && WordsTo(mod[..], n, w) && mod[n - 1] != 0
    requires result != mod && product != mod && result != product
    modifies result, product
    ensures WordsTo(result[..], n, w)
    ensures Val(result[..], n, w) == old(Val(product[..], 2 * n, w)) % Val(mod[..], n, w)
    ensures forall i :: n <= i < result.Length ==> result[i] == old(result[i])
  {
    hide Pow, Val;
    var tmp := new nat[2 * n];
    var v := [tmp, product];
    ghost var p, m := Val(product[..], 2 * n, w), Val(mod[..], n, w);
    var bits := VliNumBits(mod, n, w);
    var mm, shift := ShiftedModulus(mod, n, bits, w);
    ghost var ms, rest := mod[..], result[..];
    FirstBound(product[..], m, bits, shift, n, w);
    CongRefl(p, m);
    var index := 1;
    while shift >= 0
      invariant -1 <= shift && (index == 0 || index == 1)
      invariant WordsTo(v[index][..], 2 * n, w) && WordsTo(mm[..], 2 * n, w)
      invariant shift >= 0 ==> Val(mm[..], 2 * n, w) == m * Pow(2, shift)
      invariant Val(v[index][..], 2 * n, w) < m * Pow(2, shift + 1)
      invariant Cong(Val(v[index][..], 2 * n, w), p, m)
      invariant mod[..] == ms && result[..] == rest
      decreases shift
    {
      ghost var x := Val(v[index][..], 2 * n, w);
      ValBound(v[index][..], 2 * n, w);
      ValBound(mm[..], 2 * n, w);
      var borrow := VliSub(v[1 - index], v[index], mm, 2 * n, w);
      ValBound(v[1 - index][..], 2 * n, w);
      ReduceStep(x, Val(v[1 - index][..], 2 * n, w), borrow, m, Pow(2, shift), p, Pow(Base(w), 2 * n), shift);
      index := if index == borrow then 1 else 0;
      HalveBoth(mm, n, w);
      HalvePower(m, shift);
      shift := shift - 1;
    }
    LowWords(v[index][..], m, n, ms, w);
    CongIffMod(Val(v[index][..], n, w), p, m);
    CongUnique(Val(v[index][..], n, w), Val(v[index][..], n, w), m) by { CongRefl(Val(v[index][..], n, w), m); }
    DivModUnique(Val(v[index][..], n, w), 0, Val(v[index][..], n, w), m);
    VliSet(result, v[index], n, w);
  }

  /** mod shifted so that its highest set bit is the highest bit of 2n words. */
  method ShiftedModulus(mod: array<nat>, n: nat, bits: nat, w: nat) returns (mm: array<nat>, shift: int)
    requires w >= 1 && n >= 1 && WordsTo(mod[..], n, w) && mod[n - 1] != 0
    requires Val(mod[..], n, w) < Pow(2, bits) && (bits > 0 ==> Pow(2, bits - 1) <= Val(mod[..], n, w))
    requires bits <= n * w
    ensures fresh(mm) && mm.Length == 2 * n && WordsTo(mm[..], 2 * n, w)
    ensures bits > 0 && shift == 2 * (n * w) - bits >= 0
    ensures Val(mm[..], 2 * n, w) == Val(mod[..], n, w) * Pow(2, shift)
  {
    hide Pow, Val;
    mm := new nat[2 * n];
    ghost var m := Val(mod[..], n, w);
    TopWordShift(mod[..], n, bits, w);
    shift := (n * 2 * w) - bits;
    var wordShift := shift / w;
    var bitShift := shift % w;
    ShiftSizes(n, bits, w);
    ShiftRoom(m, bits, bitShift, n, w);
    VliClear(mm, wordShift, w);
    ghost var low := mm[..];
    ShiftIntoTop(mm, mod, n, bitShift, w);
    ValFrame(low, mm[..], n, w);
    ValSplit(mm[..], n, n, w);
    WordsJoin(mm[..], n, n, w);
    ShiftAll(m, bitShift, n, w);
  }

  lemma ShiftSizes(n: nat, bits: nat, w: nat)
    requires w >= 1 && n >= 1 && (n - 1) * w < bits <= n * w
    ensures ((n * 2 * w) - bits) / w == n && ((n * 2 * w) - bits) % w == n * w - bits
    ensures n * 2 * w == 2 * (n * w)
  {
    MulDist(n, 1, w);
    assert n * 2 * w == 2 * (n * w);
    DivModUnique((n * 2 * w) - bits, n, n * w - bits, w);
  }

  lemma TopWordShift(s: seq<nat>, n: nat, bits: nat, w: nat)
    requires n >= 1 && WordsTo(s, n, w) && s[n - 1] != 0
    requires Val(s, n, w) < Pow(2, bits)
    ensures (n - 1) * w < bits
  {
    ValStep(s, n - 1, w);
    PowMul(2, w, n - 1);
    hide Pow, Val;
    var low, p := Val(s, n - 1, w), Pow(Base(w), n - 1);
    MulLe(1, s[n - 1], p);
    var e := w * (n - 1);
    assert e == (n - 1) * w;
    if bits <= e {
      PowMonotonic(2, bits, e);
    }
  }

  lemma ShiftRoom(m: nat, bits: nat, s: nat, n: nat, w: nat)
    requires m < Pow(2, bits) && bits + s == n * w
    ensures m * Pow(2, s) < Pow(Base(w), n)
  {
    hide Pow;
    PowAdd(2, bits, s);
    PowMul(2, w, n);
    assert w * n == n * w;
    MulLe(m + 1, Pow(2, bits), Pow(2, s));
    MulDist(m, 1, Pow(2, s));
  }

  lemma ShiftAll(m: nat, s: nat, n: nat, w: nat)
    ensures Pow(Base(w), n) * (m * Pow(2, s)) == m * Pow(2, n * w + s)
  {
    hide Pow;
    PowMul(2, w, n);
    assert w * n == n * w;
    PowAdd(2, n * w, s);
    var b: int, p: int := Pow(2, n * w), Pow(2, s);
    assert b * (m * p) == m * (b * p);
  }

  lemma FirstBound(product: seq<nat>, m: nat, bits: nat, shift: nat, n: nat, w: nat)
    requires WordsTo(product, 2 * n, w) && bits > 0 && Pow(2, bits - 1) <= m && shift + bits == 2 * (n * w)
    ensures Val(product, 2 * n, w) < m * Pow(2, shift + 1)
  {
    hide Pow, Val;
    ValBound(product, 2 * n, w);
    PowMul(2, w, 2 * n);
    assert w * (2 * n) == 2 * (n * w);
    PowAdd(2, bits - 1, shift + 1);
    MulLe(Pow(2, bits - 1), m, Pow(2, shift + 1));
  }

  /** One shift-and-subtract step keeps the live buffer congruent and below the modulus
      as it will be shifted for the next step. */
  lemma ReduceStep(x: int, d: int, borrow: int, m: int, t: int, p: int, size: int, shift: nat)
    requires t == Pow(2, shift) && x < m * Pow(2, shift + 1) && x < size && d < size && m * t < size
    requires 0 <= x && 0 <= d && 0 <= borrow <= 1 && d - borrow * size == x - m * t && Cong(x, p, m)
    ensures borrow == 0 ==> d < m * t && Cong(d, p, m)
    ensures borrow == 1 ==> x < m * t
  {
    assert Pow(2, shift + 1) == 2 * t;
    hide Pow;
    assert m * (2 * t) == 2 * (m * t);
    if borrow == 0 {
      assert (-t) * m == -(m * t);
      CongBy(d, x, m, -t);
      CongTrans(d, x, p, m);
    }
  }

  lemma HalvePower(m: nat, shift: nat)
    ensures shift > 0 ==> (m * Pow(2, shift)) / 2 == m * Pow(2, shift - 1)
  {
    if shift > 0 {
      assert Pow(2, shift) == 2 * Pow(2, shift - 1);
      hide Pow;
      assert m * (2 * Pow(2, shift - 1)) == 2 * (m * Pow(2, shift - 1));
    }
  }

  lemma LowWords(s: seq<nat>, m: nat, n: nat, ms: seq<nat>, w: nat)
    requires WordsTo(s, 2 * n, w) && WordsTo(ms, n, w) && m == Val(ms, n, w)
    requires Val(s, 2 * n, w) < m * Pow(2, 0)
    ensures WordsTo(s, n, w) && Val(s, n, w) == Val(s, 2 * n, w) < m
  {
    assert Pow(2, 0) == 1;
    hide Pow, Val;
    ValBound(ms, n, w);
    ValDrop(s, 2 * n, n, w);
    DivModUnique(Val(s, 2 * n, w), 0, Val(s, 2 * n, w), Pow(Base(w), n));
  }

  /** result = (left * right) % mod; result may be left or right. */
  method VliModMult(result: array<nat>, left: array<nat>, right: array<nat>, mod: array<nat>, n: nat, w: nat)
    requires w >= 1 && 1 <= n <= Base(w) && n <= result.Length && result != mod
    requires WordsTo(left[..], n, w) && WordsTo(right[..], n, w) && WordsTo(mod[..], n, w) && mod[n - 1] != 0
    modifies result
    ensures WordsTo(result[..], n, w)
    ensures Val(result[..], n, w)
         == (old(Val(left[..], n, w)) * old(Val(right[..], n, w))) % Val(mod[..], n, w)
    ensures forall i :: n <= i < result.Length ==> result[i] == old(result[i])
  {
    hide Pow, Val;
    var product := new nat[2 * n];
    VliMult(product, left, right, n, w);
    VliMmod(result, product, mod, n, w);
  }

  // ---- Inversion ----

  /** g is a greatest common divisor of x and y. */
  ghost predicate IsGcd(g: int, x: int, y: int)
  {
    g > 0 && forall d :: d > 0 ==> (Divides(d, g) <==> Divides(d, x) && Divides(d, y))
  }

  ghost predicate SameDivisors(a: int, b: int, x: int, y: int)
  {
    forall d :: d > 0 ==> (Divides(d, a) && Divides(d, b) <==> Divides(d, x) && Divides(d, y))
  }

  /** uv = uv / 2 modulo the odd mod: an odd uv first takes mod on, with its carry kept. */
  method VliModInvUpdate(uv: array<nat>, mod: array<nat>, n: nat, w: nat)
    requires w >= 1 && n >= 1 && uv != mod && uv.Length == n
    requires WordsTo(uv[..], n, w) && WordsTo(mod[..], n, w) && Val(mod[..], n, w) % 2 == 1
    requires Val(uv[..], n, w) <= Val(mod[..], n, w)
    modifies uv
    ensures WordsTo(uv[..], n, w)
    ensures Val(uv[..], n, w) == HalfMod(old(Val(uv[..], n, w)), Val(mod[..], n, w))
  {
    BaseEven(w);
    hide Pow, Val, BitOr;
    ghost var u, m := Val(uv[..], n, w), Val(mod[..], n, w);
    var carry := 0;
    ValParity(uv[..], n, w);
    if uv[0] % 2 == 1 {
      carry := VliAdd(uv, uv, mod, n, w);
    }
    ValBound(uv[..], n, w);
    ghost var lo, s0 := Val(uv[..], n, w), uv[..];
    assert uv[0..] == uv[..];
    VliRshift1(uv, 0, n, w);
    assert uv[0..] == uv[..];
    HalfTopWord(uv[..], n, lo, w);
    ghost var s := uv[..];
    if carry != 0 {
      DivModUnique(Pow(2, w - 1), 1, 0, Pow(2, w - 1));
      OrDisjoint(uv[n - 1], Pow(2, w - 1), w - 1);
      uv[n - 1] := BitOr(uv[n - 1], Pow(2, w - 1));
      AddToTopWord(s, uv[..], n, Pow(2, w - 1), w);
      PowStep(Base(w), n);
      MulAssoc(2, Pow(2, w - 1), Pow(Base(w), n - 1));
    }
  }

  function HalfMod(u: nat, m: nat): nat
  {
    if u % 2 == 0 then u / 2 else (u + m) / 2
  }

  /** u - v with mod added on when u is the smaller. */
  function DiffMod(u: nat, v: nat, m: nat): nat
    requires v <= u + m
  {
    if u < v then u + m - v else u - v
  }

  /** Halving a multiplier along with the number it represents. */
  lemma HalfModCong(u: int, a: int, x: int, m: int)
    requires 0 <= u <= m && m % 2 == 1 && a % 2 == 0 && Cong(u * x, a, m)
    ensures Cong(HalfMod(u, m) * x, a / 2, m)
    ensures HalfMod(u, m) <= m && (u < m ==> HalfMod(u, m) < m)
  {
    var h := HalfMod(u, m);
    var e := if u % 2 == 0 then 0 else 1;
    assert 2 * h == u + e * m;
    MulDist(u, e * m, x);
    assert (e * m) * x == (e * x) * m;
    assert 2 * (h * x) == (2 * h) * x;
    CongBy(2 * (h * x), u * x, m, e * x);
    CongTrans(2 * (h * x), u * x, 2 * (a / 2), m);
    CongHalve(h * x, a / 2, m);
  }

  /** The difference of two multipliers represents the difference of the numbers. */
  lemma DifferenceCong(u: int, v: int, a: int, b: int, d: int, x: int, m: int)
    requires Cong(u * x, a, m) && Cong(v * x, b, m) && (d == u - v || d == u + m - v)
    ensures Cong(d * x, a - b, m)
  {
    CongAdd(u * x, a, v * x, b, m);
    var e := if d == u - v then 0 else 1;
    MulDist(u, v, x);
    MulDist(u - v, e * m, x);
    assert (e * m) * x == (e * x) * m;
    CongBy(d * x, u * x - v * x, m, e * x);
    CongTrans(d * x, u * x - v * x, a - b, m);
  }

  /** Removing a factor 2 from a keeps the common divisors with an odd b. */
  lemma HalfKeepsDivisors(a: int, b: int, x: int, y: int)
    requires a % 2 == 0 && b % 2 == 1 && SameDivisors(a, b, x, y)
    ensures SameDivisors(a / 2, b, x, y)
  {
    forall d | d > 0
      ensures Divides(d, a / 2) && Divides(d, b) <==> Divides(d, x) && Divides(d, y)
    {
      if Divides(d, a / 2) {
        DividesAdd(d, a / 2, a / 2);
      }
      if Divides(d, a) && Divides(d, b) {
        DividesOdd(d, b);
        DividesHalf(d, a / 2);
      }
    }
  }

  lemma DifferenceKeepsDivisors(a: int, b: int, x: int, y: int)
    requires SameDivisors(a, b, x, y)
    ensures SameDivisors(a - b, b, x, y)
  {
    forall d | d > 0
      ensures Divides(d, a - b) && Divides(d, b) <==> Divides(d, x) && Divides(d, y)
    {
      if Divides(d, b) {
        if Divides(d, a) {
          DividesAdd(d, a, b);
        }
        if Divides(d, a - b) {
          DividesAdd(d, a - b, b);
        }
      }
    }
  }

  lemma SwapDivisors(a: int, b: int, x: int, y: int)
    requires SameDivisors(a, b, x, y)
    ensures SameDivisors(b, a, x, y)
  {}

  /** What holds of the four numbers of the binary Euclid loop: u and v represent a and b
      as multiples of the input, and a and b keep the common divisors of the input and mod. */
  ghost predicate EuclidState(a: int, b: int, u: int, v: int, x: int, m: int)
  {
    0 < a && 0 < b && (a % 2 == 1 || b % 2 == 1) && SameDivisors(a, b, x, m) &&
    Cong(u * x, a, m) && Cong(v * x, b, m) &&
    if m == 1 then u == 1 && v == 0 && b == 1 else 0 <= u < m && 0 <= v < m
  }

  lemma EuclidStart(x: int, m: int)
    requires x > 0 && m > 0 && m % 2 == 1
    ensures EuclidState(x, m, 1, 0, x, m)
  {
    CongRefl(x, m);
    CongBy(0 * x, m, m, -1);
  }

  lemma EuclidHalve(a: int, b: int, u: int, v: int, x: int, m: int)
    requires EuclidState(a, b, u, v, x, m) && m % 2 == 1 && a % 2 == 0
    ensures EuclidState(a / 2, b, HalfMod(u, m), v, x, m)
  {
    HalfModCong(u, a, x, m);
    HalfKeepsDivisors(a, b, x, m);
  }

  lemma EuclidSwap(a: int, b: int, u: int, v: int, x: int, m: int)
    requires EuclidState(a, b, u, v, x, m) && m > 1
    ensures EuclidState(b, a, v, u, x, m)
  {
    SwapDivisors(a, b, x, m);
  }

  lemma EuclidSubtract(a: int, b: int, u: int, v: int, d: int, x: int, m: int)
    requires EuclidState(a, b, u, v, x, m) && m % 2 == 1 && a % 2 == 1 && b % 2 == 1 && a > b
    requires d == DiffMod(u, v, m)
    ensures EuclidState((a - b) / 2, b, HalfMod(d, m), v, x, m)
  {
    hide Cong, SameDivisors;
    DifferenceCong(u, v, a, b, d, x, m);
    HalfModCong(d, a - b, x, m);
    DifferenceKeepsDivisors(a, b, x, m);
    HalfKeepsDivisors(a - b, b, x, m);
  }

  lemma EuclidFacts(a: int, b: int, u: int, v: int, x: int, m: int)
    requires EuclidState(a, b, u, v, x, m)
    ensures 0 < a && 0 < b && (m > 1 ==> u < m && v < m) && (m == 1 ==> u == 1 && v == 0)
    ensures m >= 1 ==> 0 <= u <= m && 0 <= v < m
    ensures m >= 1 && (b > a || b % 2 == 0) ==> m > 1
    ensures Cong(u * x, a, m)
  {}

  lemma EuclidHalveB(a: int, b: int, u: int, v: int, x: int, m: int)
    requires EuclidState(a, b, u, v, x, m) && m > 1 && m % 2 == 1 && b % 2 == 0
    ensures EuclidState(a, b / 2, u, HalfMod(v, m), x, m)
  {
    EuclidSwap(a, b, u, v, x, m);
    EuclidHalve(b, a, v, u, x, m);
    EuclidSwap(b / 2, a, HalfMod(v, m), u, x, m);
  }

  lemma EuclidSubtractB(a: int, b: int, u: int, v: int, x: int, m: int)
    requires EuclidState(a, b, u, v, x, m) && m > 1 && m % 2 == 1 && a % 2 == 1 && b % 2 == 1 && b > a
    ensures EuclidState(a, (b - a) / 2, u, HalfMod(DiffMod(v, u, m), m), x, m)
  {
    EuclidSwap(a, b, u, v, x, m);
    EuclidSubtract(b, a, v, u, DiffMod(v, u, m), x, m);
    EuclidSwap((b - a) / 2, a, HalfMod(DiffMod(v, u, m), m), u, x, m);
  }

  lemma EuclidEnd(a: int, u: int, v: int, x: int, m: int)
    requires EuclidState(a, a, u, v, x, m)
    ensures IsGcd(a, x, m)
  {
    assert forall d :: d > 0 ==> (Divides(d, a) <==> Divides(d, a) && Divides(d, a));
  }

  /** u = u - v modulo mod, then halved: the work of both subtracting branches. The carry
      of u + mod is dropped; the subtraction borrows it back. */
  method SubtractAndHalve(u: array<nat>, v: array<nat>, mod: array<nat>, n: nat, w: nat)
    requires w >= 1 && n >= 1 && u != mod && u != v && u.Length == n
    requires WordsTo(u[..], n, w) && WordsTo(v[..], n, w) && WordsTo(mod[..], n, w)
    requires Val(mod[..], n, w) % 2 == 1
    requires Val(u[..], n, w) <= Val(mod[..], n, w)
    requires Val(v[..], n, w) < Val(mod[..], n, w)
    modifies u
    ensures WordsTo(u[..], n, w)
    ensures Val(u[..], n, w)
         == HalfMod(DiffMod(old(Val(u[..], n, w)), Val(v[..], n, w), Val(mod[..], n, w)), Val(mod[..], n, w))
  {
    hide Pow, Val;
    ghost var u0, v0, m := Val(u[..], n, w), Val(v[..], n, w), Val(mod[..], n, w);
    ValBound(u[..], n, w);
    ValBound(mod[..], n, w);
    var c := VliCmpUnsafe(u, v, n, w);
    ghost var carry, sum := 0, u0;
    if c < 0 {
      var lost := VliAdd(u, u, mod, n, w);
      carry := lost;
      sum := Val(u[..], n, w);
      ValBound(u[..], n, w);
    }
    var borrow := VliSub(u, u, v, n, w);
    ValBound(u[..], n, w);
    LostCarry(u0, v0, m, sum, carry, Val(u[..], n, w), borrow, Pow(Base(w), n));
    VliModInvUpdate(u, mod, n, w);
  }

  lemma LostCarry(u: int, v: int, m: int, sum: int, carry: int, d: int, borrow: int, p: int)
    requires 0 <= u <= m < p && 0 <= v < m && 0 <= sum < p && 0 <= d < p
    requires 0 <= carry <= 1 && 0 <= borrow <= 1
    requires if u < v then sum + carry * p == u + m else sum == u && carry == 0
    requires d - borrow * p == sum - v
    ensures d == DiffMod(u, v, m)
  {}

  /** result = (1 / input) % mod for an odd mod. In general the result times the input is
      congruent to their greatest common divisor g; it is 0 for a zero input, and it is
      reduced except for mod 1, where it is 1. */
  method VliModInv(result: array<nat>, input: array<nat>, mod: array<nat>, n: nat, w: nat)
    returns (ghost g: nat)
    requires w >= 1 && n >= 1 && n <= result.Length && result != mod
    requires WordsTo(input[..], n, w) && WordsTo(mod[..], n, w) && Val(mod[..], n, w) % 2 == 1
    modifies result
    ensures WordsTo(result[..], n, w)
    ensures old(Val(input[..], n, w)) == 0 ==> Val(result[..], n, w) == 0
    ensures old(Val(input[..], n, w)) != 0 ==>
      var (x, m, r) := (old(Val(input[..], n, w)), Val(mod[..], n, w), Val(result[..], n, w));
      IsGcd(g, x, m) && Cong(r * x, g, m) && if m == 1 then r == 1 else r < m
    ensures forall i :: n <= i < result.Length ==> result[i] == old(result[i])
  {
    hide Pow, Val, EuclidState, Base, IsGcd, Cong;
    ghost var x, m := Val(input[..], n, w), Val(mod[..], n, w);
    var zero := VliIsZero(input, n, w);
    g := 0;
    if zero {
      VliClear(result, n, w);
      return;
    }
    var a, b, u, v := new nat[n], new nat[n], new nat[n], new nat[n];
    VliSet(a, input, n, w);
    VliSet(b, mod, n, w);
    VliSetOne(u, n, w);
    VliClear(v, n, w);
    EuclidStart(x, m);
    EuclidLoop(a, b, u, v, mod, n, w, x);
    g := Val(a[..], n, w);
    EuclidFacts(g, g, Val(u[..], n, w), Val(v[..], n, w), x, m);
    EuclidEnd(g, Val(u[..], n, w), Val(v[..], n, w), x, m);
    VliSet(result, u, n, w);
  }

  /** The binary Euclid loop, until a and b are equal. */
  method EuclidLoop(a: array<nat>, b: array<nat>, u: array<nat>, v: array<nat>, mod: array<nat>, n: nat, w: nat,
                    ghost x: nat)
    requires w >= 1 && n >= 1 && a.Length == n && b.Length == n && u.Length == n && v.Length == n
    requires a != b && a != u && a != v && a != mod && b != u && b != v && b != mod && u != v && u != mod && v != mod
    requires WordsTo(a[..], n, w) && WordsTo(b[..], n, w) && WordsTo(u[..], n, w) && WordsTo(v[..], n, w)
    requires WordsTo(mod[..], n, w) && Val(mod[..], n, w) % 2 == 1
    requires EuclidState(Val(a[..], n, w), Val(b[..], n, w), Val(u[..], n, w), Val(v[..], n, w), x, Val(mod[..], n, w))
    modifies a, b, u, v
    ensures WordsTo(a[..], n, w) && WordsTo(b[..], n, w) && WordsTo(u[..], n, w) && WordsTo(v[..], n, w)
    ensures Val(a[..], n, w) == Val(b[..], n, w)
    ensures EuclidState(Val(a[..], n, w), Val(a[..], n, w), Val(u[..], n, w), Val(v[..], n, w), x, Val(mod[..], n, w))
  {
    hide Pow, Val, EuclidState, Base;
    ghost var ms, m := mod[..], Val(mod[..], n, w);
    hide WordsTo;
    var cmp := VliCmpUnsafe(a, b, n, w);
    while cmp != 0
      invariant WordsTo(a[..], n, w) && WordsTo(b[..], n, w) && WordsTo(u[..], n, w) && WordsTo(v[..], n, w)
      invariant EuclidState(Val(a[..], n, w), Val(b[..], n, w), Val(u[..], n, w), Val(v[..], n, w), x, m)
      invariant cmp == Sign(Val(a[..], n, w) - Val(b[..], n, w))
      invariant mod[..] == ms
      decreases Val(a[..], n, w) + Val(b[..], n, w)
    {
      EuclidStep(a, b, u, v, mod, cmp, n, w, x);
      cmp := VliCmpUnsafe(a, b, n, w);
    }
  }

  /** Modulo 1 the inverse of any other number than 0 comes out as 1, which is not reduced. */
  method InverseModuloOne(x: nat, w: nat) returns (result: array<nat>)
    requires w >= 1 && 0 < x < Base(w)
    ensures fresh(result) && result[..] == [1]
  {
    var input, mod := new nat[] [x], new nat[] [1];
    result := new nat[1];
    OneWord(input[..], w);
    PowMonotonic(2, 1, w);
    assert Pow(2, 1) == 2;
    OneWord(mod[..], w);
    ghost var g := VliModInv(result, input, mod, 1, w);
    OneWord(result[..], w);
  }

  lemma OneWord(s: seq<nat>, w: nat)
    requires |s| == 1
    ensures Val(s, 1, w) == s[0]
  {
    assert Pow(Base(w), 0) == 1;
    assert Val(s, 0, w) == 0;
  }

  /** The body of the binary Euclid loop. */
  method EuclidStep(a: array<nat>, b: array<nat>, u: array<nat>, v: array<nat>, mod: array<nat>, cmp: int,
                    n: nat, w: nat, ghost x: nat)
    requires w >= 1 && n >= 1 && a.Length == n && b.Length == n && u.Length == n && v.Length == n
    requires a != b && a != u && a != v && a != mod && b != u && b != v && b != mod && u != v && u != mod && v != mod
    requires WordsTo(a[..], n, w) && WordsTo(b[..], n, w) && WordsTo(u[..], n, w) && WordsTo(v[..], n, w)
    requires WordsTo(mod[..], n, w) && Val(mod[..], n, w) % 2 == 1
    requires cmp != 0 && cmp == Sign(Val(a[..], n, w) - Val(b[..], n, w))
    requires EuclidState(Val(a[..], n, w), Val(b[..], n, w), Val(u[..], n, w), Val(v[..], n, w), x, Val(mod[..], n, w))
    modifies a, b, u, v
    ensures WordsTo(a[..], n, w) && WordsTo(b[..], n, w) && WordsTo(u[..], n, w) && WordsTo(v[..], n, w)
    ensures EuclidState(Val(a[..], n, w), Val(b[..], n, w), Val(u[..], n, w), Val(v[..], n, w), x, Val(mod[..], n, w))
    ensures Val(a[..], n, w) + Val(b[..], n, w) < old(Val(a[..], n, w) + Val(b[..], n, w))
  {
    hide Pow, Val, EuclidState, HalfMod, DiffMod;
    ghost var A, B, U, V := Val(a[..], n, w), Val(b[..], n, w), Val(u[..], n, w), Val(v[..], n, w);
    ghost var m := Val(mod[..], n, w);
    EuclidFacts(A, B, U, V, x, m);
    ValParity(a[..], n, w);
    ValParity(b[..], n, w);
    if a[0] % 2 == 0 {
      EuclidHalve(A, B, U, V, x, m);
      StepHalve(a, u, mod, n, w);
    } else if b[0] % 2 == 0 {
      EuclidHalveB(A, B, U, V, x, m);
      StepHalve(b, v, mod, n, w);
    } else if cmp > 0 {
      EuclidSubtract(A, B, U, V, DiffMod(U, V, m), x, m);
      StepSubtract(a, b, u, v, mod, n, w);
    } else {
      EuclidSubtractB(A, B, U, V, x, m);
      StepSubtract(b, a, v, u, mod, n, w);
    }
  }

  /** The two statements of a halving branch. */
  method StepHalve(a: array<nat>, u: array<nat>, mod: array<nat>, n: nat, w: nat)
    requires w >= 1 && n >= 1 && a != mod && a != u && u != mod && a.Length == n && u.Length == n
    requires WordsTo(a[..], n, w) && WordsTo(u[..], n, w) && WordsTo(mod[..], n, w)
    requires Val(mod[..], n, w) % 2 == 1 && Val(u[..], n, w) <= Val(mod[..], n, w)
    modifies a, u
    ensures WordsTo(a[..], n, w) && Val(a[..], n, w) == old(Val(a[..], n, w)) / 2
    ensures WordsTo(u[..], n, w) && Val(u[..], n, w) == HalfMod(old(Val(u[..], n, w)), Val(mod[..], n, w))
  {
    hide Pow, Val;
    assert a[0..] == a[..];
    VliRshift1(a, 0, n, w);
    assert a[0..] == a[..];
    VliModInvUpdate(u, mod, n, w);
  }

  /** The statements of a subtracting branch, for a > b. */
  method StepSubtract(a: array<nat>, b: array<nat>, u: array<nat>, v: array<nat>, mod: array<nat>, n: nat, w: nat)
    requires w >= 1 && n >= 1 && a.Length == n && u.Length == n
    requires a != b && a != u && a != v && a != mod && u != b && u != v && u != mod
    requires WordsTo(a[..], n, w) && WordsTo(b[..], n, w) && Val(a[..], n, w) > Val(b[..], n, w)
    requires WordsTo(u[..], n, w) && WordsTo(v[..], n, w) && WordsTo(mod[..], n, w)
    requires Val(mod[..], n, w) % 2 == 1
    requires Val(u[..], n, w) <= Val(mod[..], n, w) && Val(v[..], n, w) < Val(mod[..], n, w)
    modifies a, u
    ensures WordsTo(a[..], n, w)
    ensures Val(a[..], n, w) == (old(Val(a[..], n, w)) - Val(b[..], n, w)) / 2
    ensures WordsTo(u[..], n, w)
    ensures Val(u[..], n, w)
         == HalfMod(DiffMod(old(Val(u[..], n, w)), Val(v[..], n, w), Val(mod[..], n, w)), Val(mod[..], n, w))
  {
    hide Pow, Val;
    ValBound(a[..], n, w);
    ghost var A, B := Val(a[..], n, w), Val(b[..], n, w);
    var borrow := VliSub(a, a, b, n, w);
    ValBound(a[..], n, w);
    BorrowOrders(A, B, Val(a[..], n, w), borrow, Pow(Base(w), n));
    assert a[0..] == a[..];
    VliRshift1(a, 0, n, w);
    assert a[0..] == a[..];
    SubtractAndHalve(u, v, mod, n, w);
  }
}
