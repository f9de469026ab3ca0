/** ECDSA signing and verification (SEC 1, sections 4.1.3 and 4.1.4) on word arrays, and the
    proof that they agree. */
module Ecdsa {
  import opened Arithmetic
  import opened Bits
  import opened Vli
  import opened VliModular
  import opened Group
  import opened Octets
  import opened Primes
  import opened FieldArith
  import opened CoZ
  import opened Curves
  import opened Ecc

  /** SEC 1, section 4.1.4: r and s are in range and the point (e / s) G + (r / s) Q has an
      x-coordinate that is r once n has been taken off if it is not below n. */
  ghost predicate Accepts<P(!new)>(c: Curve<P>, q: P, e: nat, r: nat, s: nat)
    requires c.numWords <= c.order.Length
    reads c.order
  {
    && 0 < r < Order(c) && 0 < s < Order(c)
    && exists z: nat :: z < Order(c) && IsInverse(z, s, Order(c)) && ReducedX(c, VerifyPoint(c, q, e * z, r * z)) == r
  }

  ghost predicate IsInverse(z: nat, s: nat, n: nat) { Cong(z * s, 1, n) }

  ghost function VerifyPoint<P>(c: Curve<P>, q: P, u1: nat, u2: nat): P
  {
    c.group.add(Mul(c.group, u1, c.base), Mul(c.group, u2, q))
  }

  ghost function ReducedX<P>(c: Curve<P>, p: P): nat
    requires c.numWords <= c.order.Length
    reads c.order
  {
    if c.x(p) >= Order(c) then c.x(p) - Order(c) else c.x(p)
  }

  /** What a signature on hash value e with nonce k and private key d is. */
  ghost predicate SignatureParts<P(!new)>(c: Curve<P>, d: nat, e: nat, k: nat, r: nat, s: nat)
    requires c.numWords <= c.order.Length
    reads c.order
  {
    && 0 < k < Order(c) && r == c.x(Mul(c.group, k, c.base)) && r != 0
    && s < Order(c) && Cong(s * k, e + r * d, Order(c))
  }

  // ---- The scalar arithmetic ----

  /** Multiplying by a and then by its inverse changes nothing. */
  lemma CongCancel(x: int, a: int, b: int, m: int)
    requires Cong(a * b, 1, m)
    ensures Cong((x * a) * b, x, m) && Cong(x, (x * a) * b, m)
  {
    hide Cong;
    CongRefl(x, m);
    CongMul(a * b, 1, x, x, m);
    MulAssoc(x, a, b);
    assert (a * b) * x == x * (a * b);
    CongSym((x * a) * b, x, m);
  }

  lemma CongTimes(a: int, b: int, k: int, m: int)
    requires Cong(a, b, m)
    ensures Cong(a * k, b * k, m) && Cong(k * a, k * b, m)
  {
    hide Cong;
    CongRefl(k, m);
    CongMul(a, b, k, k, m);
    assert a * k == k * a && b * k == k * b;
  }

  lemma InverseUnique(y: int, z: int, s: int, n: int)
    requires Cong(y * s, 1, n) && Cong(z * s, 1, n)
    ensures Cong(y, z, n)
  {
    hide Cong;
    assert y * s == s * y && z * s == s * z && (z * s) * y == z * (s * y);
    CongCancel(z, s, y, n);
    CongTimes(z * s, 1, y, n);
    CongSym((z * s) * y, y, n);
    CongTrans(y, (z * s) * y, z, n);
  }

  /** If s k = e + r d and z s = 1 then e z + r z d = k. */
  lemma VerifyScalar(e: int, r: int, d: int, k: int, s: int, z: int, n: int)
    requires Cong(s * k, e + r * d, n) && Cong(z * s, 1, n)
    ensures Cong(e * z + (r * z) * d, k, n)
  {
    hide Cong;
    CongTimes(s * k, e + r * d, z, n);
    CongTimes(z * s, 1, k, n);
    assert (s * k) * z == (z * s) * k;
    MulDist(e, r * d, z);
    assert (r * d) * z == (r * z) * d;
    CongSym((z * s) * k, e * z + (r * z) * d, n);
    CongTrans(e * z + (r * z) * d, (z * s) * k, k, n);
  }

  /** With Q = d G the verifier's point is k G. */
  lemma VerifierReachesNonce<P(!new)>(c: Curve<P>, e: nat, r: nat, d: nat, k: nat, s: nat, z: nat)
    requires ValidCurve(c) && Cong(s * k, e + r * d, Order(c)) && IsInverse(z, s, Order(c))
    ensures VerifyPoint(c, Mul(c.group, d, c.base), e * z, r * z) == Mul(c.group, k, c.base)
  {
    hide Mul, Pow, Val, Cong, ValidPoints;
    VerifyScalar(e, r, d, k, s, z, Order(c));
    NonNegative(r, z);
    NonNegative(e, z);
    NonNegative(r * z, d);
    VerifySum(c, e * z, r * z, d, (r * z) * d, k);
  }

  lemma VerifySum<P(!new)>(c: Curve<P>, u1: nat, u2: nat, d: nat, u2d: nat, k: nat)
    requires ValidCurve(c) && u2d == u2 * d && Cong(u1 + u2d, k, Order(c))
    ensures VerifyPoint(c, Mul(c.group, d, c.base), u1, u2) == Mul(c.group, k, c.base)
  {
    hide Mul, Pow, Val, Cong, ValidPoints;
    UsefulLaws(c, c.base);
    MulProduct(c.group, u2, d, u2d, c.base);
    MulSum(c.group, u1, u2d, c.base);
    MulCong(c.group, u1 + u2d, k, Order(c), c.base);
  }

  lemma NonNegative(x: nat, y: nat)
    ensures x * y >= 0
  {
    MulLe(0, x, y);
  }

  /** A signature made for d is accepted for Q = d G exactly when x(k G) < n and s is not 0. */
  lemma SignatureAccepted<P(!new)>(c: Curve<P>, d: nat, e: nat, k: nat, r: nat, s: nat)
    requires ValidCurve(c) && SignatureParts(c, d, e, k, r, s)
    ensures Accepts(c, Mul(c.group, d, c.base), e, r, s) <==> r < Order(c) && s != 0
  {
    hide Mul, Pow, Val, Cong, ValidPoints;
    if r < Order(c) && s != 0 {
      var u := InverseMod(s, Order(c));
      var z := u % Order(c);
      CongMod(u, Order(c));
      CongRefl(s, Order(c));
      CongMul(z, u, s, s, Order(c));
      CongTrans(z * s, u * s, 1, Order(c));
      assert IsInverse(z, s, Order(c));
      VerifierReachesNonce(c, e, r, d, k, s, z);
    }
  }

  /** The greatest common divisor with a prime is 1. */
  lemma GcdWithPrime(g: nat, x: nat, m: nat)
    requires Prime(m) && 0 < x < m && IsGcd(g, x, m)
    ensures g == 1
  {
    DividesBy(g, g, 1);
    assert Divides(g, x) && Divides(g, m);
    DividesLe(g, x);
  }

  // ---- Signing ----

  /** k = 1 / k, with k multiplied by t before the inversion and by t again after it. */
  method InvertNonce<P(!new)>(c: Curve<P>, k: array<nat>, t: array<nat>)
    requires ValidSizes(c) && k.Length == c.numWords && k != c.order && k != t
    requires WordsTo(k[..], c.numWords, Width(c)) && WordsTo(t[..], c.numWords, Width(c))
    requires 0 < Val(k[..], c.numWords, Width(c)) < Order(c) && 0 < Val(t[..], c.numWords, Width(c)) < Order(c)
    modifies k
    ensures WordsTo(k[..], c.numWords, Width(c))
    ensures IsInverse(Val(k[..], c.numWords, Width(c)), old(Val(k[..], c.numWords, Width(c))), Order(c))
  {
    var n, w := c.numWords, Width(c);
    hide Pow, Val, Cong, IsGcd, Prime;
    OrderFacts(c);
    ghost var x, y, m := Val(k[..], n, w), Val(t[..], n, w), Order(c);
    NonZeroProduct(x, y, m);
    VliModMult(k, k, t, c.order, n, w);
    ghost var blinded := Val(k[..], n, w);
    ghost var g := VliModInv(k, k, c.order, n, w);
    GcdWithPrime(g, blinded, m);
    ghost var i := Val(k[..], n, w);
    VliModMult(k, k, t, c.order, n, w);
    Unblind(x, y, blinded, i, Val(k[..], n, w), m);
  }

  lemma Unblind(x: int, y: int, blinded: int, i: int, r: int, m: int)
    requires m > 0 && blinded == (x * y) % m && Cong(i * blinded, 1, m) && r == (i * y) % m
    ensures Cong(r * x, 1, m)
  {
    CongMod(x * y, m);
    CongMod(i * y, m);
    hide Cong;
    UnblindProducts(x, y, x * y, i * y, blinded, i, r, m);
  }

  lemma UnblindProducts(x: int, y: int, xy: int, iy: int, blinded: int, i: int, r: int, m: int)
    requires xy == x * y && iy == i * y && Cong(xy, blinded, m) && Cong(r, iy, m) && Cong(i * blinded, 1, m)
    ensures Cong(r * x, 1, m)
  {
    hide Cong;
    CongTimes(r, iy, x, m);
    CongTimes(xy, blinded, i, m);
    assert iy * x == i * xy;
    CongTrans(i * xy, i * blinded, 1, m);
    CongTrans(r * x, i * xy, 1, m);
  }

  /** s = (e + r d) / k, given 1 / k; the hash's number e need not be reduced. */
  method SignatureScalar<P(!new)>(c: Curve<P>, s: array<nat>, tmp: array<nat>, px: array<nat>, inv: array<nat>,
                                  privateKey: seq<nat>, hash: seq<nat>, ghost k: nat)
    requires ValidSizes(c) && Bytes(privateKey) && |privateKey| == (c.numNBits + 7) / 8 && Bytes(hash)
    requires s.Length == c.numWords && tmp.Length == c.numWords && px.Length == c.numWords
    requires s != tmp && s != px && s != inv && s != c.order && tmp != px && tmp != inv && tmp != c.order
    requires WordsTo(px[..], c.numWords, Width(c)) && WordsTo(inv[..], c.numWords, Width(c))
    requires IsInverse(Val(inv[..], c.numWords, Width(c)), k, Order(c))
    modifies s, tmp
    ensures WordsTo(s[..], c.numWords, Width(c)) && Val(s[..], c.numWords, Width(c)) < Order(c)
    ensures Cong(Val(s[..], c.numWords, Width(c)) * k,
                 HashToInt(hash, c.numNBits, Order(c)) + Val(px[..], c.numWords, Width(c)) * BigEndian(privateKey),
                 Order(c))
  {
    var n, w := c.numWords, Width(c);
    hide Pow, Val, Cong, BigEndian, HashToInt;
    OrderFacts(c);
    OctetsOfOrder(c.numNBits, c.W);
    ghost var m, r, d := Order(c), Val(px[..], n, w), BigEndian(privateKey);
    VliBytesToNative(tmp, privateKey, n, c.W);
    VliSet(s, px, n, w);
    VliModMult(s, tmp, s, c.order, n, w);
    ghost var s1 := Val(s[..], n, w);
    Bits2Int(tmp, hash, c.numNBits, c.order, n, c.W);
    ghost var e := Val(tmp[..], n, w);
    VliModAdd(s, tmp, s, c.order, n, w);
    ghost var s2 := Val(s[..], n, w);
    VliModMult(s, s, inv, c.order, n, w);
    ScalarCong(d, r, e, s1, s2, Val(inv[..], n, w), Val(s[..], n, w), k, m);
  }

  lemma ScalarCong(d: int, r: int, e: int, s1: int, s2: int, inv: int, s: int, k: int, m: int)
    requires m > 0 && s1 == (d * r) % m && Cong(s2, e + s1, m) && s == (s2 * inv) % m && Cong(inv * k, 1, m)
    ensures Cong(s * k, e + r * d, m)
  {
    CongMod(d * r, m);
    CongMod(s2 * inv, m);
    hide Cong;
    CongRefl(e, m);
    CongAdd(e, e, s1, d * r, m);
    CongTrans(s2, e + s1, e + d * r, m);
    CongTimes(s, s2 * inv, k, m);
    CongCancel(s2, inv, k, m);
    CongTrans(s * k, (s2 * inv) * k, s2, m);
    CongTrans(s * k, s2, e + d * r, m);
    assert d * r == r * d;
  }

  /** tmp = 1, or the random number if there is a source for one. */
  method LoadBlinding<P(!new)>(c: Curve<P>, tmp: array<nat>, rng: Rng) returns (ok: bool)
    requires ValidSizes(c) && tmp.Length == c.numWords && tmp != c.order && RandomBelow(c, rng, Order(c))
    modifies tmp
    ensures ok <==> !rng.RngFails?
    ensures ok ==> WordsTo(tmp[..], c.numWords, Width(c)) && 0 < Val(tmp[..], c.numWords, Width(c)) < Order(c)
  {
    hide Pow, Val;
    OrderFacts(c);
    match rng {
      case NoRng =>
        VliSetOne(tmp, c.numWords, Width(c));
      case RngFails =>
        return false;
      case RngGives(words) =>
        for i := 0 to c.numWords
          invariant forall j :: 0 <= j < i ==> tmp[j] == words[j]
        {
          tmp[i] := words[i];
        }
        ValFrame(tmp[..], words, c.numWords, Width(c));
    }
    ok := true;
  }

  /** p = the x-coordinate of k G, or 0 if the ladder fails for k. */
  method NonceX<P(!new)>(c: Curve<P>, p: array<nat>, k: array<nat>)
    requires ValidCurve(c) && p.Length == c.numWords && p != c.order && p != k
    requires WordsTo(k[..], c.numWords, Width(c)) && 0 < Val(k[..], c.numWords, Width(c)) < Order(c)
    modifies p
    ensures var K := Val(k[..], c.numWords, Width(c));
      && WordsTo(p[..], c.numWords, Width(c)) && Val(p[..], c.numWords, Width(c)) == c.x(Delivered(c, K, c.base))
      && Val(p[..], c.numWords, Width(c)) < OctetPow(c.numBytes)
      && (Val(p[..], c.numWords, Width(c)) != 0 ==> Delivered(c, K, c.base) == Mul(c.group, K, c.base))
  {
    hide Pow, Val, Mul, OctetPow, ValidPoints, Prime, SafeScalar;
    ghost var K := Val(k[..], c.numWords, Width(c));
    var point := RegularMult(c, p, At(c, c.base), k, c.base);
    RegularMultiple(c, K, c.base);
    UsefulLaws(c, Delivered(c, K, c.base));
  }

  /** One signing attempt with nonce k, which is used up. It fails for a nonce out of range or
      one that the ladder fails for. r is stored as it is, without being reduced modulo n; an
      s of 0 is not refused. */
  method SignWithK<P(!new)>(c: Curve<P>, privateKey: seq<nat>, hash: seq<nat>, k: array<nat>,
                            signature: array<nat>, rng: Rng)
    returns (ok: bool, ghost r: nat, ghost s: nat)
    requires ValidCurve(c) && Bytes(privateKey) && |privateKey| == (c.numNBits + 7) / 8 && Bytes(hash)
    requires k.Length == c.numWords && WordsTo(k[..], c.numWords, Width(c)) && k != c.order
    requires signature.Length == 2 * c.numBytes && signature != k && signature != c.order
    requires RandomBelow(c, rng, Order(c))
    modifies k, signature
    ensures var K := old(Val(k[..], c.numWords, Width(c)));
      var e := HashToInt(hash, c.numNBits, Order(c));
      if 0 < K < Order(c) && c.x(Delivered(c, K, c.base)) != 0 && !rng.RngFails? then
        && SignatureParts(c, BigEndian(privateKey), e, K, r, s)
        && (ok <==> s < OctetPow(c.numBytes))
      else !ok
    ensures ok ==> Bytes(signature[..]) && BigEndian(signature[..c.numBytes]) == r
                   && BigEndian(signature[c.numBytes..]) == s
  {
    var n, w := c.numWords, Width(c);
    hide Pow, Val, Mul, Cong, BigEndian, HashToInt, OctetPow, IsInverse, ValidPoints, Prime, RandomBelow, Delivered;
    ok, r, s := false, 0, 0;
    OrderFacts(c);
    ghost var K := Val(k[..], n, w);
    var zero := VliIsZero(k, n, w);
    var cmp := VliCmp(c.order, k, n, w);
    if zero || cmp != 1 {
      return;
    }
    var tmp, p := new nat[n], new nat[n];
    NonceX(c, p, k);
    var pZero := VliIsZero(p, n, w);
    if pZero {
      return;
    }
    var blinded := LoadBlinding(c, tmp, rng);
    if !blinded {
      return;
    }
    r := Val(p[..], n, w);
    ok, s := StoreSignature(c, privateKey, hash, k, tmp, p, signature);
  }

  /** The part of signing after the checks: 1 / k, then r and s into the signature. */
  method StoreSignature<P(!new)>(c: Curve<P>, privateKey: seq<nat>, hash: seq<nat>, k: array<nat>, tmp: array<nat>,
                                 p: array<nat>, signature: array<nat>)
    returns (ok: bool, ghost s: nat)
    requires ValidSizes(c) && Bytes(privateKey) && |privateKey| == (c.numNBits + 7) / 8 && Bytes(hash)
    requires k.Length == c.numWords && tmp.Length == c.numWords && p.Length == c.numWords
    requires k != c.order && tmp != c.order && k != tmp && k != p && tmp != p
    requires signature.Length == 2 * c.numBytes && signature !in {k, tmp, p, c.order}
    requires WordsTo(k[..], c.numWords, Width(c)) && 0 < Val(k[..], c.numWords, Width(c)) < Order(c)
    requires WordsTo(tmp[..], c.numWords, Width(c)) && 0 < Val(tmp[..], c.numWords, Width(c)) < Order(c)
    requires WordsTo(p[..], c.numWords, Width(c)) && Val(p[..], c.numWords, Width(c)) < OctetPow(c.numBytes)
    modifies k, tmp, signature
    ensures s < Order(c) && (ok <==> s < OctetPow(c.numBytes))
    ensures Cong(s * old(Val(k[..], c.numWords, Width(c))),
                 HashToInt(hash, c.numNBits, Order(c)) + Val(p[..], c.numWords, Width(c)) * BigEndian(privateKey), Order(c))
    ensures ok ==> Bytes(signature[..]) && BigEndian(signature[..c.numBytes]) == Val(p[..], c.numWords, Width(c))
                   && BigEndian(signature[c.numBytes..]) == s
  {
    var n, w := c.numWords, Width(c);
    hide Pow, Val, Cong, BigEndian, HashToInt, OctetPow, IsInverse, Prime;
    OrderFacts(c);
    ghost var K := Val(k[..], n, w);
    var sw := new nat[n];
    InvertNonce(c, k, tmp);
    VliNativeToBytes(signature, 0, c.numBytes, p, n, c.W);
    SmallQuotient(Val(p[..], n, w), OctetPow(c.numBytes));
    SignatureScalar(c, sw, tmp, p, k, privateKey, hash, K);
    s := Val(sw[..], n, w);
    ok := FinishSignature(c, sw, signature);
  }

  /** Refuses an s of more than numBytes octets, else appends it. */
  method FinishSignature<P(!new)>(c: Curve<P>, sw: array<nat>, signature: array<nat>) returns (ok: bool)
    requires ValidSizes(c) && WordsTo(sw[..], c.numWords, Width(c))
    requires signature.Length == 2 * c.numBytes && signature != sw && signature != c.order
    requires Bytes(signature[0..0 + c.numBytes])
    modifies signature
    ensures ok <==> Val(sw[..], c.numWords, Width(c)) < OctetPow(c.numBytes)
    ensures signature[..c.numBytes] == old(signature[0..0 + c.numBytes])
    ensures ok ==> Bytes(signature[..])
                   && BigEndian(signature[c.numBytes..]) == Val(sw[..], c.numWords, Width(c))
  {
    var n, w := c.numWords, Width(c);
    hide Pow, Val, BigEndian;
    OrderFacts(c);
    var bits := VliNumBits(sw, n, w);
    ghost var s := Val(sw[..], n, w);
    if bits > c.numBytes * 8 {
      PowMonotonic(2, c.numBytes * 8, bits - 1);
      return false;
    }
    PowMonotonic(2, bits, c.numBytes * 8);
    SmallQuotient(s, OctetPow(c.numBytes));
    VliNativeToBytes(signature, c.numBytes, c.numBytes, sw, n, c.W);
    assert signature[c.numBytes..c.numBytes + c.numBytes] == signature[c.numBytes..];
    assert signature[..] == signature[..c.numBytes] + signature[c.numBytes..];
    ok := true;
  }

  // ---- Verifying ----

  ghost function BitVal(b: bool): nat { if b then 1 else 0 }

  lemma PairSum<P(!new)>(c: Curve<P>, q: P, k: nat, l: nat, k': nat, l': nat)
    requires IsGroup(c.group)
    ensures c.group.add(VerifyPoint(c, q, k, l), VerifyPoint(c, q, k', l')) == VerifyPoint(c, q, k + k', l + l')
  {
    var g := c.group;
    hide Mul, IsGroup;
    MulSum(g, k, k', c.base);
    MulSum(g, l, l', q);
    Interchange(g, Mul(g, k, c.base), Mul(g, l, q), Mul(g, k', c.base), Mul(g, l', q));
  }

  lemma Interchange<P(!new)>(g: Group<P>, x: P, y: P, z: P, t: P)
    requires IsGroup(g)
    ensures g.add(g.add(x, y), g.add(z, t)) == g.add(g.add(x, z), g.add(y, t))
  {
    Assoc(g, x, y, g.add(z, t));
    Assoc(g, y, z, t);
    Comm(g, y, z);
    Assoc(g, z, y, t);
    Assoc(g, x, z, g.add(y, t));
  }

  /** The four table entries: nothing, G, Q, G + Q. */
  lemma TablePoints<P(!new)>(c: Curve<P>, q: P)
    requires IsGroup(c.group)
    ensures VerifyPoint(c, q, 0, 0) == c.group.zero && VerifyPoint(c, q, 1, 0) == c.base
    ensures VerifyPoint(c, q, 0, 1) == q && VerifyPoint(c, q, 1, 1) == c.group.add(c.base, q)
  {
    hide Mul;
    OneTimes(c.group, c.base);
    OneTimes(c.group, q);
    AddZero(c.group, c.group.zero);
    AddZero(c.group, c.base);
    AddZero(c.group, q);
  }

  /** Where bits i of a and b are not both clear, the table entry for them and twice what the
      bits above have made can be added by a line. */
  ghost predicate StepSeparate<P>(c: Curve<P>, q: P, a: nat, b: nat, i: nat)
  {
    Bit(a, i) || Bit(b, i) ==>
      Separate(c.group, VerifyPoint(c, q, BitVal(Bit(a, i)), BitVal(Bit(b, i))),
                        VerifyPoint(c, q, 2 * HighBits(a, i + 1), 2 * HighBits(b, i + 1)))
  }

  /** Bit i is below the highest bit set in either number. */
  ghost predicate BelowTop(a: nat, b: nat, i: nat) { HighBits(a, i + 1) + HighBits(b, i + 1) > 0 }

  /** No addition below the highest bit of both multipliers meets equal or opposite points. */
  ghost predicate AdditionsSeparate<P>(c: Curve<P>, q: P, a: nat, b: nat)
  {
    forall i: nat :: BelowTop(a, b, i) ==> StepSeparate(c, q, a, b, i)
  }

  ghost predicate AdditionsFrom<P>(c: Curve<P>, q: P, a: nat, b: nat, from: int, top: int)
  {
    forall i: nat :: from <= i < top ==> StepSeparate(c, q, a, b, i)
  }

  /** What Shamir's trick delivers: a G + b Q, or infinity once an addition has been lost. */
  ghost function Combined<P>(c: Curve<P>, q: P, a: nat, b: nat): P
  {
    if AdditionsSeparate(c, q, a, b) then VerifyPoint(c, q, a, b) else c.group.zero
  }

  /** The table entry G + Q is right, or not used. */
  ghost predicate TableServes<P>(c: Curve<P>, q: P, a: nat, b: nat)
  {
    q != c.group.zero && (Separate(c.group, c.base, q) || NoCommonBit(a, b))
  }

  ghost predicate NoCommonBit(a: nat, b: nat) { forall i :: !(Bit(a, i) && Bit(b, i)) }

  datatype Entry = NoPoint | Point(at: Coordinates)

  /** The four table entries: nothing, G, Q, G + Q. */
  ghost predicate Table<P>(c: Curve<P>, q: P, points: seq<Entry>)
  {
    && |points| == 4 && points[0] == NoPoint && points[1] == Point(At(c, c.base)) && points[2] == Point(At(c, q))
    && points[3].Point? && (Separate(c.group, c.base, q) ==> points[3] == Point(At(c, c.group.add(c.base, q))))
  }

  function PairIndex(b1: bool, b2: bool): (i: nat)
    ensures i == (if b1 then 1 else 0) + (if b2 then 2 else 0)
  {
    BitOr(if b1 then 1 else 0, if b2 then 2 else 0)
  }

  /** Every entry is a point with coordinates below p. */
  lemma EntryRange<P(!new)>(c: Curve<P>, q: P, points: seq<Entry>, b1: bool, b2: bool)
    requires ValidCurve(c) && Table(c, q, points) && points[3].at.x < c.p && points[3].at.y < c.p
    ensures |points| == 4 && (points[PairIndex(b1, b2)].Point? <==> b1 || b2)
    ensures b1 || b2 ==> points[PairIndex(b1, b2)].at.x < c.p && points[PairIndex(b1, b2)].at.y < c.p
  {
    hide Pow, Val, Mul, ValidPoints, Separate;
    UsefulLaws(c, c.base);
    UsefulLaws(c, q);
  }

  /** The entry for a pair of bits holds their combination of G and Q at scale 1. */
  lemma EntryPoint<P(!new)>(c: Curve<P>, q: P, points: seq<Entry>, b1: bool, b2: bool)
    requires ValidCurve(c) && Table(c, q, points) && (b1 || b2)
    requires q != c.group.zero && (b1 && b2 ==> Separate(c.group, c.base, q))
    ensures VerifyPoint(c, q, BitVal(b1), BitVal(b2)) != c.group.zero
    ensures points[PairIndex(b1, b2)] == Point(At(c, VerifyPoint(c, q, BitVal(b1), BitVal(b2))))
  {
    hide Pow, Val, Mul, ValidPoints;
    UsefulLaws(c, q);
    TablePoints(c, q);
    if b1 && b2 {
      SeparateParts(c.group, c.base, q);
    }
  }

  lemma AffineHolds<P(!new)>(c: Curve<P>, q: P)
    requires ValidCurve(c) && q != c.group.zero
    ensures Holds(c, q, 1, c.x(q), c.y(q))
  {
    hide Val, Mul, ValidPoints;
    UsefulLaws(c, q);
    PowTwoThree(1);
    CongRefl(c.x(q), c.p);
    CongRefl(c.y(q), c.p);
  }

  /** G + Q in affine coordinates, where the line through G and Q gives it. */
  method TableSum<P(!new)>(c: Curve<P>, publicKey: Coordinates, ghost q: P) returns (sum: Coordinates)
    requires ValidCurve(c) && publicKey == At(c, q)
    ensures sum.x < c.p && sum.y < c.p
    ensures Separate(c.group, c.base, q) ==> sum == At(c, c.group.add(c.base, q))
  {
    hide Pow, Val, Mul, Cong, IsGroup, Prime, ValidPoints, ValidSizes, SumFormula, Holds, FieldSub;
    UsefulLaws(c, c.base);
    UsefulLaws(c, q);
    var base := At(c, c.base);
    var z := FieldSub(publicKey.x, base.x, c.p);
    ghost var s := z;
    var tx, ty, x, y := XYcZAdd(base.x, base.y, publicKey.x, publicKey.y, c.p);
    z := FieldInverse(z, c.p);
    var X, Y := ApplyZ(x, y, z, c.p);
    sum := Coordinates(X, Y);
    if Separate(c.group, c.base, q) {
      AffineHolds(c, c.base);
      AffineHolds(c, q);
      SubIs(publicKey.x, base.x, s, c.p);
      SumHolds(c, c.base, q, 1, base.x, base.y, publicKey.x, publicKey.y, tx, ty, x, y, s);
      ScaleOfHolds(c, c.group.add(c.base, q), s, x, y);
      Unscaled(c, c.group.add(c.base, q), s, x, y, z, X, Y);
    }
  }

  lemma SubIs(a: nat, b: nat, s: nat, p: nat)
    requires p > 0 && s == FieldSub(a, b, p)
    ensures Cong(s, 1 * (a - b), p)
  {
    CongMod(a - b, p);
  }

  lemma ScaleOfHolds<P>(c: Curve<P>, q: P, z: nat, X: nat, Y: nat)
    requires Holds(c, q, z, X, Y)
    ensures 0 < z < c.p && X < c.p && Y < c.p
  {}

  /** The running point: a combination of G and Q at scale z, or lost with z = 0. */
  ghost predicate Running<P>(c: Curve<P>, q: P, k: nat, l: nat, live: bool, z: nat, x: nat, y: nat)
  {
    if live then Holds(c, VerifyPoint(c, q, k, l), z, x, y) else z == 0
  }

  /** Doubling the running point. */
  method ShamirDouble<P(!new)>(c: Curve<P>, x0: nat, y0: nat, z0: nat,
                               ghost q: P, ghost k: nat, ghost l: nat, ghost live: bool, ghost serves: bool)
    returns (x: nat, y: nat, z: nat)
    requires ValidCurve(c) && x0 < c.p && y0 < c.p && z0 < c.p
    requires serves ==> Running(c, q, k, l, live, z0, x0, y0)
    ensures x < c.p && y < c.p && z < c.p
    ensures serves ==> Running(c, q, 2 * k, 2 * l, live, z, x, y)
  {
    hide Pow, Val, Mul, Cong, IsGroup, Prime, ValidPoints, ValidSizes, DoubleFormula, VerifyPoint, AtScale;
    UsefulLaws(c, c.base);
    ghost var h;
    x, y, z, h := DoubleJacobian(c, x0, y0, z0);
    if serves && live {
      PairSum(c, q, k, l, k, l);
      DoubleHolds(c, VerifyPoint(c, q, k, l), z0, x0, y0, h, x, y, z);
    }
  }

  /** Adding a table entry to the running point: lost if there is no line through them. */
  method ShamirAdd<P(!new)>(c: Curve<P>, entry: Coordinates, x0: nat, y0: nat, z0: nat,
                            ghost q: P, ghost k: nat, ghost l: nat, ghost k': nat, ghost l': nat,
                            ghost live: bool, ghost serves: bool)
    returns (x: nat, y: nat, z: nat)
    requires ValidCurve(c) && x0 < c.p && y0 < c.p && z0 < c.p && entry.x < c.p && entry.y < c.p
    requires serves ==> Running(c, q, k, l, live, z0, x0, y0)
    requires serves ==> entry == At(c, VerifyPoint(c, q, k', l')) && VerifyPoint(c, q, k', l') != c.group.zero
    ensures x < c.p && y < c.p && z < c.p
    ensures serves ==> Running(c, q, k' + k, l' + l,
                               live && Separate(c.group, VerifyPoint(c, q, k', l'), VerifyPoint(c, q, k, l)), z, x, y)
  {
    hide Pow, Val, Mul, Cong, IsGroup, Prime, ValidPoints, ValidSizes, SumFormula, VerifyPoint, Holds, Separate, FieldSub,
         FieldMul;
    UsefulLaws(c, c.base);
    var tx, ty := ApplyZ(entry.x, entry.y, z0, c.p);
    var tz := FieldSub(x0, tx, c.p);
    var tx', ty';
    tx', ty', x, y := XYcZAdd(tx, ty, x0, y0, c.p);
    z := FieldMul(z0, tz, c.p);
    NothingByScale(tz, c.p);
    if serves && live {
      AddedEntry(c, VerifyPoint(c, q, k', l'), VerifyPoint(c, q, k, l), z0, tx, ty, x0, y0, tz, tx', ty', x, y, z);
      PairSum(c, q, k', l', k, l);
    }
  }

  lemma NothingByScale(t: nat, p: nat)
    requires p > 0
    ensures FieldMul(0, t, p) == 0
  {}

  lemma AddedEntry<P(!new)>(c: Curve<P>, t: P, r: P, z: nat, tx: nat, ty: nat, x: nat, y: nat, tz: nat,
                            tx': nat, ty': nat, X: nat, Y: nat, s: nat)
    requires ValidCurve(c) && t != c.group.zero && Holds(c, r, z, x, y) && tx < c.p && ty < c.p
    requires Cong(tx, c.x(t) * (z * z), c.p) && Cong(ty, c.y(t) * (z * (z * z)), c.p)
    requires tz == FieldSub(x, tx, c.p) && s == FieldMul(z, tz, c.p)
    requires tx' < c.p && ty' < c.p && X < c.p && Y < c.p && SumFormula(tx, ty, x, y, tx', ty', X, Y, c.p)
    ensures if Separate(c.group, t, r) then Holds(c, c.group.add(t, r), s, X, Y) else s == 0
  {
    hide Pow, Val, Mul, Cong, IsGroup, Prime, ValidPoints, ValidSizes, SumFormula, Holds, Separate, FieldSub, FieldMul;
    assert 0 < z < c.p && x < c.p && y < c.p by { ScaleOfHolds(c, r, z, x, y); }
    AppliedHolds(c, t, z, tx, ty);
    ScaleStep(z, x, tx, tz, s, c.p);
    if Separate(c.group, t, r) {
      SumHolds(c, t, r, z, tx, ty, x, y, tx', ty', X, Y, s);
    } else {
      SameX(c, t, r, z, tx, ty, x, y);
    }
  }

  lemma ScaleStep(z: nat, x: nat, tx: nat, tz: nat, s: nat, p: nat)
    requires p > 0 && tz == FieldSub(x, tx, p) && s == FieldMul(z, tz, p)
    ensures Cong(s, z * (x - tx), p) && (x == tx ==> s == 0)
  {
    hide Cong;
    NoDifference(x, z, p);
    hide FieldSub, FieldMul;
    Reflexive(x, tx, z, 0, p);
    DifferenceIs(x, x, tx, tx, p);
    ProductIs(z, z, tz, x - tx, p);
  }

  lemma NoDifference(x: nat, z: nat, p: nat)
    requires p > 0
    ensures FieldSub(x, x, p) == 0 && FieldMul(z, 0, p) == 0
  {}

  /** Equal or opposite points at one scale have the same X. */
  lemma SameX<P(!new)>(c: Curve<P>, t: P, r: P, z: nat, X1: nat, Y1: nat, X2: nat, Y2: nat)
    requires ValidCurve(c) && !Separate(c.group, t, r) && Holds(c, t, z, X1, Y1) && Holds(c, r, z, X2, Y2)
    ensures X1 == X2
  {
    hide Pow, Val, Mul, Cong, IsGroup, Prime, ValidPoints, ValidSizes, Scaled;
    if t == r {
      SameScaled(X1, X2, c.x(r), z, 2, c.p);
    } else {
      OppositeRegisters(c, t, r, z, X1, Y1, X2, Y2);
    }
  }

  /** One doubling and, unless both bits are clear, one addition. */
  method ShamirMove<P(!new)>(c: Curve<P>, points: seq<Entry>, b1: bool, b2: bool, x0: nat, y0: nat, z0: nat,
                             ghost q: P, ghost k: nat, ghost l: nat, ghost live: bool, ghost serves: bool)
    returns (x: nat, y: nat, z: nat)
    requires ValidCurve(c) && Table(c, q, points) && points[3].at.x < c.p && points[3].at.y < c.p
    requires x0 < c.p && y0 < c.p && z0 < c.p
    requires serves ==> q != c.group.zero && (b1 && b2 ==> Separate(c.group, c.base, q))
    requires serves ==> Running(c, q, k, l, live, z0, x0, y0)
    ensures x < c.p && y < c.p && z < c.p
    ensures serves ==> Running(c, q, BitVal(b1) + 2 * k, BitVal(b2) + 2 * l,
      live && (b1 || b2 ==> Separate(c.group, VerifyPoint(c, q, BitVal(b1), BitVal(b2)), VerifyPoint(c, q, 2 * k, 2 * l))),
      z, x, y)
  {
    hide Pow, Val, Mul, Cong, IsGroup, Prime, ValidPoints, ValidSizes, VerifyPoint, Running, Separate, Table;
    x, y, z := ShamirDouble(c, x0, y0, z0, q, k, l, live, serves);
    EntryRange(c, q, points, b1, b2);
    var index := PairIndex(b1, b2);
    if points[index].Point? {
      if serves {
        EntryPoint(c, q, points, b1, b2);
      }
      x, y, z := ShamirAdd(c, points[index].at, x, y, z, q, 2 * k, 2 * l, BitVal(b1), BitVal(b2), live, serves);
    }
  }

  lemma PairBits(a: nat, b: nat, i: nat)
    ensures HighBits(a, i) == 2 * HighBits(a, i + 1) + BitVal(Bit(a, i))
    ensures HighBits(b, i) == 2 * HighBits(b, i + 1) + BitVal(Bit(b, i))
  {
    NextBit(a, i);
    NextBit(b, i);
  }

  /** The highest bits of two numbers that are not both 0. */
  lemma TopBits(a: nat, b: nat, bits1: nat, bits2: nat)
    requires a != 0 || b != 0
    requires a < Pow(2, bits1) && (bits1 > 0 ==> Pow(2, bits1 - 1) <= a)
    requires b < Pow(2, bits2) && (bits2 > 0 ==> Pow(2, bits2 - 1) <= b)
    ensures var top := if bits1 > bits2 then bits1 else bits2;
      && top >= 1 && (Bit(a, top - 1) || Bit(b, top - 1))
      && HighBits(a, top - 1) == BitVal(Bit(a, top - 1)) && HighBits(b, top - 1) == BitVal(Bit(b, top - 1))
    ensures HighBits(a, 0) == a && HighBits(b, 0) == b
  {
    assert Pow(2, 0) == 1;
    var top := if bits1 > bits2 then bits1 else bits2;
    TopBit(a, bits1, top);
    TopBit(b, bits2, top);
  }

  lemma TopBit(a: nat, bits: nat, top: nat)
    requires bits <= top && top >= 1 && a < Pow(2, bits) && (bits > 0 ==> Pow(2, bits - 1) <= a)
    ensures HighBits(a, top - 1) == BitVal(Bit(a, top - 1)) && (bits == top ==> Bit(a, top - 1))
  {
    PowMonotonic(2, bits, top);
    assert Pow(2, top) == 2 * Pow(2, top - 1);
    if a >= Pow(2, top - 1) {
      DivModUnique(a, 1, a - Pow(2, top - 1), Pow(2, top - 1));
    } else {
      DivModUnique(a, 0, a, Pow(2, top - 1));
    }
  }

  /** The step at bit i as part of the whole. */
  lemma AdditionStep<P(!new)>(c: Curve<P>, q: P, a: nat, b: nat, i: nat, top: nat)
    requires i < top
    ensures HighBits(a, i) == BitVal(Bit(a, i)) + 2 * HighBits(a, i + 1)
    ensures HighBits(b, i) == BitVal(Bit(b, i)) + 2 * HighBits(b, i + 1)
    ensures AdditionsFrom(c, q, a, b, i, top)
       <==> AdditionsFrom(c, q, a, b, i + 1, top) && StepSeparate(c, q, a, b, i)
  {
    hide StepSeparate, HighBits, Bit;
    PairBits(a, b, i);
  }

  /** Below the highest bit set in either number. */
  lemma AllAdditions<P(!new)>(c: Curve<P>, q: P, a: nat, b: nat, bits: nat)
    requires bits >= 1 && a < Pow(2, bits) && b < Pow(2, bits) && (Pow(2, bits - 1) <= a || Pow(2, bits - 1) <= b)
    ensures AdditionsSeparate(c, q, a, b) <==> AdditionsFrom(c, q, a, b, 0, bits - 1)
  {
    hide StepSeparate, Pow, HighBits;
    forall i: nat
      ensures BelowTop(a, b, i) <==> i < bits - 1
    {
      AboveTop(a, b, i + 1, bits);
    }
  }

  lemma AboveTop(a: nat, b: nat, i: nat, bits: nat)
    requires bits >= 1 && a < Pow(2, bits) && b < Pow(2, bits) && (Pow(2, bits - 1) <= a || Pow(2, bits - 1) <= b)
    ensures HighBits(a, i) + HighBits(b, i) > 0 <==> i < bits
  {
    if i < bits {
      PowMonotonic(2, i, bits - 1);
      hide Pow;
      var x := if Pow(2, bits - 1) <= a then a else b;
      AtLeastOne(x, Pow(2, i));
    } else {
      PowMonotonic(2, bits, i);
      hide Pow;
      DivModUnique(a, 0, a, Pow(2, i));
      DivModUnique(b, 0, b, Pow(2, i));
    }
  }

  lemma AtLeastOne(x: nat, p: nat)
    requires 0 < p <= x
    ensures x / p >= 1
  {
    var q := x / p;
    assert x == p * q + x % p;
  }

  /** Shamir's trick: u1 G + u2 Q by one pass over the bits of both, from the highest bit set
      in either, in affine coordinates; (0, 0) if an addition has been lost on the way. */
  method ShamirsTrick<P(!new)>(c: Curve<P>, publicKey: Coordinates, u1: array<nat>, u2: array<nat>, ghost q: P,
                               ghost a: nat, ghost b: nat)
    returns (result: Coordinates)
    requires ValidCurve(c) && publicKey == At(c, q)
    requires WordsTo(u1[..], c.numWords, Width(c)) && WordsTo(u2[..], c.numWords, Width(c))
    requires a == Val(u1[..], c.numWords, Width(c)) && b == Val(u2[..], c.numWords, Width(c)) && (a != 0 || b != 0)
    ensures result.x < c.p && (TableServes(c, q, a, b) ==> result == At(c, Combined(c, q, a, b)))
  {
    hide Val, Pow, Mul, Bit, HighBits, IsGroup, VerifyPoint, ValidPoints, AdditionsSeparate, TableServes, Prime;
    var sum := TableSum(c, publicKey, q);
    var points := [NoPoint, Point(At(c, c.base)), Point(publicKey), Point(sum)];
    var numBits := PairBitCount(c, u1, u2, a, b);
    UsefulLaws(c, c.base);
    ghost var serves := TableServes(c, q, a, b);
    var x, y, z := ShamirTop(c, points, u1, u2, numBits, q, a, b, serves);
    x, y, z := ShamirLoop(c, points, x, y, z, u1, u2, numBits, q, a, b, serves);
    AllAdditions(c, q, a, b, numBits);
    result := Normalised(c, x, y, z, q, a, b, AdditionsSeparate(c, q, a, b), serves);
    UsefulLaws(c, Combined(c, q, a, b));
  }

  /** The larger of the two numbers of bits. */
  method PairBitCount<P(!new)>(c: Curve<P>, u1: array<nat>, u2: array<nat>, ghost a: nat, ghost b: nat)
    returns (numBits: nat)
    requires c.W >= 1 && WordsTo(u1[..], c.numWords, Width(c)) && WordsTo(u2[..], c.numWords, Width(c))
    requires a == Val(u1[..], c.numWords, Width(c)) && b == Val(u2[..], c.numWords, Width(c)) && (a != 0 || b != 0)
    ensures 1 <= numBits <= c.numWords * Width(c) && a < Pow(2, numBits) && b < Pow(2, numBits)
    ensures Pow(2, numBits - 1) <= a || Pow(2, numBits - 1) <= b
    ensures HighBits(a, numBits - 1) == BitVal(Bit(a, numBits - 1))
    ensures HighBits(b, numBits - 1) == BitVal(Bit(b, numBits - 1))
    ensures (Bit(a, numBits - 1) || Bit(b, numBits - 1)) && HighBits(a, 0) == a && HighBits(b, 0) == b
  {
    hide Val, Bit, HighBits, BitVal;
    var bits1 := VliNumBits(u1, c.numWords, Width(c));
    var bits2 := VliNumBits(u2, c.numWords, Width(c));
    numBits := if bits1 > bits2 then bits1 else bits2;
    TopBits(a, b, bits1, bits2);
    PowMonotonic(2, bits1, numBits);
    PowMonotonic(2, bits2, numBits);
  }

  /** The entry for the highest bits, with z = 1. */
  method ShamirTop<P(!new)>(c: Curve<P>, points: seq<Entry>, u1: array<nat>, u2: array<nat>, numBits: nat,
                            ghost q: P, ghost a: nat, ghost b: nat, ghost serves: bool)
    returns (x: nat, y: nat, z: nat)
    requires ValidCurve(c) && Table(c, q, points) && points[3].at.x < c.p && points[3].at.y < c.p
    requires 1 <= numBits <= c.numWords * Width(c) && (serves ==> TableServes(c, q, a, b))
    requires WordsTo(u1[..], c.numWords, Width(c)) && WordsTo(u2[..], c.numWords, Width(c))
    requires a == Val(u1[..], c.numWords, Width(c)) && b == Val(u2[..], c.numWords, Width(c))
    requires Bit(a, numBits - 1) || Bit(b, numBits - 1)
    ensures x < c.p && y < c.p && z < c.p
    ensures serves ==> Running(c, q, BitVal(Bit(a, numBits - 1)), BitVal(Bit(b, numBits - 1)), true, z, x, y)
  {
    hide Val, Pow, Mul, Bit, IsGroup, VerifyPoint, ValidPoints, ValidSizes, Table, Separate, Prime, Holds;
    UsefulLaws(c, c.base);
    assert c.W >= 1 by { WidthOfWords(c); }
    var b1 := VliTestBit(u1, c.numWords, numBits - 1, Width(c));
    var b2 := VliTestBit(u2, c.numWords, numBits - 1, Width(c));
    EntryRange(c, q, points, b1, b2);
    var entry := points[PairIndex(b1, b2)].at;
    x, y, z := entry.x, entry.y, 1;
    assert c.p > 1 by { PrimeAboveOne(c.p); }
    if serves {
      EntryPoint(c, q, points, b1, b2);
      AffineHolds(c, VerifyPoint(c, q, BitVal(b1), BitVal(b2)));
    }
  }

  lemma WidthOfWords<P>(c: Curve<P>)
    requires ValidSizes(c)
    ensures c.W >= 1
  {}

  /** The bits below the top one. */
  method ShamirLoop<P(!new)>(c: Curve<P>, points: seq<Entry>, x0: nat, y0: nat, z0: nat, u1: array<nat>, u2: array<nat>,
                             numBits: nat, ghost q: P, ghost a: nat, ghost b: nat, ghost serves: bool)
    returns (x: nat, y: nat, z: nat)
    requires ValidCurve(c) && Table(c, q, points) && points[3].at.x < c.p && points[3].at.y < c.p
    requires 1 <= numBits <= c.numWords * Width(c) && x0 < c.p && y0 < c.p && z0 < c.p
    requires serves ==> TableServes(c, q, a, b)
    requires WordsTo(u1[..], c.numWords, Width(c)) && WordsTo(u2[..], c.numWords, Width(c))
    requires a == Val(u1[..], c.numWords, Width(c)) && b == Val(u2[..], c.numWords, Width(c))
    requires serves ==> Running(c, q, HighBits(a, numBits - 1), HighBits(b, numBits - 1), true, z0, x0, y0)
    ensures x < c.p && y < c.p && z < c.p
    ensures serves ==> Running(c, q, HighBits(a, 0), HighBits(b, 0), AdditionsFrom(c, q, a, b, 0, numBits - 1), z, x, y)
  {
    hide Val, Pow, Mul, Bit, HighBits, IsGroup, VerifyPoint, WordsTo, Table, BitVal, ValidPoints, Separate, Running, Prime;
    x, y, z := x0, y0, z0;
    var i: int := numBits - 2;
    while i >= 0
      invariant -1 <= i <= numBits - 2 && x < c.p && y < c.p && z < c.p
      invariant serves ==> Running(c, q, HighBits(a, i + 1), HighBits(b, i + 1),
                                   AdditionsFrom(c, q, a, b, i + 1, numBits - 1), z, x, y)
    {
      var b1 := VliTestBit(u1, c.numWords, i, Width(c));
      var b2 := VliTestBit(u2, c.numWords, i, Width(c));
      AdditionStep(c, q, a, b, i, numBits - 1);
      x, y, z := ShamirMove(c, points, b1, b2, x, y, z, q, HighBits(a, i + 1), HighBits(b, i + 1),
                            AdditionsFrom(c, q, a, b, i + 1, numBits - 1), serves);
      i := i - 1;
    }
  }

  /** The running point in affine coordinates. */
  method Normalised<P(!new)>(c: Curve<P>, x0: nat, y0: nat, z0: nat, ghost q: P, ghost a: nat, ghost b: nat,
                             ghost live: bool, ghost serves: bool)
    returns (result: Coordinates)
    requires ValidCurve(c) && x0 < c.p && y0 < c.p && z0 < c.p && (serves ==> Running(c, q, a, b, live, z0, x0, y0))
    ensures result.x < c.p
    ensures serves ==> result == At(c, if live then VerifyPoint(c, q, a, b) else c.group.zero)
  {
    hide Val, Pow, Mul, IsGroup, VerifyPoint, ValidPoints, Holds, Cong;
    UsefulLaws(c, c.base);
    var z := FieldInverse(z0, c.p);
    var x, y := ApplyZ(x0, y0, z, c.p);
    result := Coordinates(x, y);
    if serves && live {
      ScaleOfHolds(c, VerifyPoint(c, q, a, b), z0, x0, y0);
      Unscaled(c, VerifyPoint(c, q, a, b), z0, x0, y0, z, x, y);
    } else if serves {
      ScaledAway(x0, y0, x, y, c.p);
    }
  }

  /** The multipliers that verification uses: u1 = e / s and u2 = r / s modulo n. */
  ghost predicate Multipliers<P(!new)>(c: Curve<P>, e: nat, r: nat, s: nat, u1: nat, u2: nat)
    requires c.numWords <= c.order.Length && Order(c) > 0
    reads c.order
  {
    exists z: nat :: InverseGives(z, e, r, s, Order(c), u1, u2)
  }

  ghost predicate InverseGives(z: nat, e: nat, r: nat, s: nat, n: nat, u1: nat, u2: nat)
    requires n > 0
  {
    z < n && IsInverse(z, s, n) && u1 == (e * z) % n && u2 == (r * z) % n
  }

  /** u1, u2 and their combination with G and Q. */
  method CombinedPoint<P(!new)>(c: Curve<P>, publicKey: Coordinates, hash: seq<nat>, r: array<nat>, s: array<nat>,
                                ghost q: P)
    returns (result: Coordinates, ghost z: nat, ghost a: nat, ghost b: nat)
    requires ValidCurve(c) && publicKey == At(c, q) && Bytes(hash) && r.Length == c.numWords && s.Length == c.numWords
    requires WordsTo(r[..], c.numWords, Width(c)) && WordsTo(s[..], c.numWords, Width(c))
    requires 0 < Val(r[..], c.numWords, Width(c)) < Order(c) && 0 < Val(s[..], c.numWords, Width(c)) < Order(c)
    ensures InverseGives(z, HashToInt(hash, c.numNBits, Order(c)), Val(r[..], c.numWords, Width(c)),
                         Val(s[..], c.numWords, Width(c)), Order(c), a, b)
    ensures result.x < c.p && (TableServes(c, q, a, b) ==> result == At(c, Combined(c, q, a, b)))
  {
    var n, w := c.numWords, Width(c);
    hide Pow, Val, Cong, IsGcd, HashToInt, ValidPoints, TableServes, Combined, Prime;
    OrderFacts(c);
    var zw, u1, u2 := new nat[n], new nat[n], new nat[n];
    ghost var g := VliModInv(zw, s, c.order, n, w);
    GcdWithPrime(g, Val(s[..], n, w), Order(c));
    z := Val(zw[..], n, w);
    Bits2Int(u1, hash, c.numNBits, c.order, n, c.W);
    ghost var e := Val(u1[..], n, w);
    VliModMult(u1, u1, zw, c.order, n, w);
    VliModMult(u2, r, zw, c.order, n, w);
    a, b := Val(u1[..], n, w), Val(u2[..], n, w);
    InverseNonZero(z, Val(s[..], n, w), Order(c));
    NonZeroProduct(Val(r[..], n, w), z, Order(c));
    result := ShamirsTrick(c, publicKey, u1, u2, q, a, b);
  }

  lemma InverseNonZero(z: int, s: int, n: int)
    requires n > 1 && Cong(z * s, 1, n)
    ensures z != 0
  {
    if z == 0 {
      CongUnique(0, 1, n);
    }
  }

  lemma ReducedPair<P(!new)>(c: Curve<P>, q: P, u1: nat, u2: nat)
    requires ValidCurve(c)
    ensures VerifyPoint(c, q, u1 % Order(c), u2 % Order(c)) == VerifyPoint(c, q, u1, u2)
  {
    hide Mul, Pow, Val, ValidPoints;
    UsefulLaws(c, c.base);
    UsefulLaws(c, q);
    MulOrder(c.group, u1, Order(c), c.base);
    MulOrder(c.group, u2, Order(c), q);
  }

  /** Accepts exactly the signatures of SEC 1, section 4.1.4, with x(R) reduced at most once,
      for whose multipliers no addition is lost. Where G + Q is used, G and Q must be separate
      for this. */
  method Verify<P(!new)>(c: Curve<P>, publicKey: Coordinates, hash: seq<nat>, signature: seq<nat>, ghost q: P)
    returns (ok: bool, ghost u1: nat, ghost u2: nat)
    requires ValidCurve(c) && publicKey == At(c, q) && Bytes(hash) && Bytes(signature) && |signature| == 2 * c.numBytes
    ensures ok ==> 0 < BigEndian(signature[..c.numBytes]) < Order(c) && 0 < BigEndian(signature[c.numBytes..]) < Order(c)
    ensures var e := HashToInt(hash, c.numNBits, Order(c));
      var r, s := BigEndian(signature[..c.numBytes]), BigEndian(signature[c.numBytes..]);
      0 < r < Order(c) && 0 < s < Order(c) ==>
        && Multipliers(c, e, r, s, u1, u2)
        && (TableServes(c, q, u1, u2) ==> (ok <==> Accepts(c, q, e, r, s) && AdditionsSeparate(c, q, u1, u2)))
  {
    hide Pow, Val, Mul, Cong, BigEndian, HashToInt, IsInverse, ValidPoints, Accepts, AdditionsSeparate, TableServes, Prime;
    u1, u2 := 0, 0;
    var r, s, inRange := ReadSignature(c, signature);
    if !inRange {
      return false, 0, 0;
    }
    var rx := new nat[c.numWords];
    var point;
    ghost var z;
    point, z, u1, u2 := CombinedPoint(c, publicKey, hash, r, s, q);
    StoreCoordinate(c, point.x, rx);
    ok := SameAfterOneReduction(c, rx, r);
    if TableServes(c, q, u1, u2) {
      Verdict(c, q, HashToInt(hash, c.numNBits, Order(c)), Val(r[..], c.numWords, Width(c)),
              Val(s[..], c.numWords, Width(c)), z, u1, u2);
    }
  }

  /** The verdict does not depend on which inverse of s is used. */
  lemma AcceptsByInverse<P(!new)>(c: Curve<P>, q: P, e: nat, r: nat, s: nat, z: nat)
    requires ValidCurve(c) && 0 < r < Order(c) && 0 < s < Order(c)
    requires z < Order(c) && IsInverse(z, s, Order(c))
    ensures e * z >= 0 && r * z >= 0
    ensures Accepts(c, q, e, r, s) <==> ReducedX(c, VerifyPoint(c, q, e * z, r * z)) == r
  {
    NonNegative(e, z);
    NonNegative(r, z);
    hide Pow, Val, Mul, VerifyPoint, ReducedX, Cong, ValidPoints;
    if Accepts(c, q, e, r, s) {
      var y: nat :| y < Order(c) && IsInverse(y, s, Order(c)) && ReducedX(c, VerifyPoint(c, q, e * y, r * y)) == r;
      InverseUnique(y, z, s, Order(c));
      CongUnique(y, z, Order(c));
    }
  }

  /** The comparison with r decides, also when an addition has been lost. */
  lemma Verdict<P(!new)>(c: Curve<P>, q: P, e: nat, r: nat, s: nat, z: nat, u1: nat, u2: nat)
    requires ValidCurve(c) && 0 < r < Order(c) && 0 < s < Order(c) && InverseGives(z, e, r, s, Order(c), u1, u2)
    ensures ReducedX(c, Combined(c, q, u1, u2)) == r <==> Accepts(c, q, e, r, s) && AdditionsSeparate(c, q, u1, u2)
  {
    hide Pow, Val, Mul, Cong, ValidPoints, Accepts, AdditionsSeparate, IsInverse, VerifyPoint, Prime;
    AcceptsByInverse(c, q, e, r, s, z);
    ReducedPair(c, q, e * z, r * z);
    UsefulLaws(c, q);
  }

  /** The two numbers of a signature, and whether both are in 1 .. n - 1. */
  method ReadSignature<P(!new)>(c: Curve<P>, signature: seq<nat>) returns (r: array<nat>, s: array<nat>, inRange: bool)
    requires ValidSizes(c) && Bytes(signature) && |signature| == 2 * c.numBytes
    ensures fresh(r) && fresh(s) && r.Length == c.numWords && s.Length == c.numWords
    ensures WordsTo(r[..], c.numWords, Width(c)) && Val(r[..], c.numWords, Width(c)) == BigEndian(signature[..c.numBytes])
    ensures WordsTo(s[..], c.numWords, Width(c)) && Val(s[..], c.numWords, Width(c)) == BigEndian(signature[c.numBytes..])
    ensures inRange <==> 0 < BigEndian(signature[..c.numBytes]) < Order(c)
                         && 0 < BigEndian(signature[c.numBytes..]) < Order(c)
  {
    var n, w := c.numWords, Width(c);
    hide Pow, Val, BigEndian;
    r, s := new nat[n], new nat[n];
    VliBytesToNative(r, signature[..c.numBytes], n, c.W);
    VliBytesToNative(s, signature[c.numBytes..], n, c.W);
    var rZero := VliIsZero(r, n, w);
    var sZero := VliIsZero(s, n, w);
    var rCmp := VliCmpUnsafe(c.order, r, n, w);
    var sCmp := VliCmpUnsafe(c.order, s, n, w);
    inRange := !(rZero || sZero || rCmp != 1 || sCmp != 1);
  }

  /** rx, less n if it is not below n, compared with r. */
  method SameAfterOneReduction<P(!new)>(c: Curve<P>, rx: array<nat>, r: array<nat>) returns (same: bool)
    requires ValidSizes(c) && rx.Length == c.numWords && rx != r && rx != c.order
    requires WordsTo(rx[..], c.numWords, Width(c)) && WordsTo(r[..], c.numWords, Width(c))
    modifies rx
    ensures var x := old(Val(rx[..], c.numWords, Width(c)));
      same <==> (if x >= Order(c) then x - Order(c) else x) == Val(r[..], c.numWords, Width(c))
  {
    var n, w := c.numWords, Width(c);
    hide Pow, Val;
    ghost var x := Val(rx[..], n, w);
    ValBound(rx[..], n, w);
    ValBound(c.order[..], n, w);
    var cmp := VliCmpUnsafe(c.order, rx, n, w);
    if cmp != 1 {
      var borrow := VliSub(rx, rx, c.order, n, w);
      ValBound(rx[..], n, w);
      BorrowOrders(x, Order(c), Val(rx[..], n, w), borrow, Pow(Base(w), n));
    }
    same := VliEqual(rx, r, n, w);
  }

  // ---- Together ----

  /** Whether multiples by k and l of a point of order n are separate. */
  predicate NumbersSeparate(k: nat, l: nat, n: nat)
    requires n > 0
  {
    k % n != 0 && l % n != 0 && (k - l) % n != 0 && (k + l) % n != 0
  }

  lemma SeparateMultiples<P(!new)>(c: Curve<P>, k: nat, l: nat)
    requires ValidCurve(c)
    ensures Order(c) > 0
    ensures Separate(c.group, Mul(c.group, k, c.base), Mul(c.group, l, c.base)) <==> NumbersSeparate(k, l, Order(c))
  {
    hide Mul, Pow, Val, ValidPoints;
    UsefulLaws(c, c.base);
    var g, n := c.group, Order(c);
    PointOrder(c, k, c.base);
    PointOrder(c, l, c.base);
    PointOrder(c, k + l, c.base);
    MulSum(g, k, l, c.base);
    OnlyInverse(g, Mul(g, k, c.base), Mul(g, l, c.base));
    EqualMultiples(c, k, l);
  }

  lemma EqualMultiples<P(!new)>(c: Curve<P>, k: nat, l: nat)
    requires ValidCurve(c)
    ensures Order(c) > 0
    ensures Mul(c.group, k, c.base) == Mul(c.group, l, c.base) <==> (k - l) % Order(c) == 0
  {
    hide Mul, Pow, Val, ValidPoints;
    UsefulLaws(c, c.base);
    var g, n := c.group, Order(c);
    var hi, lo := if k >= l then k else l, if k >= l then l else k;
    MulSum(g, hi - lo, lo, c.base);
    PointOrder(c, hi - lo, c.base);
    CongIffMod(k - l, 0, n);
    CongIffMod(hi - lo, 0, n);
    AddZero(g, Mul(g, lo, c.base));
    SameDifference(g, Mul(g, hi - lo, c.base), Mul(g, lo, c.base));
    if k < l && Cong(hi - lo, 0, n) {
      CongRefl(0, n);
      CongAdd(0, 0, hi - lo, 0, n);
    }
    if k < l && Cong(k - l, 0, n) {
      CongRefl(0, n);
      CongAdd(0, 0, k - l, 0, n);
    }
  }

  lemma SameDifference<P(!new)>(g: Group<P>, d: P, a: P)
    requires IsGroup(g)
    ensures g.add(d, a) == a ==> d == g.zero
  {
    Assoc(g, d, a, g.neg(a));
    Cancel(g, a);
    AddZero(g, d);
  }

  /** The steps of Shamir's trick for Q = d G as a test on numbers. */
  predicate KeyStep(d: nat, n: nat, a: nat, b: nat, i: nat)
    requires n > 0
  {
    Bit(a, i) || Bit(b, i) ==>
      NumbersSeparate((if Bit(a, i) then 1 else 0) + (if Bit(b, i) then d else 0),
                      2 * HighBits(a, i + 1) + 2 * HighBits(b, i + 1) * d, n)
  }

  ghost predicate KeyAdditions(d: nat, n: nat, a: nat, b: nat)
    requires n > 0
  {
    forall i: nat :: BelowTop(a, b, i) ==> KeyStep(d, n, a, b, i)
  }

  /** Whether an addition is lost for a public key d G depends on d and the multipliers alone. */
  lemma AdditionsOfKey<P(!new)>(c: Curve<P>, d: nat, a: nat, b: nat)
    requires ValidCurve(c)
    ensures Order(c) > 0
    ensures AdditionsSeparate(c, Mul(c.group, d, c.base), a, b) <==> KeyAdditions(d, Order(c), a, b)
  {
    hide Mul, Pow, Val, ValidPoints, Separate, Bit, HighBits, BelowTop, NumbersSeparate, VerifyPoint, Prime;
    UsefulLaws(c, c.base);
    var q, n := Mul(c.group, d, c.base), Order(c);
    forall i: nat
      ensures StepSeparate(c, q, a, b, i) <==> KeyStep(d, n, a, b, i)
    {
      var t1, t2, h1, h2 := BitVal(Bit(a, i)), BitVal(Bit(b, i)), 2 * HighBits(a, i + 1), 2 * HighBits(b, i + 1);
      NonNegative(h2, d);
      KeyPoint(c, d, t1, t2, t2 * d);
      KeyPoint(c, d, h1, h2, h2 * d);
      SeparateMultiples(c, t1 + t2 * d, h1 + h2 * d);
    }
  }

  lemma KeyPoint<P(!new)>(c: Curve<P>, d: nat, u1: nat, u2: nat, u2d: nat)
    requires IsGroup(c.group) && u2d == u2 * d
    ensures VerifyPoint(c, Mul(c.group, d, c.base), u1, u2) == Mul(c.group, u1 + u2d, c.base)
  {
    hide Mul, IsGroup;
    MulProduct(c.group, u2, d, u2d, c.base);
    MulSum(c.group, u1, u2d, c.base);
  }

  /** Signing and then verifying with the matching public key: whenever signing succeeds, the
      signature is accepted exactly if x(k G) < n, s is not 0 and verification loses no
      addition; for d = 1, where Q = G, this is stated if it does not use G + Q. */
  method SignThenVerify<P(!new)>(c: Curve<P>, privateKey: seq<nat>, hash: seq<nat>, k: array<nat>, rng: Rng)
    returns (signed: bool, accepted: bool, ghost s: nat, ghost u1: nat, ghost u2: nat)
    requires ValidCurve(c) && Bytes(privateKey) && |privateKey| == (c.numNBits + 7) / 8 && Bytes(hash)
    requires k.Length == c.numWords && WordsTo(k[..], c.numWords, Width(c)) && k != c.order
    requires RandomBelow(c, rng, Order(c)) && 0 < BigEndian(privateKey) < Order(c)
    modifies k
    ensures var (K, d, e) := (old(Val(k[..], c.numWords, Width(c))), BigEndian(privateKey),
                              HashToInt(hash, c.numNBits, Order(c)));
      var r := c.x(Mul(c.group, K, c.base));
      signed ==>
        && SafeScalar(d, Order(c), c.numNBits) && 0 < K < Order(c) && SafeScalar(K, Order(c), c.numNBits) && r != 0
        && s < Order(c) && Cong(s * K, e + r * d, Order(c))
        && if r < Order(c) && s != 0 then
             && Multipliers(c, e, r, s, u1, u2)
             && (d != 1 || NoCommonBit(u1, u2) ==> (accepted <==> KeyAdditions(d, Order(c), u1, u2)))
           else !accepted
  {
    hide Pow, Val, Mul, Cong, BigEndian, HashToInt, Accepts, ValidPoints, AdditionsSeparate, KeyAdditions, TableServes,
         NoCommonBit, Multipliers, RandomBelow, Prime;
    ghost var d := BigEndian(privateKey);
    ghost var q := Mul(c.group, d, c.base);
    UsefulLaws(c, c.base);
    signed, accepted, s, u1, u2 := false, false, 0, 0, 0;
    var publicKey, valid := ComputePublicKey(c, privateKey);
    if !valid {
      return;
    }
    var signature := new nat[2 * c.numBytes];
    ghost var r, K := 0, Val(k[..], c.numWords, Width(c));
    signed, r, s := SignWithK(c, privateKey, hash, k, signature, rng);
    if signed {
      accepted, u1, u2 := Verify(c, publicKey, hash, signature[..], q);
      assert signature[..][..c.numBytes] == signature[..c.numBytes];
      assert signature[..][c.numBytes..] == signature[c.numBytes..];
      SignatureAccepted(c, d, HashToInt(hash, c.numNBits, Order(c)), K, r, s);
      AdditionsOfKey(c, d, u1, u2);
      KeyServes(c, d, u1, u2);
    }
  }

  lemma KeyServes<P(!new)>(c: Curve<P>, d: nat, u1: nat, u2: nat)
    requires ValidCurve(c) && 0 < d < Order(c) && SafeScalar(d, Order(c), c.numNBits)
    ensures d != 1 || NoCommonBit(u1, u2) ==> TableServes(c, Mul(c.group, d, c.base), u1, u2)
  {
    hide Pow, Val, Mul, ValidPoints, Prime, NoCommonBit, Separate;
    UsefulLaws(c, c.base);
    PointOrder(c, d, c.base);
    DivModUnique(d, 0, d, Order(c));
    if d != 1 {
      OneTimes(c.group, c.base);
      SeparateMultiples(c, 1, d);
      DivModUnique(1, 0, 1, Order(c));
      DivModUnique(1 + d, 0, 1 + d, Order(c));
      DivModUnique(1 - d, -1, 1 - d + Order(c), Order(c));
    }
  }

  /** A signature by private key 2 and nonce 4 on a hash of twice x(4 G) is right, and refused:
      the last addition of its verification adds Q = 2 G to 2 G. */
  lemma LostAddition<P(!new)>(c: Curve<P>, e: nat)
    requires ValidCurve(c) && 4 < Order(c) && 0 < c.x(Mul(c.group, 4, c.base)) < Order(c)
    requires Cong(e, 2 * c.x(Mul(c.group, 4, c.base)), Order(c))
    ensures var (r, q) := (c.x(Mul(c.group, 4, c.base)), Mul(c.group, 2, c.base));
      && SignatureParts(c, 2, e, 4, r, r) && Accepts(c, q, e, r, r)
      && Multipliers(c, e, r, r, 2, 1) && !AdditionsSeparate(c, q, 2, 1)
  {
    hide Pow, Val, Mul, Cong, ValidPoints, AdditionsSeparate, Accepts, KeyAdditions, Prime;
    var n, r := Order(c), c.x(Mul(c.group, 4, c.base));
    LostScalars(e, r, n);
    SignatureAccepted(c, 2, e, 4, r, r);
    var z := LostMultipliers(e, r, n);
    assert InverseGives(z, e, r, r, n, 2, 1);
    AdditionsOfKey(c, 2, 2, 1);
    LostStep(n);
  }

  lemma LostScalars(e: int, r: int, n: int)
    requires Cong(e, 2 * r, n)
    ensures Cong(r * 4, e + r * 2, n)
  {
    CongRefl(2 * r, n);
    CongAdd(e, 2 * r, 2 * r, 2 * r, n);
    CongSym(e + 2 * r, 2 * r + 2 * r, n);
  }

  lemma LostMultipliers(e: nat, r: nat, n: nat) returns (z: nat)
    requires Prime(n) && n > 4 && 0 < r < n && Cong(e, 2 * r, n)
    ensures InverseGives(z, e, r, r, n, 2, 1)
  {
    hide Cong;
    var u := InverseMod(r, n);
    z := u % n;
    CongMod(u, n);
    CongRefl(r, n);
    CongMul(z, u, r, r, n);
    CongTrans(z * r, u * r, 1, n);
    assert z * r == r * z;
    CongIffMod(r * z, 1, n);
    DivModUnique(1, 0, 1, n);
    CongTimes(e, 2 * r, z, n);
    CongRefl(2, n);
    CongMul(2, 2, r * z, 1, n);
    assert (2 * r) * z == 2 * (r * z);
    CongTrans(e * z, 2 * (r * z), 2, n);
    CongIffMod(e * z, 2, n);
    DivModUnique(2, 0, 2, n);
  }

  lemma LostStep(n: nat)
    requires n > 4
    ensures !KeyAdditions(2, n, 2, 1)
  {
    assert Pow(2, 0) == 1 && Pow(2, 1) == 2;
    assert HighBits(2, 1) == 1 && HighBits(1, 1) == 0 && !Bit(2, 0) && Bit(1, 0);
    hide Pow;
    assert BelowTop(2, 1, 0);
    DivModUnique(0, 0, 0, n);
    assert !KeyStep(2, n, 2, 1, 0);
  }
}
