/** Conversions between octet strings and word arrays (SEC 1, sections 2.3.7 and 2.3.8),
    and the conversion of a hash to an integer. Words are w = 8 * W bits wide. */
module Octets {
  import opened Arithmetic
  import opened Bits
  import opened Vli

  ghost predicate Bytes(s: seq<nat>) { forall i :: 0 <= i < |s| ==> s[i] < 256 }

  /** 256^k, written as a power of two. */
  function OctetPow(k: nat): (r: nat)
    ensures r > 0
  {
    Pow(2, 8 * k)
  }

  /** The number an octet string stands for, most significant octet first. */
  ghost function BigEndian(s: seq<nat>): nat
  {
    if s == [] then 0 else 256 * BigEndian(s[..|s| - 1]) + s[|s| - 1]
  }

  lemma BigEndianSnoc(s: seq<nat>, b: nat)
    ensures BigEndian(s + [b]) == 256 * BigEndian(s) + b
  {
    assert (s + [b])[..|s|] == s;
  }

  lemma OctetPowStep(k: nat)
    ensures OctetPow(k + 1) == 256 * OctetPow(k) && OctetPow(0) == 1
  {
    assert Pow(2, 8) == 256 by {
      assert Pow(2, 4) == 16;
      PowAdd(2, 4, 4);
    }
    PowAdd(2, 8, 8 * k);
  }

  lemma {:induction false} BigEndianBound(s: seq<nat>)
    requires Bytes(s)
    ensures BigEndian(s) < OctetPow(|s|)
  {
    if s == [] {
      OctetPowStep(0);
    } else {
      BigEndianBound(s[..|s| - 1]);
      OctetPowStep(|s| - 1);
    }
  }

  /** Octet b of a number, counting from the least significant. */
  function OctetOf(x: nat, b: nat): (r: nat)
    ensures r < 256
  {
    (x / OctetPow(b)) % 256
  }

  /** Octet b of a number lies in word b / W, at octet b % W of it. */
  lemma OctetPlace(b: nat, W: nat)
    requires W >= 1
    ensures 0 <= b / W && 0 <= b % W < W
    ensures OctetPow(b) == Pow(Base(8 * W), b / W) * OctetPow(b % W)
  {
    var w: nat, j: nat, k: nat := 8 * W, b / W, b % W;
    assert b == W * j + k;
    var e: nat := w * j;
    assert e == 8 * (W * j);
    hide Pow;
    PowMul(2, w, j);
    PowAdd(2, e, 8 * k);
  }

  lemma WordIndex(b: int, n: int, W: int)
    requires W >= 1 && 0 <= b < n * W
    ensures 0 <= b / W < n
  {
    var j := b / W;
    assert b == W * j + b % W;
    if j >= n {
      MulLe(n, j, W);
    }
  }

  /** An octet of a value is an octet of one of its words. */
  lemma OctetOfWord(s: seq<nat>, n: nat, b: nat, W: nat)
    requires W >= 1 && WordsTo(s, n, 8 * W) && b < n * W
    ensures 0 <= b / W < n && 0 <= b % W < W && OctetOf(Val(s, n, 8 * W), b) == OctetOf(s[b / W], b % W)
  {
    WordIndex(b, n, W);
    OctetPlace(b, W);
    var j: nat, k: nat := b / W, b % W;
    ValDigit(s, n, j, 8 * W);
    OctetWithin(k, W);
    hide Pow, Val, OctetPow, Base;
    DigitOctet(Val(s, n, 8 * W), OctetPow(b), s[j], Base(8 * W),
               Pow(Base(8 * W), j), OctetPow(k), OctetPow(W - k - 1));
  }

  /** Octet k and those above it in a word of W octets. */
  lemma OctetWithin(k: nat, W: nat)
    requires k < W
    ensures Base(8 * W) == OctetPow(k) * (256 * OctetPow(W - k - 1))
  {
    OctetPowStep(W - k - 1);
    assert 8 * W == 8 * k + 8 * (W - k);
    PowAdd(2, 8 * k, 8 * (W - k));
  }

  lemma DigitOctet(v: nat, pq: nat, d: nat, base: nat, p: nat, q: nat, r: nat)
    requires p > 0 && q > 0 && r > 0 && pq == p * q && pq > 0
    requires base == q * (256 * r) && base > 0 && d == (v / p) % base
    ensures (v / pq) % 256 == (d / q) % 256
  {
    ModSplit(v, p, q);
    OctetOfProduct(v / p, q, r);
  }

  lemma OctetOfRemainder(x: nat, k: nat, W: nat)
    requires k < W
    ensures OctetOf(x % Pow(2, 8 * W), k) == OctetOf(x, k)
  {
    OctetWithin(k, W);
    hide Pow, OctetPow;
    OctetOfProduct(x, OctetPow(k), OctetPow(W - k - 1));
  }

  lemma OctetOfProduct(x: nat, p: nat, q: nat)
    requires p > 0 && q > 0
    ensures ((x % (p * (256 * q))) / p) % 256 == (x / p) % 256
  {
    QuotientOfRemainder(x, p, 256 * q);
    ModSplit(x / p, 256, q);
  }

  /** Splitting off the octets above b, then octet b. */
  lemma OctetStep(x: nat, b: nat)
    ensures x / OctetPow(b) == 256 * (x / OctetPow(b + 1)) + OctetOf(x, b)
  {
    OctetPowStep(b);
    hide Pow;
    ModSplit(x, OctetPow(b), 256);
    assert OctetPow(b) * 256 == 256 * OctetPow(b);
  }

  /** The low octets do not depend on what is above them. */
  lemma OctetOfLow(x: nat, b: nat, num: nat)
    requires b < num
    ensures OctetOf(x % OctetPow(num), b) == OctetOf(x, b)
  {
    OctetOfRemainder(x, b, num);
  }

  /** Octet b of a sequence of words, counting from the least significant. */
  function WordOctet(s: seq<nat>, b: nat, W: nat): (r: nat)
    requires W >= 1 && 0 <= b / W < |s|
    ensures r < 256
  {
    OctetOf(s[b / W], b % W)
  }

  /** The octets of a number from octet b on. */
  function OctetsFrom(x: nat, b: nat): nat { x / OctetPow(b) }

  /** Reading off one more octet of the value's low num octets, from the top. */
  lemma NextOctet(s: seq<nat>, n: nat, b: nat, num: nat, W: nat)
    requires W >= 1 && WordsTo(s, n, 8 * W) && b < num <= n * W
    ensures 0 <= b / W < n
    ensures var x := Val(s, n, 8 * W) % OctetPow(num);
            OctetsFrom(x, b) == 256 * OctetsFrom(x, b + 1) + WordOctet(s, b, W)
  {
    OctetOfWord(s, n, b, W);
    hide Pow, Val, OctetPow;
    OctetOfLow(Val(s, n, 8 * W), b, num);
    OctetStep(Val(s, n, 8 * W) % OctetPow(num), b);
  }

  lemma OctetsFromEnds(x: nat, num: nat)
    requires x < OctetPow(num)
    ensures OctetsFrom(x, num) == 0 && OctetsFrom(x, 0) == x
  {
    SmallQuotient(x, OctetPow(num));
    OctetPowStep(0);
  }

  /** SEC 1, section 2.3.7: the low num octets of the value, most significant first. */
  method VliNativeToBytes(bytes: array<nat>, off: nat, num: nat, native: array<nat>, n: nat, W: nat)
    requires W >= 1 && WordsTo(native[..], n, 8 * W) && num <= n * W
    requires off + num <= bytes.Length && bytes != native
    modifies bytes
    ensures Bytes(bytes[off..off + num])
    ensures BigEndian(bytes[off..off + num]) == Val(native[..], n, 8 * W) % OctetPow(num)
    ensures forall i :: 0 <= i < off || off + num <= i < bytes.Length ==> bytes[i] == old(bytes[i])
  {
    hide Pow, Val, OctetPow, OctetOf, OctetsFrom, WordOctet;
    ghost var s := native[..];
    ghost var x := Val(s, n, 8 * W) % OctetPow(num);
    OctetsFromEnds(x, num);
    ghost var done: seq<nat> := [];
    for i := 0 to num
      invariant native[..] == s
      invariant |done| == i && Bytes(done) && forall j :: 0 <= j < i ==> bytes[off + j] == done[j]
      invariant BigEndian(done) == OctetsFrom(x, num - i)
      invariant forall j :: 0 <= j < off || off + num <= j < bytes.Length ==> bytes[j] == old(bytes[j])
    {
      var b := num - 1 - i;
      NextOctet(s, n, b, num, W);
      var octet := WordOctet(native[..], b, W);
      bytes[off + i] := octet;
      BigEndianSnoc(done, octet);
      done := done + [octet];
    }
    assert bytes[off..off + num] == done;
  }

  lemma SmallQuotient(x: nat, p: nat)
    requires x < p
    ensures x / p == 0 && x % p == x
  {
    DivModUnique(x, 0, x, p);
  }

  /** SEC 1, section 2.3.8: the number an octet string stands for, as words. */
  method VliBytesToNative(native: array<nat>, bytes: seq<nat>, n: nat, W: nat)
    requires W >= 1 && Bytes(bytes) && n == (|bytes| + (W - 1)) / W <= native.Length
    modifies native
    ensures WordsTo(native[..], n, 8 * W) && Val(native[..], n, 8 * W) == BigEndian(bytes)
    ensures forall i :: n <= i < native.Length ==> native[i] == old(native[i])
  {
    var num := |bytes|;
    RoomForOctets(num, n, W);
    hide Pow, Val, OctetPow;
    VliClear(native, n, 8 * W);
    assert bytes[..0] == [] && BigEndian([]) == 0;
    for i := 0 to num
      invariant WordsTo(native[..], n, 8 * W)
      invariant Val(native[..], n, 8 * W) == BigEndian(bytes[..i]) * OctetPow(num - i)
      invariant forall j :: n <= j < native.Length ==> native[j] == old(native[j])
    {
      StoreOctet(native, num - 1 - i, bytes[i], n, W, BigEndian(bytes[..i]));
      assert bytes[..i + 1] == bytes[..i] + [bytes[i]];
      BigEndianSnoc(bytes[..i], bytes[i]);
    }
    OctetPowStep(0);
    assert bytes[..num] == bytes;
  }

  /** Puts octet b, counting from the least significant, into its word; the octets above it are
      in place, and those below it are 0. */
  method StoreOctet(native: array<nat>, b: nat, octet: nat, n: nat, W: nat, ghost high: nat)
    requires W >= 1 && b < n * W && octet < 256 && WordsTo(native[..], n, 8 * W)
    requires Val(native[..], n, 8 * W) == high * OctetPow(b + 1)
    modifies native
    ensures WordsTo(native[..], n, 8 * W) && Val(native[..], n, 8 * W) == (256 * high + octet) * OctetPow(b)
    ensures forall j :: n <= j < native.Length ==> native[j] == old(native[j])
  {
    hide Pow, Val, BitOr, OctetPow;
    ghost var before := native[..];
    OctetSlot(before, n, b, high, W);
    OctetIntoWord(native[b / W], octet, b % W, W);
    native[b / W] := BitOr(native[b / W], octet * OctetPow(b % W));
    AddToWord(before, native[..], n, b / W, octet * OctetPow(b % W), 8 * W);
    OctetAppended(high, octet, b, W);
  }

  lemma RoomForOctets(num: nat, n: nat, W: nat)
    requires W >= 1 && n == (num + (W - 1)) / W
    ensures num <= n * W
  {
    var x := num + (W - 1);
    assert x == W * (x / W) + x % W;
  }

  /** Before octet b is stored, the word it goes to is empty from that octet down. */
  lemma OctetSlot(s: seq<nat>, n: nat, b: nat, high: nat, W: nat)
    requires W >= 1 && WordsTo(s, n, 8 * W) && b < n * W
    requires Val(s, n, 8 * W) == high * OctetPow(b + 1)
    ensures 0 <= b / W < n && 0 <= b % W < W && s[b / W] % OctetPow(b % W + 1) == 0
  {
    WordIndex(b, n, W);
    OctetPlaceNext(b, W);
    var j: nat, k: nat := b / W, b % W;
    ValDigit(s, n, j, 8 * W);
    OctetRoom(k, W);
    hide Pow, Val, OctetPow, Base;
    MultipleDigit(Val(s, n, 8 * W), high, OctetPow(b + 1),
                  Pow(Base(8 * W), j), OctetPow(k + 1), OctetPow(W - (k + 1)), Base(8 * W));
  }

  lemma OctetPlaceNext(b: nat, W: nat)
    requires W >= 1
    ensures 0 <= b / W && 0 <= b % W < W
    ensures OctetPow(b + 1) == Pow(Base(8 * W), b / W) * OctetPow(b % W + 1)
  {
    OctetPlace(b, W);
    OctetPowStep(b);
    OctetPowStep(b % W);
    hide Pow, OctetPow, Base;
    NextPlace(OctetPow(b), OctetPow(b + 1), Pow(Base(8 * W), b / W), OctetPow(b % W), OctetPow(b % W + 1));
  }

  lemma NextPlace(x: int, x': int, p: int, q: int, q': int)
    requires x == p * q && x' == 256 * x && q' == 256 * q
    ensures x' == p * q'
  {}

  lemma OctetRoom(k: nat, W: nat)
    requires k < W
    ensures Base(8 * W) == OctetPow(k + 1) * OctetPow(W - (k + 1))
  {
    assert 8 * W == 8 * (k + 1) + 8 * (W - (k + 1));
    PowAdd(2, 8 * (k + 1), 8 * (W - (k + 1)));
  }

  lemma MultipleDigit(v: int, high: int, pq: int, p: int, q: int, r: int, qr: int)
    requires high >= 0 && p > 0 && q > 0 && r > 0 && pq == p * q && qr == q * r && v == high * pq
    ensures qr > 0 && ((v / p) % qr) % q == 0
  {
    assert high * (p * q) == (high * q) * p;
    DivModUnique(v, high * q, 0, p);
    MulLe(0, high, q);
    ModSplit(high * q, q, r);
    DivModUnique(high * q, high, 0, q);
    var t := high % r;
    assert q * t == t * q;
    DivModUnique(t * q, t, 0, q);
  }

  lemma OctetIntoWord(word: nat, octet: nat, k: nat, W: nat)
    requires k < W && word < Base(8 * W) && octet < 256 && word % OctetPow(k + 1) == 0
    ensures octet * OctetPow(k) >= 0
    ensures BitOr(word, octet * OctetPow(k)) == word + octet * OctetPow(k) < Base(8 * W)
  {
    hide Pow, BitOr;
    OctetPowStep(k);
    var p := OctetPow(k);
    MulLe(octet, 255, p);
    MulLe(0, octet, p);
    OrDisjoint(octet * p, word, 8 * (k + 1));
    var q, r := OctetPow(k + 1), OctetPow(W - (k + 1));
    OctetRoom(k, W);
    RoomBelow(word, octet * p, q, r);
  }

  lemma RoomBelow(x: int, y: int, q: int, r: int)
    requires 0 <= x < q * r && 0 <= y < q && r > 0 && x % q == 0
    ensures x + y < q * r
  {
    var d := x / q;
    assert x == q * d;
    if d >= r {
      MulLe(r, d, q);
    }
    MulLe(d + 1, r, q);
    MulDist(d, 1, q);
  }

  lemma {:induction false} AddToWord(s: seq<nat>, t: seq<nat>, n: nat, j: nat, d: nat, w: nat)
    requires j < n <= |s| && t == s[j := s[j] + d]
    ensures Val(t, n, w) == Val(s, n, w) + d * Pow(Base(w), j)
  {
    hide Pow, Val;
    ValStep(s, n - 1, w);
    ValStep(t, n - 1, w);
    if j == n - 1 {
      ValFrame(s, t, n - 1, w);
      TermSum(t[j], s[j], d, Pow(Base(w), j));
    } else {
      AddToWord(s, t, n - 1, j, d, w);
    }
  }

  lemma OctetAppended(high: nat, octet: nat, b: nat, W: nat)
    requires W >= 1
    ensures b / W >= 0
    ensures high * OctetPow(b + 1) + (octet * OctetPow(b % W)) * Pow(Base(8 * W), b / W)
         == (256 * high + octet) * OctetPow(b)
  {
    OctetPowStep(b);
    OctetPlace(b, W);
    hide Pow, OctetPow, Base;
    AppendedSum(high, octet, OctetPow(b % W), Pow(Base(8 * W), b / W), OctetPow(b), OctetPow(b + 1));
  }

  lemma AppendedSum(h: int, x: int, p: int, q: int, qp: int, next: int)
    requires qp == q * p && next == 256 * qp
    ensures h * next + (x * p) * q == (256 * h + x) * qp
  {
    assert (x * p) * q == x * (q * p);
    MulDist(256 * h, x, qp);
    assert h * (256 * qp) == (256 * h) * qp;
  }

  /** Octet strings of one length are determined by the number they stand for. */
  lemma {:induction false} BigEndianUnique(s: seq<nat>, t: seq<nat>)
    requires Bytes(s) && Bytes(t) && |s| == |t| && BigEndian(s) == BigEndian(t)
    ensures s == t
  {
    if |s| > 0 {
      BigEndianUnique(s[..|s| - 1], t[..|s| - 1]);
      assert s == s[..|s| - 1] + [s[|s| - 1]] && t == t[..|s| - 1] + [t[|s| - 1]];
    }
  }

  /** Reading octets into words and writing them back gives the same octets. */
  method OctetsThereAndBack(bytes: seq<nat>, W: nat) returns (back: array<nat>)
    requires W >= 1 && Bytes(bytes)
    ensures fresh(back) && back[..] == bytes
  {
    var n := (|bytes| + (W - 1)) / W;
    var native := new nat[n];
    VliBytesToNative(native, bytes, n, W);
    back := new nat[|bytes|];
    RoomForOctets(|bytes|, n, W);
    VliNativeToBytes(back, 0, |bytes|, native, n, W);
    assert back[0..0 + |bytes|] == back[..];
    BigEndianBound(bytes);
    SmallQuotient(BigEndian(bytes), OctetPow(|bytes|));
    BigEndianUnique(back[..], bytes);
  }

  // ---- Hash to integer ----

  /** The integer a hash stands for: its leftmost bits, as many as the order has; reduced
      once only if bits had to be cut off. */
  ghost function HashToInt(hash: seq<nat>, nBits: nat, order: nat): nat
  {
    var size := if |hash| > (nBits + 7) / 8 then (nBits + 7) / 8 else |hash|;
    var e := BigEndian(hash[..size]);
    if size * 8 <= nBits then e
    else
      var t := e / Pow(2, size * 8 - nBits);
      if t >= order then t - order else t
  }

  /** Leading octets are a quotient. */
  lemma {:induction false} LeadingOctets(s: seq<nat>, k: nat)
    requires Bytes(s) && k <= |s|
    ensures BigEndian(s[..k]) == BigEndian(s) / OctetPow(|s| - k)
    decreases |s| - k
  {
    OctetPowStep(|s| - k);
    if k == |s| {
      assert s[..k] == s;
    } else {
      LeadingOctets(s, k + 1);
      OctetPowStep(|s| - k - 1);
      assert s[..k + 1][..k] == s[..k] && s[..k + 1] == s[..k] + [s[k]];
      BigEndianSnoc(s[..k], s[k]);
      hide OctetPow, BigEndian;
      var q := OctetPow(|s| - k - 1);
      ModSplit(BigEndian(s), q, 256);
      assert q * 256 == OctetPow(|s| - k);
      DivModUnique(BigEndian(s[..k + 1]), BigEndian(s[..k]), s[k], 256);
    }
  }

  /** The number of an octet string has |s| octets, and octet i of the string is the octet of the
      number with |s| - 1 - i octets below it. */
  lemma OctetOfBigEndian(s: seq<nat>, i: nat)
    requires Bytes(s) && i < |s|
    ensures BigEndian(s) < Pow(2, 8 * |s|)
    ensures (BigEndian(s) / Pow(2, 8 * (|s| - 1 - i))) % 256 == s[i]
  {
    BigEndianBound(s);
    LeadingOctets(s, i + 1);
    assert s[..i + 1] == s[..i] + [s[i]];
    BigEndianSnoc(s[..i], s[i]);
    DivModUnique(BigEndian(s[..i + 1]), BigEndian(s[..i]), s[i], 256);
  }

  /** SEC 1, section 4.1.3, step 5, for a hash of any length: the integer is the hash's leftmost
      bits, as many as the order has, or the whole hash when it has no more. The order is taken off
      once, and only if the cut falls inside an octet. */
  lemma HashIsLeftmostBits(hash: seq<nat>, nBits: nat, n: nat)
    requires Bytes(hash)
    ensures var e := BigEndian(hash) / Pow(2, if |hash| * 8 > nBits then |hash| * 8 - nBits else 0);
            && HashToInt(hash, nBits, n)
               == (if |hash| * 8 > nBits && nBits % 8 != 0 && e >= n then e - n else e)
            && Cong(HashToInt(hash, nBits, n), e, n)
  {
    var cut := if |hash| * 8 > nBits then |hash| * 8 - nBits else 0;
    var e := BigEndian(hash) / Pow(2, cut);
    HashInFull(hash, nBits, n, e);
    CongRefl(e, n);
    CongBy(e - n, e, n, -1);
  }

  lemma HashInFull(hash: seq<nat>, nBits: nat, n: nat, e: nat)
    requires Bytes(hash)
    requires e == BigEndian(hash) / Pow(2, if |hash| * 8 > nBits then |hash| * 8 - nBits else 0)
    ensures HashToInt(hash, nBits, n)
         == if |hash| * 8 > nBits && nBits % 8 != 0 && e >= n then e - n else e
  {
    hide Pow, BigEndian;
    var size := (nBits + 7) / 8;
    assert nBits <= size * 8 < nBits + 8 && (size * 8 == nBits <==> nBits % 8 == 0);
    if |hash| * 8 <= nBits {
      NotCutInside(BigEndian(hash));
      assert |hash| <= size && hash[..|hash|] == hash;
    } else {
      LeadingBits(hash, size, nBits);
      NotCutInside(BigEndian(hash[..size]));
    }
  }

  lemma NotCutInside(x: nat)
    ensures Pow(2, 0) == 1 && x / Pow(2, 0) == x
  {}

  /** Cutting bits off the leading octets cuts them off the whole. */
  lemma LeadingBits(hash: seq<nat>, size: nat, nBits: nat)
    requires Bytes(hash) && size <= |hash| && nBits <= size * 8
    ensures BigEndian(hash[..size]) / Pow(2, size * 8 - nBits) == BigEndian(hash) / Pow(2, |hash| * 8 - nBits)
  {
    LeadingOctets(hash, size);
    var k := |hash| - size;
    assert OctetPow(k) == Pow(2, 8 * k);
    hide BigEndian, Pow, OctetPow;
    ModSplit(BigEndian(hash), Pow(2, 8 * k), Pow(2, size * 8 - nBits));
    PowAdd(2, 8 * k, size * 8 - nBits);
  }

  /** Shifts all words right by s bits, from the top word down. */
  method ShiftRightBits(native: array<nat>, n: nat, s: nat, w: nat)
    requires 0 < s < w && native.Length == n && WordsTo(native[..], n, w)
    modifies native
    ensures WordsTo(native[..], n, w)
    ensures Val(native[..], n, w) == old(Val(native[..], n, w)) / Pow(2, s)
  {
    hide Pow, Val, BitOr, WordsTo;
    ghost var a := native[..];
    ghost var done: seq<nat> := []; // the words shifted so far
    NoWordsHalved(a[n..], w);
    var carry := 0;
    var i := n;
    ghost var out := 0; // the bits shifted out of word i
    while i > 0
      invariant 0 <= i <= n && 0 <= out < Pow(2, s) && 0 <= carry == out * Pow(2, w - s)
      invariant |done| == n - i && forall j :: 0 <= j < n - i ==> native[i + j] == done[j]
      invariant forall j :: 0 <= j < i ==> native[j] == a[j]
      invariant WordsTo(done, n - i, w) && Val(a[i..], n - i, w) == Pow(2, s) * Val(done, n - i, w) + out
    {
      i := i - 1;
      var temp := native[i];
      OneOfWords(a, n, i, w);
      ShiftedByBits(temp, out, s, w);
      native[i] := BitOr(temp / Pow(2, s), carry);
      carry := (temp * Pow(2, w - s)) % Base(w);
      ShiftOneWordBy(a[i..], done, native[i], n - i, out, s, w);
      done := [native[i]] + done;
      out := temp % Pow(2, s);
    }
    assert a[0..] == a;
    WordsFrame(done, native[..], n, w);
    MultipleQuotient(Val(a, n, w), Val(done, n, w), out, Pow(2, s));
  }

  lemma MultipleQuotient(x: int, q: int, r: int, m: int)
    requires x == m * q + r && 0 <= r < m
    ensures x / m == q
  {
    assert m * q == q * m;
    DivModUnique(x, q, r, m);
  }

  lemma ShiftOneWordBy(a: seq<nat>, done: seq<nat>, word: nat, n: nat, out: nat, s: nat, w: nat)
    requires 0 < s < w && 1 <= n <= |a| && |done| == n - 1 && WordsTo(done, n - 1, w) && word < Base(w)
    requires Val(a[1..], n - 1, w) == Pow(2, s) * Val(done, n - 1, w) + out
    requires word == a[0] / Pow(2, s) + out * Pow(2, w - s)
    ensures WordsTo([word] + done, n, w) && Val(a, n, w) == Pow(2, s) * Val([word] + done, n, w) + a[0] % Pow(2, s)
  {
    hide Pow, Val;
    assert ([word] + done)[1..] == done;
    ShiftBitsWord(a, [word] + done, n, out, s, w);
  }

  lemma ShiftedByBits(temp: nat, out: nat, s: nat, w: nat)
    requires 0 < s < w && temp < Base(w) && out < Pow(2, s)
    ensures 0 <= out * Pow(2, w - s) && 0 <= temp / Pow(2, s) && 0 <= temp % Pow(2, s) < Pow(2, s)
    ensures BitOr(temp / Pow(2, s), out * Pow(2, w - s)) == temp / Pow(2, s) + out * Pow(2, w - s) < Base(w)
    ensures 0 <= (temp * Pow(2, w - s)) % Base(w) == (temp % Pow(2, s)) * Pow(2, w - s)
  {
    hide Pow, BitOr;
    var p, q := Pow(2, s), Pow(2, w - s);
    PowAdd(2, w - s, s);
    ShiftBitsParts(temp, out, p, q);
    DivModUnique(out * q, out, 0, q);
    OrDisjoint(temp / p, out * q, w - s);
  }

  lemma ShiftBitsParts(temp: int, out: int, p: int, q: int)
    requires p > 0 && q > 0 && 0 <= temp < q * p && 0 <= out < p
    ensures 0 <= temp / p < q && 0 <= temp % p < p && 0 <= out * q && temp / p + out * q < q * p
    ensures 0 <= (temp % p) * q == (temp * q) % (q * p)
  {
    var d, r := temp / p, temp % p;
    assert temp == p * d + r;
    QuotientBelow(temp, d, r, p, q);
    ShiftedSlots(d, out, p, q);
    ShiftedTimes(temp, d, r, p, q);
  }

  lemma QuotientBelow(x: int, d: int, r: int, p: int, q: int)
    requires x == p * d + r && 0 <= r && 0 <= x < q * p && p > 0 && r < p
    ensures 0 <= d < q
  {
    if d >= q {
      MulLe(q, d, p);
    } else if d < 0 {
      MulLe(d, -1, p);
    }
  }

  lemma ShiftedSlots(d: int, out: int, p: int, q: int)
    requires 0 <= d < q && 0 <= out < p
    ensures 0 <= out * q && d + out * q < q * p
  {
    MulLe(0, out, q);
    MulLe(out + 1, p, q);
    MulDist(out, 1, q);
  }

  lemma ShiftedTimes(x: int, d: int, r: int, p: int, q: int)
    requires x == p * d + r && 0 <= r < p && q > 0
    ensures q * p > 0 && 0 <= r * q == (x * q) % (q * p)
  {
    MulDist(p * d, r, q);
    assert (p * d) * q == d * (q * p);
    ShiftedSlots(0, r, p, q);
    DivModUnique(x * q, d, r * q, q * p);
  }

  lemma ShiftBitsWord(a: seq<nat>, t: seq<nat>, n: nat, out: nat, s: nat, w: nat)
    requires 0 < s < w && 1 <= n <= |a| && n <= |t|
    requires Val(a[1..], n - 1, w) == Pow(2, s) * Val(t[1..], n - 1, w) + out
    requires t[0] == a[0] / Pow(2, s) + out * Pow(2, w - s)
    ensures Val(a, n, w) == Pow(2, s) * Val(t, n, w) + a[0] % Pow(2, s)
  {
    hide Pow, Val;
    PowAdd(2, s, w - s);
    ValFirst(a, n, w);
    ValFirst(t, n, w);
    ShiftBitsSum(a[0], out, Val(t[1..], n - 1, w), Pow(2, s), Pow(2, w - s));
  }

  lemma ShiftBitsSum(x: int, out: int, v: int, p: int, q: int)
    requires p > 0
    ensures x + (p * q) * (p * v + out) == p * ((x / p + out * q) + (p * q) * v) + x % p
  {
    assert x == p * (x / p) + x % p;
    MulDist(x / p + out * q, (p * q) * v, p);
    MulDist(x / p, out * q, p);
    MulDist(p * v, out, p * q);
    assert (p * q) * (p * v) == p * ((p * q) * v);
    assert (p * q) * out == p * (out * q);
  }

  /** The number of octets and words an order of nBits bits takes agree. */
  lemma OctetsOfOrder(nBits: nat, W: nat)
    requires W >= 1
    ensures ((nBits + 7) / 8 + (W - 1)) / W == (nBits + (8 * W - 1)) / (8 * W)
  {
    var x, m := (nBits + 7) / 8, 8 * W;
    var q, r := (x + (W - 1)) / W, (x + (W - 1)) % W;
    assert x + (W - 1) == W * q + r;
    assert nBits + (m - 1) == q * m + (nBits + (m - 1) - q * m);
    assert q * m == 8 * (W * q);
    DivModUnique(nBits + (m - 1), q, nBits + (m - 1) - q * m, m);
  }

  /** The integer for a hash, as words (SEC 1, section 4.1.3, step 5, without its final
      reduction when no bits are cut off). */
  method Bits2Int(native: array<nat>, bits: seq<nat>, nBits: nat, order: array<nat>, n: nat, W: nat)
    requires W >= 1 && Bytes(bits) && native.Length == n == (nBits + (8 * W - 1)) / (8 * W) && native != order
    requires WordsTo(order[..], n, 8 * W)
    modifies native
    ensures WordsTo(native[..], n, 8 * W)
    ensures Val(native[..], n, 8 * W) == HashToInt(bits, nBits, Val(order[..], n, 8 * W))
    ensures var N, e := Val(order[..], n, 8 * W),
                        BigEndian(bits) / Pow(2, if |bits| * 8 > nBits then |bits| * 8 - nBits else 0);
            Val(native[..], n, 8 * W) == if |bits| * 8 > nBits && nBits % 8 != 0 && e >= N then e - N else e
  {
    HashIsLeftmostBits(bits, nBits, Val(order[..], n, 8 * W));
    var w := 8 * W;
    var nBytes := (nBits + 7) / 8;
    var size := |bits|;
    if size > nBytes {
      size := nBytes;
    }
    OctetsOfOrder(nBits, W);
    hide Pow, Val;
    VliClear(native, n, w);
    var used := (size + (W - 1)) / W;
    QuotientMonotonic(size + (W - 1), nBytes + (W - 1), W);
    ghost var zeros := native[..];
    VliBytesToNative(native, bits[..size], used, W);
    ZerosAbove(native[..], used, n, w);
    if size * 8 <= nBits {
      return;
    }
    var shift := size * 8 - nBits;
    if W == 1 {
      assert shift < w;
    }
    ShiftRightBits(native, n, shift, w);
    var c := VliCmpUnsafe(order, native, n, w);
    ghost var t := Val(native[..], n, w);
    ValBound(native[..], n, w);
    ValBound(order[..], n, w);
    if c != 1 {
      var borrow := VliSub(native, native, order, n, w);
      ValBound(native[..], n, w);
      BorrowOrders(t, Val(order[..], n, w), Val(native[..], n, w), borrow, Pow(Base(w), n));
    }
  }

  lemma QuotientMonotonic(x: int, y: int, m: int)
    requires m > 0 && 0 <= x <= y
    ensures 0 <= x / m <= y / m
  {
    var q, r := x / m, y / m;
    if r < q {
      MulLe(r + 1, q, m);
      MulDist(r, 1, m);
    }
  }

  lemma ZerosAbove(s: seq<nat>, used: nat, n: nat, w: nat)
    requires used <= n <= |s| && WordsTo(s, used, w) && forall i :: used <= i < n ==> s[i] == 0
    ensures WordsTo(s, n, w) && Val(s, n, w) == Val(s, used, w)
  {
    hide Pow, Val;
    ValSplit(s, used, n - used, w);
    ValZero(s[used..], n - used, w);
  }
}
