/** The Adler-32 checksum (RFC 1950, sections 8.2 and 9): the version that puts the modulo off
    for whole blocks, and the combination of two checksums. */
module Adler32 {
  import opened Arithmetic
  import opened Bits
  import opened ByteStrings

  const BASE := 65521
  const NMAX := 5552

  // ---- The definition, one octet at a time ----

  /** Both sums after s, reduced at every octet. */
  function Sums(a: nat, b: nat, s: seq<byte>): (nat, nat)
  {
    if s == [] then (a, b)
    else
      var (a', b') := Sums(a, b, s[..|s| - 1]);
      var a'' := (a' + s[|s| - 1]) % BASE;
      (a'', (b' + a'') % BASE)
  }

  function Join(sums: (nat, nat)): nat { sums.1 * 65536 + sums.0 }

  /** The checksum of s. */
  function Checksum(s: seq<byte>): nat { Join(Sums(1, 0, s)) }

  predicate Reduced(a: int, b: int) { 0 <= a < BASE && 0 <= b < BASE }

  lemma {:induction false} SumsReduced(a: nat, b: nat, s: seq<byte>)
    requires Reduced(a, b)
    ensures Reduced(Sums(a, b, s).0, Sums(a, b, s).1)
  {
    if s != [] {
      SumsReduced(a, b, s[..|s| - 1]);
    }
  }

  lemma {:induction false} SumsConcat(a: nat, b: nat, s: seq<byte>, t: seq<byte>)
    ensures Sums(a, b, s + t) == Sums(Sums(a, b, s).0, Sums(a, b, s).1, t)
  {
    if t == [] {
      assert s + t == s;
    } else {
      SumsConcat(a, b, s, t[..|t| - 1]);
      assert (s + t)[..|s + t| - 1] == s + t[..|t| - 1];
    }
  }

  // ---- The sums without reduction ----

  function Deferred(a: nat, b: nat, s: seq<byte>): (nat, nat)
  {
    if s == [] then (a, b)
    else
      var (a', b') := Deferred(a, b, s[..|s| - 1]);
      (a' + s[|s| - 1], b' + (a' + s[|s| - 1]))
  }

  /** Reducing once at the end gives what reducing at every octet gives. */
  lemma {:induction false} DeferredModulo(a: nat, b: nat, s: seq<byte>)
    requires Reduced(a, b)
    ensures Sums(a, b, s) == (Deferred(a, b, s).0 % BASE, Deferred(a, b, s).1 % BASE)
  {
    if s != [] {
      LastSums(a, b, s);
      LastDeferred(a, b, s);
      hide Sums, Deferred;
      DeferredModulo(a, b, s[..|s| - 1]);
      var (d, e) := Deferred(a, b, s[..|s| - 1]);
      var x: int := s[|s| - 1];
      ModPlus(d, x);
      ModPlus(e, (d + x) % BASE);
      ModPlus(d + x, e);
    }
  }

  lemma LastSums(a: nat, b: nat, s: seq<byte>)
    requires s != []
    ensures var (p, q) := Sums(a, b, s[..|s| - 1]);
            Sums(a, b, s) == ((p + s[|s| - 1]) % BASE, (q + (p + s[|s| - 1]) % BASE) % BASE)
  {}

  lemma LastDeferred(a: nat, b: nat, s: seq<byte>)
    requires s != []
    ensures var (d, e) := Deferred(a, b, s[..|s| - 1]);
            Deferred(a, b, s) == (d + s[|s| - 1], e + (d + s[|s| - 1]))
  {}

  lemma ModPlus(x: int, y: int)
    ensures (x % BASE + y) % BASE == (x + y) % BASE
  {
    var q := x / BASE;
    assert x == q * BASE + x % BASE;
    var r := (x % BASE + y) % BASE;
    DivModUnique(x + y, q + (x % BASE + y) / BASE, r, BASE);
  }

  /** How large the unreduced sums can get: never 2^32 within NMAX octets. */
  lemma {:induction false} DeferredBound(a: nat, b: nat, s: seq<byte>)
    requires Reduced(a, b)
    ensures Deferred(a, b, s).0 <= 65520 + 255 * |s|
    ensures 2 * Deferred(a, b, s).1 <= 2 * 65520 * (|s| + 1) + 255 * |s| * (|s| + 1)
  {
    if s != [] {
      var n := |s| - 1;
      DeferredBound(a, b, s[..n]);
      assert 255 * (n + 1) * (n + 2) == 255 * n * (n + 1) + 510 * (n + 1);
    }
  }

  lemma NoOverflow(a: nat, b: nat, s: seq<byte>)
    requires Reduced(a, b) && |s| <= NMAX
    ensures Deferred(a, b, s).0 < TWO_32 && Deferred(a, b, s).1 <= 4294690200 < TWO_32
    ensures |s| < 16 ==> Deferred(a, b, s).0 < 2 * BASE && Deferred(a, b, s).1 < 32 * BASE
  {
    DeferredBound(a, b, s);
    hide Deferred;
    SumOfSteps(|s|);
  }

  lemma SumOfSteps(n: int)
    requires 0 <= n <= NMAX
    ensures 255 * n * (n + 1) <= 255 * NMAX * (NMAX + 1)
    ensures n < 16 ==> 255 * n * (n + 1) <= 255 * 15 * 16
  {
    MulLe(n, NMAX, n + 1);
    MulLe(n + 1, NMAX + 1, NMAX);
    if n < 16 {
      MulLe(n, 15, n + 1);
    }
    assert 255 * n * (n + 1) == 255 * (n * (n + 1));
  }

  // ---- The sums in closed form (RFC 1950, section 8.2) ----

  ghost function Total(xs: seq<int>): int
  {
    if xs == [] then 0 else Total(xs[..|xs| - 1]) + xs[|xs| - 1]
  }

  /** Each octet as often as it is added to the second sum: once for itself and for every octet behind it. */
  ghost function Weighted(s: seq<byte>): seq<int>
  {
    seq(|s|, i requires 0 <= i < |s| => (|s| - i) * s[i])
  }

  lemma {:induction false} TotalOfSum(xs: seq<int>, ys: seq<int>, zs: seq<int>)
    requires |xs| == |ys| == |zs| && forall i :: 0 <= i < |xs| ==> zs[i] == xs[i] + ys[i]
    ensures Total(zs) == Total(xs) + Total(ys)
  {
    if xs != [] {
      var n := |xs| - 1;
      TotalOfSum(xs[..n], ys[..n], zs[..n]);
    }
  }

  lemma OneMoreOctet(s: seq<byte>)
    requires s != []
    ensures Total(Weighted(s)) == Total(Weighted(s[..|s| - 1])) + Total(s[..|s| - 1]) + s[|s| - 1]
  {
    var n := |s| - 1;
    var p, w: seq<int> := s[..n], Weighted(s);
    assert w[n] == s[n];
    forall i | 0 <= i < n ensures w[..n][i] == Weighted(p)[i] + p[i] {
      MulDist(n - i, 1, s[i]);
    }
    TotalOfSum(Weighted(p), p, w[..n]);
  }

  lemma {:induction false} DeferredTotals(a: nat, b: nat, s: seq<byte>)
    ensures Deferred(a, b, s).0 == a + Total(s)
    ensures Deferred(a, b, s).1 == b + |s| * a + Total(Weighted(s))
  {
    if s == [] {
      assert Weighted(s) == [];
    } else {
      DeferredTotals(a, b, s[..|s| - 1]);
      LastDeferred(a, b, s);
      OneMoreOctet(s);
      MulDist(|s| - 1, 1, a);
    }
  }

  /** The first sum is the start and all octets, the second one the start, the first start once for
      every octet, and every octet once for itself and for every one behind it, both modulo 65521. */
  lemma SumsAreTotals(a: nat, b: nat, s: seq<byte>)
    requires Reduced(a, b)
    ensures Sums(a, b, s).0 == (a + Total(s)) % 65521
    ensures Sums(a, b, s).1 == (b + |s| * a + Total(Weighted(s))) % 65521
  {
    DeferredModulo(a, b, s);
    DeferredTotals(a, b, s);
  }

  // ---- The unrolled sums of one block ----

  method Do1(buf: seq<byte>, i: nat, adler: uint32, sum2: uint32, ghost a: nat, ghost b: nat)
    returns (adler': uint32, sum2': uint32)
    requires i < |buf| <= NMAX && Reduced(a, b) && (adler, sum2) == Deferred(a, b, buf[..i])
    ensures (adler', sum2') == Deferred(a, b, buf[..i + 1])
  {
    NoOverflow(a, b, buf[..i + 1]);
    assert buf[..i + 1][..i] == buf[..i];
    adler' := adler + buf[i];
    sum2' := sum2 + adler';
  }

  method Do2(buf: seq<byte>, i: nat, adler: uint32, sum2: uint32, ghost a: nat, ghost b: nat)
    returns (adler': uint32, sum2': uint32)
    requires i + 2 <= |buf| <= NMAX && Reduced(a, b) && (adler, sum2) == Deferred(a, b, buf[..i])
    ensures (adler', sum2') == Deferred(a, b, buf[..i + 2])
  {
    hide Deferred;
    adler', sum2' := Do1(buf, i, adler, sum2, a, b);
    adler', sum2' := Do1(buf, i + 1, adler', sum2', a, b);
  }

  method Do4(buf: seq<byte>, i: nat, adler: uint32, sum2: uint32, ghost a: nat, ghost b: nat)
    returns (adler': uint32, sum2': uint32)
    requires i + 4 <= |buf| <= NMAX && Reduced(a, b) && (adler, sum2) == Deferred(a, b, buf[..i])
    ensures (adler', sum2') == Deferred(a, b, buf[..i + 4])
  {
    hide Deferred;
    adler', sum2' := Do2(buf, i, adler, sum2, a, b);
    adler', sum2' := Do2(buf, i + 2, adler', sum2', a, b);
  }

  method Do8(buf: seq<byte>, i: nat, adler: uint32, sum2: uint32, ghost a: nat, ghost b: nat)
    returns (adler': uint32, sum2': uint32)
    requires i + 8 <= |buf| <= NMAX && Reduced(a, b) && (adler, sum2) == Deferred(a, b, buf[..i])
    ensures (adler', sum2') == Deferred(a, b, buf[..i + 8])
  {
    hide Deferred;
    adler', sum2' := Do4(buf, i, adler, sum2, a, b);
    adler', sum2' := Do4(buf, i + 4, adler', sum2', a, b);
  }

  method Do16(buf: seq<byte>, i: nat, adler: uint32, sum2: uint32, ghost a: nat, ghost b: nat)
    returns (adler': uint32, sum2': uint32)
    requires i + 16 <= |buf| <= NMAX && Reduced(a, b) && (adler, sum2) == Deferred(a, b, buf[..i])
    ensures (adler', sum2') == Deferred(a, b, buf[..i + 16])
  {
    hide Deferred;
    adler', sum2' := Do8(buf, i, adler, sum2, a, b);
    adler', sum2' := Do8(buf, i + 8, adler', sum2', a, b);
  }

  // ---- Reduction by subtraction ----

  function Less(a: nat, m: nat): nat { if a >= m then a - m else a }

  /** Taking c * BASE off once halves the range and keeps the remainder. */
  lemma TakenOff(a: nat, c: nat)
    requires a < 2 * (c * BASE)
    ensures Less(a, c * BASE) < c * BASE && Less(a, c * BASE) % BASE == a % BASE
  {
    if a >= c * BASE {
      DivModUnique(a, (a - c * BASE) / BASE + c, (a - c * BASE) % BASE, BASE);
    }
  }

  /** The five subtractions that are enough below 32 * BASE. */
  function Chain4(a: nat): nat
  {
    Less(Less(Less(Less(Less(a, 16 * BASE), 8 * BASE), 4 * BASE), 2 * BASE), 1 * BASE)
  }

  lemma Chain4Modulo(a: nat)
    requires a < 32 * BASE
    ensures Chain4(a) == a % BASE
  {
    var x4 := Less(a, 16 * BASE);
    var x3 := Less(x4, 8 * BASE);
    var x2 := Less(x3, 4 * BASE);
    var x1 := Less(x2, 2 * BASE);
    TakenOff(a, 16);
    TakenOff(x4, 8);
    TakenOff(x3, 4);
    TakenOff(x2, 2);
    TakenOff(x1, 1);
  }

  /** The further twelve subtractions that come first for any 32-bit number. */
  function Chain16(a: nat): nat
  {
    var x := Less(Less(Less(Less(a, 65536 * BASE), 32768 * BASE), 16384 * BASE), 8192 * BASE);
    var y := Less(Less(Less(Less(x, 4096 * BASE), 2048 * BASE), 1024 * BASE), 512 * BASE);
    Less(Less(Less(Less(y, 256 * BASE), 128 * BASE), 64 * BASE), 32 * BASE)
  }

  lemma Chain16Modulo(a: nat)
    requires a < TWO_32
    ensures Chain16(a) < 32 * BASE && Chain16(a) % BASE == a % BASE
  {
    var x15 := Less(a, 65536 * BASE);
    var x14 := Less(x15, 32768 * BASE);
    var x13 := Less(x14, 16384 * BASE);
    var x12 := Less(x13, 8192 * BASE);
    var x11 := Less(x12, 4096 * BASE);
    var x10 := Less(x11, 2048 * BASE);
    var x9 := Less(x10, 1024 * BASE);
    var x8 := Less(x9, 512 * BASE);
    var x7 := Less(x8, 256 * BASE);
    var x6 := Less(x7, 128 * BASE);
    var x5 := Less(x6, 64 * BASE);
    TakenOff(a, 65536);
    TakenOff(x15, 32768);
    TakenOff(x14, 16384);
    TakenOff(x13, 8192);
    TakenOff(x12, 4096);
    TakenOff(x11, 2048);
    TakenOff(x10, 1024);
    TakenOff(x9, 512);
    TakenOff(x8, 256);
    TakenOff(x7, 128);
    TakenOff(x6, 64);
    TakenOff(x5, 32);
  }

  /** a % BASE, by division or, on machines without it, by seventeen subtractions. */
  method Mod(a: uint32, noDivide: bool) returns (r: uint32)
    ensures r == a % BASE
  {
    if noDivide {
      Chain16Modulo(a);
      Chain4Modulo(Chain16(a));
      r := Chain4(Chain16(a));
    } else {
      r := a % BASE;
    }
  }

  /** The same for a number that has only a few BASEs in it. */
  method Mod4(a: uint32, noDivide: bool) returns (r: uint32)
    requires a < 32 * BASE
    ensures r == a % BASE
  {
    if noDivide {
      Chain4Modulo(a);
      r := Chain4(a);
    } else {
      r := a % BASE;
    }
  }

  // ---- The checksum ----

  datatype Input = Null | Data(bytes: seq<byte>)

  /** adler | (sum2 << 16) */
  function Recombine(adler: nat, sum2: nat): (r: nat)
  {
    BitOr(adler, sum2 * 65536)
  }

  lemma Recombined(adler: nat, sum2: nat)
    requires adler < 65536
    ensures Recombine(adler, sum2) == Join((adler, sum2))
  {
    assert Pow(2, 16) == 65536 by {
      assert Pow(2, 8) == 256 by {
        assert Pow(2, 4) == 16;
        PowAdd(2, 4, 4);
      }
      PowAdd(2, 8, 8);
    }
    DivModUnique(sum2 * 65536, sum2, 0, 65536);
    OrDisjoint(adler, sum2 * 65536, 16);
  }

  /** Continues a checksum over more octets. The three length paths and the block loop all give
      what reducing at every octet gives. */
  method Update(start: uint32, buf: Input, noDivide: bool) returns (r: nat)
    requires Reduced(start % 65536, start / 65536)
    ensures buf.Null? ==> r == 1
    ensures buf.Data? ==> r == Join(Sums(start % 65536, start / 65536, buf.bytes))
    ensures buf.Data? ==> var (a, b, s) := (start % 65536, start / 65536, buf.bytes);
      && r % 65536 == (a + Total(s)) % 65521
      && r / 65536 == (b + |s| * a + Total(Weighted(s))) % 65521
  {
    hide Sums, Join, Total, Weighted;
    var adler: uint32, sum2: uint32 := start % 65536, start / 65536;
    ghost var a, b := adler, sum2;
    if buf.Null? {
      return 1;
    }
    var s := buf.bytes;
    SumsReduced(a, b, s);
    if |s| == 1 {
      adler, sum2 := OneOctet(adler, sum2, s);
    } else if |s| < 16 {
      adler, sum2 := FewOctets(adler, sum2, s, noDivide);
    } else {
      adler, sum2 := ManyOctets(adler, sum2, s, noDivide);
    }
    Recombined(adler, sum2);
    r := Recombine(adler, sum2);
    JoinedTotals(a, b, s);
  }

  lemma JoinedTotals(a: nat, b: nat, s: seq<byte>)
    requires Reduced(a, b)
    ensures Join(Sums(a, b, s)) % 65536 == (a + Total(s)) % 65521
    ensures Join(Sums(a, b, s)) / 65536 == (b + |s| * a + Total(Weighted(s))) % 65521
  {
    hide Sums, Total, Weighted;
    SumsAreTotals(a, b, s);
    var (x, y) := Sums(a, b, s);
    DivModUnique(Join((x, y)), y, x, 65536);
  }

  method OneOctet(a: uint32, b: uint32, s: seq<byte>) returns (adler: uint32, sum2: uint32)
    requires Reduced(a, b) && |s| == 1
    ensures (adler, sum2) == Sums(a, b, s)
  {
    assert s[..0] == [] && Sums(a, b, []) == (a, b);
    adler := a + s[0];
    if adler >= BASE {
      adler := adler - BASE;
    }
    sum2 := b + adler;
    if sum2 >= BASE {
      sum2 := sum2 - BASE;
    }
  }

  method FewOctets(a: uint32, b: uint32, s: seq<byte>, noDivide: bool) returns (adler: uint32, sum2: uint32)
    requires Reduced(a, b) && |s| < 16
    ensures (adler, sum2) == Sums(a, b, s)
  {
    adler, sum2 := a, b;
    assert s[..0] == [] && Deferred(a, b, []) == (a, b);
    hide Deferred, Sums;
    var i := 0;
    while i < |s|
      invariant 0 <= i <= |s| && (adler, sum2) == Deferred(a, b, s[..i])
    {
      adler, sum2 := Do1(s, i, adler, sum2, a, b);
      i := i + 1;
    }
    assert s[..i] == s;
    NoOverflow(a, b, s);
    DeferredModulo(a, b, s);
    if adler >= BASE {
      adler := adler - BASE;
    }
    sum2 := Mod4(sum2, noDivide);
  }

  method ManyOctets(a: uint32, b: uint32, s: seq<byte>, noDivide: bool) returns (adler: uint32, sum2: uint32)
    requires Reduced(a, b)
    ensures (adler, sum2) == Sums(a, b, s)
  {
    adler, sum2 := a, b;
    assert s[..0] == [] && Sums(a, b, []) == (a, b);
    hide Deferred, Sums;
    var pos := 0;
    while |s| - pos >= NMAX
      invariant 0 <= pos <= |s| && (adler, sum2) == Sums(a, b, s[..pos]) && Reduced(adler, sum2)
    {
      ghost var done := s[..pos];
      var block := s[pos..pos + NMAX];
      SumsConcat(a, b, done, block);
      assert s[..pos + NMAX] == done + block;
      adler, sum2 := Block(adler, sum2, block, noDivide);
      pos := pos + NMAX;
    }
    if pos < |s| {
      var rest := s[pos..];
      SumsConcat(a, b, s[..pos], rest);
      assert s == s[..pos] + rest;
      adler, sum2 := Remainder(adler, sum2, rest, noDivide);
    } else {
      assert s[..pos] == s;
    }
  }

  /** One block of NMAX octets, sixteen at a time. */
  method Block(a: uint32, b: uint32, block: seq<byte>, noDivide: bool) returns (adler: uint32, sum2: uint32)
    requires Reduced(a, b) && |block| == NMAX
    ensures (adler, sum2) == Sums(a, b, block) && Reduced(adler, sum2)
  {
    adler, sum2 := a, b;
    assert block[..0] == [] && Deferred(a, b, []) == (a, b);
    hide Deferred, Sums;
    var i, n := 0, NMAX / 16;
    while n > 0
      invariant 0 <= n && i == NMAX - 16 * n && 0 <= i
      invariant (adler, sum2) == Deferred(a, b, block[..i])
    {
      adler, sum2 := Do16(block, i, adler, sum2, a, b);
      i := i + 16;
      n := n - 1;
    }
    assert block[..i] == block;
    DeferredModulo(a, b, block);
    adler := Mod(adler, noDivide);
    sum2 := Mod(sum2, noDivide);
  }

  /** The last octets, fewer than NMAX. */
  method Remainder(a: uint32, b: uint32, rest: seq<byte>, noDivide: bool) returns (adler: uint32, sum2: uint32)
    requires Reduced(a, b) && |rest| < NMAX
    ensures (adler, sum2) == Sums(a, b, rest)
  {
    adler, sum2 := a, b;
    assert rest[..0] == [] && Deferred(a, b, []) == (a, b);
    hide Deferred, Sums;
    var i := 0;
    while |rest| - i >= 16
      invariant 0 <= i <= |rest| && (adler, sum2) == Deferred(a, b, rest[..i])
    {
      adler, sum2 := Do16(rest, i, adler, sum2, a, b);
      i := i + 16;
    }
    while i < |rest|
      invariant 0 <= i <= |rest| && (adler, sum2) == Deferred(a, b, rest[..i])
    {
      adler, sum2 := Do1(rest, i, adler, sum2, a, b);
      i := i + 1;
    }
    assert rest[..i] == rest;
    DeferredModulo(a, b, rest);
    adler := Mod(adler, noDivide);
    sum2 := Mod(sum2, noDivide);
  }

  // ---- Combining two checksums ----

  /** The two halves, before they are put together. */
  function CombinedHalves(a1: nat, b1: nat, a2: nat, b2: nat, len2: nat): (nat, nat)
    requires Reduced(a1, b1) && Reduced(a2, b2)
  {
    var rem := len2 % BASE;
    MulLe(0, rem, a1);
    var s1 := a1 + a2 + BASE - 1;
    var s2 := (rem * a1) % BASE + b1 + b2 + BASE - rem;
    var t1 := if s1 > BASE then s1 - BASE else s1;
    var t2 := if s2 > 2 * BASE then s2 - 2 * BASE else s2;
    (if t1 > BASE then t1 - BASE else t1, if t2 > BASE then t2 - BASE else t2)
  }

  method Combine(adler1: uint32, adler2: uint32, len2: nat, noDivide: bool) returns (r: nat)
    requires Reduced(adler1 % 65536, adler1 / 65536) && Reduced(adler2 % 65536, adler2 / 65536)
    ensures r == Join(CombinedHalves(adler1 % 65536, adler1 / 65536, adler2 % 65536, adler2 / 65536, len2))
  {
    var rem: uint32 := len2 % BASE;
    var sum1: uint32 := adler1 % 65536;
    RoomForProduct(rem, sum1);
    var sum2: uint32 := rem * sum1;
    sum2 := Mod(sum2, noDivide);
    sum1 := sum1 + adler2 % 65536 + BASE - 1;
    sum2 := sum2 + adler1 / 65536 + adler2 / 65536 + BASE - rem;
    if sum1 > BASE {
      sum1 := sum1 - BASE;
    }
    if sum1 > BASE {
      sum1 := sum1 - BASE;
    }
    if sum2 > 2 * BASE {
      sum2 := sum2 - 2 * BASE;
    }
    if sum2 > BASE {
      sum2 := sum2 - BASE;
    }
    Recombined(sum1, sum2);
    r := Recombine(sum1, sum2);
  }

  lemma RoomForProduct(x: int, y: int)
    requires 0 <= x < BASE && 0 <= y < BASE
    ensures 0 <= x * y < TWO_32
  {
    MulLe(0, x, y);
    MulLe(x, BASE, y);
    MulLe(y, BASE, BASE);
  }

  /** What n octets add to the second sum because the first one starts at a instead of 1. */
  function Carried(n: int, a: int): int { n * (a - 1) }

  /** The sums of a concatenation before reduction, from the reduced sums of its parts. */
  function FirstSum(a1: int, a2: int): int { a1 + a2 - 1 }

  function SecondSum(a1: int, b1: int, b2: int, len2: int): int { b1 + Carried(len2, a1) + b2 }

  /** The unreduced sums over s started from any a and b, in terms of those started at 1, 0. */
  lemma {:induction false} DeferredFrom(a: nat, b: nat, s: seq<byte>)
    ensures Deferred(a, b, s).0 == a - 1 + Deferred(1, 0, s).0
    ensures Deferred(a, b, s).1 == b + Carried(|s|, a) + Deferred(1, 0, s).1
  {
    if s != [] {
      DeferredFrom(a, b, s[..|s| - 1]);
      MulDist(|s| - 1, 1, a - 1);
    }
  }

  /** The sums of a concatenation, from those of its parts. */
  lemma SumsOfConcat(s: seq<byte>, t: seq<byte>)
    ensures var ((a1, b1), (a2, b2)) := (Sums(1, 0, s), Sums(1, 0, t));
      && Reduced(a1, b1) && Reduced(a2, b2)
      && Sums(1, 0, s + t).0 == FirstSum(a1, a2) % BASE
      && Sums(1, 0, s + t).1 == SecondSum(a1, b1, b2, |t|) % BASE
  {
    hide Sums, Deferred, Carried;
    SumsReduced(1, 0, s);
    SumsReduced(1, 0, t);
    SumsConcat(1, 0, s, t);
    var ((a1, b1), (a2, b2)) := (Sums(1, 0, s), Sums(1, 0, t));
    DeferredModulo(a1, b1, t);
    DeferredModulo(1, 0, t);
    DeferredFrom(a1, b1, t);
    var (d, e) := Deferred(1, 0, t);
    ModPlus(d, (a1 as int) - 1);
    ModPlus(e, b1 + Carried(|t|, a1));
  }

  /** The combined halves lie in 1 .. BASE and have the right remainders. */
  lemma CombinedRange(a1: nat, b1: nat, a2: nat, b2: nat, len2: nat)
    requires Reduced(a1, b1) && Reduced(a2, b2)
    ensures var (x, y) := CombinedHalves(a1, b1, a2, b2, len2);
      && 1 <= x <= BASE && 1 <= y <= BASE
      && x % BASE == FirstSum(a1, a2) % BASE && y % BASE == SecondSum(a1, b1, b2, len2) % BASE
  {
    var rem := len2 % BASE;
    var (x, y) := CombinedHalves(a1, b1, a2, b2, len2);
    MulLe(0, rem, a1);
    WholeBases(x, a1 + a2 - 1);
    var p := (rem * a1) % BASE;
    WholeBases(y, p + b1 + b2 - rem);
    ModPlus(rem * a1, b1 + b2 - rem);
    LengthModulo(len2, a1, b1 + b2);
  }

  lemma WholeBases(x: int, y: int)
    requires x == y + BASE || x == y || x == y - BASE || x == y - 2 * BASE
    ensures x % BASE == y % BASE
  {
    var q := y / BASE;
    assert y == q * BASE + y % BASE;
    DivModUnique(x, q + (x - y) / BASE, y % BASE, BASE);
  }

  lemma LengthModulo(len: nat, a: int, c: int)
    ensures ((len % BASE) * a + (c - len % BASE)) % BASE == (c + Carried(len, a)) % BASE
  {
    var r, q := len % BASE, len / BASE;
    assert len == q * BASE + r;
    assert len * (a - 1) == (q * (a - 1)) * BASE + r * (a - 1) by {
      MulDist(q * BASE, r, a - 1);
      assert (q * BASE) * (a - 1) == (q * (a - 1)) * BASE;
    }
    assert r * (a - 1) == r * a - r;
    var y := r * a + (c - r);
    var z := q * (a - 1);
    DivModUnique(y + z * BASE, z + y / BASE, y % BASE, BASE);
  }

  /** Combining the checksums of two strings gives the checksum of their concatenation exactly
      when neither of its halves is 0: a half that should be 0 comes out as BASE. */
  lemma CombineExact(s: seq<byte>, t: seq<byte>)
    ensures var ((a1, b1), (a2, b2)) := (Sums(1, 0, s), Sums(1, 0, t));
      && Reduced(a1, b1) && Reduced(a2, b2)
      && (Join(CombinedHalves(a1, b1, a2, b2, |t|)) == Checksum(s + t) <==>
          FirstSum(a1, a2) % BASE != 0 && SecondSum(a1, b1, b2, |t|) % BASE != 0)
  {
    SumsOfConcat(s, t);
    hide Sums, Carried, CombinedHalves, Join, FirstSum, SecondSum;
    var ((a1, b1), (a2, b2)) := (Sums(1, 0, s), Sums(1, 0, t));
    CombinedRange(a1, b1, a2, b2, |t|);
    var (x, y) := CombinedHalves(a1, b1, a2, b2, |t|);
    HalvesExact(x, y, FirstSum(a1, a2), SecondSum(a1, b1, b2, |t|));
  }

  lemma HalvesExact(x: nat, y: nat, u: int, v: int)
    requires 1 <= x <= BASE && x % BASE == u % BASE && 1 <= y <= BASE && y % BASE == v % BASE
    ensures Join((x, y)) == Join((u % BASE, v % BASE)) <==> u % BASE != 0 && v % BASE != 0
  {
    JoinInjective(x, y, u % BASE, v % BASE);
  }

  lemma JoinInjective(x: nat, y: nat, x': nat, y': nat)
    requires x < 65536 && x' < 65536
    ensures Join((x, y)) == Join((x', y')) <==> x == x' && y == y'
  {
    DivModUnique(Join((x, y)), y, x, 65536);
    DivModUnique(Join((x', y')), y', x', 65536);
  }

  lemma {:induction false} ConstantSums(n: nat, v: byte)
    ensures Deferred(1, 0, seq(n, _ => v)).0 == 1 + n * v
  {
    if n > 0 {
      ConstantSums(n - 1, v);
      assert seq(n, _ => v)[..n - 1] == seq(n - 1, _ => v);
      MulDist(n, 1, v);
    }
  }

  /** An input for which the combination is not the checksum: nothing, followed by 256 octets
      255 and one octet 240, whose sum is BASE - 1. */
  lemma CombineFails()
    ensures var t: seq<byte> := seq(256, _ => 255) + [240];
      var ((a1, b1), (a2, b2)) := (Sums(1, 0, []), Sums(1, 0, t));
      Reduced(a1, b1) && Reduced(a2, b2) && Join(CombinedHalves(a1, b1, a2, b2, |t|)) != Checksum([] + t)
  {
    var t: seq<byte> := seq(256, _ => 255) + [240];
    ConstantSums(256, 255);
    assert t[..256] == seq(256, _ => 255);
    DeferredModulo(1, 0, t);
    assert Sums(1, 0, t).0 == 0;
    CombineExact([], t);
  }
}
