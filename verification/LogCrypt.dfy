/** Log record headers, the TEA block cipher and the block encryption of appended log data. */
module LogCrypts {
  import opened Arithmetic
  import opened Bits
  import opened ByteStrings
  import opened AutoBuffers

  const MAGIC_SYNC: byte := 6
  const MAGIC_SYNC_NO_CRYPT: byte := 8
  const MAGIC_ASYNC: byte := 7
  const MAGIC_ASYNC_NO_CRYPT: byte := 9
  const MAGIC_END: byte := 0

  /** magic, sequence number (2), begin hour, end hour, length (4), public key (64). */
  const HEADER_LEN := 73
  const TAILER_LEN := 1
  const END_HOUR_AT := 4
  const LENGTH_AT := 5

  predicate IsMagic(b: byte)
  {
    b == MAGIC_SYNC || b == MAGIC_SYNC_NO_CRYPT || b == MAGIC_ASYNC || b == MAGIC_ASYNC_NO_CRYPT
  }

  // ---- TEA, 16 rounds ----

  const DELTA := 0x9e3779b9
  const ROUNDS := 16
  const BLOCK_LEN := 8

  type Key = k: seq<uint32> | |k| == 4 witness [0, 0, 0, 0]

  /** ((v << 4) + a) ^ (v + sum) ^ ((v >> 5) + b) on 32-bit words. */
  function Mix(v: uint32, sum: uint32, a: uint32, b: uint32): nat
  {
    BitXor(BitXor(((v * 16) % TWO_32 + a) % TWO_32, (v + sum) % TWO_32), (v / 32 + b) % TWO_32)
  }

  function Round(v: (uint32, uint32), sum: uint32, k: Key): (uint32, uint32)
  {
    var v0 := (v.0 + Mix(v.1, sum, k[0], k[1])) % TWO_32;
    (v0, (v.1 + Mix(v0, sum, k[2], k[3])) % TWO_32)
  }

  function RoundBack(v: (uint32, uint32), sum: uint32, k: Key): (uint32, uint32)
  {
    var v1 := (v.1 - Mix(v.0, sum, k[2], k[3])) % TWO_32;
    ((v.0 - Mix(v1, sum, k[0], k[1])) % TWO_32, v1)
  }

  function SumAfter(n: nat): uint32 { (n * DELTA) % TWO_32 }

  function Rounds(v: (uint32, uint32), n: nat, k: Key): (uint32, uint32)
  {
    if n == 0 then v else Round(Rounds(v, n - 1, k), SumAfter(n), k)
  }

  function RoundsBack(v: (uint32, uint32), n: nat, k: Key): (uint32, uint32)
    decreases n
  {
    if n == 0 then v else RoundsBack(RoundBack(v, SumAfter(n), k), n - 1, k)
  }

  lemma AddThenTakeAway(x: uint32, f: nat)
    ensures ((x + f) % TWO_32 - f) % TWO_32 == x
    ensures ((x - f) % TWO_32 + f) % TWO_32 == x
  {
    DivModUnique((x + f) % TWO_32 - f, -((x + f) / TWO_32), x, TWO_32);
    DivModUnique((x - f) % TWO_32 + f, -((x - f) / TWO_32), x, TWO_32);
  }

  lemma RoundInverse(v: (uint32, uint32), sum: uint32, k: Key)
    ensures RoundBack(Round(v, sum, k), sum, k) == v
    ensures Round(RoundBack(v, sum, k), sum, k) == v
  {
    hide Mix;
    var w := Round(v, sum, k);
    AddThenTakeAway(v.0, Mix(v.1, sum, k[0], k[1]));
    AddThenTakeAway(v.1, Mix(w.0, sum, k[2], k[3]));
    var u := RoundBack(v, sum, k);
    AddThenTakeAway(v.1, Mix(v.0, sum, k[2], k[3]));
    AddThenTakeAway(v.0, Mix(u.1, sum, k[0], k[1]));
  }

  lemma {:induction false} RoundsInverse(v: (uint32, uint32), n: nat, k: Key)
    ensures RoundsBack(Rounds(v, n, k), n, k) == v
  {
    if n > 0 {
      RoundInverse(Rounds(v, n - 1, k), SumAfter(n), k);
      RoundsInverse(v, n - 1, k);
    }
  }

  // ---- What the rounds compute, bit by bit ----

  /** Each of the 32 bits of d is the parity of that bit of p, q and r. */
  ghost predicate Parity(d: uint32, p: uint32, q: uint32, r: uint32)
  {
    forall i :: 0 <= i < 32 ==> (Bit(d, i) <==> ((Bit(p, i) != Bit(q, i)) != Bit(r, i)))
  }

  /** Half a round takes x to y: it adds the parities of (v << 4) + a, v + sum and (v >> 5) + b,
      all on 32 bits. */
  ghost predicate HalfRound(x: uint32, v: uint32, sum: uint32, a: uint32, b: uint32, y: uint32)
  {
    AddsParity(x, ((v * 16) % 0x1_0000_0000 + a) % 0x1_0000_0000, (v + sum) % 0x1_0000_0000,
               (v / 32 + b) % 0x1_0000_0000, y)
  }

  ghost predicate AddsParity(x: uint32, p: uint32, q: uint32, r: uint32, y: uint32)
  {
    exists d: uint32 :: Parity(d, p, q, r) && y == (x + d) % 0x1_0000_0000
  }

  /** A round: half of it on each word, with two key words each, the second half on the new first word. */
  ghost predicate TeaStep(v: (uint32, uint32), w: (uint32, uint32), sum: uint32, k: Key)
  {
    HalfRound(v.0, v.1, sum, k[0], k[1], w.0) && HalfRound(v.1, w.0, sum, k[2], k[3], w.1)
  }

  /** The states of n rounds; round i adds i times the key schedule constant, on 32 bits. */
  ghost predicate TeaStates(t: seq<(uint32, uint32)>, n: nat, k: Key)
  {
    |t| == n + 1 && forall i :: 1 <= i <= n ==> TeaStep(t[i - 1], t[i], (i * 0x9e3779b9) % 0x1_0000_0000, k)
  }

  lemma Two32()
    ensures Pow(2, 32) == 0x1_0000_0000
  {
    assert Pow(2, 4) == 16;
    PowAdd(2, 4, 4);
    PowAdd(2, 8, 8);
    PowAdd(2, 16, 16);
  }

  lemma MixIsParity(v: uint32, sum: uint32, a: uint32, b: uint32)
    ensures 0 <= Mix(v, sum, a, b) < TWO_32
    ensures Parity(Mix(v, sum, a, b), ((v * 16) % 0x1_0000_0000 + a) % 0x1_0000_0000, (v + sum) % 0x1_0000_0000,
                   (v / 32 + b) % 0x1_0000_0000)
  {
    var p, q, r := ((v * 16) % TWO_32 + a) % TWO_32, (v + sum) % TWO_32, (v / 32 + b) % TWO_32;
    assert Mix(v, sum, a, b) == BitXor(BitXor(p, q), r);
    XorOfThree(p, q, r);
  }

  lemma XorOfThree(p: uint32, q: uint32, r: uint32)
    ensures 0 <= BitXor(BitXor(p, q), r) < TWO_32 && Parity(BitXor(BitXor(p, q), r), p, q, r)
  {
    hide BitXor, Bit;
    Two32();
    XorBound(p, q, 32);
    XorBound(BitXor(p, q), r, 32);
    forall i | 0 <= i < 32
      ensures Bit(BitXor(BitXor(p, q), r), i) <==> ((Bit(p, i) != Bit(q, i)) != Bit(r, i)) {
      BitOfXor(p, q, i);
      BitOfXor(BitXor(p, q), r, i);
    }
  }

  lemma RoundIsTeaStep(v: (uint32, uint32), sum: uint32, k: Key)
    ensures TeaStep(v, Round(v, sum, k), sum, k)
  {
    hide Mix, Parity;
    var w := Round(v, sum, k);
    MixIsParity(v.1, sum, k[0], k[1]);
    MixIsParity(w.0, sum, k[2], k[3]);
  }

  /** Half a round has one result, so a round has, and any number of rounds. */
  lemma HalfRoundUnique(x: uint32, v: uint32, sum: uint32, a: uint32, b: uint32, y: uint32, z: uint32)
    requires HalfRound(x, v, sum, a, b, y) && HalfRound(x, v, sum, a, b, z)
    ensures y == z
  {
    hide Parity, Bit;
    var p, q, r := ((v * 16) % TWO_32 + a) % TWO_32, (v + sum) % TWO_32, (v / 32 + b) % TWO_32;
    var d: uint32 :| Parity(d, p, q, r) && y == (x + d) % TWO_32;
    var e: uint32 :| Parity(e, p, q, r) && z == (x + e) % TWO_32;
    SameParity(d, e, p, q, r);
  }

  lemma SameParity(d: uint32, e: uint32, p: uint32, q: uint32, r: uint32)
    requires Parity(d, p, q, r) && Parity(e, p, q, r)
    ensures d == e
  {
    hide Bit;
    Two32();
    SameBits(d, e, 32);
  }

  lemma {:induction false} TeaStatesUnique(t: seq<(uint32, uint32)>, u: seq<(uint32, uint32)>, n: nat, k: Key)
    requires TeaStates(t, n, k) && TeaStates(u, n, k) && t[0] == u[0]
    ensures t == u
  {
    hide HalfRound;
    if n > 0 {
      TeaStatesUnique(t[..n], u[..n], n - 1, k);
      assert t[n - 1] == t[..n][n - 1] == u[..n][n - 1] == u[n - 1];
      var sum := (n * DELTA) % TWO_32;
      HalfRoundUnique(t[n - 1].0, t[n - 1].1, sum, k[0], k[1], t[n].0, u[n].0);
      HalfRoundUnique(t[n - 1].1, t[n].0, sum, k[2], k[3], t[n].1, u[n].1);
      assert t == t[..n] + [t[n]] && u == u[..n] + [u[n]];
    }
  }

  /** The states the rounds run through. */
  lemma {:induction false} RoundsAreTea(v: (uint32, uint32), n: nat, k: Key) returns (t: seq<(uint32, uint32)>)
    ensures TeaStates(t, n, k) && t[0] == v && t[n] == Rounds(v, n, k)
  {
    hide Round, TeaStep;
    if n == 0 {
      t := [v];
    } else {
      var s := RoundsAreTea(v, n - 1, k);
      var w := Rounds(v, n, k);
      RoundIsTeaStep(s[n - 1], (n * DELTA) % TWO_32, k);
      t := s + [w];
      forall i | 1 <= i <= n ensures TeaStep(t[i - 1], t[i], (i * 0x9e3779b9) % 0x1_0000_0000, k) {
        if i < n {
          assert t[i - 1] == s[i - 1] && t[i] == s[i];
        }
      }
    }
  }

  /** The first half round of the zero block under the zero key. */
  lemma ZeroBlock(y: uint32)
    requires HalfRound(0, 0, 0x9e3779b9, 0, 0, y)
    ensures y == 0x9e3779b9
  {
    hide Parity, Bit, BitXor;
    XorWithZero(0x9e3779b9);
    XorOfThree(0, 0x9e3779b9, 0);
    var d: uint32 :| Parity(d, 0, 0x9e3779b9, 0) && y == (0 + d) % TWO_32;
    SameParity(d, 0x9e3779b9, 0, 0x9e3779b9, 0);
  }

  /** One round: both words mixed in turn under the next sum. */
  method TeaRound(v0: uint32, v1: uint32, sum: uint32, k: Key) returns (w0: uint32, w1: uint32, next: uint32)
    ensures next == (sum + DELTA) % TWO_32 && (w0, w1) == Round((v0, v1), next, k)
  {
    hide Mix;
    next := (sum + DELTA) % TWO_32;
    w0 := (v0 + Mix(v1, next, k[0], k[1])) % TWO_32;
    w1 := (v1 + Mix(w0, next, k[2], k[3])) % TWO_32;
  }

  /** Encrypts the two words of v in place. */
  method TeaEncrypt(v: array<uint32>, k: Key) returns (ghost t: seq<(uint32, uint32)>)
    requires v.Length == 2
    modifies v
    ensures (v[0], v[1]) == Rounds(old((v[0], v[1])), ROUNDS, k)
    ensures TeaStates(t, 16, k) && t[0] == old((v[0], v[1])) && t[16] == (v[0], v[1])
  {
    hide Mix, Rounds, SumAfter, Round, TeaStates;
    ghost var start := (v[0], v[1]);
    FirstRounds(start, 0, k);
    var v0, v1, sum := v[0], v[1], 0;
    for i := 0 to ROUNDS
      invariant (v0, v1) == Rounds(start, i, k)
      invariant sum == SumAfter(i)
    {
      FirstRounds(start, i, k);
      v0, v1, sum := TeaRound(v0, v1, sum, k);
    }
    v[0], v[1] := v0, v1;
    t := RoundsAreTea(start, ROUNDS, k);
  }

  lemma FirstRounds(v: (uint32, uint32), n: nat, k: Key)
    ensures Rounds(v, 0, k) == v && SumAfter(0) == 0
    ensures Rounds(v, n + 1, k) == Round(Rounds(v, n, k), SumAfter(n + 1), k)
    ensures SumAfter(n + 1) == (SumAfter(n) + DELTA) % TWO_32
  {
    hide Round, Mix;
    ModAdd(n * DELTA, DELTA, TWO_32);
  }

  lemma ModAdd(x: int, y: int, m: int)
    requires m > 0
    ensures (x % m + y) % m == (x + y) % m
  {
    var q, r := (x % m + y) / m, (x % m + y) % m;
    MulDist(x / m, q, m);
    assert x == (x / m) * m + x % m;
    assert x % m + y == q * m + r;
    DivModUnique(x + y, x / m + q, r, m);
  }

  // ---- Blocks of 8 octets ----

  function EncryptBlock(b: seq<byte>, k: Key): (r: seq<byte>)
    requires |b| == BLOCK_LEN
    ensures |r| == BLOCK_LEN
  {
    var v := Rounds((LE32(b[..4]), LE32(b[4..])), ROUNDS, k);
    ToLE32(v.0) + ToLE32(v.1)
  }

  function DecryptBlock(b: seq<byte>, k: Key): (r: seq<byte>)
    requires |b| == BLOCK_LEN
    ensures |r| == BLOCK_LEN
  {
    var v := RoundsBack((LE32(b[..4]), LE32(b[4..])), ROUNDS, k);
    ToLE32(v.0) + ToLE32(v.1)
  }

  lemma BlockRoundTrip(b: seq<byte>, k: Key)
    requires |b| == BLOCK_LEN
    ensures DecryptBlock(EncryptBlock(b, k), k) == b
  {
    hide Rounds, RoundsBack;
    var v := (LE32(b[..4]), LE32(b[4..]));
    var w := Rounds(v, ROUNDS, k);
    RoundsInverse(v, ROUNDS, k);
    LE32Inverse(w.0);
    LE32Inverse(w.1);
    assert (ToLE32(w.0) + ToLE32(w.1))[..4] == ToLE32(w.0) && (ToLE32(w.0) + ToLE32(w.1))[4..] == ToLE32(w.1);
    ToLE32Inverse(b[..4]);
    ToLE32Inverse(b[4..]);
  }

  /** A block is two little-endian words, put through 16 rounds. */
  lemma BlockIsTea(b: seq<byte>, k: Key) returns (t: seq<(uint32, uint32)>)
    requires |b| == BLOCK_LEN
    ensures TeaStates(t, 16, k)
    ensures LittleEndian(b, 0, t[0].0) && LittleEndian(b, 4, t[0].1)
    ensures LittleEndian(EncryptBlock(b, k), 0, t[16].0) && LittleEndian(EncryptBlock(b, k), 4, t[16].1)
  {
    hide Rounds, LE32, ToLE32;
    var v := (LE32(b[..4]), LE32(b[4..]));
    t := RoundsAreTea(v, 16, k);
    var w := t[16];
    hide TeaStates, LittleEndian;
    var e := ToLE32(w.0) + ToLE32(w.1);
    assert e == EncryptBlock(b, k);
    LE32Inverse(w.0);
    LE32Inverse(w.1);
    assert e[0..4] == ToLE32(w.0) && e[4..8] == ToLE32(w.1) && b[0..4] == b[..4] && b[4..8] == b[4..];
    LittleEndianIs(b, 0, v.0);
    LittleEndianIs(b, 4, v.1);
    LittleEndianIs(e, 0, w.0);
    LittleEndianIs(e, 4, w.1);
  }

  /** Every whole block encrypted; the last |s| % 8 octets as they are. */
  function Encrypt(s: seq<byte>, k: Key): (r: seq<byte>)
    ensures |r| == |s|
  {
    if |s| < BLOCK_LEN then s else EncryptBlock(s[..BLOCK_LEN], k) + Encrypt(s[BLOCK_LEN..], k)
  }

  function Decrypt(s: seq<byte>, k: Key): (r: seq<byte>)
    ensures |r| == |s|
  {
    if |s| < BLOCK_LEN then s else DecryptBlock(s[..BLOCK_LEN], k) + Decrypt(s[BLOCK_LEN..], k)
  }

  /** Decrypting block by block gives the data back. */
  lemma {:induction false} EncryptRoundTrip(s: seq<byte>, k: Key)
    ensures Decrypt(Encrypt(s, k), k) == s
  {
    if |s| >= BLOCK_LEN {
      hide EncryptBlock, DecryptBlock;
      BlockRoundTrip(s[..BLOCK_LEN], k);
      EncryptRoundTrip(s[BLOCK_LEN..], k);
      var e := EncryptBlock(s[..BLOCK_LEN], k);
      assert (e + Encrypt(s[BLOCK_LEN..], k))[..BLOCK_LEN] == e;
      assert (e + Encrypt(s[BLOCK_LEN..], k))[BLOCK_LEN..] == Encrypt(s[BLOCK_LEN..], k);
    }
  }

  lemma Unfold(s: seq<byte>, k: Key)
    requires |s| >= BLOCK_LEN
    ensures Encrypt(s, k) == EncryptBlock(s[..BLOCK_LEN], k) + Encrypt(s[BLOCK_LEN..], k)
  {}

  /** Encryption splits at block boundaries. */
  lemma {:induction false} EncryptSplit(a: seq<byte>, b: seq<byte>, k: Key)
    requires |a| % BLOCK_LEN == 0
    ensures Encrypt(a + b, k) == Encrypt(a, k) + Encrypt(b, k)
  {
    hide EncryptBlock;
    if a == [] {
      assert a + b == b;
    } else {
      var h, t := a[..BLOCK_LEN], a[BLOCK_LEN..];
      assert (a + b)[..BLOCK_LEN] == h && (a + b)[BLOCK_LEN..] == t + b;
      Unfold(a, k);
      Unfold(a + b, k);
      hide Encrypt;
      EncryptSplit(t, b, k);
      assert EncryptBlock(h, k) + (Encrypt(t, k) + Encrypt(b, k)) == EncryptBlock(h, k) + Encrypt(t, k) + Encrypt(b, k);
    }
  }

  /** The octets behind the last whole block are stored unencrypted. */
  lemma {:induction false} EncryptTail(s: seq<byte>, k: Key)
    ensures var n := |s| - |s| % BLOCK_LEN;
            Encrypt(s, k)[n..] == s[n..] && Encrypt(s, k)[..n] == Encrypt(s[..n], k)
  {
    var n := |s| - |s| % BLOCK_LEN;
    assert s == s[..n] + s[n..];
    EncryptSplit(s[..n], s[n..], k);
  }

  /** Appending: the unencrypted tail goes through the cipher again, together with the new
      data, and everything before it stays as it is. */
  lemma EncryptAppend(s: seq<byte>, d: seq<byte>, k: Key)
    ensures var n := |s| - |s| % BLOCK_LEN;
            Encrypt(s + d, k) == Encrypt(s, k)[..n] + Encrypt(s[n..] + d, k)
  {
    hide Encrypt;
    var n := |s| - |s| % BLOCK_LEN;
    var a, b := s[..n], s[n..] + d;
    EncryptTail(s, k);
    assert s + d == a + b;
    EncryptSplit(a, b, k);
  }

  /** Whole block j of the data goes through the 16 rounds and comes to stand where it was. */
  lemma {:induction false} EncryptIsTea(s: seq<byte>, k: Key, j: nat) returns (t: seq<(uint32, uint32)>)
    requires 8 * j + 8 <= |s|
    ensures TeaStates(t, 16, k)
    ensures LittleEndian(s, 8 * j, t[0].0) && LittleEndian(s, 8 * j + 4, t[0].1)
    ensures LittleEndian(Encrypt(s, k), 8 * j, t[16].0) && LittleEndian(Encrypt(s, k), 8 * j + 4, t[16].1)
    decreases j
  {
    hide EncryptBlock, TeaStates;
    Unfold(s, k);
    hide Encrypt;
    var e := EncryptBlock(s[..BLOCK_LEN], k);
    if j == 0 {
      t := BlockIsTea(s[..BLOCK_LEN], k);
    } else {
      t := EncryptIsTea(s[BLOCK_LEN..], k, j - 1);
    }
  }

  // ---- Header fields ----

  /** The length field of a header; 0 if there is no header. */
  function GetLogLen(data: seq<byte>): uint32
  {
    if |data| < HEADER_LEN || !IsMagic(data[0]) then 0 else LE32(data[LENGTH_AT..LENGTH_AT + 4])
  }

  /** What the length of a header is: the number in its octets 5 to 8, if it has a magic number, else 0. */
  lemma LengthField(data: seq<byte>)
    requires |data| >= 73
    ensures forall len: uint32 :: LittleEndian(data, 5, len) && 6 <= data[0] <= 9 ==> GetLogLen(data) == len
    ensures 6 <= data[0] <= 9 ==> LittleEndian(data, 5, GetLogLen(data))
    ensures !(6 <= data[0] <= 9) ==> GetLogLen(data) == 0
  {
    hide LE32, LittleEndian;
    LittleEndianIs(data, 5, LE32(data[5..9]));
    forall len: uint32 | LittleEndian(data, 5, len) ensures LE32(data[5..9]) == len {
      LittleEndianIs(data, 5, len);
    }
  }

  function NewHeader(magic: byte, s: nat, hour: byte, pubkey: seq<byte>): (h: seq<byte>)
    requires s < 65536 && |pubkey| == 64
    ensures |h| == HEADER_LEN
  {
    [magic, s % 256, s / 256, hour, hour, 0, 0, 0, 0] + pubkey
  }

  /** The header of a record, but for its length: its kind, its number, the hour it begins and, so
      far, ends in, and the client's public key. */
  ghost predicate HeaderFor(mem: seq<byte>, isAsync: bool, isCrypt: bool, seqNo: nat, hour: byte, pubkey: seq<byte>)
  {
    && |mem| >= 73
    && mem[0] == (if isAsync then (if isCrypt then 7 else 9) else (if isCrypt then 6 else 8))
    && mem[1] + 256 * (mem[2] as int) == seqNo && mem[3] == mem[4] == hour && mem[9..73] == pubkey
  }

  /** The header stays as it is, but for its length. */
  ghost predicate KeepsHeader(m: seq<byte>, m': seq<byte>)
  {
    |m'| == |m| >= 73 && forall i :: 0 <= i < 73 && !(5 <= i < 9) ==> m'[i] == m[i]
  }

  lemma HeaderKept(m: seq<byte>, m': seq<byte>, isAsync: bool, isCrypt: bool, seqNo: nat, hour: byte, pubkey: seq<byte>)
    requires HeaderFor(m, isAsync, isCrypt, seqNo, hour, pubkey) && KeepsHeader(m, m')
    ensures HeaderFor(m', isAsync, isCrypt, seqNo, hour, pubkey)
  {}

  class LogCrypt {
    var seqNo: nat
    var lastSeq: nat // the last asynchronous sequence number handed out
    const isCrypt: bool
    const teaKey: Key
    const clientPubkey: seq<byte>

    predicate Valid()
      reads this
    {
      seqNo < 65536 && lastSeq < 65536 && |clientPubkey| == 64
    }

    constructor (isCrypt: bool, teaKey: Key, clientPubkey: seq<byte>)
      requires |clientPubkey| == 64
      ensures Valid() && this.isCrypt == isCrypt && this.teaKey == teaKey && this.clientPubkey == clientPubkey
    {
      seqNo, lastSeq := 0, 0;
      this.isCrypt, this.teaKey, this.clientPubkey := isCrypt, teaKey, clientPubkey;
    }

    /** 0 for synchronous records, else the next 16-bit number, skipping 0. */
    method GetSeq(isAsync: bool) returns (s: nat)
      requires Valid()
      modifies this`lastSeq
      ensures Valid() && s < 65536
      ensures !isAsync ==> s == 0 && lastSeq == old(lastSeq)
      ensures isAsync ==> 0 < s == lastSeq == (if old(lastSeq) == 65535 then 1 else old(lastSeq) + 1)
    {
      if !isAsync {
        return 0;
      }
      lastSeq := (lastSeq + 1) % 65536;
      if lastSeq == 0 {
        lastSeq := lastSeq + 1;
      }
      s := lastSeq;
    }

    function Magic(isAsync: bool): (m: byte)
      ensures IsMagic(m)
    {
      if isAsync then (if isCrypt then MAGIC_ASYNC else MAGIC_ASYNC_NO_CRYPT)
      else (if isCrypt then MAGIC_SYNC else MAGIC_SYNC_NO_CRYPT)
    }

    method SetHeaderInfo(mem: array<byte>, isAsync: bool, hour: byte)
      requires Valid() && mem.Length >= HEADER_LEN
      modifies this, mem
      ensures Valid() && seqNo < 65536
      ensures mem[..] == Overwrite(old(mem[..]), 0, NewHeader(Magic(isAsync), seqNo, hour, clientPubkey))
      ensures HeaderFor(mem[..], isAsync, isCrypt, seqNo, hour, clientPubkey)
      ensures mem[5] == mem[6] == mem[7] == mem[8] == 0
      ensures forall i :: 73 <= i < mem.Length ==> mem[i] == old(mem[i])
    {
      seqNo := GetSeq(isAsync);
      ghost var images := StoreBytes(mem, 0, NewHeader(Magic(isAsync), seqNo, hour, clientPubkey));
    }

    method UpdateLogHour(mem: array<byte>, hour: byte)
      requires mem.Length >= HEADER_LEN
      modifies mem
      ensures mem[..] == old(mem[..])[4 := hour]
    {
      mem[END_HOUR_AT] := hour;
    }

    /** Adds to the length field, in one store. */
    method UpdateLogLen(mem: array<byte>, addLen: uint32)
      requires mem.Length >= HEADER_LEN
      modifies mem
      ensures mem[..] == Overwrite(old(mem[..]), LENGTH_AT,
                                   ToLE32((GetLogLen(old(mem[..HEADER_LEN])) + addLen) % TWO_32))
      ensures forall len: uint32 :: LittleEndian(old(mem[..]), 5, len) && 6 <= old(mem[0]) <= 9 ==>
                LittleEndian(mem[..], 5, (len + addLen) % 0x1_0000_0000)
      ensures !(6 <= old(mem[0]) <= 9) ==> LittleEndian(mem[..], 5, addLen)
      ensures forall i :: 0 <= i < mem.Length && !(5 <= i < 9) ==> mem[i] == old(mem[i])
    {
      hide LE32, ToLE32, GetLogLen, LittleEndian;
      ghost var sum := (GetLogLen(mem[..HEADER_LEN]) + addLen) % TWO_32;
      var field := ToLE32((GetLogLen(mem[..HEADER_LEN]) + addLen) % TWO_32);
      ghost var before := mem[..];
      forall i | 0 <= i < 4 {
        mem[LENGTH_AT + i] := field[i];
      }
      assert mem[..] == Overwrite(before, LENGTH_AT, field);
      assert mem[..][5..9] == field;
      LE32Inverse(sum);
      LittleEndianIs(mem[..], 5, sum);
      LengthField(before[..HEADER_LEN]);
      forall len: uint32 | LittleEndian(before, 5, len) ensures LittleEndian(before[..HEADER_LEN], 5, len) {
        LittleEndianIs(before, 5, len);
        LittleEndianIs(before[..HEADER_LEN], 5, len);
        assert before[5..9] == before[..HEADER_LEN][5..9];
      }
    }

    /** The length of the record a header in memory announces, if there is a header. */
    method Fix(data: seq<byte>) returns (found: bool, isAsync: bool, rawLen: uint32)
      requires Valid()
      modifies this`seqNo
      ensures Valid()
      ensures found <==> |data| >= 73 && 6 <= data[0] <= 9
      ensures found ==> rawLen == GetLogLen(data) && LittleEndian(data, 5, rawLen)
      ensures found ==> seqNo == data[1] + 256 * (data[2] as int) && (isAsync <==> data[0] == 7 || data[0] == 9)
    {
      isAsync, rawLen := false, 0;
      if |data| < HEADER_LEN {
        return false, isAsync, rawLen;
      }
      var start := data[0];
      if MAGIC_ASYNC != start && MAGIC_SYNC != start && MAGIC_ASYNC_NO_CRYPT != start && MAGIC_SYNC_NO_CRYPT != start {
        return false, isAsync, rawLen;
      }
      isAsync := !(MAGIC_SYNC == start || MAGIC_SYNC_NO_CRYPT == start);
      rawLen := GetLogLen(data);
      LengthField(data);
      hide GetLogLen, LittleEndian;
      seqNo := data[1] + 256 * (data[2] as int);
      found := true;
    }

    /** Puts the stored form of data at the start of out, which is extended by as much from its
        position; the number of octets left unencrypted. */
    method CryptAsyncLog(data: seq<byte>, out: AutoBuffer) returns (remain: nat)
      requires out.Valid()
      modifies out, out.parray
      ensures out.Valid() && out.pos == old(out.pos) && out.parray.Length >= |data|
      ensures out.length == if old(out.pos) + |data| > old(out.length) then old(out.pos) + |data| else old(out.length)
      ensures out.parray[..|data|] == if isCrypt then Encrypt(data, teaKey) else data
      ensures forall i :: |data| <= i < old(out.length) ==> out.parray[i] == old(out.Contents())[i]
      ensures remain == if isCrypt then |data| % BLOCK_LEN else 0
    {
      ghost var was := out.Contents();
      out.AllocWrite(|data|);
      assert forall i :: 0 <= i < |was| ==> out.parray[i] == out.parray[..|was|][i] == was[i];
      if !isCrypt {
        var arr := out.parray;
        forall i | 0 <= i < |data| {
          arr[i] := data[i];
        }
        assert out.parray[..|data|] == data;
        return 0;
      }
      remain := |data| % BLOCK_LEN;
      EncryptAll(out.parray, data);
    }

    /** All of data into arr: its whole blocks encrypted, the rest as it is. */
    method EncryptAll(arr: array<byte>, data: seq<byte>)
      requires |data| <= arr.Length
      modifies arr
      ensures arr[..|data|] == Encrypt(data, teaKey)
      ensures forall i :: |data| <= i < arr.Length ==> arr[i] == old(arr[i])
    {
      hide Encrypt;
      var cnt := |data| / BLOCK_LEN;
      var n := |data| - |data| % BLOCK_LEN;
      assert n == cnt * BLOCK_LEN;
      EncryptBlocks(arr, data, cnt);
      ghost var blocks := arr[..n];
      forall i | n <= i < |data| {
        arr[i] := data[i];
      }
      EncryptTail(data, teaKey);
      ghost var e := Encrypt(data, teaKey);
      assert e == e[..n] + e[n..];
      assert arr[..|data|] == blocks + data[n..];
    }

    /** The first cnt blocks of data, encrypted into arr. */
    method EncryptBlocks(arr: array<byte>, data: seq<byte>, cnt: nat)
      requires cnt * BLOCK_LEN <= |data| && cnt * BLOCK_LEN <= arr.Length
      modifies arr
      ensures arr[..cnt * BLOCK_LEN] == Encrypt(data[..cnt * BLOCK_LEN], teaKey)
      ensures forall i :: cnt * BLOCK_LEN <= i < arr.Length ==> arr[i] == old(arr[i])
    {
      hide Encrypt, EncryptBlock;
      var tmp := new uint32[2];
      EncryptNothing(data, teaKey);
      for i := 0 to cnt
        invariant arr[..i * BLOCK_LEN] == Encrypt(data[..i * BLOCK_LEN], teaKey)
        invariant forall j :: i * BLOCK_LEN <= j < arr.Length ==> arr[j] == old(arr[j])
      {
        var at := i * BLOCK_LEN;
        ghost var done := arr[..at];
        var enc := EncryptInPlace(tmp, data[at..at + BLOCK_LEN]);
        forall j | 0 <= j < BLOCK_LEN {
          arr[at + j] := enc[j];
        }
        EncryptNext(data, at, teaKey);
        assert arr[..at + BLOCK_LEN] == done + enc;
      }
    }

    /** One block through the cipher's two words. */
    method EncryptInPlace(tmp: array<uint32>, block: seq<byte>) returns (r: seq<byte>)
      requires tmp.Length == 2 && |block| == BLOCK_LEN
      modifies tmp
      ensures r == EncryptBlock(block, teaKey)
    {
      tmp[0], tmp[1] := LE32(block[..4]), LE32(block[4..]);
      ghost var t := TeaEncrypt(tmp, teaKey);
      r := ToLE32(tmp[0]) + ToLE32(tmp[1]);
    }
  }

  lemma EncryptNothing(s: seq<byte>, k: Key)
    ensures Encrypt(s[..0], k) == []
  {}

  lemma EncryptNext(s: seq<byte>, at: nat, k: Key)
    requires at + BLOCK_LEN <= |s| && at % BLOCK_LEN == 0
    ensures Encrypt(s[..at + BLOCK_LEN], k) == Encrypt(s[..at], k) + EncryptBlock(s[at..at + BLOCK_LEN], k)
  {
    assert s[..at + BLOCK_LEN] == s[..at] + s[at..at + BLOCK_LEN];
    EncryptSplit(s[..at], s[at..at + BLOCK_LEN], k);
    OneBlock(s[at..at + BLOCK_LEN], k);
  }

  lemma OneBlock(b: seq<byte>, k: Key)
    requires |b| == BLOCK_LEN
    ensures Encrypt(b, k) == EncryptBlock(b, k)
  {
    assert b[..BLOCK_LEN] == b && b[BLOCK_LEN..] == [];
    assert EncryptBlock(b, k) + [] == EncryptBlock(b, k);
  }
}
