/** Octets and little-endian 32-bit numbers, as the log files store them. */
module ByteStrings {

  type byte = x: int | 0 <= x < 256

  const TWO_32 := 0x1_0000_0000

  type uint32 = x: int | 0 <= x < TWO_32

  function LE32(b: seq<byte>): (r: uint32)
    requires |b| == 4
  {
    (b[0] as int) + 256 * (b[1] as int) + 65536 * (b[2] as int) + 16777216 * (b[3] as int)
  }

  /** The four octets of s from position p are those of x, the least significant first. */
  ghost predicate LittleEndian(s: seq<byte>, p: nat, x: uint32)
  {
    && p + 4 <= |s|
    && s[p] == x % 256 && s[p + 1] == (x / 256) % 256
    && s[p + 2] == (x / 65536) % 256 && s[p + 3] == x / 16777216
  }

  /** Four octets are the number they are read as. */
  lemma LittleEndianIs(s: seq<byte>, p: nat, x: uint32)
    requires p + 4 <= |s|
    ensures LittleEndian(s, p, x) <==> LE32(s[p..p + 4]) == x
  {
    var b := s[p..p + 4];
    LittleDigits(LE32(b), b[0], b[1], b[2], b[3]);
    LE32Inverse(x);
  }

  function ToLE32(x: uint32): (b: seq<byte>)
    ensures |b| == 4
  {
    [x % 256, (x / 256) % 256, (x / 65536) % 256, x / 16777216]
  }

  lemma LE32Inverse(x: uint32)
    ensures LE32(ToLE32(x)) == x
  {
    var a, b := x / 256, x / 65536;
    assert x == 256 * a + x % 256;
    assert a == 256 * (a / 256) + a % 256 && a / 256 == b;
    assert b == 256 * (b / 256) + b % 256 && b / 256 == x / 16777216;
  }

  lemma ToLE32Inverse(b: seq<byte>)
    requires |b| == 4
    ensures ToLE32(LE32(b)) == b
  {
    LittleDigits(LE32(b), b[0], b[1], b[2], b[3]);
  }

  lemma LittleDigits(x: int, b0: int, b1: int, b2: int, b3: int)
    requires 0 <= b0 < 256 && 0 <= b1 < 256 && 0 <= b2 < 256 && 0 <= b3 < 256
    requires x == b0 + 256 * b1 + 65536 * b2 + 16777216 * b3
    ensures x % 256 == b0 && (x / 256) % 256 == b1 && (x / 65536) % 256 == b2 && x / 16777216 == b3
  {
    var r2 := b2 + 256 * b3;
    var r1 := b1 + 256 * r2;
    assert x == 256 * r1 + b0 && x / 256 == r1;
    assert r1 == 256 * r2 + b1 && x / 65536 == r2;
  }

  /** s and t are equal except between lo and hi. */
  ghost predicate AgreeOutside(s: seq<byte>, t: seq<byte>, lo: int, hi: int)
  {
    |s| == |t| && forall i :: 0 <= i < |s| && !(lo <= i < hi) ==> s[i] == t[i]
  }

  ghost predicate AllAgreeOutside(images: seq<seq<byte>>, t: seq<byte>, lo: int, hi: int)
  {
    forall k :: 0 <= k < |images| ==> AgreeOutside(images[k], t, lo, hi)
  }

  /** s and t are equal except in one octet. */
  ghost predicate AgreeBut(s: seq<byte>, t: seq<byte>, at: int)
  {
    |s| == |t| && forall i :: 0 <= i < |s| && i != at ==> s[i] == t[i]
  }

  /** One store leads from s to t: of a single octet, or of the four octets of a record's length
      field. */
  ghost predicate OneStore(s: seq<byte>, t: seq<byte>)
  {
    AgreeOutside(s, t, 5, 9) || exists at :: AgreeBut(s, t, at)
  }

  /** The images show memory after every single store on the way from s to t. */
  ghost predicate Stores(images: seq<seq<byte>>, s: seq<byte>, t: seq<byte>)
  {
    if images == [] then s == t
    else
      && OneStore(s, images[0]) && images[|images| - 1] == t
      && forall k :: 0 < k < |images| ==> OneStore(images[k - 1], images[k])
  }

  lemma StoresThenStores(first: seq<seq<byte>>, second: seq<seq<byte>>, s: seq<byte>, t: seq<byte>, u: seq<byte>)
    requires Stores(first, s, t) && Stores(second, t, u)
    ensures Stores(first + second, s, u)
  {
    hide OneStore;
    var all := first + second;
    forall k | 0 < k < |all| ensures OneStore(all[k - 1], all[k]) {
      if |first| < k {
        assert all[k - 1] == second[k - 1 - |first|] && all[k] == second[k - |first|];
      }
    }
    if second == [] {
      assert all == first;
    }
  }

  /** The elements of t written over s from position p. */
  function Overwrite(s: seq<byte>, p: nat, t: seq<byte>): (r: seq<byte>)
    requires p + |t| <= |s|
    ensures |r| == |s|
  {
    seq(|s|, i requires 0 <= i < |s| => if p <= i < p + |t| then t[i - p] else s[i])
  }

  /** Stores data at a given place, octet by octet; images are the memory after each store. */
  method StoreBytes(mem: array<byte>, at: nat, data: seq<byte>) returns (ghost images: seq<seq<byte>>)
    requires at + |data| <= mem.Length
    modifies mem
    ensures mem[..] == Overwrite(old(mem[..]), at, data)
    ensures forall i :: 0 <= i < mem.Length ==>
              mem[i] == if at <= i < at + |data| then data[i - at] else old(mem[i])
    ensures AllAgreeOutside(images, old(mem[..]), at, at + |data|) && Stores(images, old(mem[..]), mem[..])
  {
    images := [];
    for i := 0 to |data|
      invariant forall j :: 0 <= j < i ==> mem[at + j] == data[j]
      invariant AgreeOutside(mem[..], old(mem[..]), at, at + i)
      invariant AllAgreeOutside(images, old(mem[..]), at, at + |data|) && Stores(images, old(mem[..]), mem[..])
    {
      ghost var before := mem[..];
      mem[at + i] := data[i];
      assert AgreeBut(before, mem[..], at + i);
      StoresThenStores(images, [mem[..]], old(mem[..]), before, mem[..]);
      images := images + [mem[..]];
    }
    assert mem[..] == Overwrite(old(mem[..]), at, data);
  }
}
