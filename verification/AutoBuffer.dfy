/** A buffer that owns its memory and grows it in units. */
module AutoBuffers {
  import opened Arithmetic
  import opened ByteStrings
  import opened PtrBuffers

  /** The smallest multiple of unit that is at least len. */
  function RoundUp(len: nat, unit: nat): (r: nat)
    requires unit >= 1
    ensures len <= r < len + unit && r % unit == 0
  {
    var q, x := (len + unit - 1) / unit, (len + unit - 1) % unit;
    assert len + unit - 1 == unit * q + x;
    MulLe(0, q, unit);
    DivModUnique(q * unit, q, 0, unit);
    assert unit * q == q * unit;
    q * unit
  }

  /** What writing t at position p of the contents s leaves: s is extended if t reaches past
      its end. */
  function WrittenAt(s: seq<byte>, p: nat, t: seq<byte>): (r: seq<byte>)
    requires p <= |s|
    ensures p == |s| ==> r == s + t
    ensures |r| == (if p + |t| > |s| then p + |t| else |s|) && r[p..p + |t|] == t
    ensures forall i :: 0 <= i < p || p + |t| <= i < |s| ==> r[i] == s[i]
  {
    s[..p] + t + (if p + |t| < |s| then s[p + |t|..] else [])
  }

  lemma IsWrittenAt(s: seq<byte>, p: nat, t: seq<byte>, r: seq<byte>)
    requires p <= |s| && |r| == if p + |t| > |s| then p + |t| else |s|
    requires forall i :: 0 <= i < p || p + |t| <= i < |s| ==> r[i] == s[i]
    requires forall i :: 0 <= i < |t| ==> r[p + i] == t[i]
    ensures r == WrittenAt(s, p, t)
  {
    var w := WrittenAt(s, p, t);
    assert forall i :: p <= i < p + |t| ==> r[i] == t[i - p];
  }

  class AutoBuffer {
    var parray: array<byte>
    var pos: nat
    var length: nat
    var capacity: nat
    const unitSize: nat

    ghost predicate Valid()
      reads this
    {
      pos <= length <= capacity == parray.Length && unitSize >= 1
    }

    ghost function Contents(): seq<byte>
      reads this, parray
      requires Valid()
    {
      parray[..length]
    }

    constructor (unitSize: nat := 128)
      requires unitSize >= 1
      ensures Valid() && fresh(parray) && length == 0 && pos == 0 && Contents() == []
    {
      this.unitSize := unitSize;
      pos, length, capacity := 0, 0, 0;
      parray := new byte[0];
    }

    /** Makes room for len octets: what was there stays, the new room is zero. */
    method FitSize(len: nat)
      requires Valid()
      modifies this`parray, this`capacity
      ensures Valid() && capacity >= len
      ensures parray == old(parray) || fresh(parray)
      ensures capacity == if len <= old(capacity) then old(capacity) else RoundUp(len, unitSize)
      ensures parray[..old(capacity)] == old(parray[..])
      ensures forall i :: old(capacity) <= i < capacity ==> parray[i] == 0
    {
      if len > capacity {
        var size := RoundUp(len, unitSize);
        var grown := new byte[size];
        forall i | 0 <= i < capacity {
          grown[i] := parray[i];
        }
        forall i | capacity <= i < size {
          grown[i] := 0;
        }
        assert grown[..capacity] == parray[..];
        parray, capacity := grown, size;
      }
    }

    method AllocWrite(readyToWrite: nat, changeLength: bool := true)
      requires Valid()
      modifies this`parray, this`capacity, this`length
      ensures Valid() && (parray == old(parray) || fresh(parray)) && capacity >= pos + readyToWrite
      ensures length == if changeLength && pos + readyToWrite > old(length) then pos + readyToWrite else old(length)
      ensures parray[..old(length)] == old(Contents())
    {
      var newLength := pos + readyToWrite;
      FitSize(newLength);
      assert parray[..length] == parray[..old(capacity)][..length];
      if changeLength {
        length := if newLength > length then newLength else length;
      }
    }

    method WriteAt(data: seq<byte>, at: nat)
      requires Valid() && at <= length
      modifies this`parray, this`capacity, this`length, parray
      ensures Valid() && (parray == old(parray) || fresh(parray))
      ensures Contents() == WrittenAt(old(Contents()), at, data)
    {
      hide WrittenAt;
      var newLength := at + |data|;
      ghost var was := Contents();
      FitSize(newLength);
      assert forall i :: 0 <= i < |was| ==> parray[i] == parray[..old(capacity)][i] == was[i];
      length := if newLength > length then newLength else length;
      forall i | 0 <= i < |data| {
        parray[at + i] := data[i];
      }
      ghost var now := Contents();
      assert forall i :: 0 <= i < |now| ==> now[i] == parray[i];
      assert forall i :: 0 <= i < |data| ==> now[at + i] == parray[at + i] == data[i];
      IsWrittenAt(was, at, data, now);
    }

    /** Writes at the current position; at the end of the contents this appends. */
    method Write(data: seq<byte>)
      requires Valid()
      modifies this, parray
      ensures Valid() && (parray == old(parray) || fresh(parray))
      ensures Contents() == WrittenAt(old(Contents()), old(pos), data)
      ensures pos == old(pos) + |data|
    {
      WriteAt(data, pos);
      pos := Clamp(pos + |data|, length);
    }
  }
}
