/** A buffer over memory it does not own: position, length and a fixed maximum length. */
module PtrBuffers {
  import opened ByteStrings

  datatype SeekOrigin = SeekStart | SeekCur | SeekEnd

  function Clamp(x: int, hi: nat): (r: nat)
    ensures r <= hi && (0 <= x <= hi ==> r == x) && (x < 0 ==> r == 0) && (x > hi ==> r == hi)
  {
    if x < 0 then 0 else if x > hi then hi else x
  }

  class PtrBuffer {
    var parray: array<byte>
    var pos: nat
    var length: nat
    var maxLength: nat

    predicate Valid()
      reads this
    {
      pos <= length <= maxLength <= parray.Length
    }

    constructor Attach(mem: array<byte>, len: nat, maxLen: nat)
      requires len <= maxLen <= mem.Length
      ensures Valid() && parray == mem && pos == 0 && length == len && maxLength == maxLen
    {
      parray, pos, length, maxLength := mem, 0, len, maxLen;
    }

    method Seek(offset: int, origin: SeekOrigin)
      requires length <= maxLength <= parray.Length
      modifies this`pos
      ensures Valid()
      ensures pos == Clamp(match origin case SeekStart => offset case SeekCur => old(pos) + offset
                                        case SeekEnd => length + offset, length)
    {
      var p := match origin case SeekStart => offset case SeekCur => pos + offset case SeekEnd => length + offset;
      if p < 0 {
        p := 0;
      }
      if p > length {
        p := length;
      }
      pos := p;
    }

    /** Writes at a given position as much of data as fits; images are the memory after each
        byte stored. */
    method WriteAt(data: seq<byte>, at: nat) returns (ghost images: seq<seq<byte>>)
      requires Valid() && at <= length
      modifies this`length, parray
      ensures Valid() && parray == old(parray)
      ensures var n := if |data| < maxLength - at then |data| else maxLength - at;
        && parray[..] == Overwrite(old(parray[..]), at, data[..n])
        && length == (if old(length) > at + n then old(length) else at + n)
        && AllAgreeOutside(images, old(parray[..]), at, at + n) && Stores(images, old(parray[..]), parray[..])
    {
      var n := if |data| < maxLength - at then |data| else maxLength - at;
      length := if length > at + n then length else at + n;
      images := StoreBytes(parray, at, data[..n]);
    }

    /** Writes at the current position and moves it behind what was written. */
    method Write(data: seq<byte>) returns (ghost images: seq<seq<byte>>)
      requires Valid()
      modifies this, parray
      ensures Valid() && parray == old(parray) && maxLength == old(maxLength)
      ensures var n := if |data| < maxLength - old(pos) then |data| else maxLength - old(pos);
        && parray[..] == Overwrite(old(parray[..]), old(pos), data[..n])
        && pos == old(pos) + n
        && length == (if old(length) > pos then old(length) else pos)
        && AllAgreeOutside(images, old(parray[..]), old(pos), pos) && Stores(images, old(parray[..]), parray[..])
    {
      images := WriteAt(data, pos);
      ghost var n := if |data| < maxLength - old(pos) then |data| else maxLength - old(pos);
      Seek(|data|, SeekCur);
      assert n < |data| ==> length == maxLength;
      assert length > old(pos) + n ==> pos == (if old(pos) + |data| < length then old(pos) + |data| else length);
    }

    method SetLength(newPos: nat, newLength: nat)
      requires Valid() && newPos <= newLength
      modifies this`pos, this`length
      ensures Valid() && length == (if maxLength < newLength then maxLength else newLength)
      ensures pos == Clamp(newPos, length)
    {
      length := if maxLength < newLength then maxLength else newLength;
      Seek(newPos, SeekStart);
    }
  }
}
