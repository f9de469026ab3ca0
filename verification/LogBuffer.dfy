/** The log buffer: one record, kept in a fixed memory region that outlives the process, whose
    body is re-encrypted at its tail by every append. */
module LogBuffers {
  import opened ByteStrings
  import opened PtrBuffers
  import opened AutoBuffers
  import opened LogCrypts

  // ---- What a region of memory holds ----

  /** Memory with room for a header and a tailer whose header, if any, announces no more than
      fits before the tailer. */
  predicate Attachable(mem: seq<byte>)
  {
    HEADER_LEN + TAILER_LEN <= |mem| < TWO_32 &&
    (IsMagic(mem[0]) ==> HEADER_LEN + GetLogLen(mem) + TAILER_LEN <= |mem|)
  }

  /** The length a buffer attached to this memory takes. */
  function AttachedLength(mem: seq<byte>): nat
    requires Attachable(mem)
  {
    if IsMagic(mem[0]) then HEADER_LEN + GetLogLen(mem) else 0
  }

  lemma LengthInHeader(mem: seq<byte>)
    requires |mem| >= HEADER_LEN
    ensures GetLogLen(mem[..HEADER_LEN]) == GetLogLen(mem)
  {
    assert mem[..HEADER_LEN][LENGTH_AT..LENGTH_AT + 4] == mem[LENGTH_AT..LENGTH_AT + 4];
  }

  lemma SameHeader(m0: seq<byte>, m1: seq<byte>)
    requires |m0| == |m1| >= HEADER_LEN && forall i :: 0 <= i < HEADER_LEN ==> m0[i] == m1[i]
    ensures GetLogLen(m0) == GetLogLen(m1)
  {
    assert m0[LENGTH_AT..LENGTH_AT + 4] == m1[LENGTH_AT..LENGTH_AT + 4];
  }

  lemma HeaderWritten(mem: seq<byte>, magic: byte, s: nat, hour: byte, pubkey: seq<byte>)
    requires Attachable(mem) && IsMagic(magic) && s < 65536 && |pubkey| == 64
    ensures var m := Overwrite(mem, 0, NewHeader(magic, s, hour, pubkey));
            IsMagic(m[0]) && GetLogLen(m) == 0 && Attachable(m)
  {
    var m := Overwrite(mem, 0, NewHeader(magic, s, hour, pubkey));
    assert m[LENGTH_AT..LENGTH_AT + 4] == [0, 0, 0, 0];
  }

  /** What flushing a buffer attached to this memory delivers. */
  function FlushOutput(mem: seq<byte>, hour: byte, framed: bool): seq<byte>
    requires Attachable(mem)
  {
    var len := AttachedLength(mem);
    if GetLogLen(mem[..len]) == 0 then []
    else if framed then mem[..len][END_HOUR_AT := hour] + [MAGIC_END]
    else mem[HEADER_LEN..len]
  }

  /** What memory with a record of len octets in its body delivers: nothing if there are none, else
      the record with the end hour stamped and a closing 0, or its bare body. */
  lemma Delivered(mem: seq<byte>, len: uint32, hour: byte)
    requires 74 <= |mem| < TWO_32 && 6 <= mem[0] <= 9 && LittleEndian(mem, 5, len)
    ensures Attachable(mem) <==> 73 + len + 1 <= |mem|
    ensures Attachable(mem) && len == 0 ==> FlushOutput(mem, hour, true) == FlushOutput(mem, hour, false) == []
    ensures Attachable(mem) && len > 0 ==>
              && FlushOutput(mem, hour, true) == mem[..4] + [hour] + mem[5..73 + len] + [0]
              && FlushOutput(mem, hour, false) == mem[73..73 + len]
  {
    hide LittleEndian;
    LengthField(mem);
    if Attachable(mem) {
      SameFieldBelow(mem, 73 + len);
      var a, b := mem[..73 + len][4 := hour] + [0], mem[..4] + [hour] + mem[5..73 + len] + [0];
      assert a == b;
    }
  }

  /** Memory without a record delivers nothing. */
  lemma NothingDelivered(mem: seq<byte>, hour: byte, framed: bool)
    requires 74 <= |mem| < TWO_32 && !(6 <= mem[0] <= 9)
    ensures Attachable(mem) && FlushOutput(mem, hour, framed) == []
  {}

  /** Two flushes of the same memory differ in the hour octet at most. */
  lemma FlushOutputHour(mem: seq<byte>, hour: byte, hour': byte, framed: bool)
    requires Attachable(mem)
    ensures var (a, b) := (FlushOutput(mem, hour, framed), FlushOutput(mem, hour', framed));
            |a| == |b| && forall i :: 0 <= i < |a| && !(framed && i == END_HOUR_AT) ==> a[i] == b[i]
  {}

  /** Memory left by a crash in the middle of an append to a non-empty buffer: it still holds
      the old record, whose body is intact up to `kept`, or it holds the whole new record. */
  ghost predicate Recoverable(image: seq<byte>, before: seq<byte>, after: seq<byte>, kept: nat)
  {
    Attachable(image) && Attachable(before) && Attachable(after) &&
    (image == after ||
     (AttachedLength(image) == AttachedLength(before) && HEADER_LEN <= kept <= AttachedLength(before) <= |image| &&
      |image| == |before| && image[..kept] == before[..kept]))
  }

  ghost predicate AllRecoverable(images: seq<seq<byte>>, before: seq<byte>, after: seq<byte>, kept: nat)
  {
    forall k :: 0 <= k < |images| ==> Recoverable(images[k], before, after, kept)
  }

  lemma StillRecoverable(image: seq<byte>, before: seq<byte>, after: seq<byte>, kept: nat, hi: nat)
    requires Attachable(before) && Attachable(after) && AttachedLength(before) > 0
    requires HEADER_LEN <= kept <= AttachedLength(before) <= hi && AgreeOutside(image, before, kept, hi)
    ensures Recoverable(image, before, after, kept)
  {
    assert image[LENGTH_AT..LENGTH_AT + 4] == before[LENGTH_AT..LENGTH_AT + 4];
  }

  /** Memory after an append: `out` stands at `from`, at the new end of the record, and the
      length field says so; nothing else has changed. */
  ghost predicate Appended(before: seq<byte>, after: seq<byte>, from: nat, out: seq<byte>)
  {
    HEADER_LEN <= from && from + |out| <= |after| == |before| && from + |out| - HEADER_LEN < TWO_32 &&
    (forall i :: 0 <= i < |before| && !(LENGTH_AT <= i < LENGTH_AT + 4) && !(from <= i < from + |out|)
       ==> after[i] == before[i]) &&
    after[from..from + |out|] == out && after[LENGTH_AT..LENGTH_AT + 4] == ToLE32(from + |out| - HEADER_LEN)
  }

  lemma AppendedBehindHeader(before: seq<byte>, after: seq<byte>, from: nat, out: seq<byte>)
    requires Appended(before, after, from, out)
    ensures KeepsHeader(before, after)
  {}

  lemma AppendedRecord(before: seq<byte>, after: seq<byte>, from: nat, out: seq<byte>)
    requires Appended(before, after, from, out) && Attachable(before) && AttachedLength(before) > 0
    requires from + |out| + TAILER_LEN <= |before|
    ensures Attachable(after) && AttachedLength(after) == from + |out|
    ensures after[HEADER_LEN..from + |out|] == before[HEADER_LEN..from] + out
  {
    hide LE32, ToLE32;
    LE32Inverse(from + |out| - HEADER_LEN);
    assert after[0] == before[0];
    var body := after[HEADER_LEN..from + |out|];
    assert body == after[HEADER_LEN..from] + after[from..from + |out|];
    assert after[HEADER_LEN..from] == before[HEADER_LEN..from];
  }

  /** The three groups of stores of an append, one after the other. */
  lemma StoresAppend(before: seq<byte>, m1: seq<byte>, m2: seq<byte>, m3: seq<byte>,
                     len: nat, from: nat, chunk: seq<byte>, out: seq<byte>, field: uint32)
    requires HEADER_LEN <= from <= len && from + |out| == len + |chunk| <= |before|
    requires field == from + |out| - HEADER_LEN
    requires m1 == Overwrite(before, len, chunk) && m2 == Overwrite(m1, from, out)
    requires m3 == Overwrite(m2, LENGTH_AT, ToLE32(field))
    ensures Appended(before, m3, from, out)
    ensures m1[from..len + |chunk|] == before[from..len] + chunk
  {
    hide ToLE32;
    assert m3[from..from + |out|] == m2[from..from + |out|];
    assert m1[from..len + |chunk|] == m1[from..len] + m1[len..len + |chunk|];
    assert m1[from..len] == before[from..len];
  }

  lemma LengthStored(m: seq<byte>, m': seq<byte>, field: uint32)
    requires 9 <= |m| && m' == Overwrite(m, LENGTH_AT, ToLE32(field))
    ensures Stores([m'], m, m')
  {
    assert AgreeOutside(m, m', 5, 9);
  }

  lemma Staged(m0: seq<byte>, m1: seq<byte>, len: nat, chunk: seq<byte>)
    requires len + |chunk| <= |m0| && m1 == Overwrite(m0, len, chunk)
    ensures |m1| == |m0| && AgreeOutside(m1, m0, len, len + |chunk|)
    ensures forall i :: 0 <= i < len ==> m0[i] == m1[i]
  {}

  lemma SliceParts(m: seq<byte>, a: nat, b: nat, c: nat)
    requires a <= b <= c <= |m|
    ensures m[a..c][b - a..] == m[b..c] && m[a..c][..b - a] == m[a..b]
  {}

  /** One append: the log data and what the compressor makes of it. */
  datatype Piece = Piece(data: seq<byte>, deflated: seq<byte>)

  function Chunk(p: Piece, compress: bool): seq<byte> { if compress then p.deflated else p.data }

  /** Each piece has data, and the compressor always has output for it. */
  predicate NonEmpty(ps: seq<Piece>, compress: bool)
  {
    forall k :: 0 <= k < |ps| ==> |ps[k].data| > 0 && |Chunk(ps[k], compress)| > 0
  }

  /** Everything that a number of appends puts into the record. */
  function Joined(ps: seq<Piece>, compress: bool): seq<byte>
  {
    if ps == [] then [] else Joined(ps[..|ps| - 1], compress) + Chunk(ps[|ps| - 1], compress)
  }

  lemma {:induction false} JoinedSplit(ps: seq<Piece>, k: nat, compress: bool)
    requires k <= |ps|
    ensures |Joined(ps[..k], compress)| <= |Joined(ps, compress)|
    ensures k < |ps| ==> Joined(ps[..k + 1], compress) == Joined(ps[..k], compress) + Chunk(ps[k], compress)
    decreases |ps| - k
  {
    if k == |ps| {
      assert ps[..k] == ps;
    } else {
      assert ps[..k + 1][..k] == ps[..k];
      JoinedSplit(ps, k + 1, compress);
    }
  }

  // ---- The buffer ----

  class LogBuffer {
    const buff: PtrBuffer
    const crypt: LogCrypt
    const isCompress: bool
    var streamOpen: bool // whether the deflate stream is initialised
    var remain: nat      // octets at the end of the body that are not encrypted yet
    ghost var base: seq<byte>  // the body found on attaching
    ghost var plain: seq<byte> // what was appended to it since

    ghost predicate Valid()
      reads this, buff, buff.parray, crypt
    {
      && buff.Valid() && crypt.Valid() && buff.maxLength == buff.parray.Length && buff.pos == buff.length
      && (crypt.isCrypt ==> isCompress)
      && State(buff.parray[..], buff.length, remain, base, plain, streamOpen)
    }

    /** Memory, length and remainder always agree: in particular the length can be had back
        from memory alone. */
    ghost predicate State(mem: seq<byte>, length: nat, remain: nat, base: seq<byte>, plain: seq<byte>, open: bool)
    {
      && Attachable(mem) && length == AttachedLength(mem)
      && remain == (if crypt.isCrypt then |plain| % BLOCK_LEN else 0)
      && (isCompress && base != [] ==> plain == [] && !open)
      && (if length == 0 then base == [] && plain == [] && !open
          else mem[HEADER_LEN..length] == base + Stored(plain))
    }

    function Stored(s: seq<byte>): (r: seq<byte>)
      ensures |r| == |s|
    {
      if crypt.isCrypt then Encrypt(s, crypt.teaKey) else s
    }

    /** Attaches to memory, taking over the record that it holds; a header that announces more
        than the memory can hold is cut down to it. */
    constructor (mem: array<byte>, isCompress: bool, crypt: LogCrypt)
      requires crypt.Valid()
      modifies crypt
      ensures crypt == this.crypt && this.isCompress == (isCompress || crypt.isCrypt) && !streamOpen && remain == 0
      ensures buff.parray == mem && buff.maxLength == mem.Length && fresh(buff) && buff.Valid() && buff.pos == buff.length
      ensures buff.length == (if mem.Length < HEADER_LEN || !IsMagic(mem[0]) then 0
                              else Clamp(HEADER_LEN + GetLogLen(mem[..]), mem.Length))
      ensures Attachable(mem[..]) ==> Valid() && buff.length == AttachedLength(mem[..]) && plain == []
    {
      this.crypt := crypt;
      this.isCompress := isCompress || crypt.isCrypt;
      streamOpen, remain := false, 0;
      var b := new PtrBuffer.Attach(mem, mem.Length, mem.Length);
      buff := b;
      base, plain := [], [];
      new;
      var found, isAsync, rawLen := crypt.Fix(mem[..]);
      if found {
        buff.SetLength(rawLen + HEADER_LEN, rawLen + HEADER_LEN);
        base := if buff.length >= HEADER_LEN then mem[..][HEADER_LEN..buff.length] else [];
      } else {
        buff.SetLength(0, 0);
      }
    }

    /** Zeroes the record and forgets it. */
    method Clear()
      requires buff.Valid() && crypt.Valid() && Attachable(buff.parray[..]) && buff.maxLength == buff.parray.Length
      requires crypt.isCrypt ==> isCompress
      requires buff.length == 0 ==> !IsMagic(buff.parray[0])
      requires !streamOpen
      modifies this`remain, this`base, this`plain, buff, buff.parray
      ensures Valid() && buff.length == 0 && buff.parray == old(buff.parray)
      ensures buff.parray[..] == seq(old(buff.length), _ => 0) + old(buff.parray[buff.length..])
    {
      var mem, n := buff.parray, buff.length;
      forall i | 0 <= i < n {
        mem[i] := 0;
      }
      buff.SetLength(0, 0);
      remain, base, plain := 0, [], [];
      assert mem[..] == seq(n, _ => 0) + old(mem[n..]);
    }

    /** Starts a record: an empty body behind a new header. */
    method Reset(initOk: bool, hour: byte) returns (ok: bool)
      requires Valid() && buff.length == 0
      modifies this, buff, buff.parray, crypt
      ensures Valid() && buff.parray == old(buff.parray)
      ensures ok <==> !isCompress || initOk
      ensures base == [] && plain == [] && buff.length == (if ok then HEADER_LEN else 0)
      ensures ok ==> streamOpen == (old(streamOpen) || isCompress)
      ensures ok ==> HeaderFor(buff.parray[..], isCompress, crypt.isCrypt, crypt.seqNo, hour, crypt.clientPubkey)
    {
      Clear();
      if isCompress {
        if !initOk {
          return false;
        }
        streamOpen := true;
      }
      ghost var mem := buff.parray[..];
      crypt.SetHeaderInfo(buff.parray, isCompress, hour);
      HeaderWritten(mem, crypt.Magic(isCompress), crypt.seqNo, hour, crypt.clientPubkey);
      buff.SetLength(HEADER_LEN, HEADER_LEN);
      ok := true;
    }

    /** Appends one piece of log data; `deflated` is what the compressor makes of it. Fails
        without changing the body if there is nothing to write or the compressor fails. While
        it works on a non-empty buffer, memory stays recoverable after every single store. */
    method Write(data: seq<byte>, deflated: seq<byte>, initOk: bool, deflateOk: bool, hour: byte)
      returns (ok: bool, ghost images: seq<seq<byte>>)
      requires Valid() && (isCompress ==> |deflated| > 0)
      requires (if buff.length == 0 then HEADER_LEN else buff.length) + |if isCompress then deflated else data| + TAILER_LEN
               <= buff.maxLength
      modifies this, buff, buff.parray, crypt
      ensures Valid() && buff.parray == old(buff.parray) && |buff.parray[..]| == |old(buff.parray[..])|
      ensures base == old(base)
      ensures ok == (|data| > 0 && (isCompress ==> deflateOk && (old(streamOpen) || (old(buff.length) == 0 && initOk))))
      ensures plain == if ok then old(plain) + (if isCompress then deflated else data) else old(plain)
      ensures ok ==> buff.length == HEADER_LEN + |base| + |plain| && (isCompress ==> streamOpen)
      ensures ok && old(buff.length) == 0 ==>
        HeaderFor(buff.parray[..], isCompress, crypt.isCrypt, crypt.seqNo, hour, crypt.clientPubkey)
      ensures ok && old(buff.length) != 0 ==>
        KeepsHeader(old(buff.parray[..]), buff.parray[..]) && crypt.seqNo == old(crypt.seqNo)
      ensures old(buff.length) != 0 ==>
        && AllRecoverable(images, old(buff.parray[..]), buff.parray[..], old(buff.length) - old(remain))
        && Stores(images, old(buff.parray[..]), buff.parray[..])
    {
      hide State, Stored, Encrypt, LE32, AllRecoverable, Stores, HeaderFor, KeepsHeader, Attachable, AttachedLength;
      images := [];
      NothingStored(buff.parray[..], buff.length - remain);
      RecordFacts();
      if |data| == 0 {
        return false, [];
      }
      if buff.length == 0 {
        var started := Reset(initOk, hour);
        if !started {
          return false, [];
        }
      }
      if isCompress && !(streamOpen && deflateOk) {
        return false, [];
      }
      ghost var m := buff.parray[..];
      images := Append(data, deflated);
      RecordFacts();
      if old(buff.length) == 0 {
        HeaderKept(m, buff.parray[..], isCompress, crypt.isCrypt, crypt.seqNo, hour, crypt.clientPubkey);
      }
      ok := true;
    }

    lemma RecordFacts()
      requires Valid()
      ensures buff.length == 0 ==> base == [] && plain == [] && !streamOpen
      ensures buff.length != 0 ==> buff.length == HEADER_LEN + |base| + |plain| && remain <= |plain|
    {}

    /** A number of appends, one after the other, to a buffer without an earlier body: all of
        them succeed, and the body is the one-shot encryption of everything appended, with the
        octets of the last incomplete block as they are and counted in remain. */
    method WriteAll(ps: seq<Piece>, hour: byte)
      requires Valid() && base == [] && (isCompress && buff.length != 0 ==> streamOpen)
      requires NonEmpty(ps, isCompress)
      requires HEADER_LEN + |plain| + |Joined(ps, isCompress)| + TAILER_LEN <= buff.maxLength
      modifies this, buff, buff.parray, crypt
      ensures Valid() && base == [] && (isCompress && buff.length != 0 ==> streamOpen)
      ensures buff.parray == old(buff.parray) && plain == old(plain) + Joined(ps, isCompress)
      ensures plain != [] ==>
        && buff.length == HEADER_LEN + |plain| && GetLogLen(buff.parray[..]) == |plain|
        && buff.parray[HEADER_LEN..buff.length] == Stored(plain)
        && remain == if crypt.isCrypt then |plain| % BLOCK_LEN else 0
    {
      hide Encrypt, LE32, Joined, Stored, State;
      ghost var was := plain;
      assert Joined(ps[..0], isCompress) == [] by { NothingJoined(ps, isCompress); }
      for k := 0 to |ps|
        invariant Valid() && base == [] && (isCompress && buff.length != 0 ==> streamOpen)
        invariant buff.parray == old(buff.parray) && buff.maxLength == old(buff.maxLength)
        invariant plain == was + Joined(ps[..k], isCompress)
      {
        JoinedSplit(ps, k, isCompress);
        JoinedSplit(ps, k + 1, isCompress);
        LengthOfRecord();
        var ok;
        ghost var images;
        ok, images := Write(ps[k].data, ps[k].deflated, true, true, hour);
        assert was + Joined(ps[..k], isCompress) + Chunk(ps[k], isCompress) == was + Joined(ps[..k + 1], isCompress);
      }
      assert ps[..|ps|] == ps;
      if plain != [] {
        BodyOfRecord();
      }
    }

    lemma LengthOfRecord()
      requires Valid() && base == []
      ensures buff.length == 0 ==> plain == []
      ensures buff.length != 0 ==> buff.length == HEADER_LEN + |plain|
    {}

    lemma BodyOfRecord()
      requires Valid() && base == [] && plain != []
      ensures buff.length == HEADER_LEN + |plain| && GetLogLen(buff.parray[..]) == |plain|
      ensures buff.parray[HEADER_LEN..buff.length] == Stored(plain)
      ensures remain == if crypt.isCrypt then |plain| % BLOCK_LEN else 0
    {
      assert buff.parray[..][HEADER_LEN..buff.length] == buff.parray[HEADER_LEN..buff.length];
      assert base + Stored(plain) == Stored(plain);
    }

    /** How the stored body grows: what is left unencrypted at its end is encrypted together
        with the new data, the rest stays. */
    lemma BodyAppend(body: seq<byte>, kept: nat, base: seq<byte>, s: seq<byte>, chunk: seq<byte>, out: seq<byte>)
      requires crypt.isCrypt ==> base == []
      requires body == base + Stored(s) && kept == |body| - (if crypt.isCrypt then |s| % BLOCK_LEN else 0)
      requires out == Stored(body[kept..] + chunk)
      ensures body[..kept] + out == base + Stored(s + chunk)
    {
      hide Encrypt;
      if crypt.isCrypt {
        assert body == Stored(s) && base + Stored(s + chunk) == Stored(s + chunk);
        EncryptTail(s, crypt.teaKey);
        EncryptAppend(s, chunk, crypt.teaKey);
      } else {
        assert body[kept..] + chunk == chunk;
        assert body[..kept] + chunk == base + (s + chunk);
      }
    }

    /** The append proper, to a record that has been started. */
    method Append(data: seq<byte>, deflated: seq<byte>) returns (ghost images: seq<seq<byte>>)
      requires Valid() && buff.length != 0 && (isCompress ==> streamOpen)
      requires buff.length + |if isCompress then deflated else data| + TAILER_LEN <= buff.maxLength
      modifies this`remain, this`plain, buff, buff.parray
      ensures Valid() && buff.parray == old(buff.parray)
      ensures plain == old(plain) + (if isCompress then deflated else data)
      ensures KeepsHeader(old(buff.parray[..]), buff.parray[..])
      ensures AllRecoverable(images, old(buff.parray[..]), buff.parray[..], old(buff.length) - old(remain))
      ensures Stores(images, old(buff.parray[..]), buff.parray[..])
    {
      hide State, Stored, Encrypt, LE32, ToLE32, Appended, AllRecoverable, Stores, KeepsHeader;
      hide Overwrite, AgreeOutside, AllAgreeOutside, Attachable, AttachedLength, GetLogLen;
      var chunk, len := if isCompress then deflated else data, buff.length;
      ghost var m0, rem := buff.parray[..], remain;
      images := Stage(chunk);
      ghost var m1 := buff.parray[..];
      Staged(m0, m1, len, chunk);
      StateFacts(m0, m1, len, rem);
      ghost var out, images2, m2 := Rewrite(len, |chunk|, |plain|);
      ghost var m3 := buff.parray[..];
      assert out == Stored(m1[len - rem..len + |chunk|]);
      StoresAppend(m0, m1, m2, m3, len, len - rem, chunk, out, len + |chunk| - HEADER_LEN);
      AppendState(m0, m3, len, rem, chunk, out, remain);
      AppendedBehindHeader(m0, m3, len - rem, out);
      AppendImages(images, images2, m0, m1, m2, m3, len - rem, len + |chunk|, len, len + |chunk| - HEADER_LEN);
      plain := plain + chunk;
      images := images + images2 + [m3];
      assert buff.parray[..] == m3;
    }

    lemma StateFacts(m0: seq<byte>, m1: seq<byte>, len: nat, rem: nat)
      requires State(m0, len, rem, base, plain, streamOpen) && len > 0
      requires |m0| == |m1| && forall i :: 0 <= i < len ==> m0[i] == m1[i]
      ensures Attachable(m0) && AttachedLength(m0) == len && HEADER_LEN + rem <= len && |m0| < TWO_32
      ensures IsMagic(m1[0]) && GetLogLen(m1) == len - HEADER_LEN
      ensures rem == if crypt.isCrypt then |plain| % BLOCK_LEN else 0
    {
      SameHeader(m0, m1);
    }

    lemma StartedState(m0: seq<byte>, len: nat, rem: nat)
      requires State(m0, len, rem, base, plain, streamOpen) && len > 0
      ensures Attachable(m0) && AttachedLength(m0) == len && HEADER_LEN <= len - rem <= len <= |m0|
      ensures m0[HEADER_LEN..len] == base + Stored(plain)
    {}

    /** The stores of an append lead to memory that holds the longer record. */
    lemma AppendState(m0: seq<byte>, m3: seq<byte>, len: nat, rem: nat, chunk: seq<byte>, out: seq<byte>, rem': nat)
      requires State(m0, len, rem, base, plain, streamOpen) && len > 0
      requires (crypt.isCrypt ==> isCompress) && (isCompress ==> streamOpen)
      requires len + |chunk| + TAILER_LEN <= |m0| && rem <= len
      requires out == Stored(m0[len - rem..len] + chunk) && Appended(m0, m3, len - rem, out)
      requires rem' == if crypt.isCrypt then (|plain| + |chunk|) % BLOCK_LEN else 0
      ensures State(m3, len + |chunk|, rem', base, plain + chunk, streamOpen) && Attachable(m3)
    {
      var from := len - rem;
      hide Encrypt, LE32, ToLE32, Appended, GetLogLen, Attachable, AttachedLength;
      StartedState(m0, len, rem);
      AppendedRecord(m0, m3, from, out);
      SliceParts(m0, HEADER_LEN, from, len);
      BodyAppend(m0[HEADER_LEN..len], from - HEADER_LEN, base, plain, chunk, out);
    }

    /** The stored form of one piece of data; `total` is the length of all of it so far. */
    method EncryptInput(input: seq<byte>, ghost total: nat) returns (out: seq<byte>)
      requires crypt.isCrypt ==> |input| % BLOCK_LEN == total % BLOCK_LEN
      modifies this`remain
      ensures out == Stored(input) && remain == if crypt.isCrypt then total % BLOCK_LEN else 0
    {
      var outBuffer := new AutoBuffer();
      remain := crypt.CryptAsyncLog(input, outBuffer);
      out := outBuffer.parray[..outBuffer.length];
    }

    /** Encrypts again from the octets left over last time, and counts the new data in. */
    method Rewrite(len: nat, writeLen: nat, ghost total: nat)
      returns (ghost out: seq<byte>, ghost images: seq<seq<byte>>, ghost m2: seq<byte>)
      requires buff.Valid() && HEADER_LEN + remain <= len && len + writeLen <= buff.maxLength == buff.parray.Length
      requires buff.length == if isCompress then len else len + writeLen
      requires IsMagic(buff.parray[0]) && GetLogLen(buff.parray[..]) == len - HEADER_LEN && len + writeLen < TWO_32
      requires remain == if crypt.isCrypt then total % BLOCK_LEN else 0
      modifies this`remain, buff, buff.parray
      ensures buff.Valid() && buff.parray == old(buff.parray) && buff.maxLength == old(buff.maxLength)
      ensures buff.pos == buff.length == len + writeLen
      ensures remain == if crypt.isCrypt then (total + writeLen) % BLOCK_LEN else 0
      ensures out == Stored(old(buff.parray[..])[len - old(remain)..len + writeLen])
      ensures m2 == Overwrite(old(buff.parray[..]), len - old(remain), out)
      ensures buff.parray[..] == Overwrite(m2, LENGTH_AT, ToLE32(len + writeLen - HEADER_LEN))
      ensures AllAgreeOutside(images, old(buff.parray[..]), len - old(remain), len + writeLen)
      ensures Stores(images, old(buff.parray[..]), m2)
    {
      hide Encrypt, LE32, ToLE32, Stored, Stores, LittleEndian;
      ghost var m1, from := buff.parray[..], len - remain;
      out, images := Reencrypt(len, writeLen, total);
      m2 := buff.parray[..];
      assert m2[..HEADER_LEN] == m1[..HEADER_LEN];
      LengthInHeader(m1);
      CountIn(writeLen, len - HEADER_LEN);
    }

    /** Counts new octets into the length field. */
    method CountIn(writeLen: nat, ghost was: nat)
      requires buff.parray.Length >= HEADER_LEN && GetLogLen(buff.parray[..HEADER_LEN]) == was && was + writeLen < TWO_32
      modifies buff.parray
      ensures buff.parray[..] == Overwrite(old(buff.parray[..]), LENGTH_AT, ToLE32(was + writeLen))
    {
      hide LE32, ToLE32, GetLogLen, LittleEndian;
      crypt.UpdateLogLen(buff.parray, writeLen);
    }

    /** The part of Rewrite before the length field: the tail and the new data encrypted in
        place, and the buffer's length set behind them. */
    method Reencrypt(len: nat, writeLen: nat, ghost total: nat) returns (ghost out: seq<byte>, ghost images: seq<seq<byte>>)
      requires buff.Valid() && HEADER_LEN + remain <= len && len + writeLen <= buff.maxLength == buff.parray.Length
      requires buff.length == if isCompress then len else len + writeLen
      requires remain == if crypt.isCrypt then total % BLOCK_LEN else 0
      modifies this`remain, buff, buff.parray
      ensures buff.Valid() && buff.parray == old(buff.parray) && buff.maxLength == old(buff.maxLength)
      ensures buff.pos == buff.length == len + writeLen
      ensures remain == if crypt.isCrypt then (total + writeLen) % BLOCK_LEN else 0
      ensures out == Stored(old(buff.parray[..])[len - old(remain)..len + writeLen])
      ensures buff.parray[..] == Overwrite(old(buff.parray[..]), len - old(remain), out)
      ensures AllAgreeOutside(images, old(buff.parray[..]), len - old(remain), len + writeLen)
      ensures Stores(images, old(buff.parray[..]), buff.parray[..])
    {
      hide Encrypt, Stored, Stores;
      var from := len - remain;
      var input := buff.parray[..][from..len + writeLen];
      ModAdd(total, writeLen, BLOCK_LEN);
      var outBytes := EncryptInput(input, total + writeLen);
      assert outBytes[..|outBytes|] == outBytes;
      images := buff.WriteAt(outBytes, from);
      var newLen := from + |outBytes|;
      buff.SetLength(newLen, newLen);
      out := outBytes;
    }

    /** Puts new data behind the record, without counting it in yet if it comes from the
        compressor. */
    method Stage(chunk: seq<byte>) returns (ghost images: seq<seq<byte>>)
      requires buff.Valid() && buff.pos == buff.length && buff.length + |chunk| <= buff.maxLength
      modifies buff, buff.parray
      ensures buff.Valid() && buff.parray == old(buff.parray) && buff.maxLength == old(buff.maxLength)
      ensures buff.length == if isCompress then old(buff.length) else old(buff.length) + |chunk|
      ensures buff.parray[..] == Overwrite(old(buff.parray[..]), old(buff.length), chunk)
      ensures AllAgreeOutside(images, old(buff.parray[..]), old(buff.length), old(buff.length) + |chunk|)
      ensures Stores(images, old(buff.parray[..]), buff.parray[..])
    {
      if isCompress {
        images := StoreBytes(buff.parray, buff.length, chunk);
      } else {
        images := buff.Write(chunk);
        assert chunk[..|chunk|] == chunk;
      }
    }

    /** Hands the record over, as a whole frame or as its bare body, and clears the buffer. */
    method Flush(out: AutoBuffer, hour: byte, framed: bool)
      requires Valid() && out.Valid() && out.pos == out.length && out.parray != buff.parray
      modifies this, buff, buff.parray, out, out.parray
      ensures Valid() && buff.length == 0 && buff.parray == old(buff.parray)
      ensures out.Valid() && out.pos == out.length && (out.parray == old(out.parray) || fresh(out.parray))
      ensures out.Contents() == old(out.Contents()) + FlushOutput(old(buff.parray[..]), hour, framed)
      ensures buff.parray[..] == Cleared(old(buff.parray[..]))
    {
      hide State, Encrypt, LE32, Cleared, FlushOutput;
      var mem, len := buff.parray, buff.length;
      ghost var m0 := mem[..];
      FlushFacts(m0, len);
      streamOpen := false;
      if GetLogLen(mem[..len]) == 0 {
        NothingFlushed(m0, len, hour, framed);
        Clear();
        return;
      }
      Deliver(out, hour, framed);
      Clear();
      ClearedRecord(m0, len);
    }

    /** Closes the record and writes it, or its body, to out. */
    method Deliver(out: AutoBuffer, hour: byte, framed: bool)
      requires buff.Valid() && buff.maxLength == buff.parray.Length && Attachable(buff.parray[..])
      requires HEADER_LEN <= buff.length == AttachedLength(buff.parray[..]) && GetLogLen(buff.parray[..buff.length]) != 0
      requires out.Valid() && out.pos == out.length && out.parray != buff.parray
      modifies buff, buff.parray, out, out.parray
      ensures buff.Valid() && buff.parray == old(buff.parray) && buff.maxLength == old(buff.maxLength)
      ensures buff.length == old(buff.length) + TAILER_LEN && Attachable(buff.parray[..])
      ensures buff.parray[..][buff.length..] == old(buff.parray[..])[buff.length..]
      ensures out.Valid() && out.pos == out.length && (out.parray == old(out.parray) || fresh(out.parray))
      ensures out.Contents() == old(out.Contents()) + FlushOutput(old(buff.parray[..]), hour, framed)
    {
      hide LE32;
      ghost var m0, len := buff.parray[..], buff.length;
      Close(hour);
      var frame := buff.parray[..buff.length];
      var piece := if !framed then frame[HEADER_LEN..buff.length - TAILER_LEN] else frame;
      assert piece == FlushOutput(m0, hour, framed);
      hide FlushOutput;
      out.Write(piece);
    }

    /** Stamps the end hour into the header and puts the tailer behind the body. */
    method Close(hour: byte)
      requires buff.Valid() && buff.maxLength == buff.parray.Length && Attachable(buff.parray[..])
      requires HEADER_LEN <= buff.length == AttachedLength(buff.parray[..])
      modifies buff, buff.parray
      ensures buff.Valid() && buff.parray == old(buff.parray) && buff.maxLength == old(buff.maxLength)
      ensures buff.length == old(buff.length) + TAILER_LEN && Attachable(buff.parray[..])
      ensures var frame := buff.parray[..buff.length];
        && frame == old(buff.parray[..])[..old(buff.length)][END_HOUR_AT := hour] + [MAGIC_END]
        && frame[HEADER_LEN..old(buff.length)] == old(buff.parray[..])[HEADER_LEN..old(buff.length)]
      ensures buff.parray[..][buff.length..] == old(buff.parray[..])[buff.length..]
    {
      var mem, len := buff.parray, buff.length;
      ghost var m0 := mem[..];
      hide LE32;
      crypt.UpdateLogHour(mem, hour);
      mem[len] := MAGIC_END;
      buff.SetLength(len + TAILER_LEN, len + TAILER_LEN);
      StillAttachable(m0, mem[..], len);
    }

    lemma FlushFacts(m0: seq<byte>, len: nat)
      requires State(m0, len, remain, base, plain, streamOpen)
      ensures Attachable(m0) && len == AttachedLength(m0) && (len > 0 ==> HEADER_LEN <= len < |m0|)
      ensures len == 0 ==> !IsMagic(m0[0]) && GetLogLen(m0[..len]) == 0
    {}
  }

  lemma StillAttachable(m0: seq<byte>, m1: seq<byte>, len: nat)
    requires Attachable(m0) && len == AttachedLength(m0) > 0 && |m1| == |m0|
    requires forall i :: 0 <= i < len && i != END_HOUR_AT ==> m1[i] == m0[i]
    ensures Attachable(m1)
  {
    assert m1[LENGTH_AT..LENGTH_AT + 4] == m0[LENGTH_AT..LENGTH_AT + 4];
  }

  /** Memory after a flush: the record and its tailer are zeroed. */
  function Cleared(mem: seq<byte>): seq<byte>
    requires Attachable(mem)
  {
    var len := AttachedLength(mem);
    var n := if GetLogLen(mem[..len]) == 0 then len else len + TAILER_LEN;
    seq(|mem|, i requires 0 <= i < |mem| => if i < n then 0 else mem[i])
  }

  /** Flushing zeroes a record and its closing octet, or just the header of an empty one. */
  lemma ClearedIs(mem: seq<byte>, len: uint32)
    requires Attachable(mem) && 6 <= mem[0] <= 9 && LittleEndian(mem, 5, len)
    ensures var n := if len == 0 then 73 else 73 + len + 1;
            n <= |mem| && Cleared(mem) == seq(n, _ => 0) + mem[n..]
  {
    hide LittleEndian;
    LengthField(mem);
    SameFieldBelow(mem, 73 + len);
    var n := if len == 0 then 73 else 73 + len + 1;
    assert Cleared(mem) == seq(n, _ => 0) + mem[n..];
  }

  lemma NothingFlushed(m0: seq<byte>, len: nat, hour: byte, framed: bool)
    requires Attachable(m0) && len == AttachedLength(m0) && GetLogLen(m0[..len]) == 0
    ensures FlushOutput(m0, hour, framed) == [] && Cleared(m0) == seq(len, _ => 0) + m0[len..]
  {
    assert Cleared(m0) == seq(len, _ => 0) + m0[len..];
  }

  lemma ClearedRecord(m0: seq<byte>, len: nat)
    requires Attachable(m0) && len == AttachedLength(m0) && GetLogLen(m0[..len]) != 0
    ensures len + TAILER_LEN <= |m0| && Cleared(m0) == seq(len + TAILER_LEN, _ => 0) + m0[len + TAILER_LEN..]
  {
    assert Cleared(m0) == seq(len + TAILER_LEN, _ => 0) + m0[len + TAILER_LEN..];
  }

  lemma RecoverableStores(first: seq<seq<byte>>, second: seq<seq<byte>>, m0: seq<byte>, m1: seq<byte>, m3: seq<byte>,
                          from: nat, hi: nat, len: nat)
    requires Attachable(m0) && Attachable(m3) && HEADER_LEN <= from <= len == AttachedLength(m0) <= hi
    requires AgreeOutside(m1, m0, len, hi)
    requires AllAgreeOutside(first, m0, len, hi) && AllAgreeOutside(second, m1, from, hi)
    ensures AllRecoverable(first + second + [m3], m0, m3, from)
  {
    forall k | 0 <= k < |first|
      ensures Recoverable(first[k], m0, m3, from)
    {
      StillRecoverable(first[k], m0, m3, from, hi);
    }
    forall k | 0 <= k < |second|
      ensures Recoverable(second[k], m0, m3, from)
    {
      StillRecoverable(second[k], m0, m3, from, hi);
    }
  }

  /** Memory is recoverable after every single store of an append. */
  lemma AppendImages(first: seq<seq<byte>>, second: seq<seq<byte>>, m0: seq<byte>, m1: seq<byte>, m2: seq<byte>,
                     m3: seq<byte>, from: nat, hi: nat, len: nat, field: uint32)
    requires Attachable(m0) && Attachable(m3) && HEADER_LEN <= from <= len == AttachedLength(m0) <= hi
    requires AgreeOutside(m1, m0, len, hi)
    requires AllAgreeOutside(first, m0, len, hi) && AllAgreeOutside(second, m1, from, hi)
    requires Stores(first, m0, m1) && Stores(second, m1, m2)
    requires 9 <= |m2| && m3 == Overwrite(m2, LENGTH_AT, ToLE32(field))
    ensures AllRecoverable(first + second + [m3], m0, m3, from) && Stores(first + second + [m3], m0, m3)
  {
    hide Attachable, AttachedLength, AgreeOutside, AllAgreeOutside, AllRecoverable, Stores, ToLE32;
    RecoverableStores(first, second, m0, m1, m3, from, hi, len);
    StoresThenStores(first, second, m0, m1, m2);
    LengthStored(m2, m3, field);
    StoresThenStores(first + second, [m3], m0, m2, m3);
  }

  lemma NothingStored(m: seq<byte>, kept: int)
    ensures kept >= 0 ==> AllRecoverable([], m, m, kept)
    ensures Stores([], m, m)
  {}

  // ---- Recovery ----

  /** A new buffer attached to the memory that another one worked on, at any time between its
      operations, flushes what the old one would have flushed. */
  method ReattachAndFlush(left: LogBuffer, isCompress: bool, crypt: LogCrypt, out: AutoBuffer, hour: byte, framed: bool)
    returns (b: LogBuffer)
    requires left.Valid() && crypt.Valid() && out.Valid() && out.pos == out.length && out.parray != left.buff.parray
    modifies crypt, out, out.parray, left.buff.parray
    ensures out.Valid() && out.Contents() == old(out.Contents()) + FlushOutput(old(left.buff.parray[..]), hour, framed)
  {
    b := new LogBuffer(left.buff.parray, isCompress, crypt);
    b.Flush(out, hour, framed);
  }

  /** The flushed record of a buffer that was started empty: decrypting its body gives the
      concatenation of everything that was appended. */
  lemma FlushedBodyDecrypts(b: LogBuffer, hour: byte)
    requires b.Valid() && b.base == [] && b.plain != [] && b.crypt.isCrypt
    ensures FlushOutput(b.buff.parray[..], hour, false) == Encrypt(b.plain, b.crypt.teaKey)
    ensures Decrypt(FlushOutput(b.buff.parray[..], hour, false), b.crypt.teaKey) == b.plain
  {
    hide Encrypt, Decrypt, LE32;
    BodyDelivered(b, hour);
    EncryptRoundTrip(b.plain, b.crypt.teaKey);
  }

  /** What is delivered after a crash in the middle of an append: the whole new body, or a body
      as long as the old one that agrees with it up to `kept`, that is, in all but the octets
      of the old body's last, incomplete block. */
  lemma CrashDelivers(image: seq<byte>, before: seq<byte>, after: seq<byte>, kept: nat, hour: byte)
    requires Recoverable(image, before, after, kept) && HEADER_LEN <= kept <= AttachedLength(before)
    ensures var (x, b, a) :=
        (FlushOutput(image, hour, false), FlushOutput(before, hour, false), FlushOutput(after, hour, false));
      x == a || (|x| == |b| && kept - HEADER_LEN <= |b| && x[..kept - HEADER_LEN] == b[..kept - HEADER_LEN])
  {
    hide LE32;
    if image != after {
      var len := AttachedLength(before);
      SameFieldBelow(image, len);
      SameFieldBelow(before, len);
      var (x, b) := (FlushOutput(image, hour, false), FlushOutput(before, hour, false));
      if len > HEADER_LEN {
        assert x == image[HEADER_LEN..len] && b == before[HEADER_LEN..len];
        assert forall i :: HEADER_LEN <= i < kept ==> image[i] == image[..kept][i] == before[..kept][i] == before[i];
        assert forall i :: 0 <= i < kept - HEADER_LEN ==> x[i] == image[HEADER_LEN + i] && b[i] == before[HEADER_LEN + i];
      } else {
        assert x == [] == b;
      }
    }
  }

  lemma SameFieldBelow(mem: seq<byte>, len: nat)
    requires HEADER_LEN <= len <= |mem|
    ensures GetLogLen(mem[..len]) == GetLogLen(mem)
  {
    assert mem[..len][LENGTH_AT..LENGTH_AT + 4] == mem[LENGTH_AT..LENGTH_AT + 4];
  }

  /** How the data was cut into appends does not show: two buffers with the same key that were
      started empty and given the same octets deliver the same body. */
  lemma ChunkingDoesNotMatter(b: LogBuffer, c: LogBuffer, hour: byte)
    requires b.Valid() && c.Valid() && b.base == c.base == [] && b.plain == c.plain != []
    requires b.crypt.isCrypt == c.crypt.isCrypt && b.crypt.teaKey == c.crypt.teaKey
    ensures FlushOutput(b.buff.parray[..], hour, false) == FlushOutput(c.buff.parray[..], hour, false)
    ensures b.remain == c.remain && b.buff.length == c.buff.length
  {
    hide Encrypt, LE32;
    BodyDelivered(b, hour);
    BodyDelivered(c, hour);
  }

  lemma NothingJoined(ps: seq<Piece>, compress: bool)
    ensures Joined(ps[..0], compress) == []
  {}

  /** Two empty buffers of one kind with the same key, filled with pieces that amount to the
      same octets, deliver the same body when flushed: its one-shot encryption. */
  method SameHoweverCut(b: LogBuffer, c: LogBuffer, ps: seq<Piece>, qs: seq<Piece>, hour: byte)
    returns (fromB: seq<byte>, fromC: seq<byte>)
    requires b.Valid() && c.Valid() && b.buff.length == 0 && c.buff.length == 0
    requires {b, b.buff, b.buff.parray, b.crypt} !! {c, c.buff, c.buff.parray, c.crypt}
    requires b.isCompress == c.isCompress && b.crypt.isCrypt == c.crypt.isCrypt && b.crypt.teaKey == c.crypt.teaKey
    requires NonEmpty(ps, b.isCompress) && NonEmpty(qs, b.isCompress)
    requires Joined(ps, b.isCompress) == Joined(qs, b.isCompress)
    requires HEADER_LEN + |Joined(ps, b.isCompress)| + TAILER_LEN <= b.buff.maxLength
    requires HEADER_LEN + |Joined(ps, b.isCompress)| + TAILER_LEN <= c.buff.maxLength
    modifies b, b.buff, b.buff.parray, b.crypt, c, c.buff, c.buff.parray, c.crypt
    ensures fromB == fromC == b.Stored(Joined(ps, b.isCompress))
  {
    fromB := WriteAndFlush(b, ps, hour);
    fromC := WriteAndFlush(c, qs, hour);
  }

  method WriteAndFlush(b: LogBuffer, ps: seq<Piece>, hour: byte) returns (body: seq<byte>)
    requires b.Valid() && b.buff.length == 0
    requires NonEmpty(ps, b.isCompress)
    requires HEADER_LEN + |Joined(ps, b.isCompress)| + TAILER_LEN <= b.buff.maxLength
    modifies b, b.buff, b.buff.parray, b.crypt
    ensures b.Valid() && b.buff.length == 0 && body == b.Stored(Joined(ps, b.isCompress))
  {
    hide Encrypt, LE32, Joined;
    var out := new AutoBuffer();
    ghost var all := Joined(ps, b.isCompress);
    b.WriteAll(ps, hour);
    assert [] + all == all;
    if all == [] {
      EmptyDelivered(b, hour);
    } else {
      BodyDelivered(b, hour);
    }
    b.Flush(out, hour, false);
    body := out.parray[..out.length];
    assert body == [] + b.Stored(all);
  }

  lemma EmptyDelivered(b: LogBuffer, hour: byte)
    requires b.Valid() && b.base == [] && b.plain == []
    ensures FlushOutput(b.buff.parray[..], hour, false) == [] == b.Stored([])
  {
    var mem, len := b.buff.parray[..], b.buff.length;
    hide LE32;
    if len != 0 {
      assert mem[HEADER_LEN..len] == b.base + b.Stored(b.plain) == [];
    }
    if len >= HEADER_LEN {
      SameFieldBelow(mem, len);
    }
  }

  lemma BodyDelivered(b: LogBuffer, hour: byte)
    requires b.Valid() && b.base == [] && b.plain != []
    ensures FlushOutput(b.buff.parray[..], hour, false) == b.Stored(b.plain)
    ensures b.buff.length == HEADER_LEN + |b.plain|
  {
    var mem, len := b.buff.parray[..], b.buff.length;
    hide Encrypt, LE32;
    assert mem[HEADER_LEN..len] == b.base + b.Stored(b.plain) == b.Stored(b.plain);
    SameFieldBelow(mem, len);
  }
}
