/** The scanner that selects the records of a log file by hour, looking for the next record
    octet by octet wherever the file is not well formed. */
module PeriodLogs {
  import opened ByteStrings
  import opened LogCrypts
  import opened LogBuffers

  /** What the scan carries along. */
  datatype Scan = Scan(found: bool, begin: nat, end: nat, lastHour: int, lastPos: nat)

  /** A `char` as a number; its signedness is the platform's. */
  function CharValue(b: byte, signed: bool): (v: int)
    ensures 0 <= b < 128 || !signed ==> v == b
    ensures b >= 128 && signed ==> v == b - 256
  {
    if signed && b >= 128 then b - 256 else b
  }

  /** Whether a whole record stands at pos, and where it ends. */
  predicate RecordAt(file: seq<byte>, pos: nat)
    requires pos + HEADER_LEN + TAILER_LEN <= |file|
  {
    IsMagic(file[pos]) &&
    var end := RecordEnd(file, pos); end <= |file| && file[end - 1] == MAGIC_END
  }

  /** A record is a magic number, room for the header, for as many octets as its length field says and
      for one more, and that one is 0. */
  lemma RecordIs(file: seq<byte>, pos: nat, len: uint32)
    requires pos + 74 <= |file| && LittleEndian(file, pos + 5, len)
    ensures RecordAt(file, pos) <==> 6 <= file[pos] <= 9 && pos + 73 + len + 1 <= |file| && file[pos + 73 + len] == 0
    ensures RecordAt(file, pos) ==> RecordEnd(file, pos) == pos + 73 + len + 1
  {
    var header := file[pos..pos + HEADER_LEN];
    assert LittleEndian(header, 5, len);
    hide LittleEndian;
    LengthField(header);
    hide GetLogLen;
  }

  function RecordEnd(file: seq<byte>, pos: nat): (end: nat)
    requires pos + HEADER_LEN + TAILER_LEN <= |file|
    ensures end >= pos + HEADER_LEN + TAILER_LEN
  {
    pos + HEADER_LEN + GetLogLen(file[pos..pos + HEADER_LEN]) + TAILER_LEN
  }

  /** One record's effect. */
  function TakeRecord(st: Scan, before: nat, after: nat, hour1: int, hour2: int, B: int, E: int): Scan
  {
    var b := if hour1 > hour2 then hour2 else hour1;
    var e := hour2;
    var first := !st.found && ((B > b && B <= e) || (B > st.lastHour && B <= b));
    var found := st.found || first;
    var begin := if first then before else st.begin;
    var end0 := if found && E > b && E <= e then after else st.end;
    var end := if found && E > st.lastHour && E <= b then st.lastPos else end0;
    Scan(found, begin, end, e, after)
  }

  /** The scan from a position on; unencrypted records stop it, as their hours are not read. */
  function Run(file: seq<byte>, pos: nat, st: Scan, B: int, E: int, signed: bool): Scan
    decreases |file| - pos
  {
    if pos + HEADER_LEN + TAILER_LEN > |file| then st
    else if !RecordAt(file, pos) then Run(file, pos + 1, st, B, E, signed)
    else if !HasHours(file[pos]) then st
    else
      var after := RecordEnd(file, pos);
      var next := TakeRecord(st, pos, after,
                             CharValue(file[pos + 3], signed), CharValue(file[pos + END_HOUR_AT], signed), B, E);
      Run(file, after, next, B, E, signed)
  }

  predicate HasHours(magic: byte) { magic == MAGIC_ASYNC || magic == MAGIC_SYNC }

  const START := Scan(false, 0, 0, -1, 0)

  /** The part of the file to deliver; `ok` if it is not empty. */
  function Selected(file: seq<byte>, B: int, E: int, signed: bool): (r: (bool, nat, nat))
  {
    var st := Run(file, 0, START, B, E, signed);
    var end := if st.found && E > st.lastHour then |file| else st.end;
    (end > st.begin, st.begin, end)
  }

  method GetPeriodLogs(file: seq<byte>, B: int, E: int, signed: bool) returns (ok: bool, begin: nat, end: nat)
    ensures E <= B ==> !ok
    ensures E > B ==> (ok, begin, end) == Selected(file, B, E, signed)
    ensures ok ==> begin < end <= |file|
  {
    if E <= B {
      return false, 0, 0;
    }
    begin, end := 0, 0;
    var found, lastEndHour, lastEndPos := false, -1, 0;
    var pos := 0;
    while pos + HEADER_LEN + TAILER_LEN <= |file|
      invariant 0 <= pos <= |file| && 0 <= lastEndPos <= |file| && begin <= |file| && end <= |file|
      invariant Run(file, pos, Scan(found, begin, end, lastEndHour, lastEndPos), B, E, signed)
             == Run(file, 0, START, B, E, signed)
      decreases |file| - pos
    {
      var before := pos;
      var header := file[pos..pos + HEADER_LEN];
      pos := pos + HEADER_LEN;
      var fix := false;
      if !IsMagic(header[0]) {
        fix := true;
      } else {
        var len := GetLogLen(header);
        if pos + len + TAILER_LEN > |file| {
          fix := true;
        } else {
          pos := pos + len;
          var tail := file[pos];
          pos := pos + 1;
          if tail != MAGIC_END {
            fix := true;
          }
        }
      }
      if fix {
        pos := before + 1;
      } else {
        if !HasHours(header[0]) {
          break;
        }
        var beginHour, endHour := CharValue(header[3], signed), CharValue(header[4], signed);
        if beginHour > endHour {
          beginHour := endHour;
        }
        if !found {
          if B > beginHour && B <= endHour {
            begin := before;
            found := true;
          }
          if B > lastEndHour && B <= beginHour {
            begin := before;
            found := true;
          }
        }
        if found {
          if E > beginHour && E <= endHour {
            end := pos;
          }
          if E > lastEndHour && E <= beginHour {
            end := lastEndPos;
          }
        }
        lastEndHour := endHour;
        lastEndPos := pos;
      }
    }
    if found && E > lastEndHour {
      end := |file|;
    }
    ok := end > begin;
  }

  // ---- Files of well-formed records ----

  predicate WellFormed(f: seq<byte>)
  {
    HEADER_LEN + TAILER_LEN <= |f| && IsMagic(f[0]) && f[3] < 24 && f[END_HOUR_AT] < 24 &&
    GetLogLen(f) == |f| - HEADER_LEN - TAILER_LEN && f[|f| - 1] == MAGIC_END
  }

  /** Whether the scanner reads the hours of a record: not of an unencrypted one. */
  predicate Readable(f: seq<byte>)
    requires WellFormed(f)
  {
    HasHours(f[0])
  }

  /** The first record from k on whose hours are not read. */
  function FirstPlain(records: seq<seq<byte>>, k: nat): (p: nat)
    requires k <= |records| && AllWellFormed(records)
    ensures k <= p <= |records|
    decreases |records| - k
  {
    if k == |records| || !Readable(records[k]) then k else FirstPlain(records, k + 1)
  }

  function EndHour(f: seq<byte>): int
    requires WellFormed(f)
  {
    f[END_HOUR_AT]
  }

  /** The begin hour, never later than the end hour. */
  function BeginHour(f: seq<byte>): int
    requires WellFormed(f)
  {
    if f[3] > f[END_HOUR_AT] then f[END_HOUR_AT] else f[3]
  }

  predicate AllWellFormed(records: seq<seq<byte>>)
  {
    forall k :: 0 <= k < |records| ==> WellFormed(records[k])
  }

  predicate InHourOrder(records: seq<seq<byte>>)
    requires AllWellFormed(records)
  {
    forall i, j {:trigger Before(records[i], records[j])} :: 0 <= i < j < |records| ==> Before(records[i], records[j])
  }

  predicate Before(f: seq<byte>, g: seq<byte>)
    requires WellFormed(f) && WellFormed(g)
  {
    EndHour(f) <= BeginHour(g)
  }

  /** Where the record before record k ends, when record k stands at at[k]. */
  function PrevEnd(records: seq<seq<byte>>, at: seq<nat>, k: nat): nat
    requires k <= |records| == |at|
  {
    if k == 0 then 0 else at[k - 1] + |records[k - 1]|
  }

  /** No record stands at any offset from lo up to hi. */
  ghost predicate NoRecord(file: seq<byte>, lo: nat, hi: nat)
  {
    forall x :: lo <= x < hi && x + HEADER_LEN + TAILER_LEN <= |file| ==> !RecordAt(file, x)
  }

  /** The records stand one behind the other. */
  ghost predicate InPlace(records: seq<seq<byte>>, at: seq<nat>)
  {
    |at| == |records| && forall k :: 0 <= k < |records| ==> PrevEnd(records, at, k) <= at[k]
  }

  /** The file holds these records at these offsets, and no record stands in the stretches before,
      between and behind them. */
  ghost predicate Holds(file: seq<byte>, records: seq<seq<byte>>, at: seq<nat>)
  {
    && AllWellFormed(records)
    && InPlace(records, at)
    && (forall k :: 0 <= k < |records| ==> StandsAt(file, at[k], records[k]))
    && (forall k :: 0 <= k < |records| ==> NoRecord(file, PrevEnd(records, at, k), at[k]))
    && NoRecord(file, PrevEnd(records, at, |records|), |file|)
  }

  /** Records in the order of their hours. */
  ghost predicate IsLog(file: seq<byte>, records: seq<seq<byte>>, at: seq<nat>)
  {
    Holds(file, records, at) && InHourOrder(records)
  }

  predicate StandsAt(file: seq<byte>, pos: nat, f: seq<byte>)
  {
    pos + |f| <= |file| && forall i :: 0 <= i < |f| ==> file[pos + i] == f[i]
  }

  /** The first record that ends in hour B or later. */
  function First(records: seq<seq<byte>>, B: int, k: nat): (i: nat)
    requires k <= |records| && AllWellFormed(records)
    ensures k <= i <= |records|
    decreases |records| - k
  {
    if k == |records| || EndHour(records[k]) >= B then k else First(records, B, k + 1)
  }

  /** The first record that begins in hour E or later. */
  function Stop(records: seq<seq<byte>>, E: int, k: nat): (i: nat)
    requires k <= |records| && AllWellFormed(records)
    ensures k <= i <= |records|
    decreases |records| - k
  {
    if k == |records| || BeginHour(records[k]) >= E then k else Stop(records, E, k + 1)
  }

  lemma {:induction false} FirstIs(records: seq<seq<byte>>, B: int, k: nat)
    requires k <= |records| && AllWellFormed(records)
    ensures var i := First(records, B, k);
      (i < |records| ==> EndHour(records[i]) >= B) && forall j :: k <= j < i ==> EndHour(records[j]) < B
    decreases |records| - k
  {
    if k < |records| && EndHour(records[k]) < B {
      FirstIs(records, B, k + 1);
    }
  }

  lemma {:induction false} StopIs(records: seq<seq<byte>>, E: int, k: nat)
    requires k <= |records| && AllWellFormed(records)
    ensures var i := Stop(records, E, k);
      (i < |records| ==> BeginHour(records[i]) >= E) && forall j :: k <= j < i ==> BeginHour(records[j]) < E
    decreases |records| - k
  {
    if k < |records| && BeginHour(records[k]) < E {
      StopIs(records, E, k + 1);
    }
  }

  lemma NextPlace(records: seq<seq<byte>>, at: seq<nat>, k: nat)
    requires InPlace(records, at) && k < |records|
    ensures |at| == |records| && PrevEnd(records, at, k) <= at[k]
    ensures PrevEnd(records, at, k + 1) == at[k] + |records[k]|
  {}

  lemma {:induction false} PlacesInOrder(records: seq<seq<byte>>, at: seq<nat>, i: nat, j: nat)
    requires InPlace(records, at) && i < j <= |records|
    ensures |at| == |records| && at[i] + |records[i]| <= PrevEnd(records, at, j)
  {
    hide InPlace, PrevEnd;
    NextPlace(records, at, j - 1);
    if i < j - 1 {
      PlacesInOrder(records, at, i, j - 1);
    }
  }

  /** The end hour of the record before record k. */
  function Last(records: seq<seq<byte>>, k: nat): int
    requires k <= |records| && AllWellFormed(records)
  {
    if k == 0 then -1 else EndHour(records[k - 1])
  }

  /** Where record k lies relative to the first record of the period and the first after it. */
  lemma Position(records: seq<seq<byte>>, k: nat, B: int, E: int)
    requires AllWellFormed(records)
    requires InHourOrder(records)
    requires k < |records| && 0 <= B < E
    ensures Last(records, k) <= BeginHour(records[k]) <= EndHour(records[k])
    ensures First(records, B, 0) < k <==> Last(records, k) >= B
    ensures First(records, B, 0) <= k <==> EndHour(records[k]) >= B
    ensures Stop(records, E, 0) <= k <==> BeginHour(records[k]) >= E
    ensures Stop(records, E, 0) < k ==> Last(records, k) >= E
    ensures EndHour(records[k]) >= E ==> Stop(records, E, 0) <= k + 1
  {
    hide GetLogLen;
    FirstIs(records, B, 0);
    StopIs(records, E, 0);
    var i, j := First(records, B, 0), Stop(records, E, 0);
    hide First, Stop;
    if i < k {
      OrderedEnds(records, i, k - 1);
      OrderedEnds(records, i, k);
    }
    if k > 0 {
      assert Before(records[k - 1], records[k]);
    }
    if k + 1 < j {
      assert Before(records[k], records[k + 1]);
    }
    if j < k {
      OrderedEnds(records, j, k - 1);
      assert Before(records[j], records[k]);
    }
  }

  lemma OrderedEnds(records: seq<seq<byte>>, i: nat, j: nat)
    requires AllWellFormed(records)
    requires InHourOrder(records)
    requires i <= j < |records|
    ensures BeginHour(records[i]) <= EndHour(records[i]) <= EndHour(records[j])
  {
    if i < j {
      assert Before(records[i], records[j]);
    }
  }

  /** What holds after k records, when the period begins with record i at offset offI and ends
      at offset offEnd: its begin is known once record i has been seen, its end once an hour E
      or later has been seen. */
  ghost predicate Tracks(st: Scan, k: nat, i: nat, last: int, off: nat, offI: nat, offEnd: nat, E: int)
  {
    && st.lastHour == last && st.lastPos == off && st.found == (i < k)
    && (if st.found then st.begin == offI else st.begin == 0 && st.end == 0)
    && (st.found && last >= E ==> st.end == offEnd)
  }

  /** Where record i stands, if there is one. */
  function PlaceOf(at: seq<nat>, i: nat): nat
  {
    if i < |at| then at[i] else 0
  }

  ghost predicate After(records: seq<seq<byte>>, at: seq<nat>, k: nat, st: Scan, B: int, E: int)
    requires k <= |records| == |at| && AllWellFormed(records)
  {
    var i, j := First(records, B, 0), Stop(records, E, 0);
    Tracks(st, k, i, Last(records, k), PrevEnd(records, at, k), PlaceOf(at, i),
           PrevEnd(records, at, if i < j then j else i), E)
  }

  lemma TakeTracks(st: Scan, k: nat, i: nat, j: nat, last: int, off: nat, before: nat, off': nat, offI: nat, offEnd: nat,
                   hour1: int, e: int, B: int, E: int)
    requires Tracks(st, k, i, last, off, offI, offEnd, E) && 0 <= B < E
    requires var b := if hour1 > e then e else hour1;
      last <= b && (i < k <==> last >= B) && (i <= k <==> e >= B) && (j <= k <==> b >= E) && (j < k ==> last >= E) &&
      (e >= E ==> j <= k + 1)
    requires i == k ==> offI == before
    requires var end := if i < j then j else i; (end == k ==> offEnd == off) && (end == k + 1 ==> offEnd == off')
    ensures Tracks(TakeRecord(st, before, off', hour1, e, B, E), k + 1, i, e, off', offI, offEnd, E)
  {}

  lemma RecordHere(file: seq<byte>, pos: nat, f: seq<byte>)
    requires StandsAt(file, pos, f) && WellFormed(f)
    ensures pos + HEADER_LEN + TAILER_LEN <= |file| && RecordAt(file, pos) && RecordEnd(file, pos) == pos + |f|
    ensures file[pos] == f[0] && file[pos + 3] == f[3] && file[pos + END_HOUR_AT] == f[END_HOUR_AT]
  {
    hide LE32;
    var header := file[pos..pos + HEADER_LEN];
    assert file[pos + 0] == f[0] && file[pos + 3] == f[3] && file[pos + 4] == f[4];
    assert file[pos + 5] == f[5] && file[pos + 6] == f[6] && file[pos + 7] == f[7] && file[pos + 8] == f[8];
    assert header[LENGTH_AT..LENGTH_AT + 4] == f[LENGTH_AT..LENGTH_AT + 4];
    assert file[pos + (|f| - 1)] == f[|f| - 1];
  }

  function TakeWellFormed(st: Scan, pos: nat, f: seq<byte>, B: int, E: int): Scan
    requires WellFormed(f)
  {
    TakeRecord(st, pos, pos + |f|, f[3], f[END_HOUR_AT], B, E)
  }

  lemma RunStep(file: seq<byte>, pos: nat, f: seq<byte>, st: Scan, B: int, E: int, signed: bool)
    requires StandsAt(file, pos, f) && WellFormed(f) && Readable(f)
    ensures Run(file, pos, st, B, E, signed) == Run(file, pos + |f|, TakeWellFormed(st, pos, f, B, E), B, E, signed)
  {
    RecordHere(file, pos, f);
    hide RecordAt, RecordEnd, TakeRecord;
  }

  /** The scan passes over a stretch in which no record stands. */
  lemma {:induction false} RunOverGap(file: seq<byte>, lo: nat, hi: nat, st: Scan, B: int, E: int, signed: bool)
    requires lo <= hi <= |file| && NoRecord(file, lo, hi)
    ensures Run(file, lo, st, B, E, signed) == Run(file, hi, st, B, E, signed)
    decreases hi - lo
  {
    hide RecordAt, TakeRecord, RecordEnd;
    if lo < hi && lo + HEADER_LEN + TAILER_LEN <= |file| {
      assert !RecordAt(file, lo);
      RunOverGap(file, lo + 1, hi, st, B, E, signed);
    }
  }

  /** What the scan carries along after it has taken the first k records. */
  ghost function Taken(records: seq<seq<byte>>, at: seq<nat>, k: nat, B: int, E: int): Scan
    requires k <= |records| == |at| && AllWellFormed(records)
  {
    if k == 0 then START else TakeWellFormed(Taken(records, at, k - 1, B, E), at[k - 1], records[k - 1], B, E)
  }

  /** The scan takes exactly the records up to the first unencrypted one, each at its offset. */
  lemma ScanTakes(file: seq<byte>, records: seq<seq<byte>>, at: seq<nat>, B: int, E: int, signed: bool)
    requires Holds(file, records, at)
    ensures AllWellFormed(records) && |at| == |records|
    ensures Run(file, 0, START, B, E, signed) == Taken(records, at, FirstPlain(records, 0), B, E)
  {
    hide Run, WellFormed, AllWellFormed, Readable, FirstPlain, NoRecord, StandsAt;
    assert AllWellFormed(records) && PrevEnd(records, at, 0) == 0;
    ScanFrom(file, records, at, 0, B, E, signed);
  }

  lemma {:induction false} ScanFrom(file: seq<byte>, records: seq<seq<byte>>, at: seq<nat>, k: nat,
                                    B: int, E: int, signed: bool)
    requires Holds(file, records, at) && AllWellFormed(records) && |at| == |records| && k <= FirstPlain(records, 0)
    ensures Run(file, PrevEnd(records, at, k), Taken(records, at, k, B, E), B, E, signed)
         == Taken(records, at, FirstPlain(records, 0), B, E)
    decreases |records| - k
  {
    hide Holds, AllWellFormed, WellFormed, Run, FirstPlain, NoRecord, StandsAt, PrevEnd;
    FirstPlainIs(records, 0);
    var p, st := FirstPlain(records, 0), Taken(records, at, k, B, E);
    Stretch(file, records, at, k);
    if k == |records| {
      RunOverGap(file, PrevEnd(records, at, k), |file|, st, B, E, signed);
      RunEnds(file, |file|, st, B, E, signed);
    } else {
      RunOverGap(file, PrevEnd(records, at, k), at[k], st, B, E, signed);
      if k < p {
        RunStep(file, at[k], records[k], st, B, E, signed);
        ScanFrom(file, records, at, k + 1, B, E, signed);
      } else {
        RecordHere(file, at[k], records[k]);
        RunEnds(file, at[k], st, B, E, signed);
      }
    }
  }

  /** What stands behind the first k records. */
  lemma Stretch(file: seq<byte>, records: seq<seq<byte>>, at: seq<nat>, k: nat)
    requires Holds(file, records, at) && k <= |records|
    ensures |at| == |records| && PrevEnd(records, at, k) <= |file|
    ensures k == |records| ==> NoRecord(file, PrevEnd(records, at, k), |file|)
    ensures k < |records| ==>
      && WellFormed(records[k]) && StandsAt(file, at[k], records[k])
      && PrevEnd(records, at, k) <= at[k] <= |file| && NoRecord(file, PrevEnd(records, at, k), at[k])
      && PrevEnd(records, at, k + 1) == at[k] + |records[k]|
  {
    hide WellFormed, NoRecord;
    if k < |records| {
      NextPlace(records, at, k);
    }
  }

  lemma RunEnds(file: seq<byte>, pos: nat, st: Scan, B: int, E: int, signed: bool)
    requires pos + HEADER_LEN + TAILER_LEN > |file| || (RecordAt(file, pos) && !HasHours(file[pos]))
    ensures Run(file, pos, st, B, E, signed) == st
  {
    hide RecordAt;
  }

  lemma TakeNext(records: seq<seq<byte>>, at: seq<nat>, k: nat, st: Scan, B: int, E: int)
    requires AllWellFormed(records)
    requires InHourOrder(records)
    requires k < |records| == |at| && After(records, at, k, st, B, E) && 0 <= B < E
    ensures After(records, at, k + 1, TakeWellFormed(st, at[k], records[k], B, E), B, E)
  {
    hide First, Stop, EndHour, BeginHour, WellFormed, AllWellFormed, InHourOrder, Tracks, TakeRecord;
    RecordAtIndex(records, k);
    Position(records, k, B, E);
    var i, j, f := First(records, B, 0), Stop(records, E, 0), records[k];
    TakeTracks(st, k, i, j, Last(records, k), PrevEnd(records, at, k), at[k], at[k] + |f|, PlaceOf(at, i),
               PrevEnd(records, at, if i < j then j else i), f[3], f[END_HOUR_AT], B, E);
  }

  /** What the records taken tell of the period, if they are in the order of their hours. */
  lemma {:induction false} TakenAfter(records: seq<seq<byte>>, at: seq<nat>, k: nat, B: int, E: int)
    requires AllWellFormed(records)
    requires InHourOrder(records)
    requires k <= |records| == |at| && 0 <= B < E
    ensures After(records, at, k, Taken(records, at, k, B, E), B, E)
  {
    hide WellFormed, InHourOrder, TakeWellFormed, First, Stop;
    if k > 0 {
      hide After;
      TakenAfter(records, at, k - 1, B, E);
      TakeNext(records, at, k - 1, Taken(records, at, k - 1, B, E), B, E);
    }
  }

  lemma RecordAtIndex(records: seq<seq<byte>>, k: nat)
    requires AllWellFormed(records) && k < |records|
    ensures var f := records[k];
      && WellFormed(f) && |f| > END_HOUR_AT
      && EndHour(f) == f[END_HOUR_AT] && BeginHour(f) == if f[3] > f[END_HOUR_AT] then f[END_HOUR_AT] else f[3]
  {}

  // ---- Hours in any order ----

  /** Hour H is reached in record k, or between the end of the record before it and its begin. */
  predicate Marks(records: seq<seq<byte>>, k: nat, H: int)
    requires k < |records| && AllWellFormed(records)
  {
    var b, e := BeginHour(records[k]), EndHour(records[k]);
    b < H <= e || Last(records, k) < H <= b
  }

  /** The first of the first k records in which hour B is reached, or k. */
  function FirstMark(records: seq<seq<byte>>, k: nat, B: int): (i: nat)
    requires k <= |records| && AllWellFormed(records)
    ensures i <= k && (i < k ==> Marks(records, i, B)) && forall j :: 0 <= j < i ==> !Marks(records, j, B)
  {
    if k == 0 then 0
    else
      var i := FirstMark(records, k - 1, B);
      if i < k - 1 || Marks(records, k - 1, B) then i else k
  }

  /** The last of the records from i on and before k in which hour E is reached, or -1. */
  function LastMark(records: seq<seq<byte>>, i: nat, k: nat, E: int): (m: int)
    requires k <= |records| && AllWellFormed(records)
    ensures m == -1 || (i <= m < k && Marks(records, m, E))
    ensures forall j :: i <= j < k && j > m ==> !Marks(records, j, E)
  {
    if k <= i then -1 else if Marks(records, k - 1, E) then k - 1 else LastMark(records, i, k - 1, E)
  }

  /** Where the period ends when hour E is reached in record m: behind it, or behind the record
      before it if the hour was reached between the two. */
  function MarkEnd(records: seq<seq<byte>>, at: seq<nat>, m: int, E: int): nat
    requires m < |records| == |at| && AllWellFormed(records)
  {
    if m < 0 then 0 else if E <= BeginHour(records[m]) then PrevEnd(records, at, m) else PrevEnd(records, at, m + 1)
  }

  /** What the records taken tell of the period, whatever the order of their hours. */
  lemma {:induction false} TakenMarks(records: seq<seq<byte>>, at: seq<nat>, k: nat, B: int, E: int)
    requires AllWellFormed(records) && k <= |records| == |at|
    ensures var i := FirstMark(records, k, B);
      Taken(records, at, k, B, E)
        == Scan(i < k, if i < k then at[i] else 0, MarkEnd(records, at, LastMark(records, i, k, E), E),
                Last(records, k), PrevEnd(records, at, k))
  {
    hide WellFormed, BeginHour, EndHour;
    if k > 0 {
      TakenMarks(records, at, k - 1, B, E);
      RecordAtIndex(records, k - 1);
    }
  }

  /** What is selected from a file of records with hours in any order. */
  lemma SelectsByMarks(file: seq<byte>, records: seq<seq<byte>>, at: seq<nat>, B: int, E: int, signed: bool)
    requires Holds(file, records, at)
    ensures AllWellFormed(records) && |at| == |records|
    ensures var p := FirstPlain(records, 0);
      var i := FirstMark(records, p, B);
      Selected(file, B, E, signed)
        == if i == p then (false, 0, 0)
           else
             var end := if E > Last(records, p) then |file|
                        else MarkEnd(records, at, LastMark(records, i, p, E), E);
             (end > at[i], at[i], end)
  {
    var p := FirstPlain(records, 0);
    ScanTakes(file, records, at, B, E, signed);
    TakenMarks(records, at, p, B, E);
  }

  // ---- The period ----

  /** A record that ends in hour B or later and begins before hour E; one that claims to begin after
      its end begins where it ends. */
  predicate InPeriod(f: seq<byte>, B: int, E: int)
    requires WellFormed(f)
  {
    f[4] >= B && (f[3] < E || f[4] < E)
  }

  lemma PeriodIsRange(records: seq<seq<byte>>, B: int, E: int)
    requires AllWellFormed(records)
    requires InHourOrder(records)
    ensures forall k :: 0 <= k < |records| ==>
      (InPeriod(records[k], B, E) <==> First(records, B, 0) <= k < Stop(records, E, 0))
  {
    FirstIs(records, B, 0);
    StopIs(records, E, 0);
    var i, j := First(records, B, 0), Stop(records, E, 0);
    hide First, Stop;
    forall k | 0 <= k < |records|
      ensures InPeriod(records[k], B, E) <==> i <= k < j
    {
      if i < k {
        assert Before(records[i], records[k]);
      }
      if j < k {
        assert Before(records[j], records[k]);
      }
    }
  }

  // ---- Files in which unencrypted records stand among the others ----

  lemma {:induction false} FirstPlainIs(records: seq<seq<byte>>, k: nat)
    requires k <= |records| && AllWellFormed(records)
    ensures var p := FirstPlain(records, k);
      && (p < |records| ==> !Readable(records[p]) && (records[p][0] == 8 || records[p][0] == 9))
      && forall j :: k <= j < p ==> Readable(records[j]) && (records[j][0] == 6 || records[j][0] == 7)
    decreases |records| - k
  {
    if k < |records| && Readable(records[k]) {
      FirstPlainIs(records, k + 1);
    }
  }

  /** Whether the answer is right: positive exactly if some record of the file is in the
      period, and then all of each such record is delivered and nothing of any other. */
  ghost predicate DeliversPeriod(file: seq<byte>, records: seq<seq<byte>>, at: seq<nat>, B: int, E: int, signed: bool)
    requires AllWellFormed(records) && |at| == |records|
  {
    var (ok, begin, end) := Selected(file, B, E, signed);
    && (ok <==> exists k :: 0 <= k < |records| && InPeriod(records[k], B, E))
    && (ok ==> forall k :: 0 <= k < |records| ==>
          if InPeriod(records[k], B, E) then begin <= at[k] && at[k] + |records[k]| <= end
          else at[k] + |records[k]| <= begin || end <= at[k])
  }

  /** The hours read tell enough: if one of them is B or later, then one is E or later or every
      record begins before E; otherwise no record is in the period. */
  ghost predicate HoursSuffice(records: seq<seq<byte>>, B: int, E: int)
    requires AllWellFormed(records)
  {
    var p := FirstPlain(records, 0);
    if exists k :: 0 <= k < p && EndHour(records[k]) >= B
    then (exists k :: 0 <= k < p && EndHour(records[k]) >= E) || forall k :: 0 <= k < |records| ==> BeginHour(records[k]) < E
    else forall k :: 0 <= k < |records| ==> !InPeriod(records[k], B, E)
  }

  /** The test on hours in terms of the first record of the period and the first after it. */
  lemma HoursByIndex(records: seq<seq<byte>>, B: int, E: int)
    requires AllWellFormed(records)
    requires InHourOrder(records)
    requires 0 <= B < E
    ensures var (i, j, p) := (First(records, B, 0), Stop(records, E, 0), FirstPlain(records, 0));
      HoursSuffice(records, B, E) <==> if i < p then Last(records, p) >= E || j == |records| else i >= j
  {
    var i, j, p, n := First(records, B, 0), Stop(records, E, 0), FirstPlain(records, 0), |records|;
    FirstIs(records, B, 0);
    StopIs(records, E, 0);
    PeriodIsRange(records, B, E);
    LateReadHour(records, p, E);
    hide First, Stop, FirstPlain, EndHour, BeginHour, WellFormed, AllWellFormed, InHourOrder, InPeriod;
    if i < j {
      assert InPeriod(records[i], B, E);
    }
  }

  lemma LateReadHour(records: seq<seq<byte>>, p: nat, E: int)
    requires AllWellFormed(records)
    requires InHourOrder(records)
    requires p <= |records| && 0 <= E
    ensures (exists k :: 0 <= k < p && EndHour(records[k]) >= E) <==> Last(records, p) >= E
  {
    hide WellFormed, InHourOrder;
    forall k | 0 <= k < p
      ensures EndHour(records[k]) <= Last(records, p)
    {
      OrderedEnds(records, k, p - 1);
    }
  }

  /** Where the first record of the period and the first after it lie among the records read. */
  lemma ReadBounds(records: seq<seq<byte>>, p: nat, B: int, E: int)
    requires AllWellFormed(records)
    requires InHourOrder(records)
    requires p <= |records| && 0 <= B < E
    ensures var (i, j) := (First(records, B, 0), Stop(records, E, 0));
      if Last(records, p) >= E then j <= p else i < p ==> i < j
  {
    var i, j := First(records, B, 0), Stop(records, E, 0);
    FirstIs(records, B, 0);
    StopIs(records, E, 0);
    hide First, Stop, WellFormed, EndHour, BeginHour;
    if 0 < p < |records| {
      assert Before(records[p - 1], records[p]);
    }
    if i < p {
      OrderedEnds(records, i, p - 1);
    }
  }

  /** What is selected from a log, by the same two records. */
  lemma SelectedByIndex(file: seq<byte>, records: seq<seq<byte>>, at: seq<nat>, B: int, E: int, signed: bool)
    requires IsLog(file, records, at) && 0 <= B < E
    ensures AllWellFormed(records) && |at| == |records|
    ensures var (i, j, p) := (First(records, B, 0), Stop(records, E, 0), FirstPlain(records, 0));
      Selected(file, B, E, signed)
        == if i >= p then (false, 0, 0)
           else if Last(records, p) < E then (true, at[i], |file|)
           else (i < j, at[i], PrevEnd(records, at, if i < j then j else i))
  {
    hide First, Stop, IsLog, Holds, WellFormed, AllWellFormed, InHourOrder, FirstPlain, Last, PrevEnd, InPlace;
    hide Run, Taken, Selected, Tracks;
    LogFacts(file, records, at);
    var i, j, p := First(records, B, 0), Stop(records, E, 0), FirstPlain(records, 0);
    ScanTakes(file, records, at, B, E, signed);
    var st := Taken(records, at, p, B, E);
    TakenAfter(records, at, p, B, E);
    ReadBounds(records, p, B, E);
    if i < p {
      PlaceBelow(file, records, at, i, j);
    }
    Answer(file, B, E, signed, st, p, i, Last(records, p), PrevEnd(records, at, p), PlaceOf(at, i),
           PrevEnd(records, at, if i < j then j else i), i < j);
  }

  /** The answer for what the scan has tracked. */
  lemma Answer(file: seq<byte>, B: int, E: int, signed: bool, st: Scan, p: nat, i: nat, last: int, off: nat,
               offI: nat, offEnd: nat, some: bool)
    requires Run(file, 0, START, B, E, signed) == st && Tracks(st, p, i, last, off, offI, offEnd, E)
    requires i < p ==> offI < |file| && (some <==> offEnd > offI)
    ensures Selected(file, B, E, signed)
         == if i >= p then (false, 0, 0) else if last < E then (true, offI, |file|) else (some, offI, offEnd)
  {
    hide Run;
  }

  lemma PlaceBelow(file: seq<byte>, records: seq<seq<byte>>, at: seq<nat>, i: nat, j: nat)
    requires Holds(file, records, at) && i < |records| && j <= |records|
    ensures |at| == |records| && at[i] < |file|
    ensures if i < j then at[i] < PrevEnd(records, at, j) else PrevEnd(records, at, i) <= at[i]
  {
    hide InPlace, PrevEnd, NoRecord, StandsAt;
    Stretch(file, records, at, i);
    RecordInFile(file, records, at, i);
    if i < j {
      PlacesInOrder(records, at, i, j);
    }
  }

  lemma LogFacts(file: seq<byte>, records: seq<seq<byte>>, at: seq<nat>)
    requires IsLog(file, records, at)
    ensures Holds(file, records, at) && AllWellFormed(records) && InHourOrder(records) && InPlace(records, at)
  {}

  lemma RecordInFile(file: seq<byte>, records: seq<seq<byte>>, at: seq<nat>, k: nat)
    requires Holds(file, records, at) && k < |records|
    ensures |at| == |records| && 0 < |records[k]| && at[k] + |records[k]| <= |file|
  {}

  /** Where record k stands relative to the records from i on and before m. */
  lemma Around(records: seq<seq<byte>>, at: seq<nat>, i: nat, m: nat, k: nat)
    requires InPlace(records, at) && i < m <= |records| && k < |records|
    ensures if k < i then at[k] + |records[k]| <= at[i]
            else if k < m then at[i] <= at[k] && at[k] + |records[k]| <= PrevEnd(records, at, m)
            else PrevEnd(records, at, m) <= at[k]
  {
    hide InPlace, PrevEnd;
    NextPlace(records, at, k);
    NextPlace(records, at, i);
    NextPlace(records, at, m - 1);
    if k < i {
      PlacesInOrder(records, at, k, i);
    } else {
      if i < k {
        PlacesInOrder(records, at, i, k);
      }
      if k < m {
        PlacesInOrder(records, at, k, m);
      } else if m < k {
        PlacesInOrder(records, at, m - 1, k);
      }
    }
  }

  /** The answer from the start of record i to the end of the record before j, or to the end of
      the file, is right exactly if the records from i on and before j are those of the period. */
  lemma RightRange(file: seq<byte>, records: seq<seq<byte>>, at: seq<nat>, B: int, E: int, signed: bool, i: nat, j: nat)
    requires AllWellFormed(records) && InPlace(records, at) && i < j <= |records|
    requires forall k :: 0 <= k < |records| ==> at[k] + |records[k]| <= |file|
    requires forall k :: 0 <= k < |records| ==> (InPeriod(records[k], B, E) <==> i <= k < j)
    requires Selected(file, B, E, signed) == (true, at[i], PrevEnd(records, at, j)) ||
             Selected(file, B, E, signed) == (true, at[i], |file|)
    ensures Selected(file, B, E, signed) == (true, at[i], PrevEnd(records, at, j)) ==>
              DeliversPeriod(file, records, at, B, E, signed)
    ensures Selected(file, B, E, signed) == (true, at[i], |file|) != (true, at[i], PrevEnd(records, at, j)) ==>
              (DeliversPeriod(file, records, at, B, E, signed) <==> j == |records|)
  {
    hide InPeriod, Selected, PrevEnd;
    assert |records[i]| > 0 && InPeriod(records[i], B, E);
    var n := |records|;
    forall k | 0 <= k < n
      ensures if k < i then at[k] + |records[k]| <= at[i]
              else if k < j then at[i] <= at[k] && at[k] + |records[k]| <= PrevEnd(records, at, j)
              else PrevEnd(records, at, j) <= at[k]
    {
      Around(records, at, i, j, k);
    }
    if j < n {
      Around(records, at, i, n, j);
      assert |records[j]| > 0 && !InPeriod(records[j], B, E);
    }
  }

  /** On a file of well-formed records of any of the four magic numbers, in the order of their
      hours, with or without stretches of other octets around them, exactly the records that end
      in hour B or later and begin before hour E are selected if and only if the hours up to the
      first unencrypted record tell enough. */
  lemma SelectsPeriod(file: seq<byte>, records: seq<seq<byte>>, at: seq<nat>, B: int, E: int, signed: bool)
    requires IsLog(file, records, at) && 0 <= B < E
    ensures AllWellFormed(records) && InHourOrder(records) && |at| == |records|
    ensures forall k :: 0 <= k < |records| ==>
      (InPeriod(records[k], B, E) <==> First(records, B, 0) <= k < Stop(records, E, 0))
    ensures DeliversPeriod(file, records, at, B, E, signed) <==> HoursSuffice(records, B, E)
  {
    LogFacts(file, records, at);
    var i, j, n, p := First(records, B, 0), Stop(records, E, 0), |records|, FirstPlain(records, 0);
    PeriodIsRange(records, B, E);
    SelectedByIndex(file, records, at, B, E, signed);
    HoursByIndex(records, B, E);
    ReadBounds(records, p, B, E);
    hide First, Stop, WellFormed, AllWellFormed, InHourOrder, InPeriod, FirstPlain, HoursSuffice, Selected, Holds;
    forall k | 0 <= k < n ensures at[k] + |records[k]| <= |file| {
      RecordInFile(file, records, at, k);
    }
    hide IsLog, DeliversPeriod;
    if i < p && i < j {
      RightRange(file, records, at, B, E, signed, i, j);
    } else {
      NothingRight(file, records, at, B, E, signed, i, j);
    }
  }

  lemma NothingRight(file: seq<byte>, records: seq<seq<byte>>, at: seq<nat>, B: int, E: int, signed: bool, i: nat, j: nat)
    requires AllWellFormed(records) && |at| == |records| && i <= |records| && j <= |records|
    requires forall k :: 0 <= k < |records| ==> (InPeriod(records[k], B, E) <==> i <= k < j)
    requires !Selected(file, B, E, signed).0
    ensures DeliversPeriod(file, records, at, B, E, signed) <==> i >= j
  {
    hide InPeriod, Selected, WellFormed;
    if i < j {
      assert InPeriod(records[i], B, E);
    }
  }

  /** If every record is encrypted, exactly the records of the period are selected. */
  lemma SelectsEncrypted(file: seq<byte>, records: seq<seq<byte>>, at: seq<nat>, B: int, E: int, signed: bool)
    requires IsLog(file, records, at) && 0 <= B < E
    requires AllWellFormed(records) && forall k :: 0 <= k < |records| ==> Readable(records[k])
    ensures |at| == |records| && DeliversPeriod(file, records, at, B, E, signed)
  {
    var i, j, n := First(records, B, 0), Stop(records, E, 0), |records|;
    FirstPlainIs(records, 0);
    HoursByIndex(records, B, E);
    StopIs(records, E, 0);
    LogFacts(file, records, at);
    SelectsPeriod(file, records, at, B, E, signed);
    if j < n {
      OrderedEnds(records, j, n - 1);
    }
  }

  /** A record of the given magic number and hour without content. */
  function EmptyRecord(magic: byte, hour: byte): (f: seq<byte>)
    requires IsMagic(magic) && hour < 24
    ensures WellFormed(f) && EndHour(f) == BeginHour(f) == hour && f[0] == magic
  {
    var f := [magic, 0, 0, hour, hour, 0, 0, 0, 0] + seq(HEADER_LEN - 8, i => 0);
    assert f[LENGTH_AT..LENGTH_AT + 4] == [0, 0, 0, 0];
    f
  }

  lemma HoursOfEmpty(f: seq<byte>, B: int, E: int)
    requires WellFormed(f)
    ensures EndHour(f) == BeginHour(f) ==> (InPeriod(f, B, E) <==> B <= EndHour(f) < E)
  {}

  /** What is selected from two records, one of them unencrypted. */
  lemma PairSelected(f: seq<byte>, g: seq<byte>, B: int, E: int, signed: bool)
    requires WellFormed(f) && WellFormed(g) && EndHour(f) <= BeginHour(g) && 0 <= B < E
    ensures !Readable(f) ==> Selected(f + g, B, E, signed) == (false, 0, 0)
    ensures Readable(f) && !Readable(g) && B <= EndHour(f) < E ==> Selected(f + g, B, E, signed) == (true, 0, |f + g|)
  {
    hide WellFormed, StandsAt, Selected, EndHour, BeginHour, First, Stop, FirstPlain, Last, IsLog, Readable, PrevEnd;
    TwoRecords(f, g);
    PairIndex(f, g, B, E);
    SelectedByIndex(f + g, [f, g], [0, |f|], B, E, signed);
  }

  /** An unencrypted record behind an encrypted one of the period makes the whole rest of the
      file be delivered, here a record of hour 5 for the period from 1 to 2. */
  lemma PlainRecordOverruns(f: seq<byte>, g: seq<byte>, signed: bool)
    requires f == EmptyRecord(MAGIC_ASYNC, 1) && g == EmptyRecord(MAGIC_ASYNC_NO_CRYPT, 5)
    ensures IsLog(f + g, [f, g], [0, |f|]) && !InPeriod(g, 1, 2)
    ensures Selected(f + g, 1, 2, signed) == (true, 0, |f + g|)
  {
    HoursOfEmpty(g, 1, 2);
    hide WellFormed, EmptyRecord, Selected, IsLog, InPeriod, EndHour, BeginHour;
    TwoRecords(f, g);
    PairSelected(f, g, 1, 2, signed);
  }

  /** An unencrypted record in front hides all others. */
  lemma PlainRecordHides(f: seq<byte>, g: seq<byte>, signed: bool)
    requires f == EmptyRecord(MAGIC_ASYNC_NO_CRYPT, 1) && g == EmptyRecord(MAGIC_ASYNC, 1)
    ensures IsLog(f + g, [f, g], [0, |f|]) && InPeriod(g, 1, 2)
    ensures Selected(f + g, 1, 2, signed) == (false, 0, 0)
  {
    HoursOfEmpty(g, 1, 2);
    hide WellFormed, EmptyRecord, Selected, IsLog, InPeriod, EndHour, BeginHour;
    TwoRecords(f, g);
    PairSelected(f, g, 1, 2, signed);
  }

  /** A stray octet in front of a record does not hide it: the scan starts again one octet on. */
  lemma StrayOctet(stray: byte, signed: bool)
    requires !IsMagic(stray)
    ensures Selected([stray] + EmptyRecord(MAGIC_ASYNC, 5), 5, 6, signed) == (true, 1, 75)
  {
    var f := EmptyRecord(MAGIC_ASYNC, 5);
    var file := [stray] + f;
    assert |f| == 74 && AllWellFormed([f]);
    SingleIndex(f, 5, 6);
    assert StandsAt(file, 1, f);
    hide WellFormed, StandsAt, Selected, EmptyRecord, EndHour, BeginHour, First, Stop, FirstPlain, Last;
    SelectedByIndex(file, [f], [1], 5, 6, signed);
  }

  lemma SingleIndex(f: seq<byte>, B: int, E: int)
    requires WellFormed(f)
    ensures First([f], B, 0) == if EndHour(f) >= B then 0 else 1
    ensures Stop([f], E, 0) == if BeginHour(f) >= E then 0 else 1
    ensures FirstPlain([f], 0) == if !Readable(f) then 0 else 1
    ensures Last([f], 1) == EndHour(f)
  {
    hide WellFormed, EndHour, BeginHour;
    var r := [f];
    assert First(r, B, 1) == 1 && Stop(r, E, 1) == 1 && FirstPlain(r, 1) == 1;
  }

  lemma PairIndex(f: seq<byte>, g: seq<byte>, B: int, E: int)
    requires WellFormed(f) && WellFormed(g)
    ensures First([f, g], B, 0) == if EndHour(f) >= B then 0 else if EndHour(g) >= B then 1 else 2
    ensures Stop([f, g], E, 0) == if BeginHour(f) >= E then 0 else if BeginHour(g) >= E then 1 else 2
    ensures FirstPlain([f, g], 0) == if !Readable(f) then 0 else if !Readable(g) then 1 else 2
    ensures Last([f, g], 1) == EndHour(f) && Last([f, g], 0) == -1
  {
    hide WellFormed, EndHour, BeginHour;
    var r := [f, g];
    assert First(r, B, 2) == 2 && Stop(r, E, 2) == 2 && FirstPlain(r, 2) == 2;
  }

  lemma TwoRecords(f: seq<byte>, g: seq<byte>)
    requires WellFormed(f) && WellFormed(g) && EndHour(f) <= BeginHour(g)
    ensures IsLog(f + g, [f, g], [0, |f|])
  {
    hide WellFormed, EndHour, BeginHour, RecordAt;
    var records, at := [f, g], [0, |f|];
    assert PrevEnd(records, at, 0) == 0 && PrevEnd(records, at, 1) == |f| && PrevEnd(records, at, 2) == |f + g|;
  }

  /** What a log buffer flushes in async mode is such a record. */
  lemma FlushedIsWellFormed(mem: seq<byte>, hour: byte)
    requires Attachable(mem) && GetLogLen(mem) != 0 && mem[3] < 24 && hour < 24
    ensures WellFormed(FlushOutput(mem, hour, true)) && EndHour(FlushOutput(mem, hour, true)) == hour
  {
    var len := AttachedLength(mem);
    var f := mem[..len][END_HOUR_AT := hour] + [MAGIC_END];
    assert f[LENGTH_AT..LENGTH_AT + 4] == mem[LENGTH_AT..LENGTH_AT + 4] == mem[..len][LENGTH_AT..LENGTH_AT + 4];
  }

  /** Whatever follows it, an unencrypted record at the start of a file ends the scan with
      nothing selected. */
  lemma PlainRecordEndsScan(file: seq<byte>, B: int, E: int, signed: bool)
    requires HEADER_LEN + TAILER_LEN <= |file| && RecordAt(file, 0) && !HasHours(file[0])
    ensures !Selected(file, B, E, signed).0
  {
    hide RecordAt;
    assert Run(file, 0, START, B, E, signed) == START;
  }
}
