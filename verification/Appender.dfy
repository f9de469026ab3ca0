/** The appender: writers put records into the log buffer under one lock; flushing takes the
    buffer's contents under that lock and writes them to the file under another. */
module Appenders {
  import opened ByteStrings
  import opened AutoBuffers
  import opened LogCrypts
  import opened LogBuffers

  // ---- The protocol ----

  /** Records in the log buffer, records taken by each flushing thread but not yet in the
      file, records in the file; and all records accepted so far, in order. */
  datatype State<R> = State(buffer: seq<R>, taken: seq<seq<R>>, file: seq<R>, accepted: seq<R>)

  /** The critical sections: a writer appends; thread t takes the buffer; thread t writes what
      it has taken; a record goes to the file directly (synchronous mode, internal tips). */
  datatype Action<R> = Accept(r: R) | Take(t: nat) | Store(t: nat) | Direct(r: R)

  predicate Enabled<R(==)>(s: State<R>, a: Action<R>)
  {
    match a
    case Accept(_) => true
    case Take(t) => t < |s.taken| && s.taken[t] == []
    case Store(t) => t < |s.taken|
    case Direct(_) => true
  }

  function Step<R(==)>(s: State<R>, a: Action<R>): State<R>
    requires Enabled(s, a)
  {
    match a
    case Accept(r) => s.(buffer := s.buffer + [r], accepted := s.accepted + [r])
    case Take(t) => s.(buffer := [], taken := s.taken[t := s.buffer])
    case Store(t) => s.(file := s.file + s.taken[t], taken := s.taken[t := []])
    case Direct(r) => s.(file := s.file + [r], accepted := s.accepted + [r])
  }

  /** Actions done one after the other, in any interleaving of the threads. */
  ghost predicate Runs<R>(s: State<R>, actions: seq<Action<R>>, s': State<R>)
    decreases |actions|
  {
    if actions == [] then s' == s
    else Enabled(s, actions[0]) && Runs(Step(s, actions[0]), actions[1..], s')
  }

  /** The records that a list of actions hands over, read off the list. */
  function HandedOver<R>(actions: seq<Action<R>>): (rs: seq<R>)
    ensures |rs| <= |actions|
  {
    if actions == [] then []
    else
      var a, rest := actions[|actions| - 1], HandedOver(actions[..|actions| - 1]);
      if a.Accept? || a.Direct? then rest + [a.r] else rest
  }

  /** Action i of the list, if it hands over a record, puts it behind those of the actions before. */
  lemma {:induction false} HandedOverAt<R>(actions: seq<Action<R>>, i: nat)
    requires i < |actions|
    ensures HandedOver(actions[..i]) <= HandedOver(actions[..i + 1]) <= HandedOver(actions)
    ensures HandedOver(actions[..i + 1])[|HandedOver(actions[..i])|..]
         == match actions[i] case Accept(r) => [r] case Direct(r) => [r] case Take(_) => [] case Store(_) => []
    decreases |actions|
  {
    var n := |actions| - 1;
    assert actions[..i + 1][..i] == actions[..i];
    if i == n {
      assert actions[..i + 1] == actions;
    } else {
      HandedOverAt(actions[..n], i);
      assert actions[..n][..i] == actions[..i] && actions[..n][..i + 1] == actions[..i + 1];
    }
  }

  lemma {:induction false} HandedOverFirst<R>(actions: seq<Action<R>>)
    requires actions != []
    ensures HandedOver(actions) == HandedOver(actions[..1]) + HandedOver(actions[1..])
  {
    var n := |actions| - 1;
    if n == 0 {
      assert actions[..1] == actions && actions[1..] == [];
    } else {
      HandedOverFirst(actions[..n]);
      assert actions[..n][..1] == actions[..1] && actions[..n][1..] == actions[1..][..n - 1];
      assert actions[1..][n - 1] == actions[n];
    }
  }

  /** After any run the accepted records are those accepted before it and then those that its
      actions handed over, in the order of the actions. */
  lemma {:induction false} RunAccepts<R>(s: State<R>, actions: seq<Action<R>>, s': State<R>)
    requires Runs(s, actions, s')
    ensures s'.accepted == s.accepted + HandedOver(actions)
    decreases |actions|
  {
    if actions == [] {
      assert s.accepted + [] == s.accepted;
    } else {
      var a := actions[0];
      RunAccepts(Step(s, a), actions[1..], s');
      HandedOverFirst(actions);
      assert actions[..1][..0] == [] && actions[..1][0] == a;
      var given := HandedOver(actions[..1]);
      assert Step(s, a).accepted == s.accepted + given;
      assert s.accepted + given + HandedOver(actions[1..]) == s.accepted + (given + HandedOver(actions[1..]));
    }
  }

  function Initial<R>(threads: nat): State<R>
  {
    State([], seq(threads, _ => []), [], [])
  }

  /** All records taken and not yet written. */
  function InFlight<R>(taken: seq<seq<R>>): multiset<R>
  {
    if taken == [] then multiset{} else InFlight(taken[..|taken| - 1]) + multiset(taken[|taken| - 1])
  }

  ghost predicate Conserved<R(!new)>(s: State<R>)
  {
    multiset(s.accepted) == multiset(s.buffer) + InFlight(s.taken) + multiset(s.file)
  }

  lemma MultisetShift<R>(a: multiset<R>, b: multiset<R>, c: multiset<R>, d: multiset<R>, e: multiset<R>)
    requires a + b == c + d
    ensures a + e + b == c + e + d
  {
    assert a + e + b == (a + b) + e && c + e + d == (c + d) + e;
  }

  lemma {:induction false} InFlightUpdate<R>(taken: seq<seq<R>>, t: nat, c: seq<R>)
    requires t < |taken|
    ensures InFlight(taken[t := c]) + multiset(taken[t]) == InFlight(taken) + multiset(c)
  {
    var n := |taken| - 1;
    var after := taken[t := c];
    if t == n {
      assert after[..n] == taken[..n];
    } else {
      InFlightUpdate(taken[..n], t, c);
      assert after[..n] == taken[..n][t := c];
      assert InFlight(after) == InFlight(taken[..n][t := c]) + multiset(taken[n]);
      MultisetShift(InFlight(taken[..n][t := c]), multiset(taken[t]), InFlight(taken[..n]), multiset(c), multiset(taken[n]));
    }
  }

  lemma {:induction false} NothingInFlight<R>(threads: nat)
    ensures InFlight<R>(seq(threads, _ => [])) == multiset{}
  {
    if threads > 0 {
      var s: seq<seq<R>> := seq(threads, _ => []);
      NothingInFlight<R>(threads - 1);
      assert s[..threads - 1] == seq(threads - 1, _ => []);
    }
  }

  lemma MoveBetween<R>(acc: multiset<R>, x: multiset<R>, y: multiset<R>, z: multiset<R>, c: multiset<R>,
                       x': multiset<R>, y': multiset<R>)
    requires acc == x + y + z && x' + c == x && y' == y + c
    ensures acc == x' + y' + z
  {
    assert x' + y' + z == (x' + c) + y + z;
  }

  lemma StepConserves<R(!new)>(s: State<R>, a: Action<R>)
    requires Enabled(s, a) && Conserved(s)
    ensures Conserved(Step(s, a))
  {
    match a {
      case Accept(r) =>
      case Direct(r) =>
      case Take(t) =>
        TakeConserves(s, t);
      case Store(t) =>
        StoreConserves(s, t);
    }
  }

  lemma TakeConserves<R(!new)>(s: State<R>, t: nat)
    requires Enabled(s, Take(t)) && Conserved(s)
    ensures Conserved(Step(s, Take(t)))
  {
    InFlightUpdate(s.taken, t, s.buffer);
    var b, f, f' := multiset(s.buffer), InFlight(s.taken), InFlight(s.taken[t := s.buffer]);
    assert multiset(s.taken[t]) == multiset{};
    assert f' == f + b;
    hide InFlight;
    MoveBetween(multiset(s.accepted), b, f, multiset(s.file), b, multiset{}, f');
  }

  lemma StoreConserves<R(!new)>(s: State<R>, t: nat)
    requires Enabled(s, Store(t)) && Conserved(s)
    ensures Conserved(Step(s, Store(t)))
  {
    var none: seq<R> := [];
    InFlightUpdate(s.taken, t, none);
    var c, f, f' := multiset(s.taken[t]), InFlight(s.taken), InFlight(s.taken[t := none]);
    assert multiset(none) == multiset{};
    assert f' + c == f;
    hide InFlight;
    var z, y := multiset(s.buffer), multiset(s.file);
    assert multiset(s.accepted) == f + y + z;
    MoveBetween(multiset(s.accepted), f, y, z, c, f', y + c);
    assert multiset(s.file + s.taken[t]) == y + c;
    assert f' + (y + c) + z == z + f' + (y + c);
  }

  /** Conservation: whatever the interleaving, no accepted record is lost or doubled. */
  lemma {:induction false} RunConserves<R(!new)>(s: State<R>, actions: seq<Action<R>>, s': State<R>)
    requires Conserved(s) && Runs(s, actions, s')
    ensures Conserved(s')
    decreases |actions|
  {
    if actions != [] {
      StepConserves(s, actions[0]);
      RunConserves(Step(s, actions[0]), actions[1..], s');
    }
  }

  lemma {:induction false} HeldSomewhere<R>(taken: seq<seq<R>>, r: R)
    ensures r in InFlight(taken) <==> exists t :: 0 <= t < |taken| && r in taken[t]
    ensures InFlight(taken)[r] <= 1 ==>
      forall t, u :: 0 <= t < u < |taken| && r in taken[t] ==> r !in taken[u]
  {
    if taken != [] {
      var n := |taken| - 1;
      HeldSomewhere(taken[..n], r);
      assert forall t :: 0 <= t < n ==> taken[..n][t] == taken[t];
      assert r in taken[n] <==> multiset(taken[n])[r] >= 1;
    }
  }

  /** A record accepted once is in exactly one place: the buffer, one thread's hands or the
      file. */
  lemma ExactlyOnePlace<R(!new)>(threads: nat, actions: seq<Action<R>>, s: State<R>, r: R)
    requires Runs(Initial(threads), actions, s) && multiset(s.accepted)[r] == 1
    ensures var held := exists t :: 0 <= t < |s.taken| && r in s.taken[t];
      && (r in s.buffer || held || r in s.file)
      && !(r in s.buffer && held) && !(r in s.buffer && r in s.file) && !(held && r in s.file)
    ensures forall t, u :: 0 <= t < u < |s.taken| && r in s.taken[t] ==> r !in s.taken[u]
  {
    NothingInFlight<R>(threads);
    RunConserves(Initial(threads), actions, s);
    HeldSomewhere(s.taken, r);
    assert multiset(s.buffer)[r] + InFlight(s.taken)[r] + multiset(s.file)[r] == 1;
    assert r in s.buffer <==> r in multiset(s.buffer);
    assert r in s.file <==> r in multiset(s.file);
  }

  /** Only thread 0 flushes, and nothing is written past the buffer. */
  ghost predicate SoleFlusher<R>(actions: seq<Action<R>>)
  {
    forall i :: 0 <= i < |actions| ==>
      match actions[i] case Accept(_) => true case Take(t) => t == 0 case Store(t) => t == 0 case Direct(_) => false
  }

  ghost predicate InOrder<R(!new)>(s: State<R>)
  {
    |s.taken| > 0 && s.file + s.taken[0] + s.buffer == s.accepted
  }

  /** With a single flushing thread the file, what is in flight and the buffer, read in this
      order, are the accepted records in order. */
  lemma {:induction false} RunKeepsOrder<R(!new)>(s: State<R>, actions: seq<Action<R>>, s': State<R>)
    requires InOrder(s) && SoleFlusher(actions) && Runs(s, actions, s')
    ensures InOrder(s')
    decreases |actions|
  {
    if actions != [] {
      var next := Step(s, actions[0]);
      match actions[0] {
        case Accept(r) =>
          assert s.file + s.taken[0] + (s.buffer + [r]) == s.file + s.taken[0] + s.buffer + [r];
        case Take(t) =>
          assert s.file + s.buffer + [] == s.file + [] + s.buffer;
        case Store(t) =>
          assert s.file + s.taken[0] + [] + s.buffer == s.file + s.taken[0] + s.buffer;
        case Direct(r) =>
          assert false;
      }
      RunKeepsOrder(next, actions[1..], s');
    }
  }

  // ---- The appender's critical sections ----

  const BLOCK_LENGTH := 150 * 1024
  const RECORD_MAX := 16 * 1024

  function Concat(rs: seq<seq<byte>>): seq<byte>
  {
    if rs == [] then [] else Concat(rs[..|rs| - 1]) + rs[|rs| - 1]
  }

  lemma {:induction false} ConcatAppend(a: seq<seq<byte>>, b: seq<seq<byte>>)
    ensures Concat(a + b) == Concat(a) + Concat(b)
  {
    if b == [] {
      assert a + b == a && Concat(a) + [] == Concat(a);
    } else {
      var n := |b| - 1;
      ConcatAppend(a, b[..n]);
      assert (a + b)[..|a + b| - 1] == a + b[..n];
      assert Concat(a) + (Concat(b[..n]) + b[n]) == Concat(a) + Concat(b[..n]) + b[n];
    }
  }

  /** The appender without compression and encryption, as octets, with the records they stand
      for. */
  class Appender {
    const log: LogBuffer
    var chunks: seq<seq<byte>> // what each flushing thread has taken
    var file: seq<byte>
    ghost var records: State<seq<byte>>

    ghost predicate Valid()
      reads this, log, log.buff, log.buff.parray, log.crypt
    {
      && log.Valid() && !log.isCompress && log.base == [] && log.buff.maxLength == BLOCK_LENGTH
      && log.plain == Concat(records.buffer) && file == Concat(records.file)
      && |chunks| == |records.taken| && forall t :: 0 <= t < |chunks| ==> chunks[t] == Concat(records.taken[t])
    }

    constructor (log: LogBuffer, threads: nat)
      requires log.Valid() && !log.isCompress && log.buff.length == 0 && log.buff.maxLength == BLOCK_LENGTH
      ensures Valid() && this.log == log && records == Initial(threads)
    {
      this.log := log;
      chunks := seq(threads, _ => []);
      file := [];
      records := Initial(threads);
    }

    /** Appends a formatted record, or the warning text instead if the buffer is four fifths
        full; tells whether the flushing thread is to be woken. */
    method AppendAsync(record: seq<byte>, warning: seq<byte>, hour: byte) returns (ok: bool, wake: bool)
      requires Valid() && |record| <= RECORD_MAX
      requires log.buff.length + |warning| + HEADER_LEN + TAILER_LEN <= BLOCK_LENGTH
      modifies this`records, log, log.buff, log.buff.parray, log.crypt
      ensures Valid() && log.buff.parray == old(log.buff.parray)
      ensures var r := if old(log.buff.length) >= 122880 then warning else record;
        && ok == (|r| > 0)
        && records == (if ok then Step(old(records), Accept(r)) else old(records))
        && log.plain == (if ok then old(log.plain) + r else old(log.plain))
        && (ok ==> records.accepted == old(records.accepted) + [r] && records.buffer == old(records.buffer) + [r])
      ensures wake <==> ok && log.buff.length >= 51200
    {
      hide LE32, Encrypt, LogBuffer.State, Concat;
      var r := record;
      if log.buff.length >= BLOCK_LENGTH * 4 / 5 {
        r := warning;
      }
      ghost var images;
      ok, images := log.Write(r, [], true, true, hour);
      wake := false;
      if ok {
        ConcatAppend(records.buffer, [r]);
        OneRecord(r);
        records := Step(records, Accept(r));
        wake := log.buff.length >= BLOCK_LENGTH / 3;
      }
    }

    /** Thread t takes everything that is in the buffer. */
    method TakeBuffer(t: nat, hour: byte)
      requires Valid() && Enabled(records, Take(t))
      modifies this`records, this`chunks, log, log.buff, log.buff.parray
      ensures Valid() && log.buff.parray == old(log.buff.parray) && log.buff.length == 0
      ensures records == Step(old(records), Take(t))
      ensures chunks == old(chunks)[t := old(log.plain)] && log.plain == []
      ensures records.taken == old(records).taken[t := old(records).buffer] && records.buffer == []
      ensures records.accepted == old(records).accepted && records.file == old(records).file
    {
      var out := new AutoBuffer();
      BodyOfFlush(log, hour);
      log.Flush(out, hour, false);
      chunks := chunks[t := out.parray[..out.length]];
      records := Step(records, Take(t));
    }

    /** Thread t writes what it has taken to the file. */
    method StoreTaken(t: nat)
      requires Valid() && Enabled(records, Store(t))
      modifies this`records, this`chunks, this`file
      ensures Valid() && records == Step(old(records), Store(t))
      ensures file == old(file) + old(chunks)[t] && chunks == old(chunks)[t := []]
      ensures records.file == old(records).file + old(records).taken[t] && records.taken == old(records).taken[t := []]
      ensures records.accepted == old(records).accepted && records.buffer == old(records).buffer
    {
      ConcatAppend(records.file, records.taken[t]);
      file := file + chunks[t];
      chunks := chunks[t := []];
      records := Step(records, Store(t));
    }

    /** A record written past the buffer. */
    method WriteDirect(record: seq<byte>)
      requires Valid()
      modifies this`records, this`file
      ensures Valid() && records == Step(old(records), Direct(record))
      ensures file == old(file) + record && records.file == old(records).file + [record]
      ensures records.accepted == old(records).accepted + [record]
    {
      ConcatAppend(records.file, [record]);
      OneRecord(record);
      file := file + record;
      records := Step(records, Direct(record));
    }

    /** With a single flushing thread the octets of the file, those in flight and those in the
        buffer are, in this order, the accepted records. */
    lemma OctetsInOrder()
      requires Valid() && InOrder(records)
      ensures |chunks| > 0 && file + chunks[0] + log.plain == Concat(records.accepted)
    {
      ConcatAppend(records.file, records.taken[0]);
      ConcatAppend(records.file + records.taken[0], records.buffer);
    }
  }

  /** An appender over zeroed memory, without key and compression. */
  method EmptyAppender(clientPubkey: seq<byte>, key: Key, threads: nat) returns (a: Appender)
    requires |clientPubkey| == 64
    ensures a.Valid() && a.records == Initial(threads) && fresh(a)
  {
    var crypt := new LogCrypt(false, key, clientPubkey);
    var mem := new byte[BLOCK_LENGTH](_ => 0);
    var log := new LogBuffer(mem, false, crypt);
    a := new Appender(log, threads);
  }

  lemma OneRecord(r: seq<byte>)
    ensures Concat([r]) == r
  {
    assert [r][..0] == [] && Concat([]) == [];
    assert [] + r == r;
  }

  lemma BodyOfFlush(log: LogBuffer, hour: byte)
    requires log.Valid() && !log.isCompress && log.base == []
    ensures FlushOutput(log.buff.parray[..], hour, false) == log.plain
  {
    var mem, len := log.buff.parray[..], log.buff.length;
    hide LE32;
    if len > 0 {
      assert mem[..len][LENGTH_AT..LENGTH_AT + 4] == mem[LENGTH_AT..LENGTH_AT + 4];
      assert mem[HEADER_LEN..len] == log.base + log.plain == log.plain;
    }
  }
}
