/** Message queues with immediate, delayed, periodic, singleton and cancellable messages, and
    the run loop that serves them. Every method is one critical section under the lock of the
    queue map, so calling the methods in any order is any interleaving of the threads. */
module MessageQueues {

  // ---- Messages ----

  datatype Handler = Handler(queue: nat, seqNo: nat)

  datatype Timing = Immediately | After(after: int) | Period(after: int, period: int)

  /** A pending message. `uid` tells the wrapper objects apart; `started` says that a periodic
      message has been dispatched, so that its period counts and no longer its delay. */
  datatype Wrapper = Wrapper(reg: Handler, seqNo: nat, title: nat, timing: Timing, started: bool, recordTime: int, uid: nat)

  /** The time from which on the message may be dispatched. */
  function Due(w: Wrapper): int
  {
    match w.timing
    case Immediately => w.recordTime
    case After(after) => w.recordTime + after
    case Period(after, period) => w.recordTime + (if w.started then period else after)
  }

  predicate Ready(w: Wrapper, now: int)
  {
    w.timing.Immediately? || Due(w) <= now
  }

  /** How long a message still has to wait. */
  function WaitTime(w: Wrapper, now: int): (t: int)
    ensures t >= 0
  {
    if Ready(w, now) then 0 else Due(w) - now
  }

  /** The wait in terms of the time spent: none for an immediate message, else what is left of the
      delay, or of the period once a periodic message has been dispatched. */
  lemma WaitTimeIs(w: Wrapper, now: int)
    ensures w.timing.Immediately? ==> WaitTime(w, now) == 0
    ensures !w.timing.Immediately? ==>
      var left := (if w.timing.Period? && w.started then w.timing.period else w.timing.after) - (now - w.recordTime);
      WaitTime(w, now) == if left > 0 then left else 0
  {}

  // ---- One queue ----

  datatype Loop = Running | Asleep(deadline: int, notified: bool)

  /** A queue, and what has become of its messages: all uids it ever had, the one-shot messages
      dispatched (in order), the messages cancelled or replaced, the last immediate message
      dispatched, and when each periodic message was last dispatched. */
  datatype Content = Content(breakflag: bool, messages: seq<Wrapper>, loop: Loop,
                             created: set<nat>, done: seq<nat>, removed: set<nat>,
                             lastImmediate: nat, lastDispatch: map<nat, int>)

  const NEW_QUEUE := Content(false, [], Running, {}, [], {}, 0, map[])
  const MAX_WAIT := 10 * 60 * 1000

  function Uids(ms: seq<Wrapper>): set<nat>
  {
    set i | 0 <= i < |ms| :: ms[i].uid
  }

  function Elements(s: seq<nat>): set<nat>
  {
    set i | 0 <= i < |s| :: s[i]
  }

  /** Pending ids are distinct; uids grow along the list. */
  ghost predicate DistinctIds(ms: seq<Wrapper>, lastSeq: nat, lastUid: nat)
  {
    && (forall i, j :: 0 <= i < j < |ms| ==> ms[i].seqNo != ms[j].seqNo && ms[i].uid < ms[j].uid)
    && (forall i :: 0 <= i < |ms| ==> 0 < ms[i].seqNo <= lastSeq && 0 < ms[i].uid <= lastUid)
  }

  /** Every message is in exactly one of three places: pending, dispatched once (unless it is
      periodic), or cancelled or replaced. */
  ghost predicate Accounted(c: Content)
  {
    && c.created == Uids(c.messages) + Elements(c.done) + c.removed
    && Uids(c.messages) !! Elements(c.done) && Uids(c.messages) !! c.removed && Elements(c.done) !! c.removed
    && (forall i, j :: 0 <= i < j < |c.done| ==> c.done[i] != c.done[j])
  }

  /** A loop that sleeps without having been notified has nothing to do before its deadline. */
  ghost predicate NoMissedWakeUp(c: Content)
  {
    c.loop.Asleep? && !c.loop.notified ==>
      !c.breakflag &&
      forall i :: 0 <= i < |c.messages| ==>
        !c.messages[i].timing.Immediately? && Due(c.messages[i]) >= c.loop.deadline
  }

  /** No immediate message is overtaken by one that was posted after it, and a periodic
      message's record time is the time of its last dispatch. */
  ghost predicate Timely(c: Content, now: int)
  {
    && (forall i :: 0 <= i < |c.messages| && c.messages[i].timing.Immediately? ==> c.lastImmediate < c.messages[i].uid)
    && (forall i :: 0 <= i < |c.messages| ==> c.messages[i].recordTime <= now)
    && (forall i :: 0 <= i < |c.messages| ==> PeriodRecorded(c.messages[i], c.lastDispatch))
  }

  ghost predicate PeriodRecorded(w: Wrapper, lastDispatch: map<nat, int>)
  {
    && (w.started ==> w.timing.Period? && w.uid in lastDispatch && lastDispatch[w.uid] == w.recordTime)
    && (!w.started ==> w.uid !in lastDispatch)
  }

  ghost predicate Good(c: Content, lastSeq: nat, lastUid: nat, now: int)
  {
    && DistinctIds(c.messages, lastSeq, lastUid) && Accounted(c) && NoMissedWakeUp(c) && Timely(c, now)
    && c.lastImmediate <= lastUid
    && (forall u :: u in c.created ==> u <= lastUid) && (forall u :: u in c.lastDispatch ==> u <= lastUid)
  }

  // ---- Changes of a queue ----

  function Notified(l: Loop): Loop
  {
    if l.Asleep? then Asleep(l.deadline, true) else l
  }

  function Without(ms: seq<Wrapper>, i: nat): seq<Wrapper>
    requires i < |ms|
  {
    ms[..i] + ms[i + 1..]
  }

  function Push(c: Content, w: Wrapper): Content
  {
    c.(messages := c.messages + [w], created := c.created + {w.uid}, loop := Notified(c.loop))
  }

  function Erase(c: Content, i: nat): Content
    requires i < |c.messages|
  {
    c.(messages := Without(c.messages, i), removed := c.removed + {c.messages[i].uid})
  }

  /** The first message that can be dispatched. */
  function FirstReady(ms: seq<Wrapper>, now: int, from: nat): (i: nat)
    requires from <= |ms|
    ensures from <= i <= |ms| && (i < |ms| ==> Ready(ms[i], now))
    ensures forall j :: from <= j < i ==> !Ready(ms[j], now)
    decreases |ms| - from
  {
    if from == |ms| || Ready(ms[from], now) then from else FirstReady(ms, now, from + 1)
  }

  /** The time until the first of the first n messages falls due, at most ten minutes. */
  function TimeToSleep(ms: seq<Wrapper>, now: int, n: nat): (t: int)
    requires n <= |ms| && forall j :: 0 <= j < n ==> !Ready(ms[j], now)
    ensures 0 < t <= MAX_WAIT && forall j :: 0 <= j < n ==> now + t <= Due(ms[j])
  {
    if n == 0 then MAX_WAIT
    else
      assert !Ready(ms[n - 1], now);
      var t := TimeToSleep(ms, now, n - 1);
      var left := Due(ms[n - 1]) - now;
      if left < t then left else t
  }

  /** What the run loop's critical section does if it is not told to stop. */
  function Serve(c: Content, now: int): Content
  {
    var i := FirstReady(c.messages, now, 0);
    if i == |c.messages| then
      c.(loop := Asleep(now + TimeToSleep(c.messages, now, i), false))
    else
      var w := c.messages[i];
      if w.timing.Period? then
        c.(messages := c.messages[i := w.(started := true, recordTime := now)], loop := Running,
           lastDispatch := c.lastDispatch[w.uid := now])
      else
        c.(messages := Without(c.messages, i), loop := Running, done := c.done + [w.uid],
           lastImmediate := if w.timing.Immediately? then w.uid else c.lastImmediate)
  }

  /** A message may be dispatched if it is immediate or its delay has passed since it was recorded,
      or its period if it has been dispatched before. */
  ghost predicate HasElapsed(w: Wrapper, now: int)
  {
    match w.timing
    case Immediately => true
    case After(after) => now - w.recordTime >= after
    case Period(after, period) => if w.started then now - w.recordTime >= period else now - w.recordTime >= after
  }

  /** Message `at` is the first whose wait is over. It is handed out; a periodic one stays, and its
      period counts from now on, any other is gone. */
  ghost predicate Dispatches(c: Content, c': Content, now: int, message: Wrapper, at: nat)
  {
    && at < |c.messages| && message == c.messages[at]
    && HasElapsed(message, now) && (forall j :: 0 <= j < at ==> !HasElapsed(c.messages[j], now))
    && c'.messages == (if message.timing.Period? then c.messages[at := message.(started := true, recordTime := now)]
                       else c.messages[..at] + c.messages[at + 1..])
    && c'.done == (if message.timing.Period? then c.done else c.done + [message.uid])
    && c'.loop == Running && c'.removed == c.removed && c'.created == c.created && c'.breakflag == c.breakflag
  }

  /** No message's wait is over; the loop sleeps until the first one's is, for ten minutes at most. */
  ghost predicate Sleeps(c: Content, c': Content, now: int)
  {
    && c'.loop.Asleep? && !c'.loop.notified && c' == c.(loop := c'.loop)
    && (forall j :: 0 <= j < |c.messages| ==> !HasElapsed(c.messages[j], now))
    && var end := c'.loop.deadline;
       && now < end <= now + 10 * 60 * 1000
       && (forall j :: 0 <= j < |c.messages| ==> !HasElapsed(c.messages[j], end - 1))
       && (end == now + 10 * 60 * 1000 || exists j :: 0 <= j < |c.messages| && HasElapsed(c.messages[j], end))
  }

  lemma ReadyIs(w: Wrapper, now: int)
    ensures Ready(w, now) <==> HasElapsed(w, now)
    ensures !w.timing.Immediately? ==> HasElapsed(w, Due(w)) && !HasElapsed(w, Due(w) - 1)
  {}

  /** The sleep ends with the first message's wait, or after ten minutes. */
  lemma {:induction false} TimeToSleepIsLeast(ms: seq<Wrapper>, now: int, n: nat)
    requires n <= |ms| && forall j :: 0 <= j < n ==> !Ready(ms[j], now)
    ensures var t := TimeToSleep(ms, now, n);
      t == 10 * 60 * 1000 || exists j :: 0 <= j < n && !ms[j].timing.Immediately? && now + t == Due(ms[j])
  {
    if n > 0 {
      TimeToSleepIsLeast(ms, now, n - 1);
      assert !Ready(ms[n - 1], now);
    }
  }

  /** The loop's section dispatches exactly if some message's wait is over, and sleeps otherwise. */
  lemma ServeIs(c: Content, now: int)
    ensures var i := FirstReady(c.messages, now, 0);
      if exists j :: 0 <= j < |c.messages| && HasElapsed(c.messages[j], now)
      then i < |c.messages| && Dispatches(c, Serve(c, now), now, c.messages[i], i)
      else i == |c.messages| && Sleeps(c, Serve(c, now), now)
  {
    var ms, i := c.messages, FirstReady(c.messages, now, 0);
    forall j | 0 <= j < |ms| ensures Ready(ms[j], now) <==> HasElapsed(ms[j], now) {
      ReadyIs(ms[j], now);
    }
    if i == |ms| {
      SleepsUntilDue(c, now);
    }
  }

  lemma SleepsUntilDue(c: Content, now: int)
    requires FirstReady(c.messages, now, 0) == |c.messages|
    ensures Sleeps(c, Serve(c, now), now)
  {
    var ms, end := c.messages, Serve(c, now).loop.deadline;
    TimeToSleepIsLeast(ms, now, |ms|);
    hide TimeToSleep;
    forall j | 0 <= j < |ms| ensures !HasElapsed(ms[j], now) && !HasElapsed(ms[j], end - 1) {
      assert !Ready(ms[j], now) && now < end <= Due(ms[j]);
      ReadyIs(ms[j], end - 1);
    }
    if end != now + 10 * 60 * 1000 {
      var j :| 0 <= j < |ms| && !ms[j].timing.Immediately? && end == Due(ms[j]);
      ReadyIs(ms[j], end);
    }
  }

  // ---- Invariance ----

  lemma RestOf(ms: seq<Wrapper>, i: nat)
    requires i < |ms|
    ensures |Without(ms, i)| == |ms| - 1
    ensures forall j :: 0 <= j < |ms| - 1 ==> Without(ms, i)[j] == ms[if j < i then j else j + 1]
  {}

  lemma DistinctRest(ms: seq<Wrapper>, i: nat, lastSeq: nat, lastUid: nat)
    requires DistinctIds(ms, lastSeq, lastUid) && i < |ms|
    ensures DistinctIds(Without(ms, i), lastSeq, lastUid)
    ensures forall j :: 0 <= j < |Without(ms, i)| ==>
      Without(ms, i)[j].seqNo != ms[i].seqNo && Without(ms, i)[j].uid != ms[i].uid
  {
    RestOf(ms, i);
    hide Without;
  }

  lemma UidsWithout(ms: seq<Wrapper>, i: nat, lastSeq: nat, lastUid: nat)
    requires DistinctIds(ms, lastSeq, lastUid) && i < |ms|
    ensures Uids(Without(ms, i)) == Uids(ms) - {ms[i].uid} && ms[i].uid in Uids(ms)
    ensures DistinctIds(Without(ms, i), lastSeq, lastUid)
  {
    var rest := Without(ms, i);
    RestOf(ms, i);
    DistinctRest(ms, i, lastSeq, lastUid);
    hide Without, DistinctIds;
    forall u | u in Uids(ms) && u != ms[i].uid
      ensures u in Uids(rest)
    {
      var j :| 0 <= j < |ms| && ms[j].uid == u;
      var k := if j < i then j else j - 1;
      assert rest[k] == ms[j];
    }
    forall u | u in Uids(rest)
      ensures u in Uids(ms) && u != ms[i].uid
    {
      var k :| 0 <= k < |rest| && rest[k].uid == u;
      assert rest[k] == ms[if k < i then k else k + 1];
    }
  }

  lemma PushAccounted(c: Content, w: Wrapper)
    requires Accounted(c) && w.uid !in c.created
    ensures Accounted(Push(c, w))
  {
    var ms := c.messages + [w];
    assert ms[|c.messages|].uid == w.uid;
    forall u | u in Uids(c.messages)
      ensures u in Uids(ms)
    {
      var i :| 0 <= i < |c.messages| && c.messages[i].uid == u;
      assert ms[i].uid == u;
    }
    assert Uids(ms) == Uids(c.messages) + {w.uid};
  }

  lemma PushGood(c: Content, w: Wrapper, lastSeq: nat, lastUid: nat, now: int)
    requires Good(c, lastSeq, lastUid, now)
    requires 0 < w.seqNo <= lastSeq && forall i :: 0 <= i < |c.messages| ==> c.messages[i].seqNo != w.seqNo
    requires w.uid == lastUid + 1 && !w.started && w.recordTime <= now
    ensures Good(Push(c, w), lastSeq, lastUid + 1, now)
  {
    PushAccounted(c, w);
    hide Accounted;
  }

  lemma EraseGood(c: Content, i: nat, lastSeq: nat, lastUid: nat, now: int)
    requires Good(c, lastSeq, lastUid, now) && i < |c.messages|
    ensures Good(Erase(c, i), lastSeq, lastUid, now)
    ensures forall j :: 0 <= j < |Erase(c, i).messages| ==> Erase(c, i).messages[j].seqNo != c.messages[i].seqNo
  {
    UidsWithout(c.messages, i, lastSeq, lastUid);
    DistinctRest(c.messages, i, lastSeq, lastUid);
    RestOf(c.messages, i);
    hide Without;
  }

  lemma BreakGood(c: Content, lastSeq: nat, lastUid: nat, now: int)
    requires Good(c, lastSeq, lastUid, now)
    ensures Good(c.(breakflag := true, loop := Notified(c.loop)), lastSeq, lastUid, now)
  {}

  lemma LaterGood(c: Content, lastSeq: nat, lastUid: nat, now: int, lastSeq': nat, lastUid': nat, now': int)
    requires Good(c, lastSeq, lastUid, now) && lastSeq <= lastSeq' && lastUid <= lastUid' && now <= now'
    ensures Good(c, lastSeq', lastUid', now')
  {}

  /** Serving the queue keeps the invariant; what is dispatched is ready, an immediate message
      goes after every immediate message before it, and a periodic message not before its
      period is over. */
  lemma ServeGood(c: Content, lastSeq: nat, lastUid: nat, now: int)
    requires Good(c, lastSeq, lastUid, now) && !c.breakflag
    ensures Good(Serve(c, now), lastSeq, lastUid, now)
    ensures var i := FirstReady(c.messages, now, 0); i < |c.messages| ==>
      var w := c.messages[i];
      && (w.timing.Immediately? ==> c.lastImmediate < w.uid)
      && (w.uid in c.lastDispatch ==> w.timing.Period? && now >= c.lastDispatch[w.uid] + w.timing.period)
      && (w.uid !in c.lastDispatch && !w.timing.Immediately? ==> now >= w.recordTime + w.timing.after)
  {
    var i := FirstReady(c.messages, now, 0);
    if i < |c.messages| {
      if c.messages[i].timing.Period? {
        ServePeriodic(c, i, lastSeq, lastUid, now);
      } else {
        ServeOnce(c, i, lastSeq, lastUid, now);
      }
    }
  }

  lemma ServeOnce(c: Content, i: nat, lastSeq: nat, lastUid: nat, now: int)
    requires Good(c, lastSeq, lastUid, now) && !c.breakflag
    requires i == FirstReady(c.messages, now, 0) < |c.messages| && !c.messages[i].timing.Period?
    ensures Good(Serve(c, now), lastSeq, lastUid, now)
  {
    var w, s := c.messages[i], Serve(c, now);
    UidsWithout(c.messages, i, lastSeq, lastUid);
    DistinctRest(c.messages, i, lastSeq, lastUid);
    RestOf(c.messages, i);
    hide Without;
    var d := c.done + [w.uid];
    assert d[|c.done|] == w.uid;
    assert forall u :: u in Elements(c.done) ==> u in Elements(d) by {
      forall u | u in Elements(c.done)
        ensures u in Elements(d)
      {
        var k :| 0 <= k < |c.done| && c.done[k] == u;
        assert d[k] == u;
      }
    }
    assert Elements(d) == Elements(c.done) + {w.uid};
    assert forall k :: 0 <= k < |c.done| ==> c.done[k] in Elements(c.done);
    assert forall j :: 0 <= j < i ==> !Ready(c.messages[j], now);
  }

  lemma ServePeriodic(c: Content, i: nat, lastSeq: nat, lastUid: nat, now: int)
    requires Good(c, lastSeq, lastUid, now) && !c.breakflag
    requires i == FirstReady(c.messages, now, 0) < |c.messages| && c.messages[i].timing.Period?
    ensures Good(Serve(c, now), lastSeq, lastUid, now)
  {
    hide Accounted;
    var w, s := c.messages[i], Serve(c, now);
    var ms := s.messages;
    assert forall j :: 0 <= j < |ms| ==> ms[j].uid == c.messages[j].uid && ms[j].seqNo == c.messages[j].seqNo;
    SameUidsAccounted(c, s);
    assert w.uid <= lastUid;
    forall j | 0 <= j < |ms| && j != i
      ensures PeriodRecorded(ms[j], s.lastDispatch)
    {
      assert ms[j] == c.messages[j] && PeriodRecorded(c.messages[j], c.lastDispatch);
      assert ms[j].uid != w.uid;
    }
  }

  lemma SameUidsAccounted(c: Content, s: Content)
    requires Accounted(c) && s.created == c.created && s.done == c.done && s.removed == c.removed
    requires |s.messages| == |c.messages| && forall j :: 0 <= j < |c.messages| ==> s.messages[j].uid == c.messages[j].uid
    ensures Accounted(s)
  {
    assert Uids(s.messages) == Uids(c.messages);
  }

  /** A loop asleep before its deadline and not yet notified has not been told to stop, and no
      pending message can be dispatched. */
  lemma NothingToDo(c: Content, lastSeq: nat, lastUid: nat, now: int)
    requires Good(c, lastSeq, lastUid, now) && c.loop.Asleep? && !c.loop.notified && now < c.loop.deadline
    ensures !c.breakflag
    ensures forall i :: 0 <= i < |c.messages| ==>
      var w := c.messages[i];
      !w.timing.Immediately? &&
      now - w.recordTime < (if w.timing.Period? && w.started then w.timing.period else w.timing.after)
  {
    assert forall i :: 0 <= i < |c.messages| ==> Due(c.messages[i]) >= c.loop.deadline;
  }

  /** A message posted to the queue is in exactly one place: pending, once, under an id of its
      own; dispatched, once; or cancelled or replaced. */
  lemma OnePlace(c: Content, u: nat, lastSeq: nat, lastUid: nat, now: int)
    requires Good(c, lastSeq, lastUid, now) && u in c.created
    ensures var pending := exists i :: 0 <= i < |c.messages| && c.messages[i].uid == u;
      var (done, gone) := (u in c.done, u in c.removed);
      (pending || done || gone) && !(pending && done) && !(pending && gone) && !(done && gone)
    ensures forall i, j :: 0 <= i < |c.done| && 0 <= j < |c.done| && c.done[i] == u && c.done[j] == u ==> i == j
    ensures forall i, j :: 0 <= i < |c.messages| && 0 <= j < |c.messages| && i != j ==>
      c.messages[i].seqNo != c.messages[j].seqNo
  {
    assert u in Uids(c.messages) <==> exists i :: 0 <= i < |c.messages| && c.messages[i].uid == u;
    assert u in Elements(c.done) <==> u in c.done;
    forall i, j | 0 <= i < |c.messages| && 0 <= j < |c.messages| && i != j
      ensures c.messages[i].seqNo != c.messages[j].seqNo
    {
      var a, b := if i < j then i else j, if i < j then j else i;
      assert c.messages[a].seqNo != c.messages[b].seqNo;
    }
  }

  // ---- Finding and cancelling ----

  /** Which messages a search is for: those of a handler, and of a title if one is given. */
  datatype Sought = OfHandler(reg: Handler) | OfTitle(reg: Handler, title: nat)

  predicate Matches(w: Wrapper, q: Sought)
  {
    w.reg == q.reg && (q.OfTitle? ==> w.title == q.title)
  }

  function FirstMatch(ms: seq<Wrapper>, q: Sought, from: nat): (i: nat)
    requires from <= |ms|
    ensures from <= i <= |ms| && (i < |ms| ==> Matches(ms[i], q))
    ensures forall j :: from <= j < i ==> !Matches(ms[j], q)
    decreases |ms| - from
  {
    if from == |ms| || Matches(ms[from], q) then from else FirstMatch(ms, q, from + 1)
  }

  function EraseAll(c: Content, q: Sought, from: nat): Content
    requires from <= |c.messages|
    decreases |c.messages| - from
  {
    if from == |c.messages| then c
    else if Matches(c.messages[from], q) then EraseAll(Erase(c, from), q, from)
    else EraseAll(c, q, from + 1)
  }

  function Kept(ms: seq<Wrapper>, q: Sought): seq<Wrapper>
  {
    if ms == [] then [] else (if Matches(ms[0], q) then [] else [ms[0]]) + Kept(ms[1..], q)
  }

  lemma {:induction false} EraseAllGood(c: Content, q: Sought, from: nat, lastSeq: nat, lastUid: nat, now: int)
    requires Good(c, lastSeq, lastUid, now) && from <= |c.messages|
    ensures Good(EraseAll(c, q, from), lastSeq, lastUid, now)
    decreases |c.messages| - from
  {
    hide Good;
    if from < |c.messages| {
      if Matches(c.messages[from], q) {
        EraseGood(c, from, lastSeq, lastUid, now);
        EraseAllGood(Erase(c, from), q, from, lastSeq, lastUid, now);
      } else {
        EraseAllGood(c, q, from + 1, lastSeq, lastUid, now);
      }
    }
  }

  /** Exactly the messages that do not match are kept, in their order. */
  lemma {:induction false} EraseAllKeeps(c: Content, q: Sought, from: nat)
    requires from <= |c.messages|
    ensures EraseAll(c, q, from).messages == c.messages[..from] + Kept(c.messages[from..], q)
    decreases |c.messages| - from
  {
    var ms := c.messages;
    if from < |ms| {
      assert ms[from..][1..] == ms[from + 1..];
      if Matches(ms[from], q) {
        EraseAllKeeps(Erase(c, from), q, from);
        assert Without(ms, from)[..from] == ms[..from] && Without(ms, from)[from..] == ms[from + 1..];
      } else {
        EraseAllKeeps(c, q, from + 1);
        assert ms[..from + 1] == ms[..from] + [ms[from]];
      }
    }
  }

  /** Those kept are those of another handler, or of another title if one is given. */
  lemma {:induction false} KeptIs(ms: seq<Wrapper>, q: Sought, w: Wrapper)
    ensures w in Kept(ms, q) <==> w in ms && !(w.reg == q.reg && (q.OfTitle? ==> w.title == q.title))
  {
    if ms != [] {
      KeptIs(ms[1..], q, w);
    }
  }

  // ---- Messages of one handler and title ----

  predicate IsOf(w: Wrapper, reg: Handler, title: nat) { w.reg == reg && w.title == title }

  ghost predicate AtMostOne(ms: seq<Wrapper>, reg: Handler, title: nat)
  {
    forall i, j :: 0 <= i < j < |ms| ==> !(IsOf(ms[i], reg, title) && IsOf(ms[j], reg, title))
  }

  /** Message k is pending under the id `post`, and no other one of this handler and title is. */
  ghost predicate OnlyOne(ms: seq<Wrapper>, k: nat, reg: Handler, title: nat, post: nat)
  {
    && k < |ms| && IsOf(ms[k], reg, title) && ms[k].seqNo == post
    && forall j :: 0 <= j < |ms| && j != k ==> !IsOf(ms[j], reg, title)
  }

  /** A message put at the end where there was none, one kept, or one put at the end in place of the
      first is then the only one of its handler and title, if there was one at most. */
  lemma OneIsAdded(ms: seq<Wrapper>, w: Wrapper)
    requires FirstMatch(ms, OfTitle(w.reg, w.title), 0) == |ms|
    ensures OnlyOne(ms + [w], |ms|, w.reg, w.title, w.seqNo)
  {
    assert forall j :: 0 <= j < |ms| ==> Matches(ms[j], OfTitle(w.reg, w.title)) == IsOf(ms[j], w.reg, w.title);
  }

  lemma OneIsKept(ms: seq<Wrapper>, reg: Handler, title: nat, i: nat)
    requires AtMostOne(ms, reg, title) && i == FirstMatch(ms, OfTitle(reg, title), 0) < |ms|
    ensures OnlyOne(ms, i, reg, title, ms[i].seqNo)
  {
    hide FirstMatch;
    assert IsOf(ms[i], reg, title);
    forall j | 0 <= j < |ms| && j != i ensures !IsOf(ms[j], reg, title) {
      assert !(IsOf(ms[if i < j then i else j], reg, title) && IsOf(ms[if i < j then j else i], reg, title));
    }
  }

  lemma OneIsReplaced(ms: seq<Wrapper>, w: Wrapper, i: nat)
    requires AtMostOne(ms, w.reg, w.title) && i == FirstMatch(ms, OfTitle(w.reg, w.title), 0) < |ms|
    ensures OnlyOne(Without(ms, i) + [w], |ms| - 1, w.reg, w.title, w.seqNo)
  {
    hide FirstMatch, AtMostOne, Without;
    OneIsKept(ms, w.reg, w.title, i);
    RestOf(ms, i);
    var rest := Without(ms, i);
    assert forall j :: 0 <= j < |rest| ==> (rest + [w])[j] == ms[if j < i then j else j + 1];
  }

  /** The message left has no longer to wait than the new one w, nor than the first older one of its
      handler and title, whose id it then has. */
  ghost predicate LeavesSooner(was: seq<Wrapper>, ms: seq<Wrapper>, at: nat, w: Wrapper, now: int)
  {
    && at < |ms| && IsOf(ms[at], w.reg, w.title) && ms[at].seqNo == w.seqNo
    && WaitTime(ms[at], now) <= WaitTime(w, now)
    && (forall j :: 0 <= j < |was| && FirstOf(was, j, w.reg, w.title) ==>
          ms[at].seqNo == was[j].seqNo && WaitTime(ms[at], now) <= WaitTime(was[j], now))
    && (AtMostOne(was, w.reg, w.title) ==> OnlyOne(ms, at, w.reg, w.title, ms[at].seqNo))
  }

  ghost predicate FirstOf(ms: seq<Wrapper>, j: nat, reg: Handler, title: nat)
  {
    j < |ms| && IsOf(ms[j], reg, title) && forall k :: 0 <= k < j ==> !IsOf(ms[k], reg, title)
  }

  lemma SameWait(w: Wrapper, w': Wrapper, now: int)
    requires w' == w.(seqNo := w'.seqNo)
    ensures WaitTime(w', now) == WaitTime(w, now)
  {}

  lemma FirstOfIs(ms: seq<Wrapper>, j: nat, reg: Handler, title: nat)
    ensures FirstOf(ms, j, reg, title) <==> j == FirstMatch(ms, OfTitle(reg, title), 0) < |ms|
  {
    var q, i := OfTitle(reg, title), FirstMatch(ms, OfTitle(reg, title), 0);
    assert forall k :: 0 <= k < |ms| ==> Matches(ms[k], q) == IsOf(ms[k], reg, title);
  }

  /** Keeping the older message if it has less to wait, and replacing it otherwise, leaves the sooner. */
  lemma FasterLeaves(was: seq<Wrapper>, ms: seq<Wrapper>, at: nat, w: Wrapper, i: nat, now: int)
    requires i == FirstMatch(was, OfTitle(w.reg, w.title), 0)
    requires if i == |was| then ms == was + [w] && at == i
             else w.seqNo == was[i].seqNo && if WaitTime(was[i], now) < WaitTime(w, now) then ms == was && at == i
             else ms == Without(was, i) + [w] && at == |was| - 1
    ensures LeavesSooner(was, ms, at, w, now)
  {
    hide FirstMatch, WaitTime, AtMostOne, OnlyOne, FirstOf, Without;
    forall j | 0 <= j < |was| ensures FirstOf(was, j, w.reg, w.title) <==> j == i {
      FirstOfIs(was, j, w.reg, w.title);
    }
    if i == |was| {
      OneIsAdded(was, w);
    } else {
      RestOf(was, i);
      if AtMostOne(was, w.reg, w.title) {
        OneIsKept(was, w.reg, w.title, i);
        OneIsReplaced(was, w, i);
      }
    }
  }

  // ---- The queues ----

  class QueueMap {
    var queues: map<nat, Content>
    var lastSeq: nat
    var lastUid: nat
    var now: int

    ghost predicate Valid()
      reads this
    {
      now >= 0 && forall id :: id in queues ==> Good(queues[id], lastSeq, lastUid, now)
    }

    constructor ()
      ensures Valid() && queues == map[]
    {
      queues, lastSeq, lastUid, now := map[], 0, 0, 0;
    }

    method MakeSeq() returns (s: nat)
      modifies this`lastSeq
      ensures s == lastSeq == old(lastSeq) + 1
    {
      lastSeq := lastSeq + 1;
      s := lastSeq;
    }

    /** A new wrapper: delays and periods count from now. */
    method MakeWrapper(reg: Handler, title: nat, timing: Timing, seqNo: nat) returns (w: Wrapper)
      modifies this`lastUid
      ensures lastUid == old(lastUid) + 1
      ensures w == NewWrapper(reg, title, timing, seqNo, old(lastUid) + 1, now)
    {
      lastUid := lastUid + 1;
      w := Wrapper(reg, seqNo, title, timing, false, if timing.Immediately? then 0 else now, lastUid);
    }

    method CreateQueue(id: nat)
      requires Valid()
      modifies this
      ensures Valid() && now == old(now) && lastUid == old(lastUid)
      ensures queues == if id in old(queues) then old(queues)
                        else old(queues)[id := Content(false, [], Running, {}, [], {}, 0, map[])]
    {
      if id !in queues {
        var handlerSeq := MakeSeq();
        queues := queues[id := NEW_QUEUE];
      }
    }

    /** Replaces one queue; the others stay as they are. */
    method SetQueue(id: nat, c: Content)
      requires now >= 0 && Good(c, lastSeq, lastUid, now)
      requires forall q :: q in queues && q != id ==> Good(queues[q], lastSeq, lastUid, now)
      modifies this`queues
      ensures Valid() && queues == old(queues)[id := c]
    {
      queues := queues[id := c];
    }

    lemma Later(seqNo: nat, uid: nat, time: int)
      requires Valid() && lastSeq <= seqNo && lastUid <= uid && now <= time
      ensures forall id :: id in queues ==> Good(queues[id], seqNo, uid, time)
    {
      forall id | id in queues
        ensures Good(queues[id], seqNo, uid, time)
      {
        LaterGood(queues[id], lastSeq, lastUid, now, seqNo, uid, time);
      }
    }

    /** Appends a message; 0 if there is no such queue, else its id. */
    method PostMessage(reg: Handler, title: nat, timing: Timing) returns (post: nat)
      requires Valid()
      modifies this
      ensures Valid() && now == old(now)
      ensures reg.queue !in old(queues) ==> post == 0 && queues == old(queues)
      ensures reg.queue in old(queues) ==>
        && post == old(lastSeq) + 1
        && queues == old(queues)[reg.queue := Push(old(queues)[reg.queue],
                                                   NewWrapper(reg, title, timing, post, old(lastUid) + 1, now))]
      ensures reg.queue in old(queues) ==>
        var c := old(queues)[reg.queue];
        var time := if timing.Immediately? then 0 else now;
        queues == old(queues)[reg.queue := c.(
          messages := c.messages + [Wrapper(reg, post, title, timing, false, time, old(lastUid) + 1)],
          created := c.created + {old(lastUid) + 1},
          loop := if c.loop.Asleep? then Asleep(c.loop.deadline, true) else c.loop)]
    {
      hide Good;
      if reg.queue !in queues {
        return 0;
      }
      var content := queues[reg.queue];
      ghost var s, u := lastSeq, lastUid;
      Later(s + 1, u, now);
      Later(s + 1, u + 1, now);
      var seqNo := MakeSeq();
      var w := MakeWrapper(reg, title, timing, seqNo);
      FreshSeq(content, s, u, now);
      PushGood(content, w, s + 1, u, now);
      SetQueue(reg.queue, Push(content, w));
      post := seqNo;
    }

    /** A message to all handlers of a queue that want broadcasts. */
    method BroadcastMessage(queue: nat, title: nat, timing: Timing) returns (post: nat)
      requires Valid()
      modifies this
      ensures Valid() && now == old(now)
      ensures queue !in old(queues) ==> post == 0 && queues == old(queues)
      ensures queue in old(queues) ==>
        && post == old(lastSeq) + 1
        && queues == old(queues)[queue := Push(old(queues)[queue],
                                               NewWrapper(Handler(queue, 0), title, timing, post, old(lastUid) + 1, now))]
    {
      post := PostMessage(Handler(queue, 0), title, timing);
    }

    /** At most one pending message of this handler and title: an older one is kept, or
        replaced by the new one under the older one's id. */
    method SingletonMessage(replace: bool, reg: Handler, title: nat, timing: Timing) returns (post: nat, ghost at: nat)
      requires Valid()
      modifies this
      ensures Valid() && now == old(now)
      ensures reg.queue !in old(queues) ==> post == 0 && queues == old(queues)
      ensures reg.queue in old(queues) ==>
        var c := old(queues)[reg.queue];
        var i := FirstMatch(c.messages, OfTitle(reg, title), 0);
        if i == |c.messages| then
          && post == old(lastSeq) + 1
          && queues == old(queues)[reg.queue := Push(c, NewWrapper(reg, title, timing, post, old(lastUid) + 1, now))]
        else
          && post == c.messages[i].seqNo
          && queues == if replace then
               old(queues)[reg.queue := Push(Erase(c, i), NewWrapper(reg, title, timing, post, old(lastUid) + 1, now))]
             else old(queues)
      ensures reg.queue in old(queues) && AtMostOne(old(queues)[reg.queue].messages, reg, title) ==>
        OnlyOne(queues[reg.queue].messages, at, reg, title, post)
    {
      hide Good, FirstMatch, AtMostOne, OnlyOne;
      at := 0;
      if reg.queue !in queues {
        return 0, at;
      }
      var content := queues[reg.queue];
      var i := Find(content.messages, OfTitle(reg, title));
      at := i;
      if i == |content.messages| {
        post := PostMessage(reg, title, timing);
      } else if replace {
        at := |content.messages| - 1;
        post := content.messages[i].seqNo;
        ReplaceMessage(reg.queue, i, title, timing);
      } else {
        post := content.messages[i].seqNo;
      }
      ghost var w := NewWrapper(reg, title, timing, post, old(lastUid) + 1, now);
      if i == |content.messages| {
        OneIsAdded(content.messages, w);
      } else if AtMostOne(content.messages, reg, title) {
        OneIsKept(content.messages, reg, title, i);
        OneIsReplaced(content.messages, w, i);
      }
    }

    /** Puts a new message at the end in place of message i, under that message's id. */
    method ReplaceMessage(queue: nat, i: nat, title: nat, timing: Timing)
      requires Valid() && queue in queues && i < |queues[queue].messages|
      modifies this`queues, this`lastUid
      ensures Valid()
      ensures var c := old(queues)[queue];
        queues == old(queues)[queue := Push(Erase(c, i), NewWrapper(c.messages[i].reg, title, timing, c.messages[i].seqNo,
                                                                    old(lastUid) + 1, now))]
    {
      hide Good;
      var content := queues[queue];
      ghost var u := lastUid;
      Later(lastSeq, u + 1, now);
      PendingSeq(content, i, lastSeq, u, now);
      var w := MakeWrapper(content.messages[i].reg, title, timing, content.messages[i].seqNo);
      EraseGood(content, i, lastSeq, u, now);
      PushGood(Erase(content, i), w, lastSeq, u, now);
      SetQueue(queue, Push(Erase(content, i), w));
    }

    /** Like a replacing singleton, unless the pending message has less time left to wait. */
    method FasterMessage(reg: Handler, title: nat, timing: Timing) returns (post: nat, ghost at: nat)
      requires Valid()
      modifies this
      ensures Valid() && now == old(now)
      ensures reg.queue !in old(queues) ==> post == 0 && queues == old(queues)
      ensures reg.queue in old(queues) ==>
        var c := old(queues)[reg.queue];
        var i := FirstMatch(c.messages, OfTitle(reg, title), 0);
        var w := NewWrapper(reg, title, timing, post, old(lastUid) + 1, now);
        if i == |c.messages| then
          post == old(lastSeq) + 1 && queues == old(queues)[reg.queue := Push(c, w)]
        else
          && post == c.messages[i].seqNo
          && queues == if WaitTime(c.messages[i], now) < WaitTime(w, now) then old(queues)
                       else old(queues)[reg.queue := Push(Erase(c, i), w)]
      ensures reg.queue in old(queues) ==>
        LeavesSooner(old(queues)[reg.queue].messages, queues[reg.queue].messages, at,
                     NewWrapper(reg, title, timing, post, old(lastUid) + 1, now), now)
    {
      hide Good, FirstMatch, WaitTime, LeavesSooner;
      at := 0;
      if reg.queue !in queues {
        return 0, at;
      }
      var content := queues[reg.queue];
      ghost var s, u, was := lastSeq, lastUid, content.messages;
      Later(s + 1, u, now);
      Later(s + 1, u + 1, now);
      FreshSeq(content, s, u, now);
      var seqNo := MakeSeq();
      var w := MakeWrapper(reg, title, timing, seqNo);
      var i := Find(content.messages, OfTitle(reg, title));
      at := i;
      if i < |content.messages| {
        var older := content.messages[i];
        if WaitTime(older, now) < WaitTime(w, now) {
          SameWait(w, w.(seqNo := older.seqNo), now);
          FasterLeaves(was, was, at, w.(seqNo := older.seqNo), i, now);
          return older.seqNo, at;
        }
        SameWait(w, w.(seqNo := older.seqNo), now);
        w := w.(seqNo := older.seqNo);
        PendingSeq(content, i, s + 1, u, now);
        EraseGood(content, i, s + 1, u, now);
        content := Erase(content, i);
        at := |was| - 1;
      }
      PushGood(content, w, s + 1, u, now);
      FasterLeaves(was, Push(content, w).messages, at, w, i, now);
      SetQueue(reg.queue, Push(content, w));
      post := w.seqNo;
    }

    /** The first message sought, or the end of the list. */
    method Find(ms: seq<Wrapper>, q: Sought) returns (i: nat)
      ensures i == FirstMatch(ms, q, 0)
    {
      i := 0;
      while i < |ms| && !Matches(ms[i], q)
        invariant 0 <= i <= |ms| && FirstMatch(ms, q, i) == FirstMatch(ms, q, 0)
      {
        i := i + 1;
      }
    }

    /** Removes the pending message with this id, if there is one. */
    method CancelPost(reg: Handler, seqNo: nat) returns (found: bool)
      requires Valid()
      modifies this`queues
      ensures Valid()
      ensures found ==> reg.queue in old(queues) && exists i ::
        0 <= i < |old(queues)[reg.queue].messages| && old(queues)[reg.queue].messages[i].reg == reg
        && old(queues)[reg.queue].messages[i].seqNo == seqNo
        && queues == old(queues)[reg.queue := Erase(old(queues)[reg.queue], i)]
        && queues[reg.queue].messages
           == old(queues)[reg.queue].messages[..i] + old(queues)[reg.queue].messages[i + 1..]
        && queues[reg.queue].removed == old(queues)[reg.queue].removed + {old(queues)[reg.queue].messages[i].uid}
      ensures !found ==> queues == old(queues)
      ensures !found && reg.queue != 0 && seqNo != 0 && reg.queue in queues ==>
        forall i :: 0 <= i < |queues[reg.queue].messages| ==>
          queues[reg.queue].messages[i].reg != reg || queues[reg.queue].messages[i].seqNo != seqNo
    {
      hide Good;
      if reg.queue == 0 || seqNo == 0 || reg.queue !in queues {
        return false;
      }
      var content := queues[reg.queue];
      var i := 0;
      while i < |content.messages|
        invariant 0 <= i <= |content.messages| && queues == old(queues) && Valid()
        invariant forall j :: 0 <= j < i ==> content.messages[j].reg != reg || content.messages[j].seqNo != seqNo
      {
        if content.messages[i].reg == reg && content.messages[i].seqNo == seqNo {
          EraseGood(content, i, lastSeq, lastUid, now);
          SetQueue(reg.queue, Erase(content, i));
          return true;
        }
        i := i + 1;
      }
      found := false;
    }

    /** Removes all pending messages of a handler, or only those with a given title. */
    method CancelAll(q: Sought)
      requires Valid()
      modifies this`queues
      ensures Valid()
      ensures queues == if q.reg.queue != 0 && q.reg.queue in old(queues)
                        then old(queues)[q.reg.queue := EraseAll(old(queues)[q.reg.queue], q, 0)] else old(queues)
      ensures q.reg.queue != 0 && q.reg.queue in old(queues) ==>
        && queues[q.reg.queue].messages == Kept(old(queues)[q.reg.queue].messages, q)
        && forall w :: w in queues[q.reg.queue].messages <==>
             w in old(queues)[q.reg.queue].messages && !(w.reg == q.reg && (q.OfTitle? ==> w.title == q.title))
    {
      hide Good;
      var id := q.reg.queue;
      if id == 0 || id !in queues {
        return;
      }
      var content := queues[id];
      ghost var before := content;
      var i := 0;
      while i < |content.messages|
        invariant 0 <= i <= |content.messages|
        invariant EraseAll(content, q, i) == EraseAll(before, q, 0)
        invariant queues == old(queues) && Valid()
        decreases |content.messages| - i
      {
        if Matches(content.messages[i], q) {
          content := Erase(content, i);
        } else {
          i := i + 1;
        }
      }
      EraseAllGood(before, q, 0, lastSeq, lastUid, now);
      EraseAllKeeps(before, q, 0);
      assert before.messages[..0] == [] && before.messages[0..] == before.messages;
      assert [] + Kept(before.messages, q) == Kept(before.messages, q);
      forall w ensures w in Kept(before.messages, q) <==>
        w in before.messages && !(w.reg == q.reg && (q.OfTitle? ==> w.title == q.title)) {
        KeptIs(before.messages, q, w);
      }
      SetQueue(id, content);
    }

    /** Tells the loop to stop. */
    method BreakRunloop(id: nat)
      requires Valid()
      modifies this`queues
      ensures Valid()
      ensures queues == if id in old(queues) then
          var l := old(queues)[id].loop;
          old(queues)[id := old(queues)[id].(breakflag := true, loop := if l.Asleep? then Asleep(l.deadline, true) else l)]
        else old(queues)
    {
      hide Good;
      if id in queues {
        var content := queues[id];
        BreakGood(content, lastSeq, lastUid, now);
        SetQueue(id, content.(breakflag := true, loop := Notified(content.loop)));
      }
    }

    /** The run loop's critical section: stop and release the queue, or dispatch the first
        message whose wait is over, or go to sleep; breaker is what the caller's own test for
        stopping answers. */
    method RunSection(id: nat, breaker: bool) returns (stopped: bool, dispatched: bool, message: Wrapper, ghost at: nat)
      requires Valid() && id in queues && queues[id].loop.Running?
      modifies this`queues
      ensures Valid()
      ensures stopped == (old(queues)[id].breakflag || breaker)
      ensures stopped ==> queues == old(queues) - {id} && !dispatched
      ensures !stopped ==> queues == old(queues)[id := Serve(old(queues)[id], now)]
      ensures !stopped && dispatched ==> Dispatches(old(queues)[id], queues[id], now, message, at)
      ensures !stopped && !dispatched ==> Sleeps(old(queues)[id], queues[id], now)
      ensures !stopped ==> (dispatched <==> exists i :: 0 <= i < |old(queues)[id].messages| &&
                                             HasElapsed(old(queues)[id].messages[i], now))
    {
      hide Good;
      var content := queues[id];
      message := Wrapper(Handler(0, 0), 0, 0, Immediately, false, 0, 0);
      at := 0;
      if content.breakflag || breaker {
        queues := queues - {id};
        return true, false, message, at;
      }
      stopped := false;
      ServeGood(content, lastSeq, lastUid, now);
      var ms, waitTime, i := content.messages, MAX_WAIT, 0;
      while i < |ms| && !Ready(ms[i], now)
        invariant 0 <= i <= |ms| && FirstReady(ms, now, i) == FirstReady(ms, now, 0)
        invariant forall j :: 0 <= j < i ==> !Ready(ms[j], now)
        invariant waitTime == TimeToSleep(ms, now, i)
      {
        var left := Due(ms[i]) - now;
        waitTime := if left < waitTime then left else waitTime;
        i := i + 1;
      }
      dispatched := i < |ms|;
      at := i;
      ServeIs(content, now);
      if !dispatched {
        content := content.(loop := Asleep(now + waitTime, false));
      } else {
        message := ms[i];
        if message.timing.Period? {
          content := content.(messages := ms[i := message.(started := true, recordTime := now)], loop := Running,
                              lastDispatch := content.lastDispatch[message.uid := now]);
        } else {
          content := content.(messages := Without(ms, i), loop := Running, done := content.done + [message.uid],
                              lastImmediate := if message.timing.Immediately? then message.uid else content.lastImmediate);
        }
      }
      SetQueue(id, content);
    }

    /** The loop wakes: it was notified, its time is up, or for no reason at all. */
    method WakeUp(id: nat)
      requires Valid() && id in queues && queues[id].loop.Asleep?
      modifies this`queues
      ensures Valid() && queues == old(queues)[id := old(queues)[id].(loop := Running)]
    {
      SetQueue(id, queues[id].(loop := Running));
    }

    method Tick(time: int)
      requires Valid() && now <= time
      modifies this`now
      ensures Valid() && now == time
    {
      hide Good;
      Later(lastSeq, lastUid, time);
      now := time;
    }
  }

  function NewWrapper(reg: Handler, title: nat, timing: Timing, seqNo: nat, uid: nat, now: int): Wrapper
  {
    Wrapper(reg, seqNo, title, timing, false, if timing.Immediately? then 0 else now, uid)
  }

  lemma FreshSeq(c: Content, lastSeq: nat, lastUid: nat, now: int)
    requires Good(c, lastSeq, lastUid, now)
    ensures Good(c, lastSeq + 1, lastUid, now)
    ensures forall i :: 0 <= i < |c.messages| ==> c.messages[i].seqNo != lastSeq + 1
  {}

  lemma PendingSeq(c: Content, i: nat, lastSeq: nat, lastUid: nat, now: int)
    requires Good(c, lastSeq, lastUid, now) && i < |c.messages|
    ensures 0 < c.messages[i].seqNo <= lastSeq
  {}
}
