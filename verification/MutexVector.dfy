/** A lock for groups: any number of holders at a time, as long as all hold it for the same
    vector. */
module MutexVectors {

  // ---- The protocol's sections ----

  /** What the shared lock holds. */
  datatype Shared = Shared(vec: int, count: int)

  /** The effect of one section on the shared lock: whether the caller now holds it, and
      whether it notifies all who wait. */
  datatype Effect = Effect(shared: Shared, locked: bool, notifies: bool)

  /** Entering, whether for the first time or after having waited; not locked means waiting. */
  function Enter(m: Shared, vec: int): Effect
  {
    if m.vec == vec then Effect(m.(count := m.count + 1), true, false)
    else if m.count > 0 then Effect(m, false, false)
    else Effect(Shared(vec, m.count + 1), true, true)
  }

  function Leave(m: Shared): Effect
  {
    Effect(m.(count := m.count - 1), false, m.count - 1 <= 0)
  }

  // ---- The classes ----

  class MutexVector {
    var vec: int
    var count: int

    constructor ()
      ensures Value() == Shared(0, 0)
    {
      vec, count := 0, 0;
    }

    function Value(): Shared
      reads this
    {
      Shared(vec, count)
    }
  }

  class ScopedMutexVector {
    const mutex: MutexVector
    const vec: int
    var isLocked: bool

    constructor (mutex: MutexVector, vec: int)
      ensures this.mutex == mutex && this.vec == vec && !isLocked
    {
      this.mutex, this.vec, isLocked := mutex, vec, false;
    }

    /** Lock, up to its first wait: either the lock is taken or the caller has to wait. */
    method Lock() returns (notifies: bool)
      modifies this`isLocked, mutex
      ensures old(isLocked) ==> isLocked && !notifies && mutex.Value() == old(mutex.Value())
      ensures !old(isLocked) ==> Effect(mutex.Value(), isLocked, notifies) == Enter(old(mutex.Value()), vec)
      ensures !old(isLocked) ==>
        && (isLocked <==> old(mutex.vec) == vec || old(mutex.count) <= 0)
        && mutex.vec == (if isLocked then vec else old(mutex.vec))
        && mutex.count == (if isLocked then old(mutex.count) + 1 else old(mutex.count))
        && (notifies <==> isLocked && old(mutex.vec) != vec)
    {
      notifies := false;
      if isLocked {
        return;
      }
      if mutex.vec == vec {
        mutex.count := mutex.count + 1;
        isLocked := true;
        return;
      }
      notifies := AfterWait();
    }

    /** The loop around the wait, and what follows it: done after every wake-up. */
    method AfterWait() returns (notifies: bool)
      requires !isLocked
      modifies this`isLocked, mutex
      ensures Effect(mutex.Value(), isLocked, notifies) == Enter(old(mutex.Value()), vec)
    {
      notifies := false;
      if mutex.count > 0 && mutex.vec != vec {
        return;
      }
      mutex.count := mutex.count + 1;
      isLocked := true;
      if mutex.vec != vec {
        mutex.vec := vec;
        notifies := true;
      }
    }

    method UnLock() returns (notifies: bool)
      modifies this`isLocked, mutex
      ensures !old(isLocked) ==> !isLocked && !notifies && mutex.Value() == old(mutex.Value())
      ensures old(isLocked) ==> Effect(mutex.Value(), isLocked, notifies) == Leave(old(mutex.Value()))
      ensures old(isLocked) ==>
        && !isLocked && mutex.vec == old(mutex.vec) && mutex.count == old(mutex.count) - 1
        && (notifies <==> mutex.count <= 0)
    {
      notifies := false;
      if !isLocked {
        return;
      }
      mutex.count := mutex.count - 1;
      isLocked := false;
      if 0 >= mutex.count {
        notifies := true;
      }
    }

    /** Like Lock, but gives up instead of waiting. */
    method TryLock() returns (ok: bool, notifies: bool)
      requires mutex.count >= 0
      modifies this`isLocked, mutex
      ensures old(isLocked) ==> !ok && isLocked && !notifies && mutex.Value() == old(mutex.Value())
      ensures !old(isLocked) ==> ok == isLocked && Effect(mutex.Value(), ok, notifies) == Enter(old(mutex.Value()), vec)
      ensures !old(isLocked) ==>
        && (ok <==> old(mutex.vec) == vec || old(mutex.count) == 0)
        && mutex.vec == (if ok then vec else old(mutex.vec))
        && mutex.count == (if ok then old(mutex.count) + 1 else old(mutex.count))
        && (notifies <==> ok && old(mutex.vec) != vec)
    {
      ok, notifies := false, false;
      if isLocked {
        return;
      }
      if mutex.vec == vec {
        mutex.count := mutex.count + 1;
        isLocked := true;
        return true, false;
      }
      if mutex.count > 0 {
        return;
      }
      mutex.vec := vec;
      mutex.count := 1;
      isLocked := true;
      return true, true;
    }
  }

  // ---- All threads together ----

  /** Outside, waiting (and perhaps notified since), or holding the lock. */
  datatype Status = Outside | Waiting(notified: bool) | Inside

  datatype Thread = Thread(vec: int, status: Status)

  datatype System = System(shared: Shared, threads: seq<Thread>)

  datatype Action = Lock(t: nat) | Resume(t: nat) | UnLock(t: nat) | TryLock(t: nat)

  /** A waiting thread may resume at any time: notified, or spuriously. */
  predicate Enabled(s: System, a: Action)
  {
    match a
    case Lock(t) => t < |s.threads| && s.threads[t].status == Outside
    case Resume(t) => t < |s.threads| && s.threads[t].status.Waiting?
    case UnLock(t) => t < |s.threads| && s.threads[t].status == Inside
    case TryLock(t) => t < |s.threads| && s.threads[t].status == Outside
  }

  function WakeAll(threads: seq<Thread>): (r: seq<Thread>)
    ensures |r| == |threads|
  {
    seq(|threads|, i requires 0 <= i < |threads| =>
      if threads[i].status.Waiting? then threads[i].(status := Waiting(true)) else threads[i])
  }

  /** The system after thread t's section had this effect. */
  function Apply(s: System, t: nat, e: Effect, otherwise: Status): System
    requires t < |s.threads|
  {
    var others := if e.notifies then WakeAll(s.threads) else s.threads;
    System(e.shared, others[t := s.threads[t].(status := if e.locked then Inside else otherwise)])
  }

  function Step(s: System, a: Action): System
    requires Enabled(s, a)
  {
    match a
    case Lock(t) => Apply(s, t, Enter(s.shared, s.threads[t].vec), Waiting(false))
    case Resume(t) => Apply(s, t, Enter(s.shared, s.threads[t].vec), Waiting(false))
    case UnLock(t) => Apply(s, t, Leave(s.shared), Outside)
    case TryLock(t) => Apply(s, t, Enter(s.shared, s.threads[t].vec), Outside)
  }

  /** Thread t comes to the given status and the lock to the given state; all other threads stay as
      they are, but for those waiting if they are notified. */
  ghost predicate Becomes(s: System, s': System, t: nat, status: Status, shared: Shared, notifies: bool)
  {
    && s'.shared == shared && t < |s.threads| == |s'.threads|
    && forall u :: 0 <= u < |s.threads| ==>
         s'.threads[u] == s.threads[u].(status :=
           if u == t then status
           else if notifies && s.threads[u].status.Waiting? then Waiting(true)
           else s.threads[u].status)
  }

  /** A thread gets in if the lock is held for its vector or by nobody, and else waits, or goes away
      if it only tries; it notifies those waiting if it changes the vector, and on leaving if it is
      the last one. */
  lemma StepIs(s: System, t: nat)
    requires t < |s.threads|
    ensures var (x, m) := (s.threads[t], s.shared);
      var enters := m.vec == x.vec || m.count <= 0;
      var after := if enters then Shared(x.vec, m.count + 1) else m;
      var changes := enters && m.vec != x.vec;
      match x.status
      case Outside =>
        && Enabled(s, Lock(t)) && Enabled(s, TryLock(t))
        && Becomes(s, Step(s, Lock(t)), t, if enters then Inside else Waiting(false), after, changes)
        && Becomes(s, Step(s, TryLock(t)), t, if enters then Inside else Outside, after, changes)
      case Waiting(_) =>
        && Enabled(s, Resume(t))
        && Becomes(s, Step(s, Resume(t)), t, if enters then Inside else Waiting(false), after, changes)
      case Inside =>
        && Enabled(s, UnLock(t))
        && Becomes(s, Step(s, UnLock(t)), t, Outside, Shared(m.vec, m.count - 1), m.count - 1 <= 0)
  {}

  function Holders(threads: seq<Thread>): nat
  {
    if threads == [] then 0
    else Holders(threads[..|threads| - 1]) + (if threads[|threads| - 1].status == Inside then 1 else 0)
  }

  /** The count is the number of holders, who all hold for the current vector; and whoever
      waits without having been notified is right to wait. */
  ghost predicate Good(s: System)
  {
    && s.shared.count == Holders(s.threads)
    && (forall t :: 0 <= t < |s.threads| && s.threads[t].status == Inside ==> s.threads[t].vec == s.shared.vec)
    && (forall t :: 0 <= t < |s.threads| && s.threads[t].status == Waiting(false) ==>
          s.shared.count > 0 && s.shared.vec != s.threads[t].vec)
  }

  lemma {:induction false} HoldersUpdate(threads: seq<Thread>, t: nat, x: Thread)
    requires t < |threads|
    ensures Holders(threads[t := x]) + (if threads[t].status == Inside then 1 else 0)
         == Holders(threads) + (if x.status == Inside then 1 else 0)
  {
    var n := |threads| - 1;
    var after := threads[t := x];
    if t == n {
      assert after[..n] == threads[..n];
    } else {
      HoldersUpdate(threads[..n], t, x);
      assert after[..n] == threads[..n][t := x];
    }
  }

  lemma {:induction false} HoldersAwake(threads: seq<Thread>)
    ensures Holders(WakeAll(threads)) == Holders(threads)
  {
    if threads != [] {
      var n := |threads| - 1;
      HoldersAwake(threads[..n]);
      assert WakeAll(threads)[..n] == WakeAll(threads[..n]);
    }
  }

  lemma {:induction false} NoHolders(threads: seq<Thread>)
    ensures Holders(threads) == 0 <==> forall t :: 0 <= t < |threads| ==> threads[t].status != Inside
  {
    if threads != [] {
      var n := |threads| - 1;
      NoHolders(threads[..n]);
      assert forall t :: 0 <= t < n ==> threads[..n][t] == threads[t];
    }
  }

  lemma EnterGood(s: System, t: nat, otherwise: Status)
    requires Good(s) && t < |s.threads| && s.threads[t].status != Inside
    requires otherwise == Waiting(false) || otherwise == Outside
    ensures Good(Apply(s, t, Enter(s.shared, s.threads[t].vec), otherwise))
  {
    var e := Enter(s.shared, s.threads[t].vec);
    var x := s.threads[t].(status := if e.locked then Inside else otherwise);
    HoldersAwake(s.threads);
    HoldersUpdate(s.threads, t, x);
    HoldersUpdate(WakeAll(s.threads), t, x);
    NoHolders(s.threads);
  }

  /** A holder that leaves finds its own vector and a positive count. */
  lemma LeaveGood(s: System, t: nat)
    requires Good(s) && t < |s.threads| && s.threads[t].status == Inside
    ensures s.shared.vec == s.threads[t].vec && s.shared.count >= 1
    ensures Good(Apply(s, t, Leave(s.shared), Outside))
  {
    var x := s.threads[t].(status := Outside);
    HoldersAwake(s.threads);
    HoldersUpdate(s.threads, t, x);
    HoldersUpdate(WakeAll(s.threads), t, x);
    NoHolders(s.threads);
  }

  ghost predicate Runs(s: System, actions: seq<Action>, s': System)
    decreases |actions|
  {
    if actions == [] then s' == s
    else Enabled(s, actions[0]) && Runs(Step(s, actions[0]), actions[1..], s')
  }

  /** Every run, of any number of threads over any vectors, keeps group mutual exclusion. */
  lemma {:induction false} RunGood(s: System, actions: seq<Action>, s': System)
    requires Good(s) && Runs(s, actions, s')
    ensures Good(s')
    decreases |actions|
  {
    if actions != [] {
      match actions[0] {
        case Lock(t) => EnterGood(s, t, Waiting(false));
        case Resume(t) => EnterGood(s, t, Waiting(false));
        case UnLock(t) => LeaveGood(s, t);
        case TryLock(t) => EnterGood(s, t, Outside);
      }
      RunGood(Step(s, actions[0]), actions[1..], s');
    }
  }

  lemma {:induction false} InitialGood(threads: seq<Thread>)
    requires forall t :: 0 <= t < |threads| ==> threads[t].status == Outside
    ensures Good(System(Shared(0, 0), threads))
  {
    NoHolders(threads);
  }

  predicate BothInside(s: System, t: int, u: int)
  {
    0 <= t < |s.threads| && 0 <= u < |s.threads| && s.threads[t].status == Inside && s.threads[u].status == Inside
  }

  predicate WaitsInItsTurn(s: System, t: int)
  {
    0 <= t < |s.threads| && s.threads[t].status.Waiting? && (s.shared.count == 0 || s.shared.vec == s.threads[t].vec)
  }

  /** In every reachable state: no two holders have different vectors, and a thread whose turn
      has come (the lock is free, or held for its vector) does not wait unnotified. */
  lemma GroupExclusion(threads: seq<Thread>, actions: seq<Action>, s: System)
    requires forall t :: 0 <= t < |threads| ==> threads[t].status == Outside
    requires Runs(System(Shared(0, 0), threads), actions, s)
    ensures forall t, u :: BothInside(s, t, u) ==> s.threads[t].vec == s.threads[u].vec
    ensures s.shared.count == Holders(s.threads)
    ensures forall t :: WaitsInItsTurn(s, t) ==> s.threads[t].status.notified
  {
    InitialGood(threads);
    RunGood(System(Shared(0, 0), threads), actions, s);
    forall t | WaitsInItsTurn(s, t)
      ensures s.threads[t].status.notified
    {
      assert s.threads[t].status != Waiting(false);
    }
  }
}
