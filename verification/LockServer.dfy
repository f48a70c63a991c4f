/**
 * The lock server (CSE/cselab2backup/lock_server.cc) as a step system: threads
 * run acquire and release under one mutex and one condition variable.
 */
module LockServer {

  type Tid = nat
  type Lid = nat

  datatype Pc =
    | Idle
    | AcqLock(lid: Lid)    // entering acquire, about to lock the mutex
    | AcqCheck(lid: Lid)   // holds the mutex, about to test lockState[lid] for the first time
    | Waiting(lid: Lid)    // in pthread_cond_wait, mutex released
    | Woken(lid: Lid)      // left the wait queue, about to lock the mutex again
    | Recheck(lid: Lid)    // woken and holding the mutex, about to test lockState[lid] again
    | AcqSet(lid: Lid)     // found lockState[lid] clear, about to set it
    | AcqExit(lid: Lid)    // has set lockState[lid], about to unlock the mutex
    | RelLock(lid: Lid)    // entering release
    | RelCheck(lid: Lid)   // holds the mutex, about to test lockState[lid]
    | RelClear(lid: Lid)   // found lockState[lid] set, about to clear it
    | RelSignal(lid: Lid)  // has cleared lockState[lid], about to signal
    | RelExit(lid: Lid)    // about to unlock the mutex

  datatype Owner = Nobody | By(tid: Tid)

  /** `grants` and `releases` count, per lock, the acquires that set it and the releases that cleared it. */
  datatype State = State(mutex: Owner, lockState: map<Lid, bool>, pcs: map<Tid, Pc>,
                         grants: map<Lid, nat>, releases: map<Lid, nat>)

  /** What a thread does next. A signal names the waiter it wakes; waiters may also wake on their own. */
  datatype Step =
    | CallAcquire(lid: Lid)
    | CallRelease(lid: Lid)
    | LockMutex
    | Test
    | WakeUp
    | Set
    | Clear
    | Signal(woken: Tid)
    | SignalNobody
    | UnlockMutex

  function Held(s: State, lid: Lid): bool {
    lid in s.lockState && s.lockState[lid]
  }

  function Count(m: map<Lid, nat>, lid: Lid): nat {
    if lid in m then m[lid] else 0
  }

  function PcOf(s: State, t: Tid): Pc {
    if t in s.pcs then s.pcs[t] else Idle
  }

  predicate Inside(pc: Pc) {
    || pc.AcqCheck? || pc.Recheck? || pc.AcqSet? || pc.AcqExit?
    || pc.RelCheck? || pc.RelClear? || pc.RelSignal? || pc.RelExit?
  }

  ghost predicate SomeWaiting(s: State) {
    exists t :: PcOf(s, t).Waiting?
  }

  ghost predicate Can(s: State, t: Tid, e: Step) {
    match e
    case CallAcquire(_) => PcOf(s, t).Idle?
    case CallRelease(_) => PcOf(s, t).Idle?
    case LockMutex => s.mutex == Nobody && (PcOf(s, t).AcqLock? || PcOf(s, t).RelLock? || PcOf(s, t).Woken?)
    case Test => PcOf(s, t).AcqCheck? || PcOf(s, t).Recheck? || PcOf(s, t).RelCheck?
    case WakeUp => PcOf(s, t).Waiting?
    case Set => PcOf(s, t).AcqSet?
    case Clear => PcOf(s, t).RelClear?
    case Signal(w) => PcOf(s, t).RelSignal? && PcOf(s, w).Waiting?
    case SignalNobody => PcOf(s, t).RelSignal? && !SomeWaiting(s)
    case UnlockMutex => PcOf(s, t).AcqExit? || PcOf(s, t).RelExit?
  }

  /** Where a thread that locks the mutex goes on. */
  function Entered(pc: Pc): Pc {
    match pc
    case AcqLock(lid) => AcqCheck(lid)
    case Woken(lid) => Recheck(lid)
    case RelLock(lid) => RelCheck(lid)
    case _ => pc
  }

  /** Where the test leads; going to wait gives up the mutex in the same step, as pthread_cond_wait does. */
  function Tested(pc: Pc, held: bool): Pc {
    match pc
    case AcqCheck(lid) => if held then Waiting(lid) else AcqSet(lid)
    case Recheck(lid) => if held then Waiting(lid) else AcqSet(lid)
    case RelCheck(lid) => if held then RelClear(lid) else RelExit(lid)
    case _ => pc
  }

  ghost function Do(s: State, t: Tid, e: Step): State
    requires Can(s, t, e)
  {
    var pc := PcOf(s, t);
    match e
    case CallAcquire(lid) => s.(pcs := s.pcs[t := AcqLock(lid)])
    case CallRelease(lid) => s.(pcs := s.pcs[t := RelLock(lid)])
    case LockMutex => s.(mutex := By(t), pcs := s.pcs[t := Entered(pc)])
    case Test =>
      var next := Tested(pc, Held(s, pc.lid));
      s.(mutex := if next.Waiting? then Nobody else s.mutex, pcs := s.pcs[t := next])
    case WakeUp => s.(pcs := s.pcs[t := Woken(pc.lid)])
    case Set =>
      s.(lockState := s.lockState[pc.lid := true],
         grants := s.grants[pc.lid := Count(s.grants, pc.lid) + 1],
         pcs := s.pcs[t := AcqExit(pc.lid)])
    case Clear =>
      s.(lockState := s.lockState[pc.lid := false],
         releases := s.releases[pc.lid := Count(s.releases, pc.lid) + 1],
         pcs := s.pcs[t := RelSignal(pc.lid)])
    case Signal(w) => s.(pcs := s.pcs[t := RelExit(pc.lid)][w := Woken(PcOf(s, w).lid)])
    case SignalNobody => s.(pcs := s.pcs[t := RelExit(pc.lid)])
    case UnlockMutex => s.(mutex := Nobody, pcs := s.pcs[t := Idle])
  }

  const START: State := State(Nobody, map[], map[], map[], map[])

  /** A run: one thread takes one step at a time. */
  ghost predicate IsRun(run: seq<(Tid, Step)>, states: seq<State>) {
    && |states| == |run| + 1 && states[0] == START
    && forall k: nat | k < |run| ::
         Can(states[k], run[k].0, run[k].1) && states[k + 1] == Do(states[k], run[k].0, run[k].1)
  }

  // ---------- safety ----------

  /** The mutex is held by exactly the thread that is inside. */
  ghost predicate Exclusive(s: State) {
    forall t: Tid :: Inside(PcOf(s, t)) <==> s.mutex == By(t)
  }

  /** What a thread inside found out about its lock. */
  predicate Knows(s: State, pc: Pc) {
    && (pc.AcqSet? || pc.RelSignal? ==> !Held(s, pc.lid))
    && (pc.RelClear? ==> Held(s, pc.lid))
  }

  ghost predicate Balanced(s: State) {
    forall lid: Lid :: Count(s.grants, lid) == Count(s.releases, lid) + if Held(s, lid) then 1 else 0
  }

  /** Mutual exclusion; a set lock is granted once more than released; a test still holds when it is acted on. */
  ghost predicate Safe(s: State) {
    Exclusive(s) && Balanced(s) && forall t: Tid :: Knows(s, PcOf(s, t))
  }

  lemma ExclusiveStep(s: State, t: Tid, e: Step)
    requires Exclusive(s) && Can(s, t, e)
    ensures Exclusive(Do(s, t, e))
  {
    var s' := Do(s, t, e);
    forall u: Tid
      ensures Inside(PcOf(s', u)) <==> s'.mutex == By(u)
    {
      assert Inside(PcOf(s, u)) <==> s.mutex == By(u);
      assert Inside(PcOf(s, t)) <==> s.mutex == By(t);
    }
  }

  /** Nobody else changes a lock between a test and the step that acts on it: it would have to be inside. */
  lemma KnowsStep(s: State, t: Tid, e: Step, u: Tid)
    requires Safe(s) && Can(s, t, e)
    ensures Knows(Do(s, t, e), PcOf(Do(s, t, e), u))
  {
    assert Knows(s, PcOf(s, u)) && Knows(s, PcOf(s, t));
    if u != t {
      assert Inside(PcOf(s, u)) <==> s.mutex == By(u);
      assert Inside(PcOf(s, t)) <==> s.mutex == By(t);
    }
  }

  /** Setting a lock that is set, or clearing one that is clear, would unbalance the counts. */
  lemma BalancedStep(s: State, t: Tid, e: Step)
    requires Balanced(s) && Can(s, t, e) && Knows(s, PcOf(s, t))
    ensures Balanced(Do(s, t, e))
  {
  }

  lemma SafeStep(s: State, t: Tid, e: Step)
    requires Safe(s) && Can(s, t, e)
    ensures Safe(Do(s, t, e))
  {
    hide Exclusive, Balanced, Can, Do, Knows;
    ExclusiveStep(s, t, e);
    BalancedStep(s, t, e);
    forall u: Tid
      ensures Knows(Do(s, t, e), PcOf(Do(s, t, e), u))
    {
      KnowsStep(s, t, e, u);
    }
  }

  /** In every state of every run, grants minus releases is 0 or 1 and says whether the lock is set. */
  lemma {:induction false} AlwaysSafe(run: seq<(Tid, Step)>, states: seq<State>, k: nat)
    requires IsRun(run, states) && k < |states|
    ensures Safe(states[k])
  {
    if k > 0 {
      AlwaysSafe(run, states, k - 1);
      SafeStep(states[k - 1], run[k - 1].0, run[k - 1].1);
    }
  }

  // ---------- wake-ups ----------

  /** A woken thread is due to test `lid` again. */
  ghost predicate Due(s: State, lid: Lid) {
    exists t :: PcOf(s, t) == Woken(lid) || PcOf(s, t) == Recheck(lid)
  }

  ghost predicate WaitsFor(s: State, lid: Lid) {
    exists t :: PcOf(s, t) == Waiting(lid)
  }

  /** The lock is clear, nobody is about to set it and no release of it is about to signal. */
  ghost predicate Free(s: State, lid: Lid) {
    !Held(s, lid) && forall t :: PcOf(s, t) != AcqSet(lid) && PcOf(s, t) != RelSignal(lid)
  }

  /** A free lock with a waiter has a woken thread due to recheck it. */
  ghost predicate NoLostWakeUp(s: State, lid: Lid) {
    Free(s, lid) && WaitsFor(s, lid) ==> Due(s, lid)
  }

  /** The step that loses a wake-up: a signal for `lid` that goes to a thread waiting for another lock. */
  ghost predicate Misdirected(s: State, t: Tid, e: Step, lid: Lid) {
    && e.Signal? && PcOf(s, t) == RelSignal(lid) && PcOf(s, e.woken) != Waiting(lid)
    && WaitsFor(s, lid) && !Due(s, lid)
  }

  /** A step loses a wake-up of a lock exactly when its signal is misdirected. */
  lemma WakeUpStep(s: State, t: Tid, e: Step, lid: Lid)
    requires Safe(s) && Can(s, t, e) && NoLostWakeUp(s, lid)
    ensures NoLostWakeUp(Do(s, t, e), lid) <==> !Misdirected(s, t, e, lid)
  {
    if Misdirected(s, t, e, lid) {
      MisdirectedLoses(s, t, e, lid);
    } else {
      DirectedKeeps(s, t, e, lid);
    }
  }

  lemma MisdirectedLoses(s: State, t: Tid, e: Step, lid: Lid)
    requires Safe(s) && Can(s, t, e) && Misdirected(s, t, e, lid)
    ensures !NoLostWakeUp(Do(s, t, e), lid)
  {
    var s' := Do(s, t, e);
    var u :| PcOf(s, u) == Waiting(lid);
    assert PcOf(s', u) == Waiting(lid);
    assert Knows(s, PcOf(s, t)) && (Inside(PcOf(s, t)) <==> s.mutex == By(t));
    forall v: Tid
      ensures PcOf(s', v) != Woken(lid) && PcOf(s', v) != Recheck(lid)
      ensures PcOf(s', v) != AcqSet(lid) && PcOf(s', v) != RelSignal(lid)
    {
      assert PcOf(s, v) != Woken(lid) && PcOf(s, v) != Recheck(lid);
      assert Inside(PcOf(s, v)) <==> s.mutex == By(v);
    }
  }

  lemma DirectedKeeps(s: State, t: Tid, e: Step, lid: Lid)
    requires Safe(s) && Can(s, t, e) && NoLostWakeUp(s, lid) && !Misdirected(s, t, e, lid)
    ensures NoLostWakeUp(Do(s, t, e), lid)
  {
    var s' := Do(s, t, e);
    if Free(s', lid) && WaitsFor(s', lid) {
      var u :| PcOf(s', u) == Waiting(lid);
      assert PcOf(s', t) != AcqSet(lid) && PcOf(s', t) != RelSignal(lid);
      if e.Signal? && PcOf(s, t) == RelSignal(lid) && PcOf(s, e.woken) == Waiting(lid) {
        assert PcOf(s', e.woken) == Woken(lid);
      } else {
        StillWaits(s, t, e, lid, u);
        if !Due(s, lid) {
          StillFree(s, t, e, lid);
        }
        StillDue(s, t, e, lid);
      }
    }
  }

  lemma StillWaits(s: State, t: Tid, e: Step, lid: Lid, u: Tid)
    requires Can(s, t, e) && PcOf(Do(s, t, e), u) == Waiting(lid) && !Held(Do(s, t, e), lid)
    ensures PcOf(s, u) == Waiting(lid)
  {
  }

  /** A woken thread stays due until it has tested, and a test of a free lock takes it. */
  lemma StillDue(s: State, t: Tid, e: Step, lid: Lid)
    requires Can(s, t, e) && Due(s, lid) && Free(Do(s, t, e), lid)
    ensures Due(Do(s, t, e), lid)
  {
    var s' := Do(s, t, e);
    var v :| PcOf(s, v) == Woken(lid) || PcOf(s, v) == Recheck(lid);
    assert PcOf(s', t) != AcqSet(lid);
    assert PcOf(s', v) == Woken(lid) || PcOf(s', v) == Recheck(lid);
  }

  lemma StillFree(s: State, t: Tid, e: Step, lid: Lid)
    requires Safe(s) && Can(s, t, e) && Free(Do(s, t, e), lid) && !Due(s, lid)
    requires WaitsFor(s, lid) && !Misdirected(s, t, e, lid)
    requires !(e.Signal? && PcOf(s, t) == RelSignal(lid) && PcOf(s, e.woken) == Waiting(lid))
    ensures Free(s, lid)
  {
    var s' := Do(s, t, e);
    assert PcOf(s', t) != AcqSet(lid) && PcOf(s', t) != RelSignal(lid);
    forall u: Tid
      ensures PcOf(s, u) != AcqSet(lid) && PcOf(s, u) != RelSignal(lid)
    {
      assert PcOf(s', u) != AcqSet(lid) && PcOf(s', u) != RelSignal(lid);
    }
  }

  ghost predicate OnlyLid(run: seq<(Tid, Step)>, lid: Lid) {
    forall k: nat | k < |run| ::
      (run[k].1.CallAcquire? || run[k].1.CallRelease? ==> run[k].1.lid == lid)
  }

  ghost predicate AllAbout(s: State, lid: Lid) {
    forall t: Tid :: PcOf(s, t).Idle? || PcOf(s, t).lid == lid
  }

  lemma AboutStep(s: State, t: Tid, e: Step, lid: Lid)
    requires Can(s, t, e) && AllAbout(s, lid)
    requires e.CallAcquire? || e.CallRelease? ==> e.lid == lid
    ensures AllAbout(Do(s, t, e), lid)
  {
    forall u: Tid
      ensures PcOf(Do(s, t, e), u).Idle? || PcOf(Do(s, t, e), u).lid == lid
    {
      assert PcOf(s, u).Idle? || PcOf(s, u).lid == lid;
      assert PcOf(s, t).Idle? || PcOf(s, t).lid == lid;
    }
  }

  lemma {:induction false} OneLidPcs(run: seq<(Tid, Step)>, states: seq<State>, lid: Lid, k: nat)
    requires IsRun(run, states) && OnlyLid(run, lid) && k < |states|
    ensures AllAbout(states[k], lid)
  {
    if k > 0 {
      OneLidPcs(run, states, lid, k - 1);
      AboutStep(states[k - 1], run[k - 1].0, run[k - 1].1, lid);
    }
  }

  /** In runs that use one lock id, no wake-up is ever lost. */
  lemma {:induction false} OneLidWakesUp(run: seq<(Tid, Step)>, states: seq<State>, lid: Lid, k: nat)
    requires IsRun(run, states) && OnlyLid(run, lid) && k < |states|
    ensures NoLostWakeUp(states[k], lid)
  {
    if k > 0 {
      OneLidWakesUp(run, states, lid, k - 1);
      AlwaysSafe(run, states, k - 1);
      var s, t, e := states[k - 1], run[k - 1].0, run[k - 1].1;
      OneLidPcs(run, states, lid, k - 1);
      assert e.Signal? ==> PcOf(s, e.woken).lid == lid;
      WakeUpStep(s, t, e, lid);
    }
  }

  // ---------- with two lock ids a wake-up can be lost ----------

  ghost predicate Reached(s: State) {
    exists run, states :: IsRun(run, states) && states[|run|] == s
  }

  lemma ReachedStart()
    ensures Reached(START)
  {
    var run: seq<(Tid, Step)> := [];
    assert IsRun(run, [START]);
  }

  lemma ReachedNext(s: State, t: Tid, e: Step)
    requires Reached(s) && Can(s, t, e)
    ensures Reached(Do(s, t, e))
  {
    var run, states :| IsRun(run, states) && states[|run|] == s;
    var run', states' := run + [(t, e)], states + [Do(s, t, e)];
    assert IsRun(run', states') && states'[|run'|] == Do(s, t, e);
  }

  /** Two steps of one thread. */
  lemma ReachedTwo(s: State, t: Tid, e1: Step, e2: Step) returns (s': State)
    requires Reached(s) && Can(s, t, e1) && Can(Do(s, t, e1), t, e2)
    ensures Reached(s') && s' == Do(Do(s, t, e1), t, e2)
  {
    ReachedNext(s, t, e1);
    ReachedNext(Do(s, t, e1), t, e2);
    s' := Do(Do(s, t, e1), t, e2);
  }

  /** Thread `t` acquires a free lock without meeting anybody. */
  lemma TakesLock(s: State, t: Tid, lid: Lid) returns (s': State)
    requires Reached(s) && s.mutex == Nobody && PcOf(s, t) == Idle && !Held(s, lid)
    ensures Reached(s') && s'.mutex == Nobody && s'.pcs == s.pcs[t := Idle]
    ensures s'.lockState == s.lockState[lid := true]
  {
    hide Reached;
    s' := ReachedTwo(s, t, CallAcquire(lid), LockMutex);
    s' := ReachedTwo(s', t, Test, Set);
    ReachedNext(s', t, UnlockMutex);
    s' := Do(s', t, UnlockMutex);
  }

  /** Thread `t` queues for a lock that is held. */
  lemma Queues(s: State, t: Tid, lid: Lid) returns (s': State)
    requires Reached(s) && s.mutex == Nobody && PcOf(s, t) == Idle && Held(s, lid)
    ensures Reached(s') && s'.mutex == Nobody && s'.pcs == s.pcs[t := Waiting(lid)]
    ensures s'.lockState == s.lockState
  {
    hide Reached;
    s' := ReachedTwo(s, t, CallAcquire(lid), LockMutex);
    ReachedNext(s', t, Test);
    s' := Do(s', t, Test);
  }

  /** Thread `t` releases `lid`, and the signal reaches `w`. */
  lemma ReleasesTo(s: State, t: Tid, lid: Lid, w: Tid) returns (s': State)
    requires Reached(s) && s.mutex == Nobody && PcOf(s, t) == Idle && Held(s, lid) && PcOf(s, w).Waiting?
    ensures Reached(s') && s'.mutex == Nobody && s'.pcs == s.pcs[t := Idle][w := Woken(PcOf(s, w).lid)]
    ensures s'.lockState == s.lockState[lid := false]
  {
    hide Reached;
    s' := ReachedTwo(s, t, CallRelease(lid), LockMutex);
    s' := ReachedTwo(s', t, Test, Clear);
    s' := ReachedTwo(s', t, Signal(w), UnlockMutex);
  }

  /** A woken thread finds its lock still held and queues again. */
  lemma QueuesAgain(s: State, t: Tid, lid: Lid) returns (s': State)
    requires Reached(s) && s.mutex == Nobody && PcOf(s, t) == Woken(lid) && Held(s, lid)
    ensures Reached(s') && s'.mutex == Nobody && s'.pcs == s.pcs[t := Waiting(lid)]
    ensures s'.lockState == s.lockState
  {
    hide Reached;
    s' := ReachedTwo(s, t, LockMutex, Test);
  }

  /**
   * Thread 0 holds locks 1 and 2, thread 1 queues for lock 1 and thread 2 for
   * lock 2; releasing lock 1 signals thread 2, which queues again. Lock 1 is
   * free, thread 1 waits for it, and nobody is due to look.
   */
  lemma LostWakeUp() returns (s: State)
    ensures Reached(s) && Free(s, 1) && PcOf(s, 1) == Waiting(1)
    ensures forall lid: Lid :: !Due(s, lid)
    ensures forall t: Tid :: PcOf(s, t).Idle? || PcOf(s, t).Waiting?
  {
    hide Reached;
    ReachedStart();
    s := TakesLock(START, 0, 1);
    s := TakesLock(s, 0, 2);
    s := Queues(s, 1, 1);
    s := Queues(s, 2, 2);
    s := ReleasesTo(s, 0, 1, 2);
    s := QueuesAgain(s, 2, 2);
    assert s.pcs == map[0 := Idle, 1 := Waiting(1), 2 := Waiting(2)];
  }
}
