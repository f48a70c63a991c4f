/**
 * Clients that take locks in pairs, smaller id first (CSE/lab/namenode_base.cc,
 * DualLock and DualUnlock), each call served by a thread of the lock server.
 */
module DualLock {

  import opened LockServer

  type Cid = Tid

  /** The ids DualLock acquires, in order. */
  function Plan(a: Lid, b: Lid): (p: seq<Lid>)
    ensures 1 <= |p| <= 2 && a in p && b in p && forall x | x in p :: x == a || x == b
    ensures |p| == 2 ==> p[0] < p[1]
  {
    if a < b then [a, b] else if a > b then [b, a] else [a]
  }

  /** The ids DualUnlock releases, in order. */
  function UnlockPlan(a: Lid, b: Lid): seq<Lid> {
    if a == b then [a] else [a, b]
  }

  datatype Client =
    | Away
    | Locking(have: seq<Lid>, todo: seq<Lid>, a: Lid, b: Lid)
    | Locked(a: Lid, b: Lid)
    | Unlocking(todo: seq<Lid>)

  /** `owner` remembers who has set a lock. */
  datatype Clients = Clients(server: State, clients: map<Cid, Client>, owner: map<Lid, Cid>)

  /** What a client does next; Serve is a step of the server's thread that runs its call. */
  datatype Move = Begin(a: Lid, b: Lid) | Serve(step: Step) | Finish | BeginUnlock | Done

  function At(s: Clients, c: Cid): Client {
    if c in s.clients then s.clients[c] else Away
  }

  function CallOf(s: Clients, c: Cid): Pc {
    PcOf(s.server, c)
  }

  ghost predicate CanMove(s: Clients, c: Cid, m: Move) {
    var k := At(s, c);
    match m
    case Begin(_, _) => k.Away?
    case Serve(e) =>
      && Can(s.server, c, e)
      && (e.CallAcquire? ==> k.Locking? && k.todo != [] && e.lid == k.todo[0])
      && (e.CallRelease? ==> k.Unlocking? && k.todo != [] && e.lid == k.todo[0])
    case Finish => k.Locking? && k.todo == []
    case BeginUnlock => k.Locked?
    case Done => k.Unlocking? && k.todo == []
  }

  /** A client's call returns. */
  function Returned(k: Client): Client {
    match k
    case Locking(have, todo, a, b) => if todo == [] then k else Locking(have + [todo[0]], todo[1..], a, b)
    case Unlocking(todo) => if todo == [] then k else Unlocking(todo[1..])
    case _ => k
  }

  ghost function Next(s: Clients, c: Cid, m: Move): Clients
    requires CanMove(s, c, m)
  {
    var k := At(s, c);
    match m
    case Begin(a, b) => s.(clients := s.clients[c := Locking([], Plan(a, b), a, b)])
    case Serve(e) =>
      Clients(Do(s.server, c, e),
              if e.UnlockMutex? then s.clients[c := Returned(k)] else s.clients,
              if e.Set? then s.owner[CallOf(s, c).lid := c]
              else if e.Clear? then s.owner - {CallOf(s, c).lid} else s.owner)
    case Finish => s.(clients := s.clients[c := Locked(k.a, k.b)])
    case BeginUnlock => s.(clients := s.clients[c := Unlocking(UnlockPlan(k.a, k.b))])
    case Done => s.(clients := s.clients[c := Away])
  }

  const NOBODY: Clients := Clients(START, map[], map[])

  ghost predicate IsCourse(run: seq<(Cid, Move)>, states: seq<Clients>) {
    && |states| == |run| + 1 && states[0] == NOBODY
    && forall k: nat | k < |run| ::
         CanMove(states[k], run[k].0, run[k].1) && states[k + 1] == Next(states[k], run[k].0, run[k].1)
  }

  // ---------- who holds what ----------

  predicate Acquiring(pc: Pc) {
    pc.AcqLock? || pc.AcqCheck? || pc.Waiting? || pc.Woken? || pc.Recheck? || pc.AcqSet? || pc.AcqExit?
  }

  predicate Releasing(pc: Pc) {
    pc.RelLock? || pc.RelCheck? || pc.RelClear? || pc.RelSignal? || pc.RelExit?
  }

  /** The locks a client holds, read off where it and its call are. */
  function Holding(k: Client, pc: Pc): seq<Lid> {
    match k
    case Away => []
    case Locking(have, _, _, _) => if pc.AcqExit? then have + [pc.lid] else have
    case Locked(a, b) => UnlockPlan(a, b)
    case Unlocking(todo) => if todo != [] && (pc.RelSignal? || pc.RelExit?) then todo[1..] else todo
  }

  /** A client has taken a prefix of its plan, so what it holds is below what it still wants. */
  ghost predicate Ordered(k: Client, pc: Pc) {
    match k
    case Locking(have, todo, a, b) =>
      have + todo == Plan(a, b) && (pc.Idle? || (todo != [] && Acquiring(pc) && pc.lid == todo[0]))
    case Unlocking(todo) =>
      && |todo| <= 2 && (|todo| == 2 ==> todo[0] != todo[1])
      && (pc.Idle? || (todo != [] && Releasing(pc) && pc.lid == todo[0]))
    case _ => pc.Idle?
  }

  ghost predicate AllOrdered(s: Clients) {
    forall c: Cid :: Ordered(At(s, c), CallOf(s, c))
  }

  ghost predicate Owns(s: Clients, l: Lid, c: Cid) {
    l in s.owner && s.owner[l] == c
  }

  ghost predicate OwnersHold(s: Clients) {
    forall l: Lid, c: Cid :: Owns(s, l, c) <==> l in Holding(At(s, c), CallOf(s, c))
  }

  ghost predicate OwnedIsHeld(s: Clients) {
    forall l: Lid :: Held(s.server, l) <==> l in s.owner
  }

  ghost predicate Inv(s: Clients) {
    Safe(s.server) && AllOrdered(s) && OwnersHold(s) && OwnedIsHeld(s)
  }

  /** A step leaves the other clients where they are; a signal wakes one of their calls. */
  lemma OthersStay(s: Clients, c: Cid, m: Move, d: Cid)
    requires CanMove(s, c, m) && d != c
    ensures At(Next(s, c, m), d) == At(s, d)
    ensures CallOf(Next(s, c, m), d) == CallOf(s, d)
         || (CallOf(s, d).Waiting? && CallOf(Next(s, c, m), d) == Woken(CallOf(s, d).lid))
    ensures Holding(At(Next(s, c, m), d), CallOf(Next(s, c, m), d)) == Holding(At(s, d), CallOf(s, d))
    ensures Ordered(At(s, d), CallOf(s, d)) ==> Ordered(At(Next(s, c, m), d), CallOf(Next(s, c, m), d))
  {
    OtherCall(s, c, m, d);
    hide CanMove, Next;
  }

  lemma OtherCall(s: Clients, c: Cid, m: Move, d: Cid)
    requires CanMove(s, c, m) && d != c
    ensures At(Next(s, c, m), d) == At(s, d)
    ensures CallOf(Next(s, c, m), d) == CallOf(s, d)
         || (CallOf(s, d).Waiting? && CallOf(Next(s, c, m), d) == Woken(CallOf(s, d).lid))
  {
  }

  lemma OwnOrdered(s: Clients, c: Cid, m: Move)
    requires CanMove(s, c, m) && Ordered(At(s, c), CallOf(s, c))
    ensures Ordered(At(Next(s, c, m), c), CallOf(Next(s, c, m), c))
  {
    if m.Serve? {
      if m.step.UnlockMutex? {
        ReturnOrdered(s, c);
      } else {
        ServeOrdered(s, c, m.step);
      }
    }
  }

  lemma ReturnOrdered(s: Clients, c: Cid)
    requires CanMove(s, c, Serve(UnlockMutex)) && Ordered(At(s, c), CallOf(s, c))
    ensures Ordered(At(Next(s, c, Serve(UnlockMutex)), c), CallOf(Next(s, c, Serve(UnlockMutex)), c))
  {
    var k := At(s, c);
    if k.Locking? && k.todo != [] {
      assert k.have + [k.todo[0]] + k.todo[1..] == k.have + k.todo;
    }
  }

  lemma ServeOrdered(s: Clients, c: Cid, e: Step)
    requires CanMove(s, c, Serve(e)) && Ordered(At(s, c), CallOf(s, c)) && !e.UnlockMutex?
    ensures Ordered(At(Next(s, c, Serve(e)), c), CallOf(Next(s, c, Serve(e)), c))
  {
  }

  /** A release finds its lock set. */
  lemma ReleasesHeld(s: Clients, c: Cid)
    requires Inv(s) && CallOf(s, c).RelCheck?
    ensures Held(s.server, CallOf(s, c).lid)
  {
    var k, pc := At(s, c), CallOf(s, c);
    assert Ordered(k, pc);
    assert k.todo[0] in Holding(k, pc) && Owns(s, k.todo[0], c);
  }

  /** How one step changes the locks held by the client that takes it. */
  ghost predicate HeldAfter(s: Clients, c: Cid, m: Move, l: Lid)
    requires CanMove(s, c, m)
  {
    l in Holding(At(Next(s, c, m), c), CallOf(Next(s, c, m), c)) <==>
      (l in Holding(At(s, c), CallOf(s, c)) && !(m == Serve(Clear) && l == CallOf(s, c).lid))
      || (m == Serve(Set) && l == CallOf(s, c).lid)
  }

  lemma OwnHolding(s: Clients, c: Cid, m: Move, l: Lid)
    requires Ordered(At(s, c), CallOf(s, c)) && CanMove(s, c, m)
    requires CallOf(s, c).RelCheck? ==> Held(s.server, CallOf(s, c).lid)
    ensures HeldAfter(s, c, m, l)
  {
    hide CanMove, Next, Ordered, HeldAfter;
    if !m.Serve? {
      ClientHolding(s, c, m, l);
    } else if Releasing(CallOf(s, c)) {
      ReleaseHolding(s, c, m.step, l);
    } else {
      AcquireHolding(s, c, m.step, l);
    }
  }

  lemma ClientHolding(s: Clients, c: Cid, m: Move, l: Lid)
    requires Ordered(At(s, c), CallOf(s, c)) && CanMove(s, c, m) && !m.Serve?
    ensures HeldAfter(s, c, m, l)
  {
    if m.Finish? {
      assert At(s, c).have == Plan(At(s, c).a, At(s, c).b);
    }
  }

  lemma ReleaseHolding(s: Clients, c: Cid, e: Step, l: Lid)
    requires Ordered(At(s, c), CallOf(s, c)) && CanMove(s, c, Serve(e)) && Releasing(CallOf(s, c))
    requires CallOf(s, c).RelCheck? ==> Held(s.server, CallOf(s, c).lid)
    ensures HeldAfter(s, c, Serve(e), l)
  {
    var k := At(s, c);
    assert k.Unlocking? && k.todo == [k.todo[0]] + k.todo[1..];
  }

  lemma AcquireHolding(s: Clients, c: Cid, e: Step, l: Lid)
    requires Ordered(At(s, c), CallOf(s, c)) && CanMove(s, c, Serve(e)) && !Releasing(CallOf(s, c))
    ensures HeldAfter(s, c, Serve(e), l)
  {
    if e.UnlockMutex? {
      GotHolding(s, c, l);
    } else if e.Set? {
      SetHolding(s, c, l);
    } else {
      AskHolding(s, c, e, l);
    }
  }

  lemma GotHolding(s: Clients, c: Cid, l: Lid)
    requires CanMove(s, c, Serve(UnlockMutex)) && Ordered(At(s, c), CallOf(s, c)) && !Releasing(CallOf(s, c))
    ensures HeldAfter(s, c, Serve(UnlockMutex), l)
  {
  }

  lemma SetHolding(s: Clients, c: Cid, l: Lid)
    requires CanMove(s, c, Serve(Set)) && Ordered(At(s, c), CallOf(s, c))
    ensures HeldAfter(s, c, Serve(Set), l)
  {
  }

  lemma AskHolding(s: Clients, c: Cid, e: Step, l: Lid)
    requires CanMove(s, c, Serve(e)) && !Releasing(CallOf(s, c)) && !e.Set? && !e.UnlockMutex?
    requires Ordered(At(s, c), CallOf(s, c))
    ensures HeldAfter(s, c, Serve(e), l)
  {
    hide Plan, Ordered;
    var s' := Next(s, c, Serve(e));
    CallKept(s, c, e);
    assert At(s', c) == At(s, c);
    assert OrderedParts(At(s, c), CallOf(s, c)) by {
      OrderedIs(At(s, c), CallOf(s, c));
    }
  }

  /** Away and Locked clients are in no call, and only Unlocking ones in a release. */
  predicate OrderedParts(k: Client, pc: Pc) {
    match k
    case Locking(_, _, _, _) => !Releasing(pc)
    case Unlocking(_) => !Acquiring(pc)
    case _ => pc.Idle?
  }

  lemma OrderedIs(k: Client, pc: Pc)
    requires Ordered(k, pc)
    ensures OrderedParts(k, pc)
  {
  }

  lemma CallKept(s: Clients, c: Cid, e: Step)
    requires CanMove(s, c, Serve(e)) && !Releasing(CallOf(s, c)) && !e.Set? && !e.UnlockMutex?
    ensures !CallOf(s, c).AcqExit? && e != Clear
    ensures var pc := CallOf(Next(s, c, Serve(e)), c); !pc.AcqExit? && !pc.RelSignal? && !pc.RelExit?
  {
  }

  lemma OwnersStep(s: Clients, c: Cid, m: Move)
    requires Inv(s) && CanMove(s, c, m)
    ensures OwnersHold(Next(s, c, m))
  {
    var s' := Next(s, c, m);
    OwnerMap(s, c, m);
    hide Next, CanMove, Holding, Ordered, Safe, OwnedIsHeld;
    forall l: Lid, d: Cid
      ensures Owns(s', l, d) <==> l in Holding(At(s', d), CallOf(s', d))
    {
      assert Owns(s, l, d) <==> l in Holding(At(s, d), CallOf(s, d));
      assert Owns(s, l, c) <==> l in Holding(At(s, c), CallOf(s, c));
      if d == c {
        assert Ordered(At(s, c), CallOf(s, c));
        if CallOf(s, c).RelCheck? {
          ReleasesHeld(s, c);
        }
        OwnHolding(s, c, m, l);
      } else {
        OthersStay(s, c, m, d);
      }
    }
  }

  /** A lock is set only when nobody owns it, and cleared only by its owner. */
  lemma OwnerMap(s: Clients, c: Cid, m: Move)
    requires Inv(s) && CanMove(s, c, m)
    ensures Next(s, c, m).owner
         == if m == Serve(Set) then s.owner[CallOf(s, c).lid := c]
            else if m == Serve(Clear) then s.owner - {CallOf(s, c).lid} else s.owner
    ensures m == Serve(Set) ==> CallOf(s, c).lid !in s.owner
    ensures m == Serve(Clear) ==> Owns(s, CallOf(s, c).lid, c)
  {
    var k, pc := At(s, c), CallOf(s, c);
    assert Ordered(k, pc) && Knows(s.server, pc);
    if m == Serve(Clear) {
      assert k.todo[0] in Holding(k, pc);
    }
  }

  lemma HeldStep(s: Clients, c: Cid, m: Move)
    requires OwnedIsHeld(s) && CanMove(s, c, m)
    ensures OwnedIsHeld(Next(s, c, m))
  {
  }

  lemma InvStep(s: Clients, c: Cid, m: Move)
    requires Inv(s) && CanMove(s, c, m)
    ensures Inv(Next(s, c, m))
  {
    var s' := Next(s, c, m);
    OwnersStep(s, c, m);
    HeldStep(s, c, m);
    assert Safe(s'.server) by {
      if m.Serve? {
        SafeStep(s.server, c, m.step);
      }
    }
    hide Next, CanMove, Ordered, Safe;
    forall d: Cid
      ensures Ordered(At(s', d), CallOf(s', d))
    {
      assert Ordered(At(s, d), CallOf(s, d));
      if d == c {
        OwnOrdered(s, c, m);
      } else {
        OthersStay(s, c, m, d);
      }
    }
  }

  lemma {:induction false} AlwaysInv(run: seq<(Cid, Move)>, states: seq<Clients>, k: nat)
    requires IsCourse(run, states) && k < |states|
    ensures Inv(states[k])
  {
    hide CanMove, Next;
    if k > 0 {
      AlwaysInv(run, states, k - 1);
      InvStep(states[k - 1], run[k - 1].0, run[k - 1].1);
    }
  }

  // ---------- no deadlock ----------

  /** The call asks for a lock and has not got it. */
  predicate Asks(pc: Pc) {
    pc.AcqLock? || pc.AcqCheck? || pc.Waiting? || pc.Woken? || pc.Recheck?
  }

  predicate Blocked(s: Clients, c: Cid) {
    Asks(CallOf(s, c)) && CallOf(s, c).lid in s.owner
  }

  function Wants(s: Clients, c: Cid): Lid
    requires Asks(CallOf(s, c))
  {
    CallOf(s, c).lid
  }

  predicate WaitsOn(s: Clients, c: Cid, d: Cid) {
    Blocked(s, c) && s.owner[Wants(s, c)] == d
  }

  /** What a client holds is below what it asks for. */
  lemma HoldsBelow(s: Clients, d: Cid, l: Lid)
    requires Inv(s) && Owns(s, l, d) && Asks(CallOf(s, d))
    ensures l < Wants(s, d)
  {
    var k, pc := At(s, d), CallOf(s, d);
    assert l in Holding(k, pc);
    assert Ordered(k, pc);
    assert |k.have| == 1 && k.have[0] == l;
    assert Plan(k.a, k.b)[0] == k.have[0] && Plan(k.a, k.b)[1] == k.todo[0];
  }

  ghost predicate IsCycle(s: Clients, cs: seq<Cid>) {
    cs != [] && forall i: nat | i < |cs| :: WaitsOn(s, cs[i], cs[if i + 1 < |cs| then i + 1 else 0])
  }

  lemma {:induction false} CycleClimbs(s: Clients, cs: seq<Cid>, i: nat)
    requires Inv(s) && IsCycle(s, cs) && i < |cs|
    ensures Blocked(s, cs[0]) && Blocked(s, cs[i]) && Wants(s, cs[0]) + i <= Wants(s, cs[i])
  {
    hide Inv;
    assert WaitsOn(s, cs[0], cs[if 0 + 1 < |cs| then 0 + 1 else 0]);
    if i > 0 {
      CycleClimbs(s, cs, i - 1);
      assert WaitsOn(s, cs[i - 1], cs[if i - 1 + 1 < |cs| then i - 1 + 1 else 0]);
      assert WaitsOn(s, cs[i], cs[if i + 1 < |cs| then i + 1 else 0]);
      HoldsBelow(s, cs[i], Wants(s, cs[i - 1]));
    }
  }

  /** No state of any run has a cycle in its waits-for graph, whatever pairs are locked. */
  lemma NoDeadlock(run: seq<(Cid, Move)>, states: seq<Clients>, k: nat, cs: seq<Cid>)
    requires IsCourse(run, states) && k < |states|
    ensures !IsCycle(states[k], cs)
  {
    AlwaysInv(run, states, k);
    hide Inv, IsCourse;
    var s := states[k];
    if IsCycle(s, cs) {
      CycleClimbs(s, cs, |cs| - 1);
      var i := |cs| - 1;
      assert WaitsOn(s, cs[i], cs[if i + 1 < |cs| then i + 1 else 0]);
      HoldsBelow(s, cs[0], Wants(s, cs[i]));
    }
  }

  // ---------- progress ----------

  predicate Busy(s: Clients, c: Cid) {
    !At(s, c).Away?
  }

  /** The client can go on, and not only because its call wakes up for no reason. */
  ghost predicate GoesOn(s: Clients, c: Cid) {
    exists m: Move :: !m.Begin? && m != Serve(WakeUp) && CanMove(s, c, m)
  }

  /** Somebody is busy, and nobody goes on. */
  ghost predicate Hangs(s: Clients) {
    (exists c :: Busy(s, c)) && forall c :: Busy(s, c) ==> !GoesOn(s, c)
  }

  lemma InsideGoesOn(s: Clients, c: Cid)
    requires Ordered(At(s, c), CallOf(s, c)) && Inside(CallOf(s, c))
    ensures Busy(s, c) && GoesOn(s, c)
  {
    var pc := CallOf(s, c);
    if pc.RelSignal? {
      SignalsOn(s, c);
    } else {
      var e := if pc.AcqCheck? || pc.Recheck? || pc.RelCheck? then Test else if pc.AcqSet? then Set
               else if pc.RelClear? then Clear else UnlockMutex;
      assert CanMove(s, c, Serve(e));
    }
  }

  lemma SignalsOn(s: Clients, c: Cid)
    requires CallOf(s, c).RelSignal?
    ensures GoesOn(s, c)
  {
    if SomeWaiting(s.server) {
      var w :| PcOf(s.server, w).Waiting?;
      assert CanMove(s, c, Serve(Signal(w)));
    } else {
      assert CanMove(s, c, Serve(SignalNobody));
    }
  }

  lemma OutsideGoesOn(s: Clients, c: Cid)
    requires Ordered(At(s, c), CallOf(s, c)) && Busy(s, c) && CallOf(s, c).Idle?
    ensures GoesOn(s, c)
  {
    match At(s, c)
    case Locking(_, todo, _, _) =>
      if todo == [] {
        assert CanMove(s, c, Finish);
      } else {
        assert CanMove(s, c, Serve(CallAcquire(todo[0])));
      }
    case Locked(_, _) => assert CanMove(s, c, BeginUnlock);
    case Unlocking(todo) =>
      if todo == [] {
        assert CanMove(s, c, Done);
      } else {
        assert CanMove(s, c, Serve(CallRelease(todo[0])));
      }
  }

  /** A client goes on unless its call sleeps; when it queues for the mutex, the one inside goes on. */
  lemma SomeoneGoesOn(s: Clients, c: Cid) returns (d: Cid)
    requires Inv(s) && Busy(s, c) && !CallOf(s, c).Waiting?
    ensures Busy(s, d) && GoesOn(s, d)
  {
    d := c;
    assert Ordered(At(s, c), CallOf(s, c));
    assert Inside(CallOf(s, c)) <==> s.server.mutex == By(c);
    if CallOf(s, c).Idle? {
      OutsideGoesOn(s, c);
    } else if s.server.mutex == Nobody {
      assert CanMove(s, c, Serve(LockMutex));
    } else {
      d := s.server.mutex.tid;
      assert Inside(CallOf(s, d)) <==> s.server.mutex == By(d);
      assert Ordered(At(s, d), CallOf(s, d));
      InsideGoesOn(s, d);
    }
  }

  lemma SleeperStays(s: Clients, c: Cid)
    requires Ordered(At(s, c), CallOf(s, c)) && CallOf(s, c).Waiting?
    ensures !GoesOn(s, c)
  {
  }

  /** When some client is busy, nobody goes on exactly when every busy client sleeps in the server. */
  lemma HangsExact(s: Clients, c: Cid)
    requires Inv(s) && Busy(s, c)
    ensures Hangs(s) <==> AllSleep(s)
  {
    hide Safe, OwnersHold, OwnedIsHeld, GoesOn, Ordered;
    if Hangs(s) {
      forall d: Cid | Busy(s, d)
        ensures CallOf(s, d).Waiting?
      {
        if !CallOf(s, d).Waiting? {
          var e := SomeoneGoesOn(s, d);
        }
      }
    }
    if AllSleep(s) {
      forall d: Cid | Busy(s, d)
        ensures !GoesOn(s, d)
      {
        assert Ordered(At(s, d), CallOf(s, d));
        SleeperStays(s, d);
      }
    }
  }

  ghost predicate AllSleep(s: Clients) {
    forall d: Cid :: Busy(s, d) ==> CallOf(s, d).Waiting?
  }

  /** A free lock has a waiter, and nobody is due to look. */
  ghost predicate Lost(s: Clients, lid: Lid) {
    !NoLostWakeUp(s.server, lid)
  }

  /** Following the owners from a sleeping client leads to one that sleeps for a free lock. */
  lemma {:induction false} SleepsForFree(s: Clients, c: Cid, rest: set<Cid>) returns (lid: Lid)
    requires Inv(s) && AllSleep(s) && Busy(s, c) && c in rest
    requires forall d: Cid | Busy(s, d) && d !in rest :: Wants(s, d) < Wants(s, c)
    ensures Lost(s, lid)
    decreases rest
  {
    lid := Wants(s, c);
    if lid in s.owner {
      var o := s.owner[lid];
      OwnerBusy(s, lid, o);
      HoldsBelow(s, o, lid);
      lid := SleepsForFree(s, o, rest - {c});
    } else {
      AllAsleep(s, c, lid);
    }
  }

  lemma OwnerBusy(s: Clients, l: Lid, o: Cid)
    requires Inv(s) && Owns(s, l, o)
    ensures Busy(s, o)
  {
    assert l in Holding(At(s, o), CallOf(s, o));
  }

  lemma AllAsleep(s: Clients, c: Cid, lid: Lid)
    requires Inv(s) && AllSleep(s) && CallOf(s, c) == Waiting(lid) && lid !in s.owner
    ensures Lost(s, lid)
  {
    assert !Held(s.server, lid);
    forall d: Cid
      ensures PcOf(s.server, d).Idle? || PcOf(s.server, d).Waiting?
    {
      IdleOrAsleep(s, d);
    }
    hide Inv, AllSleep;
    assert PcOf(s.server, c) == Waiting(lid);
  }

  lemma IdleOrAsleep(s: Clients, d: Cid)
    requires Inv(s) && AllSleep(s)
    ensures CallOf(s, d).Idle? || CallOf(s, d).Waiting?
  {
    assert Ordered(At(s, d), CallOf(s, d));
    hide Safe, OwnersHold, OwnedIsHeld;
  }

  lemma HangsLost(s: Clients) returns (lid: Lid)
    requires Inv(s) && Hangs(s)
    ensures Lost(s, lid)
  {
    var c :| Busy(s, c);
    HangsExact(s, c);
    hide Inv, Hangs;
    lid := SleepsForFree(s, c, s.clients.Keys);
  }

  /** The step is a signal that goes to a waiter of another lock than `lid`, whose wake-up is lost. */
  ghost predicate Misses(s: Clients, c: Cid, m: Move, lid: Lid) {
    m.Serve? && Misdirected(s.server, c, m.step, lid)
  }

  /** A lost wake-up has been lost by a misdirected signal, and nothing has made up for it since. */
  lemma {:induction false} LostSince(run: seq<(Cid, Move)>, states: seq<Clients>, k: nat, lid: Lid) returns (j: nat)
    requires IsCourse(run, states) && k < |states| && Lost(states[k], lid)
    ensures j < k && Misses(states[j], run[j].0, run[j].1, lid)
    ensures forall i: nat | j < i <= k :: Lost(states[i], lid)
  {
    hide NoLostWakeUp, Inv, Misdirected;
    if k == 0 {
      NothingLost(lid);
    } else {
      var s, c, m := states[k - 1], run[k - 1].0, run[k - 1].1;
      AlwaysInv(run, states, k - 1);
      if Lost(s, lid) {
        j := LostSince(run, states, k - 1, lid);
      } else {
        j := k - 1;
        assert m.Serve?;
        SafeNow(s);
        WakeUpStep(s.server, c, m.step, lid);
      }
    }
  }

  lemma SafeNow(s: Clients)
    requires Inv(s)
    ensures Safe(s.server)
  {
  }

  lemma NothingLost(lid: Lid)
    ensures !Lost(NOBODY, lid)
  {
  }

  /**
   * Whenever clients hang, some lock is free with a client asleep for it. A
   * release had signalled a waiter of another lock instead, and since then no
   * wake-up has been due for it.
   */
  lemma HangsBecause(run: seq<(Cid, Move)>, states: seq<Clients>, k: nat) returns (lid: Lid, j: nat)
    requires IsCourse(run, states) && k < |states| && Hangs(states[k])
    ensures j < k && Misses(states[j], run[j].0, run[j].1, lid)
    ensures forall i: nat | j < i <= k :: Lost(states[i], lid)
  {
    AlwaysInv(run, states, k);
    hide IsCourse, Hangs, Inv, Lost, Misses;
    lid := HangsLost(states[k]);
    j := LostSince(run, states, k, lid);
  }

  /** As long as no signal has missed, some busy client goes on whenever one is busy. */
  lemma Progress(run: seq<(Cid, Move)>, states: seq<Clients>, k: nat, c: Cid) returns (d: Cid)
    requires IsCourse(run, states) && k < |states| && Busy(states[k], c)
    requires forall j: nat, lid: Lid | j < k :: !Misses(states[j], run[j].0, run[j].1, lid)
    ensures Busy(states[k], d) && GoesOn(states[k], d)
  {
    if Hangs(states[k]) {
      var lid, j := HangsBecause(run, states, k);
      assert false;
    } else {
      d :| Busy(states[k], d) && GoesOn(states[k], d);
    }
  }

  // ---------- how many clients it takes ----------

  /** Only clients below `n` take steps. */
  ghost predicate Below(run: seq<(Cid, Move)>, n: nat) {
    forall k: nat | k < |run| :: run[k].0 < n
  }

  ghost predicate CallsBelow(s: Clients, n: nat) {
    forall c: Cid | !CallOf(s, c).Idle? :: c < n
  }

  lemma {:induction false} AlwaysBelow(run: seq<(Cid, Move)>, states: seq<Clients>, k: nat, n: nat)
    requires IsCourse(run, states) && k < |states| && Below(run, n)
    ensures CallsBelow(states[k], n)
  {
    if k > 0 {
      AlwaysBelow(run, states, k - 1, n);
      var s, c, m := states[k - 1], run[k - 1].0, run[k - 1].1;
      forall d: Cid | !CallOf(states[k], d).Idle?
        ensures d < n
      {
        if d != c {
          OthersStay(s, c, m, d);
        }
      }
    }
  }

  /** A signal that misses takes three: who sends it, who gets it, and who needs it. */
  lemma MissTakesThree(s: Clients, c: Cid, m: Move, lid: Lid, n: nat)
    requires CallsBelow(s, n) && CanMove(s, c, m) && Misses(s, c, m, lid)
    ensures n >= 3
  {
    var u :| PcOf(s.server, u) == Waiting(lid);
    var w := m.step.woken;
    assert c != w && c != u && w != u;
    assert !CallOf(s, c).Idle? && !CallOf(s, w).Idle? && !CallOf(s, u).Idle?;
  }

  lemma TwoGoOn(run: seq<(Cid, Move)>, states: seq<Clients>, k: nat)
    requires IsCourse(run, states) && k < |states| && Below(run, 2)
    ensures !Hangs(states[k])
  {
    if Hangs(states[k]) {
      var lid, j := HangsBecause(run, states, k);
      AlwaysBelow(run, states, j, 2);
      MissTakesThree(states[j], run[j].0, run[j].1, lid, 2);
    }
  }

  ghost predicate Reachable(s: Clients, n: nat) {
    exists run, states :: IsCourse(run, states) && Below(run, n) && states[|states| - 1] == s
  }

  lemma ReachStart(n: nat)
    ensures Reachable(NOBODY, n)
  {
    assert IsCourse([], [NOBODY]) && Below([], n) && [NOBODY][|[NOBODY]| - 1] == NOBODY;
  }

  lemma Reach(s: Clients, c: Cid, m: Move, n: nat)
    requires Reachable(s, n) && CanMove(s, c, m) && c < n
    ensures Reachable(Next(s, c, m), n)
  {
    var run, states :| IsCourse(run, states) && Below(run, n) && states[|states| - 1] == s;
    hide CanMove, Next;
    var run', states' := run + [(c, m)], states + [Next(s, c, m)];
    assert IsCourse(run', states') && Below(run', n) && states'[|states'| - 1] == Next(s, c, m);
  }

  /** Two steps of the server for one client. */
  lemma ServeTwo(s: Clients, c: Cid, e1: Step, e2: Step, n: nat) returns (s': Clients)
    requires Reachable(s, n) && c < n && CanMove(s, c, Serve(e1)) && CanMove(Next(s, c, Serve(e1)), c, Serve(e2))
    ensures Reachable(s', n) && s' == Next(Next(s, c, Serve(e1)), c, Serve(e2))
  {
    Reach(s, c, Serve(e1), n);
    Reach(Next(s, c, Serve(e1)), c, Serve(e2), n);
    s' := Next(Next(s, c, Serve(e1)), c, Serve(e2));
  }

  /** A client asks for the next lock, and its call is inside. */
  lemma Enters(s: Clients, c: Cid, n: nat) returns (s': Clients)
    requires Reachable(s, n) && c < n && s.server.mutex == Nobody && CallOf(s, c).Idle?
    requires At(s, c).Locking? && At(s, c).todo != []
    ensures Reachable(s', n) && s'.server.pcs == s.server.pcs[c := AcqCheck(At(s, c).todo[0])]
    ensures s'.server.lockState == s.server.lockState && s'.clients == s.clients
  {
    hide Reachable;
    s' := ServeTwo(s, c, CallAcquire(At(s, c).todo[0]), LockMutex, n);
  }

  /** It has set the lock, which was free. */
  lemma Sets(s: Clients, c: Cid, n: nat) returns (s': Clients)
    requires Reachable(s, n) && c < n && s.server.mutex == Nobody && CallOf(s, c).Idle?
    requires At(s, c).Locking? && At(s, c).todo != [] && !Held(s.server, At(s, c).todo[0])
    ensures Reachable(s', n) && s'.server.pcs == s.server.pcs[c := AcqExit(At(s, c).todo[0])]
    ensures s'.server.lockState == s.server.lockState[At(s, c).todo[0] := true] && s'.clients == s.clients
  {
    hide Reachable;
    s' := Enters(s, c, n);
    s' := ServeTwo(s', c, Test, Set, n);
  }

  /** And its call returns. */
  lemma Gets(s: Clients, c: Cid, n: nat) returns (s': Clients)
    requires Reachable(s, n) && c < n && s.server.mutex == Nobody && CallOf(s, c).Idle?
    requires At(s, c).Locking? && At(s, c).todo != [] && !Held(s.server, At(s, c).todo[0])
    ensures Reachable(s', n) && s'.server.mutex == Nobody && s'.server.pcs == s.server.pcs[c := Idle]
    ensures s'.server.lockState == s.server.lockState[At(s, c).todo[0] := true]
    ensures s'.clients == s.clients[c := Returned(At(s, c))]
  {
    hide Reachable, Returned;
    s' := Sets(s, c, n);
    Reach(s', c, Serve(UnlockMutex), n);
    s' := Next(s', c, Serve(UnlockMutex));
  }

  /** A client goes to sleep for a lock that is held. */
  lemma Sleeps(s: Clients, c: Cid, n: nat) returns (s': Clients)
    requires Reachable(s, n) && c < n && s.server.mutex == Nobody && CallOf(s, c).Idle?
    requires At(s, c).Locking? && At(s, c).todo != [] && Held(s.server, At(s, c).todo[0])
    ensures Reachable(s', n) && s'.server.mutex == Nobody && s'.clients == s.clients
    ensures s'.server.pcs == s.server.pcs[c := Waiting(At(s, c).todo[0])]
    ensures s'.server.lockState == s.server.lockState
  {
    hide Reachable;
    s' := Enters(s, c, n);
    Reach(s', c, Serve(Test), n);
    s' := Next(s', c, Serve(Test));
  }

  /** A client has cleared a lock and is about to signal. */
  lemma Clears(s: Clients, c: Cid, n: nat) returns (s': Clients)
    requires Reachable(s, n) && c < n && s.server.mutex == Nobody && CallOf(s, c).Idle?
    requires At(s, c).Unlocking? && At(s, c).todo != [] && Held(s.server, At(s, c).todo[0])
    ensures Reachable(s', n) && s'.server.mutex == By(c) && s'.clients == s.clients
    ensures s'.server.pcs == s.server.pcs[c := RelSignal(At(s, c).todo[0])]
    ensures s'.server.lockState == s.server.lockState[At(s, c).todo[0] := false]
  {
    hide Reachable;
    s' := ServeTwo(s, c, CallRelease(At(s, c).todo[0]), LockMutex, n);
    s' := ServeTwo(s', c, Test, Clear, n);
  }

  /** The signal goes to client `w`. */
  lemma Gives(s: Clients, c: Cid, w: Cid, n: nat) returns (s': Clients)
    requires Reachable(s, n) && c < n && CallOf(s, c).RelSignal? && CallOf(s, w).Waiting?
    ensures Reachable(s', n) && s'.server.mutex == Nobody
    ensures s'.server.pcs == s.server.pcs[c := Idle][w := Woken(CallOf(s, w).lid)]
    ensures s'.server.lockState == s.server.lockState && s'.clients == s.clients[c := Returned(At(s, c))]
  {
    hide Reachable;
    s' := ServeTwo(s, c, Signal(w), UnlockMutex, n);
  }

  /** A woken client finds its lock held and sleeps again. */
  lemma SleepsAgain(s: Clients, c: Cid, n: nat) returns (s': Clients)
    requires Reachable(s, n) && c < n && s.server.mutex == Nobody
    requires CallOf(s, c).Woken? && Held(s.server, CallOf(s, c).lid)
    ensures Reachable(s', n) && s'.clients == s.clients
    ensures s'.server.pcs == s.server.pcs[c := Waiting(CallOf(s, c).lid)]
    ensures s'.server.lockState == s.server.lockState
  {
    hide Reachable;
    s' := ServeTwo(s, c, LockMutex, Test, n);
  }

  lemma Starts(s: Clients, c: Cid, a: Lid, b: Lid, n: nat) returns (s': Clients)
    requires Reachable(s, n) && c < n && At(s, c).Away?
    ensures Reachable(s', n) && s'.server == s.server && s'.clients == s.clients[c := Locking([], Plan(a, b), a, b)]
  {
    Reach(s, c, Begin(a, b), n);
    s' := Next(s, c, Begin(a, b));
  }

  /** Client 0 holds lock 2 for itself; client 1, who wants 1 and 2, has 1 and sleeps. */
  lemma OneSleeps(n: nat) returns (s: Clients)
    requires n >= 3
    ensures Reachable(s, n) && s.server.mutex == Nobody && s.server.lockState == map[2 := true, 1 := true]
    ensures s.server.pcs == map[0 := Idle, 1 := Waiting(2)]
    ensures s.clients == map[0 := Locking([2], [], 2, 2), 1 := Locking([1], [2], 1, 2)]
  {
    hide Reachable;
    ReachStart(n);
    assert Plan(2, 2) == [2] && Plan(1, 2) == [1, 2];
    assert [] + [1] == [1] && [] + [2] == [2] && [2][1..] == [] && [1, 2][1..] == [2];
    s := Starts(NOBODY, 0, 2, 2, n);
    s := Gets(s, 0, n);
    s := Starts(s, 1, 1, 2, n);
    s := Gets(s, 1, n);
    s := Sleeps(s, 1, n);
  }

  /** And client 2 sleeps for 1. */
  lemma Queued(n: nat) returns (s: Clients)
    requires n >= 3
    ensures Reachable(s, n) && s.server.mutex == Nobody && s.server.lockState == map[2 := true, 1 := true]
    ensures s.server.pcs == map[0 := Idle, 1 := Waiting(2), 2 := Waiting(1)]
    ensures s.clients == map[0 := Locking([2], [], 2, 2), 1 := Locking([1], [2], 1, 2), 2 := Locking([], [1], 1, 1)]
  {
    hide Reachable;
    s := OneSleeps(n);
    s := Starts(s, 2, 1, 1, n);
    s := Sleeps(s, 2, n);
  }

  /** A client that has all its locks starts to give them back. */
  lemma TurnsBack(s: Clients, c: Cid, n: nat) returns (s': Clients)
    requires Reachable(s, n) && c < n && At(s, c).Locking? && At(s, c).todo == []
    ensures Reachable(s', n) && s'.server == s.server
    ensures s'.clients == s.clients[c := Unlocking(UnlockPlan(At(s, c).a, At(s, c).b))]
  {
    hide Reachable;
    Reach(s, c, Finish, n);
    s' := Next(s, c, Finish);
    Reach(s', c, BeginUnlock, n);
    s' := Next(s', c, BeginUnlock);
  }

  /** Client 0 has given lock 2 back and is about to signal. */
  lemma Cleared(n: nat) returns (s: Clients)
    requires n >= 3
    ensures Reachable(s, n) && s.server.lockState == map[1 := true, 2 := false]
    ensures s.server.pcs == map[0 := RelSignal(2), 1 := Waiting(2), 2 := Waiting(1)]
    ensures s.clients == map[0 := Unlocking([2]), 1 := Locking([1], [2], 1, 2), 2 := Locking([], [1], 1, 1)]
  {
    hide Reachable;
    s := Queued(n);
    s := TurnsBack(s, 0, n);
    s := Clears(s, 0, n);
  }

  /** The signal goes to client 2, who sleeps again. */
  lemma Missed(n: nat) returns (s: Clients)
    requires n >= 3
    ensures Reachable(s, n) && !Held(s.server, 2)
    ensures s.server.pcs == map[0 := Idle, 1 := Waiting(2), 2 := Waiting(1)]
    ensures s.clients == map[0 := Unlocking([]), 1 := Locking([1], [2], 1, 2), 2 := Locking([], [1], 1, 1)]
  {
    hide Reachable;
    assert [2][1..] == [];
    s := Cleared(n);
    s := Gives(s, 0, 2, n);
    s := SleepsAgain(s, 2, n);
  }

  /** Then lock 2 is free, client 1 sleeps for it, and nobody goes on. */
  lemma ThreeHang(n: nat) returns (s: Clients)
    requires n >= 3
    ensures Reachable(s, n) && Hangs(s) && !Held(s.server, 2) && CallOf(s, 1) == Waiting(2)
  {
    hide Reachable, Hangs, Inv;
    s := Missed(n);
    Reach(s, 0, Done, n);
    s := Next(s, 0, Done);
    ReachedInv(s, n);
    assert Busy(s, 1) && AllSleep(s);
    HangsExact(s, 1);
  }

  lemma ReachedInv(s: Clients, n: nat)
    requires Reachable(s, n)
    ensures Inv(s)
  {
    var run, states :| IsCourse(run, states) && Below(run, n) && states[|states| - 1] == s;
    AlwaysInv(run, states, |states| - 1);
  }

  /** Clients that only use DualLock and DualUnlock are safe from hanging exactly when there are at most two. */
  lemma HangTakesThree(n: nat)
    ensures (forall s | Reachable(s, n) :: !Hangs(s)) <==> n <= 2
  {
    if n <= 2 {
      forall s | Reachable(s, n)
        ensures !Hangs(s)
      {
        var run, states :| IsCourse(run, states) && Below(run, n) && states[|states| - 1] == s;
        assert Below(run, 2);
        TwoGoOn(run, states, |states| - 1);
      }
    } else {
      var s := ThreeHang(n);
    }
  }
}
