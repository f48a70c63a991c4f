/**
 * Runs of locked clients (CSE/cselab2backup/yfs_client.cc): calls that nobody
 * interferes with, one run in which the bytes of a removed directory come back,
 * one that fills a directory.
 */
module ClientRuns {

  import opened Bytes
  import opened InodeImage
  import opened Namespace
  import opened Directory
  import opened LockedClients

  ghost predicate Reachable(s: State) {
    exists run, states :: IsRun(run, states) && states[|states| - 1] == s
  }

  /** Reachable, with every directory as its history says. */
  ghost predicate Tidy(s: State) {
    Reachable(s) && s.overwritten == {} && s.revived == {}
  }

  lemma ReachStart()
    ensures Tidy(START)
  {
    assert IsRun([], [START]) && [START][|[START]| - 1] == START;
  }

  lemma Reach(s: State, c: Cid, e: Step)
    requires Reachable(s) && Can(s, c, e)
    ensures Reachable(Do(s, c, e))
  {
    var run, states :| IsRun(run, states) && states[|states| - 1] == s;
    hide Can, Do;
    var run', states' := run + [(c, e)], states + [Do(s, c, e)];
    assert IsRun(run', states') && states'[|states'| - 1] == Do(s, c, e);
  }

  lemma {:induction false} ReachedInv(s: State)
    requires Reachable(s)
    ensures LockedClients.Inv(s)
  {
    var run, states :| IsRun(run, states) && states[|states| - 1] == s;
    hide IsRun, LockedClients.Inv;
    assert |states| > 0 by {
      RunLength(run, states);
    }
    AlwaysInv(run, states, |states| - 1);
  }

  lemma RunLength(run: seq<(Cid, Step)>, states: seq<State>)
    requires IsRun(run, states)
    ensures |states| == |run| + 1
  {
  }

  // ---------- pieces of calls ----------

  /** Inode `p` is live and holds no entry `n`. */
  ghost predicate Without(s: State, p: u32, n: Name) {
    p in s.files && GoodDir(s.files[p].data) && n !in DirMap(s.files[p].data)
  }

  /** A client calls create or mkdir and finds the name absent. */
  lemma Begins(s: State, c: Cid, p: u32, n: Name, typ: u32) returns (s': State)
    requires Tidy(s) && PcOf(s, c).Idle? && p !in s.locks
    requires IsName(n) && typ != 0 && Without(s, p, n)
    ensures Tidy(s') && s'.files == s.files && s'.locks == s.locks[p := c]
    ensures s'.pcs == s.pcs[c := AddMake(p, n, typ, [])]
  {
    hide Reachable, GoodDir, DirMap, IsName;
    var s1 := Do(s, c, Call(AddAcquire(p, n, typ, [])));
    Reach(s, c, Call(AddAcquire(p, n, typ, [])));
    var s2 := Do(s1, c, Acquire);
    Reach(s1, c, Acquire);
    s' := Do(s2, c, Look(false));
    Reach(s2, c, Look(false));
    assert s'.pcs == s.pcs[c := AddMake(p, n, typ, [])];
  }

  /** It then makes the new inode and reads the directory, which it carries until it stores it again. */
  lemma Reads(s: State, c: Cid, ino: u32) returns (s': State)
    requires Tidy(s) && PcOf(s, c).AddMake? && 1 <= ino < 1024 && ino !in s.files && PcOf(s, c).p in s.files
    ensures var pc := PcOf(s, c);
      && Tidy(s') && s'.files == s.files[ino := File.File(pc.typ, [])] && s'.locks == s.locks
      && s'.pcs == s.pcs[c := AddPut(pc.p, pc.n, pc.typ, pc.link, ino, s.files[pc.p].data)]
  {
    hide Reachable;
    var s1 := Do(s, c, Make(ino));
    Reach(s, c, Make(ino));
    s' := Do(s1, c, Get);
    Reach(s1, c, Get);
  }

  /** It stores the directory with its entry and goes home. */
  lemma Stores(s: State, c: Cid) returns (s': State)
    requires Tidy(s) && PcOf(s, c).AddPut? && PcOf(s, c).typ != T_SYMLINK && IsName(PcOf(s, c).n)
    requires PcOf(s, c).p in s.files && PcOf(s, c).buf == s.files[PcOf(s, c).p].data
    requires |PcOf(s, c).buf| + MAXDIRENTRYLEN <= MAX_FILE
    ensures var pc := PcOf(s, c);
      && Tidy(s') && s'.locks == s.locks - {pc.p} && s'.pcs == s.pcs[c := Idle]
      && s'.files == s.files[pc.p := File.File(s.files[pc.p].typ, pc.buf + EncodeEnt(DirEnt(pc.n, pc.ino)))]
  {
    hide Reachable, GoodDir, EncodeEnt;
    var s1 := Do(s, c, Put);
    Reach(s, c, Put);
    s' := Do(s1, c, Unlock);
    Reach(s1, c, Unlock);
  }

  /** A whole call. */
  lemma Adds(s: State, c: Cid, p: u32, n: Name, typ: u32, ino: u32) returns (s': State)
    requires Tidy(s) && PcOf(s, c).Idle? && p !in s.locks && Without(s, p, n)
    requires IsName(n) && typ in {T_DIR, T_FILE} && 1 <= ino < 1024 && ino !in s.files
    requires |s.files[p].data| + MAXDIRENTRYLEN <= MAX_FILE
    ensures Tidy(s') && s'.locks == s.locks - {p} && s'.pcs == s.pcs[c := Idle]
    ensures s'.files == s.files[ino := File.File(typ, [])]
                               [p := File.File(s.files[p].typ, s.files[p].data + EncodeEnt(DirEnt(n, ino)))]
  {
    hide Tidy, IsName, GoodDir, DirMap, EncodeEnt;
    assert p in s.files;
    hide Without;
    var s1 := Begins(s, c, p, n, typ);
    var s2 := Reads(s1, c, ino);
    s' := Stores(s2, c);
  }

  /** A client calls unlink and takes the lock. */
  lemma Opens(s: State, c: Cid, p: u32, n: Name) returns (s': State)
    requires Tidy(s) && PcOf(s, c).Idle? && p !in s.locks && IsName(n)
    ensures Tidy(s') && s'.files == s.files && s'.locks == s.locks[p := c] && s'.pcs == s.pcs[c := CutGet(p, n)]
  {
    hide Reachable, IsName;
    var s1 := Do(s, c, Call(CutAcquire(p, n)));
    Reach(s, c, Call(CutAcquire(p, n)));
    s' := Do(s1, c, Acquire);
    Reach(s1, c, Acquire);
  }

  /** It finds the name at entry `k`. */
  lemma Finds(s: State, c: Cid, k: nat) returns (s': State)
    requires Tidy(s) && PcOf(s, c).CutGet? && var es := Entries(DataOf(s.files, PcOf(s, c).p));
      k < |es| && es[k].name == PcOf(s, c).n
    ensures Tidy(s') && s'.files == s.files && s'.locks == s.locks
    ensures var pc := PcOf(s, c); s'.pcs == s.pcs[c := CutRemove(pc.p, pc.n, k, DataOf(s.files, pc.p))]
  {
    hide Reachable, Entries;
    s' := Do(s, c, Find(k));
    Reach(s, c, Find(k));
  }

  /** It removes the inode named there. */
  lemma Removes(s: State, c: Cid) returns (s': State)
    requires Tidy(s) && PcOf(s, c).CutRemove? && PcOf(s, c).k < |Entries(PcOf(s, c).buf)|
    ensures Tidy(s') && s'.locks == s.locks
    ensures var pc := PcOf(s, c);
      && s'.files == s.files - Gone(s.files, Entries(pc.buf)[pc.k].inum)
      && s'.pcs == s.pcs[c := CutPut(pc.p, pc.n, pc.k, pc.buf)]
  {
    hide Reachable, Entries, Gone;
    s' := Do(s, c, Remove);
    Reach(s, c, Remove);
  }

  /** It stores the directory without the entry and goes home; the put of a directory that is gone is refused. */
  lemma Erases(s: State, c: Cid) returns (s': State)
    requires Tidy(s) && PcOf(s, c).CutPut? && PcOf(s, c).k < |Entries(PcOf(s, c).buf)|
    requires var pc := PcOf(s, c); pc.p in s.files ==> pc.buf == s.files[pc.p].data && |pc.buf| <= MAX_FILE
    ensures Tidy(s') && s'.locks == s.locks - {PcOf(s, c).p} && s'.pcs == s.pcs[c := Idle]
    ensures var pc := PcOf(s, c);
      s'.files
      == if pc.p in s.files then s.files[pc.p := File.File(s.files[pc.p].typ, Erase(pc.buf, pc.k))] else s.files
  {
    hide Reachable, GoodDir;
    var s1 := Do(s, c, Put);
    Reach(s, c, Put);
    s' := Do(s1, c, Unlock);
    Reach(s1, c, Unlock);
  }

  // ---------- calls of a client that is let alone ----------

  /** Several steps of one client, each possible when it comes. */
  ghost predicate Steps(s: State, c: Cid, es: seq<Step>, s': State)
    decreases |es|
  {
    if es == [] then s == s'
    else Can(s, c, es[0]) && Steps(Do(s, c, es[0]), c, es[1..], s')
  }

  lemma StepOne(s: State, c: Cid, e: Step, rest: seq<Step>, es: seq<Step>, s': State)
    requires Can(s, c, e) && Steps(Do(s, c, e), c, rest, s') && es == [e] + rest
    ensures Steps(s, c, es, s')
  {
    hide Can, Do;
    assert es[1..] == rest;
  }

  lemma StepNone(s: State, c: Cid)
    ensures Steps(s, c, [], s)
  {
  }

  lemma {:induction false} StepsOn(s: State, c: Cid, a: seq<Step>, m: State, b: seq<Step>, s': State)
    requires Steps(s, c, a, m) && Steps(m, c, b, s')
    ensures Steps(s, c, a + b, s')
    decreases |a|
  {
    hide Can, Do;
    if a == [] {
      assert a + b == b;
    } else {
      StepsOn(Do(s, c, a[0]), c, a[1..], m, b, s');
      assert (a + b)[1..] == a[1..] + b;
    }
  }

  /** A symlink up to the put of the directory. */
  lemma LinkEnters(s: State, c: Cid, p: u32, n: Name, text: seq<byte>, ino: u32) returns (s': State)
    requires PcOf(s, c).Idle? && p !in s.locks && Without(s, p, n) && IsName(n)
    requires 1 <= ino < 1024 && ino !in s.files
    ensures Steps(s, c, [Call(AddAcquire(p, n, 3, text)), Acquire, Look(false), Make(ino), Get], s')
    ensures PcOf(s', c) == AddPut(p, n, 3, text, ino, s.files[p].data) && s'.locks == s.locks[p := c]
    ensures s'.files == s.files[ino := File.File(3, [])]
  {
    hide GoodDir, DirMap, Steps;
    var s1 := Do(s, c, Call(AddAcquire(p, n, 3, text)));
    var s2 := Do(s1, c, Acquire);
    var s3 := Do(s2, c, Look(false));
    var s4 := Do(s3, c, Make(ino));
    s' := Do(s4, c, Get);
    assert ino != p;
    hide Can, Do;
    StepNone(s', c);
    StepOne(s4, c, Get, [], [Get], s');
    StepOne(s3, c, Make(ino), [Get], [Make(ino), Get], s');
    StepOne(s2, c, Look(false), [Make(ino), Get], [Look(false), Make(ino), Get], s');
    StepOne(s1, c, Acquire, [Look(false), Make(ino), Get], [Acquire, Look(false), Make(ino), Get], s');
    StepOne(s, c, Call(AddAcquire(p, n, 3, text)), [Acquire, Look(false), Make(ino), Get],
            [Call(AddAcquire(p, n, 3, text)), Acquire, Look(false), Make(ino), Get], s');
  }

  /** And from there on. */
  lemma LinkStores(s: State, c: Cid) returns (s': State)
    requires PcOf(s, c).AddPut? && PcOf(s, c).typ == 3 && IsName(PcOf(s, c).n)
    requires var pc := PcOf(s, c);
      && pc.ino in s.files && pc.p in s.files && pc.p != pc.ino && |pc.buf| + 64 <= 116736 && |pc.link| <= 116736
    ensures Steps(s, c, [Put, Put, Unlock], s')
    ensures var pc := PcOf(s, c);
      && PcOf(s', c).Idle? && s'.locks == s.locks - {pc.p}
      && s'.files == s.files[pc.p := File.File(s.files[pc.p].typ, pc.buf + EncodeEnt(DirEnt(pc.n, pc.ino)))]
                            [pc.ino := File.File(s.files[pc.ino].typ, pc.link)]
  {
    hide GoodDir, DirMap, EncodeEnt, Steps;
    var s1 := Do(s, c, Put);
    var s2 := Do(s1, c, Put);
    s' := Do(s2, c, Unlock);
    hide Can, Do;
    StepNone(s', c);
    StepOne(s2, c, Unlock, [], [Unlock], s');
    StepOne(s1, c, Put, [Unlock], [Put, Unlock], s');
    StepOne(s, c, Put, [Put, Unlock], [Put, Put, Unlock], s');
  }

  /** A symlink: its entry is in the directory, its text in the new inode. */
  lemma LinksAlone(s: State, c: Cid, p: u32, n: Name, text: seq<byte>, ino: u32) returns (s': State)
    requires PcOf(s, c).Idle? && p !in s.locks && Without(s, p, n) && IsName(n)
    requires 1 <= ino < 1024 && ino !in s.files && |s.files[p].data| + 64 <= 116736 && |text| <= 116736
    ensures Steps(s, c, [Call(AddAcquire(p, n, 3, text)), Acquire, Look(false), Make(ino), Get, Put, Put, Unlock], s')
    ensures PcOf(s', c).Idle? && s'.locks == s.locks
    ensures s'.files == s.files[p := File.File(s.files[p].typ, s.files[p].data + EncodeEnt(DirEnt(n, ino)))]
                               [ino := File.File(3, text)]
  {
    hide GoodDir, DirMap, EncodeEnt, Steps;
    var m := LinkEnters(s, c, p, n, text, ino);
    s' := LinkStores(m, c);
    StepsOn(s, c, [Call(AddAcquire(p, n, 3, text)), Acquire, Look(false), Make(ino), Get], m, [Put, Put, Unlock], s');
    assert [Call(AddAcquire(p, n, 3, text)), Acquire, Look(false), Make(ino), Get] + [Put, Put, Unlock]
        == [Call(AddAcquire(p, n, 3, text)), Acquire, Look(false), Make(ino), Get, Put, Put, Unlock];
  }

  /** A write or setattr: the file holds what is stored. */
  lemma WritesAlone(s: State, c: Cid, i: u32, data: seq<byte>) returns (s': State)
    requires PcOf(s, c).Idle? && i !in s.locks && i in s.files && |data| <= 116736
    ensures Steps(s, c, [Call(FileAcquire(i)), Acquire, Get, Store(data), Unlock], s')
    ensures PcOf(s', c).Idle? && s'.locks == s.locks
    ensures s'.files == s.files[i := File.File(s.files[i].typ, data)]
  {
    hide Steps;
    var s1 := Do(s, c, Call(FileAcquire(i)));
    var s2 := Do(s1, c, Acquire);
    var s3 := Do(s2, c, Get);
    var s4 := Do(s3, c, Store(data));
    s' := Do(s4, c, Unlock);
    hide Can, Do;
    StepNone(s', c);
    StepOne(s4, c, Unlock, [], [Unlock], s');
    StepOne(s3, c, Store(data), [Unlock], [Store(data), Unlock], s');
    StepOne(s2, c, Get, [Store(data), Unlock], [Get, Store(data), Unlock], s');
    StepOne(s1, c, Acquire, [Get, Store(data), Unlock], [Acquire, Get, Store(data), Unlock], s');
    StepOne(s, c, Call(FileAcquire(i)),
            [Acquire, Get, Store(data), Unlock],
            [Call(FileAcquire(i)), Acquire, Get, Store(data), Unlock], s');
  }

  /** A create of a name that is there changes no file. */
  lemma FoundAlone(s: State, c: Cid, p: u32, n: Name, typ: u32, text: seq<byte>) returns (s': State)
    requires PcOf(s, c).Idle? && p !in s.locks && p in s.files && IsName(n) && typ != 0
    requires n in DirMap(s.files[p].data)
    ensures Steps(s, c, [Call(AddAcquire(p, n, typ, text)), Acquire, Look(true), Unlock], s')
    ensures PcOf(s', c).Idle? && s'.locks == s.locks && s'.files == s.files
  {
    hide Steps, GoodDir, DirMap;
    var s1 := Do(s, c, Call(AddAcquire(p, n, typ, text)));
    var s2 := Do(s1, c, Acquire);
    var s3 := Do(s2, c, Look(true));
    s' := Do(s3, c, Unlock);
    hide Can, Do;
    StepNone(s', c);
    StepOne(s3, c, Unlock, [], [Unlock], s');
    StepOne(s2, c, Look(true), [Unlock], [Look(true), Unlock], s');
    StepOne(s1, c, Acquire, [Look(true), Unlock], [Acquire, Look(true), Unlock], s');
    StepOne(s, c, Call(AddAcquire(p, n, typ, text)),
            [Acquire, Look(true), Unlock],
            [Call(AddAcquire(p, n, typ, text)), Acquire, Look(true), Unlock], s');
  }

  /** Nor does an unlink of one that is not. */
  lemma MissedAlone(s: State, c: Cid, p: u32, n: Name) returns (s': State)
    requires PcOf(s, c).Idle? && p !in s.locks && p in s.files && IsName(n)
    requires n !in DirMap(s.files[p].data)
    ensures Steps(s, c, [Call(CutAcquire(p, n)), Acquire, Miss, Unlock], s')
    ensures PcOf(s', c).Idle? && s'.locks == s.locks && s'.files == s.files
  {
    hide Steps, GoodDir, DirMap;
    var s1 := Do(s, c, Call(CutAcquire(p, n)));
    var s2 := Do(s1, c, Acquire);
    var s3 := Do(s2, c, Miss);
    s' := Do(s3, c, Unlock);
    hide Can, Do;
    StepNone(s', c);
    StepOne(s3, c, Unlock, [], [Unlock], s');
    StepOne(s2, c, Miss, [Unlock], [Miss, Unlock], s');
    StepOne(s1, c, Acquire, [Miss, Unlock], [Acquire, Miss, Unlock], s');
    StepOne(s, c, Call(CutAcquire(p, n)),
            [Acquire, Miss, Unlock],
            [Call(CutAcquire(p, n)), Acquire, Miss, Unlock], s');
  }

  lemma OneEntry(e: DirEnt)
    requires IsName(e.name)
    ensures Entries(EncodeEnt(e)) == [e] && GoodDir(EncodeEnt(e))
    ensures DirMap(EncodeEnt(e)) == map[e.name := e.inum]
  {
    EmptyDir();
    Append([], e);
    hide GoodDir, DirMap, EncodeEnt, Entries, IsName;
    assert [] + EncodeEnt(e) == EncodeEnt(e);
  }

  /** What is gone with an inode: a set closed under the entries of its directories. */
  lemma GoneIs(files: map<u32, File>, i: u32, gone: set<u32>)
    requires i in gone && gone <= files.Keys
    requires Closed(files, gone)
    requires forall x | x in gone && x != i :: x in Kids(files, i)
    ensures Gone(files, i) == gone
  {
    hide Kids;
    forall x | x in files
      ensures Reaches(files, i, x) <==> x in gone
    {
      if x in gone {
        ReachesItself(files, x);
        if x != i {
          ReachesOn(files, i, x, x);
        }
      }
      if Reaches(files, i, x) {
        var p :| IsPath(files, p) && p[0] == i && p[|p| - 1] == x;
        PathInside(files, p, |p| - 1, gone);
      }
    }
  }

  const A: Name := ['a' as byte]
  const B: Name := ['b' as byte]
  const X: Name := ['x' as byte]
  const Y: Name := ['y' as byte]

  // ---------- old bytes ----------

  function Dir(data: seq<byte>): File {
    File.File(T_DIR, data)
  }

  /** Root holds b, b holds a, a holds x. */
  function Chain(): map<u32, File> {
    map[1 := Dir(EncodeEnt(DirEnt(B, 3))), 3 := Dir(EncodeEnt(DirEnt(A, 2))), 2 := Dir(EncodeEnt(DirEnt(X, 4))),
        4 := Dir([])]
  }

  /** Adding to an empty directory. */
  lemma AddsFirst(s: State, c: Cid, p: u32, n: Name, ino: u32) returns (s': State)
    requires Tidy(s) && PcOf(s, c).Idle? && p !in s.locks && p in s.files && s.files[p] == Dir([])
    requires IsName(n) && 1 <= ino < 1024 && ino !in s.files
    ensures Tidy(s') && s'.locks == s.locks - {p} && s'.pcs == s.pcs[c := Idle]
    ensures s'.files == s.files[ino := Dir([])][p := Dir(EncodeEnt(DirEnt(n, ino)))]
  {
    EmptyDir();
    hide Tidy, GoodDir, DirMap, EncodeEnt;
    s' := Adds(s, c, p, n, T_DIR, ino);
    assert [] + EncodeEnt(DirEnt(n, ino)) == EncodeEnt(DirEnt(n, ino));
  }

  lemma Chained() returns (s: State)
    ensures Tidy(s) && s.files == Chain() && s.locks == map[] && s.pcs == map[0 := Idle]
  {
    ReachStart();
    hide Tidy, EncodeEnt;
    var s1 := AddsFirst(START, 0, 1, B, 3);
    var s2 := AddsFirst(s1, 0, 3, A, 2);
    s := AddsFirst(s2, 0, 2, X, 4);
  }

  lemma ChainWithout(s: State)
    requires s.files == Chain()
    ensures Without(s, 2, Y) && Without(s, 1, A)
  {
    OneEntry(DirEnt(X, 4));
    OneEntry(DirEnt(B, 3));
    hide GoodDir, DirMap, EncodeEnt;
  }

  lemma ChainKeys()
    ensures Chain().Keys == {1, 2, 3, 4} && Chain()[3] == Dir(EncodeEnt(DirEnt(A, 2)))
  {
  }

  /** Client 1 is about to store a with y. */
  lemma Carrying() returns (s: State)
    ensures Tidy(s) && s.files == Chain()[5 := Dir([])] && s.locks == map[2 := 1]
    ensures s.pcs == map[0 := Idle, 1 := AddPut(2, Y, T_DIR, [], 5, Chain()[2].data)]
    ensures Without(s, 1, A)
  {
    hide Tidy, Without, EncodeEnt, Chain;
    var s3 := Chained();
    ChainWithout(s3);
    ChainKeys();
    var s4 := Begins(s3, 1, 2, Y, T_DIR);
    s := Reads(s4, 1, 5);
    StillWithout(s3, s, 1, A);
  }

  lemma StillWithout(s: State, s': State, p: u32, n: Name)
    requires Without(s, p, n) && p in s'.files && s'.files[p] == s.files[p]
    ensures Without(s', p, n)
  {
    hide GoodDir, DirMap;
  }

  /** Client 2 is about to make a directory in the root, and client 0 has found a in b. */
  lemma Before() returns (s: State)
    ensures Tidy(s) && s.files == Chain()[5 := Dir([])] && PcOf(s, 2) == AddMake(1, A, T_DIR, [])
    ensures PcOf(s, 1) == AddPut(2, Y, T_DIR, [], 5, Chain()[2].data)
    ensures PcOf(s, 0) == CutRemove(3, A, 0, EncodeEnt(DirEnt(A, 2)))
  {
    OneEntry(DirEnt(A, 2));
    ChainKeys();
    hide Tidy, Without, Chain, EncodeEnt, Entries;
    var s1 := Carrying();
    var s2 := Begins(s1, 2, 1, A, T_DIR);
    var s3 := Opens(s2, 0, 3, A);
    s := Finds(s3, 0, 0);
  }

  /** Client 0 has removed a. */
  lemma Removed() returns (s: State)
    ensures Reachable(s) && 2 !in s.files && PcOf(s, 2) == AddMake(1, A, T_DIR, [])
    ensures PcOf(s, 1) == AddPut(2, Y, T_DIR, [], 5, EncodeEnt(DirEnt(X, 4)))
  {
    var s1 := Before();
    OneEntry(DirEnt(A, 2));
    assert 2 in Gone(s1.files, 2) by {
      ReachesItself(s1.files, 2);
    }
    hide Reachable, EncodeEnt, Entries, Gone;
    s := Removes(s1, 0);
  }

  /** What a put of old bytes by client 1 leaves behind. */
  lemma OldBytesStored(s0: State)
    requires Can(s0, 2, Make(2)) && PcOf(s0, 2).typ == T_DIR
    requires PcOf(s0, 1) == AddPut(2, Y, T_DIR, [], 5, EncodeEnt(DirEnt(X, 4)))
    ensures var s1 := Do(s0, 2, Make(2)); Can(s1, 1, Put) && Plain(Do(s1, 1, Put), 2)
    ensures var s2 := Do(Do(s0, 2, Make(2)), 1, Put);
      DirMap(s2.files[2].data) == map[X := 4, Y := 5] && Replay(s2.log, 2) == map[Y := 5]
  {
    var e := DirEnt(X, 4);
    OneEntry(e);
    Append(EncodeEnt(e), DirEnt(Y, 5));
    hide GoodDir, DirMap, Replay, Entries, Can, Do, EncodeEnt;
    MakeThenPut(s0, 2, 1, 2);
    ReplayOther(s0.log, Born(2), 2);
    ReplayOther(s0.log + [Born(2)], Ins(2, Y, 5), 2);
  }

  /**
   * Client 0 unlinks a, client 2 makes a directory, which gets a's old number,
   * and client 1 stores what it carries: the new directory holds x, which was
   * never put into it.
   */
  lemma OldBytesCanReturn() returns (s: State)
    ensures Reachable(s) && Plain(s, 2)
    ensures DirMap(s.files[2].data) == map[X := 4, Y := 5] && Replay(s.log, 2) == map[Y := 5]
  {
    var s0 := Removed();
    OldBytesStored(s0);
    hide Reachable, DirMap, EncodeEnt, Replay, Do;
    var s1 := Do(s0, 2, Make(2));
    Reach(s0, 2, Make(2));
    s := Do(s1, 1, Put);
    Reach(s1, 1, Put);
  }

  // ---------- a full directory ----------

  const Q: Name := ['q' as byte]
  const R: Name := ['r' as byte]

  /** A directory of 1824 entries is as large as a file can be. */
  const FULL: nat := 1824

  /** Different names, as many as are needed. */
  function Numbered(i: nat): (n: Name)
    requires i <= FULL
    ensures IsName(n)
  {
    [1 + i % 255, 1 + i / 255]
  }

  /** A directory of `i` entries, all for inode 4. */
  function Many(i: nat): (data: seq<byte>)
    requires i <= FULL
    ensures |data| == i * MAXDIRENTRYLEN
  {
    if i == 0 then [] else Many(i - 1) + EncodeEnt(DirEnt(Numbered(i - 1), 4))
  }

  lemma {:induction false} ManyGood(i: nat)
    requires i <= FULL
    ensures GoodDir(Many(i)) && forall j: nat | i <= j <= FULL :: Numbered(j) !in DirMap(Many(i))
  {
    EmptyDir();
    hide GoodDir, DirMap, EncodeEnt, Numbered;
    if i > 0 {
      ManyGood(i - 1);
      Append(Many(i - 1), DirEnt(Numbered(i - 1), 4));
      forall j: nat | i <= j <= FULL
        ensures Numbered(j) != Numbered(i - 1)
      {
        Differ(i - 1, j);
      }
    }
  }

  lemma Differ(i: nat, j: nat)
    requires i < j <= FULL
    ensures Numbered(i) != Numbered(j)
  {
    assert Numbered(i)[0] == 1 + i % 255 && Numbered(j)[0] == 1 + j % 255;
    assert Numbered(i)[1] == 1 + i / 255 && Numbered(j)[1] == 1 + j / 255;
  }

  predicate AllIdle(pcs: map<Cid, Pc>) {
    pcs == map[0 := Idle] || pcs == map[0 := Idle, 1 := Idle]
  }

  /** The files between two rounds: the root and r. */
  function Files(root: seq<byte>, r: seq<byte>): map<u32, File> {
    map[1 := Dir(root), 2 := Dir(r)]
  }

  /** The root holds r, and r holds `i` entries; nobody is inside a call. */
  ghost predicate Round(s: State, i: nat) {
    && i <= FULL && Tidy(s) && s.locks == map[] && AllIdle(s.pcs)
    && s.files == Files(EncodeEnt(DirEnt(R, 2)), Many(i))
  }

  lemma FirstRound() returns (s: State)
    ensures Round(s, 0)
  {
    ReachStart();
    hide Tidy, EncodeEnt;
    s := AddsFirst(START, 0, 1, R, 2);
  }

  /** The root with q beside r. */
  function Roots(): seq<byte> {
    EncodeEnt(DirEnt(R, 2)) + EncodeEnt(DirEnt(Q, 3))
  }

  lemma RootsIs()
    ensures Entries(Roots()) == [DirEnt(R, 2), DirEnt(Q, 3)] && Erase(Roots(), 1) == EncodeEnt(DirEnt(R, 2))
    ensures |Roots()| == 2 * MAXDIRENTRYLEN
  {
    OneEntry(DirEnt(R, 2));
    Append(EncodeEnt(DirEnt(R, 2)), DirEnt(Q, 3));
    AppendErase(EncodeEnt(DirEnt(R, 2)), DirEnt(Q, 3));
  }

  lemma FilesAre(root: seq<byte>, r: seq<byte>)
    ensures Files(root, r).Keys == {1, 2} && Files(root, r)[1] == Dir(root) && Files(root, r)[2] == Dir(r)
  {
  }

  lemma NewRoot(root: seq<byte>, r: seq<byte>, root': seq<byte>)
    ensures Files(root, r)[1 := Dir(root')] == Files(root', r)
  {
  }

  lemma NewR(root: seq<byte>, r: seq<byte>, r': seq<byte>, f: File)
    ensures Files(root, r)[4 := f][2 := Dir(r')] == Files(root, r')[4 := f]
  {
  }

  lemma QAndX(files: map<u32, File>)
    requires {3, 4} <= files.Keys && files[3] == Dir(EncodeEnt(DirEnt(X, 4))) && files[4] == File.File(T_FILE, [])
    ensures Gone(files, 3) == {3, 4} && Gone(files, 4) == {4}
  {
    var data := EncodeEnt(DirEnt(X, 4));
    OneEntry(DirEnt(X, 4));
    SubsAreEntries(data);
    assert Kids(files, 3) == [4] by {
      assert Subs(data)[0] == 4;
    }
    hide Subs, Entries, EncodeEnt, Gone;
    GoneIs(files, 3, {3, 4});
    GoneIs(files, 4, {4});
  }

  /** A plain file goes alone, q with what is in it. */
  lemma WithoutKids(root: seq<byte>, r: seq<byte>)
    ensures var fs := Files(root, r)[4 := File.File(T_FILE, [])]; fs - Gone(fs, 4) == Files(root, r)
    ensures var fs := Files(root, r)[3 := Dir(EncodeEnt(DirEnt(X, 4)))][4 := File.File(T_FILE, [])];
      fs - Gone(fs, 3) == Files(root, r)
  {
    var fs := Files(root, r)[4 := File.File(T_FILE, [])];
    GoneIs(fs, 4, {4});
    QAndX(Files(root, r)[3 := Dir(EncodeEnt(DirEnt(X, 4)))][4 := File.File(T_FILE, [])]);
    hide Gone, EncodeEnt;
  }

  /** Client 1 has found x in q and is about to remove it. */
  function HalfWay(): Pc {
    CutRemove(3, X, 0, EncodeEnt(DirEnt(X, 4)))
  }

  /** Client 0 makes q. */
  lemma MadeQ(s: State, i: nat) returns (s': State)
    requires Round(s, i)
    ensures Tidy(s') && s'.locks == map[] && AllIdle(s'.pcs)
    ensures s'.files == Files(Roots(), Many(i))[3 := Dir([])]
  {
    OneEntry(DirEnt(R, 2));
    assert Without(s, 1, Q);
    hide Tidy, GoodDir, DirMap, EncodeEnt, Entries, Many, Without;
    s' := Adds(s, 0, 1, Q, T_DIR, 3);
  }

  /** And x in it. */
  lemma MadeX(s: State, i: nat) returns (s': State)
    requires Round(s, i)
    ensures Tidy(s') && s'.locks == map[] && AllIdle(s'.pcs)
    ensures s'.files
         == Files(Roots(), Many(i))[3 := Dir(EncodeEnt(DirEnt(X, 4)))][4 := File.File(T_FILE, [])]
  {
    EmptyDir();
    hide Tidy, Round, GoodDir, DirMap, EncodeEnt, Entries, Many, Roots;
    var s1 := MadeQ(s, i);
    assert Without(s1, 3, X);
    hide Without;
    s' := Adds(s1, 0, 3, X, T_FILE, 4);
    assert [] + EncodeEnt(DirEnt(X, 4)) == EncodeEnt(DirEnt(X, 4));
  }

  /** Client 1 unlinks x and has read q. */
  lemma Prepared(s: State, i: nat) returns (s': State)
    requires Round(s, i)
    ensures Tidy(s') && s'.locks == map[3 := 1] && s'.pcs == map[0 := Idle, 1 := HalfWay()]
    ensures s'.files
         == Files(Roots(), Many(i))[3 := Dir(EncodeEnt(DirEnt(X, 4)))][4 := File.File(T_FILE, [])]
  {
    OneEntry(DirEnt(X, 4));
    hide Tidy, Round, GoodDir, DirMap, EncodeEnt, Entries, Many, Roots, Files;
    var s1 := MadeX(s, i);
    var s2 := Opens(s1, 1, 3, X);
    s' := Finds(s2, 1, 0);
  }

  /** Client 0 unlinks q. */
  lemma FoundQ(s: State, i: nat) returns (s': State)
    requires Round(s, i)
    ensures Tidy(s') && s'.locks == map[3 := 1, 1 := 0]
    ensures s'.pcs == map[0 := CutRemove(1, Q, 1, Roots()), 1 := HalfWay()]
    ensures s'.files
         == Files(Roots(), Many(i))[3 := Dir(EncodeEnt(DirEnt(X, 4)))][4 := File.File(T_FILE, [])]
  {
    RootsIs();
    hide Tidy, Round, EncodeEnt, Entries, Many, Roots, HalfWay;
    var s1 := Prepared(s, i);
    var s2 := Opens(s1, 0, 1, Q);
    s' := Finds(s2, 0, 1);
  }

  /** X is gone with it. */
  lemma RemovedQ(s: State, i: nat) returns (s': State)
    requires Round(s, i)
    ensures Tidy(s') && s'.locks == map[3 := 1, 1 := 0]
    ensures s'.pcs == map[0 := CutPut(1, Q, 1, Roots()), 1 := HalfWay()]
    ensures s'.files == Files(Roots(), Many(i))
  {
    RootsIs();
    WithoutKids(Roots(), Many(i));
    hide Tidy, Round, EncodeEnt, Entries, Many, Roots, Gone, Files, HalfWay;
    var s1 := FoundQ(s, i);
    s' := Removes(s1, 0);
  }

  lemma WithoutQ(s: State, i: nat) returns (s': State)
    requires Round(s, i)
    ensures Tidy(s') && s'.locks == map[3 := 1] && s'.pcs == map[0 := Idle, 1 := HalfWay()]
    ensures s'.files == Files(EncodeEnt(DirEnt(R, 2)), Many(i))
  {
    RootsIs();
    FilesAre(Roots(), Many(i));
    NewRoot(Roots(), Many(i), EncodeEnt(DirEnt(R, 2)));
    hide Tidy, Round, EncodeEnt, Entries, Many, Roots, Files, Erase, HalfWay;
    var s1 := RemovedQ(s, i);
    s' := Erases(s1, 0);
  }

  lemma ManyNext(i: nat)
    requires i < FULL
    ensures Many(i + 1) == Many(i) + EncodeEnt(DirEnt(Numbered(i), 4))
  {
    hide EncodeEnt, Numbered;
  }

  lemma NewName(s: State, i: nat)
    requires i < FULL && 2 in s.files && s.files[2].data == Many(i)
    ensures Without(s, 2, Numbered(i))
  {
    ManyGood(i);
    hide GoodDir, DirMap, Many, Numbered;
  }

  /** Client 0 makes a file in r, on the number x had. */
  lemma OneMore(s: State, i: nat) returns (s': State)
    requires Round(s, i) && i < FULL
    ensures Tidy(s') && s'.locks == map[3 := 1] && s'.pcs == map[0 := Idle, 1 := HalfWay()]
    ensures s'.files == Files(EncodeEnt(DirEnt(R, 2)), Many(i + 1))[4 := File.File(T_FILE, [])]
  {
    hide Tidy, Round, GoodDir, DirMap, EncodeEnt, Entries, Numbered, Files, Many, Without, IsName;
    ManyNext(i);
    FilesAre(EncodeEnt(DirEnt(R, 2)), Many(i));
    NewR(EncodeEnt(DirEnt(R, 2)), Many(i), Many(i + 1), File.File(T_FILE, []));
    var s1 := WithoutQ(s, i);
    NewName(s1, i);
    s' := Adds(s1, 0, 2, Numbered(i), T_FILE, 4);
  }

  /** Then client 1 goes on, and removes that. */
  lemma RemovedX(s: State, i: nat) returns (s': State)
    requires Round(s, i) && i < FULL
    ensures Tidy(s') && s'.locks == map[3 := 1]
    ensures s'.pcs == map[0 := Idle, 1 := CutPut(3, X, 0, EncodeEnt(DirEnt(X, 4)))]
    ensures s'.files == Files(EncodeEnt(DirEnt(R, 2)), Many(i + 1))
  {
    OneEntry(DirEnt(X, 4));
    WithoutKids(EncodeEnt(DirEnt(R, 2)), Many(i + 1));
    hide Tidy, Round, GoodDir, DirMap, EncodeEnt, Entries, Gone, Many, Files;
    var s1 := OneMore(s, i);
    s' := Removes(s1, 1);
  }

  lemma NextRound(s: State, i: nat) returns (s': State)
    requires Round(s, i) && i < FULL
    ensures Round(s', i + 1)
  {
    OneEntry(DirEnt(X, 4));
    FilesAre(EncodeEnt(DirEnt(R, 2)), Many(i + 1));
    hide Tidy, EncodeEnt, Entries, Erase, Many, Files;
    var s1 := RemovedX(s, i);
    s' := Erases(s1, 1);
  }

  lemma {:induction false} Rounds(i: nat) returns (s: State)
    requires i <= FULL
    ensures Round(s, i)
  {
    if i == 0 {
      s := FirstRound();
    } else {
      var s1 := Rounds(i - 1);
      s := NextRound(s1, i - 1);
    }
  }

  /**
   * A directory that is as its history says can fill up, although there are
   * only 1023 inodes: entries outlive their inodes. The next create in it
   * answers OK, and its entry is not there.
   */
  lemma FullDirectory() returns (s: State)
    ensures Reachable(s) && Plain(s, 2) && 2 !in s.revived && |s.files[2].data| == MAX_FILE
    ensures PcOf(s, 0).AddPut? && PcOf(s, 0).p == 2 && Can(s, 0, Put)
    ensures var s' := Do(s, 0, Put); var pc := PcOf(s, 0);
      Reachable(s') && PcOf(s', 0) == Release(2) && !HasEntry(s', 2, pc.n, pc.ino) && s'.files == s.files
  {
    var s1 := Rounds(FULL);
    ManyGood(FULL);
    assert Without(s1, 2, Numbered(FULL));
    hide GoodDir, DirMap, EncodeEnt, Entries, Many, Numbered, Reachable;
    var s2 := Begins(s1, 0, 2, Numbered(FULL), T_FILE);
    s := Reads(s2, 0, 4);
    Refused(s, 0);
  }

  lemma Refused(s: State, c: Cid)
    requires Reachable(s) && PcOf(s, c).AddPut? && PcOf(s, c).typ == T_FILE && Plain(s, PcOf(s, c).p)
    requires IsName(PcOf(s, c).n) && |PcOf(s, c).buf| == MAX_FILE
    ensures Can(s, c, Put)
    ensures var s' := Do(s, c, Put); var pc := PcOf(s, c);
      Reachable(s') && PcOf(s', c) == Release(pc.p) && !HasEntry(s', pc.p, pc.n, pc.ino) && s'.files == s.files
  {
    ReachedInv(s);
    RefusedPut(s, c);
    Reach(s, c, Put);
    hide Reachable, GoodDir, DirMap, EncodeEnt, HasEntry, LockedClients.Inv;
  }
}
