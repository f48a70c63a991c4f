/**
 * Any number of clients of one extent server and one lock server, each extent
 * call one atomic step (CSE/cselab2backup/yfs_client.cc).
 */
module LockedClients {

  import opened Bytes
  import opened InodeImage
  import opened Namespace
  import opened Directory

  type Cid = nat
  type Name = seq<byte>

  /** Largest file of this version: (NDIRECT + NINDIRECT) blocks of 512 bytes. */
  const MAX_FILE: nat := (100 + 128) * 512

  /** Where a client is inside a call; `p` is the directory it locks, `f` the file. */
  datatype Pc =
    | Idle
    | AddAcquire(p: u32, n: Name, typ: u32, link: seq<byte>)
    | AddLook(p: u32, n: Name, typ: u32, link: seq<byte>)
    | AddMake(p: u32, n: Name, typ: u32, link: seq<byte>)
    | AddGet(p: u32, n: Name, typ: u32, link: seq<byte>, ino: u32)
    | AddPut(p: u32, n: Name, typ: u32, link: seq<byte>, ino: u32, buf: seq<byte>)
    | AddLink(p: u32, link: seq<byte>, ino: u32)
    | CutAcquire(p: u32, n: Name)
    | CutGet(p: u32, n: Name)
    | CutRemove(p: u32, n: Name, k: nat, buf: seq<byte>)
    | CutPut(p: u32, n: Name, k: nat, buf: seq<byte>)
    | FileAcquire(p: u32)
    | FileGet(p: u32)
    | FilePut(p: u32)
    | Release(p: u32)

  /** The life of directories as it reached the server: an inode made, an entry stored, an entry erased. */
  datatype Change = Born(dir: u32) | Ins(dir: u32, name: Name, ino: u32) | Del(dir: u32, name: Name)

  /**
   * `overwritten` has the inodes in which, since they were last made, something
   * was stored that is no directory: by a call that takes them for a file, or by
   * a client that carried such bytes of an earlier inode of that number.
   * `revived` has those in which a client stored a directory it had read before
   * they were made. `log` is the history, oldest first.
   */
  datatype State = State(files: map<u32, File>, locks: map<u32, Cid>, pcs: map<Cid, Pc>,
                         overwritten: set<u32>, revived: set<u32>, log: seq<Change>)

  datatype Step =
    | Call(pc: Pc)
    | Acquire
    | Look(found: bool)
    | Make(ino: u32)
    | Get
    | Find(k: nat)
    | Miss
    | Remove
    | Put
    | Store(data: seq<byte>)
    | Unlock

  function PcOf(s: State, c: Cid): Pc {
    if c in s.pcs then s.pcs[c] else Idle
  }

  predicate Accepted(files: map<u32, File>, i: u32, data: seq<byte>) {
    i in files && |data| <= MAX_FILE
  }

  function Stored(files: map<u32, File>, i: u32, data: seq<byte>): map<u32, File> {
    if Accepted(files, i, data) then files[i := File.File(files[i].typ, data)] else files
  }

  /** The client has the new bytes of its directory, or will when it has removed an inode. */
  predicate Carries(pc: Pc) {
    (pc.AddPut? && IsName(pc.n)) || ((pc.CutRemove? || pc.CutPut?) && pc.k < |Entries(pc.buf)|)
  }

  /** These bytes. */
  function Coming(pc: Pc): seq<byte>
    requires Carries(pc)
  {
    if pc.AddPut? then pc.buf + EncodeEnt(DirEnt(pc.n, pc.ino)) else Erase(pc.buf, pc.k)
  }

  function ChangeOf(pc: Pc): Change
    requires Carries(pc)
  {
    if pc.AddPut? then Ins(pc.p, pc.n, pc.ino) else Del(pc.p, pc.n)
  }

  /** The put is accepted, and what it changes is not what the client has read. */
  predicate Foreign(s: State, pc: Pc)
    requires Carries(pc)
  {
    Accepted(s.files, pc.p, Coming(pc)) && pc.buf != DataOf(s.files, pc.p)
  }

  /** It brings in entries that have never been put into this directory. */
  predicate Revives(s: State, pc: Pc)
    requires Carries(pc)
  {
    Foreign(s, pc) && (pc.AddPut? || Coming(pc) != [])
  }

  /** The extent put of a file, whatever the inode is by now. */
  function WithFile(s: State, i: u32, data: seq<byte>): State {
    s.(files := Stored(s.files, i, data),
       overwritten := s.overwritten + if Accepted(s.files, i, data) then {i} else {})
  }

  /** The extent put of a directory. */
  ghost function WithPut(s: State, pc: Pc): State
    requires Carries(pc)
  {
    s.(files := Stored(s.files, pc.p, Coming(pc)),
       overwritten := s.overwritten + if Foreign(s, pc) && !GoodDir(Coming(pc)) then {pc.p} else {},
       revived := s.revived + if Revives(s, pc) then {pc.p} else {},
       log := if Accepted(s.files, pc.p, Coming(pc)) then s.log + [ChangeOf(pc)] else s.log)
  }

  /** An extent remove takes away everything reachable. */
  ghost function Gone(files: map<u32, File>, i: u32): set<u32> {
    set x | x in files && Reaches(files, i, x)
  }

  predicate MayCall(pc: Pc) {
    match pc
    case AddAcquire(_, n, typ, _) => IsName(n) && typ != 0
    case CutAcquire(_, n) => IsName(n)
    case FileAcquire(_) => true
    case _ => false
  }

  /** Name `n` is in a well-formed directory. */
  ghost predicate Has(data: seq<byte>, n: Name) {
    n in DirMap(data)
  }

  ghost predicate Can(s: State, c: Cid, e: Step) {
    var pc := PcOf(s, c);
    match e
    case Call(pc') => pc.Idle? && MayCall(pc')
    case Acquire => (pc.AddAcquire? || pc.CutAcquire? || pc.FileAcquire?) && pc.p !in s.locks
    case Look(found) =>
      pc.AddLook? && (GoodDir(DataOf(s.files, pc.p)) ==> (found <==> Has(DataOf(s.files, pc.p), pc.n)))
    case Make(ino) => pc.AddMake? && 1 <= ino < 1024 && ino !in s.files
    case Get => pc.AddGet? || pc.FileGet?
    case Find(k) =>
      && pc.CutGet? && k < |Entries(DataOf(s.files, pc.p))|
      && (GoodDir(DataOf(s.files, pc.p)) ==> Entries(DataOf(s.files, pc.p))[k].name == pc.n)
    case Miss => pc.CutGet? && (GoodDir(DataOf(s.files, pc.p)) ==> !Has(DataOf(s.files, pc.p), pc.n))
    case Remove => pc.CutRemove? && pc.k < |Entries(pc.buf)|
    case Put => pc.AddLink? || (Carries(pc) && !pc.CutRemove?)
    case Store(_) => pc.FilePut?
    case Unlock => pc.Release?
  }

  ghost function Do(s: State, c: Cid, e: Step): State
    requires Can(s, c, e)
  {
    var pc := PcOf(s, c);
    match e
    case Call(pc') => At(s, c, pc')
    case Acquire =>
      At(s.(locks := s.locks[pc.p := c]), c,
         if pc.AddAcquire? then AddLook(pc.p, pc.n, pc.typ, pc.link)
         else if pc.CutAcquire? then CutGet(pc.p, pc.n) else FileGet(pc.p))
    case Look(found) =>
      At(s, c, if found then Release(pc.p) else AddMake(pc.p, pc.n, pc.typ, pc.link))
    case Make(ino) =>
      At(s.(files := s.files[ino := File.File(pc.typ, [])],
            overwritten := s.overwritten - {ino}, revived := s.revived - {ino},
            log := s.log + [Born(ino)]),
         c, AddGet(pc.p, pc.n, pc.typ, pc.link, ino))
    case Get =>
      At(s, c, if pc.FileGet? then FilePut(pc.p)
               else AddPut(pc.p, pc.n, pc.typ, pc.link, pc.ino, DataOf(s.files, pc.p)))
    case Find(k) => At(s, c, CutRemove(pc.p, pc.n, k, DataOf(s.files, pc.p)))
    case Miss => At(s, c, Release(pc.p))
    case Remove =>
      var gone := Gone(s.files, Entries(pc.buf)[pc.k].inum);
      At(s.(files := s.files - gone), c, CutPut(pc.p, pc.n, pc.k, pc.buf))
    case Put =>
      if pc.AddLink? then
        At(WithFile(s, pc.ino, pc.link), c, Release(pc.p))
      else
        At(WithPut(s, pc), c,
           if pc.AddPut? && pc.typ == T_SYMLINK then AddLink(pc.p, pc.link, pc.ino) else Release(pc.p))
    case Store(data) =>
      At(WithFile(s, pc.p, data), c, Release(pc.p))
    case Unlock => At(s.(locks := s.locks - {pc.p}), c, Idle)
  }

  function At(s: State, c: Cid, pc: Pc): State {
    s.(pcs := s.pcs[c := pc])
  }

  /** All clients are connected, the last of them has just cleared the root. */
  const START: State := State(OnlyRoot(), map[], map[], {}, {}, [])

  ghost predicate IsRun(run: seq<(Cid, Step)>, states: seq<State>) {
    && |states| == |run| + 1 && states[0] == START
    && forall k: nat | k < |run| ::
         Can(states[k], run[k].0, run[k].1) && states[k + 1] == Do(states[k], run[k].0, run[k].1)
  }

  // ---------- the invariant ----------

  predicate Holds(pc: Pc, p: u32) {
    !pc.Idle? && !pc.AddAcquire? && !pc.CutAcquire? && !pc.FileAcquire? && pc.p == p
  }

  /** What the history says directory `d` contains since it was last made. */
  ghost function Replay(log: seq<Change>, d: u32): map<Name, u32> {
    if log == [] then map[]
    else
      var m, e := Replay(log[..|log| - 1], d), log[|log| - 1];
      if e.dir != d then m
      else if e.Born? then map[]
      else if e.Ins? then m[e.name := e.ino] else m - {e.name}
  }

  /** A live directory that has not been overwritten. */
  ghost predicate Plain(s: State, d: u32) {
    d in s.files && s.files[d].typ == T_DIR && d !in s.overwritten
  }

  ghost predicate Agrees(s: State, d: u32) {
    DirMap(DataOf(s.files, d)) == Replay(s.log, d)
  }

  ghost predicate DirsGood(s: State) {
    forall d | Plain(s, d) :: GoodDir(s.files[d].data)
  }

  ghost predicate DirsAgree(s: State) {
    forall d | Plain(s, d) && d !in s.revived :: Agrees(s, d)
  }

  ghost predicate MutualExclusion(s: State) {
    forall c: Cid, p: u32 | Holds(PcOf(s, c), p) :: p in s.locks && s.locks[p] == c
  }

  /**
   * What a client knows of its directory while it holds the lock. The bytes it
   * has read are current, unless the directory has been removed since, and
   * perhaps made anew: then there are none.
   */
  ghost predicate StillTrue(files: map<u32, File>, overwritten: set<u32>, pc: Pc) {
    match pc
    case AddAcquire(_, n, typ, _) => IsName(n) && typ != 0
    case AddLook(_, n, typ, _) => IsName(n) && typ != 0
    case AddMake(p, n, typ, _) => IsName(n) && typ != 0 && (p !in overwritten ==> Lacks(DataOf(files, p), n))
    case AddGet(p, n, _, _, _) => IsName(n) && (p !in overwritten ==> Lacks(DataOf(files, p), n))
    case AddPut(p, n, _, _, _, buf) =>
      IsName(n) && (p !in overwritten ==> (DataOf(files, p) == buf && Lacks(buf, n)) || DataOf(files, p) == [])
    case CutRemove(p, n, k, buf) =>
      k < |Entries(buf)| && NamesAt(buf, k, n) && (p !in overwritten ==> DataOf(files, p) in {buf, []})
    case CutPut(p, n, k, buf) =>
      k < |Entries(buf)| && NamesAt(buf, k, n) && (p !in overwritten ==> DataOf(files, p) in {buf, []})
    case _ => true
  }

  ghost predicate Lacks(data: seq<byte>, n: Name) {
    GoodDir(data) ==> !Has(data, n)
  }

  ghost predicate NamesAt(data: seq<byte>, k: nat, n: Name)
    requires k < |Entries(data)|
  {
    GoodDir(data) ==> Entries(data)[k].name == n
  }

  ghost predicate AllStillTrue(s: State) {
    forall c: Cid :: StillTrue(s.files, s.overwritten, PcOf(s, c))
  }

  ghost predicate Inv(s: State) {
    MutualExclusion(s) && DirsGood(s) && DirsAgree(s) && AllStillTrue(s)
  }

  // ---------- every step keeps it ----------

  lemma OthersStay(s: State, c: Cid, e: Step)
    requires Can(s, c, e)
    ensures forall d: Cid | d != c :: PcOf(Do(s, c, e), d) == PcOf(s, d)
  {
    hide Gone, Stored, GoodDir, Has, Coming, Foreign, Revives;
  }

  lemma LocksEffect(s: State, c: Cid, e: Step)
    requires Can(s, c, e)
    ensures Do(s, c, e).locks
         == if e.Acquire? then s.locks[PcOf(s, c).p := c]
            else if e.Unlock? then s.locks - {PcOf(s, c).p}
            else s.locks
    ensures e.Acquire? ==> PcOf(s, c).p !in s.locks && !PcOf(s, c).Idle?
    ensures e.Unlock? ==> !PcOf(s, c).Idle? && Holds(PcOf(s, c), PcOf(s, c).p)
  {
    hide Gone, Stored, GoodDir, Has, Accepted, Coming, Entries;
  }

  /** A client holds what it held before, plus what it acquires, minus what it releases. */
  lemma OwnLock(s: State, c: Cid, e: Step, p: u32)
    requires Can(s, c, e) && Holds(PcOf(Do(s, c, e), c), p)
    ensures (Holds(PcOf(s, c), p) && !e.Unlock?) || (e.Acquire? && PcOf(s, c).p == p)
  {
    hide Gone, Stored, GoodDir, Has, Accepted, Coming, Entries;
  }

  lemma LocksStep(s: State, c: Cid, e: Step)
    requires Can(s, c, e) && MutualExclusion(s)
    ensures MutualExclusion(Do(s, c, e))
  {
    hide Can, Do, Holds;
    var s' := Do(s, c, e);
    OthersStay(s, c, e);
    LocksEffect(s, c, e);
    forall d: Cid, p: u32 | Holds(PcOf(s', d), p)
      ensures p in s'.locks && s'.locks[p] == d
    {
      if d == c {
        OwnLock(s, c, e, p);
        assert e.Acquire? || Holds(PcOf(s, c), p);
        assert p in s'.locks && s'.locks[p] == d;
      } else {
        assert Holds(PcOf(s, d), p);
        assert p in s.locks && s.locks[p] == d;
        assert e.Unlock? ==> s.locks[PcOf(s, c).p] == c;
        assert p in s'.locks && s'.locks[p] == d;
      }
    }
  }

  /** The step stores directory `p`. */
  predicate Writes(pc: Pc, e: Step, p: u32) {
    e.Put? && (pc.AddPut? || pc.CutPut?) && pc.p == p
  }

  /** Otherwise an inode that is not overwritten keeps its bytes, or loses them with its life, or has just been made. */
  lemma BytesKept(s: State, c: Cid, e: Step, p: u32)
    requires Can(s, c, e) && p !in Do(s, c, e).overwritten && !Writes(PcOf(s, c), e, p)
    ensures p in s.overwritten ==> e == Make(p)
    ensures DataOf(Do(s, c, e).files, p) in {DataOf(s.files, p), []}
    ensures e != Make(p) && p in Do(s, c, e).files ==> p in s.files && Do(s, c, e).files[p] == s.files[p]
    ensures e == Make(p) ==> DataOf(Do(s, c, e).files, p) == []
  {
    hide Gone, GoodDir, Has, Coming, Entries;
  }

  /** While a client holds a lock nobody else stores that inode. */
  lemma LockProtects(s: State, c: Cid, e: Step, d: Cid, p: u32)
    requires Can(s, c, e) && MutualExclusion(s) && d != c && Holds(PcOf(s, d), p)
    ensures !Writes(PcOf(s, c), e, p)
  {
    assert p in s.locks && s.locks[p] == d;
    assert Writes(PcOf(s, c), e, p) ==> Holds(PcOf(s, c), p);
  }

  lemma OtherStillTrue(s: State, c: Cid, e: Step, d: Cid)
    requires Can(s, c, e) && MutualExclusion(s) && d != c
    requires StillTrue(s.files, s.overwritten, PcOf(s, d))
    ensures StillTrue(Do(s, c, e).files, Do(s, c, e).overwritten, PcOf(Do(s, c, e), d))
  {
    OthersStay(s, c, e);
    var pc := PcOf(s, d);
    hide Can, Do, NamesAt, GoodDir, Entries, DataOf, Lacks;
    if !pc.Idle? && Holds(pc, pc.p) && pc.p !in Do(s, c, e).overwritten {
      LockProtects(s, c, e, d, pc.p);
      BytesKept(s, c, e, pc.p);
      EmptyLacks();
    }
  }

  lemma OwnStillTrue(s: State, c: Cid, e: Step)
    requires Can(s, c, e) && StillTrue(s.files, s.overwritten, PcOf(s, c))
    ensures StillTrue(Do(s, c, e).files, Do(s, c, e).overwritten, PcOf(Do(s, c, e), c))
  {
    EmptyLacks();
    hide Gone, GoodDir, DirMap, Coming, Entries, WithPut, Stored;
  }

  lemma EmptyDir()
    ensures GoodDir([]) && DirMap([]) == map[] && Entries([]) == []
  {
  }

  lemma EmptyLacks()
    ensures forall n :: Lacks([], n)
  {
    EmptyDir();
  }

  lemma {:induction false} ReplayOther(log: seq<Change>, e: Change, d: u32)
    ensures Replay(log + [e], d)
         == if e.dir != d then Replay(log, d)
            else if e.Born? then map[]
            else if e.Ins? then Replay(log, d)[e.name := e.ino] else Replay(log, d) - {e.name}
  {
    assert (log + [e])[..|log|] == log;
  }

  predicate HasRead(pc: Pc, p: u32) {
    (pc.AddPut? || pc.CutRemove? || pc.CutPut?) && pc.p == p
  }

  /** A put of a directory, accepted or not. */
  lemma PutEffect(s: State, c: Cid)
    requires Can(s, c, Put) && !PcOf(s, c).AddLink?
    ensures Carries(PcOf(s, c)) && !PcOf(s, c).CutRemove?
    ensures var pc, s' := PcOf(s, c), Do(s, c, Put);
      && s'.files == Stored(s.files, pc.p, Coming(pc)) && !HasRead(PcOf(s', c), pc.p)
      && s'.log == (if Accepted(s.files, pc.p, Coming(pc)) then s.log + [ChangeOf(pc)] else s.log)
      && s'.revived == s.revived + (if Revives(s, pc) then {pc.p} else {})
      && s'.overwritten == s.overwritten + (if Foreign(s, pc) && !GoodDir(Coming(pc)) then {pc.p} else {})
      && (pc.AddPut? ==> Coming(pc) == pc.buf + EncodeEnt(DirEnt(pc.n, pc.ino)))
  {
    hide GoodDir, Erase, Entries;
  }

  /** Storing one's change in bytes that are current gives a directory again. */
  lemma CurrentPut(s: State, pc: Pc)
    requires Carries(pc) && StillTrue(s.files, s.overwritten, pc) && pc.p !in s.overwritten
    requires GoodDir(pc.buf) && pc.buf == DataOf(s.files, pc.p)
    ensures GoodDir(Coming(pc))
    ensures DirMap(Coming(pc)) == if pc.AddPut? then DirMap(pc.buf)[pc.n := pc.ino] else DirMap(pc.buf) - {pc.n}
  {
    if pc.AddPut? {
      EmptyLacks();
      assert Lacks(pc.buf, pc.n);
      Append(pc.buf, DirEnt(pc.n, pc.ino));
    } else {
      Erased(pc.buf, pc.k);
    }
  }

  lemma GoodStep(s: State, c: Cid, e: Step)
    requires Inv(s) && Can(s, c, e)
    ensures DirsGood(Do(s, c, e))
  {
    EmptyDir();
    var pc, s' := PcOf(s, c), Do(s, c, e);
    assert StillTrue(s.files, s.overwritten, pc);
    hide Can, Do, DirsAgree, AllStillTrue, MutualExclusion, GoodDir, StillTrue;
    forall d | Plain(s', d)
      ensures GoodDir(s'.files[d].data)
    {
      if Writes(pc, e, d) {
        PutGood(s, c);
      } else {
        BytesKept(s, c, e, d);
        assert e != Make(d) ==> Plain(s, d);
      }
    }
  }

  lemma PutGood(s: State, c: Cid)
    requires Can(s, c, Put) && !PcOf(s, c).AddLink? && DirsGood(s)
    requires StillTrue(s.files, s.overwritten, PcOf(s, c))
    ensures var s', p := Do(s, c, Put), PcOf(s, c).p; Plain(s', p) ==> Plain(s, p) && GoodDir(s'.files[p].data)
  {
    hide Can, Do, GoodDir, Coming, Entries, StillTrue, DirMap;
    PutEffect(s, c);
    var pc, s' := PcOf(s, c), Do(s, c, Put);
    if Plain(s', pc.p) && pc.buf == DataOf(s.files, pc.p) {
      CurrentPut(s, pc);
    }
  }

  // ---------- agreement with the history ----------

  /** Two entries of a directory are two names. */
  lemma TwoNames(data: seq<byte>, n: Name, i: u32)
    requires GoodDir(data) && |data| >= 2 * MAXDIRENTRYLEN
    ensures DirMap(data) != map[n := i]
  {
    MapOfAt(Entries(data), 0);
    MapOfAt(Entries(data), 1);
    hide Entries, MapOf;
    assert Entries(data)[0].name != Entries(data)[1].name;
  }

  lemma SomeName(data: seq<byte>)
    requires GoodDir(data) && data != []
    ensures DirMap(data) != map[]
  {
    assert |Entries(data)| > 0;
    MapOfAt(Entries(data), 0);
  }

  /** Storing bytes that are not current breaks the agreement exactly when they hold more than the change. */
  lemma ForeignPut(pc: Pc)
    requires Carries(pc) && pc.buf != [] && GoodDir(Coming(pc))
    ensures DirMap(Coming(pc)) == (if pc.AddPut? then map[pc.n := pc.ino] else map[]) <==>
              !pc.AddPut? && Coming(pc) == []
  {
    if pc.AddPut? {
      assert |Coming(pc)| % MAXDIRENTRYLEN == 0;
      TwoNames(Coming(pc), pc.n, pc.ino);
    } else {
      EmptyDir();
      if Coming(pc) != [] {
        SomeName(Coming(pc));
      }
    }
  }

  lemma PutAgrees(s: State, c: Cid)
    requires Can(s, c, Put) && !PcOf(s, c).AddLink? && DirsGood(s)
    requires StillTrue(s.files, s.overwritten, PcOf(s, c)) && Plain(Do(s, c, Put), PcOf(s, c).p)
    requires Agrees(s, PcOf(s, c).p) && PcOf(s, c).p !in s.revived
    ensures var s', p := Do(s, c, Put), PcOf(s, c).p; Agrees(s', p) <==> p !in s'.revived
  {
    hide Can, Do, GoodDir, Coming, Entries, DirMap, Replay;
    PutEffect(s, c);
    var pc := PcOf(s, c);
    if Accepted(s.files, pc.p, Coming(pc)) {
      ReplayOther(s.log, ChangeOf(pc), pc.p);
      if pc.buf == DataOf(s.files, pc.p) {
        CurrentPut(s, pc);
      } else {
        assert DataOf(s.files, pc.p) == [];
        EmptyDir();
        ForeignPut(pc);
      }
    }
  }

  /**
   * Once a directory agrees with its history, a step breaks the agreement
   * exactly when it stores old bytes with entries of their own.
   */
  lemma AgreementStep(s: State, c: Cid, e: Step, d: u32)
    requires Inv(s) && Can(s, c, e) && Plain(Do(s, c, e), d) && (d !in s.revived || e == Make(d))
    ensures Agrees(Do(s, c, e), d) <==> d !in Do(s, c, e).revived
  {
    var pc, s' := PcOf(s, c), Do(s, c, e);
    assert StillTrue(s.files, s.overwritten, pc);
    EmptyDir();
    hide AllStillTrue, MutualExclusion, GoodDir, StillTrue, DirMap, Replay;
    if Writes(pc, e, d) {
      hide Can, Do;
      PutGood(s, c);
      PutAgrees(s, c);
    } else {
      BytesKept(s, c, e, d);
      HistoryOf(s, c, e, d);
    }
  }

  /** Steps that do not store a directory tell its history nothing, except that it is made. */
  lemma HistoryOf(s: State, c: Cid, e: Step, d: u32)
    requires Can(s, c, e) && !Writes(PcOf(s, c), e, d)
    ensures Replay(Do(s, c, e).log, d) == if e == Make(d) then map[] else Replay(s.log, d)
    ensures e != Make(d) ==> (d in Do(s, c, e).revived <==> d in s.revived)
    ensures e == Make(d) ==> d !in Do(s, c, e).revived
  {
    if e.Make? {
      ReplayOther(s.log, Born(e.ino), d);
    } else if e.Put? && !PcOf(s, c).AddLink? {
      ReplayOther(s.log, ChangeOf(PcOf(s, c)), d);
    }
    hide Gone, GoodDir, Has, Coming, Entries, Replay, Stored;
  }

  lemma AgreesStep(s: State, c: Cid, e: Step)
    requires Inv(s) && Can(s, c, e)
    ensures DirsAgree(Do(s, c, e))
  {
    var s' := Do(s, c, e);
    hide Can, Do, Inv, Plain, Agrees;
    forall d | Plain(s', d) && d !in s'.revived
      ensures Agrees(s', d)
    {
      RevivedStays(s, c, e, d);
      AgreementStep(s, c, e, d);
    }
  }

  lemma RevivedStays(s: State, c: Cid, e: Step, d: u32)
    requires Can(s, c, e) && d !in Do(s, c, e).revived
    ensures d in s.revived ==> e == Make(d)
  {
    hide Gone, GoodDir, Has, Coming, Entries, Stored;
  }

  lemma InvStep(s: State, c: Cid, e: Step)
    requires Inv(s) && Can(s, c, e)
    ensures Inv(Do(s, c, e))
  {
    GoodStep(s, c, e);
    AgreesStep(s, c, e);
    hide Can, Do, DirsGood, DirsAgree, MutualExclusion, StillTrue;
    LocksStep(s, c, e);
    forall d: Cid
      ensures StillTrue(Do(s, c, e).files, Do(s, c, e).overwritten, PcOf(Do(s, c, e), d))
    {
      assert StillTrue(s.files, s.overwritten, PcOf(s, d));
      if d == c {
        OwnStillTrue(s, c, e);
      } else {
        OtherStillTrue(s, c, e, d);
      }
    }
  }

  lemma InvStart()
    ensures Inv(START)
  {
    EmptyDir();
    hide GoodDir, DirMap;
  }

  lemma {:induction false} AlwaysInv(run: seq<(Cid, Step)>, states: seq<State>, k: nat)
    requires IsRun(run, states) && k < |states|
    ensures Inv(states[k])
  {
    hide Inv, Can, Do;
    if k == 0 {
      InvStart();
    } else {
      AlwaysInv(run, states, k - 1);
      InvStep(states[k - 1], run[k - 1].0, run[k - 1].1);
    }
  }


  // ---------- a number made again while somebody carries its old bytes ----------

  /** The put to come is accepted and stores more than the client's own change, whatever the directory holds by then. */
  predicate BringsOld(pc: Pc)
    requires Carries(pc)
  {
    |Coming(pc)| <= MAX_FILE && pc.buf != [] && (pc.AddPut? || Coming(pc) != [])
  }

  /**
   * A number is made again as a directory while client `d` is about to store
   * what it has read of it before. The put leaves a directory exactly when the
   * bytes stored are one, and then breaks the agreement with the history
   * exactly when they bring old entries.
   */
  lemma MakeExact(s: State, c: Cid, d: Cid, ino: u32)
    requires Inv(s) && Can(s, c, Make(ino)) && PcOf(s, c).typ == T_DIR
    requires Carries(PcOf(s, d)) && !PcOf(s, d).CutRemove? && PcOf(s, d).p == ino
    ensures var s1, pc := Do(s, c, Make(ino)), PcOf(s, d); Can(s1, d, Put) && ino in Do(s1, d, Put).files
    ensures var s1, pc := Do(s, c, Make(ino)), PcOf(s, d); var s2 := Do(s1, d, Put);
      && s2.files[ino].data == (if |Coming(pc)| <= MAX_FILE then Coming(pc) else [])
      && (Plain(s2, ino) <==> GoodDir(s2.files[ino].data))
      && (Plain(s2, ino) ==> (Agrees(s2, ino) <==> !BringsOld(pc)))
  {
    var e := Make(ino);
    var s1 := Do(s, c, e);
    MakeThenPut(s, c, d, ino);
    EmptyDir();
    InvStep(s, c, e);
    InvStep(s1, d, Put);
    hide Can, Do, GoodDir, Agrees, Coming, Entries, Accepted, DirsAgree, AllStillTrue, MutualExclusion;
    if Plain(Do(s1, d, Put), ino) {
      AgreementStep(s1, d, Put, ino);
    }
  }

  lemma MakeThenPut(s: State, c: Cid, d: Cid, ino: u32)
    requires Can(s, c, Make(ino)) && PcOf(s, c).typ == T_DIR
    requires Carries(PcOf(s, d)) && !PcOf(s, d).CutRemove? && PcOf(s, d).p == ino
    ensures var s1, pc := Do(s, c, Make(ino)), PcOf(s, d);
      && PcOf(s1, d) == pc && Can(s1, d, Put) && ino !in s1.revived
      && s1.log == s.log + [Born(ino)] && s1.files == s.files[ino := File.File(T_DIR, [])]
    ensures var s1, pc := Do(s, c, Make(ino)), PcOf(s, d); var s2 := Do(s1, d, Put);
      && s2.files == Stored(s1.files, ino, Coming(pc))
      && s2.log == (if |Coming(pc)| <= MAX_FILE then s1.log + [ChangeOf(pc)] else s1.log)
      && (ino in s2.overwritten <==> |Coming(pc)| <= MAX_FILE && pc.buf != [] && !GoodDir(Coming(pc)))
      && (ino in s2.revived <==> BringsOld(pc))
  {
    hide GoodDir, DirMap, Entries, Gone, Coming;
    OthersStay(s, c, Make(ino));
  }

  // ---------- what the steps do to the files ----------

  /** The least set with `i`, if that is live, in which no directory has a live child outside. */
  ghost predicate AllBelow(files: map<u32, File>, i: u32, gone: set<u32>) {
    && gone <= files.Keys && (i in files ==> i in gone) && Closed(files, gone)
    && forall r | (i in files ==> i in r) && Closed(files, r) :: gone <= r
  }

  lemma GoneIsAllBelow(files: map<u32, File>, i: u32)
    ensures AllBelow(files, i, Gone(files, i))
  {
    hide Kids, IsPath, Closed;
    if i in files {
      ReachesItself(files, i);
    }
    GoneClosed(files, i);
    forall r, x | (i in files ==> i in r) && Closed(files, r) && x in Gone(files, i)
      ensures x in r
    {
      GoneInside(files, i, r, x);
    }
  }

  lemma GoneClosed(files: map<u32, File>, i: u32)
    ensures Closed(files, Gone(files, i))
  {
    hide Kids, Reaches;
    forall x, c | x in Gone(files, i) && c in Kids(files, x) && c in files
      ensures c in Gone(files, i)
    {
      ReachesKid(files, i, x, c);
    }
  }

  lemma GoneInside(files: map<u32, File>, i: u32, r: set<u32>, x: u32)
    requires (i in files ==> i in r) && Closed(files, r) && Reaches(files, i, x)
    ensures x in r
  {
    var p :| IsPath(files, p) && p[0] == i && p[|p| - 1] == x;
    PathInside(files, p, |p| - 1, r);
  }

  /** The inode an unlink has found. */
  function Found(pc: Pc): u32
    requires pc.CutRemove? && pc.k < |Entries(pc.buf)|
  {
    Entries(pc.buf)[pc.k].inum
  }

  /**
   * The removal inside an unlink takes the inode found and everything below it
   * at any depth, also when somebody has changed or reused it meanwhile; no
   * other file changes. Where no directory contains itself that is the subtree
   * the removal of a single client takes.
   */
  lemma RemoveTakes(s: State, c: Cid)
    requires Can(s, c, Remove)
    ensures var files' := Do(s, c, Remove).files; var gone := s.files.Keys - files'.Keys;
      files' == s.files - gone && AllBelow(s.files, Found(PcOf(s, c)), gone)
    ensures forall rank | Ranked(s.files, rank) ::
              Do(s, c, Remove).files == s.files - Subtree(s.files, rank, Found(PcOf(s, c)))
  {
    hide Entries, Gone, AllBelow;
    var i, files' := Found(PcOf(s, c)), Do(s, c, Remove).files;
    GoneIsAllBelow(s.files, i);
    assert files' == s.files - Gone(s.files, i);
    GoneLive(s.files, i);
    assert s.files.Keys - files'.Keys == Gone(s.files, i);
    forall rank | Ranked(s.files, rank)
      ensures Gone(s.files, i) == Subtree(s.files, rank, i)
    {
      GoneIsSubtree(s.files, rank, i);
    }
  }

  lemma GoneLive(files: map<u32, File>, i: u32)
    ensures Gone(files, i) <= files.Keys
  {
  }

  lemma GoneIsSubtree(files: map<u32, File>, rank: map<u32, nat>, i: u32)
    requires Ranked(files, rank)
    ensures Gone(files, i) == Subtree(files, rank, i)
  {
    hide Reaches, Ranked;
    forall x
      ensures x in Subtree(files, rank, i) <==> Reaches(files, i, x)
    {
      SubtreeIsReachable(files, rank, i, x);
    }
  }

  /** The extent puts of files: a link's text, what a write or setattr stores. */
  predicate StoresFile(pc: Pc, e: Step) {
    (e.Store? && pc.FilePut?) || (e.Put? && pc.AddLink?)
  }

  /** The inode has the bytes put and the type it had, or is as before when it is gone or the bytes are too many. */
  lemma FileStored(s: State, c: Cid, e: Step)
    requires Can(s, c, e) && StoresFile(PcOf(s, c), e)
    ensures var pc, files' := PcOf(s, c), Do(s, c, e).files;
      var i, data := if e.Store? then pc.p else pc.ino, if e.Store? then e.data else pc.link;
      && files'.Keys == s.files.Keys && (forall x | x in s.files && x != i :: files'[x] == s.files[x])
      && (i in s.files ==> files'[i] == if |data| <= 116736 then File.File(s.files[i].typ, data) else s.files[i])
  {
  }

  /** What a create, mkdir or symlink has made, and what the directory of a call becomes; all else stays. */
  lemma DirectoryStored(s: State, c: Cid, e: Step)
    requires Can(s, c, e) && !e.Remove? && !StoresFile(PcOf(s, c), e)
    ensures var pc, files' := PcOf(s, c), Do(s, c, e).files;
      && (e.Make? ==> e.ino !in s.files && files' == s.files[e.ino := File.File(pc.typ, [])])
      && (e.Put? ==> files'.Keys == s.files.Keys
                     && (forall x | x in s.files && x != pc.p :: files'[x] == s.files[x])
                     && (pc.p in s.files ==> StoredDir(pc, s.files[pc.p], files'[pc.p])))
      && (!e.Make? && !e.Put? ==> files' == s.files)
  {
    hide GoodDir, EncodeEnt, Has, Entries;
  }

  /** One record more behind those read, or those read without one; nothing when the bytes are too many. */
  predicate StoredDir(pc: Pc, f: File, f': File)
    requires Carries(pc)
  {
    if pc.AddPut? then
      f' == if |pc.buf| + 64 <= 116736 then File.File(f.typ, pc.buf + EncodeEnt(DirEnt(pc.n, pc.ino))) else f
    else
      f' == if |pc.buf| - 64 <= 116736 then File.File(f.typ, pc.buf[..pc.k * 64] + pc.buf[(pc.k + 1) * 64..]) else f
  }

  // ---------- what follows for whole runs ----------

  /**
   * In every interleaving, a live directory that is not overwritten holds no
   * name twice, and it is what its history says unless a client stored a
   * directory in it that was read before it was made.
   */
  lemma DirectoriesConsistent(run: seq<(Cid, Step)>, states: seq<State>, k: nat, d: u32)
    requires IsRun(run, states) && k < |states| && Plain(states[k], d)
    ensures Unique(Entries(states[k].files[d].data))
    ensures d !in states[k].revived ==> DirMap(states[k].files[d].data) == Replay(states[k].log, d)
  {
    hide IsRun, DirMap, Entries, Replay, Unique, GoodEnts, MutualExclusion, AllStillTrue;
    AlwaysInv(run, states, k);
  }

  /** Directory `d` was not made anew at or after position `j` of the history. */
  ghost predicate SameDir(log: seq<Change>, j: nat, d: u32) {
    forall l: nat | j <= l < |log| :: log[l] != Born(d)
  }

  lemma {:induction false} LogGrows(run: seq<(Cid, Step)>, states: seq<State>, m: nat, k: nat)
    requires IsRun(run, states) && m <= k < |states|
    ensures |states[m].log| <= |states[k].log| && states[k].log[..|states[m].log|] == states[m].log
  {
    hide Do, Can;
    if m < k {
      LogGrows(run, states, m, k - 1);
      LogStep(states[k - 1], run[k - 1].0, run[k - 1].1);
      PrefixOfPrefix(states[m].log, states[k - 1].log, states[k].log);
    }
  }

  lemma PrefixOfPrefix(a: seq<Change>, b: seq<Change>, c: seq<Change>)
    requires |a| <= |b| <= |c| && b[..|a|] == a && c[..|b|] == b
    ensures c[..|a|] == a
  {
  }

  lemma LogStep(s: State, c: Cid, e: Step)
    requires Can(s, c, e)
    ensures |s.log| <= |Do(s, c, e).log| && Do(s, c, e).log[..|s.log|] == s.log
  {
    hide GoodDir, EncodeEnt, Erase, Entries, Gone, DirMap;
  }

  /** A directory that is plain now, and was not made since state `m`, has been so all along. */
  lemma {:induction false} PlainBefore(run: seq<(Cid, Step)>, states: seq<State>, m: nat, k: nat, d: u32)
    requires IsRun(run, states) && m <= k < |states| && Plain(states[k], d)
    requires SameDir(states[k].log, |states[m].log|, d)
    ensures Plain(states[m], d)
    decreases k
  {
    hide Do, Can, SameDir, Plain;
    if m < k {
      var s, c, e := states[k - 1], run[k - 1].0, run[k - 1].1;
      LogGrows(run, states, m, k - 1);
      LogStep(s, c, e);
      PlainStep(s, c, e, d, |states[m].log|);
      PlainBefore(run, states, m, k - 1, d);
    }
  }

  lemma BornLogged(s: State, c: Cid, e: Step)
    requires Can(s, c, e)
    ensures e.Make? ==> Do(s, c, e).log == s.log + [Born(e.ino)]
    ensures !e.Make? ==> forall l: nat | |s.log| <= l < |Do(s, c, e).log| :: !Do(s, c, e).log[l].Born?
  {
    hide GoodDir, Coming, Entries, Gone, DirMap;
  }

  lemma MadeAnew(s: State, c: Cid, d: u32, j: nat)
    requires Can(s, c, Make(d)) && j <= |s.log|
    ensures !SameDir(Do(s, c, Make(d)).log, j, d)
  {
    BornLogged(s, c, Make(d));
    hide Can, Do;
    assert Do(s, c, Make(d)).log[|s.log|] == Born(d);
  }

  lemma SameDirStep(s: State, c: Cid, e: Step, d: u32, j: nat)
    requires Can(s, c, e) && j <= |s.log|
    ensures SameDir(Do(s, c, e).log, j, d) <==> SameDir(s.log, j, d) && e != Make(d)
  {
    LogStep(s, c, e);
    BornLogged(s, c, e);
    hide Can, Do;
    if e == Make(d) {
      MadeAnew(s, c, d, j);
    } else {
      var a, b := s.log, Do(s, c, e).log;
      assert forall l: nat | l < |a| :: b[l] == a[l];
      assert forall l: nat | |a| <= l < |b| :: b[l] != Born(d);
    }
  }

  lemma PlainStep(s: State, c: Cid, e: Step, d: u32, j: nat)
    requires Can(s, c, e) && Plain(Do(s, c, e), d) && j <= |s.log| && SameDir(Do(s, c, e).log, j, d)
    ensures Plain(s, d) && SameDir(s.log, j, d) && e != Make(d)
  {
    SameDirStep(s, c, e, d, j);
    PlainStays(s, c, e, d);
  }

  lemma PlainStays(s: State, c: Cid, e: Step, d: u32)
    requires Can(s, c, e) && Plain(Do(s, c, e), d) && e != Make(d)
    ensures Plain(s, d)
  {
    hide GoodDir, Coming, Entries, Gone, DirMap, Has;
  }

  ghost predicate HasEntry(s: State, d: u32, n: Name, ino: u32) {
    d in s.files && n in DirMap(s.files[d].data) && DirMap(s.files[d].data)[n] == ino
  }

  /** What was put in between is neither a new making of the directory nor an unlink of the name. */
  ghost predicate Undisturbed(log: seq<Change>, j: nat, d: u32, n: Name) {
    SameDir(log, j, d) && forall l: nat | j <= l < |log| :: log[l] != Del(d, n)
  }

  /** A create that stores its entry at step `m`. */
  ghost predicate CreatesAt(run: seq<(Cid, Step)>, states: seq<State>, m: nat, c: Cid) {
    IsRun(run, states) && m < |run| && run[m] == (c, Put) && PcOf(states[m], c).AddPut?
  }

  /**
   * A create stays in its directory, as long as the directory lives, is not
   * overwritten and not made anew, and the name is not unlinked, exactly when
   * the directory with one more entry fits in a file: otherwise the server
   * refuses the put and the call answers OK all the same.
   */
  lemma CreateNotLost(run: seq<(Cid, Step)>, states: seq<State>, m: nat, k: nat, c: Cid)
    requires CreatesAt(run, states, m, c) && m < k < |states|
    requires var pc := PcOf(states[m], c);
      Plain(states[k], pc.p) && Undisturbed(states[k].log, |states[m].log|, pc.p, pc.n)
    ensures var pc := PcOf(states[m], c);
      (forall l: nat | m < l <= k :: HasEntry(states[l], pc.p, pc.n, pc.ino))
      <==> |pc.buf| + MAXDIRENTRYLEN <= MAX_FILE
  {
    var pc := PcOf(states[m], c);
    hide IsRun, Plain, HasEntry, Undisturbed;
    if |pc.buf| + MAXDIRENTRYLEN <= MAX_FILE {
      forall l: nat | m < l <= k
        ensures HasEntry(states[l], pc.p, pc.n, pc.ino)
      {
        CreateStays(run, states, m, l, k, c);
      }
    } else {
      PlainAt(run, states, m, m, k, pc.p, pc.n);
      AlwaysInv(run, states, m);
      assert states[m + 1] == Do(states[m], c, Put) by {
        RunStep(run, states, m);
      }
      RefusedPut(states[m], c);
    }
  }

  lemma RunStep(run: seq<(Cid, Step)>, states: seq<State>, k: nat)
    requires IsRun(run, states) && k + 1 < |states|
    ensures k < |run| && Can(states[k], run[k].0, run[k].1)
    ensures states[k + 1] == Do(states[k], run[k].0, run[k].1)
  {
  }

  /** What holds of the directory in between. */
  lemma PlainAt(run: seq<(Cid, Step)>, states: seq<State>, m: nat, l: nat, k: nat, p: u32, n: Name)
    requires IsRun(run, states) && m <= l <= k < |states|
    requires Plain(states[k], p) && Undisturbed(states[k].log, |states[m].log|, p, n)
    ensures Plain(states[l], p) && Undisturbed(states[l].log, |states[m].log|, p, n)
  {
    hide IsRun, Plain;
    LogGrows(run, states, m, l);
    LogGrows(run, states, l, k);
    var a, b, j := states[l].log, states[k].log, |states[m].log|;
    forall i: nat | j <= i < |a|
      ensures a[i] != Born(p) && a[i] != Del(p, n)
    {
      assert b[i] == a[i];
    }
    PlainBefore(run, states, l, k, p);
  }

  /** The entry is there, and whoever is about to store the directory has read it as it is. */
  ghost predicate Kept(s: State, p: u32, n: Name, ino: u32) {
    HasEntry(s, p, n, ino) && forall d: Cid | HasRead(PcOf(s, d), p) :: PcOf(s, d).buf == s.files[p].data
  }

  lemma {:induction false} CreateStays(run: seq<(Cid, Step)>, states: seq<State>, m: nat, l: nat, k: nat, c: Cid)
    requires CreatesAt(run, states, m, c) && m < l <= k < |states|
    requires var pc := PcOf(states[m], c);
      && Plain(states[k], pc.p) && Undisturbed(states[k].log, |states[m].log|, pc.p, pc.n)
      && |pc.buf| + MAXDIRENTRYLEN <= MAX_FILE
    ensures var pc := PcOf(states[m], c);
      Kept(states[l], pc.p, pc.n, pc.ino)
  {
    hide IsRun, Plain, HasEntry, Inv, Can, Do, Undisturbed, Kept;
    RunStep(run, states, l - 1);
    var pc, s, t, e := PcOf(states[m], c), states[l - 1], run[l - 1].0, run[l - 1].1;
    PlainAt(run, states, m, l - 1, k, pc.p, pc.n);
    PlainAt(run, states, m, l, k, pc.p, pc.n);
    AlwaysInv(run, states, l - 1);
    if l == m + 1 {
      StoredIsKept(s, c);
    } else {
      CreateStays(run, states, m, l - 1, k, c);
      LogGrows(run, states, m, l - 1);
      KeptStep(s, t, e, pc.p, pc.n, pc.ino, |states[m].log|);
    }
  }

  /** The last entry of a directory is in its map. */
  lemma LastIsIn(data: seq<byte>, e: DirEnt)
    requires IsName(e.name) && GoodDir(data + EncodeEnt(e))
    ensures e.name in DirMap(data + EncodeEnt(e)) && DirMap(data + EncodeEnt(e))[e.name] == e.inum
  {
    EntRoundTrip(e);
    var d, b, n := data + EncodeEnt(e), EncodeEnt(e), |data| / MAXDIRENTRYLEN;
    assert |d| % MAXDIRENTRYLEN == 0;
    hide CStr, GoodEnt, DecodeEnt, EncodeEnt, IsName, MapOf;
    SliceAppend(data, b, n);
    assert Entries(d)[n] == e;
    MapOfAt(Entries(d), n);
  }

  /** Only the lock's holder is about to store a directory. */
  lemma NoOtherReader(s: State, c: Cid, d: Cid)
    requires MutualExclusion(s) && Can(s, c, Put) && !PcOf(s, c).AddLink?
    ensures !HasRead(PcOf(Do(s, c, Put), d), PcOf(s, c).p)
  {
    PutEffect(s, c);
    OthersStay(s, c, Put);
    hide Can, Do;
    var p := PcOf(s, c).p;
    assert Holds(PcOf(s, d), p) ==> s.locks[p] == d;
    assert Holds(PcOf(s, c), p) ==> s.locks[p] == c;
  }

  lemma StoredIsKept(s: State, c: Cid)
    requires Inv(s) && Can(s, c, Put) && PcOf(s, c).AddPut? && Plain(Do(s, c, Put), PcOf(s, c).p)
    requires |PcOf(s, c).buf| + MAXDIRENTRYLEN <= MAX_FILE
    ensures var pc := PcOf(s, c); Kept(Do(s, c, Put), pc.p, pc.n, pc.ino)
  {
    hide Can, Do, GoodDir, DirMap, EncodeEnt, Entries, DirsAgree, AllStillTrue, StillTrue, Coming;
    var pc, s' := PcOf(s, c), Do(s, c, Put);
    PutEffect(s, c);
    assert s'.files[pc.p].data == Coming(pc);
    GoodStep(s, c, Put);
    LastIsIn(pc.buf, DirEnt(pc.n, pc.ino));
    forall d: Cid
      ensures !HasRead(PcOf(s', d), pc.p)
    {
      NoOtherReader(s, c, d);
    }
  }

  /** A put refused for its size leaves the directory without the name. */
  lemma RefusedPut(s: State, c: Cid)
    requires Inv(s) && Can(s, c, Put) && PcOf(s, c).AddPut? && Plain(s, PcOf(s, c).p)
    requires |PcOf(s, c).buf| + MAXDIRENTRYLEN > MAX_FILE
    ensures var pc := PcOf(s, c); !HasEntry(Do(s, c, Put), pc.p, pc.n, pc.ino)
  {
    hide Can, Do, GoodDir, DirMap, EncodeEnt, Entries, DirsAgree, MutualExclusion, Coming;
    var pc := PcOf(s, c);
    PutEffect(s, c);
    EmptyLacks();
    assert StillTrue(s.files, s.overwritten, pc);
    assert Lacks(s.files[pc.p].data, pc.n);
  }

  lemma InvParts(s: State)
    requires Inv(s)
    ensures MutualExclusion(s)
  {
  }

  lemma UndisturbedSame(log: seq<Change>, j: nat, d: u32, n: Name)
    requires Undisturbed(log, j, d, n)
    ensures SameDir(log, j, d)
  {
  }

  /** What a step does to an entry of a directory that lives on. */
  lemma KeptStep(s: State, c: Cid, e: Step, p: u32, n: Name, ino: u32, j: nat)
    requires Inv(s) && Can(s, c, e) && Kept(s, p, n, ino) && Plain(s, p) && Plain(Do(s, c, e), p)
    requires j <= |s.log| && Undisturbed(Do(s, c, e).log, j, p, n)
    ensures Kept(Do(s, c, e), p, n, ino)
  {
    var pc, s' := PcOf(s, c), Do(s, c, e);
    hide Can, Do, DirMap, Inv;
    assert MutualExclusion(s) by {
      InvParts(s);
    }
    UndisturbedSame(s'.log, j, p, n);
    PlainStep(s, c, e, p, j);
    if Writes(pc, e, p) {
      KeptByPut(s, c, p, n, ino, j);
      forall d: Cid
        ensures !HasRead(PcOf(s', d), p)
      {
        NoOtherReader(s, c, d);
      }
    } else {
      BytesKept(s, c, e, p);
      assert s'.files[p] == s.files[p];
      forall d: Cid | HasRead(PcOf(s', d), p)
        ensures PcOf(s', d).buf == s'.files[p].data
      {
        NewReader(s, c, e, d, p);
      }
    }
  }

  lemma NewReader(s: State, c: Cid, e: Step, d: Cid, p: u32)
    requires Can(s, c, e) && HasRead(PcOf(Do(s, c, e), d), p)
    ensures var pc := PcOf(Do(s, c, e), d);
      pc.buf == DataOf(s.files, p) || (HasRead(PcOf(s, d), p) && PcOf(s, d).buf == pc.buf)
  {
    hide Gone, GoodDir, Coming, Entries, Stored, Has;
  }

  lemma KeptByPut(s: State, c: Cid, p: u32, n: Name, ino: u32, j: nat)
    requires Inv(s) && Can(s, c, Put) && Writes(PcOf(s, c), Put, p) && Kept(s, p, n, ino) && Plain(s, p)
    requires j <= |s.log| && Undisturbed(Do(s, c, Put).log, j, p, n)
    ensures HasEntry(Do(s, c, Put), p, n, ino)
  {
    hide Can, Do, GoodDir, DirMap, EncodeEnt, Entries, DirsAgree, MutualExclusion, Coming;
    var pc, s' := PcOf(s, c), Do(s, c, Put);
    PutEffect(s, c);
    assert StillTrue(s.files, s.overwritten, pc) && HasRead(pc, p) && GoodDir(s.files[p].data);
    if Accepted(s.files, p, Coming(pc)) {
      CurrentPut(s, pc);
      EmptyLacks();
      assert s'.log[|s.log|] == ChangeOf(pc) && ChangeOf(pc) != Del(p, n);
      assert pc.AddPut? ==> Lacks(pc.buf, pc.n);
    }
  }

  // ---------- check and append ----------

  /** Client `c` reads its directory at step `g` and takes no step from then until state `k`. */
  ghost predicate ReadAt(run: seq<(Cid, Step)>, states: seq<State>, g: nat, k: nat, c: Cid) {
    && IsRun(run, states) && g < k < |states| && run[g] == (c, Get) && PcOf(states[g], c).AddGet?
    && forall l: nat | g < l < k :: run[l].0 != c
  }

  /**
   * Check and append are atomic: when the entry is about to be stored the name
   * is absent, and the bytes read are those of the directory exactly when it
   * has not been made anew since, or there are none.
   */
  lemma AppendIsFresh(run: seq<(Cid, Step)>, states: seq<State>, g: nat, k: nat, c: Cid)
    requires ReadAt(run, states, g, k, c) && Plain(states[k], PcOf(states[g], c).p)
    ensures var pc, pc0 := PcOf(states[k], c), PcOf(states[g], c);
      && pc == AddPut(pc0.p, pc0.n, pc0.typ, pc0.link, pc0.ino, DataOf(states[g].files, pc0.p))
      && pc.n !in DirMap(states[k].files[pc.p].data)
      && (states[k].files[pc.p].data == pc.buf <==> SameDir(states[k].log, |states[g].log|, pc.p) || pc.buf == [])
  {
    var s := states[k];
    ReadStays(run, states, g, k, c);
    assert StillRead(states[g], s, c);
    AlwaysInv(run, states, k);
    EmptyLacks();
    hide IsRun, Plain, DirsAgree, GoodDir, DirMap, SameDir;
    assert StillTrue(s.files, s.overwritten, PcOf(s, c));
    assert Lacks(DataOf(s.files, PcOf(s, c).p), PcOf(s, c).n);
    assert GoodDir(DataOf(s.files, PcOf(s, c).p)) by {
      assert Plain(s, PcOf(s, c).p) && DirsGood(s);
    }
  }

  lemma {:induction false} ReadStays(run: seq<(Cid, Step)>, states: seq<State>, g: nat, k: nat, c: Cid)
    requires ReadAt(run, states, g, k, c)
    ensures StillRead(states[g], states[k], c)
    decreases k
  {
    hide IsRun, Can, Do, StillRead, Inv;
    RunStep(run, states, k - 1);
    if k == g + 1 {
      JustRead(states[g], c);
    } else {
      ReadStays(run, states, g, k - 1, c);
      AlwaysInv(run, states, k - 1);
      LogGrows(run, states, g, k - 1);
      ReadStep(states[g], states[k - 1], run[k - 1].0, run[k - 1].1, c);
    }
  }

  /** Client `c` is where its reading in `s0` has left it; its directory is as it was, or made anew and empty. */
  ghost predicate StillRead(s0: State, s: State, c: Cid) {
    var pc0 := PcOf(s0, c);
    pc0.AddGet? && var buf := DataOf(s0.files, pc0.p);
    && PcOf(s, c) == AddPut(pc0.p, pc0.n, pc0.typ, pc0.link, pc0.ino, buf)
    && (pc0.p !in s.overwritten && pc0.p in s.files ==>
          DataOf(s.files, pc0.p) == if SameDir(s.log, |s0.log|, pc0.p) then buf else [])
  }

  lemma JustRead(s: State, c: Cid)
    requires Can(s, c, Get) && PcOf(s, c).AddGet?
    ensures StillRead(s, Do(s, c, Get), c)
  {
  }

  lemma ReadStep(s0: State, s: State, t: Cid, e: Step, c: Cid)
    requires Inv(s) && Can(s, t, e) && t != c && StillRead(s0, s, c) && |s0.log| <= |s.log|
    ensures StillRead(s0, Do(s, t, e), c)
  {
    hide Can, Do, SameDir, AllStillTrue, DirsGood, DirsAgree;
    var p := PcOf(s0, c).p;
    OthersStay(s, t, e);
    LockProtects(s, t, e, c, p);
    SameDirStep(s, t, e, p, |s0.log|);
    if p !in Do(s, t, e).overwritten {
      BytesKept(s, t, e, p);
    }
  }
}
