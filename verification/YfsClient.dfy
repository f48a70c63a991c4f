/** The file system calls (CSE/cselab1backup/yfs_client.cc) over the extent layer (extent_server.cc). */
module YfsClients {

  import opened Bytes
  import opened Disk
  import opened InodeImage
  import opened InodeManagers
  import opened Namespace
  import opened Directory
  import opened FileBytes
  import opened Tree
  import opened Wrappers

  const OK: int := 0
  const IOERR: int := 3
  const EXIST: int := 4

  /** Modulus of size_t. */
  const SIZE_T: nat := 0x1_0000_0000_0000_0000

  /** What the code picks up from outside: the clock, uninitialised memory, and memory past a string's end. */
  datatype EnvData = Env(now: u32, junk: seq<u32>, stack: Block, slack: seq<byte>)

  const SOME_ENV: EnvData := Env(0, NO_BLOCKS, ZERO_BLOCK, ZERO_BLOCK)

  type Env = e: EnvData | |e.junk| == NDIRECT + 1 && |e.slack| >= BLOCK_SIZE witness SOME_ENV

  /** put: too long a string, or no such inode, changes nothing. */
  function Put(files: map<u32, File>, i: u32, data: seq<byte>): map<u32, File> {
    if i in files && |data| <= MAX_BYTES then files[i := File.File(files[i].typ, data)] else files
  }

  ghost predicate SomeInodeFree(files: map<u32, File>) {
    exists i: u32 :: IsInum(i) && i !in files
  }

  class YfsClient {
    const im: InodeManager

    constructor (env: Env)
      ensures fresh(im) && fresh(im.bm) && fresh(im.bm.d) && fresh(im.bm.d.blocks)
      ensures im.Valid() && im.FileMap() == OnlyRoot() && IsTree(im.FileMap())
    {
      im := new InodeManager(env.now, env.junk);
      new;
      FirstPut();
      EmptyRoot();
      hide *;
      ExtPut(1, [], env);
    }

    // ---------- extent calls ----------

    method ExtCreate(typ: u32, env: Env) returns (id: u32)
      requires im.Valid() && typ != 0
      modifies im.bm.d.blocks
      ensures im.Valid()
      ensures id == 0 <==> !SomeInodeFree(old(im.FileMap()))
      ensures id != 0 ==> IsInum(id) && id !in old(im.FileMap())
      ensures im.FileMap() == if id == 0 then old(im.FileMap()) else old(im.FileMap())[id := File.File(typ, [])]
    {
      id := im.AllocInode(typ, env.now, env.junk);
    }

    method ExtGet(id: u32, env: Env) returns (buf: seq<byte>)
      requires im.Valid() && id < 0x8000_0000
      modifies im.bm.d.blocks
      ensures im.Valid() && im.FileMap() == old(im.FileMap())
      ensures buf == DataOf(im.FileMap(), id)
    {
      var r := im.ReadFile(id, env.now);
      buf := if r == None then [] else r.value;
    }

    method ExtPut(id: u32, buf: seq<byte>, env: Env)
      requires im.Valid() && id < 0x8000_0000 && |buf| < 0x8000_0000
      requires Affordable(im.FileMap(), id, buf, im.FreeBlocks())
      modifies im.bm, im.bm.d.blocks
      ensures im.Valid() && im.FileMap() == Put(old(im.FileMap()), id, buf)
      ensures im.FreeBlocks() == old(im.FreeBlocks()) - Cost(old(im.FileMap()), id, buf)
    {
      assert (buf + env.slack)[..|buf|] == buf;
      im.WriteFile(id, buf + env.slack, |buf|, env.now, env.stack);
    }

    method ExtRemove(id: u32, env: Env, ghost rank: map<u32, nat>)
      requires im.Valid() && id < 0x8000_0000
      requires Ranked(im.FileMap(), rank) && WholeEntries(im.FileMap())
      modifies im.bm, im.bm.d.blocks
      ensures im.Valid()
      ensures im.FileMap() == old(im.FileMap()) - Subtree(old(im.FileMap()), rank, id)
    {
      im.RemoveFile(id, env.now, env.stack, rank);
    }

    // ---------- directories ----------

    /** `prev` is the caller's out-variable before the call; it keeps its value when the name is not there. */
    method Lookup(parent: u32, name: seq<byte>, prev: u32, env: Env) returns (found: bool, ino: u32)
      requires im.Valid() && parent < 0x8000_0000
      requires GoodDir(DataOf(im.FileMap(), parent))
      modifies im.bm.d.blocks
      ensures im.Valid() && im.FileMap() == old(im.FileMap())
      ensures found <==> name in DirMap(DataOf(im.FileMap(), parent))
      ensures ino == if found then DirMap(DataOf(im.FileMap(), parent))[name] else prev
    {
      var buf := ExtGet(parent, env);
      found, ino := Search(buf, name, prev);
    }

    /** The scan of lookup: strcmp on each entry. */
    static method Search(buf: seq<byte>, name: seq<byte>, prev: u32) returns (found: bool, ino: u32)
      requires GoodDir(buf)
      ensures found <==> name in DirMap(buf)
      ensures ino == if found then DirMap(buf)[name] else prev
    {
      hide Entries, MapOf, CStr, GoodEnts, Unique;
      var i := 0;
      ghost var k := 0;
      while i < |buf|
        invariant i == k * MAXDIRENTRYLEN && 0 <= k <= |Entries(buf)|
        invariant forall l | 0 <= l < k :: Entries(buf)[l].name != name
      {
        EntryMatch(buf, k, name);
        if CStr(buf[i..]) == name {
          ino := FromLe32(buf[i + MAXFILENAMELEN..i + MAXDIRENTRYLEN]);
          return true, ino;
        }
        i, k := i + MAXDIRENTRYLEN, k + 1;
      }
      found, ino := false, prev;
    }

    /** All entries in order: the 60 bytes of the name field and the inode number. */
    method ReadDir(dir: u32, env: Env) returns (list: seq<DirEnt>)
      requires im.Valid() && dir < 0x8000_0000
      requires GoodDir(DataOf(im.FileMap(), dir))
      modifies im.bm.d.blocks
      ensures im.Valid() && im.FileMap() == old(im.FileMap())
      ensures |list| == |Entries(DataOf(im.FileMap(), dir))|
      ensures forall k | 0 <= k < |list| ::
                var e := Entries(DataOf(im.FileMap(), dir))[k];
                IsName(e.name) && list[k] == DirEnt(Pad(e.name), e.inum)
    {
      var buf := ExtGet(dir, env);
      list := ListAll(buf);
    }

    static method ListAll(buf: seq<byte>) returns (list: seq<DirEnt>)
      requires GoodDir(buf)
      ensures |list| == |Entries(buf)|
      ensures forall k | 0 <= k < |list| ::
                IsName(Entries(buf)[k].name) && list[k] == DirEnt(Pad(Entries(buf)[k].name), Entries(buf)[k].inum)
    {
      hide Entries, CStr, GoodEnts, Unique, Pad;
      list := [];
      var i := 0;
      while i < |buf|
        invariant i == |list| * MAXDIRENTRYLEN && |list| <= |Entries(buf)|
        invariant forall k | 0 <= k < |list| ::
                    IsName(Entries(buf)[k].name) && list[k] == DirEnt(Pad(Entries(buf)[k].name), Entries(buf)[k].inum)
      {
        EntryFields(buf, |list|);
        list := list + [DirEnt(buf[i..i + MAXFILENAMELEN], FromLe32(buf[i + MAXFILENAMELEN..i + MAXDIRENTRYLEN]))];
        i := i + MAXDIRENTRYLEN;
      }
    }

    /** The common part of create, mkdir and symlink after the name was found to be new. */
    method AddEntry(parent: u32, name: seq<byte>, typ: u32, env: Env) returns (ino: u32)
      requires im.Valid() && IsTree(im.FileMap()) && typ != 0
      requires CanEnter(im.FileMap(), parent, name, im.FreeBlocks())
      requires name !in DirMap(im.FileMap()[parent].data)
      modifies im.bm, im.bm.d.blocks
      ensures im.Valid() && Entered(old(im.FileMap()), im.FileMap(), parent, name, ino, File.File(typ, []))
      ensures IsTree(im.FileMap())
      ensures im.FreeBlocks() == old(im.FreeBlocks()) - EntryCost(old(im.FileMap()), parent)
    {
      hide IsTree, Inv, Files, DirMap, GoodDirs;
      ghost var files := im.FileMap();
      ino := ExtCreate(typ, env);
      CanAddNow(files, parent, name, ino, File.File(typ, []), im.FreeBlocks());
      hide CanAdd, CanEnter;
      AddFits(files, parent, name, ino, File.File(typ, []));
      AddKeepsTree(files, parent, name, ino, File.File(typ, []));
      var buf := ExtGet(parent, env);
      buf := buf + name;
      buf := buf + Zeros(MAXDIRENTRYLEN - |name|);
      buf := buf[..|buf| - 4] + Le32(ino);
      EntryBuilt(DataOf(files, parent), name, ino, buf);
      ExtPut(parent, buf, env);
    }

    /** create (T_FILE) and mkdir (T_DIR). */
    method CreateAs(typ: u32, parent: u32, name: seq<byte>, prev: u32, env: Env) returns (r: int, ino: u32)
      requires im.Valid() && IsTree(im.FileMap()) && (typ == T_FILE || typ == T_DIR)
      requires CanEnter(im.FileMap(), parent, name, im.FreeBlocks())
      modifies im.bm, im.bm.d.blocks
      ensures im.Valid() && IsTree(im.FileMap())
      ensures r == if name in DirMap(old(im.FileMap())[parent].data) then EXIST else OK
      ensures r == EXIST ==> im.FileMap() == old(im.FileMap()) && ino == DirMap(old(im.FileMap())[parent].data)[name]
      ensures r == OK ==> Entered(old(im.FileMap()), im.FileMap(), parent, name, ino, File.File(typ, []))
    {
      GoodParent(im.FileMap(), parent, name, im.FreeBlocks());
      hide IsTree, Inv, Files, DirMap, GoodDir, CanEnter;
      var found;
      found, ino := Lookup(parent, name, prev, env);
      if found {
        return EXIST, ino;
      }
      ino := AddEntry(parent, name, typ, env);
      r := OK;
    }

    method Create(parent: u32, name: seq<byte>, prev: u32, env: Env) returns (r: int, ino: u32)
      requires im.Valid() && IsTree(im.FileMap())
      requires CanEnter(im.FileMap(), parent, name, im.FreeBlocks())
      modifies im.bm, im.bm.d.blocks
      ensures im.Valid() && IsTree(im.FileMap())
      ensures r == if name in DirMap(old(im.FileMap())[parent].data) then EXIST else OK
      ensures r == EXIST ==> im.FileMap() == old(im.FileMap())
      ensures r == OK ==> Entered(old(im.FileMap()), im.FileMap(), parent, name, ino, File.File(T_FILE, []))
    {
      hide IsTree, Inv, Files, DirMap, CanEnter;
      r, ino := CreateAs(T_FILE, parent, name, prev, env);
    }

    method Mkdir(parent: u32, name: seq<byte>, prev: u32, env: Env) returns (r: int, ino: u32)
      requires im.Valid() && IsTree(im.FileMap())
      requires CanEnter(im.FileMap(), parent, name, im.FreeBlocks())
      modifies im.bm, im.bm.d.blocks
      ensures im.Valid() && IsTree(im.FileMap())
      ensures r == if name in DirMap(old(im.FileMap())[parent].data) then EXIST else OK
      ensures r == EXIST ==> im.FileMap() == old(im.FileMap())
      ensures r == OK ==> Entered(old(im.FileMap()), im.FileMap(), parent, name, ino, File.File(T_DIR, []))
    {
      hide IsTree, Inv, Files, DirMap, CanEnter;
      r, ino := CreateAs(T_DIR, parent, name, prev, env);
    }

    /** The link text is stored by a second put, which is silently refused when it is too long for a file. */
    method Symlink(link: seq<byte>, parent: u32, name: seq<byte>, env: Env) returns (r: int, ino: u32)
      requires im.Valid() && IsTree(im.FileMap()) && |link| < 0x8000_0000
      requires CanEnter(im.FileMap(), parent, name, im.FreeBlocks())
      requires |link| <= MAX_BYTES ==> EntryCost(im.FileMap(), parent) + Demand(0, |link|) <= im.FreeBlocks()
      modifies im.bm, im.bm.d.blocks
      ensures im.Valid() && IsTree(im.FileMap())
      ensures r == if name in DirMap(old(im.FileMap())[parent].data) then EXIST else OK
      ensures r == EXIST ==> im.FileMap() == old(im.FileMap())
      ensures r == OK ==> Entered(old(im.FileMap()), im.FileMap(), parent, name, ino, Link(link))
    {
      GoodParent(im.FileMap(), parent, name, im.FreeBlocks());
      hide IsTree, Inv, Files, DirMap, GoodDir, CanEnter, Demand, EntryCost, EncodeEnt;
      var found;
      found, ino := Lookup(parent, name, 0, env);
      if found {
        return EXIST, ino;
      }
      ino := AddEntry(parent, name, T_SYMLINK, env);
      assert ino <= INODE_NUM;
      hide Entered, Put, Link;
      LinkStored(old(im.FileMap()), parent, name, ino, im.FileMap(), link);
      ExtPut(ino, link, env);
      r := OK;
    }

    /** Removes a name together with everything below the inode it names. */
    method Unlink(parent: u32, name: seq<byte>, env: Env) returns (r: int)
      requires im.Valid() && IsTree(im.FileMap()) && IsName(name)
      requires IsDir(im.FileMap(), parent)
      modifies im.bm, im.bm.d.blocks
      ensures im.Valid() && IsTree(im.FileMap()) && r == OK
      ensures AfterUnlink(old(im.FileMap()), im.FileMap(), parent, name)
    {
      ghost var files := im.FileMap();
      ghost var rank := TreeRank(files);
      UnlinkParent(files, parent);
      hide IsTree, Inv, Files, DirMap, GoodDir, GoodDirs;
      var buf := ExtGet(parent, env);
      var at := FindEntry(buf, name);
      if at < |buf| {
        RemoveAt(parent, name, buf, at, env, rank);
      }
      r := OK;
    }

    /** "retrieve inode number", erase the entry, remove the inode, store the directory. */
    method RemoveAt(parent: u32, name: seq<byte>, buf: seq<byte>, at: nat, env: Env, ghost rank: map<u32, nat>)
      requires im.Valid() && IsTree(im.FileMap()) && Ranked(im.FileMap(), rank) && WholeEntries(im.FileMap())
      requires IsDir(im.FileMap(), parent) && buf == im.FileMap()[parent].data
      requires GoodDir(buf) && at % MAXDIRENTRYLEN == 0 && at / MAXDIRENTRYLEN < |Entries(buf)|
      requires Entries(buf)[at / MAXDIRENTRYLEN].name == name
      modifies im.bm, im.bm.d.blocks
      ensures im.Valid() && IsTree(im.FileMap())
      ensures Unlinked(old(im.FileMap()), im.FileMap(), parent, name)
    {
      hide IsTree, GoodDir, Entries, Ranked, Unlinked, Files, Inv, Put, Erase, WholeEntries;
      hide Affordable, DirMap, Subtree;
      EntryIno(buf, at / MAXDIRENTRYLEN, at);
      var ino := FromLe32(buf[at + MAXFILENAMELEN..at + MAXDIRENTRYLEN]);
      var rest := buf[..at] + buf[at + MAXDIRENTRYLEN..];
      RemovePlan(im.FileMap(), rank, parent, name, at / MAXDIRENTRYLEN, ino, rest);
      ExtRemove(ino, env, rank);
      ExtPut(parent, rest, env);
    }

    /** The scan of unlink: the bytes of the name followed by a NUL. Returns the offset, or the length when absent. */
    static method FindEntry(buf: seq<byte>, name: seq<byte>) returns (at: nat)
      requires GoodDir(buf) && IsName(name)
      ensures at <= |buf| && at % MAXDIRENTRYLEN == 0
      ensures at == |buf| <==> name !in DirMap(buf)
      ensures at < |buf| ==> at / MAXDIRENTRYLEN < |Entries(buf)| && Entries(buf)[at / MAXDIRENTRYLEN].name == name
    {
      hide Entries, MapOf, CStr, GoodEnts, Unique, IsName;
      at := 0;
      ghost var k := 0;
      EntryFields(buf, 0);
      while at < |buf|
        invariant at == k * MAXDIRENTRYLEN && 0 <= k <= |Entries(buf)|
        invariant forall l | 0 <= l < k :: Entries(buf)[l].name != name
      {
        EntryMatch(buf, k, name);
        EntryPrefix(buf, k, name);
        if buf[at..at + |name|] == name && buf[at + |name|] == 0 {
          return;
        }
        at, k := at + MAXDIRENTRYLEN, k + 1;
      }
    }

    // ---------- files ----------

    method Read(ino: u32, size: nat, off: nat, env: Env) returns (data: seq<byte>)
      requires im.Valid() && ino < 0x8000_0000 && size < SIZE_T && off < SIZE_T / 2
      modifies im.bm.d.blocks
      ensures im.Valid() && im.FileMap() == old(im.FileMap())
      ensures data == ReadAt(DataOf(im.FileMap(), ino), off, size)
      ensures IsRead(DataOf(im.FileMap(), ino), off, size, data)
    {
      var buf := ExtGet(ino, env);
      data := Pick(buf, size, off);
    }

    /** The three cases of read, on the bytes of the file; `off + size` is size_t arithmetic. */
    static method Pick(buf: seq<byte>, size: nat, off: nat) returns (data: seq<byte>)
      requires size < SIZE_T && off < SIZE_T / 2
      ensures data == ReadAt(buf, off, size)
    {
      if off >= |buf| {
        data := [];
      } else if (off + size) % SIZE_T <= |buf| {
        data := Substr(buf, off, size);
      } else {
        data := buf[off..];
      }
    }

    method Write(ino: u32, off: nat, data: seq<byte>, env: Env) returns (r: int, bytes_written: int)
      requires im.Valid() && IsTree(im.FileMap()) && off < SIZE_T / 2 && |data| < SIZE_T / 2
      requires CanWrite(im.FileMap(), ino, off, data, im.FreeBlocks())
      modifies im.bm, im.bm.d.blocks
      ensures im.Valid() && IsTree(im.FileMap()) && r == OK
      ensures Wrote(old(im.FileMap()), im.FileMap(), ino, off, data, bytes_written)
    {
      ghost var files := im.FileMap();
      BoundedFile(im, ino);
      hide IsTree, Inv, Files;
      var buf := ExtGet(ino, env);
      buf, bytes_written := Splice(buf, off, data);
      WriteStored(files, ino, off, data, im.FreeBlocks(), buf, bytes_written);
      hide CanWrite, Wrote, Put, Affordable;
      ExtPut(ino, buf, env);
      r := OK;
    }

    /** The three cases of write, on the bytes of the file. */
    static method Splice(before: seq<byte>, off: nat, data: seq<byte>) returns (buf: seq<byte>, bytes_written: int)
      requires |before| <= MAX_BYTES
      ensures IsWrite(before, off, data, buf) && bytes_written == Reported(before, off, data)
    {
      buf := before;
      var dataString := data;
      if off < MAX_BYTES {
        if off + |data| > MAX_BYTES {
          dataString := data[..MAX_BYTES - off];
        }
        assert dataString == Fitting(off, data);
        if off > |buf| {
          bytes_written := off + |dataString| - |buf|;
          buf := buf + Zeros(off - |buf|);
          buf := buf + dataString;
        } else {
          bytes_written := |dataString|;
          buf := buf[..off] + dataString + buf[Min(off + |dataString|, |buf|)..];
        }
      } else {
        bytes_written := MAX_BYTES - |buf|;
        buf := buf + Zeros(MAX_BYTES - |buf|);
      }
    }

    /** Only the size. OK is returned even when the put behind it was refused for being too long. */
    method SetAttr(ino: u32, size: nat, env: Env) returns (r: int)
      requires im.Valid() && IsTree(im.FileMap()) && size < 0x8000_0000
      requires CanResize(im.FileMap(), ino, size, im.FreeBlocks())
      modifies im.bm, im.bm.d.blocks
      ensures im.Valid() && IsTree(im.FileMap())
      ensures r == if IsInum(ino) then OK else IOERR
      ensures im.FileMap() == AfterSetAttr(old(im.FileMap()), ino, size)
      ensures Truncated(old(im.FileMap()), im.FileMap(), ino, size)
    {
      hide IsTree, CanResize, Resized, Put, Affordable, AfterSetAttr, Inv, Files, DataOf, Truncated;
      ResizedTree(im.FileMap(), ino, size, im.FreeBlocks());
      AfterIsPut(im.FileMap(), ino, size);
      AfterIsTruncated(im.FileMap(), ino, size);
      if ino <= 0 || ino > INODE_NUM {
        return IOERR;
      }
      var buf := ExtGet(ino, env);
      buf := SetLength(buf, size);
      ExtPut(ino, buf, env);
      r := OK;
    }

    static method SetLength(buf: seq<byte>, size: nat) returns (out: seq<byte>)
      ensures out == Resized(buf, size)
    {
      if |buf| < size {
        out := buf + Zeros(size - |buf|);
      } else {
        out := buf[..size];
      }
    }
  }

  lemma FirstPut()
    ensures Put(OnlyRoot(), 1, []) == OnlyRoot()
    ensures forall free: nat :: Affordable(OnlyRoot(), 1, [], free)
  {
    var m := OnlyRoot();
    assert m[1] == File.File(T_DIR, []);
    assert m[1 := File.File(T_DIR, [])] == m;
  }

  lemma EmptyRoot()
    ensures IsTree(OnlyRoot())
  {
    var files := OnlyRoot();
    assert Kids(files, ROOT) == [];
    assert Graph.Levels(Links(files), map[ROOT := 0]);
  }

  /** Blocks taken by a put, negative when it returns some. */
  function Cost(files: map<u32, File>, i: u32, data: seq<byte>): int {
    if i in files && |data| <= MAX_BYTES then Demand(|files[i].data|, |data|) else 0
  }

  predicate Affordable(files: map<u32, File>, i: u32, data: seq<byte>, free: nat) {
    Cost(files, i, data) <= free
  }

  lemma EntryFields(data: seq<byte>, k: nat)
    requires GoodDir(data)
    ensures |Entries(data)| * MAXDIRENTRYLEN == |data|
    ensures k < |Entries(data)| ==>
              && (k + 1) * MAXDIRENTRYLEN <= |data|
              && IsName(Entries(data)[k].name)
              && data[k * MAXDIRENTRYLEN..k * MAXDIRENTRYLEN + MAXFILENAMELEN] == Pad(Entries(data)[k].name)
              && EntryInum(data, k) == Entries(data)[k].inum
  {
    if k < |Entries(data)| {
      var b := Slice(data, k);
      assert GoodEnt(b);
      assert data[k * MAXDIRENTRYLEN..k * MAXDIRENTRYLEN + MAXFILENAMELEN] == b[..MAXFILENAMELEN];
      SubsAreEntries(data);
    }
  }

  /** strcmp against entry `k` compares its name: the padding holds a NUL. */
  lemma EntryMatch(data: seq<byte>, k: nat, name: seq<byte>)
    requires GoodDir(data) && k * MAXDIRENTRYLEN < |data|
    ensures k < |Entries(data)| && (k + 1) * MAXDIRENTRYLEN <= |data|
    ensures CStr(data[k * MAXDIRENTRYLEN..]) == Entries(data)[k].name
    ensures Entries(data)[k].name in DirMap(data)
    ensures DirMap(data)[Entries(data)[k].name] == Entries(data)[k].inum == EntryInum(data, k)
  {
    EntryFields(data, k);
    var n, t := Entries(data)[k].name, data[k * MAXDIRENTRYLEN..];
    assert t[..MAXFILENAMELEN] == Pad(n);
    assert t[..|n|] == Pad(n)[..|n|] == n && t[|n|] == Pad(n)[|n|] == 0;
    CStrIs(t, n);
    MapOfAt(Entries(data), k);
  }

  /** A new inode `ino` holding `f` has been appended to directory `parent` under `name`; nothing else changed. */
  ghost predicate Entered(files: map<u32, File>, files': map<u32, File>, parent: u32, name: seq<byte>,
                          ino: u32, f: File) {
    && parent in files && IsName(name) && IsInum(ino) && ino !in files
    && files' == Added(files, parent, name, ino, f)
  }

  /** The directory has one more record, behind the others, and reads as the map with one more name. */
  lemma EnteredExact(files: map<u32, File>, files': map<u32, File>, parent: u32, name: seq<byte>, ino: u32, f: File)
    requires Entered(files, files', parent, name, ino, f)
    requires files[parent].typ == T_DIR && GoodDir(files[parent].data)
    ensures files'.Keys == files.Keys + {ino} && ino !in files && files'[ino] == f
    ensures forall x | x in files && x != parent :: files'[x] == files[x]
    ensures files'[parent].typ == T_DIR
    ensures Entries(files'[parent].data) == Entries(files[parent].data) + [DirEnt(name, ino)]
    ensures DirMap(files'[parent].data) == DirMap(files[parent].data)[name := ino]
  {
    hide GoodDir, Entries, DirMap, EncodeEnt, MapOf;
    assert parent != ino;
    Append(files[parent].data, DirEnt(name, ino));
  }

  /** What a symlink inode holds after the two puts. */
  function Link(link: seq<byte>): File {
    File.File(T_SYMLINK, if |link| <= MAX_BYTES then link else [])
  }

  lemma LinkStored(files: map<u32, File>, parent: u32, name: seq<byte>, ino: u32, files': map<u32, File>,
                   link: seq<byte>)
    requires Entered(files, files', parent, name, ino, File.File(T_SYMLINK, [])) && IsTree(files')
    ensures IsTree(Put(files', ino, link))
    ensures Entered(files, Put(files', ino, link), parent, name, ino, Link(link))
    ensures Cost(files', ino, link) == if |link| <= MAX_BYTES then Demand(0, |link|) else 0
  {
    LinkPut(files, parent, name, ino, files', link);
    hide IsTree, Entered, Demand;
    if |link| <= MAX_BYTES {
      RewriteKeepsTree(files', ino, link);
    }
  }

  lemma LinkPut(files: map<u32, File>, parent: u32, name: seq<byte>, ino: u32, files': map<u32, File>, link: seq<byte>)
    requires Entered(files, files', parent, name, ino, File.File(T_SYMLINK, []))
    ensures Entered(files, Put(files', ino, link), parent, name, ino, Link(link))
    ensures ino in files' && files'[ino] == File.File(T_SYMLINK, [])
  {
    hide EncodeEnt;
    assert parent != ino;
  }

  /** Blocks a directory takes when one entry is appended. */
  function EntryCost(files: map<u32, File>, parent: u32): int
    requires parent in files
  {
    Demand(|files[parent].data|, |files[parent].data| + MAXDIRENTRYLEN)
  }

  /** What the calls that add a name ask of their caller: a live directory, a legal name, and room. */
  ghost predicate CanEnter(files: map<u32, File>, parent: u32, name: seq<byte>, free: nat) {
    && parent in files && files[parent].typ == T_DIR && IsName(name)
    && SomeInodeFree(files) && EntryCost(files, parent) <= free
  }

  lemma GoodParent(files: map<u32, File>, parent: u32, name: seq<byte>, free: nat)
    requires IsTree(files) && CanEnter(files, parent, name, free)
    ensures IsInum(parent) && GoodDir(DataOf(files, parent)) && DataOf(files, parent) == files[parent].data
  {
  }

  lemma CanAddNow(files: map<u32, File>, parent: u32, name: seq<byte>, ino: u32, f: File, free: nat)
    requires IsTree(files) && CanEnter(files, parent, name, free) && name !in DirMap(files[parent].data)
    requires IsInum(ino) && ino !in files && f.data == []
    ensures CanAdd(files, parent, name, ino, f) && IsInum(parent) && parent != ino
    ensures DataOf(files[ino := f], parent) == files[parent].data
    ensures SomeInodeFree(files) && EntryCost(files, parent) <= free && |name| < MAXFILENAMELEN
  {
    hide DirMap;
  }

  /** The directory still fits in a file, so the put that stores it is accepted. */
  lemma AddFits(files: map<u32, File>, parent: u32, name: seq<byte>, ino: u32, f: File)
    requires IsTree(files) && CanAdd(files, parent, name, ino, f)
    ensures |files[parent].data| + MAXDIRENTRYLEN <= MAX_BYTES
  {
    AddKeepsTree(files, parent, name, ino, f);
    DirBound(Added(files, parent, name, ino, f), parent);
  }

  lemma EntryBuilt(data: seq<byte>, name: seq<byte>, ino: u32, buf: seq<byte>)
    requires |name| <= MAXFILENAMELEN
    requires var b := data + name + Zeros(MAXDIRENTRYLEN - |name|); buf == b[..|b| - 4] + Le32(ino)
    ensures buf == data + EncodeEnt(DirEnt(name, ino))
  {
  }

  // ---------- unlink ----------

  /**
   * `name` has gone from directory `parent`, with exactly the inodes that could
   * be reached from the inode it named; every other file is as it was.
   */
  ghost predicate Unlinked(files: map<u32, File>, files': map<u32, File>, parent: u32, name: seq<byte>) {
    && parent in files && parent in files' && name in DirMap(files[parent].data)
    && (forall x: u32 :: x in files' <==> x in files && !Reaches(files, DirMap(files[parent].data)[name], x))
    && (forall x: u32 | x in files' && x != parent :: files'[x] == files[x])
    && files'[parent].typ == files[parent].typ
    && DirMap(files'[parent].data) == DirMap(files[parent].data) - {name}
    && RecordErased(files[parent].data, files'[parent].data, name)
  }

  /** The record of `name` is cut out; the other records stay in order. */
  ghost predicate RecordErased(data: seq<byte>, data': seq<byte>, name: seq<byte>) {
    exists k: nat :: k < |Entries(data)| && Entries(data)[k].name == name && data' == Erase(data, k)
  }

  // ---------- a call undone ----------

  /** A record just appended is the only one with its name, and cutting it out restores the bytes. */
  lemma AppendedErased(data: seq<byte>, e: DirEnt, data': seq<byte>)
    requires GoodDir(data) && IsName(e.name) && e.name !in DirMap(data)
    requires RecordErased(data + EncodeEnt(e), data', e.name)
    ensures data' == data
  {
    Append(data, e);
    AppendErase(data, e);
    EntryCount(data);
    var after := data + EncodeEnt(e);
    forall k: nat | k < |Entries(data)|
      ensures Entries(after)[k].name != e.name
    {
      EntryInMap(data, k);
    }
    hide GoodDir, Entries, Erase, EncodeEnt, DirMap;
    var k: nat :| k < |Entries(after)| && Entries(after)[k].name == e.name && data' == Erase(after, k);
    assert k == |Entries(data)|;
  }

  lemma EntryInMap(data: seq<byte>, k: nat)
    requires GoodDir(data) && k < |Entries(data)|
    ensures Entries(data)[k].name in DirMap(data)
  {
    MapOfAt(Entries(data), k);
  }

  lemma EntryCount(data: seq<byte>)
    ensures |Entries(data)| == |data| / MAXDIRENTRYLEN
  {
  }

  lemma NoStep(files: map<u32, File>, p: seq<u32>)
    requires IsPath(files, p) && Kids(files, p[0]) == []
    ensures |p| == 1
  {
    if |p| > 1 {
      FirstStep(files, p);
    }
  }

  lemma FirstStep(files: map<u32, File>, p: seq<u32>)
    requires IsPath(files, p) && |p| > 1
    ensures p[1] in Kids(files, p[0])
  {
    assert p[0 + 1] in Kids(files, p[0]);
  }

  /** An inode that names nothing reaches itself only. */
  lemma ReachesSelf(files: map<u32, File>, i: u32, x: u32)
    requires i in files && Kids(files, i) == []
    ensures Reaches(files, i, x) <==> x == i
  {
    if Reaches(files, i, x) {
      var p :| IsPath(files, p) && p[0] == i && p[|p| - 1] == x;
      NoStep(files, p);
    }
    assert IsPath(files, [i]);
  }

  lemma NoNames(f: File)
    requires f.typ == T_DIR ==> f.data == []
    ensures forall files: map<u32, File>, i: u32 | i in files && files[i] == f :: Kids(files, i) == []
  {
  }

  /** Unlinking a name that was just entered for a new inode without children gives back all files, byte for byte. */
  lemma UnlinkUndoes(files: map<u32, File>, files1: map<u32, File>, files2: map<u32, File>,
                     parent: u32, name: seq<byte>, ino: u32, f: File)
    requires IsTree(files) && Entered(files, files1, parent, name, ino, f) && IsDir(files, parent)
    requires name !in DirMap(files[parent].data) && (f.typ == T_DIR ==> f.data == [])
    requires Unlinked(files1, files2, parent, name)
    ensures files2 == files
  {
    var data, e := files[parent].data, DirEnt(name, ino);
    EnteredAt(files, files1, parent, name, ino, f);
    NoNames(f);
    TreeDir(files, parent);
    hide IsTree, Entered, GoodDir, DirMap, EncodeEnt, Reaches, Kids, RecordErased, Entries;
    Append(data, e);
    AppendedErased(data, e, files2[parent].data);
    assert DirMap(files1[parent].data)[name] == ino;
    forall x: u32
      ensures Reaches(files1, ino, x) <==> x == ino
    {
      ReachesSelf(files1, ino, x);
    }
    hide Unlinked;
    UnlinkedParts(files1, files2, parent, name);
    SameFiles(files, files1, files2, parent, ino);
  }

  lemma UnlinkedParts(files1: map<u32, File>, files2: map<u32, File>, parent: u32, name: seq<byte>)
    requires Unlinked(files1, files2, parent, name)
    ensures name in DirMap(files1[parent].data) && parent in files2 && files2[parent].typ == files1[parent].typ
    ensures forall x: u32 :: x in files2 <==> x in files1 && !Reaches(files1, DirMap(files1[parent].data)[name], x)
    ensures forall x: u32 | x in files2 && x != parent :: files2[x] == files1[x]
  {
    hide DirMap, Reaches, RecordErased;
  }

  lemma SameFiles(files: map<u32, File>, files1: map<u32, File>, files2: map<u32, File>, parent: u32, ino: u32)
    requires parent in files && ino !in files && files1.Keys == files.Keys + {ino}
    requires forall x: u32 | x in files && x != parent :: files1[x] == files[x]
    requires forall x: u32 :: x in files2 <==> x in files1 && x != ino
    requires forall x: u32 | x in files2 && x != parent :: files2[x] == files1[x]
    requires files2[parent] == files[parent]
    ensures files2 == files
  {
    assert files2.Keys == files.Keys;
  }

  lemma TreeDir(files: map<u32, File>, p: u32)
    requires IsTree(files) && IsDir(files, p)
    ensures GoodDir(files[p].data)
  {
  }

  lemma EnteredAt(files: map<u32, File>, files1: map<u32, File>, parent: u32, name: seq<byte>, ino: u32, f: File)
    requires Entered(files, files1, parent, name, ino, f) && IsDir(files, parent)
    ensures ino != parent && ino !in files && files1.Keys == files.Keys + {ino} && files1[ino] == f && IsName(name)
    ensures files1[parent] == File.File(T_DIR, files[parent].data + EncodeEnt(DirEnt(name, ino)))
    ensures forall x: u32 | x in files && x != parent :: files1[x] == files[x]
  {
    hide EncodeEnt;
  }

  /** create followed by unlink leaves every file as it was; the same holds of mkdir and symlink. */
  method CreateUnlink(c: YfsClient, typ: u32, parent: u32, name: seq<byte>, link: seq<byte>, prev: u32, env: Env)
    returns (r: int)
    requires c.im.Valid() && IsTree(c.im.FileMap()) && typ in {T_FILE, T_DIR, T_SYMLINK} && |link| < 0x8000_0000
    requires CanEnter(c.im.FileMap(), parent, name, c.im.FreeBlocks())
    requires typ == T_SYMLINK && |link| <= MAX_BYTES ==>
               EntryCost(c.im.FileMap(), parent) + Demand(0, |link|) <= c.im.FreeBlocks()
    modifies c.im.bm, c.im.bm.d.blocks
    ensures c.im.Valid() && IsTree(c.im.FileMap()) && c.im.FileMap() == old(c.im.FileMap())
    ensures r == if name in DirMap(old(c.im.FileMap())[parent].data) then EXIST else OK
  {
    ghost var files := c.im.FileMap();
    hide IsTree, Inv, Files, DirMap, GoodDir, EncodeEnt, Entered, Unlinked;
    var ino: u32;
    if typ == T_FILE {
      r, ino := c.Create(parent, name, prev, env);
    } else if typ == T_DIR {
      r, ino := c.Mkdir(parent, name, prev, env);
    } else {
      r, ino := c.Symlink(link, parent, name, env);
    }
    if r == OK {
      ghost var files1 := c.im.FileMap();
      ghost var f := if typ == T_SYMLINK then Link(link) else File.File(typ, []);
      EnteredIs(files, files1, parent, name, ino, f);
      var u := c.Unlink(parent, name, env);
      UnlinkUndoes(files, files1, c.im.FileMap(), parent, name, ino, f);
    }
  }

  /** symlink and then readlink: the text comes back exactly when it fits in a file, although symlink answers OK. */
  method SymlinkReadlink(c: YfsClient, link: seq<byte>, parent: u32, name: seq<byte>, env: Env)
    returns (r: int, content: seq<byte>)
    requires c.im.Valid() && IsTree(c.im.FileMap()) && |link| < 0x8000_0000
    requires CanEnter(c.im.FileMap(), parent, name, c.im.FreeBlocks())
    requires |link| <= MAX_BYTES ==>
               EntryCost(c.im.FileMap(), parent) + Demand(0, |link|) <= c.im.FreeBlocks()
    modifies c.im.bm, c.im.bm.d.blocks
    ensures r == if name in DirMap(old(c.im.FileMap())[parent].data) then EXIST else OK
    ensures r == OK ==> (content == link <==> |link| <= MAX_BYTES)
  {
    ghost var files := c.im.FileMap();
    hide IsTree, Inv, Files, DirMap, GoodDir, EncodeEnt, Entered;
    var ino: u32;
    content := [];
    r, ino := c.Symlink(link, parent, name, env);
    if r == OK {
      EnteredAt(files, c.im.FileMap(), parent, name, ino, Link(link));
      EnteredIno(files, c.im.FileMap(), parent, name, ino, Link(link));
      content := c.ExtGet(ino, env);
    }
  }

  lemma EnteredIno(files: map<u32, File>, files1: map<u32, File>, parent: u32, name: seq<byte>, ino: u32, f: File)
    requires Entered(files, files1, parent, name, ino, f)
    ensures IsInum(ino)
  {
  }

  lemma EnteredIs(files: map<u32, File>, files1: map<u32, File>, parent: u32, name: seq<byte>, ino: u32, f: File)
    requires IsTree(files) && Entered(files, files1, parent, name, ino, f) && IsDir(files, parent)
    ensures IsDir(files1, parent) && name in DirMap(files1[parent].data) && IsName(name)
  {
    EnteredAt(files, files1, parent, name, ino, f);
    TreeDir(files, parent);
    Append(files[parent].data, DirEnt(name, ino));
  }

  predicate IsDir(files: map<u32, File>, i: u32) {
    i in files && files[i].typ == T_DIR
  }

  ghost predicate AfterUnlink(files: map<u32, File>, files': map<u32, File>, parent: u32, name: seq<byte>)
    requires parent in files
  {
    if name in DirMap(files[parent].data) then Unlinked(files, files', parent, name) else files' == files
  }

  lemma UnlinkParent(files: map<u32, File>, parent: u32)
    requires IsTree(files) && parent in files && files[parent].typ == T_DIR
    ensures IsInum(parent) && GoodDir(DataOf(files, parent)) && DataOf(files, parent) == files[parent].data
    ensures |files[parent].data| <= MAX_BYTES
  {
    DirBound(files, parent);
  }

  lemma EntryIno(data: seq<byte>, k: nat, at: nat)
    requires GoodDir(data) && k < |Entries(data)| && at == k * MAXDIRENTRYLEN
    ensures at + MAXDIRENTRYLEN <= |data|
    ensures FromLe32(data[at + MAXFILENAMELEN..at + MAXDIRENTRYLEN]) == Entries(data)[k].inum
    ensures data[..at] + data[at + MAXDIRENTRYLEN..] == Erase(data, k)
  {
    EntryFields(data, k);
  }

  lemma PrefixOfSuffix(s: seq<byte>, at: nat, n: nat)
    requires at + n < |s|
    ensures s[at..][..n] == s[at..at + n] && s[at..][n] == s[at + n]
  {
  }

  lemma EntryPrefix(data: seq<byte>, k: nat, name: seq<byte>)
    requires GoodDir(data) && k < |Entries(data)| && IsName(name)
    ensures (k + 1) * MAXDIRENTRYLEN <= |data| && |name| < MAXFILENAMELEN
    ensures Entries(data)[k].name == name <==>
              data[k * MAXDIRENTRYLEN..k * MAXDIRENTRYLEN + |name|] == name && data[k * MAXDIRENTRYLEN + |name|] == 0
  {
    hide GoodDir, Entries, CStr, DirMap, Pad;
    EntryFields(data, k);
    EntryMatch(data, k, name);
    var t := data[k * MAXDIRENTRYLEN..];
    PrefixOfSuffix(data, k * MAXDIRENTRYLEN, |name|);
    if t[..|name|] == name && t[|name|] == 0 {
      CStrIs(t, name);
    }
  }

  lemma CutIsUnlink(files: map<u32, File>, rank: map<u32, nat>, parent: u32, name: seq<byte>, k: nat)
    requires IsTree(files) && Ranked(files, rank) && parent in files && files[parent].typ == T_DIR
    requires k < |Entries(files[parent].data)| && Entries(files[parent].data)[k].name == name
    ensures CanCut(files, rank, parent, k)
    ensures parent !in Below(files, rank, parent, k)
    ensures IsTree(Cut(files, rank, parent, k))
    ensures Unlinked(files, Cut(files, rank, parent, k), parent, name)
    ensures IsInum(Entries(files[parent].data)[k].inum)
  {
    assert GoodDir(files[parent].data);
    CutKeepsTree(files, rank, parent, k);
    NamedInum(files, rank, parent, k);
    CutEffect(files, rank, parent, name, k);
    hide IsTree, GoodDir, Entries, Unlinked, Below, Cut;
  }

  lemma NamedInum(files: map<u32, File>, rank: map<u32, nat>, parent: u32, k: nat)
    requires IsTree(files) && CanCut(files, rank, parent, k)
    ensures IsInum(Entries(files[parent].data)[k].inum)
  {
    TopBelow(files, rank, parent, k);
    hide Graph.IsTree, GoodDirs;
  }

  lemma CanCutParts(files: map<u32, File>, rank: map<u32, nat>, parent: u32, k: nat)
    requires CanCut(files, rank, parent, k)
    ensures parent in files && GoodDir(files[parent].data) && k < |Entries(files[parent].data)|
  {
  }

  lemma CutEffect(files: map<u32, File>, rank: map<u32, nat>, parent: u32, name: seq<byte>, k: nat)
    requires CanCut(files, rank, parent, k) && parent !in Below(files, rank, parent, k)
    requires Entries(files[parent].data)[k].name == name
    ensures Unlinked(files, Cut(files, rank, parent, k), parent, name)
  {
    hide GoodDir, Entries, Erase, Subtree, Reaches, Ranked, Below, Cut, CanCut, DirMap, RecordErased;
    CanCutParts(files, rank, parent, k);
    UnlinkedName(files[parent].data, k);
    CutKeys(files, rank, parent, k);
    CutValues(files, rank, parent, k);
    RecordCut(files[parent].data, k, name);
  }

  lemma RecordCut(data: seq<byte>, k: nat, name: seq<byte>)
    requires GoodDir(data) && k < |Entries(data)| && Entries(data)[k].name == name
    ensures RecordErased(data, Erase(data, k), name)
  {
  }

  lemma UnlinkedName(data: seq<byte>, k: nat)
    requires GoodDir(data) && k < |Entries(data)|
    ensures var e := Entries(data)[k];
      && e.name in DirMap(data) && DirMap(data)[e.name] == e.inum
      && DirMap(Erase(data, k)) == DirMap(data) - {e.name}
  {
    MapOfAt(Entries(data), k);
    Erased(data, k);
    hide GoodEnts, Entries, Erase, MapOf;
  }

  lemma CutValues(files: map<u32, File>, rank: map<u32, nat>, parent: u32, k: nat)
    requires CanCut(files, rank, parent, k)
    ensures var files' := Cut(files, rank, parent, k);
      && parent in files' && files'[parent] == File.File(files[parent].typ, Erase(files[parent].data, k))
      && forall x: u32 | x in files' && x != parent :: x in files && files'[x] == files[x]
  {
    hide GoodDir, Entries, Erase, Subtree, Ranked;
  }

  lemma CutKeys(files: map<u32, File>, rank: map<u32, nat>, parent: u32, k: nat)
    requires CanCut(files, rank, parent, k) && parent !in Below(files, rank, parent, k)
    ensures forall x: u32 :: x in Cut(files, rank, parent, k)
              <==> x in files && !Reaches(files, Entries(files[parent].data)[k].inum, x)
  {
    var c, files' := Entries(files[parent].data)[k].inum, Cut(files, rank, parent, k);
    hide GoodDir, Entries, Erase, Subtree, Reaches;
    forall x: u32
      ensures x in files' <==> x in files && !Reaches(files, c, x)
    {
      SubtreeIsReachable(files, rank, c, x);
    }
  }

  /** The put after the removal stores the shorter directory, and never needs a block. */
  lemma ErasePut(files: map<u32, File>, rank: map<u32, nat>, parent: u32, k: nat, c: u32)
    requires CanCut(files, rank, parent, k) && |files[parent].data| <= MAX_BYTES
    requires parent !in Below(files, rank, parent, k) && c == Entries(files[parent].data)[k].inum
    ensures var data := Erase(files[parent].data, k);
      && Put(files - Subtree(files, rank, c), parent, data) == Cut(files, rank, parent, k)
      && |data| < 0x8000_0000
      && forall free: nat :: Affordable(files - Subtree(files, rank, c), parent, data, free)
  {
    hide Entries, Subtree, GoodDir, Ranked;
  }

  /** Removing inode `c` and then storing `rest` in the directory is an unlink, and keeps the tree. */
  lemma RemovePlan(files: map<u32, File>, rank: map<u32, nat>, parent: u32, name: seq<byte>, k: nat, c: u32,
                   rest: seq<byte>)
    requires IsTree(files) && Ranked(files, rank) && IsDir(files, parent)
    requires k < |Entries(files[parent].data)| && Entries(files[parent].data)[k] == DirEnt(name, c)
    requires rest == Erase(files[parent].data, k)
    ensures var files' := Put(files - Subtree(files, rank, c), parent, rest);
      IsTree(files') && Unlinked(files, files', parent, name)
    ensures c < 0x8000_0000 && parent < 0x8000_0000 && |rest| < 0x8000_0000
    ensures forall free: nat :: Affordable(files - Subtree(files, rank, c), parent, rest, free)
  {
    UnlinkParent(files, parent);
    hide IsTree, Entries, Erase, Put, Unlinked, Affordable, GoodDir;
    CutIsUnlink(files, rank, parent, name, k);
    ErasePut(files, rank, parent, k, c);
  }

  // ---------- files ----------

  /** The bytes asked for by setattr. */
  function Resized(data: seq<byte>, size: nat): (s: seq<byte>)
    ensures |s| == size
  {
    if |data| < size then data + Zeros(size - |data|) else data[..size]
  }

  /** The file exists, is not a directory, and the blocks for its new length are free. */
  ghost predicate CanWrite(files: map<u32, File>, ino: u32, off: nat, data: seq<byte>, free: nat) {
    && ino in files && files[ino].typ != T_DIR
    && Demand(|files[ino].data|, LengthAfter(files[ino].data, off, data)) <= free
  }

  /** File `ino` obeys the law of write, nothing else changed, and the count is the one write reports. */
  ghost predicate Wrote(files: map<u32, File>, files': map<u32, File>, ino: u32, off: nat, data: seq<byte>,
                        bytes: int) {
    && ino in files && ino in files'
    && IsWrite(files[ino].data, off, data, files'[ino].data)
    && files' == files[ino := File.File(files[ino].typ, files'[ino].data)]
    && bytes == Reported(files[ino].data, off, data)
  }

  lemma WriteStored(files: map<u32, File>, ino: u32, off: nat, data: seq<byte>, free: nat, buf: seq<byte>, bytes: int)
    requires IsTree(files) && CanWrite(files, ino, off, data, free) && |files[ino].data| <= MAX_BYTES
    requires IsWrite(files[ino].data, off, data, buf) && bytes == Reported(files[ino].data, off, data)
    ensures IsInum(ino) && |buf| <= MAX_BYTES && Affordable(files, ino, buf, free)
    ensures IsTree(Put(files, ino, buf)) && Wrote(files, Put(files, ino, buf), ino, off, data, bytes)
  {
    assert IsInum(ino);
    WriteLength(files[ino].data, off, data, buf);
    RewriteKeepsTree(files, ino, buf);
    hide IsTree, IsWrite, Reported, Demand;
  }

  ghost predicate CanResize(files: map<u32, File>, ino: u32, size: nat, free: nat) {
    ino in files ==>
      files[ino].typ != T_DIR && (size <= MAX_BYTES ==> Demand(|files[ino].data|, size) <= free)
  }

  function AfterSetAttr(files: map<u32, File>, ino: u32, size: nat): map<u32, File> {
    Put(files, ino, Resized(DataOf(files, ino), size))
  }

  /**
   * The first `size` bytes of a file that fits: those it had and then zeros. A
   * size that does not fit, and an inode that is not live, change nothing.
   */
  ghost predicate Truncated(files: map<u32, File>, files': map<u32, File>, ino: u32, size: nat) {
    && files'.Keys == files.Keys && (forall x | x in files && x != ino :: files'[x] == files[x])
    && (ino in files ==>
          if size > 81920 then files'[ino] == files[ino]
          else
            && files'[ino].typ == files[ino].typ && |files'[ino].data| == size
            && forall k: nat | k < size ::
                 files'[ino].data[k] == if k < |files[ino].data| then files[ino].data[k] else 0)
  }

  lemma AfterIsTruncated(files: map<u32, File>, i: u32, size: nat)
    ensures Truncated(files, AfterSetAttr(files, i, size), i, size)
  {
  }

  lemma AfterIsPut(files: map<u32, File>, i: u32, size: nat)
    ensures AfterSetAttr(files, i, size) == Put(files, i, Resized(DataOf(files, i), size))
  {
    hide Put, Resized;
  }

  lemma ResizedTree(files: map<u32, File>, i: u32, size: nat, free: nat)
    requires IsTree(files) && CanResize(files, i, size, free)
    ensures IsTree(AfterSetAttr(files, i, size))
    ensures !IsInum(i) ==> AfterSetAttr(files, i, size) == files
    ensures Affordable(files, i, Resized(DataOf(files, i), size), free)
  {
    assert i in files ==> IsInum(i);
    hide IsTree, Resized, Demand;
    if i in files {
      RewriteKeepsTree(files, i, Resized(DataOf(files, i), size));
    }
  }

  lemma BoundedFile(im: InodeManager, i: u32)
    requires im.Valid() && i in im.FileMap()
    ensures |im.FileMap()[i].data| <= MAX_BYTES
  {
    FilesAt(im.bm.Contents(), i);
    WholeFile(im.bm.Contents(), im.bm.Used(), i);
  }

  lemma WriteLength(before: seq<byte>, off: nat, data: seq<byte>, after: seq<byte>)
    requires |before| <= MAX_BYTES && IsWrite(before, off, data, after)
    ensures |after| == LengthAfter(before, off, data) <= MAX_BYTES
  {
  }

  /** setattr answers OK for every inode number, but sets the size exactly when it is at most what a file can hold. */
  lemma SetAttrHonest(files: map<u32, File>, i: u32, size: nat)
    requires i in files && |files[i].data| <= MAX_BYTES
    ensures |DataOf(AfterSetAttr(files, i, size), i)| == size <==> size <= MAX_BYTES
  {
  }

  /** One byte more than a file can hold, asked for on an empty file, leaves it empty. */
  lemma SetAttrTooLong()
    ensures var files := map[2 := File.File(T_FILE, [])];
      AfterSetAttr(files, 2, MAX_BYTES + 1) == files && |DataOf(files, 2)| == 0
  {
  }
}
