/** The effect of each inode-layer update on the invariant and on the map of files. */
module InodeCommit {

  import opened Bytes
  import opened Disk
  import opened Ledger
  import opened InodeImage
  import opened Transfer

  lemma PutOnly(d: Image, used: set<u32>, i: u32, ino: Inode)
    requires IsInum(i) && used <= DataArea()
    ensures OnlyInode(d, used, PutInodeAt(d, i, ino), i)
  {
    forall j: u32 | IsInum(j) && j != i
      ensures InodeAt(PutInodeAt(d, i, ino), j) == InodeAt(d, j)
    {
      PutInodeFrame(d, i, ino, j);
    }
  }

  /** What an inode owns is read from data blocks only, so writing inodes never changes it. */
  lemma PutKeepsBlocks(d: Image, i: u32, ino: Inode, x: Inode)
    requires IsInum(i) && x.size <= MAX_BYTES && Elems(Owned(d, x)) <= DataArea()
    ensures Owned(PutInodeAt(d, i, ino), x) == Owned(d, x) && Ids(PutInodeAt(d, i, ino), x) == Ids(d, x)
    ensures Content(PutInodeAt(d, i, ino), Ids(d, x), x.size) == Content(d, Ids(d, x), x.size)
  {
    forall b | b in Owned(d, x)
      ensures b < BLOCK_NUM && PutInodeAt(d, i, ino)[b] == d[b]
    {
      assert b in Elems(Owned(d, x));
    }
    SameBlocks(d, PutInodeAt(d, i, ino), x);
  }

  lemma OwnedInData(d: Image, used: set<u32>, i: u32)
    requires Inv(d, used) && IsInum(i)
    ensures OwnedSet(d, i) <= used <= DataArea()
  {
    assert i in Owners(d);
  }

  /** Only times differ between the inode on disk and `ino`. */
  predicate SameButTimes(d: Image, i: u32, ino: Inode)
    requires IsInum(i)
  {
    ino.(atime := 0, ctime := 0) == InodeAt(d, i).(atime := 0, ctime := 0)
  }

  lemma TouchedSame(d: Image, i: u32, ino: Inode)
    requires IsInum(i) && Live(d, i) && GoodInode(d, InodeAt(d, i)) && SameButTimes(d, i, ino)
    requires OwnedSet(d, i) <= DataArea()
    ensures var d' := PutInodeAt(d, i, ino);
      Live(d', i) && GoodInode(d', InodeAt(d', i)) && OwnedSet(d', i) == OwnedSet(d, i) && FileAt(d', i) == FileAt(d, i)
  {
    PutInodeFrame(d, i, ino, i);
    PutKeepsBlocks(d, i, ino, InodeAt(d, i));
  }

  /** Reading a file rewrites its inode with a new access time: no file changes. */
  lemma Touch(d: Image, used: set<u32>, i: u32, ino: Inode)
    requires Inv(d, used) && IsInum(i) && Live(d, i) && SameButTimes(d, i, ino)
    ensures var d' := PutInodeAt(d, i, ino); Inv(d', used) && Files(d') == Files(d)
  {
    var d' := PutInodeAt(d, i, ino);
    OwnedInData(d, used, i);
    TouchedSame(d, i, ino);
    PutOnly(d, used, i, ino);
    TouchCommit(d, used, i, d');
  }

  lemma TouchCommit(d: Image, used: set<u32>, i: u32, d': Image)
    requires Inv(d, used) && IsInum(i) && Live(d, i) && OnlyInode(d, used, d', i)
    requires OwnedSet(d, i) <= used <= DataArea()
    requires Live(d', i) && GoodInode(d', InodeAt(d', i))
    requires OwnedSet(d', i) == OwnedSet(d, i) && FileAt(d', i) == FileAt(d, i)
    ensures Inv(d', used) && Files(d') == Files(d)
  {
    hide Inv, OnlyInode, FileAt, Files, GoodInode, Live, OwnedSet, DataArea;
    Commit(d, used, d', i);
    assert used - OwnedSet(d, i) + OwnedSet(d', i) == used;
    FilesAt(d, i);
  }

  /** A free inode becomes an empty file. */
  lemma Create(d: Image, used: set<u32>, i: u32, ino: Inode)
    requires Inv(d, used) && IsInum(i) && !Live(d, i)
    requires ino.typ != 0 && ino.size == 0
    ensures var d' := PutInodeAt(d, i, ino);
      Inv(d', used) && Files(d') == Files(d)[i := File.File(ino.typ, [])]
  {
    var d' := PutInodeAt(d, i, ino);
    OwnedInData(d, used, i);
    PutInodeFrame(d, i, ino, i);
    assert Owned(d', ino) == [];
    PutOnly(d, used, i, ino);
    Commit(d, used, d', i);
    assert used - OwnedSet(d, i) + OwnedSet(d', i) == used;
    assert FileAt(d', i).data == [];
  }

  /** A live inode whose blocks have been released is marked free. */
  lemma Remove(d: Image, used: set<u32>, i: u32, ino: Inode)
    requires Inv(d, used) && IsInum(i) && ino.typ == 0
    ensures var d' := PutInodeAt(d, i, ino);
      Inv(d', used - OwnedSet(d, i)) && Files(d') == Files(d) - {i}
  {
    var d' := PutInodeAt(d, i, ino);
    OwnedInData(d, used, i);
    PutInodeFrame(d, i, ino, i);
    PutOnly(d, used, i, ino);
    Commit(d, used, d', i);
    assert used - OwnedSet(d, i) + OwnedSet(d', i) == used - OwnedSet(d, i);
  }

  /** Block `k` of the data to write. */
  function Chunk(mem: seq<byte>, k: nat): Block
    requires (k + 1) * BLOCK_SIZE <= |mem|
  {
    mem[k * BLOCK_SIZE..(k + 1) * BLOCK_SIZE]
  }

  /** Disk `d'` is `d` with `mem` written to the blocks `ids`, in order. */
  ghost predicate Written(d: Image, d': Image, ids: seq<u32>, mem: seq<byte>) {
    && |ids| * BLOCK_SIZE <= |mem|
    && (forall k: nat | k < |ids| :: ids[k] < BLOCK_NUM && d'[ids[k]] == Chunk(mem, k))
    && (forall b: u32 | b < BLOCK_NUM && b !in ids :: d'[b] == d[b])
  }

  lemma WrittenContent(d: Image, d': Image, ids: seq<u32>, mem: seq<byte>, size: nat)
    requires Written(d, d', ids, mem) && size <= |ids| * BLOCK_SIZE
    ensures Content(d', ids, size) == mem[..size]
  {
    forall k: nat | k < size
      ensures Content(d', ids, size)[k] == mem[k]
    {
      var p := k / BLOCK_SIZE;
      assert d'[ids[p]] == Chunk(mem, p);
    }
  }

  lemma WrittenConcat(d: Image, d1: Image, d2: Image, a: seq<u32>, b: seq<u32>, mem: seq<byte>)
    requires Written(d, d1, a, mem) && |a| * BLOCK_SIZE <= |mem|
    requires Written(d1, d2, b, mem[|a| * BLOCK_SIZE..])
    requires NoDup(a + b)
    ensures Written(d, d2, a + b, mem)
  {
    var c := a + b;
    NoDupSplit(a, b);
    forall k: nat | k < |c|
      ensures c[k] < BLOCK_NUM && (k + 1) * BLOCK_SIZE <= |mem| && d2[c[k]] == Chunk(mem, k)
    {
      if k < |a| {
        assert a[k] in Elems(a) && a[k] !in Elems(b);
      } else {
        assert d2[b[k - |a|]] == Chunk(mem[|a| * BLOCK_SIZE..], k - |a|);
        assert Chunk(mem[|a| * BLOCK_SIZE..], k - |a|) == Chunk(mem, k);
      }
    }
  }

  // ---------- the six ways the block list of a file changes ----------

  /** `b` extends `a` when it starts with the same blocks; `more` are the ones added. */
  lemma GrewDirect(blocks: seq<u32>, ind: seq<u32>, n: nat, blocks': seq<u32>, n': nat)
    requires |blocks| == |blocks'| == NDIRECT + 1 && |ind| == NINDIRECT
    requires n <= n' <= NDIRECT && blocks'[..n] == blocks[..n]
    ensures OwnedOf(blocks', ind, n') == OwnedOf(blocks, ind, n) + blocks'[n..n']
  {
  }

  lemma GrewAcross(blocks: seq<u32>, ind: seq<u32>, n: nat, blocks': seq<u32>, ind': seq<u32>, n': nat)
    requires |blocks| == |blocks'| == NDIRECT + 1 && |ind| == |ind'| == NINDIRECT
    requires n <= NDIRECT < n' <= MAXFILE && blocks'[..n] == blocks[..n]
    ensures OwnedOf(blocks', ind', n')
         == OwnedOf(blocks, ind, n) + blocks'[n..NDIRECT + 1] + ind'[0..n' - NDIRECT]
  {
  }

  lemma GrewIndirect(blocks: seq<u32>, ind: seq<u32>, n: nat, ind': seq<u32>, n': nat)
    requires |blocks| == NDIRECT + 1 && |ind| == |ind'| == NINDIRECT
    requires NDIRECT < n <= n' <= MAXFILE && ind'[..n - NDIRECT] == ind[..n - NDIRECT]
    ensures OwnedOf(blocks, ind', n') == OwnedOf(blocks, ind, n) + ind'[n - NDIRECT..n' - NDIRECT]
  {
  }

  lemma ShrankDirect(blocks: seq<u32>, ind: seq<u32>, n: nat, n': nat)
    requires |blocks| == NDIRECT + 1 && |ind| == NINDIRECT && n' <= n <= NDIRECT
    ensures OwnedOf(blocks, ind, n) == OwnedOf(blocks, ind, n') + blocks[n'..n]
  {
  }

  lemma ShrankAcross(blocks: seq<u32>, ind: seq<u32>, n: nat, n': nat)
    requires |blocks| == NDIRECT + 1 && |ind| == NINDIRECT && n' <= NDIRECT < n <= MAXFILE
    ensures OwnedOf(blocks, ind, n) == OwnedOf(blocks, ind, n') + blocks[n'..NDIRECT + 1] + ind[0..n - NDIRECT]
  {
  }

  lemma ShrankIndirect(blocks: seq<u32>, ind: seq<u32>, n: nat, n': nat)
    requires |blocks| == NDIRECT + 1 && |ind| == NINDIRECT && NDIRECT < n' <= n <= MAXFILE
    ensures OwnedOf(blocks, ind, n) == OwnedOf(blocks, ind, n') + ind[n' - NDIRECT..n - NDIRECT]
  {
  }

  /** The disk once the ids of a file with `n` blocks are recorded in its indirect block, if it has one. */
  function Recorded(d: Image, blocks: seq<u32>, ind: seq<u32>, n: nat): Image
    requires |blocks| == NDIRECT + 1 && |ind| == NINDIRECT
  {
    if n <= NDIRECT || blocks[NDIRECT] >= BLOCK_NUM then d else d[blocks[NDIRECT] := PutWords(ind)]
  }

  /** Writing one block leaves the ids in the other blocks as they were. */
  lemma IndirectWritten(d: Image, id: u32, ind: seq<u32>)
    requires id < BLOCK_NUM && |ind| == NINDIRECT
    ensures IndirectAt(d[id := PutWords(ind)], id) == ind
  {
    GetPutWords(ind);
  }

  // ---------- a whole-file write ----------

  /** Disk `d2` holds `mem` in the blocks of a file whose ids are `blocks` and `ind`; `d` is the disk before. */
  ghost predicate Stored(d: Image, d2: Image, blocks: seq<u32>, ind: seq<u32>, n: nat, mem: seq<byte>)
    requires |blocks| == NDIRECT + 1 && |ind| == NINDIRECT
  {
    && (n > NDIRECT && blocks[NDIRECT] < BLOCK_NUM ==> IndirectAt(d, blocks[NDIRECT]) == ind)
    && Written(d, d2, IdsOf(blocks, ind, n), mem)
  }

  /** The data blocks and the indirect block do not collide, so the ids on disk survive the data writes. */
  lemma StoredIds(d: Image, d2: Image, ino: Inode, ind: seq<u32>, n: nat, mem: seq<byte>)
    requires |ind| == NINDIRECT && n == BlocksFor(ino.size) <= MAXFILE
    requires Stored(d, d2, ino.blocks, ind, n, mem)
    requires NoDup(OwnedOf(ino.blocks, ind, n)) && Elems(OwnedOf(ino.blocks, ind, n)) <= DataArea()
    ensures Owned(d2, ino) == OwnedOf(ino.blocks, ind, n) && Ids(d2, ino) == IdsOf(ino.blocks, ind, n)
    ensures Content(d2, Ids(d2, ino), ino.size) == mem[..ino.size]
  {
    var own, ids := OwnedOf(ino.blocks, ind, n), IdsOf(ino.blocks, ind, n);
    IdsAreOwned(ino.blocks, ind, n);
    if n > NDIRECT {
      var b := ino.blocks[NDIRECT];
      assert own[NDIRECT] in Elems(own) && own[NDIRECT] in DataArea();
      forall k: nat | k < n
        ensures ids[k] != b
      {
      }
      assert d2[b] == d[b];
    }
    WrittenContent(d, d2, ids, mem, ino.size);
  }

  lemma Unwritten(d: Image, d1: Image, d2: Image, blocks: seq<u32>, ind: seq<u32>, n: nat, mem: seq<byte>, b: u32)
    requires |blocks| == NDIRECT + 1 && |ind| == NINDIRECT && n <= MAXFILE && b < BLOCK_NUM
    requires d1 == d || d1 == Recorded(d, blocks, ind, n)
    requires Written(d1, d2, IdsOf(blocks, ind, n), mem)
    requires b !in Elems(OwnedOf(blocks, ind, n))
    ensures d2[b] == d[b]
  {
    var own, ids := OwnedOf(blocks, ind, n), IdsOf(blocks, ind, n);
    IdsAreOwned(blocks, ind, n);
    if n > NDIRECT {
      assert own[NDIRECT] in Elems(own);
    }
    forall k: nat | k < n
      ensures ids[k] != b
    {
      assert own[if k < NDIRECT then k else k + 1] in Elems(own);
    }
  }

  /** The whole of `write_file`: the file holds the new bytes, nothing else changed, ownership balances. */
  lemma Overwrite(d: Image, used: set<u32>, i: u32, d1: Image, d2: Image, used': set<u32>,
                  ino: Inode, ind: seq<u32>, n: nat, mem: seq<byte>)
    requires Inv(d, used) && IsInum(i) && Live(d, i) && ino.typ == InodeAt(d, i).typ
    requires |ind| == NINDIRECT && n == BlocksFor(ino.size) <= MAXFILE
    requires Moved(used, Owned(d, InodeAt(d, i)), used', OwnedOf(ino.blocks, ind, n))
    requires d1 == d || d1 == Recorded(d, ino.blocks, ind, n)
    requires Stored(d1, d2, ino.blocks, ind, n, mem)
    ensures Inv(PutInodeAt(d2, i, ino), used')
    ensures Files(PutInodeAt(d2, i, ino)) == Files(d)[i := File.File(ino.typ, mem[..ino.size])]
  {
    var d3, own := PutInodeAt(d2, i, ino), OwnedOf(ino.blocks, ind, n);
    StoredIds(d1, d2, ino, ind, n, mem);
    PutInodeFrame(d2, i, ino, i);
    PutKeepsBlocks(d2, i, ino, ino);
    OverwriteFrame(d, used, i, d1, d2, used', ino, ind, n, mem);
    Commit(d, used, d3, i);
  }

  lemma OverwriteFrame(d: Image, used: set<u32>, i: u32, d1: Image, d2: Image, used': set<u32>,
                       ino: Inode, ind: seq<u32>, n: nat, mem: seq<byte>)
    requires Inv(d, used) && IsInum(i) && Live(d, i)
    requires |ind| == NINDIRECT && n == BlocksFor(ino.size) <= MAXFILE
    requires Moved(used, Owned(d, InodeAt(d, i)), used', OwnedOf(ino.blocks, ind, n))
    requires d1 == d || d1 == Recorded(d, ino.blocks, ind, n)
    requires Stored(d1, d2, ino.blocks, ind, n, mem)
    ensures OnlyInode(d, used, PutInodeAt(d2, i, ino), i)
  {
    OwnedInData(d, used, i);
    var own := Elems(OwnedOf(ino.blocks, ind, n));
    forall b: u32 | b < BLOCK_NUM && b !in own
      ensures d2[b] == d[b]
    {
      Unwritten(d, d1, d2, ino.blocks, ind, n, mem, b);
    }
    PutAfter(d, used, i, d2, own, ino);
  }

  lemma PutAfter(d: Image, used: set<u32>, i: u32, d2: Image, own: set<u32>, ino: Inode)
    requires IsInum(i) && used <= DataArea() && own <= DataArea()
    requires own !! (used - OwnedSet(d, i))
    requires forall b: u32 | b < BLOCK_NUM && b !in own :: d2[b] == d[b]
    ensures OnlyInode(d, used, PutInodeAt(d2, i, ino), i)
  {
    hide OwnedSet, InodeAt, PutInodeAt, IsData;
    forall j: u32 | IsInum(j) && j != i
      ensures InodeAt(PutInodeAt(d2, i, ino), j) == InodeAt(d, j)
    {
      PutInodeFrame(d2, i, ino, j);
      TableKept(d, d2, own, j);
    }
    forall b: u32 | b in used - OwnedSet(d, i) && b < BLOCK_NUM
      ensures PutInodeAt(d2, i, ino)[b] == d[b]
    {
      DataKept(d2, i, ino, b);
    }
  }

  lemma TableKept(d: Image, d2: Image, own: set<u32>, j: u32)
    requires IsInum(j) && own <= DataArea() && forall b: u32 | b < BLOCK_NUM && b !in own :: d2[b] == d[b]
    ensures InodeAt(d2, j) == InodeAt(d, j)
  {
    var b := IBlock(j);
    assert !IsData(b) && b !in own;
  }

  lemma DataKept(d: Image, i: u32, ino: Inode, b: u32)
    requires IsInum(i) && b in DataArea()
    ensures PutInodeAt(d, i, ino)[b] == d[b]
  {
    assert IsData(b);
  }

  // ---------- removal ----------

  /** No data block was written; inodes that are live still had the same type, size and blocks before. */
  ghost predicate Kept(d: Image, d': Image) {
    && (forall b: u32 | IsData(b) :: d'[b] == d[b])
    && (forall j: u32 | IsInum(j) && Live(d', j) :: SameButTimes(d, j, InodeAt(d', j)))
  }

  lemma KeptPut(d: Image, i: u32, ino: Inode)
    requires IsInum(i) && (ino.typ == 0 || SameButTimes(d, i, ino))
    ensures Kept(d, PutInodeAt(d, i, ino))
  {
    forall j: u32 | IsInum(j) && Live(PutInodeAt(d, i, ino), j)
      ensures SameButTimes(d, j, InodeAt(PutInodeAt(d, i, ino), j))
    {
      PutInodeFrame(d, i, ino, j);
    }
  }

  lemma KeptThen(d: Image, d1: Image, d2: Image)
    requires Kept(d, d1) && Kept(d1, d2)
    ensures Kept(d, d2)
  {
    forall j: u32 | IsInum(j) && Live(d2, j)
      ensures SameButTimes(d, j, InodeAt(d2, j))
    {
      assert SameButTimes(d1, j, InodeAt(d2, j));
    }
  }

  lemma KeptOwned(d: Image, used: set<u32>, d': Image, j: u32)
    requires Inv(d, used) && Kept(d, d') && IsInum(j) && Live(d', j)
    ensures Live(d, j) && Owned(d', InodeAt(d, j)) == Owned(d, InodeAt(d, j))
    ensures OwnedSet(d', j) == OwnedSet(d, j) == Elems(Owned(d, InodeAt(d, j)))
  {
    OwnedInData(d, used, j);
    forall b | b in Owned(d, InodeAt(d, j))
      ensures b < BLOCK_NUM && d'[b] == d[b]
    {
      assert b in OwnedSet(d, j) && b in DataArea();
    }
    SameBlocks(d, d', InodeAt(d, j));
  }

  lemma OneOwner(d: Image, used: set<u32>, i: u32, j: u32, b: u32)
    requires Inv(d, used) && IsInum(i) && IsInum(j) && b in OwnedSet(d, i) && b in OwnedSet(d, j)
    ensures i == j
  {
    hide GoodInode, InodeAt, Owned, OwnedSet, Live;
    var own := Owners(d);
    assert Balanced(own, used, DataArea());
    assert own[i] == OwnedSet(d, i) && own[j] == OwnedSet(d, j);
    hide *;
    SoleOwner(own, used, DataArea(), i, j, b);
  }

  lemma OwnerOf(d: Image, used: set<u32>, b: u32) returns (j: u32)
    requires Inv(d, used) && b in used
    ensures IsInum(j) && Live(d, j) && b in OwnedSet(d, j)
  {
    j :| j in Owners(d) && b in Owners(d)[j];
  }

  /** Removal frees the blocks of the removed inodes, all of them and no others. */
  lemma RemovedBlocks(d: Image, used: set<u32>, d': Image, used': set<u32>, b: u32)
    requires Inv(d, used) && Inv(d', used') && Kept(d, d')
    ensures b in used' <==> b in used && forall i: u32 | IsInum(i) && b in OwnedSet(d, i) :: Live(d', i)
  {
    if b in used' {
      RemovedOnly(d, used, d', used', b);
    } else if b in used {
      hide Inv, Kept, OwnedSet, Live;
      var j := OwnerOf(d, used, b);
      if Live(d', j) {
        KeptOwned(d, used, d', j);
        OwnedInData(d', used', j);
      }
    }
  }

  lemma RemovedOnly(d: Image, used: set<u32>, d': Image, used': set<u32>, b: u32)
    requires Inv(d, used) && Inv(d', used') && Kept(d, d') && b in used'
    ensures b in used && forall i: u32 | IsInum(i) && b in OwnedSet(d, i) :: Live(d', i)
  {
    hide Inv, Kept, OwnedSet, Live;
    var j := OwnerOf(d', used', b);
    KeptOwned(d, used, d', j);
    OwnedInData(d, used, j);
    forall i: u32 | IsInum(i) && b in OwnedSet(d, i)
      ensures Live(d', i)
    {
      OneOwner(d, used, i, j, b);
    }
  }
}
