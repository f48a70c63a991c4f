/** The inode layer (CSE/cselab1backup/inode_manager.cc): files over the block allocator. */
module InodeManagers {

  import opened Bytes
  import opened Disk
  import opened InodeImage
  import opened Transfer
  import opened InodeCommit
  import opened Namespace
  import opened Wrappers

  /** Ids in the indirect block as a C array of words: what the array held before stays when the id is invalid. */
  type Words = w: seq<u32> | |w| == NINDIRECT witness seq(NINDIRECT, i => 0)

  class InodeManager {
    const bm: BlockManager

    ghost predicate Valid()
      reads bm, bm.d.blocks
    {
      bm.Valid() && Inv(bm.Contents(), bm.Used())
    }

    ghost function FileMap(): map<u32, File>
      requires bm.Valid()
      reads bm.d.blocks
    {
      Files(bm.Contents())
    }

    ghost function FreeBlocks(): nat
      reads bm
    {
      |DataArea() - bm.Used()|
    }

    constructor (now: u32, junk: seq<u32>)
      requires |junk| == NDIRECT + 1
      ensures fresh(bm) && fresh(bm.d) && fresh(bm.d.blocks)
      ensures Valid()
      ensures FileMap() == OnlyRoot()
      ensures bm.Used() == {}
    {
      bm := new BlockManager();
      new;
      Formatted(bm.Contents());
      ghost var none := FileMap();
      assert IsInum(1) && 1 !in none && none[1 := File.File(T_DIR, [])] == OnlyRoot();
      hide *;
      var root := AllocInode(T_DIR, now, junk);
      assert root == 1;
    }

    /** The inode by number, None when the number is out of range or the inode is free. */
    method GetInode(inum: u32) returns (r: Option<Inode>)
      requires bm.Valid()
      ensures r == if IsInum(inum) && Live(bm.Contents(), inum) then Some(InodeAt(bm.Contents(), inum)) else None
    {
      if inum <= 0 || inum > INODE_NUM {
        return None;
      }
      var buf := bm.d.ReadBlock(IBlock(inum), ZERO_BLOCK);
      var ino := DecodeInode(buf[Slot(inum)..Slot(inum) + INODE_BYTES]);
      if ino.typ == 0 {
        return None;
      }
      r := Some(ino);
    }

    method PutInode(inum: u32, ino: Inode, now: u32)
      requires bm.Valid() && IsInum(inum)
      modifies bm.d.blocks
      ensures bm.Contents() == PutInodeAt(old(bm.Contents()), inum, ino.(ctime := now))
    {
      var buf := bm.d.ReadBlock(IBlock(inum), ZERO_BLOCK);
      buf := SetSlot(buf, Slot(inum), EncodeInode(ino.(ctime := now)));
      bm.d.WriteBlock(IBlock(inum), buf);
    }

    /** Takes the lowest free inode number for an empty file; 0 when every inode is taken. */
    method AllocInode(typ: u32, now: u32, junk: seq<u32>) returns (inum: u32)
      requires Valid() && typ != 0 && |junk| == NDIRECT + 1
      modifies bm.d.blocks
      ensures Valid()
      ensures inum == 0 <==> forall i: u32 | IsInum(i) :: i in old(FileMap())
      ensures inum != 0 ==> IsInum(inum) && inum !in old(FileMap())
      ensures inum != 0 ==> forall i: u32 | 1 <= i < inum :: i in old(FileMap())
      ensures FileMap() == if inum == 0 then old(FileMap()) else old(FileMap())[inum := File.File(typ, [])]
    {
      hide Inv, Files, Live, InodeAt;
      var i: nat := 1;
      ghost var taken := FileMap();
      while i <= INODE_NUM
        invariant 1 <= i <= INODE_NUM + 1 && bm.Contents() == old(bm.Contents())
        invariant forall j: u32 | 1 <= j < i :: j in taken
      {
        var r := GetInode(i);
        FilesAt(bm.Contents(), i);
        if r == None {
          InitInode(i, typ, now, junk);
          return i;
        }
        i := i + 1;
      }
      inum := 0;
    }

    method InitInode(i: u32, typ: u32, now: u32, junk: seq<u32>)
      requires Valid() && IsInum(i) && i !in FileMap()
      requires typ != 0 && |junk| == NDIRECT + 1
      modifies bm.d.blocks
      ensures Valid()
      ensures FileMap() == old(FileMap())[i := File.File(typ, [])]
    {
      var ino := InodeRecord.Inode(typ, 0, now, now, now, junk);
      FilesAt(bm.Contents(), i);
      Create(bm.Contents(), bm.Used(), i, ino);
      PutInode(i, ino, now);
      var _ := ReadFile(1, now);  // printdir(1)
    }

    method FreeInode(inum: u32, now: u32)
      requires bm.Valid()
      modifies bm.d.blocks
      ensures bm.Contents() == if IsInum(inum) && Live(old(bm.Contents()), inum)
                               then PutInodeAt(old(bm.Contents()), inum,
                                 InodeAt(old(bm.Contents()), inum).(typ := 0, ctime := now))
                               else old(bm.Contents())
    {
      var ino := GetInode(inum);
      if ino == None {
        return;
      }
      PutInode(inum, ino.value.(typ := 0), now);
    }

    /** Appends the blocks `ids[0..n]` to `buf`, as the reading loops do. */
    method ReadBlocks(ids: seq<u32>, n: nat, buf: seq<byte>) returns (out: seq<byte>)
      requires bm.Valid() && n <= |ids|
      requires forall k | 0 <= k < n :: ids[k] < BLOCK_NUM
      ensures |out| == |buf| + n * BLOCK_SIZE && out[..|buf|] == buf
      ensures forall k | |buf| <= k < |out| :: out[k] == ByteAt(bm.Contents(), ids, k - |buf|)
    {
      out := buf;
      var i := 0;
      while i < n
        invariant 0 <= i <= n && |out| == |buf| + i * BLOCK_SIZE && out[..|buf|] == buf
        invariant forall k | |buf| <= k < |out| :: out[k] == ByteAt(bm.Contents(), ids, k - |buf|)
      {
        var b := bm.d.ReadBlock(ids[i], ZERO_BLOCK);
        out := out + b;
        i := i + 1;
      }
    }

    /** The data blocks of an inode, one after the other; the last one is filled up to its end. */
    method ReadData(ino: Inode) returns (buf: seq<byte>)
      requires bm.Valid() && ino.size <= MAX_BYTES
      requires Elems(Owned(bm.Contents(), ino)) <= DataArea()
      ensures ino.size <= |buf|
      ensures buf[..ino.size] == Content(bm.Contents(), Ids(bm.Contents(), ino), ino.size)
    {
      var blockNum := BlocksFor(ino.size);
      ghost var d := bm.Contents();
      IdsInData(d, ino);
      if NDIRECT >= blockNum {
        buf := ReadBlocks(ino.blocks, blockNum, []);
      } else {
        var direct := ReadBlocks(ino.blocks, NDIRECT, []);
        var ind := bm.d.ReadBlock(ino.blocks[NDIRECT], ZERO_BLOCK);
        buf := ReadBlocks(GetWords(ind), blockNum - NDIRECT, direct);
      }
      forall k: nat | k < ino.size
        ensures buf[k] == ByteAt(d, Ids(d, ino), k)
      {
        if blockNum > NDIRECT && k < NDIRECT * BLOCK_SIZE {
          assert buf[k] == buf[..NDIRECT * BLOCK_SIZE][k];
        }
      }
    }

    /** Whole content of a file; None when there is no such inode. Only times change. */
    method ReadFile(inum: u32, now: u32) returns (r: Option<seq<byte>>)
      requires Valid()
      modifies bm.d.blocks
      ensures Valid() && FileMap() == old(FileMap())
      ensures Kept(old(bm.Contents()), bm.Contents())
      ensures r == if inum in old(FileMap()) then Some(old(FileMap())[inum].data) else None
    {
      FilesAt(bm.Contents(), inum);
      var ino := GetInode(inum);
      if ino == None {
        KeptSelf(bm.Contents());
        return None;
      }
      OwnedInData(bm.Contents(), bm.Used(), inum);
      var buf := ReadData(ino.value);
      KeptPut(bm.Contents(), inum, ino.value.(atime := now, ctime := now));
      Touch(bm.Contents(), bm.Used(), inum, ino.value.(atime := now, ctime := now));
      PutInode(inum, ino.value.(atime := now), now);
      r := Some(buf[..ino.value.size]);
    }

    /** Growth inside the direct blocks. */
    method GrowDirect(blocks: seq<u32>, ghost ind: Words, n: nat, n': nat) returns (blocks': seq<u32>)
      requires CanGrow(blocks, ind, n, n') && n' <= NDIRECT
      modifies bm
      ensures |blocks'| == NDIRECT + 1
      ensures Moved(old(bm.Used()), OwnedOf(blocks, ind, n), bm.Used(), OwnedOf(blocks', ind, n'))
    {
      blocks' := bm.AllocRange(blocks, n, n');
      GrewDirect(blocks, ind, n, blocks', n');
      Transfer.Grow(old(bm.Used()), OwnedOf(blocks, ind, n), blocks'[n..n'], bm.Used());
    }

    /** Growth from direct blocks only to direct and indirect blocks; one more block holds the ids. */
    method GrowAcross(blocks: seq<u32>, ind: Words, n: nat, n': nat) returns (blocks': seq<u32>, ind': Words)
      requires CanGrow(blocks, ind, n, n') && n <= NDIRECT < n'
      modifies bm
      ensures |blocks'| == NDIRECT + 1
      ensures Moved(old(bm.Used()), OwnedOf(blocks, ind, n), bm.Used(), OwnedOf(blocks', ind', n'))
    {
      ghost var used, own := bm.Used(), OwnedOf(blocks, ind, n);
      blocks' := bm.AllocRange(blocks, n, NDIRECT + 1);
      ghost var head, used1 := blocks'[n..NDIRECT + 1], bm.Used();
      Transfer.Grow(used, own, head, used1);
      TakenLeft(used, head, used1);
      ind' := bm.AllocRange(ind, 0, n' - NDIRECT);
      GrewAcross(blocks, ind, n, blocks', ind', n');
      Grow2(used, own, head, used1, ind'[0..n' - NDIRECT], bm.Used());
    }

    /** Growth inside the indirect blocks. */
    method GrowIndirect(ghost blocks: seq<u32>, ind: Words, n: nat, n': nat) returns (ind': Words)
      requires CanGrow(blocks, ind, n, n') && NDIRECT < n
      modifies bm
      ensures Moved(old(bm.Used()), OwnedOf(blocks, ind, n), bm.Used(), OwnedOf(blocks, ind', n'))
    {
      ind' := bm.AllocRange(ind, n - NDIRECT, n' - NDIRECT);
      GrewIndirect(blocks, ind, n, ind', n');
      Transfer.Grow(old(bm.Used()), OwnedOf(blocks, ind, n), ind'[n - NDIRECT..n' - NDIRECT], bm.Used());
    }

    ghost predicate CanGrow(blocks: seq<u32>, ind: Words, n: nat, n': nat)
      reads bm
    {
      && |blocks| == NDIRECT + 1 && n < n' <= MAXFILE
      && NoDup(OwnedOf(blocks, ind, n)) && Elems(OwnedOf(blocks, ind, n)) <= bm.Used()
      && OwnedCount(n') - OwnedCount(n) <= FreeBlocks()
    }

    /** Takes the blocks a file needs to grow from `n` to `n'` blocks, and records the indirect ones on disk. */
    method Grow(blocks: seq<u32>, ind: Words, n: nat, n': nat) returns (blocks': seq<u32>, ind': Words)
      requires bm.Valid() && CanGrow(blocks, ind, n, n')
      modifies bm, bm.d.blocks
      ensures |blocks'| == NDIRECT + 1
      ensures Moved(old(bm.Used()), OwnedOf(blocks, ind, n), bm.Used(), OwnedOf(blocks', ind', n'))
      ensures bm.Contents() == Recorded(old(bm.Contents()), blocks', ind', n')
    {
      blocks', ind' := blocks, ind;
      if n' <= NDIRECT {
        blocks' := GrowDirect(blocks, ind, n, n');
      } else {
        if n <= NDIRECT {
          blocks', ind' := GrowAcross(blocks, ind, n, n');
        } else {
          ind' := GrowIndirect(blocks, ind, n, n');
        }
        bm.d.WriteBlock(blocks'[NDIRECT], PutWords(ind'));
      }
    }

    ghost predicate CanShrink(blocks: seq<u32>, ind: Words, n: nat, n': nat)
      reads bm
    {
      && |blocks| == NDIRECT + 1 && n' < n <= MAXFILE
      && NoDup(OwnedOf(blocks, ind, n)) && Elems(OwnedOf(blocks, ind, n)) <= bm.Used()
    }

    /** Releases the blocks past the first `n'`, and the indirect block once it is not needed. */
    method Shrink(blocks: seq<u32>, ind: Words, n: nat, n': nat)
      requires CanShrink(blocks, ind, n, n')
      modifies bm
      ensures Moved(old(bm.Used()), OwnedOf(blocks, ind, n), bm.Used(), OwnedOf(blocks, ind, n'))
    {
      ghost var used, kept := bm.Used(), OwnedOf(blocks, ind, n');
      if n <= NDIRECT {
        bm.FreeRange(blocks, n', n);
        ShrankDirect(blocks, ind, n, n');
        Transfer.Shrink(used, kept, blocks[n'..n]);
      } else if n' <= NDIRECT {
        bm.FreeRange(blocks, n', NDIRECT + 1);
        bm.FreeRange(ind, 0, n - NDIRECT);
        ShrankAcross(blocks, ind, n, n');
        Shrink2(used, kept, blocks[n'..NDIRECT + 1], ind[0..n - NDIRECT]);
      } else {
        bm.FreeRange(ind, n' - NDIRECT, n - NDIRECT);
        ShrankIndirect(blocks, ind, n, n');
        Transfer.Shrink(used, kept, ind[n' - NDIRECT..n - NDIRECT]);
      }
    }

    /** "allocate new blocks or free redundant blocks" */
    method Resize(ino: Inode, n': nat, ghost size: nat, stack: Block) returns (blocks: seq<u32>, ind: Words)
      requires bm.Valid() && ino.size <= MAX_BYTES && n' <= MAXFILE
      requires NoDup(Owned(bm.Contents(), ino)) && Elems(Owned(bm.Contents(), ino)) <= bm.Used()
      requires n' == BlocksFor(size) && Demand(ino.size, size) <= FreeBlocks()
      modifies bm, bm.d.blocks
      ensures |blocks| == NDIRECT + 1
      ensures Moved(old(bm.Used()), Owned(old(bm.Contents()), ino), bm.Used(), OwnedOf(blocks, ind, n'))
      ensures bm.Contents() == old(bm.Contents()) || bm.Contents() == Recorded(old(bm.Contents()), blocks, ind, n')
      ensures n' > NDIRECT && blocks[NDIRECT] < BLOCK_NUM ==> IndirectAt(bm.Contents(), blocks[NDIRECT]) == ind
    {
      var n := BlocksFor(ino.size);
      var buf := bm.d.ReadBlock(ino.blocks[NDIRECT], stack);
      blocks, ind := ino.blocks, GetWords(buf);
      OwnedFromBuffer(bm.Contents(), ino, ind);
      if n < n' {
        blocks, ind := Grow(blocks, ind, n, n');
        GetPutWords(ind);
      } else if n > n' {
        Shrink(blocks, ind, n, n');
      } else {
        Transfer.Shrink(bm.Used(), OwnedOf(blocks, ind, n), []);
        assert OwnedOf(blocks, ind, n) + [] == OwnedOf(blocks, ind, n);
      }
    }

    /** Writes block-sized pieces of `mem` to the blocks `ids[0..n]`. */
    method WriteBlocks(ids: seq<u32>, n: nat, mem: seq<byte>)
      requires bm.Valid() && n <= |ids| && n * BLOCK_SIZE <= |mem|
      requires NoDup(ids[..n]) && forall k | 0 <= k < n :: ids[k] < BLOCK_NUM
      modifies bm.d.blocks
      ensures Written(old(bm.Contents()), bm.Contents(), ids[..n], mem)
    {
      var i := 0;
      while i < n
        invariant 0 <= i <= n
        invariant Written(old(bm.Contents()), bm.Contents(), ids[..i], mem)
      {
        ghost var before := bm.Contents();
        bm.d.WriteBlock(ids[i], mem[i * BLOCK_SIZE..(i + 1) * BLOCK_SIZE]);
        assert ids[..n][..i + 1] == ids[..i + 1] && ids[..i] == ids[..i + 1][..i];
        WrittenSnoc(old(bm.Contents()), before, ids[..i + 1], mem);
        i := i + 1;
      }
    }

    /** "actually write file" */
    method WriteData(blocks: seq<u32>, ind: Words, n: nat, mem: seq<byte>)
      requires bm.Valid() && |blocks| == NDIRECT + 1 && n <= MAXFILE && n * BLOCK_SIZE <= |mem|
      requires NoDup(OwnedOf(blocks, ind, n)) && Elems(OwnedOf(blocks, ind, n)) <= DataArea()
      modifies bm.d.blocks
      ensures Written(old(bm.Contents()), bm.Contents(), IdsOf(blocks, ind, n), mem)
    {
      OwnedIdsParts(blocks, ind, n);
      if NDIRECT >= n {
        WriteBlocks(blocks, n, mem);
      } else {
        WriteBlocks(blocks, NDIRECT, mem);
        ghost var mid := bm.Contents();
        WriteBlocks(ind, n - NDIRECT, mem[NDIRECT * BLOCK_SIZE..]);
        WrittenConcat(old(bm.Contents()), mid, bm.Contents(), blocks[..NDIRECT], ind[..n - NDIRECT], mem);
      }
    }

    /**
     * Replaces the whole content of a file. `mem` is the memory at `buf`: whole
     * blocks are copied from it, so it reaches past `size`; `stack` is what the
     * uninitialised id buffer holds.
     */
    method WriteFile(inum: u32, mem: seq<byte>, size: nat, now: u32, stack: Block)
      requires Valid() && size < 0x8000_0000
      requires size <= MAX_BYTES ==> BlocksFor(size) * BLOCK_SIZE <= |mem|
      requires Writable(inum, size) ==> Demand(|FileMap()[inum].data|, size) <= FreeBlocks()
      modifies bm, bm.d.blocks
      ensures Valid()
      ensures FileMap() == if old(Writable(inum, size))
                           then old(FileMap())[inum := File.File(old(FileMap())[inum].typ, mem[..size])]
                           else old(FileMap())
      ensures FreeBlocks() == if old(Writable(inum, size))
                              then old(FreeBlocks()) - Demand(|old(FileMap())[inum].data|, size)
                              else old(FreeBlocks())
    {
      hide Inv, Files, Live, InodeAt, Content, Owned, Ids, OnlyInode, Moved, Written, PutInodeAt, DataArea;
      hide NoDup, Recorded, BlocksFor, OwnedCount, OwnedOf, IdsOf, Demand;
      FilesAt(bm.Contents(), inum);
      var r := GetInode(inum);
      if r == None {
        return;
      }
      var ino := r.value;
      var blockNumToWrite := BlocksFor(size);
      if blockNumToWrite > MAXFILE {
        return;
      }
      ghost var d, used := bm.Contents(), bm.Used();
      WholeFile(d, used, inum);
      var blocks, ind := Resize(ino, blockNumToWrite, size, stack);
      ghost var d1 := bm.Contents();
      MovedOwned(used, Owned(d, ino), bm.Used(), OwnedOf(blocks, ind, blockNumToWrite));
      WriteData(blocks, ind, blockNumToWrite, mem);
      Spent(d, used, ino, bm.Used(), blocks, ind, size);
      var ino' := ino.(size := size, mtime := now, blocks := blocks);
      Overwrite(d, used, inum, d1, bm.Contents(), bm.Used(), ino'.(ctime := now), ind, blockNumToWrite, mem);
      PutInode(inum, ino', now);
    }

    ghost predicate Writable(inum: u32, size: nat)
      requires bm.Valid()
      reads bm.d.blocks
    {
      inum in FileMap() && size <= MAX_BYTES
    }

    /** Releases the data blocks of an inode, and its indirect block. */
    method FreeBlocksOf(ino: Inode, stack: Block)
      requires bm.Valid() && ino.size <= MAX_BYTES && Elems(Owned(bm.Contents(), ino)) <= DataArea()
      modifies bm
      ensures bm.Used() == old(bm.Used()) - Elems(Owned(bm.Contents(), ino))
    {
      var blockNum := BlocksFor(ino.size);
      if blockNum <= NDIRECT {
        bm.FreeRange(ino.blocks, 0, blockNum);
      } else {
        var buf := bm.d.ReadBlock(ino.blocks[NDIRECT], stack);
        var ind: Words := GetWords(buf);
        OwnedFromBuffer(bm.Contents(), ino, ind);
        ShrankAcross(ino.blocks, ind, blockNum, 0);
        bm.FreeRange(ino.blocks, 0, NDIRECT + 1);
        bm.FreeRange(ind, 0, blockNum - NDIRECT);
      }
    }

    /**
     * Removes a file, or a directory with everything below it. `rank` witnesses
     * that no directory contains itself; without that the recursion would not end.
     */
    method RemoveFile(inum: u32, now: u32, stack: Block, ghost rank: map<u32, nat>)
      requires Valid() && Ranked(FileMap(), rank) && WholeEntries(FileMap())
      modifies bm, bm.d.blocks
      ensures Valid() && Kept(old(bm.Contents()), bm.Contents())
      ensures FileMap() == old(FileMap()) - Subtree(old(FileMap()), rank, inum)
      decreases Height(FileMap(), rank, inum), 2
    {
      hide Inv, Files, Live, InodeAt, Owned, OwnedSet, Kids, Kept, DataArea, SameButTimes;
      FilesAt(bm.Contents(), inum);
      KeptSelf(bm.Contents());
      var r := GetInode(inum);
      if r == None {
        return;
      }
      ghost var d, files := bm.Contents(), FileMap();
      SelfNotBelow(files, rank, inum);
      WholeFile(d, bm.Used(), inum);
      if T_DIR == r.value.typ {
        RemoveEntries(inum, now, stack, rank);
      } else {
        NoKids(files, rank, inum);
      }
      FilesAt(bm.Contents(), inum);
      ReleaseInode(inum, r.value, now, stack, d);
    }

    /** "free data blocks", then the inode; `ino` is the copy read before anything below was removed. */
    method ReleaseInode(inum: u32, ino: Inode, now: u32, stack: Block, ghost d: Image)
      requires Valid() && IsInum(inum) && Live(bm.Contents(), inum)
      requires Kept(d, bm.Contents()) && ino == InodeAt(d, inum)
      modifies bm, bm.d.blocks
      ensures Valid() && Kept(d, bm.Contents())
      ensures FileMap() == old(FileMap()) - {inum}
    {
      hide Inv, Files, Kept, DataArea, Owned;
      ghost var d1, used := bm.Contents(), bm.Used();
      KeptInode(d, d1, inum);
      WholeFile(d1, used, inum);
      SameOwned(d1, inum, ino);
      FreeBlocksOf(ino, stack);
      ghost var free := InodeAt(d1, inum).(typ := 0, ctime := now);
      Remove(d1, used, inum, free);
      KeptPut(d1, inum, free);
      KeptThen(d, d1, PutInodeAt(d1, inum, free));
      FreeInode(inum, now);
    }

    /** The loop over the entries of a directory that is being removed. */
    method RemoveEntries(inum: u32, now: u32, stack: Block, ghost rank: map<u32, nat>)
      requires Valid() && Ranked(FileMap(), rank) && WholeEntries(FileMap())
      requires inum in FileMap() && FileMap()[inum].typ == T_DIR
      modifies bm, bm.d.blocks
      ensures Valid() && Kept(old(bm.Contents()), bm.Contents())
      ensures FileMap() == old(FileMap()) - Forest(old(FileMap()), rank, Kids(old(FileMap()), inum))
      decreases Height(FileMap(), rank, inum), 1
    {
      hide Inv, Files, Live, InodeAt, Kept, DataArea, Subtree, Forest, Kids, WholeEntries, Ranked;
      ghost var d, files, kids := bm.Contents(), FileMap(), Kids(FileMap(), inum);
      var r := ReadFile(inum, now);
      var buf := r.value;
      var i := 0;
      ghost var k := 0;
      ForestOfNone(files, rank);
      KidCount(files, inum);
      while i < |buf|
        invariant i == k * MAXDIRENTRYLEN && 0 <= k <= |kids|
        invariant Valid() && Kept(d, bm.Contents())
        invariant Ranked(FileMap(), rank) && WholeEntries(FileMap())
        invariant FileMap() == files - Forest(files, rank, kids[..k])
      {
        ghost var d1 := bm.Contents();
        var subino := FromLe32(buf[i + MAXFILENAMELEN..i + MAXDIRENTRYLEN]);
        KidAt(files, inum, k);
        ForestSnoc(files, rank, kids[..k], subino);
        KidRank(files, rank, inum, subino);
        RemoveFile(subino, now, stack, rank);
        KeptThen(d, d1, bm.Contents());
        ForestClosed(files, rank, kids[..k + 1]);
        StillRanked(files, rank, Forest(files, rank, kids[..k + 1]));
        i, k := i + MAXDIRENTRYLEN, k + 1;
      }
      assert kids[..k] == kids;
    }
  }

  lemma Formatted(d: Image)
    requires forall b :: 0 <= b < BLOCK_NUM ==> d[b] == ZERO_BLOCK
    ensures Inv(d, {}) && Files(d) == map[]
  {
    forall i: u32 | IsInum(i)
      ensures !Live(d, i)
    {
      var b := d[IBlock(i)];
      var s := b[Slot(i)..Slot(i) + INODE_BYTES];
      assert b == ZERO_BLOCK;
      forall k | 0 <= k < 4
        ensures s[..4][k] == 0
      {
        assert s[k] == b[Slot(i) + k];
      }
    }
  }

  lemma IdsInData(d: Image, ino: Inode)
    requires ino.size <= MAX_BYTES && Elems(Owned(d, ino)) <= DataArea()
    ensures forall k | 0 <= k < BlocksFor(ino.size) && k < NDIRECT :: ino.blocks[k] < BLOCK_NUM
    ensures BlocksFor(ino.size) > NDIRECT ==>
              ino.blocks[NDIRECT] < BLOCK_NUM
              && forall k | 0 <= k < BlocksFor(ino.size) - NDIRECT :: IndirectAt(d, ino.blocks[NDIRECT])[k] < BLOCK_NUM
  {
    var n, o := BlocksFor(ino.size), Owned(d, ino);
    IdsAreOwned(ino.blocks, IndirectAt(d, ino.blocks[NDIRECT]), n);
    forall k | 0 <= k < |o|
      ensures o[k] < BLOCK_NUM
    {
      assert o[k] in Elems(o) && o[k] in DataArea();
    }
    forall k | 0 <= k < n - NDIRECT
      ensures IndirectAt(d, ino.blocks[NDIRECT])[k] < BLOCK_NUM
    {
      assert IdsOf(ino.blocks, IndirectAt(d, ino.blocks[NDIRECT]), n)[NDIRECT + k] == o[NDIRECT + k + 1];
    }
    forall k | 0 <= k < n && k < NDIRECT
      ensures ino.blocks[k] < BLOCK_NUM
    {
      assert IdsOf(ino.blocks, IndirectAt(d, ino.blocks[NDIRECT]), n)[k] == o[k];
    }
  }

  lemma WrittenSnoc(d: Image, d': Image, ids: seq<u32>, mem: seq<byte>)
    requires |ids| > 0 && |ids| * BLOCK_SIZE <= |mem| && NoDup(ids) && ids[|ids| - 1] < BLOCK_NUM
    requires Written(d, d', ids[..|ids| - 1], mem)
    ensures Written(d, d'[ids[|ids| - 1] := Chunk(mem, |ids| - 1)], ids, mem)
  {
    var t := ids[..|ids| - 1];
    forall k: nat | k < |t|
      ensures t[k] != ids[|ids| - 1]
    {
      assert t[k] == ids[k];
    }
  }

  lemma OwnedIdsParts(blocks: seq<u32>, ind: seq<u32>, n: nat)
    requires |blocks| == NDIRECT + 1 && |ind| == NINDIRECT && n <= MAXFILE
    requires NoDup(OwnedOf(blocks, ind, n)) && Elems(OwnedOf(blocks, ind, n)) <= DataArea()
    ensures NoDup(IdsOf(blocks, ind, n))
    ensures forall k: nat | k < n :: IdsOf(blocks, ind, n)[k] < BLOCK_NUM
    ensures forall k: nat | k < n && k < NDIRECT :: blocks[k] < BLOCK_NUM
    ensures n > NDIRECT ==> NoDup(blocks[..NDIRECT]) && NoDup(ind[..n - NDIRECT])
    ensures n > NDIRECT ==> forall k: nat | k < n - NDIRECT :: ind[k] < BLOCK_NUM
  {
    var own, ids := OwnedOf(blocks, ind, n), IdsOf(blocks, ind, n);
    IdsAreOwned(blocks, ind, n);
    forall k: nat | k < n
      ensures ids[k] < BLOCK_NUM
    {
      assert own[if k < NDIRECT then k else k + 1] in Elems(own) && ids[k] in DataArea();
    }
    forall k: nat | k < n && k < NDIRECT
      ensures blocks[k] < BLOCK_NUM
    {
      assert ids[k] == blocks[k];
    }
    if n > NDIRECT {
      NoDupSplit(blocks[..NDIRECT], ind[..n - NDIRECT]);
      forall k: nat | k < n - NDIRECT
        ensures ind[k] < BLOCK_NUM
      {
        assert ids[NDIRECT + k] == ind[k];
      }
    }
  }

  /** Blocks taken from the free pool (negative: returned to it) when a file changes its size. */
  function Demand(size: nat, size': nat): int {
    OwnedCount(BlocksFor(size')) - OwnedCount(BlocksFor(size))
  }

  lemma Spent(d: Image, used: set<u32>, ino: Inode, used': set<u32>, blocks: seq<u32>, ind: seq<u32>, size: nat)
    requires |blocks| == NDIRECT + 1 && |ind| == NINDIRECT && ino.size <= MAX_BYTES && size <= MAX_BYTES
    requires NoDup(Owned(d, ino)) && Elems(Owned(d, ino)) <= used <= DataArea()
    requires Moved(used, Owned(d, ino), used', OwnedOf(blocks, ind, BlocksFor(size)))
    ensures |DataArea() - used'| == |DataArea() - used| - Demand(ino.size, size)
  {
    IdsAreOwned(blocks, ind, BlocksFor(size));
    IdsAreOwned(ino.blocks, IndirectAt(d, ino.blocks[NDIRECT]), BlocksFor(ino.size));
    FreeCount(used, Owned(d, ino), used', OwnedOf(blocks, ind, BlocksFor(size)));
  }

  lemma OwnedFromBuffer(d: Image, ino: Inode, ind: seq<u32>)
    requires |ind| == NINDIRECT
    requires ino.blocks[NDIRECT] < BLOCK_NUM ==> ind == IndirectAt(d, ino.blocks[NDIRECT])
    requires Elems(Owned(d, ino)) <= DataArea() && ino.size <= MAX_BYTES
    ensures Owned(d, ino) == OwnedOf(ino.blocks, ind, BlocksFor(ino.size))
    ensures BlocksFor(ino.size) > NDIRECT ==> ino.blocks[NDIRECT] < BLOCK_NUM
  {
    IdsInData(d, ino);
  }

  /** What the invariant says about one live inode. */
  lemma WholeFile(d: Image, used: set<u32>, i: u32)
    requires Inv(d, used) && IsInum(i) && Live(d, i)
    ensures InodeAt(d, i).size <= MAX_BYTES && |Files(d)[i].data| == InodeAt(d, i).size
    ensures i in Files(d) && Files(d)[i].typ == InodeAt(d, i).typ
    ensures NoDup(Owned(d, InodeAt(d, i)))
    ensures Elems(Owned(d, InodeAt(d, i))) == OwnedSet(d, i) && OwnedSet(d, i) <= used <= DataArea()
  {
    FilesAt(d, i);
    OwnedInData(d, used, i);
  }

  lemma MovedOwned(used: set<u32>, from: seq<u32>, used': set<u32>, to: seq<u32>)
    requires Moved(used, from, used', to)
    ensures NoDup(to) && Elems(to) <= DataArea()
  {
  }

  lemma KeptSelf(d: Image)
    ensures Kept(d, d)
  {
  }

  lemma KeptInode(d: Image, d': Image, i: u32)
    requires Kept(d, d') && IsInum(i) && Live(d', i)
    ensures SameButTimes(d, i, InodeAt(d', i))
  {
  }

  lemma SameOwned(d: Image, i: u32, ino: Inode)
    requires IsInum(i) && InodeAt(d, i).(atime := 0, ctime := 0) == ino.(atime := 0, ctime := 0)
    ensures Owned(d, ino) == Owned(d, InodeAt(d, i)) && ino.size == InodeAt(d, i).size
  {
  }
}
