/** What the bytes of a disk mean: an inode table, the blocks each inode owns, and a map of files. */
module InodeImage {

  import opened Bytes
  import opened Disk
  import opened Ledger

  const MAX_BYTES: nat := MAXFILE * BLOCK_SIZE
  const INODE_WORDS: nat := 5 + NDIRECT + 1
  const INODE_BYTES: nat := 4 * INODE_WORDS
  const NO_BLOCKS: seq<u32> := seq(NDIRECT + 1, i => 0)

  datatype InodeRecord = Inode(typ: u32, size: u32, atime: u32, mtime: u32, ctime: u32, blocks: seq<u32>)

  type Inode = ino: InodeRecord | |ino.blocks| == NDIRECT + 1 witness InodeRecord.Inode(0, 0, 0, 0, 0, NO_BLOCKS)

  datatype File = File(typ: u32, data: seq<byte>)

  predicate IsInum(i: u32) {
    1 <= i <= INODE_NUM
  }

  // ---------- the inode table ----------

  function EncodeInode(ino: Inode): (b: seq<byte>)
    ensures |b| == INODE_BYTES
  {
    PutWords([ino.typ, ino.size, ino.atime, ino.mtime, ino.ctime] + ino.blocks)
  }

  function DecodeInode(b: seq<byte>): Inode
    requires |b| == INODE_BYTES
  {
    var w := GetWords(b);
    InodeRecord.Inode(w[0], w[1], w[2], w[3], w[4], w[5..])
  }

  lemma InodeRoundTrip(ino: Inode)
    ensures DecodeInode(EncodeInode(ino)) == ino
  {
    var w := [ino.typ, ino.size, ino.atime, ino.mtime, ino.ctime] + ino.blocks;
    GetPutWords(w);
    assert w[5..] == ino.blocks;
  }

  /** The 32-bit number in the bytes from `o` on. */
  function NumberAt(b: seq<byte>, o: nat): int
    requires o + 4 <= |b|
  {
    b[o] as int + 0x100 * b[o + 1] as int + 0x1_0000 * b[o + 2] as int + 0x100_0000 * b[o + 3] as int
  }

  /** The fields of an inode in the order of the struct, then its block ids. */
  lemma InodeLayout(ino: Inode)
    ensures var b := EncodeInode(ino);
      && |b| == 152 && NumberAt(b, 0) == ino.typ && NumberAt(b, 4) == ino.size && NumberAt(b, 8) == ino.atime
      && NumberAt(b, 12) == ino.mtime && NumberAt(b, 16) == ino.ctime
      && forall k: nat | k <= 32 :: NumberAt(b, 20 + 4 * k) == ino.blocks[k]
  {
    var w := [ino.typ, ino.size, ino.atime, ino.mtime, ino.ctime] + ino.blocks;
    forall k: nat | k < |w|
      ensures NumberAt(PutWords(w), 4 * k) == w[k]
    {
      WordAt(w, k);
    }
    assert NumberAt(PutWords(w), 4 * 0) == w[0] && NumberAt(PutWords(w), 4 * 1) == w[1];
    assert NumberAt(PutWords(w), 4 * 2) == w[2] && NumberAt(PutWords(w), 4 * 3) == w[3];
    assert NumberAt(PutWords(w), 4 * 4) == w[4];
    forall k: nat | k <= 32
      ensures NumberAt(PutWords(w), 20 + 4 * k) == ino.blocks[k]
    {
      assert NumberAt(PutWords(w), 4 * (5 + k)) == w[5 + k];
    }
    hide NumberAt, PutWords;
  }

  /** Block of the inode table that holds inode `i`. */
  function IBlock(i: u32): (b: u32)
    requires IsInum(i)
    ensures 11 <= b < FIRST_BLOCK
  {
    BLOCK_NUM / BPB + (i - 1) / IPB + 3
  }

  /** Byte offset of inode `i` in its block. */
  function Slot(i: u32): (o: nat)
    requires IsInum(i)
    ensures o + INODE_BYTES <= BLOCK_SIZE
  {
    (i - 1) % IPB * INODE_BYTES
  }

  function SetSlot(b: Block, o: nat, x: seq<byte>): Block
    requires |x| == INODE_BYTES && o + INODE_BYTES <= BLOCK_SIZE
  {
    b[..o] + x + b[o + INODE_BYTES..]
  }

  function InodeAt(d: Image, i: u32): Inode
    requires IsInum(i)
  {
    DecodeInode(d[IBlock(i)][Slot(i)..Slot(i) + INODE_BYTES])
  }

  function PutInodeAt(d: Image, i: u32, ino: Inode): Image
    requires IsInum(i)
  {
    d[IBlock(i) := SetSlot(d[IBlock(i)], Slot(i), EncodeInode(ino))]
  }

  predicate Live(d: Image, i: u32)
    requires IsInum(i)
  {
    InodeAt(d, i).typ != 0
  }

  lemma SlotSet(b: Block, o: nat, x: seq<byte>, p: nat)
    requires |x| == INODE_BYTES && o + INODE_BYTES <= BLOCK_SIZE && p + INODE_BYTES <= BLOCK_SIZE
    requires p == o || p + INODE_BYTES <= o || o + INODE_BYTES <= p
    ensures SetSlot(b, o, x)[p..p + INODE_BYTES] == if p == o then x else b[p..p + INODE_BYTES]
  {
  }

  /** Writing one inode changes that inode, no other inode and no data block. */
  lemma PutInodeFrame(d: Image, i: u32, ino: Inode, j: u32)
    requires IsInum(i) && IsInum(j)
    ensures InodeAt(PutInodeAt(d, i, ino), j) == if j == i then ino else InodeAt(d, j)
  {
    InodeRoundTrip(ino);
    if IBlock(i) == IBlock(j) {
      SlotSet(d[IBlock(i)], Slot(i), EncodeInode(ino), Slot(j));
    }
  }

  // ---------- the blocks of an inode ----------

  function BlocksFor(size: nat): (n: nat)
    ensures (n - 1) * BLOCK_SIZE < size <= n * BLOCK_SIZE || n == size == 0
    ensures n <= MAXFILE <==> size <= MAX_BYTES
  {
    size / BLOCK_SIZE + if size % BLOCK_SIZE > 0 then 1 else 0
  }

  /** Ids of the first `n` data blocks: direct ones, then those listed in the indirect block. */
  function IdsOf(blocks: seq<u32>, ind: seq<u32>, n: nat): (ids: seq<u32>)
    requires |blocks| == NDIRECT + 1 && |ind| == NINDIRECT
    ensures n <= MAXFILE ==> |ids| == n
  {
    if n <= NDIRECT then blocks[..n]
    else if n <= MAXFILE then blocks[..NDIRECT] + ind[..n - NDIRECT]
    else blocks[..NDIRECT] + ind
  }

  /** Every block the file uses: direct ones, then the indirect block and the blocks listed in it. */
  function OwnedOf(blocks: seq<u32>, ind: seq<u32>, n: nat): seq<u32>
    requires |blocks| == NDIRECT + 1 && |ind| == NINDIRECT
  {
    if n <= NDIRECT then blocks[..n]
    else if n <= MAXFILE then blocks + ind[..n - NDIRECT]
    else blocks + ind
  }

  /** Owned blocks: one per data block, one more for the indirect block. */
  function OwnedCount(n: nat): nat {
    if n <= NDIRECT then n else n + 1
  }

  lemma IdsAreOwned(blocks: seq<u32>, ind: seq<u32>, n: nat)
    requires |blocks| == NDIRECT + 1 && |ind| == NINDIRECT && n <= MAXFILE
    ensures |OwnedOf(blocks, ind, n)| == OwnedCount(n)
    ensures forall k: nat | k < n ::
              IdsOf(blocks, ind, n)[k] == OwnedOf(blocks, ind, n)[if k < NDIRECT then k else k + 1]
    ensures n > NDIRECT ==> OwnedOf(blocks, ind, n)[NDIRECT] == blocks[NDIRECT]
  {
  }

  function IndirectAt(d: Image, id: u32): (ind: seq<u32>)
    ensures |ind| == NINDIRECT
  {
    if id < BLOCK_NUM then GetWords(d[id]) else seq(NINDIRECT, i => 0)
  }

  function Ids(d: Image, ino: Inode): seq<u32> {
    IdsOf(ino.blocks, IndirectAt(d, ino.blocks[NDIRECT]), BlocksFor(ino.size))
  }

  function Owned(d: Image, ino: Inode): seq<u32> {
    OwnedOf(ino.blocks, IndirectAt(d, ino.blocks[NDIRECT]), BlocksFor(ino.size))
  }

  function ByteAt(d: Image, ids: seq<u32>, k: nat): byte {
    if k / BLOCK_SIZE < |ids| && ids[k / BLOCK_SIZE] < BLOCK_NUM then
      d[ids[k / BLOCK_SIZE]][k % BLOCK_SIZE]
    else
      0
  }

  function Content(d: Image, ids: seq<u32>, size: nat): (s: seq<byte>)
    ensures |s| == size
  {
    seq(size, k requires 0 <= k < size => ByteAt(d, ids, k))
  }

  function FileAt(d: Image, i: u32): File
    requires IsInum(i)
  {
    var ino := InodeAt(d, i);
    File.File(ino.typ, Content(d, Ids(d, ino), ino.size))
  }

  /** The abstraction: what a disk image stores, by inode number. */
  ghost function Files(d: Image): map<u32, File> {
    map i: u32 | 0 <= i <= INODE_NUM && IsInum(i) && Live(d, i) :: FileAt(d, i)
  }

  ghost function OwnedSet(d: Image, i: u32): set<u32>
    requires IsInum(i)
  {
    if Live(d, i) then Elems(Owned(d, InodeAt(d, i))) else {}
  }

  ghost function Owners(d: Image): map<u32, set<u32>> {
    map i: u32 | 0 <= i <= INODE_NUM && IsInum(i) :: OwnedSet(d, i)
  }

  ghost predicate GoodInode(d: Image, ino: Inode) {
    ino.size <= MAX_BYTES && NoDup(Owned(d, ino))
  }

  /** Global invariant: bounded files, no block listed twice, and balanced ownership. */
  ghost predicate Inv(d: Image, used: set<u32>) {
    && (forall i: u32 | IsInum(i) && Live(d, i) :: GoodInode(d, InodeAt(d, i)))
    && Balanced(Owners(d), used, DataArea())
  }

  // ---------- frames ----------

  /** An inode owns and holds the same as long as the blocks it owns are not written. */
  lemma SameBlocks(d: Image, d': Image, ino: Inode)
    requires ino.size <= MAX_BYTES
    requires forall b | b in Owned(d, ino) :: b < BLOCK_NUM && d'[b] == d[b]
    ensures Owned(d', ino) == Owned(d, ino) && Ids(d', ino) == Ids(d, ino)
    ensures Content(d', Ids(d', ino), ino.size) == Content(d, Ids(d, ino), ino.size)
  {
    var n := BlocksFor(ino.size);
    IdsAreOwned(ino.blocks, IndirectAt(d, ino.blocks[NDIRECT]), n);
    if n > NDIRECT {
      assert Owned(d, ino)[NDIRECT] in Owned(d, ino);
    }
    var ids := Ids(d, ino);
    forall k: nat | k < ino.size
      ensures ByteAt(d', ids, k) == ByteAt(d, ids, k)
    {
      var p := k / BLOCK_SIZE;
      assert Owned(d, ino)[if p < NDIRECT then p else p + 1] in Owned(d, ino);
    }
  }

  /** Inode `i` may have changed, the other inodes and the blocks they own have not. */
  ghost predicate OnlyInode(d: Image, used: set<u32>, d': Image, i: u32)
    requires IsInum(i)
  {
    && (forall j: u32 | IsInum(j) && j != i :: InodeAt(d', j) == InodeAt(d, j))
    && (forall b: u32 | b in used - OwnedSet(d, i) && b < BLOCK_NUM :: d'[b] == d[b])
  }

  /**
   * Any change of one inode that leaves other inodes and the blocks of others
   * alone keeps the invariant, and changes the map of files only there.
   */
  lemma Commit(d: Image, used: set<u32>, d': Image, i: u32)
    requires Inv(d, used) && IsInum(i) && OnlyInode(d, used, d', i)
    requires Live(d', i) ==> GoodInode(d', InodeAt(d', i))
    requires OwnedSet(d', i) <= DataArea() && OwnedSet(d', i) !! (used - OwnedSet(d, i))
    ensures Inv(d', used - OwnedSet(d, i) + OwnedSet(d', i))
    ensures Files(d') == if Live(d', i) then Files(d)[i := FileAt(d', i)] else Files(d) - {i}
  {
    forall j: u32 | IsInum(j) && j != i && Live(d, j)
      ensures OwnedSet(d', j) == OwnedSet(d, j) && FileAt(d', j) == FileAt(d, j)
      ensures GoodInode(d', InodeAt(d', j))
    {
      OthersKept(d, used, d', i, j);
    }
    FilesStep(d, used, d', i);
    OwnersStep(d, used, d', i);
    Exchange(Owners(d), used, DataArea(), i, OwnedSet(d', i));
  }

  lemma OwnersStep(d: Image, used: set<u32>, d': Image, i: u32)
    requires IsInum(i) && OnlyInode(d, used, d', i)
    requires forall j: u32 | IsInum(j) && j != i && Live(d, j) :: OwnedSet(d', j) == OwnedSet(d, j)
    ensures Owners(d') == Owners(d)[i := OwnedSet(d', i)]
  {
  }

  lemma FilesStep(d: Image, used: set<u32>, d': Image, i: u32)
    requires IsInum(i) && OnlyInode(d, used, d', i)
    requires forall j: u32 | IsInum(j) && j != i && Live(d, j) :: FileAt(d', j) == FileAt(d, j)
    ensures Files(d') == if Live(d', i) then Files(d)[i := FileAt(d', i)] else Files(d) - {i}
  {
    FilesAt(d', i);
    forall j: u32 | j != i
      ensures (j in Files(d') <==> j in Files(d)) && (j in Files(d) ==> Files(d')[j] == Files(d)[j])
    {
      FilesAt(d, j);
      FilesAt(d', j);
      if IsInum(j) {
        assert InodeAt(d', j) == InodeAt(d, j);
      }
    }
    PointChange(Files(d), Files(d'), i);
  }

  lemma FilesAt(d: Image, j: u32)
    ensures j in Files(d) <==> IsInum(j) && Live(d, j)
    ensures j in Files(d) ==> Files(d)[j] == FileAt(d, j)
  {
  }

  lemma PointChange<V>(m: map<u32, V>, m': map<u32, V>, i: u32)
    requires forall j: u32 | j != i :: (j in m' <==> j in m) && (j in m ==> m'[j] == m[j])
    ensures m' == if i in m' then m[i := m'[i]] else m - {i}
  {
  }

  lemma OthersKept(d: Image, used: set<u32>, d': Image, i: u32, j: u32)
    requires Inv(d, used) && IsInum(i) && IsInum(j) && j != i && Live(d, j)
    requires OnlyInode(d, used, d', i)
    ensures OwnedSet(d', j) == OwnedSet(d, j) && FileAt(d', j) == FileAt(d, j)
    ensures GoodInode(d', InodeAt(d', j))
  {
    var ino := InodeAt(d, j);
    assert Owners(d)[j] !! Owners(d)[i] && Owners(d)[j] <= used;
    forall b | b in Owned(d, ino)
      ensures b < BLOCK_NUM && d'[b] == d[b]
    {
      assert b in Owners(d)[j] && b in DataArea();
    }
    SameBlocks(d, d', ino);
  }
}
