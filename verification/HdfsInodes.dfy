/** Block lists of HDFS files (CSE/lab/inode_manager.cc, append_block, get_block_ids, complete). */
module HdfsInodes {

  import opened Bytes
  import opened Ledger

  const BLOCK_SIZE: nat := 16384
  const BLOCK_NUM: nat := 2048
  const NDIRECT: nat := 100
  const NINDIRECT: nat := 4096
  const MAXFILE: nat := NDIRECT + NINDIRECT
  /** First block after the inode table: 3 + BLOCK_NUM/BPB + INODE_NUM/IPB. */
  const FIRST_BLOCK: nat := 3 + BLOCK_NUM / (BLOCK_SIZE * 8) + 1024

  const ZERO_WORDS: seq<u32> := seq(NINDIRECT, i => 0)
  const NO_BLOCKS: seq<u32> := seq(NDIRECT + 1, i => 0)

  /** A block as the id array of an indirect block. */
  type Words = w: seq<u32> | |w| == NINDIRECT witness ZERO_WORDS

  datatype InodeRecord = Inode(size: u32, blocks: seq<u32>)

  type Inode = n: InodeRecord | |n.blocks| == NDIRECT + 1 witness InodeRecord.Inode(0, NO_BLOCKS)

  /** Inode table and the words of every block. */
  datatype Disk = Disk(inodes: map<u32, Inode>, words: map<u32, Words>)

  predicate IsData(b: u32) {
    FIRST_BLOCK <= b < BLOCK_NUM
  }

  ghost function DataArea(): set<u32> {
    set b: u32 | 0 <= b < BLOCK_NUM && IsData(b)
  }

  /** Number of blocks `size` bytes occupy. */
  function BlocksFor(size: nat): (n: nat)
    ensures (n - 1) * BLOCK_SIZE < size <= n * BLOCK_SIZE || n == size == 0
  {
    size / BLOCK_SIZE + if size % BLOCK_SIZE > 0 then 1 else 0
  }

  function WordsAt(d: Disk, b: u32): (w: Words) {
    if b in d.words then d.words[b] else seq(NINDIRECT, i => 0)
  }

  /** What get_block_ids pushes for an inode of `n` blocks. */
  function IdsOf(blocks: seq<u32>, ind: seq<u32>, n: nat): (ids: seq<u32>)
    requires |blocks| == NDIRECT + 1 && |ind| == NINDIRECT
    ensures n <= MAXFILE ==> |ids| == n
  {
    if n <= NDIRECT then blocks[..n]
    else if n <= MAXFILE then blocks[..NDIRECT] + ind[..n - NDIRECT]
    else blocks[..NDIRECT] + ind
  }

  function OwnedOf(blocks: seq<u32>, ind: seq<u32>, n: nat): seq<u32>
    requires |blocks| == NDIRECT + 1 && |ind| == NINDIRECT
  {
    if n <= NDIRECT then blocks[..n]
    else if n <= MAXFILE then blocks + ind[..n - NDIRECT]
    else blocks + ind
  }

  function Ids(d: Disk, n: Inode): seq<u32> {
    IdsOf(n.blocks, WordsAt(d, n.blocks[NDIRECT]), BlocksFor(n.size))
  }

  function Owned(d: Disk, n: Inode): seq<u32> {
    OwnedOf(n.blocks, WordsAt(d, n.blocks[NDIRECT]), BlocksFor(n.size))
  }

  /** What get_block_ids finds; past the array of ids in memory it reads whatever is there. */
  ghost function ReadIds(d: Disk, n: Inode, beyond: nat -> u32): (ids: seq<u32>)
    ensures |ids| == BlocksFor(n.size)
  {
    Ids(d, n) + Beyond(n, beyond)
  }

  /** What remove_file releases. */
  ghost function ReadOwned(d: Disk, n: Inode, beyond: nat -> u32): seq<u32> {
    Owned(d, n) + Beyond(n, beyond)
  }

  ghost function Beyond(n: Inode, beyond: nat -> u32): seq<u32> {
    BeyondTo(if BlocksFor(n.size) <= MAXFILE then 0 else BlocksFor(n.size) - MAXFILE, beyond)
  }

  ghost function BeyondTo(k: nat, beyond: nat -> u32): (s: seq<u32>)
    ensures |s| == k
  {
    seq<u32>(k, j requires 0 <= j => beyond(j))
  }

  ghost function OwnersOn(d: Disk, own: set<u32>): map<u32, set<u32>> {
    map i | i in own && i in d.inodes :: Elems(Owned(d, d.inodes[i]))
  }

  /**
   * For the inodes in `own`: lists are duplicate-free and bounded, nobody else
   * among them lists the same block, and together they own exactly `held`.
   */
  ghost predicate Inv(d: Disk, held: set<u32>, own: set<u32>) {
    && own <= d.inodes.Keys
    && (forall i | i in own :: BlocksFor(d.inodes[i].size) <= MAXFILE && NoDup(Owned(d, d.inodes[i])))
    && Balanced(OwnersOn(d, own), held, DataArea())
  }

  /** The inode keeps ids in a block of their own. */
  predicate HasIdBlock(n: Inode, b: u32) {
    BlocksFor(n.size) > NDIRECT && n.blocks[NDIRECT] == b
  }

  /** Inodes that are the same on both disks, with the same ids in their block of ids. */
  ghost predicate SameOn(d: Disk, d': Disk, own: set<u32>) {
    forall i | i in own :: i in d.inodes && i in d'.inodes && SameInode(d, d', i)
  }

  ghost predicate SameInode(d: Disk, d': Disk, i: u32)
    requires i in d.inodes && i in d'.inodes
  {
    var n := d.inodes[i];
    && d'.inodes[i] == n
    && (BlocksFor(n.size) > NDIRECT ==> WordsAt(d', n.blocks[NDIRECT]) == WordsAt(d, n.blocks[NDIRECT]))
  }

  lemma SameLists(d: Disk, d': Disk, i: u32)
    requires i in d.inodes && i in d'.inodes && SameInode(d, d', i)
    ensures Ids(d', d'.inodes[i]) == Ids(d, d.inodes[i]) && Owned(d', d'.inodes[i]) == Owned(d, d.inodes[i])
  {
    hide BlocksFor;
  }

  /** Whatever happens elsewhere on the disk, to directories say, these lists and their blocks stay. */
  lemma SameKeepsInv(d: Disk, d': Disk, held: set<u32>, own: set<u32>)
    requires Inv(d, held, own) && SameOn(d, d', own)
    ensures Inv(d', held, own)
    ensures forall i | i in own :: Ids(d', d'.inodes[i]) == Ids(d, d.inodes[i])
  {
    hide Owned, Ids, BlocksFor, Balanced, DataArea, NoDup;
    forall i | i in own
      ensures Owned(d', d'.inodes[i]) == Owned(d, d.inodes[i]) && Ids(d', d'.inodes[i]) == Ids(d, d.inodes[i])
    {
      SameLists(d, d', i);
    }
    assert OwnersOn(d', own) == OwnersOn(d, own);
  }

  /** The blocks that some of the inodes own. */
  ghost function BlocksOf(d: Disk, some: set<u32>): set<u32> {
    set i, b | i in some && i in d.inodes && b in Elems(Owned(d, d.inodes[i])) :: b
  }

  /** Some inodes are given up with all their blocks. */
  lemma GiveUp(d: Disk, held: set<u32>, own: set<u32>, some: set<u32>)
    requires Inv(d, held, own) && some <= own
    ensures Inv(d, held - BlocksOf(d, some), own - some)
  {
    hide Owned, BlocksFor, DataArea, NoDup, Balanced;
    assert OwnersOn(d, own - some) == OwnersOn(d, own) - some;
    assert forall i | i in some :: i in OwnersOn(d, own) && OwnersOn(d, own)[i] == Elems(Owned(d, d.inodes[i]));
    LeaveAll(OwnersOn(d, own), held, DataArea(), some);
    assert BlocksOf(d, some) == OwnedBy(OwnersOn(d, own), some);
  }

  // ---------- appending one block ----------

  /** Writing the id of block number `n` into the inode or its indirect block. */
  function Appended(d: Disk, i: u32, bid: u32, ibid: u32): Disk
    requires i in d.inodes && BlocksFor(d.inodes[i].size) < MAXFILE
    requires d.inodes[i].size + BLOCK_SIZE < 0x1_0000_0000
  {
    var ino, n := d.inodes[i], BlocksFor(d.inodes[i].size);
    if n < NDIRECT then
      d.(inodes := d.inodes[i := ino.(size := ino.size + BLOCK_SIZE, blocks := ino.blocks[n := bid])])
    else
      var blocks := if n == NDIRECT then ino.blocks[NDIRECT := ibid] else ino.blocks;
      var ind := WordsAt(d, blocks[NDIRECT])[n - NDIRECT := bid];
      Disk(d.inodes[i := ino.(size := ino.size + BLOCK_SIZE, blocks := blocks)], d.words[blocks[NDIRECT] := ind])
  }

  /** Blocks that appending takes from the free pool. */
  function Taken(d: Disk, i: u32, bid: u32, ibid: u32): (s: seq<u32>)
    requires i in d.inodes
  {
    if BlocksFor(d.inodes[i].size) == NDIRECT then [ibid, bid] else [bid]
  }

  lemma BlocksForNext(size: nat)
    ensures BlocksFor(size + BLOCK_SIZE) == BlocksFor(size) + 1
  {
  }

  predicate CanAppend(d: Disk, i: u32) {
    && i in d.inodes && BlocksFor(d.inodes[i].size) < MAXFILE
    && d.inodes[i].size + BLOCK_SIZE < 0x1_0000_0000
  }

  lemma RoomToAppend(d: Disk, i: u32)
    requires i in d.inodes && BlocksFor(d.inodes[i].size) <= MAXFILE
    ensures d.inodes[i].size + BLOCK_SIZE < 0x1_0000_0000
    ensures BlocksFor(d.inodes[i].size) < MAXFILE ==> CanAppend(d, i)
  {
  }

  /** The list of the inode grows by the new id at its end, and what it owns by the blocks taken. */
  lemma AppendedIds(d: Disk, i: u32, bid: u32, ibid: u32)
    requires CanAppend(d, i)
    ensures var d' := Appended(d, i, bid, ibid);
      && Ids(d', d'.inodes[i]) == Ids(d, d.inodes[i]) + [bid]
      && d'.inodes[i].size == d.inodes[i].size + BLOCK_SIZE
      && Owned(d', d'.inodes[i]) == Owned(d, d.inodes[i]) + Taken(d, i, bid, ibid)
  {
    var n, d' := BlocksFor(d.inodes[i].size), Appended(d, i, bid, ibid);
    BlocksForNext(d.inodes[i].size);
    var ind, ind' := WordsAt(d, d.inodes[i].blocks[NDIRECT]), WordsAt(d', d'.inodes[i].blocks[NDIRECT]);
    hide BlocksFor;
    ListGrows(d.inodes[i].blocks, ind, d'.inodes[i].blocks, ind', n, bid, ibid);
  }

  /** The same of the arrays themselves. */
  lemma ListGrows(blocks: seq<u32>, ind: Words, blocks': seq<u32>, ind': Words, n: nat, bid: u32, ibid: u32)
    requires |blocks| == NDIRECT + 1 && n < MAXFILE
    requires blocks'
          == if n < NDIRECT then blocks[n := bid] else if n == NDIRECT then blocks[NDIRECT := ibid] else blocks
    requires n == NDIRECT ==> ind'[0] == bid
    requires n > NDIRECT ==> ind' == ind[n - NDIRECT := bid]
    ensures IdsOf(blocks', ind', n + 1) == IdsOf(blocks, ind, n) + [bid]
    ensures OwnedOf(blocks', ind', n + 1) == OwnedOf(blocks, ind, n) + if n == NDIRECT then [ibid, bid] else [bid]
  {
    if n < NDIRECT {
      assert blocks'[..n + 1] == blocks[..n] + [bid];
    } else if n == NDIRECT {
      assert ind'[..1] == [bid];
      assert blocks' == blocks[..NDIRECT] + [ibid];
    } else {
      assert ind'[..n + 1 - NDIRECT] == ind[..n - NDIRECT] + [bid];
    }
  }

  /** Another inode's lists are read from blocks it owns, which the append does not write. */
  lemma AppendedOthers(d: Disk, i: u32, bid: u32, ibid: u32, j: u32)
    requires CanAppend(d, i) && j in d.inodes && j != i && BlocksFor(d.inodes[j].size) <= MAXFILE
    requires Elems(Owned(d, d.inodes[j])) !! Elems(Owned(d, d.inodes[i])) + {bid, ibid}
    ensures var d' := Appended(d, i, bid, ibid);
      && j in d'.inodes && d'.inodes[j] == d.inodes[j]
      && Ids(d', d.inodes[j]) == Ids(d, d.inodes[j]) && Owned(d', d.inodes[j]) == Owned(d, d.inodes[j])
  {
    var n, m := BlocksFor(d.inodes[j].size), BlocksFor(d.inodes[i].size);
    if n > NDIRECT {
      assert Owned(d, d.inodes[j])[NDIRECT] in Elems(Owned(d, d.inodes[j]));
    }
    if m > NDIRECT {
      assert Owned(d, d.inodes[i])[NDIRECT] in Elems(Owned(d, d.inodes[i]));
    }
  }

  /** Appending a block made of free blocks keeps every list intact and the ledger balanced. */
  lemma AppendKeepsInv(d: Disk, held: set<u32>, own: set<u32>, i: u32, bid: u32, ibid: u32)
    requires Inv(d, held, own) && CanAppend(d, i) && i in own
    requires NoDup(Taken(d, i, bid, ibid)) && Elems(Taken(d, i, bid, ibid)) <= DataArea() - held
    requires BlocksFor(d.inodes[i].size) != NDIRECT ==> ibid == bid
    ensures Inv(Appended(d, i, bid, ibid), held + Elems(Taken(d, i, bid, ibid)), own)
    ensures forall j | j in own && j != i ::
              Ids(Appended(d, i, bid, ibid), d.inodes[j]) == Ids(d, d.inodes[j])
  {
    var d', taken := Appended(d, i, bid, ibid), Taken(d, i, bid, ibid);
    AppendedIds(d, i, bid, ibid);
    AppendedInodes(d, i, bid, ibid);
    BlocksForNext(d.inodes[i].size);
    TakenElems(d, i, bid, ibid);
    hide Owned, Ids, Appended, Taken, DataArea, BlocksFor, NoDup, Balanced;
    forall j | j in own && j != i
      ensures Ids(d', d.inodes[j]) == Ids(d, d.inodes[j]) && Owned(d', d.inodes[j]) == Owned(d, d.inodes[j])
    {
      AppendFrame(d, held, own, i, bid, ibid, j);
    }
    AppendLedger(d, held, own, d', i, taken);
  }

  lemma TakenElems(d: Disk, i: u32, bid: u32, ibid: u32)
    requires i in d.inodes && (BlocksFor(d.inodes[i].size) != NDIRECT ==> ibid == bid)
    ensures Elems(Taken(d, i, bid, ibid)) == {bid, ibid}
  {
  }

  lemma OwnedIn(d: Disk, held: set<u32>, own: set<u32>, j: u32)
    requires Inv(d, held, own) && j in own
    ensures j in d.inodes && Elems(Owned(d, d.inodes[j])) <= held <= DataArea()
  {
    assert j in OwnersOn(d, own);
  }

  lemma OwnedApart(d: Disk, held: set<u32>, own: set<u32>, i: u32, j: u32)
    requires Inv(d, held, own) && i in own && j in own && i != j
    ensures Elems(Owned(d, d.inodes[i])) !! Elems(Owned(d, d.inodes[j]))
  {
    assert OwnersOn(d, own)[i] !! OwnersOn(d, own)[j];
  }

  lemma AppendFrame(d: Disk, held: set<u32>, own: set<u32>, i: u32, bid: u32, ibid: u32, j: u32)
    requires Inv(d, held, own) && CanAppend(d, i) && {bid, ibid} <= DataArea() - held
    requires i in own && j in own && j != i
    ensures var d' := Appended(d, i, bid, ibid);
      && Ids(d', d.inodes[j]) == Ids(d, d.inodes[j]) && Owned(d', d.inodes[j]) == Owned(d, d.inodes[j])
  {
    OwnedIn(d, held, own, j);
    OwnedApart(d, held, own, i, j);
    hide Owned, Ids, Balanced;
    AppendedOthers(d, i, bid, ibid, j);
  }

  /** What an append does to the lists of the inodes in `own`. */
  ghost predicate ListsAppended(d: Disk, d': Disk, own: set<u32>, i: u32, taken: seq<u32>)
    requires i in own && own <= d.inodes.Keys
  {
    && d'.inodes.Keys == d.inodes.Keys
    && Owned(d', d'.inodes[i]) == Owned(d, d.inodes[i]) + taken
    && BlocksFor(d'.inodes[i].size) == BlocksFor(d.inodes[i].size) + 1
    && forall j | j in own && j != i ::
         d'.inodes[j] == d.inodes[j] && Owned(d', d.inodes[j]) == Owned(d, d.inodes[j])
  }

  lemma AppendLedger(d: Disk, held: set<u32>, own: set<u32>, d': Disk, i: u32, taken: seq<u32>)
    requires Inv(d, held, own) && i in own && BlocksFor(d.inodes[i].size) < MAXFILE
    requires ListsAppended(d, d', own, i, taken) && NoDup(taken) && Elems(taken) <= DataArea() - held
    ensures Inv(d', held + Elems(taken), own)
  {
    OwnedIn(d, held, own, i);
    hide Owned, Balanced, DataArea, NoDup, BlocksFor;
    NoDupConcat(Owned(d, d.inodes[i]), taken);
    OwnersAppended(d, d', own, i, taken);
    Extend(OwnersOn(d, own), held, DataArea(), i, Elems(taken));
  }

  lemma OwnersAppended(d: Disk, d': Disk, own: set<u32>, i: u32, taken: seq<u32>)
    requires i in own && own <= d.inodes.Keys && ListsAppended(d, d', own, i, taken)
    ensures i in OwnersOn(d, own)
    ensures OwnersOn(d', own) == OwnersOn(d, own)[i := OwnersOn(d, own)[i] + Elems(taken)]
  {
    hide Owned, BlocksFor;
    assert Elems(Owned(d, d.inodes[i]) + taken) == Elems(Owned(d, d.inodes[i])) + Elems(taken);
  }

  lemma AppendedInodes(d: Disk, i: u32, bid: u32, ibid: u32)
    requires CanAppend(d, i)
    ensures var d' := Appended(d, i, bid, ibid);
      d'.inodes.Keys == d.inodes.Keys && forall j | j in d.inodes && j != i :: d'.inodes[j] == d.inodes[j]
  {
  }

  /** The disk has far fewer blocks than a file may list, so append_block never meets its size limit on these files. */
  lemma NeverTooLarge(d: Disk, held: set<u32>, own: set<u32>, i: u32)
    requires Inv(d, held, own) && i in own
    ensures i in d.inodes && BlocksFor(d.inodes[i].size) <= BLOCK_NUM - FIRST_BLOCK < MAXFILE
    ensures CanAppend(d, i)
  {
    OwnedIn(d, held, own, i);
    var o := Owned(d, d.inodes[i]);
    forall k | 0 <= k < |o|
      ensures FIRST_BLOCK <= o[k] < BLOCK_NUM
    {
      assert o[k] in Elems(o) && o[k] in DataArea();
    }
    DistinctBetween(o, FIRST_BLOCK, BLOCK_NUM);
  }

  /** Files of `own` that have their ids in the block that an append to `i` writes. */
  ghost function Sharers(d: Disk, own: set<u32>, i: u32): set<u32>
    requires i in d.inodes
  {
    set j | j in own && j != i && j in d.inodes && NDIRECT < BlocksFor(d.inodes[i].size) < MAXFILE
            && HasIdBlock(d.inodes[j], d.inodes[i].blocks[NDIRECT])
  }

  /** The block of ids of a file of `own` is one that is held. */
  lemma IdBlockHeld(d: Disk, held: set<u32>, own: set<u32>, j: u32, b: u32)
    requires Inv(d, held, own) && j in own && HasIdBlock(d.inodes[j], b)
    ensures b in Elems(Owned(d, d.inodes[j])) && b in held
  {
    OwnedIn(d, held, own, j);
    assert Owned(d, d.inodes[j])[NDIRECT] == b;
  }

  /** A file of `own` shares its block of ids with nobody else there. */
  lemma NoSharers(d: Disk, held: set<u32>, own: set<u32>, i: u32)
    requires Inv(d, held, own) && i in own
    ensures Sharers(d, own, i) == {}
  {
    forall j | j in own && j != i
      ensures j !in Sharers(d, own, i)
    {
      OwnedApart(d, held, own, i, j);
      if j in Sharers(d, own, i) {
        IdBlockHeld(d, held, own, i, d.inodes[i].blocks[NDIRECT]);
        IdBlockHeld(d, held, own, j, d.inodes[i].blocks[NDIRECT]);
      }
    }
  }

  /** Appending to a file outside `own` leaves those alone that do not share its block of ids. */
  lemma AppendOutside(d: Disk, held: set<u32>, own: set<u32>, i: u32, bid: u32, ibid: u32)
    requires Inv(d, held, own) && CanAppend(d, i) && i !in own && ibid !in held
    ensures SameOn(d, Appended(d, i, bid, ibid), own - Sharers(d, own, i))
  {
    var d' := Appended(d, i, bid, ibid);
    forall j | j in own - Sharers(d, own, i)
      ensures j in d.inodes && j in d'.inodes && SameInode(d, d', j)
    {
      if BlocksFor(d.inodes[j].size) > NDIRECT {
        IdBlockHeld(d, held, own, j, d.inodes[j].blocks[NDIRECT]);
      }
    }
  }

  // ---------- completing a file ----------

  function Completed(d: Disk, i: u32, size: u32): Disk
    requires i in d.inodes
  {
    d.(inodes := d.inodes[i := d.inodes[i].(size := size)])
  }

  /** The size PBComplete computes, in 32-bit arithmetic. */
  function FinalSize(pending: u32, last: nat): u32 {
    (pending - BLOCK_SIZE + last) % 0x1_0000_0000
  }

  /** Whether the last length reported for a file of `k` blocks is one the protocol allows (taken as 32 bits). */
  predicate LastFits(k: nat, last: nat) {
    if k == 0 then last % 0x1_0000_0000 == BLOCK_SIZE else 1 <= last % 0x1_0000_0000 <= BLOCK_SIZE
  }

  /** The block count survives exactly when the last length fits. */
  lemma FinalBlocks(k: nat, last: nat)
    requires k <= MAXFILE
    ensures BlocksFor(FinalSize(k * BLOCK_SIZE, last)) == k <==> LastFits(k, last)
    ensures k > 0 && LastFits(k, last) ==>
              FinalSize(k * BLOCK_SIZE, last) == (k - 1) * BLOCK_SIZE + last % 0x1_0000_0000
  {
    var m := last % 0x1_0000_0000;
    var s := (k - 1) * BLOCK_SIZE;
    if k > 0 {
      assert (s + last) % 0x1_0000_0000 == if s + m < 0x1_0000_0000 then s + m else s + m - 0x1_0000_0000;
    } else {
      assert (s + last) % 0x1_0000_0000 == if s + m >= 0 then s + m else s + m + 0x1_0000_0000;
    }
  }

  /** get_block_ids after completion lists exactly the appended blocks if and only if the last length fits. */
  lemma CompleteExact(d: Disk, i: u32, k: nat, last: nat, beyond: nat -> u32)
    requires i in d.inodes && d.inodes[i].size == k * BLOCK_SIZE && k < MAXFILE
    ensures var d' := Completed(d, i, FinalSize(k * BLOCK_SIZE, last));
      ReadIds(d', d'.inodes[i], beyond) == Ids(d, d.inodes[i]) <==> LastFits(k, last)
  {
    FinalBlocks(k, last);
    assert BlocksFor(d.inodes[i].size) == k;
  }

  /** A last length of 0 reported after one block loses that block from the list. */
  lemma ZeroLast(d: Disk, i: u32)
    requires i in d.inodes && d.inodes[i].size == BLOCK_SIZE
    ensures var d' := Completed(d, i, FinalSize(BLOCK_SIZE, 0));
      |Ids(d, d.inodes[i])| == 1 && Ids(d', d'.inodes[i]) == []
  {
    assert FinalSize(BLOCK_SIZE, 0) == 0 && BlocksFor(0) == 0 && BlocksFor(BLOCK_SIZE) == 1;
  }

  /** With fewer blocks a file owns fewer of the same, in order. */
  lemma OwnedPrefix(d: Disk, d': Disk, n: Inode, size: u32)
    requires d'.words == d.words && BlocksFor(size) <= BlocksFor(n.size) <= MAXFILE
    ensures Owned(d', n.(size := size)) <= Owned(d, n)
    ensures BlocksFor(size) == BlocksFor(n.size) ==>
              Owned(d', n.(size := size)) == Owned(d, n) && Ids(d', n.(size := size)) == Ids(d, n)
  {
    hide BlocksFor;
  }

  /** A file completed with no more blocks than it has keeps those left to itself; the rest belong to nobody. */
  lemma ShorterKeepsInv(d: Disk, held: set<u32>, own: set<u32>, i: u32, size: u32)
    requires Inv(d, held, own) && i in own && BlocksFor(size) <= BlocksFor(d.inodes[i].size)
    ensures var d' := Completed(d, i, size);
      Inv(d', held - Elems(Owned(d, d.inodes[i])) + Elems(Owned(d', d'.inodes[i])), own)
  {
    var d' := Completed(d, i, size);
    var all, mine := Owned(d, d.inodes[i]), Owned(d', d'.inodes[i]);
    OwnedIn(d, held, own, i);
    OwnedPrefix(d, d', d.inodes[i], size);
    assert all == mine + all[|mine|..];
    NoDupSplit(mine, all[|mine|..]);
    assert OwnersOn(d, own)[i] == Elems(all);
    ShorterOwners(d, own, i, size);
    CompletedOthers(d, i, size);
    hide Owned, Completed, BlocksFor, Balanced, NoDup, DataArea, OwnersOn;
    Exchange(OwnersOn(d, own), held, DataArea(), i, Elems(mine));
  }

  lemma ShorterOwners(d: Disk, own: set<u32>, i: u32, size: u32)
    requires i in own && own <= d.inodes.Keys
    ensures var d' := Completed(d, i, size);
      OwnersOn(d', own) == OwnersOn(d, own)[i := Elems(Owned(d', d'.inodes[i]))] && i in OwnersOn(d, own)
  {
    CompletedOthers(d, i, size);
    hide Owned;
  }

  lemma CompletedOthers(d: Disk, i: u32, size: u32)
    requires i in d.inodes
    ensures var d' := Completed(d, i, size);
      && d'.words == d.words && d'.inodes.Keys == d.inodes.Keys
      && forall j | j in d.inodes && j != i ::
           && d'.inodes[j] == d.inodes[j] && SameInode(d, d', j)
           && Owned(d', d'.inodes[j]) == Owned(d, d.inodes[j]) && Ids(d', d'.inodes[j]) == Ids(d, d.inodes[j])
  {
    hide OwnedOf, IdsOf, BlocksFor;
  }

  /** Any size at all leaves the other files alone. */
  lemma CompletedKeepsOthers(d: Disk, held: set<u32>, own: set<u32>, i: u32, size: u32)
    requires Inv(d, held, own) && i in d.inodes
    ensures var d' := Completed(d, i, size);
      i in own ==> Inv(d', held - Elems(Owned(d, d.inodes[i])), own - {i})
    ensures i !in own ==> Inv(Completed(d, i, size), held, own)
  {
    var d' := Completed(d, i, size);
    CompletedOthers(d, i, size);
    if i in own {
      GiveUp(d, held, own, {i});
      assert BlocksOf(d, {i}) == Elems(Owned(d, d.inodes[i]));
    }
    hide Owned, Ids, Completed, BlocksFor, Inv, BlocksOf;
    if i in own {
      SameKeepsInv(d, d', held - Elems(Owned(d, d.inodes[i])), own - {i});
    } else {
      InvLive(d, held, own);
      SameKeepsInv(d, d', held, own);
    }
  }

  lemma InvLive(d: Disk, held: set<u32>, own: set<u32>)
    requires Inv(d, held, own)
    ensures own <= d.inodes.Keys
  {
  }

  // ---------- removing a file ----------

  function Removed(d: Disk, i: u32): Disk {
    d.(inodes := d.inodes - {i})
  }

  /** The other files of `own` that have one of these blocks. */
  ghost function Hit(d: Disk, own: set<u32>, i: u32, freed: set<u32>): set<u32> {
    set j | j in own && j != i && j in d.inodes && Elems(Owned(d, d.inodes[j])) * freed != {}
  }

  /** A file of `own` takes nobody else's blocks with it. */
  lemma OwnHitsNobody(d: Disk, held: set<u32>, own: set<u32>, i: u32, beyond: nat -> u32)
    requires Inv(d, held, own) && i in own
    ensures ReadOwned(d, d.inodes[i], beyond) == Owned(d, d.inodes[i])
    ensures Hit(d, own, i, Elems(ReadOwned(d, d.inodes[i], beyond))) == {}
  {
    if j :| j in Hit(d, own, i, Elems(ReadOwned(d, d.inodes[i], beyond))) {
      OwnedApart(d, held, own, i, j);
      assert false;
    }
  }

  /** Those that are not hit keep their blocks and their lists. */
  lemma RemovedKeepsInv(d: Disk, held: set<u32>, own: set<u32>, i: u32, freed: set<u32>)
    requires Inv(d, held, own)
    ensures var gone := own * {i} + Hit(d, own, i, freed);
      && Inv(Removed(d, i), held - BlocksOf(d, gone), own - gone)
      && (held - BlocksOf(d, gone)) !! (freed - BlocksOf(d, gone))
  {
    var gone := own * {i} + Hit(d, own, i, freed);
    GiveUp(d, held, own, gone);
    hide Owned, BlocksFor, NoDup, DataArea;
    SameKeepsInv(d, Removed(d, i), held - BlocksOf(d, gone), own - gone);
    forall b | b in held && b in freed
      ensures b in BlocksOf(d, gone)
    {
      var j :| j in OwnersOn(d, own) && b in OwnersOn(d, own)[j];
      assert b in Elems(Owned(d, d.inodes[j])) * freed;
      assert j in gone;
    }
  }

  /** Releasing blocks with an inode leaves all others of `own` intact exactly when none of them has one of these. */
  lemma RemoveExact(d: Disk, used: set<u32>, held: set<u32>, own: set<u32>, i: u32, freed: set<u32>)
    requires Inv(d, held, own) && held <= used <= DataArea()
    ensures Intact(Removed(d, i), used - freed, own - {i}) <==> Hit(d, own, i, freed) == {}
  {
    var d' := Removed(d, i);
    forall j | j in own - {i}
      ensures j in d.inodes && j in d'.inodes && Owned(d', d'.inodes[j]) == Owned(d, d.inodes[j])
      ensures Elems(Owned(d, d.inodes[j])) <= used
    {
      OwnedIn(d, held, own, j);
      SameLists(d, d', j);
    }
    hide Owned, BlocksFor, NoDup, DataArea, Balanced;
    if Hit(d, own, i, freed) != {} {
      var j :| j in Hit(d, own, i, freed);
      var b :| b in Elems(Owned(d, d.inodes[j])) * freed;
      assert j in own - {i} && b in Elems(Owned(d', d'.inodes[j])) && b !in used - freed;
    } else {
      forall j | j in own - {i}
        ensures Elems(Owned(d', d'.inodes[j])) <= used - freed
      {
        assert j !in Hit(d, own, i, freed);
        assert Elems(Owned(d, d.inodes[j])) * freed == {};
        assert forall b | b in Elems(Owned(d, d.inodes[j])) :: b !in Elems(Owned(d, d.inodes[j])) * freed;
      }
    }
  }

  /** Every block these files own is marked used, so that nobody else is given it. */
  ghost predicate Intact(d: Disk, used: set<u32>, own: set<u32>) {
    forall j | j in own :: j in d.inodes && Elems(Owned(d, d.inodes[j])) <= used
  }

  /**
   * The blocks that a file completed with more blocks than it was given lists
   * besides its own: the ids were never handed out for it.
   */
  ghost function Surplus(d: Disk, n: Inode, size: u32, beyond: nat -> u32): seq<u32>
    requires BlocksFor(n.size) <= BlocksFor(size) && BlocksFor(n.size) <= MAXFILE
  {
    OwnedGrows(d, n, size, beyond);
    ReadOwned(d, n.(size := size), beyond)[|Owned(d, n)|..]
  }

  lemma OwnedGrows(d: Disk, n: Inode, size: u32, beyond: nat -> u32)
    requires BlocksFor(n.size) <= BlocksFor(size) && BlocksFor(n.size) <= MAXFILE
    ensures Owned(d, n) <= ReadOwned(d, n.(size := size), beyond)
  {
    hide BlocksFor;
  }

  /**
   * When such a file is removed, the others stay intact exactly when none of
   * them has a block of the surplus.
   */
  lemma SurplusExact(d: Disk, used: set<u32>, held: set<u32>, own: set<u32>, i: u32, size: u32, beyond: nat -> u32)
    requires Inv(d, held, own) && held <= used <= DataArea() && i in own
    requires BlocksFor(d.inodes[i].size) <= BlocksFor(size)
    ensures BlocksFor(d.inodes[i].size) <= MAXFILE
    ensures var d' := Completed(d, i, size); var freed := Elems(ReadOwned(d', d'.inodes[i], beyond));
      Intact(Removed(d', i), used - freed, own - {i}) <==>
        Hit(d, own, i, Elems(Surplus(d, d.inodes[i], size, beyond))) == {}
  {
    var d', n := Completed(d, i, size), d.inodes[i];
    var all, extra := ReadOwned(d', d'.inodes[i], beyond), Surplus(d, n, size, beyond);
    OwnedGrows(d, n, size, beyond);
    SameWords(d, d', n.(size := size));
    assert all == Owned(d, n) + extra;
    assert Elems(all) == Elems(Owned(d, n)) + Elems(extra);
    CompletedOthers(d, i, size);
    CompletedKeepsOthers(d, held, own, i, size);
    InvLive(d, held, own);
    SameHits(d, d', held, own, i, Elems(all), Elems(extra));
    hide Owned, BlocksFor, NoDup, DataArea, Balanced, ReadOwned, Surplus, Completed, Intact, Removed, Inv, Hit;
    RemoveExact(d', used, held - Elems(Owned(d, n)), own - {i}, i, Elems(all));
    assert own - {i} - {i} == own - {i};
  }

  /** A file's own blocks are nobody else's, so only the surplus can hit. */
  lemma SameHits(d: Disk, d': Disk, held: set<u32>, own: set<u32>, i: u32, all: set<u32>, extra: set<u32>)
    requires Inv(d, held, own) && i in own && all == Elems(Owned(d, d.inodes[i])) + extra
    requires d'.inodes.Keys == d.inodes.Keys
    requires forall j | j in d.inodes && j != i :: Owned(d', d'.inodes[j]) == Owned(d, d.inodes[j])
    ensures Hit(d', own - {i}, i, all) == Hit(d, own, i, extra)
  {
    forall j | j in own && j != i
      ensures Elems(Owned(d, d.inodes[j])) !! Elems(Owned(d, d.inodes[i])) && j in d'.inodes
      ensures Elems(Owned(d', d'.inodes[j])) == Elems(Owned(d, d.inodes[j]))
      ensures Elems(Owned(d, d.inodes[j])) * all == Elems(Owned(d, d.inodes[j])) * extra
    {
      OwnedApart(d, held, own, i, j);
    }
    hide Owned, BlocksFor, NoDup, DataArea, Balanced;
  }

  /**
   * Completing a file with any size and then removing it leaves the other
   * files intact exactly when it is completed with no more blocks than it has,
   * or the surplus ids, which were never handed out for it, hit none of them.
   */
  lemma MisfitRemoval(d: Disk, used: set<u32>, held: set<u32>, own: set<u32>, i: u32, size: u32, beyond: nat -> u32)
    requires Inv(d, held, own) && held <= used <= DataArea() && i in own
    ensures BlocksFor(d.inodes[i].size) <= MAXFILE
    ensures var d', n := Completed(d, i, size), d.inodes[i]; var freed := Elems(ReadOwned(d', d'.inodes[i], beyond));
      Intact(Removed(d', i), used - freed, own - {i}) <==>
        (BlocksFor(size) > BlocksFor(n.size) ==> Hit(d, own, i, Elems(Surplus(d, n, size, beyond))) == {})
  {
    if BlocksFor(size) > BlocksFor(d.inodes[i].size) {
      SurplusExact(d, used, held, own, i, size, beyond);
    } else {
      var d' := Completed(d, i, size);
      var held' := held - Elems(Owned(d, d.inodes[i])) + Elems(Owned(d', d'.inodes[i]));
      ShorterKeepsInv(d, held, own, i, size);
      OwnHitsNobody(d', held', own, i, beyond);
      OwnedPrefix(d, d', d.inodes[i], size);
      OwnedIn(d, held, own, i);
      assert Elems(Owned(d', d'.inodes[i])) <= Elems(Owned(d, d.inodes[i])) by {
        var mine, all := Owned(d', d'.inodes[i]), Owned(d, d.inodes[i]);
        assert forall k | 0 <= k < |mine| :: mine[k] == all[k];
      }
      hide Inv, Owned, ReadOwned, Intact, Hit, BlocksFor, DataArea, Completed, Removed;
      RemoveExact(d', used, held', own, i, Elems(ReadOwned(d', d'.inodes[i], beyond)));
    }
  }

  lemma SameWords(d: Disk, d': Disk, n: Inode)
    requires d'.words == d.words
    ensures Ids(d', n) == Ids(d, n) && Owned(d', n) == Owned(d, n)
  {
    hide IdsOf, OwnedOf, BlocksFor;
  }

  // ---------- the locations of a file ----------

  datatype LocatedBlock = LocatedBlock(block_id: u32, offset: nat, size: int)

  /** Consecutive ranges that cover [0, size) without gap or overlap. */
  ghost predicate Tiles(bs: seq<LocatedBlock>, size: nat) {
    && (bs == [] <==> size == 0)
    && (forall k: nat | k < |bs| :: bs[k].size > 0)
    && (bs != [] ==> bs[0].offset == 0 && bs[|bs| - 1].offset + bs[|bs| - 1].size == size)
    && (forall k: nat | k + 1 < |bs| :: bs[k + 1].offset == bs[k].offset + bs[k].size)
  }

  /** The list GetBlockLocations builds from the ids and the size. */
  function Located(ids: seq<u32>, size: nat): seq<LocatedBlock> {
    seq(|ids|, k requires 0 <= k < |ids| =>
      LocatedBlock(ids[k], k * BLOCK_SIZE, if k == |ids| - 1 then size - k * BLOCK_SIZE else BLOCK_SIZE))
  }

  /** The list tiles the file exactly when there are as many ids as blocks. */
  lemma LocatedTiles(ids: seq<u32>, size: nat)
    ensures Tiles(Located(ids, size), size) && (forall k | 0 <= k < |ids| :: Located(ids, size)[k].size <= BLOCK_SIZE)
        <==> |ids| == BlocksFor(size)
  {
    var n, bs := |ids|, Located(ids, size);
    if n > 0 {
      assert bs[n - 1].size == size - (n - 1) * BLOCK_SIZE;
    }
  }

  /** Every entry but the last is a whole block. */
  ghost predicate WholeButLast(bs: seq<LocatedBlock>) {
    forall k: nat | k + 1 < |bs| :: bs[k].size == BLOCK_SIZE
  }

  /** Entries for the ids in their order. */
  ghost predicate InOrder(bs: seq<LocatedBlock>, ids: seq<u32>) {
    |bs| == |ids| && forall k | 0 <= k < |bs| :: bs[k].block_id == ids[k]
  }

  lemma LocatedShape(ids: seq<u32>, size: nat)
    ensures InOrder(Located(ids, size), ids) && WholeButLast(Located(ids, size))
    ensures forall k: nat | k < |ids| :: Located(ids, size)[k].offset == k * BLOCK_SIZE
  {
  }

  /** Where the entries of whole blocks begin. */
  lemma {:induction false} StartsAt(bs: seq<LocatedBlock>, size: nat, k: nat)
    requires Tiles(bs, size) && WholeButLast(bs) && k < |bs|
    ensures bs[k].offset == k * BLOCK_SIZE
  {
    if k > 0 {
      StartsAt(bs, size, k - 1);
      assert bs[k - 1].size == BLOCK_SIZE && bs[k - 1 + 1].offset == bs[k - 1].offset + bs[k - 1].size;
    }
  }

  /** Whole blocks first, in the order of the ids, tiling the file: there is one such list. */
  lemma LocatedUnique(ids: seq<u32>, size: nat, bs: seq<LocatedBlock>)
    requires Tiles(bs, size) && WholeButLast(bs) && InOrder(bs, ids)
    ensures bs == Located(ids, size)
  {
    forall k: nat | k < |bs|
      ensures bs[k] == Located(ids, size)[k]
    {
      StartsAt(bs, size, k);
    }
  }
}
