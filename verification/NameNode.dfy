/** The write life cycle of an HDFS file (CSE/lab/namenode.cc, namenode_base.cc over inode_manager.cc). */
module NameNodes {

  import opened Bytes
  import opened HdfsInodes
  import opened Wrappers
  import Ledger

  datatype Outcome<+T> = Ok(value: T) | Throws(what: string)

  /** Inode table, block contents and block bitmap. */
  class InodeManager {
    var inodes: map<u32, Inode>
    var words: map<u32, Words>
    var using_blocks: map<u32, int>
    /** Files whose blocks are theirs alone. */
    ghost var own: set<u32>
    /** Used blocks that belong to none of them: those of directories, and those left behind by other files. */
    ghost var others: set<u32>

    constructor ()
      ensures Valid() && inodes == map[] && Used() == {} && own == {} && others == {}
    {
      inodes, words, using_blocks, own, others := map[], map[], map[], {}, {};
    }

    ghost function Image(): HdfsInodes.Disk
      reads this
    {
      HdfsInodes.Disk(inodes, words)
    }

    ghost function Used(): set<u32>
      reads this
    {
      set b | b in using_blocks && using_blocks[b] != 0 && IsData(b)
    }

    ghost predicate Valid()
      reads this
    {
      others <= Used() && Inv(Image(), Used() - others, own)
    }

    ghost function FreeBlocks(): nat
      reads this
    {
      |DataArea() - Used()|
    }

    /** Lowest free block, 0 when there is none. */
    method AllocBlock() returns (id: u32)
      modifies this`using_blocks
      ensures Used() == old(Used()) + (if id == 0 then {} else {id})
      ensures id == 0 <==> old(Used()) == DataArea()
      ensures id != 0 ==> IsLowest(id, DataArea() - old(Used()))
    {
      var i: nat := FIRST_BLOCK;
      while i < BLOCK_NUM
        invariant FIRST_BLOCK <= i <= BLOCK_NUM
        invariant unchanged(this)
        invariant forall b: u32 :: FIRST_BLOCK <= b < i ==> b in Used()
      {
        if i !in using_blocks || using_blocks[i] == 0 {
          using_blocks := using_blocks[i := 1];
          return i;
        }
        i := i + 1;
      }
      id := 0;
    }

    /**
     * Allocates a block and appends its id; past the limit the block is only
     * allocated. NeverTooLarge shows that no file of `own` gets there.
     */
    method AppendBlock(inum: u32) returns (bid: u32)
      requires Valid() && inum in inodes
      requires BlocksNeeded(Image(), inum) <= FreeBlocks()
      modifies this
      ensures Valid() && IsLowest(bid, DataArea() - old(Used()))
      ensures own == old(own) - Sharers(old(Image()), old(own), inum)
      ensures inum in old(own) ==> own == old(own) && others == old(others)
      ensures Grew(old(Image()), Image(), own, inum, bid)
      ensures BlocksNeeded(old(Image()), inum) == 1 ==> Used() == old(Used()) + {bid}
    {
      hide Inv, Ids, DataArea, Owned, Grew, BlocksFor, IdsOf, OwnedOf, Sharers, IsLowest, Appends;
      ghost var d, used, held := Image(), Used(), Used() - others;
      HeldIn(d, held, own);
      OneFree(used);
      bid := AllocBlock();
      IsFree(bid, used);
      if BlocksNeeded(d, inum) == 2 {
        TwoFree(used, bid);
      }
      StoreId(inum, bid, used, held);
      Account(d, used, held, inum, bid);
    }

    /** Puts the new id where it belongs. */
    method StoreId(inum: u32, bid: u32, ghost used: set<u32>, ghost held: set<u32>)
      requires inum in inodes && Inv(Image(), held, own) && held <= used
      requires bid in DataArea() && bid !in used && Used() == used + {bid}
      requires BlocksNeeded(Image(), inum) == 2 ==> Used() != DataArea()
      modifies this`inodes, this`words, this`using_blocks
      ensures Appends(old(Image()), Image(), held, own, inum, bid, Used() - used) && old(Used()) <= Used()
      ensures BlocksNeeded(old(Image()), inum) == 1 ==> Used() == old(Used())
    {
      hide Inv, Ids, DataArea, Owned, BlocksFor, IdsOf, OwnedOf, IsLowest, Appended, Appends;
      ghost var d := Image();
      assert used + {bid} - used == {bid};
      var blockNum := BlocksFor(inodes[inum].size);
      if blockNum > MAXFILE {
        AppendNothing(d, held, own, inum, bid);
      } else if blockNum < NDIRECT {
        AppendOne(d, held, own, inum, bid);
        StoreDirect(inum, blockNum, bid);
      } else if NDIRECT == blockNum {
        var ibid := AllocBlock();
        IsFree(ibid, used + {bid});
        assert used + {bid} + {ibid} - used == {bid, ibid};
        AppendTwo(d, held, own, inum, bid, ibid);
        StoreIndirect(inum, inodes[inum].blocks[NDIRECT := ibid], blockNum, bid);
      } else if blockNum < MAXFILE {
        AppendOne(d, held, own, inum, bid);
        StoreIndirect(inum, inodes[inum].blocks, blockNum, bid);
      } else {
        AppendOver(d, held, own, inum, bid);
        StoreOver(inum);
      }
    }

    /** The books after an append. */
    ghost method Account(d: HdfsInodes.Disk, used: set<u32>, held: set<u32>, inum: u32, bid: u32)
      requires inum in d.inodes && used <= Used() && others <= used && held == used - others && Inv(d, held, own)
      requires Appends(d, Image(), held, own, inum, bid, Used() - used)
      modifies this`own, this`others
      ensures Valid() && own == old(own) - Sharers(d, old(own), inum) && Grew(d, Image(), own, inum, bid)
      ensures inum in old(own) ==> own == old(own) && others == old(others)
    {
      AppendsGives(d, Image(), held, own, inum, bid, Used() - used);
      HeldSplit(d, used, held, own, inum, Used());
      hide Inv, Grew, Sharers, HeldAfter, Appends;
      others := Used() - HeldAfter(d, held, own, inum, Used() - used);
      own := own - Sharers(d, own, inum);
    }

    /** The id goes past the end of the array of ids; on the disk only the size changes. */
    method StoreOver(inum: u32)
      requires inum in inodes && BlocksFor(inodes[inum].size) == MAXFILE
      modifies this`inodes
      ensures Image() == Oversized(old(Image()), inum)
    {
      RoomToAppend(Image(), inum);
      var ino: Inode := inodes[inum];
      inodes := inodes[inum := ino.(size := ino.size + BLOCK_SIZE)];
    }

    method StoreDirect(inum: u32, blockNum: nat, bid: u32)
      requires inum in inodes && CanAppend(Image(), inum) && blockNum == BlocksFor(inodes[inum].size) < NDIRECT
      modifies this`inodes
      ensures Image() == Appended(old(Image()), inum, bid, bid)
    {
      var ino: Inode := inodes[inum];
      inodes := inodes[inum := ino.(size := ino.size + BLOCK_SIZE, blocks := ino.blocks[blockNum := bid])];
    }

    /** Puts the id in the indirect block named by `blocks`, and the block list in the inode. */
    method StoreIndirect(inum: u32, blocks: seq<u32>, blockNum: nat, bid: u32)
      requires inum in inodes && CanAppend(Image(), inum) && |blocks| == NDIRECT + 1
      requires NDIRECT <= blockNum == BlocksFor(inodes[inum].size)
      requires blocks ==
               if blockNum == NDIRECT then inodes[inum].blocks[NDIRECT := blocks[NDIRECT]] else inodes[inum].blocks
      modifies this`inodes, this`words
      ensures Image() == Appended(old(Image()), inum, bid, if blockNum == NDIRECT then blocks[NDIRECT] else bid)
    {
      hide BlocksFor;
      var ind: Words := if blocks[NDIRECT] in words then words[blocks[NDIRECT]] else seq(NINDIRECT, i => 0);
      words := words[blocks[NDIRECT] := ind[blockNum - NDIRECT := bid]];
      var ino: Inode := inodes[inum];
      inodes := inodes[inum := ino.(size := ino.size + BLOCK_SIZE, blocks := blocks)];
    }

    /** The ids of all data blocks, pushed in order; nothing for a missing inode. */
    method GetBlockIds(inum: u32, beyond: nat -> u32) returns (block_ids: seq<u32>)
      ensures block_ids == if inum in inodes then ReadIds(Image(), inodes[inum], beyond) else []
    {
      block_ids := [];
      if inum !in inodes {
        return;
      }
      var ino: Inode := inodes[inum];
      ReadParts(Image(), ino, beyond);
      hide ReadIds, BlocksFor, BeyondTo;
      var blockNum := BlocksFor(ino.size);
      if blockNum <= NDIRECT {
        block_ids := PushAll([], ino.blocks, blockNum);
      } else {
        var ind: Words := if ino.blocks[NDIRECT] in words then words[ino.blocks[NDIRECT]] else seq(NINDIRECT, i => 0);
        block_ids := PushAll([], ino.blocks, NDIRECT);
        block_ids := PushAll(block_ids, ind, if blockNum <= MAXFILE then blockNum - NDIRECT else NINDIRECT);
        if blockNum > MAXFILE {
          block_ids := PushBeyond(block_ids, blockNum - MAXFILE, beyond);
        }
      }
    }

    /** One of the push_back loops. */
    static method PushAll(list: seq<u32>, ids: seq<u32>, n: nat) returns (r: seq<u32>)
      requires n <= |ids|
      ensures r == list + ids[..n]
    {
      r := list;
      for i := 0 to n
        invariant r == list + ids[..i]
      {
        r := r + [ids[i]];
      }
    }

    /** The rest of the last loop, past the end of the array of ids. */
    static method PushBeyond(list: seq<u32>, n: nat, beyond: nat -> u32) returns (r: seq<u32>)
      ensures r == list + BeyondTo(n, beyond)
    {
      r := list;
      for j := 0 to n
        invariant r == list + BeyondTo(j, beyond)
      {
        r := r + [beyond(j)];
      }
    }

    /** A file completed with more blocks than it has lists blocks that are not its own. */
    method Complete(inum: u32, size: u32)
      requires Valid() && inum in inodes
      modifies this`inodes, this`own, this`others
      ensures Valid() && Image() == Completed(old(Image()), inum, size) && Used() == old(Used())
      ensures own == if BlocksFor(size) <= BlocksFor(old(inodes)[inum].size) then old(own) else old(own) - {inum}
      ensures others == old(others) + if inum !in old(own) then {} else
                          Elems(Owned(old(Image()), old(inodes)[inum]))
                          - if inum in own then Elems(Owned(Image(), inodes[inum])) else {}
    {
      ghost var d, held := Image(), Used() - others;
      hide Inv, Owned, BlocksFor, IsData;
      SizeChanged(d, held, own, inum, size);
      inodes := inodes[inum := inodes[inum].(size := size)];
      assert Image() == Completed(d, inum, size);
      if inum in own {
        ghost var all := Elems(Owned(d, d.inodes[inum]));
        if BlocksFor(size) <= BlocksFor(d.inodes[inum].size) {
          ghost var mine := Elems(Owned(Image(), inodes[inum]));
          assert Used() - (others + (all - mine)) == held - (all - mine);
          others := others + (all - mine);
        } else {
          assert Used() - (others + all) == held - all;
          own, others := own - {inum}, others + all;
        }
      }
    }

    method FreeBlock(id: u32)
      modifies this`using_blocks
      ensures Used() == old(Used()) - {id}
    {
      if id < FIRST_BLOCK || id >= BLOCK_NUM {
        return;
      }
      using_blocks := using_blocks[id := 0];
    }

    /** One of the loops that release blocks. */
    method FreeAll(ids: seq<u32>, n: nat)
      requires n <= |ids|
      modifies this`using_blocks
      ensures Used() == old(Used()) - Elems(ids[..n])
    {
      for i := 0 to n
        invariant Used() == old(Used()) - Elems(ids[..i])
      {
        FreeBlock(ids[i]);
        assert ids[..i + 1] == ids[..i] + [ids[i]];
      }
    }

    /**
     * remove_file on a plain file: the blocks it lists become free, and the
     * inode goes. A file of `own` takes nothing from anybody else.
     */
    method RemoveFile(inum: u32, beyond: nat -> u32)
      requires Valid()
      modifies this`inodes, this`using_blocks, this`own, this`others
      ensures Valid() && inodes == old(inodes) - {inum}
      ensures Used() == old(Used()) - Freed(old(Image()), inum, beyond)
      ensures own == old(own) - {inum} - Hit(old(Image()), old(own), inum, Freed(old(Image()), inum, beyond))
      ensures inum in old(own) ==>
                && own == old(own) - {inum} && others == old(others)
                && Freed(old(Image()), inum, beyond) == Elems(Owned(old(Image()), old(inodes)[inum]))
    {
      ghost var d, used, held := Image(), Used(), Used() - others;
      ghost var freed := Freed(d, inum, beyond);
      HeldIn(d, held, own);
      RemovedHeld(d, used, held, own, inum, beyond);
      hide Inv, BlocksFor, Owned, Hit, BlocksOf, DataArea;
      if inum !in inodes {
        return;
      }
      FreeBlocksOf(inodes[inum], beyond);
      inodes := inodes - {inum};
      ghost var gone := own * {inum} + Hit(d, own, inum, freed);
      own, others := own - gone, Used() - (held - BlocksOf(d, gone));
    }

    /** "free data blocks", and the indirect block. */
    method FreeBlocksOf(ino: Inode, beyond: nat -> u32)
      modifies this`using_blocks
      ensures Used() == old(Used()) - Elems(ReadOwned(Image(), ino, beyond))
    {
      OwnedParts(Image(), ino, beyond);
      hide BlocksFor, ReadOwned;
      var blockNum := BlocksFor(ino.size);
      if blockNum <= NDIRECT {
        FreeAll(ino.blocks, blockNum);
      } else {
        var ind: Words := if ino.blocks[NDIRECT] in words then words[ino.blocks[NDIRECT]] else seq(NINDIRECT, i => 0);
        FreeAll(ino.blocks, NDIRECT + 1);
        FreeAll(ind, if blockNum <= MAXFILE then blockNum - NDIRECT else NINDIRECT);
        if blockNum > MAXFILE {
          FreeBeyond(blockNum - MAXFILE, beyond);
        }
      }
    }

    /** The same loop in remove_file. */
    method FreeBeyond(n: nat, beyond: nat -> u32)
      modifies this`using_blocks
      ensures Used() == old(Used()) - Elems(BeyondTo(n, beyond))
    {
      for j := 0 to n
        invariant Used() == old(Used()) - Elems(BeyondTo(j, beyond))
      {
        FreeBlock(beyond(j));
        assert BeyondTo(j + 1, beyond) == BeyondTo(j, beyond) + [beyond(j)];
      }
    }

    /**
     * A data node stores block `b` through the extent server. Files of `own`
     * that keep their ids in it are lost; no block handed out for one of them is
     * such a block.
     */
    method WriteBlock(b: u32, w: Words)
      requires Valid()
      modifies this`words, this`own, this`others
      ensures Valid() && inodes == old(inodes) && Used() == old(Used())
      ensures own == old(own) - Keeping(old(Image()), old(own), b)
      ensures (exists i :: i in old(own) && b in Ids(old(Image()), old(inodes)[i])) ==> own == old(own)
      ensures forall j | j in own :: Ids(Image(), inodes[j]) == Ids(old(Image()), inodes[j])
    {
      ghost var d, held, gone := Image(), Used() - others, Keeping(Image(), own, b);
      BlockWritten(d, held, own, b, w);
      hide Inv, Ids, Keeping, BlocksOf;
      words := words[b := w];
      others := others + (Used() - others - (held - BlocksOf(d, gone)));
      own := own - gone;
    }

    /** A directory grows by a block. */
    method TakeBlock() returns (id: u32)
      requires Valid()
      modifies this`using_blocks, this`others
      ensures Valid() && (id == 0 <==> old(Used()) == DataArea())
      ensures Used() == old(Used()) + (if id == 0 then {} else {id})
      ensures id != 0 ==> id in DataArea() - old(Used()) && id in others
    {
      hide Inv, DataArea;
      ghost var held := Used() - others;
      id := AllocBlock();
      if id != 0 {
        others := others + {id};
      }
      assert Used() - others == held;
    }

    /** A directory gives up a block: one it owns leaves the files alone. */
    method GiveBlock(id: u32)
      requires Valid()
      modifies this`using_blocks, this`own, this`others
      ensures Valid() && Used() == old(Used()) - {id}
      ensures own == old(own) - Holding(old(Image()), old(own), id)
      ensures id in old(others) ==> own == old(own)
    {
      ghost var d, used, held, gone := Image(), Used(), Used() - others, Holding(Image(), own, id);
      BlockGiven(d, used, held, own, id);
      hide Inv, Holding, BlocksOf;
      FreeBlock(id);
      others := Used() - (held - BlocksOf(d, gone));
      own := own - gone;
    }
  }

  /**
   * The name node: `pendingWrite` holds the byte count of each file being
   * written. The inodes are files; directories are not part of this class.
   */
  class NameNode {
    const im: InodeManager
    var pendingWrite: map<u32, u32>
    var writtenBlocks: set<u32>
    /** Ids handed out by AddBlock, per file, in order. */
    ghost var returned: map<u32, seq<u32>>
    /** And all that it answered. */
    ghost var answered: map<u32, seq<LocatedBlock>>
    /** What the records held under a file's number when the file was created, 0 for nothing. */
    ghost var left: map<u32, u32>
    /**
     * Files that were not completed with a length that misfits, nor lost a
     * block to the removal of one that was.
     */
    ghost var good: set<u32>

    constructor ()
      ensures fresh(im) && Valid() && im.inodes == map[] && im.Used() == {} && im.others == {}
      ensures pendingWrite == map[] && returned == map[] && good == {} && im.own == {}
    {
      im := new InodeManager();
      pendingWrite, writtenBlocks, returned, answered, left, good := map[], {}, map[], map[], map[], {};
    }

    ghost predicate Valid()
      reads this, im
    {
      && im.Valid() && good <= im.own && im.own * pendingWrite.Keys <= good
      && Tracks(im.Image(), pendingWrite, returned, left, good) && Answers(returned, answered)
    }

    /** The end of PBCreate: the new inode `ino` exists with size 0 and becomes pending; a record left over stays. */
    method FinishCreate(ino: u32, junk: seq<u32>)
      requires Valid() && ino !in im.inodes && |junk| == NDIRECT + 1
      modifies this, im
      ensures Valid() && im.Used() == old(im.Used()) && im.others == old(im.others) && im.words == old(im.words)
      ensures good == old(good) + {ino} && im.own == old(im.own) + {ino}
      ensures returned == old(returned)[ino := []] && left == old(left)[ino := Recorded(old(pendingWrite), ino)]
      ensures answered == old(answered)[ino := []]
      ensures pendingWrite == old(pendingWrite)[ino := Recorded(old(pendingWrite), ino)]
      ensures im.inodes == old(im.inodes)[ino := InodeRecord.Inode(0, junk)]
    {
      hide Inv, Tracks, Ids, Answers;
      AnswersChange(returned, answered, ino);
      CreateTracks(im.Image(), im.Used() - im.others, im.own, pendingWrite, returned, left, good, ino,
                   InodeRecord.Inode(0, junk));
      im.inodes := im.inodes[ino := InodeRecord.Inode(0, junk)];
      im.own, good := im.own + {ino}, good + {ino};
      left := left[ino := Recorded(pendingWrite, ino)];
      if ino !in pendingWrite {
        pendingWrite := pendingWrite[ino := 0];
      }
      assert pendingWrite == old(pendingWrite)[ino := Recorded(old(pendingWrite), ino)];
      returned, answered := returned[ino := []], answered[ino := []];
    }

    /**
     * PBAddBlock with NameNode::AppendBlock: one more block at the end of a
     * pending file. A good file stays good and leaves all others alone; a file
     * that has lost its block of ids may write into the block of ids of another.
     */
    method AddBlock(ino: u32) returns (r: Outcome<LocatedBlock>)
      requires Valid()
      requires ino in pendingWrite ==> ino in im.inodes && BlocksNeeded(im.Image(), ino) <= im.FreeBlocks()
      modifies this, im
      ensures Valid() && left == old(left) && (r.Throws? <==> ino !in old(pendingWrite))
      ensures r.Throws? ==> im.Image() == old(im.Image()) && pendingWrite == old(pendingWrite)
      ensures r.Throws? ==> returned == old(returned) && answered == old(answered) && good == old(good)
      ensures r.Ok? ==> ino in old(answered) && answered == old(answered)[ino := old(answered)[ino] + [r.value]]
      ensures im.inodes.Keys == old(im.inodes).Keys
      ensures r.Ok? ==> IsLowest(r.value.block_id, DataArea() - old(im.Used()))
      ensures r.Ok? ==> BlockAdded(old(pendingWrite), old(returned), left, pendingWrite, returned, ino, r.value)
      ensures r.Ok? ==> im.own == old(im.own) - Sharers(old(im.Image()), old(im.own), ino)
      ensures good == old(good) * im.own
      ensures ino in old(good) ==> good == old(good) && im.own == old(im.own) && im.others == old(im.others)
      ensures r.Ok? && BlocksNeeded(old(im.Image()), ino) == 1 ==> im.Used() == old(im.Used()) + {r.value.block_id}
      ensures forall j | j in old(im.inodes) && j != ino :: im.inodes[j] == old(im.inodes)[j]
    {
      hide Inv, Tracks, Ids, Grew, BlocksFor, BlockAdded, CountOf, Owned, DataArea, Sharers, IsLowest, BlocksNeeded,
           Answers, Capped, InodeManager.Used, InodeManager.FreeBlocks;
      if ino !in pendingWrite {
        return Throws("File not locked");
      }
      ReadyToAdd(im.Image(), im.Used() - im.others, im.own, pendingWrite, returned, left, good, ino);
      var size := im.inodes[ino].size;
      ghost var d := im.Image();
      var newBlock := im.AppendBlock(ino);
      var blocksize := TailSize(size);
      var lb := LocatedBlock(newBlock, size, blocksize);
      GrewTracks(d, im.Image(), pendingWrite, returned, left, good, im.own, ino, newBlock);
      GrewKeys(d, im.Image(), im.own, ino, newBlock);
      AnswersMore(returned, answered, ino, lb);
      writtenBlocks := writtenBlocks + {newBlock};
      good, returned, answered :=
        good * im.own, returned[ino := returned[ino] + [newBlock]], answered[ino := answered[ino] + [lb]];
      pendingWrite := pendingWrite[ino := (pendingWrite[ino] + BLOCK_SIZE) % 0x1_0000_0000];
      r := Ok(lb);
    }

    /**
     * PBComplete: `last` is the length of the last block when the request has one.
     * The block list stays what AddBlock handed out exactly when that length fits
     * together with what was left over in the record. Otherwise this file, and
     * only this, is not good any more; as long as it has no more blocks than it
     * was given, these remain its own.
     */
    method Complete(ino: u32, last: Option<nat>) returns (r: Outcome<bool>)
      requires Valid() && (ino in pendingWrite ==> ino in im.inodes)
      modifies this, im
      ensures Valid() && returned == old(returned) && left == old(left) && im.Used() == old(im.Used())
      ensures answered == old(answered)
      ensures r.Throws? <==> ino !in old(pendingWrite)
      ensures r.Throws? ==> im.Image() == old(im.Image()) && pendingWrite == old(pendingWrite) && good == old(good)
      ensures r.Throws? ==> im.own == old(im.own) && im.others == old(im.others)
      ensures r.Ok? ==> pendingWrite == old(pendingWrite) - {ino} && ino in returned && ino in left
      ensures r.Ok? ==> im.Image() == Completed(old(im.Image()), ino, CompletedSize(|returned[ino]|, left[ino], last))
      ensures r.Ok? ==> AsReported(im.inodes[ino].size, |returned[ino]|, left[ino], last)
      ensures r.Ok? ==> good == if Fits(returned, left, ino, last) then old(good) else old(good) - {ino}
      ensures r.Ok? && ino in old(good) ==> FileCompleted(im.Image(), returned, left, ino, last)
      ensures r.Ok? && ino in old(good) ==>
                im.own == if BlocksFor(im.inodes[ino].size) <= |returned[ino]| then old(im.own) else old(im.own) - {ino}
      ensures r.Ok? && ino in old(good) ==>
                im.others == old(im.others) + (Elems(Owned(old(im.Image()), old(im.inodes)[ino]))
                  - if ino in im.own then Elems(Owned(im.Image(), im.inodes[ino])) else {})
      ensures r.Ok? && ino in old(good) && Fits(returned, left, ino, last) ==> im.others == old(im.others)
      ensures r.Ok? && ino !in old(good) ==> im.own == old(im.own) && im.others == old(im.others)
    {
      hide Inv, Tracks, Ids, BlocksFor, FinalSize, Tiles, Fits, Owned, FileCompleted, CompletedSize, CountOf, Answers,
           AsReported;
      if ino !in pendingWrite {
        return Throws("No such pending write");
      }
      CompleteTracks(im.Image(), im.Used() - im.others, im.own, pendingWrite, returned, left, good, ino, last);
      SizeReported(|returned[ino]|, left[ino], last);
      var new_size := pendingWrite[ino];
      if last.Some? {
        new_size := FinalSize(new_size, last.value);
      }
      pendingWrite := pendingWrite - {ino};
      im.Complete(ino, new_size);
      if !Fits(returned, left, ino, last) {
        good := good - {ino};
      }
      r := Ok(true);
    }

    /**
     * What PBDelete does to a plain file: nothing looks at the record of a
     * pending write. A file whose blocks are its own leaves all others alone; any
     * other takes the blocks it lists from whoever has them.
     */
    method Remove(ino: u32, beyond: nat -> u32)
      requires Valid()
      modifies this, im
      ensures Valid() && im.inodes == old(im.inodes) - {ino} && pendingWrite == old(pendingWrite)
      ensures returned == old(returned) - {ino} && left == old(left) && im.words == old(im.words)
      ensures answered == old(answered) - {ino}
      ensures im.Used() == old(im.Used()) - Freed(old(im.Image()), ino, beyond)
      ensures im.own
           == old(im.own) - {ino} - Hit(old(im.Image()), old(im.own), ino, Freed(old(im.Image()), ino, beyond))
      ensures good == old(good) * im.own
      ensures ino in old(im.own) ==>
                im.own == old(im.own) - {ino} && good == old(good) - {ino} && im.others == old(im.others)
    {
      hide Inv, Tracks, Ids, Owned, Hit, Freed, Answers;
      RemoveTracks(im.Image(), pendingWrite, returned, left, good, good * (im.own - {ino}), ino);
      AnswersChange(returned, answered, ino);
      ghost var d := im.Image();
      im.RemoveFile(ino, beyond);
      FewerGood(im.Image(), pendingWrite, returned - {ino}, left, good * (old(im.own) - {ino}), good * im.own);
      returned, answered := returned - {ino}, answered - {ino};
      good := good * im.own;
    }

    /** A data node stores a block: the files it was handed out for, and all others, keep their lists. */
    method StoreBlock(b: u32, w: Words)
      requires Valid()
      modifies this, im
      ensures Valid() && im.inodes == old(im.inodes) && im.Used() == old(im.Used())
      ensures returned == old(returned) && pendingWrite == old(pendingWrite) && left == old(left)
      ensures answered == old(answered)
      ensures im.own == old(im.own) - Keeping(old(im.Image()), old(im.own), b) && good == old(good) * im.own
      ensures (exists i :: i in old(good) && b in old(returned)[i]) ==> im.own == old(im.own) && good == old(good)
    {
      ListedIn(im.Image(), pendingWrite, returned, left, good);
      hide Inv, Ids, Keeping;
      ghost var d := im.Image();
      im.WriteBlock(b, w);
      good := good * im.own;
    }

    /** A write to a directory takes a block: no file notices. */
    method DirectoryTakes() returns (id: u32)
      requires Valid()
      modifies im
      ensures Valid() && im.Image() == old(im.Image()) && im.own == old(im.own)
      ensures id == 0 <==> old(im.Used()) == DataArea()
      ensures id != 0 ==> id in DataArea() - old(im.Used()) && id in im.others
    {
      hide Inv, Tracks, DataArea, Answers;
      id := im.TakeBlock();
    }

    /** And gives one back. No file notices, unless the removal of a misfit has handed that block to one. */
    method DirectoryGives(id: u32)
      requires Valid()
      modifies this, im
      ensures Valid() && im.Image() == old(im.Image()) && im.Used() == old(im.Used()) - {id}
      ensures returned == old(returned) && pendingWrite == old(pendingWrite) && left == old(left)
      ensures answered == old(answered)
      ensures im.own == old(im.own) - Holding(old(im.Image()), old(im.own), id) && good == old(good) * im.own
      ensures id in old(im.others) ==> im.own == old(im.own) && good == old(good)
    {
      hide Inv, Tracks, Holding, Answers;
      im.GiveBlock(id);
      FewerGood(im.Image(), pendingWrite, returned, left, good, good * im.own);
      good := good * im.own;
    }

    /**
     * The located blocks of a file: they always tile its bytes, each at a
     * multiple of the block size and all but the last whole; those of a good file
     * are what AddBlock answered, with the ids and offsets it gave.
     */
    method GetBlockLocations(ino: u32, beyond: nat -> u32) returns (locatedBlocks: seq<LocatedBlock>)
      requires Valid()
      ensures ino in im.inodes ==> Tiles(locatedBlocks, im.inodes[ino].size)
      ensures ino in im.inodes ==> InOrder(locatedBlocks, ReadIds(im.Image(), im.inodes[ino], beyond))
      ensures ino in good ==> ino in im.inodes && ino in returned && InOrder(locatedBlocks, returned[ino])
      ensures ino !in im.inodes ==> locatedBlocks == []
      ensures forall k: nat | k < |locatedBlocks| :: locatedBlocks[k].offset == k * BLOCK_SIZE
      ensures forall k: nat | k + 1 < |locatedBlocks| :: locatedBlocks[k].size == BLOCK_SIZE
      ensures ino in good ==> ino in answered && AsAnswered(locatedBlocks, answered[ino])
    {
      hide Inv, Tracks, Ids, Answers, AsAnswered, Located, Tiles, ReadIds;
      var blockids := im.GetBlockIds(ino, beyond);
      var size := if ino in im.inodes then im.inodes[ino].size else 0;
      locatedBlocks := Locate(blockids, size);
      LocatedTiles(blockids, size);
      LocatedShape(blockids, size);
      if ino in good {
        GoodIsRead(im.Image(), im.Used() - im.others, im.own, pendingWrite, returned, left, good, ino, beyond);
        GoodIsAnswered(im.Image(), im.Used() - im.others, im.own, returned, answered, ino, locatedBlocks);
      }
    }

    /** The loop over the ids; the size of the last block is what is left of the file. */
    static method Locate(blockids: seq<u32>, size: u32) returns (list: seq<LocatedBlock>)
      ensures list == Located(blockids, size)
    {
      list := [];
      var currentsize := 0;
      var iter := 0;
      while iter != |blockids|
        invariant 0 <= iter <= |blockids| && currentsize == iter * BLOCK_SIZE
        invariant list == Located(blockids, size)[..iter]
        decreases |blockids| - iter
      {
        iter := iter + 1;
        var blocksize := if iter == |blockids| then size - currentsize else BLOCK_SIZE;
        iter := iter - 1;
        list := list + [LocatedBlock(blockids[iter], currentsize, blocksize)];
        currentsize := currentsize + BLOCK_SIZE;
        iter := iter + 1;
      }
    }
  }

  /** Same blocks at the same places. */
  ghost predicate AsAnswered(bs: seq<LocatedBlock>, answers: seq<LocatedBlock>) {
    |bs| == |answers|
    && forall k: nat | k < |bs| :: bs[k].block_id == answers[k].block_id && bs[k].offset == answers[k].offset
  }

  /** The answers carry the ids handed out, one whole block after another. */
  ghost predicate Answers(returned: map<u32, seq<u32>>, answered: map<u32, seq<LocatedBlock>>) {
    answered.Keys == returned.Keys && forall i | i in returned :: AnswersFor(returned[i], answered[i])
  }

  ghost predicate AnswersFor(ids: seq<u32>, bs: seq<LocatedBlock>) {
    InOrder(bs, ids) && forall k: nat | k < |bs| :: bs[k].offset == Capped(k) * BLOCK_SIZE && bs[k].size == BLOCK_SIZE
  }

  lemma AnswersMore(returned: map<u32, seq<u32>>, answered: map<u32, seq<LocatedBlock>>, i: u32, lb: LocatedBlock)
    requires Answers(returned, answered) && i in returned
    requires lb.offset == Capped(|returned[i]|) * BLOCK_SIZE && lb.size == BLOCK_SIZE
    ensures i in answered
    ensures Answers(returned[i := returned[i] + [lb.block_id]], answered[i := answered[i] + [lb]])
  {
    hide Capped;
    assert AnswersFor(returned[i], answered[i]);
  }

  lemma AnswersChange(returned: map<u32, seq<u32>>, answered: map<u32, seq<LocatedBlock>>, i: u32)
    requires Answers(returned, answered)
    ensures Answers(returned[i := []], answered[i := []]) && Answers(returned - {i}, answered - {i})
  {
    hide Capped;
  }

  lemma GoodIsAnswered(d: HdfsInodes.Disk, held: set<u32>, own: set<u32>, returned: map<u32, seq<u32>>,
                       answered: map<u32, seq<LocatedBlock>>, i: u32, bs: seq<LocatedBlock>)
    requires Inv(d, held, own) && i in own && i in returned && Ids(d, d.inodes[i]) == returned[i]
    requires Answers(returned, answered) && InOrder(bs, returned[i])
    requires forall k: nat | k < |bs| :: bs[k].offset == k * BLOCK_SIZE
    ensures i in answered && AsAnswered(bs, answered[i])
  {
    NeverTooLarge(d, held, own, i);
    assert AnswersFor(returned[i], answered[i]);
    assert |returned[i]| <= MAXFILE;
    hide Ids, Inv;
  }

  function TailSize(size: nat): nat {
    if size % BLOCK_SIZE != 0 then size % BLOCK_SIZE else BLOCK_SIZE
  }

  /** What the record of `ino` holds. */
  function Recorded(pending: map<u32, u32>, ino: u32): u32 {
    if ino in pending then pending[ino] else 0
  }

  /** The byte count of `k` blocks on top of what was left over, in 32 bits. */
  function CountOf(left: u32, k: nat): u32 {
    (left + k * BLOCK_SIZE) % 0x1_0000_0000
  }

  /** Blocks a file of `k` appended blocks has: append_block stops one block past the limit. */
  function Capped(k: nat): nat {
    if k <= MAXFILE + 1 then k else MAXFILE + 1
  }

  /**
   * While a file is pending its size is BLOCK_SIZE times the number of blocks
   * handed out, and its record counts these bytes on top of what was left over
   * when it was created; a good file's block list is what AddBlock handed out.
   */
  ghost predicate Tracks(d: HdfsInodes.Disk, pending: map<u32, u32>, returned: map<u32, seq<u32>>,
                         left: map<u32, u32>, good: set<u32>) {
    && returned.Keys == d.inodes.Keys && returned.Keys <= left.Keys
    && Lists(d, returned, good) && Counts(d, pending, returned, left) && Wholes(pending, left)
  }

  ghost predicate Lists(d: HdfsInodes.Disk, returned: map<u32, seq<u32>>, good: set<u32>) {
    forall i | i in good :: i in d.inodes && i in returned && Ids(d, d.inodes[i]) == returned[i]
  }

  ghost predicate Counts(d: HdfsInodes.Disk, pending: map<u32, u32>, returned: map<u32, seq<u32>>,
                         left: map<u32, u32>) {
    forall i | i in pending && i in returned ::
      && i in left && i in d.inodes && d.inodes[i].size == Capped(|returned[i]|) * BLOCK_SIZE
      && pending[i] == CountOf(left[i], |returned[i]|)
  }

  ghost predicate Wholes(pending: map<u32, u32>, left: map<u32, u32>) {
    (forall i | i in pending :: pending[i] % BLOCK_SIZE == 0) && forall i | i in left :: left[i] % BLOCK_SIZE == 0
  }

  /** AddBlock's answer and its effect on the records: the new block follows the others. */
  ghost predicate BlockAdded(pending: map<u32, u32>, returned: map<u32, seq<u32>>, left: map<u32, u32>,
                             pending': map<u32, u32>, returned': map<u32, seq<u32>>, i: u32, lb: LocatedBlock) {
    && i in returned && i in left && returned' == returned[i := returned[i] + [lb.block_id]]
    && pending' == pending[i := CountOf(left[i], |returned'[i]|)]
    && lb.offset == Capped(|returned[i]|) * BLOCK_SIZE && lb.size == BLOCK_SIZE
  }

  /** The length reported for the last block, a whole block when none is. */
  function LastLength(last: Option<nat>): nat {
    if last.None? then BLOCK_SIZE else last.value
  }

  predicate Fits(returned: map<u32, seq<u32>>, left: map<u32, u32>, i: u32, last: Option<nat>) {
    i in returned && i in left && LastFits(|returned[i]|, left[i] + LastLength(last))
  }

  /** The size Complete stores for a file of `k` blocks. */
  function CompletedSize(k: nat, left: u32, last: Option<nat>): u32 {
    ((k - 1) * BLOCK_SIZE + left + LastLength(last)) % 0x1_0000_0000
  }

  /** With nothing left over, whole blocks and then the length reported, as far as 32 bits go. */
  predicate AsReported(size: nat, k: nat, left: u32, last: Option<nat>) {
    left == 0 && 1 <= k <= MAXFILE ==>
      && (last.None? ==> size == k * 16384)
      && (last.Some? && last.value <= 16384 ==> size == (k - 1) * 16384 + last.value)
  }

  lemma SizeReported(k: nat, left: u32, last: Option<nat>)
    ensures AsReported(CompletedSize(k, left, last), k, left, last)
  {
  }

  /** The block list is what AddBlock handed out exactly when the last length fits. */
  ghost predicate FileCompleted(d: HdfsInodes.Disk, returned: map<u32, seq<u32>>, left: map<u32, u32>,
                                i: u32, last: Option<nat>) {
    && i in returned && i in left && i in d.inodes && |returned[i]| < MAXFILE
    && d.inodes[i].size == FinalSize(|returned[i]| * BLOCK_SIZE, left[i] + LastLength(last))
    && forall beyond: nat -> u32 ::
         ReadIds(d, d.inodes[i], beyond) == returned[i] <==> Fits(returned, left, i, last)
  }

  /** With an allowed last length, the block list comes out right exactly when nothing was left over at creation. */
  lemma LeftOverExact(returned: map<u32, seq<u32>>, left: map<u32, u32>, i: u32, last: Option<nat>)
    requires i in returned && i in left && left[i] % BLOCK_SIZE == 0
    requires 1 <= LastLength(last) <= BLOCK_SIZE && (returned[i] == [] ==> LastLength(last) == BLOCK_SIZE)
    ensures Fits(returned, left, i, last) <==> left[i] == 0
  {
    var l: int := left[i];
    assert l == 0 || BLOCK_SIZE <= l <= 0x1_0000_0000 - BLOCK_SIZE;
  }

  ghost predicate IsLowest(b: u32, free: set<u32>) {
    b in free && forall c | c in free :: b <= c
  }

  /** The blocks a removal releases. */
  ghost function Freed(d: HdfsInodes.Disk, i: u32, beyond: nat -> u32): set<u32> {
    if i in d.inodes then Elems(ReadOwned(d, d.inodes[i], beyond)) else {}
  }

  /** Files of `own` that keep their ids in block `b`. */
  ghost function Keeping(d: HdfsInodes.Disk, own: set<u32>, b: u32): set<u32> {
    set j | j in own && j in d.inodes && HasIdBlock(d.inodes[j], b)
  }

  /** Files of `own` that own block `b`. */
  ghost function Holding(d: HdfsInodes.Disk, own: set<u32>, b: u32): set<u32> {
    set j | j in own && j in d.inodes && b in Elems(Owned(d, d.inodes[j]))
  }

  /** While a good file is pending, its size is the blocks handed out; its record exceeds it by what was left over. */
  lemma PendingSize(d: HdfsInodes.Disk, held: set<u32>, own: set<u32>, pending: map<u32, u32>,
                    returned: map<u32, seq<u32>>, left: map<u32, u32>, good: set<u32>, i: u32)
    requires Inv(d, held, own) && good <= own && Tracks(d, pending, returned, left, good)
    requires i in pending && i in good
    ensures i in d.inodes && i in returned && i in left && Ids(d, d.inodes[i]) == returned[i]
    ensures d.inodes[i].size == |returned[i]| * BLOCK_SIZE && pending[i] == CountOf(left[i], |returned[i]|)
    ensures pending[i] == d.inodes[i].size <==> left[i] == 0
    ensures |returned[i]| < MAXFILE && BlocksFor(d.inodes[i].size) == |returned[i]|
  {
    NeverTooLarge(d, held, own, i);
  }

  // ---------- creating ----------

  lemma CreateTracks(d: HdfsInodes.Disk, held: set<u32>, own: set<u32>, pending: map<u32, u32>,
                     returned: map<u32, seq<u32>>, left: map<u32, u32>, good: set<u32>, i: u32, ino: Inode)
    requires Inv(d, held, own) && Tracks(d, pending, returned, left, good) && i !in d.inodes && ino.size == 0
    ensures var d' := d.(inodes := d.inodes[i := ino]); var n := Recorded(pending, i);
      Inv(d', held, own + {i}) && Tracks(d', pending[i := n], returned[i := []], left[i := n], good + {i})
  {
    var d' := d.(inodes := d.inodes[i := ino]);
    hide Inv, Owned, Ids, Tracks, Answers;
    EmptyFile(d', ino);
    AllSameWords(d, d');
    CreateOwners(d, held, own, i, ino);
    CreateRecords(d, d', pending, returned, left, good, i);
  }

  lemma CreateRecords(d: HdfsInodes.Disk, d': HdfsInodes.Disk, pending: map<u32, u32>, returned: map<u32, seq<u32>>,
                      left: map<u32, u32>, good: set<u32>, i: u32)
    requires Tracks(d, pending, returned, left, good) && i !in d.inodes
    requires i in d'.inodes && d'.inodes == d.inodes[i := d'.inodes[i]] && d'.inodes[i].size == 0
    requires Ids(d', d'.inodes[i]) == [] && forall n: Inode :: Ids(d', n) == Ids(d, n)
    ensures var n := Recorded(pending, i);
      Tracks(d', pending[i := n], returned[i := []], left[i := n], good + {i})
  {
    hide Ids;
  }

  lemma EmptyFile(d: HdfsInodes.Disk, ino: Inode)
    requires ino.size == 0
    ensures Owned(d, ino) == [] && Ids(d, ino) == []
  {
  }

  lemma AllSameWords(d: HdfsInodes.Disk, d': HdfsInodes.Disk)
    requires d'.words == d.words
    ensures forall n: Inode :: Ids(d', n) == Ids(d, n) && Owned(d', n) == Owned(d, n)
  {
    hide IdsOf, OwnedOf, BlocksFor;
  }

  lemma CreateOwners(d: HdfsInodes.Disk, held: set<u32>, own: set<u32>, i: u32, ino: Inode)
    requires Inv(d, held, own) && i !in d.inodes && ino.size == 0
    ensures Inv(d.(inodes := d.inodes[i := ino]), held, own + {i})
  {
    var d' := d.(inodes := d.inodes[i := ino]);
    AllSameWords(d, d');
    EmptyFile(d', ino);
    BlocksForZero();
    OwnersCreated(d, own, i, ino);
    Ledger.NewOwner(OwnersOn(d, own), held, DataArea(), i);
    hide Owned, Ids, BlocksFor, DataArea, Ledger.Balanced, OwnersOn;
  }

  lemma OwnersCreated(d: HdfsInodes.Disk, own: set<u32>, i: u32, ino: Inode)
    requires i !in d.inodes && own <= d.inodes.Keys && ino.size == 0
    ensures i !in OwnersOn(d, own)
    ensures OwnersOn(d.(inodes := d.inodes[i := ino]), own + {i}) == OwnersOn(d, own)[i := {}]
  {
    var d' := d.(inodes := d.inodes[i := ino]);
    AllSameWords(d, d');
    EmptyFile(d', ino);
    hide Owned;
    assert Elems(Owned(d', ino)) == {};
  }

  lemma BlocksForZero()
    ensures BlocksFor(0) == 0
  {
  }

  // ---------- removing ----------

  lemma RemoveTracks(d: HdfsInodes.Disk, pending: map<u32, u32>, returned: map<u32, seq<u32>>,
                     left: map<u32, u32>, good: set<u32>, good': set<u32>, i: u32)
    requires Tracks(d, pending, returned, left, good) && good' <= good - {i}
    ensures Tracks(HdfsInodes.Removed(d, i), pending, returned - {i}, left, good')
  {
    AllSameWords(d, HdfsInodes.Removed(d, i));
    hide Ids;
  }

  lemma FewerGood(d: HdfsInodes.Disk, pending: map<u32, u32>, returned: map<u32, seq<u32>>,
                  left: map<u32, u32>, good: set<u32>, good': set<u32>)
    requires Tracks(d, pending, returned, left, good) && good' <= good
    ensures Tracks(d, pending, returned, left, good')
  {
    hide Ids;
  }

  /** The list of a file as get_block_ids pushes it. */
  lemma ReadParts(d: HdfsInodes.Disk, ino: Inode, beyond: nat -> u32)
    ensures var n, ind := BlocksFor(ino.size), WordsAt(d, ino.blocks[NDIRECT]);
      ReadIds(d, ino, beyond) ==
      if n <= NDIRECT then ino.blocks[..n]
      else if n <= MAXFILE then ino.blocks[..NDIRECT] + ind[..n - NDIRECT]
      else ino.blocks[..NDIRECT] + ind[..NINDIRECT] + BeyondTo(n - MAXFILE, beyond)
  {
    hide BlocksFor;
    var ind := WordsAt(d, ino.blocks[NDIRECT]);
    assert ind[..NINDIRECT] == ind;
  }

  /** A file's blocks as remove_file releases them. */
  lemma OwnedParts(d: HdfsInodes.Disk, ino: Inode, beyond: nat -> u32)
    ensures var n, ind := BlocksFor(ino.size), WordsAt(d, ino.blocks[NDIRECT]);
      Elems(ReadOwned(d, ino, beyond)) ==
      if n <= NDIRECT then Elems(ino.blocks[..n])
      else if n <= MAXFILE then Elems(ino.blocks[..NDIRECT + 1]) + Elems(ind[..n - NDIRECT])
      else Elems(ino.blocks[..NDIRECT + 1]) + Elems(ind[..NINDIRECT]) + Elems(BeyondTo(n - MAXFILE, beyond))
  {
    hide BlocksFor;
    assert ino.blocks[..NDIRECT + 1] == ino.blocks;
    var ind := WordsAt(d, ino.blocks[NDIRECT]);
    assert ind[..NINDIRECT] == ind;
  }

  /** What the inode layer's removal leaves of its ledger. */
  lemma RemovedHeld(d: HdfsInodes.Disk, used: set<u32>, held: set<u32>, own: set<u32>, i: u32, beyond: nat -> u32)
    requires Inv(d, held, own) && held <= used <= DataArea()
    ensures var freed := Freed(d, i, beyond); var gone := own * {i} + Hit(d, own, i, freed);
      && Inv(HdfsInodes.Removed(d, i), held - BlocksOf(d, gone), own - gone)
      && held - BlocksOf(d, gone) <= used - freed && own - gone == own - {i} - Hit(d, own, i, freed)
    ensures i in own ==>
      var freed := Freed(d, i, beyond); var gone := own * {i} + Hit(d, own, i, freed);
      && freed == Elems(Owned(d, d.inodes[i])) && own - gone == own - {i}
      && (used - freed) - (held - BlocksOf(d, gone)) == used - held
    ensures i !in d.inodes ==> Freed(d, i, beyond) == {} && own - {i} - Hit(d, own, i, {}) == own
  {
    var freed := Freed(d, i, beyond);
    var gone := own * {i} + Hit(d, own, i, freed);
    RemovedKeepsInv(d, held, own, i, freed);
    if i in own {
      OwnHitsNobody(d, held, own, i, beyond);
      OwnedIn(d, held, own, i);
      assert gone == {i};
      assert BlocksOf(d, {i}) == Elems(Owned(d, d.inodes[i]));
    }
    hide Owned, BlocksFor, NoDup, DataArea, Ledger.Balanced, Inv, BlocksOf, HdfsInodes.Removed, ReadOwned;
  }

  // ---------- other uses of the disk ----------

  lemma HeldIn(d: HdfsInodes.Disk, held: set<u32>, own: set<u32>)
    requires Inv(d, held, own)
    ensures held <= DataArea() && own <= d.inodes.Keys
  {
  }

  lemma BlockWritten(d: HdfsInodes.Disk, held: set<u32>, own: set<u32>, b: u32, w: Words)
    requires Inv(d, held, own)
    ensures var gone := Keeping(d, own, b); var d' := d.(words := d.words[b := w]);
      && Inv(d', held - BlocksOf(d, gone), own - gone)
      && forall j | j in own - gone :: Ids(d', d'.inodes[j]) == Ids(d, d.inodes[j])
    ensures (exists i :: i in own && b in Ids(d, d.inodes[i])) ==> Keeping(d, own, b) == {}
  {
    var gone, d' := Keeping(d, own, b), d.(words := d.words[b := w]);
    GiveUp(d, held, own, gone);
    hide Owned, BlocksFor, NoDup, DataArea, Ledger.Balanced, BlocksOf, Ids;
    SameKeepsInv(d, d', held - BlocksOf(d, gone), own - gone);
    forall i, j | i in own && b in Ids(d, d.inodes[i]) && j in own
      ensures j !in gone
    {
      ListedIsNoIdBlock(d, held, own, i, j, b);
    }
  }

  /** A block in the list of a file is nobody's block of ids. */
  lemma ListedIsNoIdBlock(d: HdfsInodes.Disk, held: set<u32>, own: set<u32>, i: u32, j: u32, b: u32)
    requires Inv(d, held, own) && i in own && j in own && b in Ids(d, d.inodes[i])
    ensures !HasIdBlock(d.inodes[j], b)
  {
    ListedIsOwned(d, d.inodes[i], b);
    if i != j {
      OwnedApart(d, held, own, i, j);
    }
    if HasIdBlock(d.inodes[j], b) {
      IdBlockHeld(d, held, own, j, b);
    }
  }

  lemma ListedIsOwned(d: HdfsInodes.Disk, n: Inode, b: u32)
    requires BlocksFor(n.size) <= MAXFILE && NoDup(Owned(d, n)) && b in Ids(d, n)
    ensures b in Elems(Owned(d, n)) && !HasIdBlock(n, b)
  {
    var k :| 0 <= k < |Ids(d, n)| && Ids(d, n)[k] == b;
    var o := Owned(d, n);
    var l := if k < NDIRECT then k else k + 1;
    assert o[l] == b;
    if BlocksFor(n.size) > NDIRECT {
      assert o[NDIRECT] == n.blocks[NDIRECT];
    }
  }

  lemma BlockGiven(d: HdfsInodes.Disk, used: set<u32>, held: set<u32>, own: set<u32>, b: u32)
    requires Inv(d, held, own) && held <= used
    ensures var gone := Holding(d, own, b); var rest := held - BlocksOf(d, gone);
      Inv(d, rest, own - gone) && rest <= used - {b} && (used - {b}) - ((used - {b}) - rest) == rest
    ensures b !in held ==> Holding(d, own, b) == {} && own - {} == own
  {
    var gone := Holding(d, own, b);
    GiveUp(d, held, own, gone);
    HoldersOf(d, held, own, b);
    hide Inv, Owned, DataArea, Holding, BlocksOf;
  }

  lemma HoldersOf(d: HdfsInodes.Disk, held: set<u32>, own: set<u32>, b: u32)
    requires Inv(d, held, own)
    ensures b in held ==> b in BlocksOf(d, Holding(d, own, b))
    ensures b !in held ==> Holding(d, own, b) == {}
  {
    var gone := Holding(d, own, b);
    if b in held {
      var j :| j in OwnersOn(d, own) && b in OwnersOn(d, own)[j];
      assert j in gone;
    } else {
      forall j | j in own
        ensures j !in gone
      {
        OwnedIn(d, held, own, j);
      }
    }
  }

  lemma ListedIn(d: HdfsInodes.Disk, pending: map<u32, u32>, returned: map<u32, seq<u32>>,
                 left: map<u32, u32>, good: set<u32>)
    requires Tracks(d, pending, returned, left, good)
    ensures forall i | i in good :: i in d.inodes && i in returned && Ids(d, d.inodes[i]) == returned[i]
  {
  }

  // ---------- appending ----------

  lemma GrewKeys(d: HdfsInodes.Disk, d': HdfsInodes.Disk, own: set<u32>, i: u32, bid: u32)
    requires Grew(d, d', own, i, bid)
    ensures d'.inodes.Keys == d.inodes.Keys
    ensures forall j | j in d.inodes && j != i :: d'.inodes[j] == d.inodes[j]
  {
  }

  lemma WrapAdd(x: int, y: int)
    ensures (x % 0x1_0000_0000 + y) % 0x1_0000_0000 == (x + y) % 0x1_0000_0000
  {
  }

  lemma CountMore(left: u32, k: nat)
    ensures (CountOf(left, k) + BLOCK_SIZE) % 0x1_0000_0000 == CountOf(left, k + 1)
  {
    var x: int := left + k * BLOCK_SIZE;
    WrapAdd(x, BLOCK_SIZE);
  }

  lemma CountWhole(left: u32, k: nat)
    requires left % BLOCK_SIZE == 0
    ensures CountOf(left, k) % BLOCK_SIZE == 0
  {
    var a := left / BLOCK_SIZE + k;
    var q := a * BLOCK_SIZE / 0x1_0000_0000;
    assert CountOf(left, k) == (a - q * 0x4_0000) * BLOCK_SIZE;
  }

  lemma PendingIn(d: HdfsInodes.Disk, pending: map<u32, u32>, returned: map<u32, seq<u32>>,
                  left: map<u32, u32>, good: set<u32>, i: u32)
    requires Tracks(d, pending, returned, left, good) && i in pending && i in d.inodes
    ensures i in returned && i in left && d.inodes[i].size == Capped(|returned[i]|) * BLOCK_SIZE
    ensures pending[i] == CountOf(left[i], |returned[i]|) && left[i] % BLOCK_SIZE == 0
    ensures TailSize(d.inodes[i].size) == BLOCK_SIZE
  {
    hide Ids, CountOf;
  }

  lemma ReadyToAdd(d: HdfsInodes.Disk, held: set<u32>, own: set<u32>, pending: map<u32, u32>,
                   returned: map<u32, seq<u32>>, left: map<u32, u32>, good: set<u32>, i: u32)
    requires Inv(d, held, own) && good <= own && Tracks(d, pending, returned, left, good)
    requires i in pending && i in d.inodes
    ensures i in returned && TailSize(d.inodes[i].size) == BLOCK_SIZE
    ensures d.inodes[i].size == Capped(|returned[i]|) * BLOCK_SIZE
    ensures i in good ==> BlocksFor(d.inodes[i].size) < MAXFILE
  {
    hide Ids, CountOf;
    PendingIn(d, pending, returned, left, good, i);
    if i in good {
      NeverTooLarge(d, held, own, i);
    }
  }

  lemma GrewTracks(d: HdfsInodes.Disk, d': HdfsInodes.Disk, pending: map<u32, u32>, returned: map<u32, seq<u32>>,
                   left: map<u32, u32>, good: set<u32>, own: set<u32>, i: u32, bid: u32)
    requires Tracks(d, pending, returned, left, good) && i in pending && i in d.inodes && Grew(d, d', own, i, bid)
    requires i in good ==> BlocksFor(d.inodes[i].size) < MAXFILE
    ensures i in returned
    ensures var pending' := pending[i := (pending[i] + BLOCK_SIZE) % 0x1_0000_0000];
      var returned' := returned[i := returned[i] + [bid]];
      && Tracks(d', pending', returned', left, good * own)
      && BlockAdded(pending, returned, left, pending', returned', i, LocatedBlock(bid, d.inodes[i].size, BLOCK_SIZE))
  {
    hide Ids, CountOf, Lists, Counts, Wholes, Grew, Capped, BlocksFor;
    TracksIn(d, pending, returned, left, good, i);
    GrewKeys(d, d', own, i, bid);
    GrewLists(d, d', returned, good, own, i, bid);
    GrewCounts(d, d', pending, returned, left, own, i, bid);
    GrewWholes(pending, left, i, |returned[i]| + 1);
    CountMore(left[i], |returned[i]|);
  }

  lemma TracksIn(d: HdfsInodes.Disk, pending: map<u32, u32>, returned: map<u32, seq<u32>>, left: map<u32, u32>,
                 good: set<u32>, i: u32)
    requires Tracks(d, pending, returned, left, good) && i in d.inodes
    ensures i in returned && i in left
    ensures i in pending ==>
              d.inodes[i].size == Capped(|returned[i]|) * BLOCK_SIZE && pending[i] == CountOf(left[i], |returned[i]|)
  {
    hide Ids, CountOf;
  }

  lemma GrewLists(d: HdfsInodes.Disk, d': HdfsInodes.Disk, returned: map<u32, seq<u32>>, good: set<u32>,
                  own: set<u32>, i: u32, bid: u32)
    requires Lists(d, returned, good) && Grew(d, d', own, i, bid) && i in returned
    requires i in good ==> BlocksFor(d.inodes[i].size) < MAXFILE
    ensures Lists(d', returned[i := returned[i] + [bid]], good * own)
  {
    hide Ids, BlocksFor;
  }

  lemma GrewCounts(d: HdfsInodes.Disk, d': HdfsInodes.Disk, pending: map<u32, u32>, returned: map<u32, seq<u32>>,
                   left: map<u32, u32>, own: set<u32>, i: u32, bid: u32)
    requires Counts(d, pending, returned, left) && Grew(d, d', own, i, bid)
    requires i in returned && i in left && i in pending
    ensures Counts(d', pending[i := CountOf(left[i], |returned[i]| + 1)], returned[i := returned[i] + [bid]], left)
  {
    hide Ids, CountOf;
    assert |returned[i] + [bid]| == |returned[i]| + 1;
    CappedBlocks(|returned[i]|);
  }

  lemma CappedBlocks(k: nat)
    ensures BlocksFor(Capped(k) * BLOCK_SIZE) == Capped(k)
  {
  }

  lemma GrewWholes(pending: map<u32, u32>, left: map<u32, u32>, i: u32, k: nat)
    requires Wholes(pending, left) && i in left
    ensures Wholes(pending[i := CountOf(left[i], k)], left)
  {
    if left[i] % BLOCK_SIZE == 0 {
      CountWhole(left[i], k);
    }
    hide CountOf;
  }

  // ---------- completing ----------

  /** What PBComplete computes from the record is the completed size. */
  lemma RecordGivesSize(left: u32, k: nat, last: Option<nat>)
    ensures (if last.Some? then FinalSize(CountOf(left, k), last.value) else CountOf(left, k))
         == CompletedSize(k, left, last)
    ensures k < MAXFILE ==> CompletedSize(k, left, last) == FinalSize(k * BLOCK_SIZE, left + LastLength(last))
  {
    var x: int := left + k * BLOCK_SIZE;
    var y: int := LastLength(last) - BLOCK_SIZE;
    WrapAdd(x, y);
    assert x + y == (k - 1) * BLOCK_SIZE + left + LastLength(last);
  }

  lemma CompleteTracks(d: HdfsInodes.Disk, held: set<u32>, own: set<u32>, pending: map<u32, u32>,
                       returned: map<u32, seq<u32>>, left: map<u32, u32>, good: set<u32>, i: u32, last: Option<nat>)
    requires Inv(d, held, own) && good <= own && own * pending.Keys <= good
    requires Tracks(d, pending, returned, left, good) && i in pending && i in d.inodes
    ensures i in returned && i in left
    ensures (if last.Some? then FinalSize(pending[i], last.value) else pending[i])
         == CompletedSize(|returned[i]|, left[i], last)
    ensures var d' := Completed(d, i, CompletedSize(|returned[i]|, left[i], last));
      && (i in good ==> FileCompleted(d', returned, left, i, last) && BlocksFor(d.inodes[i].size) == |returned[i]|)
      && (i in good && Fits(returned, left, i, last) ==>
            BlocksFor(d'.inodes[i].size) == |returned[i]| && Owned(d', d'.inodes[i]) == Owned(d, d.inodes[i]))
      && Tracks(d', pending - {i}, returned, left,
                if Fits(returned, left, i, last) then good else good - {i})
  {
    hide Ids, Owned, Inv, Tracks, BlocksFor, LastFits, FinalSize, CountOf, CompletedSize, FileCompleted, Answers;
    PendingIn(d, pending, returned, left, good, i);
    HeldIn(d, held, own);
    var k := |returned[i]|;
    var size := CompletedSize(k, left[i], last);
    RecordGivesSize(left[i], k, last);
    CompletedOthers(d, i, size);
    if i in good {
      GoodCompleted(d, held, own, pending, returned, left, good, i, last);
    }
    StillTracks(d, Completed(d, i, size), pending, returned, left, good,
                if Fits(returned, left, i, last) then good else good - {i}, i);
  }

  lemma GoodCompleted(d: HdfsInodes.Disk, held: set<u32>, own: set<u32>, pending: map<u32, u32>,
                      returned: map<u32, seq<u32>>, left: map<u32, u32>, good: set<u32>, i: u32, last: Option<nat>)
    requires Inv(d, held, own) && good <= own && Tracks(d, pending, returned, left, good) && i in pending && i in good
    ensures i in d.inodes && i in returned && i in left && BlocksFor(d.inodes[i].size) == |returned[i]|
    ensures var d' := Completed(d, i, CompletedSize(|returned[i]|, left[i], last));
      && FileCompleted(d', returned, left, i, last)
      && (Fits(returned, left, i, last) ==>
            && BlocksFor(d'.inodes[i].size) == |returned[i]| && Owned(d', d'.inodes[i]) == Owned(d, d.inodes[i])
            && Ids(d', d'.inodes[i]) == Ids(d, d.inodes[i]))
  {
    hide Ids, Owned, Inv, Tracks, BlocksFor, LastFits, FinalSize, CountOf, ReadIds, Answers;
    PendingSize(d, held, own, pending, returned, left, good, i);
    var k, l := |returned[i]|, left[i] + LastLength(last);
    RecordGivesSize(left[i], k, last);
    FinalBlocks(k, l);
    var d' := Completed(d, i, FinalSize(k * BLOCK_SIZE, l));
    forall beyond: nat -> u32
      ensures (ReadIds(d', d'.inodes[i], beyond) == returned[i]) <==> LastFits(k, l)
    {
      CompleteExact(d, i, k, l, beyond);
    }
    if Fits(returned, left, i, last) {
      OwnedPrefix(d, d', d.inodes[i], FinalSize(k * BLOCK_SIZE, l));
    }
  }

  lemma StillTracks(d: HdfsInodes.Disk, d': HdfsInodes.Disk, pending: map<u32, u32>, returned: map<u32, seq<u32>>,
                    left: map<u32, u32>, good: set<u32>, good': set<u32>, i: u32)
    requires Tracks(d, pending, returned, left, good) && d'.inodes.Keys == d.inodes.Keys && good' <= good
    requires forall j | j in d.inodes && j != i :: d'.inodes[j] == d.inodes[j]
    requires forall j | j in good' :: j in d.inodes && Ids(d', d'.inodes[j]) == Ids(d, d.inodes[j])
    ensures Tracks(d', pending - {i}, returned, left, good')
  {
    hide Ids;
  }

  /** The inode layer's part. */
  lemma SizeChanged(d: HdfsInodes.Disk, held: set<u32>, own: set<u32>, i: u32, size: u32)
    requires Inv(d, held, own) && i in d.inodes
    ensures var d' := Completed(d, i, size); var all := Elems(Owned(d, d.inodes[i]));
      && (i in own ==> all <= held)
      && (i !in own ==> Inv(d', held, own))
      && (i in own && BlocksFor(size) > BlocksFor(d.inodes[i].size) ==> Inv(d', held - all, own - {i}))
      && (i in own && BlocksFor(size) <= BlocksFor(d.inodes[i].size) ==>
            && Elems(Owned(d', d'.inodes[i])) <= all
            && Inv(d', held - (all - Elems(Owned(d', d'.inodes[i]))), own))
  {
    CompletedKeepsOthers(d, held, own, i, size);
    if i in own {
      OwnedIn(d, held, own, i);
      if BlocksFor(size) <= BlocksFor(d.inodes[i].size) {
        var d' := Completed(d, i, size);
        ShorterKeepsInv(d, held, own, i, size);
        OwnedPrefix(d, d', d.inodes[i], size);
        var all, mine := Owned(d, d.inodes[i]), Owned(d', d'.inodes[i]);
        assert Elems(mine) <= Elems(all) by {
          assert forall k | 0 <= k < |mine| :: mine[k] == all[k];
        }
        assert held - Elems(all) + Elems(mine) == held - (Elems(all) - Elems(mine));
      }
    }
  }

  lemma GoodIsRead(d: HdfsInodes.Disk, held: set<u32>, own: set<u32>, pending: map<u32, u32>,
                   returned: map<u32, seq<u32>>, left: map<u32, u32>, good: set<u32>, i: u32, beyond: nat -> u32)
    requires Inv(d, held, own) && good <= own && Tracks(d, pending, returned, left, good) && i in good
    ensures i in d.inodes && i in returned && Ids(d, d.inodes[i]) == ReadIds(d, d.inodes[i], beyond) == returned[i]
  {
    NeverTooLarge(d, held, own, i);
  }

  /** Blocks an append takes: the first indirect id also needs a block for the ids. */
  function BlocksNeeded(d: HdfsInodes.Disk, i: u32): nat
    requires i in d.inodes
  {
    if BlocksFor(d.inodes[i].size) == NDIRECT then 2 else 1
  }

  /** File `i` got block `bid` at its end, unless it is too large; the files in `own` kept their inodes and ids. */
  ghost predicate Grew(d: HdfsInodes.Disk, d': HdfsInodes.Disk, own: set<u32>, i: u32, bid: u32) {
    && i in d.inodes && d'.inodes.Keys == d.inodes.Keys
    && d'.inodes[i].size == d.inodes[i].size + (if BlocksFor(d.inodes[i].size) <= MAXFILE then BLOCK_SIZE else 0)
    && (BlocksFor(d.inodes[i].size) < MAXFILE ==> Ids(d', d'.inodes[i]) == Ids(d, d.inodes[i]) + [bid])
    && (forall j | j in d.inodes && j != i :: d'.inodes[j] == d.inodes[j])
    && forall j | j in own && j != i :: j in d.inodes && Ids(d', d.inodes[j]) == Ids(d, d.inodes[j])
  }

  lemma OneFree(used: set<u32>)
    requires 0 < |DataArea() - used| && used <= DataArea()
    ensures used != DataArea()
  {
    assert used == DataArea() ==> DataArea() - used == {};
  }

  lemma TwoFree(used: set<u32>, b: u32)
    requires 2 <= |DataArea() - used| && b in DataArea() - used && used <= DataArea()
    ensures used + {b} != DataArea()
  {
    assert DataArea() - (used + {b}) == (DataArea() - used) - {b};
    assert |(DataArea() - used) - {b}| > 0;
  }

  lemma IsFree(b: u32, used: set<u32>)
    requires IsLowest(b, DataArea() - used)
    ensures b in DataArea() && b !in used
  {
  }

  /** What the files of `own` hold after an append to `i` that took some free blocks. */
  ghost function HeldAfter(d: HdfsInodes.Disk, held: set<u32>, own: set<u32>, i: u32, taken: set<u32>): set<u32>
    requires i in d.inodes
  {
    if i in own then held + taken else held - BlocksOf(d, Sharers(d, own, i))
  }

  /** An append as the inode layer makes it. */
  ghost predicate Appends(d: HdfsInodes.Disk, d': HdfsInodes.Disk, held: set<u32>, own: set<u32>, i: u32,
                          bid: u32, taken: set<u32>)
    requires i in d.inodes
  {
    && Inv(d', HeldAfter(d, held, own, i, taken), own - Sharers(d, own, i))
    && Grew(d, d', own - Sharers(d, own, i), i, bid)
  }

  lemma HeldSplit(d: HdfsInodes.Disk, used: set<u32>, held: set<u32>, own: set<u32>, i: u32, used': set<u32>)
    requires Inv(d, held, own) && i in d.inodes && held <= used <= used'
    ensures var after := HeldAfter(d, held, own, i, used' - used);
      && after <= used' && used' - (used' - after) == after
      && (i in own ==> used' - after == used - held && own - Sharers(d, own, i) == own)
  {
    if i in own {
      NoSharers(d, held, own, i);
    }
    hide Inv, BlocksOf, Sharers;
  }

  lemma AppendOne(d: HdfsInodes.Disk, held: set<u32>, own: set<u32>, i: u32, bid: u32)
    requires Inv(d, held, own) && i in d.inodes && BlocksFor(d.inodes[i].size) < MAXFILE
    requires bid in DataArea() - held && BlocksFor(d.inodes[i].size) != NDIRECT
    ensures CanAppend(d, i) && Appends(d, Appended(d, i, bid, bid), held, own, i, bid, {bid})
  {
    RoomToAppend(d, i);
    TakenElems(d, i, bid, bid);
    assert NoDup(Taken(d, i, bid, bid));
    assert {bid, bid} == {bid};
    hide Inv, Ids, Owned, Appended, BlocksFor, CanAppend, DataArea, Taken, Sharers, BlocksOf;
    AppendAny(d, held, own, i, bid, bid);
  }

  lemma AppendTwo(d: HdfsInodes.Disk, held: set<u32>, own: set<u32>, i: u32, bid: u32, ibid: u32)
    requires Inv(d, held, own) && i in d.inodes && BlocksFor(d.inodes[i].size) == NDIRECT
    requires bid in DataArea() - held && ibid in DataArea() - held && ibid != bid
    ensures CanAppend(d, i) && Appends(d, Appended(d, i, bid, ibid), held, own, i, bid, {bid, ibid})
  {
    RoomToAppend(d, i);
    TakenElems(d, i, bid, ibid);
    assert NoDup(Taken(d, i, bid, ibid));
    hide Inv, Ids, Owned, Appended, BlocksFor, CanAppend, DataArea, Taken, Sharers, BlocksOf;
    AppendAny(d, held, own, i, bid, ibid);
  }

  lemma AppendsGives(d: HdfsInodes.Disk, d': HdfsInodes.Disk, held: set<u32>, own: set<u32>, i: u32,
                     bid: u32, taken: set<u32>)
    requires i in d.inodes && Appends(d, d', held, own, i, bid, taken)
    ensures Inv(d', HeldAfter(d, held, own, i, taken), own - Sharers(d, own, i))
    ensures Grew(d, d', own - Sharers(d, own, i), i, bid)
  {
  }

  lemma AppendAny(d: HdfsInodes.Disk, held: set<u32>, own: set<u32>, i: u32, bid: u32, ibid: u32)
    requires Inv(d, held, own) && CanAppend(d, i) && Elems(Taken(d, i, bid, ibid)) == {bid, ibid}
    requires NoDup(Taken(d, i, bid, ibid)) && {bid, ibid} <= DataArea() - held
    requires BlocksFor(d.inodes[i].size) != NDIRECT ==> ibid == bid
    ensures Appends(d, Appended(d, i, bid, ibid), held, own, i, bid, {bid, ibid})
  {
    CanAppendSize(d, i);
    hide Inv, Ids, Owned, Appended, BlocksFor, CanAppend, DataArea, Taken, Sharers, BlocksOf, NoDup;
    HeldIn(d, held, own);
    if i in own {
      NoSharers(d, held, own, i);
      assert own - {} == own;
      AppendKeepsInv(d, held, own, i, bid, ibid);
    } else {
      AppendForeign(d, held, own, i, bid, ibid);
    }
    AppendGrew(d, own - Sharers(d, own, i), i, bid, ibid);
  }

  lemma AppendGrew(d: HdfsInodes.Disk, own: set<u32>, i: u32, bid: u32, ibid: u32)
    requires CanAppend(d, i) && own <= d.inodes.Keys
    requires forall j | j in own && j != i :: Ids(Appended(d, i, bid, ibid), d.inodes[j]) == Ids(d, d.inodes[j])
    ensures Grew(d, Appended(d, i, bid, ibid), own, i, bid)
  {
    AppendedIds(d, i, bid, ibid);
    AppendedInodes(d, i, bid, ibid);
    CanAppendSize(d, i);
    hide Ids, Owned, Appended, BlocksFor, CanAppend, Taken;
  }

  lemma AppendForeign(d: HdfsInodes.Disk, held: set<u32>, own: set<u32>, i: u32, bid: u32, ibid: u32)
    requires Inv(d, held, own) && CanAppend(d, i) && i !in own && ibid !in held
    ensures var d', sharers := Appended(d, i, bid, ibid), Sharers(d, own, i);
      && Inv(d', held - BlocksOf(d, sharers), own - sharers)
      && forall j | j in own - sharers :: j in d.inodes && Ids(d', d.inodes[j]) == Ids(d, d.inodes[j])
  {
    var d', sharers := Appended(d, i, bid, ibid), Sharers(d, own, i);
    SharersIn(d, own, i);
    HeldIn(d, held, own);
    AppendedInodes(d, i, bid, ibid);
    AppendOutside(d, held, own, i, bid, ibid);
    GiveUp(d, held, own, sharers);
    hide Inv, Ids, Owned, Appended, BlocksFor, CanAppend, DataArea, Taken, Sharers, BlocksOf, NoDup;
    SameKeepsInv(d, d', held - BlocksOf(d, sharers), own - sharers);
  }

  lemma CanAppendSize(d: HdfsInodes.Disk, i: u32)
    requires CanAppend(d, i)
    ensures i in d.inodes && BlocksFor(d.inodes[i].size) < MAXFILE
  {
  }

  lemma SharersIn(d: HdfsInodes.Disk, own: set<u32>, i: u32)
    requires i in d.inodes
    ensures Sharers(d, own, i) <= own
    ensures BlocksFor(d.inodes[i].size) >= MAXFILE ==> Sharers(d, own, i) == {}
  {
  }

  function Oversized(d: HdfsInodes.Disk, i: u32): HdfsInodes.Disk
    requires i in d.inodes && BlocksFor(d.inodes[i].size) == MAXFILE
  {
    RoomToAppend(d, i);
    Completed(d, i, d.inodes[i].size + BLOCK_SIZE)
  }

  lemma AppendOver(d: HdfsInodes.Disk, held: set<u32>, own: set<u32>, i: u32, bid: u32)
    requires Inv(d, held, own) && i in d.inodes && BlocksFor(d.inodes[i].size) == MAXFILE
    ensures Appends(d, Oversized(d, i), held, own, i, bid, {bid})
  {
    hide Inv, Ids, Owned, BlocksFor, Sharers, BlocksOf, HeldAfter, Completed;
    RoomToAppend(d, i);
    LargeAlone(d, held, own, i);
    CompletedKeepsOthers(d, held, own, i, d.inodes[i].size + BLOCK_SIZE);
    CompletedOthers(d, i, d.inodes[i].size + BLOCK_SIZE);
    SizeIs(d, i, d.inodes[i].size + BLOCK_SIZE);
    HeldIn(d, held, own);
  }

  lemma SizeIs(d: HdfsInodes.Disk, i: u32, size: u32)
    requires i in d.inodes
    ensures Completed(d, i, size).inodes[i].size == size
  {
  }

  lemma AppendNothing(d: HdfsInodes.Disk, held: set<u32>, own: set<u32>, i: u32, bid: u32)
    requires Inv(d, held, own) && i in d.inodes && BlocksFor(d.inodes[i].size) > MAXFILE
    ensures Appends(d, d, held, own, i, bid, {bid})
  {
    LargeAlone(d, held, own, i);
    HeldIn(d, held, own);
    hide Inv, Ids, Owned, BlocksFor, Sharers, BlocksOf;
  }

  lemma LargeAlone(d: HdfsInodes.Disk, held: set<u32>, own: set<u32>, i: u32)
    requires Inv(d, held, own) && i in d.inodes && BlocksFor(d.inodes[i].size) >= MAXFILE
    ensures i !in own && own - Sharers(d, own, i) == own
    ensures forall taken :: HeldAfter(d, held, own, i, taken) == held
  {
    NotLarge(d, held, own, i);
    SharersIn(d, own, i);
    assert BlocksOf(d, {}) == {};
  }

  lemma NotLarge(d: HdfsInodes.Disk, held: set<u32>, own: set<u32>, i: u32)
    requires Inv(d, held, own) && i in d.inodes && BlocksFor(d.inodes[i].size) >= MAXFILE
    ensures i !in own
  {
    if i in own {
      NeverTooLarge(d, held, own, i);
    }
  }

  // ---------- runs ----------

  lemma SomeFree()
    ensures |DataArea()| >= 2
  {
    var b: u32, c: u32 := FIRST_BLOCK, FIRST_BLOCK + 1;
    assert IsData(b) && IsData(c) && {b, c} <= DataArea();
    assert DataArea() == {b, c} + (DataArea() - {b, c});
  }

  lemma MoreFree(used: set<u32>)
    requires |used| <= 1 && used <= DataArea()
    ensures |DataArea() - used| >= 1
  {
    SomeFree();
    assert DataArea() == used + (DataArea() - used);
    hide DataArea;
  }

  lemma OneBlockLeft()
    ensures CompletedSize(0, BLOCK_SIZE, None) == BLOCK_SIZE && !LastFits(0, BLOCK_SIZE + LastLength(None))
    ensures CountOf(0, 1) == BLOCK_SIZE && BlocksFor(BLOCK_SIZE) == 1 && BlocksFor(0) == 0
  {
  }

  /** A small file's blocks are those it lists. */
  lemma SmallFile(d: HdfsInodes.Disk, n: Inode, beyond: nat -> u32)
    requires BlocksFor(n.size) <= NDIRECT
    ensures Ids(d, n) == n.blocks[..BlocksFor(n.size)]
    ensures ReadOwned(d, n, beyond) == Ids(d, n) && Owned(d, n) == Ids(d, n)
  {
  }

  lemma IsReturned(d: HdfsInodes.Disk, pending: map<u32, u32>, returned: map<u32, seq<u32>>,
                   left: map<u32, u32>, good: set<u32>, i: u32)
    requires Tracks(d, pending, returned, left, good) && i in good
    ensures i in d.inodes && i in returned && Ids(d, d.inodes[i]) == returned[i]
    ensures i in pending ==> i in left && d.inodes[i].size == Capped(|returned[i]|) * BLOCK_SIZE
  {
  }

  /** A new file gets its first block, the lowest that is free. */
  method FirstBlock(n: NameNode, ino: u32, junk: seq<u32>) returns (b: u32)
    requires n.Valid() && ino !in n.im.inodes && |junk| == NDIRECT + 1 && n.im.FreeBlocks() >= 1
    modifies n, n.im
    ensures n.Valid() && IsLowest(b, DataArea() - old(n.im.Used())) && n.im.Used() == old(n.im.Used()) + {b}
    ensures n.good == old(n.good) + {ino} && n.im.own == old(n.im.own) + {ino} && n.im.others == old(n.im.others)
    ensures n.im.inodes.Keys == old(n.im.inodes).Keys + {ino}
    ensures forall j | j in old(n.im.inodes) :: n.im.inodes[j] == old(n.im.inodes)[j]
    ensures n.im.inodes[ino].size == BLOCK_SIZE && n.im.inodes[ino].blocks[0] == b
    ensures n.returned == old(n.returned)[ino := [b]]
    ensures n.left == old(n.left)[ino := Recorded(old(n.pendingWrite), ino)]
    ensures n.pendingWrite
         == old(n.pendingWrite)[ino := CountOf(Recorded(old(n.pendingWrite), ino), 1)]
  {
    hide Inv, Tracks, Ids, BlocksFor, Owned, DataArea, Tiles, FinalSize, IsData, CountOf, Sharers, IsLowest, BlockAdded,
         Answers, InodeManager.Used, InodeManager.Valid;
    OneBlockLeft();
    n.FinishCreate(ino, junk);
    ghost var pending, returned := n.pendingWrite, n.returned;
    var r := n.AddBlock(ino);
    b := r.value.block_id;
    FirstAdded(pending, returned, n.left, n.pendingWrite, n.returned, ino, r.value);
    FirstListed(n.im.Image(), n.pendingWrite, n.returned, n.left, n.good, ino, b);
  }

  lemma FirstAdded(pending: map<u32, u32>, returned: map<u32, seq<u32>>, left: map<u32, u32>,
                   pending': map<u32, u32>, returned': map<u32, seq<u32>>, i: u32, lb: LocatedBlock)
    requires BlockAdded(pending, returned, left, pending', returned', i, lb) && i in returned && returned[i] == []
    ensures i in left && pending' == pending[i := CountOf(left[i], 1)] && returned' == returned[i := [lb.block_id]]
  {
    assert [] + [lb.block_id] == [lb.block_id];
  }

  lemma FirstListed(d: HdfsInodes.Disk, pending: map<u32, u32>, returned: map<u32, seq<u32>>,
                    left: map<u32, u32>, good: set<u32>, i: u32, b: u32)
    requires Tracks(d, pending, returned, left, good) && i in good && i in pending
    requires i in returned && returned[i] == [b]
    ensures i in d.inodes && d.inodes[i].size == BLOCK_SIZE && d.inodes[i].blocks[0] == b
  {
    IsReturned(d, pending, returned, left, good, i);
    SmallFile(d, d.inodes[i], k => 0);
    assert Ids(d, d.inodes[i])[0] == b;
  }

  /** A file is created, gets a block and is deleted while it is being written; its record stays. */
  method StaleRecord(n: NameNode, ino: u32, junk: seq<u32>, beyond: nat -> u32)
    requires n.Valid() && ino !in n.im.inodes && ino !in n.pendingWrite && |junk| == NDIRECT + 1
    requires n.im.FreeBlocks() >= 1
    modifies n, n.im
    ensures n.Valid() && n.im.inodes == old(n.im.inodes) && n.im.Used() == old(n.im.Used())
    ensures n.good == old(n.good) && n.im.own == old(n.im.own) && n.im.others == old(n.im.others)
    ensures n.returned == old(n.returned) && n.pendingWrite == old(n.pendingWrite)[ino := BLOCK_SIZE]
  {
    hide Inv, Tracks, Ids, BlocksFor, Owned, DataArea, Tiles, FinalSize, IsData, CountOf, IsLowest, Hit, Answers,
         InodeManager.Used;
    Fresh(n.im.Image(), n.im.Used() - n.im.others, n.im.own, n.pendingWrite, n.returned, n.left, n.good);
    OneBlockLeft();
    var b := FirstBlock(n, ino, junk);
    OneListed(n.im.Image(), n.im.inodes[ino], beyond);
    assert Freed(n.im.Image(), ino, beyond) == {b};
    NotUsed(b, old(n.im.Used()));
    n.Remove(ino, beyond);
  }

  lemma Fresh(d: HdfsInodes.Disk, held: set<u32>, own: set<u32>, pending: map<u32, u32>,
              returned: map<u32, seq<u32>>, left: map<u32, u32>, good: set<u32>)
    requires Inv(d, held, own) && Tracks(d, pending, returned, left, good)
    ensures own <= d.inodes.Keys && returned.Keys == d.inodes.Keys
  {
  }

  lemma NotUsed(b: u32, used: set<u32>)
    requires IsLowest(b, DataArea() - used)
    ensures used + {b} - {b} == used
  {
  }

  /**
   * A file is created, gets a block and is deleted while it is being written;
   * the next file with its number starts with a record of one block, and when
   * it is completed without any block its list is not the empty one.
   */
  method DeletedWhileWritten(ino: u32, junk: seq<u32>, beyond: nat -> u32) returns (n: NameNode, r: Outcome<bool>)
    requires |junk| == NDIRECT + 1
    ensures fresh(n) && n.Valid() && n.returned == map[ino := []] && ino in n.im.inodes
    ensures r.Ok? && n.im.inodes[ino].size == BLOCK_SIZE && Ids(n.im.Image(), n.im.inodes[ino]) != []
  {
    hide Inv, Tracks, Ids, BlocksFor, Owned, DataArea, Tiles, FinalSize, IsData, CompletedSize, LastFits, Answers,
         InodeManager.Valid, AsReported;
    n := new NameNode();
    MoreFree({});
    StaleRecord(n, ino, junk, beyond);
    n.FinishCreate(ino, junk);
    OneBlockLeft();
    Misfits(n.returned, n.left, ino);
    r := n.Complete(ino, None);
    OneListed(n.im.Image(), n.im.inodes[ino], beyond);
  }

  /** Number 2 has such a record, and file 3 is being written and has block `b`. */
  method StaleBeside(junk: seq<u32>, beyond: nat -> u32) returns (n: NameNode, b: u32)
    requires |junk| == NDIRECT + 1
    ensures fresh(n) && fresh(n.im) && n.Valid() && n.im.inodes.Keys == {3} && n.im.Used() == {b} <= DataArea()
    ensures n.good == {3} && n.im.own == {3} && n.returned == map[3 := [b]] && IsLowest(b, DataArea())
    ensures n.pendingWrite.Keys == {2, 3} && n.pendingWrite[2] == BLOCK_SIZE
    ensures n.im.inodes[3].size == BLOCK_SIZE && n.im.inodes[3].blocks[0] == b
  {
    hide Inv, Tracks, Ids, BlocksFor, Owned, DataArea, IsData, CountOf, IsLowest, Answers,
         InodeManager.Valid, InodeManager.Used, AsReported;
    n := new NameNode();
    MoreFree({});
    b := FirstBlock(n, 3, junk);
    LowestOf(b);
    MoreFree({b});
    StaleRecord(n, 2, junk, beyond);
  }

  lemma Misfits(returned: map<u32, seq<u32>>, left: map<u32, u32>, i: u32)
    requires i in returned && i in left && returned[i] == [] && left[i] == BLOCK_SIZE
    ensures CompletedSize(0, BLOCK_SIZE, None) == BLOCK_SIZE && !Fits(returned, left, i, None)
  {
  }

  lemma OneListed(d: HdfsInodes.Disk, n: Inode, beyond: nat -> u32)
    requires n.size == BLOCK_SIZE
    ensures Ids(d, n) == [n.blocks[0]] && Elems(ReadOwned(d, n, beyond)) == {n.blocks[0]}
  {
    OneBlockLeft();
    SmallFile(d, n, beyond);
    hide BlocksFor, Ids, ReadOwned;
    assert n.blocks[..1] == [n.blocks[0]];
  }

  /**
   * Then number 2 is used again, and its uninitialised block list happens to
   * begin with `b`: completed without a block, file 2 lists the block of file 3.
   */
  method SharedBlock(junk: seq<u32>, beyond: nat -> u32) returns (n: NameNode, b: u32)
    requires |junk| == NDIRECT + 1
    ensures fresh(n) && fresh(n.im) && n.Valid() && n.im.inodes.Keys == {2, 3} && n.im.Used() == {b} <= DataArea()
    ensures n.good == {3} && n.im.own == {3} && n.returned == map[2 := [], 3 := [b]] && IsLowest(b, DataArea())
    ensures Ids(n.im.Image(), n.im.inodes[2]) == Ids(n.im.Image(), n.im.inodes[3]) == [b]
    ensures n.im.inodes[2].size == n.im.inodes[3].size == BLOCK_SIZE && n.pendingWrite.Keys == {3}
  {
    hide Inv, Tracks, Ids, BlocksFor, Owned, DataArea, IsData, CompletedSize, CountOf, Fits, FileCompleted, IsLowest,
         Answers, InodeManager.Valid, InodeManager.Used, AsReported;
    n, b := StaleBeside(junk, beyond);
    n.FinishCreate(2, junk[0 := b]);
    OneBlockLeft();
    Misfits(n.returned, n.left, 2);
    var r := n.Complete(2, None);
    OneListed(n.im.Image(), n.im.inodes[2], beyond);
    OneListed(n.im.Image(), n.im.inodes[3], beyond);
  }

  lemma LowestOf(b: u32)
    requires IsLowest(b, DataArea() - {})
    ensures IsLowest(b, DataArea()) && {b} <= DataArea()
  {
    hide DataArea;
    assert DataArea() - {} == DataArea();
  }

  /** When file 2 is deleted, the block of file 3 becomes free. */
  method FreedUnder3(junk: seq<u32>, beyond: nat -> u32) returns (n: NameNode, b: u32)
    requires |junk| == NDIRECT + 1
    ensures fresh(n) && fresh(n.im) && n.Valid() && n.im.inodes.Keys == {3} && n.im.Used() == {} <= DataArea()
    ensures n.im.inodes[3].size == BLOCK_SIZE && n.im.inodes[3].blocks[0] == b && IsLowest(b, DataArea())
    ensures n.returned == map[3 := [b]] && n.pendingWrite.Keys == {3}
  {
    hide Inv, Tracks, Ids, BlocksFor, Owned, DataArea, IsData, Hit, IsLowest, Answers, InodeManager.Valid, AsReported;
    n, b := SharedBlock(junk, beyond);
    OneListed(n.im.Image(), n.im.inodes[2], beyond);
    OneListed(n.im.Image(), n.im.inodes[3], beyond);
    assert Freed(n.im.Image(), 2, beyond) == {b};
    n.Remove(2, beyond);
  }

  /** And is handed out a second time, for file 4, while file 3 is being written. */
  method HandedOutTwice(junk: seq<u32>, beyond: nat -> u32) returns (n: NameNode, b: u32)
    requires |junk| == NDIRECT + 1
    ensures fresh(n) && n.Valid() && {3, 4} <= n.im.inodes.Keys && {3, 4} <= n.pendingWrite.Keys
    ensures n.returned == map[3 := [b], 4 := [b]]
    ensures Ids(n.im.Image(), n.im.inodes[3]) == Ids(n.im.Image(), n.im.inodes[4]) == [b]
  {
    hide Inv, Tracks, Ids, BlocksFor, Owned, DataArea, IsData, CountOf, IsLowest, Answers,
         InodeManager.Valid, AsReported;
    n, b := FreedUnder3(junk, beyond);
    MoreFree({});
    var c := FirstBlock(n, 4, junk);
    SameLowest(b, c);
    OneListed(n.im.Image(), n.im.inodes[3], beyond);
    OneListed(n.im.Image(), n.im.inodes[4], beyond);
  }

  lemma SameLowest(b: u32, c: u32)
    requires IsLowest(b, DataArea()) && IsLowest(c, DataArea() - {})
    ensures b == c
  {
    LowestOf(c);
  }
}
