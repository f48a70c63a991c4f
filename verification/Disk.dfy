/** The raw disk and the block allocator (CSE/cselab1backup/inode_manager.cc, disk and block layers). */
module Disk {

  import opened Bytes

  const BLOCK_SIZE: nat := 512
  const BLOCK_NUM: nat := 32768
  const BPB: nat := BLOCK_SIZE * 8
  const INODE_NUM: nat := 1024
  const IPB: nat := 2
  const NDIRECT: nat := 32
  const NINDIRECT: nat := 128
  const MAXFILE: nat := NDIRECT + NINDIRECT
  /** First block after the inode table. */
  const FIRST_BLOCK: nat := 3 + BLOCK_NUM / BPB + INODE_NUM / IPB

  const ZERO_BLOCK: seq<byte> := seq(BLOCK_SIZE, i => 0)

  type Block = b: seq<byte> | |b| == BLOCK_SIZE witness ZERO_BLOCK
  const ZERO_DISK: seq<Block> := seq(BLOCK_NUM, i => ZERO_BLOCK)

  type Image = d: seq<Block> | |d| == BLOCK_NUM witness ZERO_DISK

  predicate IsData(b: u32) {
    FIRST_BLOCK <= b < BLOCK_NUM
  }

  ghost function DataArea(): set<u32> {
    set b: u32 | 0 <= b < BLOCK_NUM && IsData(b)
  }

  /** Distinct block ids taken from the set `free`. */
  ghost predicate Fresh(ids: seq<u32>, free: set<u32>) {
    NoDup(ids) && Elems(ids) <= free
  }

  lemma FreshSnoc(ids: seq<u32>, b: u32, free: set<u32>)
    requires Fresh(ids, free) && b in free - Elems(ids)
    ensures Fresh(ids + [b], free)
    ensures Elems(ids + [b]) == Elems(ids) + {b}
  {
    assert Elems([b]) == {b};
    NoDupConcat(ids, [b]);
  }

  /** `used'` is the bitmap `used` after handing out `ids`, one free data block after another. */
  ghost predicate Grown(used: set<u32>, ids: seq<u32>, used': set<u32>) {
    if ids == [] then
      used' == used
    else
      var b := ids[|ids| - 1];
      b in used' && b in DataArea() && Grown(used, ids[..|ids| - 1], used' - {b})
  }

  lemma GrownNone(used: set<u32>)
    ensures Grown(used, [], used)
  {
  }

  lemma GrownSnoc(used: set<u32>, ids: seq<u32>, used': set<u32>, b: u32)
    requires Grown(used, ids, used') && b in DataArea() - used'
    ensures Grown(used, ids + [b], used' + {b})
    ensures |DataArea() - (used' + {b})| == |DataArea() - used'| - 1
  {
    assert (ids + [b])[..|ids|] == ids && used' + {b} - {b} == used';
    assert DataArea() - (used' + {b}) == (DataArea() - used') - {b};
  }

  lemma {:induction false} GrownFresh(used: set<u32>, ids: seq<u32>, used': set<u32>)
    requires Grown(used, ids, used')
    ensures Fresh(ids, DataArea() - used)
    ensures used' == used + Elems(ids)
  {
    if ids != [] {
      var t, b := ids[..|ids| - 1], ids[|ids| - 1];
      GrownFresh(used, t, used' - {b});
      FreshSnoc(t, b, DataArea() - used);
      assert ids == t + [b];
    }
  }

  /** Array of blocks; accesses outside it are refused and leave everything as it was. */
  class RawDisk {
    const blocks: array<Block>

    constructor ()
      ensures fresh(blocks) && blocks.Length == BLOCK_NUM
      ensures forall b :: 0 <= b < BLOCK_NUM ==> blocks[b] == ZERO_BLOCK
    {
      blocks := new Block[BLOCK_NUM](i => ZERO_BLOCK);
    }

    /** `buf` is what the caller's buffer held before the call. */
    method ReadBlock(id: u32, buf: Block) returns (out: Block)
      requires blocks.Length == BLOCK_NUM
      ensures out == if id < BLOCK_NUM then blocks[id] else buf
    {
      if id >= BLOCK_NUM {
        return buf;
      }
      out := blocks[id];
    }

    method WriteBlock(id: u32, buf: Block)
      requires blocks.Length == BLOCK_NUM
      modifies blocks
      ensures blocks[..] == if id < BLOCK_NUM then old(blocks[..])[id := buf] else old(blocks[..])
    {
      if id >= BLOCK_NUM {
        return;
      }
      blocks[id] := buf;
    }
  }

  class BlockManager {
    const d: RawDisk
    var using_blocks: map<u32, int>

    constructor ()
      ensures fresh(d) && fresh(d.blocks) && Valid()
      ensures Used() == {}
      ensures forall b :: 0 <= b < BLOCK_NUM ==> Contents()[b] == ZERO_BLOCK
    {
      d := new RawDisk();
      using_blocks := map[];
    }

    ghost predicate Valid() {
      d.blocks.Length == BLOCK_NUM
    }

    ghost function Contents(): Image
      requires Valid()
      reads d.blocks
    {
      d.blocks[..]
    }

    /** Data blocks whose entry in the bitmap is non-zero. */
    ghost function Used(): (s: set<u32>)
      reads this
      ensures s <= DataArea()
    {
      set b | b in using_blocks && using_blocks[b] != 0 && IsData(b)
    }

    /** Hands out the lowest free data block, or 0 when there is none. */
    method AllocBlock() returns (id: u32)
      modifies this`using_blocks
      ensures Used() == old(Used()) + (if id == 0 then {} else {id})
      ensures id == 0 <==> old(Used()) == DataArea()
      ensures id != 0 ==> id in DataArea() - old(Used())
      ensures id != 0 ==> forall b: u32 :: FIRST_BLOCK <= b < id ==> b in old(Used())
    {
      var i: nat := FIRST_BLOCK;
      while i < BLOCK_NUM
        invariant FIRST_BLOCK <= i <= BLOCK_NUM
        invariant unchanged(this)
        invariant forall b: u32 :: FIRST_BLOCK <= b < i ==> b in Used()
      {
        if i !in using_blocks || using_blocks[i] == 0 {
          using_blocks := using_blocks[i := 1];
          return i;
        }
        i := i + 1;
      }
      id := 0;
    }

    method FreeBlock(id: u32)
      modifies this`using_blocks
      ensures Used() == old(Used()) - {id}
    {
      if id < FIRST_BLOCK || id >= BLOCK_NUM {
        return;
      }
      using_blocks := using_blocks[id := 0];
    }

    /** The loops that fill part of an id array: `for (i = lo; i < hi; i++) ids[i] = alloc_block();`. */
    method AllocRange(ids: seq<u32>, lo: nat, hi: nat) returns (r: seq<u32>)
      requires lo <= hi <= |ids|
      requires hi - lo <= |DataArea() - Used()|
      modifies this`using_blocks
      ensures |r| == |ids| && r[..lo] == ids[..lo] && r[hi..] == ids[hi..]
      ensures Grown(old(Used()), r[lo..hi], Used())
    {
      hide Grown, DataArea, IsData, Fresh;
      r := ids;
      var i := lo;
      ghost var used, got: seq<u32> := Used(), [];
      GrownNone(used);
      while i < hi
        invariant lo <= i <= hi && |got| == i - lo
        invariant r == ids[..lo] + got + ids[i..]
        invariant Grown(used, got, Used())
        invariant hi - i <= |DataArea() - Used()|
      {
        ghost var before := Used();
        var b := AllocBlock();
        r := r[i := b];
        SpliceSet(ids[..lo], got, ids[i..], b);
        GrownSnoc(used, got, before, b);
        got := got + [b];
        i := i + 1;
      }
      SpliceParts(ids[..lo], got, ids[i..]);
    }

    /** The loops that release part of an id array. */
    method FreeRange(ids: seq<u32>, lo: nat, hi: nat)
      requires lo <= hi <= |ids|
      modifies this`using_blocks
      ensures Used() == old(Used()) - Elems(ids[lo..hi])
    {
      var i := lo;
      while i < hi
        invariant lo <= i <= hi
        invariant Used() == old(Used()) - Elems(ids[lo..i])
      {
        FreeBlock(ids[i]);
        i := i + 1;
        assert ids[lo..i] == ids[lo..i - 1] + [ids[i - 1]];
      }
    }
  }
}
