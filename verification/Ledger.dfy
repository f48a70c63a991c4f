/** Ownership of disk blocks: who owns which block, against the allocator's bitmap. */
module Ledger {

  import opened Bytes

  /**
   * Every block marked used has exactly one owner among the inodes, nothing
   * an inode owns is unmarked, and all of it lies in the data area.
   */
  ghost predicate Balanced(own: map<u32, set<u32>>, used: set<u32>, data: set<u32>) {
    && used <= data
    && (forall i | i in own :: own[i] <= used)
    && (forall i, j | i in own && j in own && i != j :: own[i] !! own[j])
    && (forall b | b in used :: exists i :: i in own && b in own[i])
  }

  lemma SoleOwner(own: map<u32, set<u32>>, used: set<u32>, data: set<u32>, i: u32, j: u32, b: u32)
    requires Balanced(own, used, data) && i in own && j in own && b in own[i] && b in own[j]
    ensures i == j
  {
  }

  /** One inode exchanges its blocks; blocks it gives up are unmarked, blocks it takes were free. */
  lemma Exchange(own: map<u32, set<u32>>, used: set<u32>, data: set<u32>, i: u32, mine: set<u32>)
    requires Balanced(own, used, data)
    requires i in own
    requires mine <= data && mine !! (used - own[i])
    ensures Balanced(own[i := mine], used - own[i] + mine, data)
  {
    var own', used' := own[i := mine], used - own[i] + mine;
    forall b | b in used'
      ensures exists j :: j in own' && b in own'[j]
    {
      if b in mine {
        assert i in own' && b in own'[i];
      } else {
        var j :| j in own && b in own[j];
        assert j in own' && b in own'[j];
      }
    }
  }

  /** One inode takes free blocks. */
  lemma Extend(own: map<u32, set<u32>>, used: set<u32>, data: set<u32>, i: u32, taken: set<u32>)
    requires Balanced(own, used, data) && i in own && taken <= data - used
    ensures Balanced(own[i := own[i] + taken], used + taken, data)
  {
    Exchange(own, used, data, i, own[i] + taken);
    assert used - own[i] + (own[i] + taken) == used + taken;
  }

  /** A new inode starts with nothing. */
  lemma NewOwner(own: map<u32, set<u32>>, used: set<u32>, data: set<u32>, i: u32)
    requires Balanced(own, used, data) && i !in own
    ensures Balanced(own[i := {}], used, data)
  {
    var own' := own[i := {}];
    forall b | b in used
      ensures exists j :: j in own' && b in own'[j]
    {
      var j :| j in own && b in own[j];
      assert j in own' && b in own'[j];
    }
  }

  /** An inode leaves with all its blocks. */
  lemma Leave(own: map<u32, set<u32>>, used: set<u32>, data: set<u32>, i: u32)
    requires Balanced(own, used, data) && i in own
    ensures Balanced(own - {i}, used - own[i], data)
  {
    var own', used' := own - {i}, used - own[i];
    forall b | b in used'
      ensures exists j :: j in own' && b in own'[j]
    {
      var j :| j in own && b in own[j];
      assert j in own' && b in own'[j];
    }
  }

  ghost function OwnedBy(own: map<u32, set<u32>>, some: set<u32>): set<u32> {
    set i, b | i in some && i in own && b in own[i] :: b
  }

  /** Several inodes leave with all their blocks. */
  lemma LeaveAll(own: map<u32, set<u32>>, used: set<u32>, data: set<u32>, some: set<u32>)
    requires Balanced(own, used, data)
    ensures Balanced(own - some, used - OwnedBy(own, some), data)
  {
    var own', used' := own - some, used - OwnedBy(own, some);
    forall b | b in used'
      ensures exists j :: j in own' && b in own'[j]
    {
      var j :| j in own && b in own[j];
      assert j in own' && b in own'[j];
    }
  }
}
