/** Directories as lists of 64-byte entries, and what is reachable from an inode. */
module Namespace {

  import opened Bytes
  import opened InodeImage

  const MAXFILENAMELEN: nat := 60
  const MAXDIRENTRYLEN: nat := 64

  const T_DIR: u32 := 1
  const T_FILE: u32 := 2
  const T_SYMLINK: u32 := 3

  /** The freshly formatted file system: an empty root directory. */
  function OnlyRoot(): map<u32, File> {
    map[1 := File.File(T_DIR, [])]
  }

  /** Bytes of a file, none for an inode that is not live. */
  function DataOf(files: map<u32, File>, i: u32): seq<byte> {
    if i in files then files[i].data else []
  }

  /** The inode number stored in entry `k`. */
  function EntryInum(data: seq<byte>, k: nat): u32
    requires (k + 1) * MAXDIRENTRYLEN <= |data|
  {
    FromLe32(data[k * MAXDIRENTRYLEN + MAXFILENAMELEN..(k + 1) * MAXDIRENTRYLEN])
  }

  function Subs(data: seq<byte>): (s: seq<u32>)
    ensures |s| == |data| / MAXDIRENTRYLEN
  {
    seq(|data| / MAXDIRENTRYLEN, k requires 0 <= k < |data| / MAXDIRENTRYLEN => EntryInum(data, k))
  }

  /** The inode numbers a directory names; nothing for other inodes. */
  function Kids(files: map<u32, File>, i: u32): seq<u32> {
    if i in files && files[i].typ == T_DIR then Subs(files[i].data) else []
  }

  predicate WholeEntries(files: map<u32, File>) {
    forall i | i in files && files[i].typ == T_DIR :: |files[i].data| % MAXDIRENTRYLEN == 0
  }

  /** No directory contains itself, directly or through others: live children rank lower. */
  ghost predicate Ranked(files: map<u32, File>, rank: map<u32, nat>) {
    && files.Keys <= rank.Keys
    && forall i, c | i in files && c in Kids(files, i) && c in files :: rank[c] < rank[i]
  }

  function Height(files: map<u32, File>, rank: map<u32, nat>, i: u32): nat {
    if i in files && i in rank then rank[i] + 1 else 0
  }

  /** Live inodes below `i`, itself included. */
  ghost function Subtree(files: map<u32, File>, rank: map<u32, nat>, i: u32): (s: set<u32>)
    requires Ranked(files, rank)
    ensures s <= files.Keys
    decreases Height(files, rank, i)
  {
    if i !in files then {}
    else {i} + (set c, x | c in Kids(files, i) && c in files && x in Subtree(files, rank, c) :: x)
  }

  /** Union of the subtrees of several inodes. */
  ghost function Forest(files: map<u32, File>, rank: map<u32, nat>, s: seq<u32>): set<u32>
    requires Ranked(files, rank)
  {
    set c, x | c in s && x in Subtree(files, rank, c) :: x
  }

  /** A path through live directories. */
  ghost predicate IsPath(files: map<u32, File>, p: seq<u32>) {
    && p != []
    && (forall k | 0 <= k < |p| :: p[k] in files)
    && (forall k | 0 <= k < |p| - 1 :: p[k + 1] in Kids(files, p[k]))
  }

  ghost predicate Reaches(files: map<u32, File>, i: u32, x: u32) {
    exists p :: IsPath(files, p) && p[0] == i && p[|p| - 1] == x
  }

  /** The subtree is what can be reached by a path, however it is ranked. */
  lemma SubtreeIsReachable(files: map<u32, File>, rank: map<u32, nat>, i: u32, x: u32)
    requires Ranked(files, rank)
    ensures x in Subtree(files, rank, i) <==> Reaches(files, i, x)
  {
    if x in Subtree(files, rank, i) {
      SubtreePath(files, rank, i, x);
    }
    if Reaches(files, i, x) {
      var p :| IsPath(files, p) && p[0] == i && p[|p| - 1] == x;
      PathInSubtree(files, rank, p);
    }
  }

  lemma {:induction false} SubtreePath(files: map<u32, File>, rank: map<u32, nat>, i: u32, x: u32)
    requires Ranked(files, rank) && x in Subtree(files, rank, i)
    ensures Reaches(files, i, x)
    decreases Height(files, rank, i)
  {
    hide Kids, Reaches;
    if x == i {
      ReachesItself(files, i);
    } else {
      var c :| c in Kids(files, i) && c in files && x in Subtree(files, rank, c);
      SubtreePath(files, rank, c, x);
      ReachesOn(files, i, c, x);
    }
  }

  lemma ReachesItself(files: map<u32, File>, i: u32)
    requires i in files
    ensures Reaches(files, i, i)
  {
    assert IsPath(files, [i]);
  }

  lemma ReachesOn(files: map<u32, File>, i: u32, c: u32, x: u32)
    requires i in files && c in Kids(files, i) && Reaches(files, c, x)
    ensures Reaches(files, i, x)
  {
    hide Kids;
    var p :| IsPath(files, p) && p[0] == c && p[|p| - 1] == x;
    PathCons(files, i, p);
    hide IsPath;
    assert ([i] + p)[0] == i && ([i] + p)[|p|] == x;
  }

  lemma PathCons(files: map<u32, File>, i: u32, p: seq<u32>)
    requires i in files && IsPath(files, p) && p[0] in Kids(files, i)
    ensures IsPath(files, [i] + p)
  {
    hide Kids;
    var q := [i] + p;
    forall k | 0 <= k < |q| - 1
      ensures q[k + 1] in Kids(files, q[k])
    {
      assert q[k + 1] == p[k];
    }
  }

  lemma {:induction false} PathInSubtree(files: map<u32, File>, rank: map<u32, nat>, p: seq<u32>)
    requires Ranked(files, rank) && IsPath(files, p)
    ensures p[|p| - 1] in Subtree(files, rank, p[0])
  {
    hide Kids;
    if |p| > 1 {
      PathInSubtree(files, rank, p[1..]);
      assert p[0 + 1] in Kids(files, p[0]);
    }
  }

  /** A path that starts in a closed set stays there. */
  lemma {:induction false} PathInside(files: map<u32, File>, p: seq<u32>, k: nat, r: set<u32>)
    requires IsPath(files, p) && k < |p| && p[0] in r && Closed(files, r)
    ensures p[k] in r
  {
    hide Kids;
    if k > 0 {
      PathInside(files, p, k - 1, r);
      assert p[k - 1 + 1] in Kids(files, p[k - 1]);
    }
  }

  /** A path goes on to a live child of its end. */
  lemma ReachesKid(files: map<u32, File>, i: u32, x: u32, c: u32)
    requires Reaches(files, i, x) && c in Kids(files, x) && c in files
    ensures Reaches(files, i, c)
  {
    hide Kids;
    var p :| IsPath(files, p) && p[0] == i && p[|p| - 1] == x;
    var q := p + [c];
    forall k | 0 <= k < |q| - 1
      ensures q[k + 1] in Kids(files, q[k])
    {
      assert q[k] == p[k];
    }
    assert IsPath(files, q);
    assert q[0] == i && q[|q| - 1] == c;
  }

  lemma {:induction false} SubtreeRanks(files: map<u32, File>, rank: map<u32, nat>, i: u32, x: u32)
    requires Ranked(files, rank) && x in Subtree(files, rank, i)
    ensures i in files && rank[x] <= rank[i]
    decreases Height(files, rank, i)
  {
    if x != i {
      var c :| c in Kids(files, i) && c in files && x in Subtree(files, rank, c);
      SubtreeRanks(files, rank, c, x);
    }
  }

  /** Set closed under taking live children. */
  ghost predicate Closed(files: map<u32, File>, r: set<u32>) {
    forall i, c | i in r && c in Kids(files, i) && c in files :: c in r
  }

  lemma {:induction false} SubtreeClosed(files: map<u32, File>, rank: map<u32, nat>, i: u32)
    requires Ranked(files, rank)
    ensures Closed(files, Subtree(files, rank, i))
    decreases Height(files, rank, i)
  {
    hide Kids;
    forall x, c | x in Subtree(files, rank, i) && c in Kids(files, x) && c in files
      ensures c in Subtree(files, rank, i)
    {
      if x == i {
        assert c in Subtree(files, rank, c);
      } else {
        var k :| k in Kids(files, i) && k in files && x in Subtree(files, rank, k);
        SubtreeClosed(files, rank, k);
        assert c in Subtree(files, rank, k);
      }
    }
  }

  lemma {:induction false} SubtreeInClosed(files: map<u32, File>, rank: map<u32, nat>, i: u32, r: set<u32>)
    requires Ranked(files, rank) && Closed(files, r) && i in r
    ensures Subtree(files, rank, i) <= r
    decreases Height(files, rank, i)
  {
    forall x | x in Subtree(files, rank, i)
      ensures x in r
    {
      if x != i {
        var k :| k in Kids(files, i) && k in files && x in Subtree(files, rank, k);
        SubtreeInClosed(files, rank, k, r);
      }
    }
  }

  lemma KidsWithout(files: map<u32, File>, r: set<u32>)
    ensures forall i | i in files && i !in r :: Kids(files - r, i) == Kids(files, i)
  {
  }

  /** After a closed set is gone, what remains below an inode is what was below it, less that set. */
  lemma {:induction false} SubtreeWithout(files: map<u32, File>, rank: map<u32, nat>, i: u32, r: set<u32>)
    requires Ranked(files, rank) && Closed(files, r)
    ensures Ranked(files - r, rank)
    ensures Subtree(files - r, rank, i) == Subtree(files, rank, i) - r
    decreases Height(files, rank, i)
  {
    KidsWithout(files, r);
    hide Kids;
    if i in r {
      SubtreeInClosed(files, rank, i, r);
    } else if i in files {
      forall c | c in Kids(files, i) && c in files
        ensures Subtree(files - r, rank, c) == Subtree(files, rank, c) - r
      {
        SubtreeWithout(files, rank, c, r);
      }
      forall x
        ensures x in Subtree(files - r, rank, i) <==> x in Subtree(files, rank, i) - r
      {
        if x in Subtree(files, rank, i) - r && x != i {
          var c :| c in Kids(files, i) && c in files && x in Subtree(files, rank, c);
          assert x in Subtree(files - r, rank, c);
        }
      }
    }
  }

  lemma ForestClosed(files: map<u32, File>, rank: map<u32, nat>, s: seq<u32>)
    requires Ranked(files, rank)
    ensures Closed(files, Forest(files, rank, s))
  {
    hide Kids;
    forall i, k | i in Forest(files, rank, s) && k in Kids(files, i) && k in files
      ensures k in Forest(files, rank, s)
    {
      var b :| b in s && i in Subtree(files, rank, b);
      SubtreeClosed(files, rank, b);
      assert k in Subtree(files, rank, b);
    }
  }

  lemma ForestConcat(files: map<u32, File>, rank: map<u32, nat>, s: seq<u32>, c: u32)
    requires Ranked(files, rank)
    ensures Forest(files, rank, s + [c]) == Forest(files, rank, s) + Subtree(files, rank, c)
  {
    hide Subtree;
    forall x | x in Forest(files, rank, s) + Subtree(files, rank, c)
      ensures x in Forest(files, rank, s + [c])
    {
      if x in Subtree(files, rank, c) {
        assert c in s + [c];
      } else {
        var b :| b in s && x in Subtree(files, rank, b);
        assert b in s + [c];
      }
    }
  }

  /** One more child removed. */
  lemma ForestSnoc(files: map<u32, File>, rank: map<u32, nat>, s: seq<u32>, c: u32)
    requires Ranked(files, rank)
    ensures Ranked(files - Forest(files, rank, s), rank)
    ensures files - Forest(files, rank, s) - Subtree(files - Forest(files, rank, s), rank, c)
         == files - Forest(files, rank, s + [c])
  {
    ForestClosed(files, rank, s);
    SubtreeWithout(files, rank, c, Forest(files, rank, s));
    ForestConcat(files, rank, s, c);
  }

  /** A directory is not in any subtree of its children. */
  lemma SelfNotBelow(files: map<u32, File>, rank: map<u32, nat>, i: u32)
    requires Ranked(files, rank) && i in files
    ensures i !in Forest(files, rank, Kids(files, i))
    ensures Subtree(files, rank, i) == {i} + Forest(files, rank, Kids(files, i))
  {
    if i in Forest(files, rank, Kids(files, i)) {
      var c :| c in Kids(files, i) && i in Subtree(files, rank, c);
      SubtreeRanks(files, rank, c, i);
    }
  }

  lemma NoKids(files: map<u32, File>, rank: map<u32, nat>, i: u32)
    requires Ranked(files, rank) && i in files && files[i].typ != T_DIR
    ensures files - Forest(files, rank, Kids(files, i)) == files
  {
  }

  lemma ForestOfNone(files: map<u32, File>, rank: map<u32, nat>)
    requires Ranked(files, rank)
    ensures files - Forest(files, rank, []) == files
  {
  }

  lemma KidRank(files: map<u32, File>, rank: map<u32, nat>, i: u32, c: u32)
    requires Ranked(files, rank) && i in files && c in Kids(files, i)
    ensures forall r: set<u32> :: Height(files - r, rank, c) < Height(files, rank, i)
  {
  }

  lemma StillRanked(files: map<u32, File>, rank: map<u32, nat>, r: set<u32>)
    requires Ranked(files, rank) && WholeEntries(files)
    ensures Ranked(files - r, rank) && WholeEntries(files - r)
  {
    KidsWithout(files, r);
    hide Kids;
  }

  lemma KidCount(files: map<u32, File>, i: u32)
    requires WholeEntries(files) && i in files && files[i].typ == T_DIR
    ensures |Kids(files, i)| * MAXDIRENTRYLEN == |files[i].data|
  {
  }

  lemma KidAt(files: map<u32, File>, i: u32, k: nat)
    requires i in files && files[i].typ == T_DIR && k < |Kids(files, i)|
    ensures (k + 1) * MAXDIRENTRYLEN <= |files[i].data|
    ensures Kids(files, i)[k] == EntryInum(files[i].data, k) && Kids(files, i)[k] in Kids(files, i)
    ensures Kids(files, i)[..k + 1] == Kids(files, i)[..k] + [Kids(files, i)[k]]
  {
  }
}
