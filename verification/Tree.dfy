/** The map of files as a tree of names. */
module Tree {

  import opened Bytes
  import opened Disk
  import opened InodeImage
  import opened Namespace
  import opened Directory
  import Graph

  const ROOT: u32 := Graph.ROOT

  /** Who names whom. */
  ghost function Links(files: map<u32, File>): Graph.Graph {
    map i | i in files :: Kids(files, i)
  }

  ghost predicate GoodDirs(files: map<u32, File>) {
    forall i | i in files && files[i].typ == T_DIR :: GoodDir(files[i].data)
  }

  /**
   * Every live inode but the root is named by exactly one entry of a live
   * directory, entries name live inodes only, no directory contains itself, and
   * each directory is a list of distinct names.
   */
  ghost predicate IsTree(files: map<u32, File>) {
    && ROOT in files && files[ROOT].typ == T_DIR
    && (forall i | i in files :: IsInum(i))
    && GoodDirs(files)
    && Graph.IsTree(Links(files))
  }

  lemma LinksRanked(files: map<u32, File>, rank: map<u32, nat>)
    ensures Graph.Levels(Links(files), rank) <==> Ranked(files, rank)
  {
    hide Kids;
    var g := Links(files);
    assert g.Keys == files.Keys;
    assert forall i | i in files :: g[i] == Kids(files, i);
  }

  lemma TreeRank(files: map<u32, File>) returns (rank: map<u32, nat>)
    requires IsTree(files)
    ensures Ranked(files, rank) && WholeEntries(files)
  {
    rank :| Graph.Levels(Links(files), rank);
    LinksRanked(files, rank);
  }

  // ---------- adding a name ----------

  /** Inode `x` created and appended to directory `p` under a new name. */
  function Added(files: map<u32, File>, p: u32, name: seq<byte>, x: u32, f: File): map<u32, File>
    requires p in files && IsName(name)
  {
    files[x := f][p := File.File(T_DIR, files[p].data + EncodeEnt(DirEnt(name, x)))]
  }

  ghost predicate CanAdd(files: map<u32, File>, p: u32, name: seq<byte>, x: u32, f: File) {
    && p in files && files[p].typ == T_DIR && IsName(name) && GoodDir(files[p].data)
    && name !in DirMap(files[p].data)
    && IsInum(x) && x !in files && (f.typ == T_DIR ==> f.data == [])
  }

  lemma AppendedSubs(data: seq<byte>, e: DirEnt)
    requires GoodDir(data) && IsName(e.name)
    ensures Subs(data + EncodeEnt(e)) == Subs(data) + [e.inum]
  {
    AppendEnts(data, e);
    SubsAreEntries(data);
    SubsAreEntries(data + EncodeEnt(e));
    hide GoodDir, GoodEnts, Unique, Entries, EncodeEnt, Subs, IsName;
    assert Subs(data + EncodeEnt(e)) == Subs(data) + [e.inum];
  }

  lemma AddedKids(files: map<u32, File>, p: u32, name: seq<byte>, x: u32, f: File, i: u32)
    requires CanAdd(files, p, name, x, f)
    ensures Kids(Added(files, p, name, x, f), i)
         == if i == p then Kids(files, p) + [x] else if i == x then [] else Kids(files, i)
  {
    AppendedSubs(files[p].data, DirEnt(name, x));
    hide GoodDir, DirMap, EncodeEnt;
  }

  lemma AddedLinks(files: map<u32, File>, p: u32, name: seq<byte>, x: u32, f: File)
    requires CanAdd(files, p, name, x, f)
    ensures Links(Added(files, p, name, x, f)) == Graph.AddLeaf(Links(files), p, x)
  {
    forall i | i in Added(files, p, name, x, f)
      ensures Kids(Added(files, p, name, x, f), i) == Graph.AddLeaf(Links(files), p, x)[i]
    {
      AddedKids(files, p, name, x, f, i);
    }
    hide Kids, EncodeEnt, GoodDir, DirMap;
  }

  lemma AddedDirs(files: map<u32, File>, p: u32, name: seq<byte>, x: u32, f: File)
    requires CanAdd(files, p, name, x, f) && GoodDirs(files)
    ensures GoodDirs(Added(files, p, name, x, f))
  {
    Append(files[p].data, DirEnt(name, x));
    assert GoodDir([]);
    hide GoodDir, DirMap, EncodeEnt;
  }

  /** create, mkdir and symlink keep the tree. */
  lemma AddKeepsTree(files: map<u32, File>, p: u32, name: seq<byte>, x: u32, f: File)
    requires IsTree(files) && CanAdd(files, p, name, x, f)
    ensures IsTree(Added(files, p, name, x, f))
  {
    AddedLinks(files, p, name, x, f);
    AddedDirs(files, p, name, x, f);
    assert Links(files).Keys == files.Keys;
    Graph.AddLeafKeeps(Links(files), p, x);
    hide Links, GoodDirs, Graph.IsTree, GoodDir, DirMap, EncodeEnt;
  }

  /** Changing the bytes of something that is not a directory keeps the tree. */
  lemma RewriteKeepsTree(files: map<u32, File>, x: u32, data: seq<byte>)
    requires IsTree(files) && x in files && files[x].typ != T_DIR
    ensures IsTree(files[x := File.File(files[x].typ, data)])
  {
    RewriteLinks(files, x, data);
    hide Links, Graph.IsTree, GoodDir;
  }

  lemma RewriteLinks(files: map<u32, File>, x: u32, data: seq<byte>)
    requires x in files && files[x].typ != T_DIR
    ensures Links(files[x := File.File(files[x].typ, data)]) == Links(files)
  {
    hide Subs;
  }

  // ---------- removing a name ----------

  ghost predicate CanCut(files: map<u32, File>, rank: map<u32, nat>, p: u32, k: nat) {
    && Ranked(files, rank) && p in files && files[p].typ == T_DIR && GoodDir(files[p].data)
    && k < |Entries(files[p].data)|
  }

  /** Everything below the inode that entry `k` of directory `p` names. */
  ghost function Below(files: map<u32, File>, rank: map<u32, nat>, p: u32, k: nat): set<u32>
    requires CanCut(files, rank, p, k)
  {
    Subtree(files, rank, Entries(files[p].data)[k].inum)
  }

  /** Entry `k` of directory `p` erased, and everything below the inode it named gone. */
  ghost function Cut(files: map<u32, File>, rank: map<u32, nat>, p: u32, k: nat): map<u32, File>
    requires CanCut(files, rank, p, k)
  {
    (files - Below(files, rank, p, k))[p := File.File(T_DIR, Erase(files[p].data, k))]
  }

  lemma ErasedSubs(data: seq<byte>, k: nat)
    requires GoodDir(data) && k < |Entries(data)|
    ensures |Subs(data)| > k && Subs(data)[k] == Entries(data)[k].inum
    ensures Subs(Erase(data, k)) == Without(Subs(data), k)
  {
    hide GoodDir, Entries, DirMap, Erase, Without, Subs;
    Erased(data, k);
    SubsAreEntries(data);
    SubsAreEntries(Erase(data, k));
    WithoutIndex(Subs(data), k);
    WithoutIndex(Entries(data), k);
    assert Subs(Erase(data, k)) == Without(Subs(data), k);
  }

  lemma CutKids(files: map<u32, File>, rank: map<u32, nat>, p: u32, k: nat, i: u32)
    requires CanCut(files, rank, p, k) && (i == p || (i in files && i !in Below(files, rank, p, k)))
    ensures Kids(Cut(files, rank, p, k), i) == if i == p then Without(Kids(files, p), k) else Kids(files, i)
    ensures k < |Kids(files, p)| && Kids(files, p)[k] == Entries(files[p].data)[k].inum
  {
    ErasedSubs(files[p].data, k);
    hide GoodDir, Subtree, Ranked, Entries, Subs, Erase, Without;
  }

  lemma CutLinks(files: map<u32, File>, rank: map<u32, nat>, p: u32, k: nat)
    requires CanCut(files, rank, p, k)
    ensures k < |Links(files)[p]| && Links(files)[p][k] == Entries(files[p].data)[k].inum
    ensures Links(Cut(files, rank, p, k)) == Graph.CutOff(Links(files), p, k, Below(files, rank, p, k))
  {
    CutKids(files, rank, p, k, p);
    var files', gone := Cut(files, rank, p, k), Below(files, rank, p, k);
    forall i | i in files'
      ensures Kids(files', i) == Graph.CutOff(Links(files), p, k, gone)[i]
    {
      CutKids(files, rank, p, k, i);
    }
    hide Kids, Below, Erase, Without;
  }

  /** The directory that holds a name is not below the inode it names. */
  lemma ParentStays(files: map<u32, File>, rank: map<u32, nat>, p: u32, k: nat)
    requires CanCut(files, rank, p, k)
    ensures p !in Below(files, rank, p, k)
  {
    CutKids(files, rank, p, k, p);
    var c := Entries(files[p].data)[k].inum;
    assert c in Kids(files, p);
    hide Kids, Entries;
    if p in Below(files, rank, p, k) {
      SubtreeRanks(files, rank, c, p);
    }
  }

  lemma BelowNamed(files: map<u32, File>, rank: map<u32, nat>, p: u32, k: nat, x: u32) returns (i: u32)
    requires CanCut(files, rank, p, k) && Graph.KidsLive(Links(files))
    requires x in Below(files, rank, p, k) && x != Entries(files[p].data)[k].inum
    ensures i in Below(files, rank, p, k) && i in Links(files) && x in Links(files)[i] && x != ROOT
  {
    hide Kids, Entries, GoodDir;
    i := NamedInside(files, rank, Entries(files[p].data)[k].inum, x);
    Graph.KidLive(Links(files), i, x);
  }

  lemma BelowClosed(files: map<u32, File>, rank: map<u32, nat>, p: u32, k: nat, i: u32, c: u32)
    requires CanCut(files, rank, p, k) && Graph.KidsLive(Links(files))
    requires i in Below(files, rank, p, k) && i in files && c in Links(files)[i]
    ensures c in Below(files, rank, p, k)
  {
    SubtreeClosed(files, rank, Entries(files[p].data)[k].inum);
    Graph.KidLive(Links(files), i, c);
    hide Kids, Entries, Subtree, GoodDir;
  }

  lemma TopBelow(files: map<u32, File>, rank: map<u32, nat>, p: u32, k: nat)
    requires CanCut(files, rank, p, k) && Graph.KidsLive(Links(files))
    ensures var c := Entries(files[p].data)[k].inum;
      c in Below(files, rank, p, k) && c != ROOT && k < |Links(files)[p]| && Links(files)[p][k] == c
  {
    var g, c := Links(files), Entries(files[p].data)[k].inum;
    CutLinks(files, rank, p, k);
    assert c in g[p] && c in g;
  }

  /** What goes is a whole branch, and the root stays. */
  lemma CutBranch(files: map<u32, File>, rank: map<u32, nat>, p: u32, k: nat)
    requires CanCut(files, rank, p, k) && Graph.KidsLive(Links(files))
    ensures Graph.Branch(Links(files), p, k, Below(files, rank, p, k))
    ensures ROOT !in Below(files, rank, p, k)
  {
    var g, c, gone := Links(files), Entries(files[p].data)[k].inum, Below(files, rank, p, k);
    TopBelow(files, rank, p, k);
    ParentStays(files, rank, p, k);
    assert g.Keys == files.Keys;
    hide Links, Below, Entries, CanCut;
    forall i, c | i in g && i in gone && c in g[i]
      ensures c in gone
    {
      BelowClosed(files, rank, p, k, i, c);
    }
    forall x | x in gone && x != c
      ensures x != ROOT && exists i :: i in gone && i in g && x in g[i]
    {
      var i := BelowNamed(files, rank, p, k, x);
    }
  }

  /** Inside a subtree, everything but its top is named by something in it. */
  lemma {:induction false} NamedInside(files: map<u32, File>, rank: map<u32, nat>, i: u32, x: u32) returns (y: u32)
    requires Ranked(files, rank) && x in Subtree(files, rank, i) && x != i
    ensures y in Subtree(files, rank, i) && x in Kids(files, y)
    decreases Height(files, rank, i)
  {
    hide Kids;
    var c :| c in Kids(files, i) && c in files && x in Subtree(files, rank, c);
    if c == x {
      return i;
    }
    y := NamedInside(files, rank, c, x);
  }

  /** unlink keeps the tree. */
  lemma CutKeepsTree(files: map<u32, File>, rank: map<u32, nat>, p: u32, k: nat)
    requires IsTree(files) && CanCut(files, rank, p, k)
    ensures IsTree(Cut(files, rank, p, k))
    ensures p !in Below(files, rank, p, k) && ROOT !in Below(files, rank, p, k)
  {
    CutGraph(files, rank, p, k);
    CutDirs(files, rank, p, k);
    hide Graph.IsTree, GoodDir, Below, Links, GoodDirs, CanCut, Erase;
  }

  lemma CutGraph(files: map<u32, File>, rank: map<u32, nat>, p: u32, k: nat)
    requires Graph.IsTree(Links(files)) && CanCut(files, rank, p, k)
    ensures Graph.IsTree(Links(Cut(files, rank, p, k)))
    ensures p !in Below(files, rank, p, k) && ROOT !in Below(files, rank, p, k)
  {
    CutBranch(files, rank, p, k);
    CutLinks(files, rank, p, k);
    hide Links, Below, Cut, CanCut;
    Graph.CutKeeps(Links(files), p, k, Below(files, rank, p, k));
  }

  lemma CutDirs(files: map<u32, File>, rank: map<u32, nat>, p: u32, k: nat)
    requires CanCut(files, rank, p, k) && GoodDirs(files)
    ensures GoodDirs(Cut(files, rank, p, k))
  {
    Erased(files[p].data, k);
    hide GoodDir, Below, Erase, DirMap;
  }

  // ---------- how large a directory can get ----------

  lemma KidsDistinct(g: Graph.Graph, p: u32)
    requires Graph.OneParent(g) && p in g
    ensures NoDup(g[p])
  {
  }

  lemma KidIsInum(g: Graph.Graph, p: u32, k: nat)
    requires Graph.KidsLive(g) && p in g && k < |g[p]| && forall i | i in g :: IsInum(i)
    ensures 2 <= g[p][k] <= INODE_NUM
  {
    var c := g[p][k];
    assert c in g[p];
    assert c in g && c != Graph.ROOT;
  }

  lemma KidsBound(g: Graph.Graph, p: u32)
    requires Graph.IsTree(g) && p in g && forall i | i in g :: IsInum(i)
    ensures |g[p]| <= INODE_NUM - 1
  {
    KidsDistinct(g, p);
    hide Graph.IsTree;
    forall k: nat | k < |g[p]|
      ensures 2 <= g[p][k] <= INODE_NUM
    {
      KidIsInum(g, p, k);
    }
    DistinctBetween(g[p], 2, INODE_NUM + 1);
  }

  /** A directory names fewer than INODE_NUM inodes, so it always fits in a file. */
  lemma DirBound(files: map<u32, File>, p: u32)
    requires IsTree(files) && p in files && files[p].typ == T_DIR
    ensures |files[p].data| <= (INODE_NUM - 1) * MAXDIRENTRYLEN <= MAX_BYTES
  {
    SubsAreEntries(files[p].data);
    KidsBound(Links(files), p);
    hide Graph.IsTree, Unique, Entries;
  }
}
