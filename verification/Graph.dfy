/** A rooted tree, given by the list of children of each node. */
module Graph {

  import opened Bytes

  type Graph = map<u32, seq<u32>>

  const ROOT: u32 := 1

  /** No node is listed twice. */
  ghost predicate OneParent(g: Graph) {
    forall i, j, k: nat, l: nat | i in g && j in g && k < |g[i]| && l < |g[j]| && g[i][k] == g[j][l] :: i == j && k == l
  }

  ghost predicate KidsLive(g: Graph) {
    forall i, c | i in g && c in g[i] :: c in g && c != ROOT
  }

  lemma KidLive(g: Graph, i: u32, c: u32)
    requires KidsLive(g) && i in g && c in g[i]
    ensures c in g && c != ROOT
  {
  }

  ghost predicate HasParent(g: Graph, x: u32) {
    exists i :: i in g && x in g[i]
  }

  ghost predicate AllListed(g: Graph) {
    forall x | x in g && x != ROOT :: HasParent(g, x)
  }

  ghost predicate Levels(g: Graph, rank: map<u32, nat>) {
    && g.Keys <= rank.Keys
    && forall i, c | i in g && c in g[i] && c in g :: rank[c] < rank[i]
  }

  /** Every node but the root has exactly one parent, children are nodes, and there is no cycle. */
  ghost predicate IsTree(g: Graph) {
    && ROOT in g && OneParent(g) && KidsLive(g) && AllListed(g)
    && exists rank :: Levels(g, rank)
  }

  // ---------- a new leaf ----------

  function AddLeaf(g: Graph, p: u32, x: u32): Graph
    requires p in g
  {
    g[x := []][p := g[p] + [x]]
  }

  lemma LeafAt(g: Graph, p: u32, x: u32)
    requires p in g && x !in g
    ensures var g' := AddLeaf(g, p, x);
      && g'.Keys == g.Keys + {x} && g'[x] == [] && g'[p] == g[p] + [x]
      && forall i | i in g && i != p :: g'[i] == g[i]
  {
  }

  lemma LeafOneParent(g: Graph, p: u32, x: u32)
    requires p in g && x !in g && OneParent(g) && KidsLive(g)
    ensures OneParent(AddLeaf(g, p, x))
  {
    LeafAt(g, p, x);
    var g' := AddLeaf(g, p, x);
    hide AddLeaf;
    forall i, j, k: nat, l: nat | i in g' && j in g' && k < |g'[i]| && l < |g'[j]| && g'[i][k] == g'[j][l]
      ensures i == j && k == l
    {
      assert i in g && j in g;
      assert k < |g[i]| ==> g[i][k] in g[i];
      assert l < |g[j]| ==> g[j][l] in g[j];
    }
  }

  lemma LeafListed(g: Graph, p: u32, x: u32)
    requires p in g && x !in g && KidsLive(g) && AllListed(g) && ROOT in g
    ensures KidsLive(AddLeaf(g, p, x)) && AllListed(AddLeaf(g, p, x))
  {
    LeafAt(g, p, x);
    var g' := AddLeaf(g, p, x);
    hide AddLeaf;
    forall y | y in g' && y != ROOT
      ensures HasParent(g', y)
    {
      if y == x {
        assert x in g'[p];
      } else {
        assert HasParent(g, y);
        var i :| i in g && y in g[i];
        assert y in g'[i];
      }
    }
  }

  lemma LeafLevels(g: Graph, p: u32, x: u32, rank: map<u32, nat>) returns (rank': map<u32, nat>)
    requires p in g && x !in g && KidsLive(g) && Levels(g, rank)
    ensures Levels(AddLeaf(g, p, x), rank')
  {
    LeafAt(g, p, x);
    rank' := map i | i in rank.Keys + {x} :: if i == x then 0 else rank[i] + 1;
  }

  lemma AddLeafKeeps(g: Graph, p: u32, x: u32)
    requires IsTree(g) && p in g && x !in g
    ensures IsTree(AddLeaf(g, p, x))
  {
    LeafOneParent(g, p, x);
    LeafListed(g, p, x);
    var rank :| Levels(g, rank);
    var rank' := LeafLevels(g, p, x, rank);
  }

  // ---------- a subtree cut off ----------

  /** `gone` is entry `k` of node `p` and everything below it. */
  ghost predicate Branch(g: Graph, p: u32, k: nat, gone: set<u32>) {
    && p in g && p !in gone && k < |g[p]| && g[p][k] in gone
    && (forall i, c | i in g && i in gone && c in g[i] :: c in gone)
    && (forall x | x in gone && x != g[p][k] :: exists i :: i in gone && i in g && x in g[i])
  }

  function CutOff(g: Graph, p: u32, k: nat, gone: set<u32>): Graph
    requires p in g && k < |g[p]|
  {
    (g - gone)[p := Without(g[p], k)]
  }

  lemma CutAt(g: Graph, p: u32, k: nat, gone: set<u32>)
    requires Branch(g, p, k, gone)
    ensures var g' := CutOff(g, p, k, gone);
      && g'.Keys == g.Keys - gone && g'[p] == Without(g[p], k)
      && forall i | i in g' && i != p :: g'[i] == g[i]
  {
  }

  /** Where the `l`-th remaining child of node `i` was before the cut. */
  function Before(p: u32, k: nat, i: u32, l: nat): nat {
    if i == p && l >= k then l + 1 else l
  }

  lemma BeforeSkips(p: u32, k: nat, i: u32, l: nat)
    ensures !(i == p && Before(p, k, i, l) == k)
  {
  }

  lemma CutKid(g: Graph, p: u32, k: nat, gone: set<u32>, i: u32, l: nat)
    requires Branch(g, p, k, gone) && i in CutOff(g, p, k, gone) && l < |CutOff(g, p, k, gone)[i]|
    ensures i in g && Before(p, k, i, l) < |g[i]| && CutOff(g, p, k, gone)[i][l] == g[i][Before(p, k, i, l)]
  {
    CutAt(g, p, k, gone);
    WithoutIndex(g[p], k);
  }

  lemma CutOneParent(g: Graph, p: u32, k: nat, gone: set<u32>)
    requires OneParent(g) && Branch(g, p, k, gone)
    ensures OneParent(CutOff(g, p, k, gone))
  {
    var g' := CutOff(g, p, k, gone);
    hide Branch, CutOff;
    forall i, j, a: nat, b: nat | i in g' && j in g' && a < |g'[i]| && b < |g'[j]| && g'[i][a] == g'[j][b]
      ensures i == j && a == b
    {
      CutKid(g, p, k, gone, i, a);
      CutKid(g, p, k, gone, j, b);
      assert g[i][Before(p, k, i, a)] == g[j][Before(p, k, j, b)];
    }
  }

  lemma CutLive(g: Graph, p: u32, k: nat, gone: set<u32>)
    requires OneParent(g) && KidsLive(g) && Branch(g, p, k, gone)
    ensures KidsLive(CutOff(g, p, k, gone))
  {
    var g' := CutOff(g, p, k, gone);
    CutAt(g, p, k, gone);
    forall i, c | i in g' && c in g'[i]
      ensures c in g' && c != ROOT
    {
      var l :| 0 <= l < |g'[i]| && g'[i][l] == c;
      CutKid(g, p, k, gone, i, l);
      var b := Before(p, k, i, l);
      assert g[i][b] in g[i];
      if c in gone {
        OnlyTop(g, p, k, gone, i, b);
        BeforeSkips(p, k, i, l);
      }
    }
  }

  /** The only entry outside that leads into the branch is entry `k` of `p`. */
  lemma OnlyTop(g: Graph, p: u32, k: nat, gone: set<u32>, i: u32, b: nat)
    requires OneParent(g) && Branch(g, p, k, gone)
    requires i in g && i !in gone && b < |g[i]| && g[i][b] in gone
    ensures i == p && b == k
  {
    var j, l := ListedInside(g, p, k, gone, g[i][b]);
    assert g[i][b] == g[j][l];
  }

  lemma ListedInside(g: Graph, p: u32, k: nat, gone: set<u32>, c: u32) returns (j: u32, l: nat)
    requires Branch(g, p, k, gone) && c in gone
    ensures j in g && l < |g[j]| && g[j][l] == c
    ensures j in gone || (j == p && l == k)
  {
    if c == g[p][k] {
      return p, k;
    }
    j :| j in gone && j in g && c in g[j];
    l :| 0 <= l < |g[j]| && g[j][l] == c;
  }

  lemma CutListed(g: Graph, p: u32, k: nat, gone: set<u32>)
    requires AllListed(g) && Branch(g, p, k, gone)
    ensures AllListed(CutOff(g, p, k, gone))
  {
    var g' := CutOff(g, p, k, gone);
    CutAt(g, p, k, gone);
    WithoutIndex(g[p], k);
    forall x | x in g' && x != ROOT
      ensures HasParent(g', x)
    {
      assert HasParent(g, x);
      var i :| i in g && x in g[i];
      assert i !in gone;
      if i == p {
        var l :| 0 <= l < |g[p]| && g[p][l] == x;
        assert g'[p][if l < k then l else l - 1] == x;
      } else {
        assert x in g'[i];
      }
    }
  }

  lemma CutLevels(g: Graph, p: u32, k: nat, gone: set<u32>, rank: map<u32, nat>)
    requires Levels(g, rank) && Branch(g, p, k, gone)
    ensures Levels(CutOff(g, p, k, gone), rank)
  {
    var g' := CutOff(g, p, k, gone);
    CutAt(g, p, k, gone);
    forall i, c | i in g' && c in g'[i] && c in g'
      ensures rank[c] < rank[i]
    {
      var l :| 0 <= l < |g'[i]| && g'[i][l] == c;
      CutKid(g, p, k, gone, i, l);
      assert g[i][Before(p, k, i, l)] in g[i];
    }
  }

  lemma CutKeeps(g: Graph, p: u32, k: nat, gone: set<u32>)
    requires IsTree(g) && Branch(g, p, k, gone) && ROOT !in gone
    ensures IsTree(CutOff(g, p, k, gone))
  {
    CutAt(g, p, k, gone);
    CutOneParent(g, p, k, gone);
    CutLive(g, p, k, gone);
    CutListed(g, p, k, gone);
    var rank :| Levels(g, rank);
    CutLevels(g, p, k, gone, rank);
  }
}
