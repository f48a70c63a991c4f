/** How one file exchanges blocks with the free pool. */
module Transfer {

  import opened Bytes
  import opened Disk

  /**
   * A file that owned `old` now owns `new`, each block once, and the bitmap
   * changed by exactly that exchange: blocks of other files are untouched.
   */
  ghost predicate Moved(used: set<u32>, from: seq<u32>, used': set<u32>, to: seq<u32>) {
    && NoDup(to) && Elems(to) <= DataArea()
    && Elems(to) !! (used - Elems(from))
    && used' == used - Elems(from) + Elems(to)
  }

  lemma Grow(used: set<u32>, from: seq<u32>, taken: seq<u32>, used': set<u32>)
    requires NoDup(from) && Elems(from) <= used <= DataArea()
    requires Grown(used, taken, used')
    ensures Moved(used, from, used', from + taken)
  {
    GrownFresh(used, taken, used');
    NoDupConcat(from, taken);
  }

  lemma Shrink(used: set<u32>, kept: seq<u32>, freed: seq<u32>)
    requires NoDup(kept + freed) && Elems(kept + freed) <= used <= DataArea()
    ensures Moved(used, kept + freed, used - Elems(freed), kept)
  {
    NoDupSplit(kept, freed);
  }

  lemma Then(used: set<u32>, a: seq<u32>, used1: set<u32>, b: seq<u32>, used2: set<u32>, c: seq<u32>)
    requires Elems(a) <= used
    requires Moved(used, a, used1, b) && Moved(used1, b, used2, c)
    ensures Moved(used, a, used2, c)
  {
    assert used1 - Elems(b) == used - Elems(a);
  }

  /** The free pool gains and loses exactly the difference in owned blocks. */
  lemma FreeCount(used: set<u32>, from: seq<u32>, used': set<u32>, to: seq<u32>)
    requires NoDup(from) && Elems(from) <= used <= DataArea()
    requires Moved(used, from, used', to)
    ensures |DataArea() - used'| == |DataArea() - used| + |from| - |to|
  {
    NoDupSize(from);
    NoDupSize(to);
    var others := used - Elems(from);
    assert DataArea() - others == (DataArea() - used) + Elems(from);
    assert DataArea() - others == (DataArea() - used') + Elems(to);
  }

  lemma TakenLeft(used: set<u32>, taken: seq<u32>, used': set<u32>)
    requires Grown(used, taken, used')
    ensures |DataArea() - used'| == |DataArea() - used| - |taken|
  {
    GrownFresh(used, taken, used');
    NoDupSize(taken);
    assert DataArea() - used == (DataArea() - used') + Elems(taken);
  }

  /** Two rounds of allocation. */
  lemma Grow2(used: set<u32>, from: seq<u32>, a: seq<u32>, used1: set<u32>, b: seq<u32>, used2: set<u32>)
    requires NoDup(from) && Elems(from) <= used <= DataArea()
    requires Grown(used, a, used1) && Grown(used1, b, used2)
    ensures Moved(used, from, used2, from + a + b)
  {
    Grow(used, from, a, used1);
    GrownFresh(used, a, used1);
    Grow(used1, from + a, b, used2);
    Then(used, from, used1, from + a, used2, from + a + b);
  }

  /** Two rounds of release. */
  lemma Shrink2(used: set<u32>, kept: seq<u32>, a: seq<u32>, b: seq<u32>)
    requires NoDup(kept + a + b) && Elems(kept + a + b) <= used <= DataArea()
    ensures Moved(used, kept + a + b, used - Elems(a) - Elems(b), kept)
  {
    assert kept + a + b == kept + (a + b);
    Shrink(used, kept, a + b);
    assert Elems(a + b) == Elems(a) + Elems(b);
  }
}
