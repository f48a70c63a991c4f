/** Path resolution of the name node (CSE/lab/namenode_base.cc, RecursiveLookup, RecursiveLookupParent, PBMkdirs). */
module Paths {

  import opened Bytes
  import opened Wrappers

  /** Directory entries: (directory, name) to inode. */
  type Entries = map<(u32, string), u32>

  const ROOT: u32 := 1
  const INODE_NUM: u32 := 1024

  // ---------- components of a path ----------

  /** Position of the first '/' at or after `pos`, |s| when there is none (std::string::find). */
  function Find(s: string, pos: nat): (k: nat)
    requires pos <= |s|
    ensures pos <= k <= |s| && (k < |s| ==> s[k] == '/')
    ensures forall j | pos <= j < k :: s[j] != '/'
    decreases |s| - pos
  {
    if pos == |s| || s[pos] == '/' then pos else Find(s, pos + 1)
  }

  predicate Names(cs: seq<string>) {
    forall k: nat | k < |cs| :: cs[k] != "" && '/' !in cs[k]
  }

  /** The non-empty pieces between slashes. */
  function Components(s: string): (cs: seq<string>)
    ensures Names(cs)
  {
    if s == "" then []
    else
      var k := Find(s, 0);
      (if k == 0 then [] else [s[..k]]) + (if k == |s| then [] else Components(s[k + 1..]))
  }

  lemma FindIs(s: string, pos: nat, k: nat)
    requires pos <= k <= |s| && (k < |s| ==> s[k] == '/') && forall j | pos <= j < k :: s[j] != '/'
    ensures Find(s, pos) == k
  {
  }

  /** A slash-free piece in front of a slash is one component, or none when it is empty. */
  lemma FirstPiece(a: string, b: string)
    requires '/' !in a
    ensures Components(a + "/" + b) == (if a == "" then [] else [a]) + Components(b)
  {
    var s := a + "/" + b;
    FindIs(s, 0, |a|);
    assert s[..|a|] == a && s[|a| + 1..] == b;
  }

  lemma OnlyPiece(a: string)
    requires '/' !in a
    ensures Components(a) == if a == "" then [] else [a]
  {
    FindIs(a, 0, |a|);
    assert a[..|a|] == a;
  }

  lemma {:induction false} SplitAtSlash(a: string, b: string)
    ensures Components(a + "/" + b) == Components(a) + Components(b)
    decreases |a|
  {
    hide Components;
    var k := Find(a, 0);
    if k == |a| {
      FirstPiece(a, b);
      OnlyPiece(a);
    } else {
      var a0, a1 := a[..k], a[k + 1..];
      assert a == a0 + "/" + a1;
      assert a + "/" + b == a0 + "/" + (a1 + "/" + b);
      FirstPiece(a0, a1);
      FirstPiece(a0, a1 + "/" + b);
      SplitAtSlash(a1, b);
    }
  }

  lemma TrailingSlash(a: string)
    ensures Components(a + "/") == Components(a)
  {
    assert a + "/" == a + "/" + "";
    SplitAtSlash(a, "");
  }

  function Join(cs: seq<string>): string {
    if cs == [] then "" else "/" + cs[0] + Join(cs[1..])
  }

  /** Joining names with slashes and splitting again gives the names back. */
  lemma {:induction false} SplitJoin(cs: seq<string>)
    requires Names(cs)
    ensures Components(Join(cs)) == cs
  {
    hide Components;
    if cs == [] {
      OnlyPiece("");
    } else {
      SplitJoin(cs[1..]);
      JoinFirst(cs[0], Join(cs[1..]));
      assert Join(cs) == "/" + cs[0] + Join(cs[1..]);
    }
  }

  lemma JoinFirst(c: string, rest: string)
    requires c != "" && '/' !in c && (rest == "" || rest[0] == '/')
    ensures Components("/" + c + rest) == [c] + Components(rest)
  {
    hide Components;
    assert "/" + c + rest == "" + "/" + (c + rest);
    FirstPiece("", c + rest);
    if rest == "" {
      assert c + rest == c;
      OnlyPiece(c);
      OnlyPiece("");
    } else {
      assert rest == "" + "/" + rest[1..] && c + rest == c + "/" + rest[1..];
      FirstPiece("", rest[1..]);
      FirstPiece(c, rest[1..]);
    }
  }

  predicate Absolute(path: string) {
    path != "" && path[0] == '/'
  }

  // ---------- resolution ----------

  /** Folding lookup over the components. */
  function Walk(e: Entries, ino: u32, cs: seq<string>): Option<u32>
    decreases |cs|
  {
    if cs == [] then Some(ino)
    else if (ino, cs[0]) in e then Walk(e, e[(ino, cs[0])], cs[1..])
    else None
  }

  lemma {:induction false} WalkConcat(e: Entries, ino: u32, a: seq<string>, b: seq<string>)
    ensures Walk(e, ino, a + b) == if Walk(e, ino, a).Some? then Walk(e, Walk(e, ino, a).value, b) else None
    decreases |a|
  {
    if a == [] {
      assert a + b == b;
    } else {
      assert (a + b)[0] == a[0] && (a + b)[1..] == a[1..] + b;
      if (ino, a[0]) in e {
        WalkConcat(e, e[(ino, a[0])], a[1..], b);
      }
    }
  }

  lemma WalkSnoc(e: Entries, ino: u32, a: seq<string>, c: string)
    ensures Walk(e, ino, a + [c]) ==
            if Walk(e, ino, a).Some? && (Walk(e, ino, a).value, c) in e then Some(e[(Walk(e, ino, a).value, c)])
            else None
  {
    WalkConcat(e, ino, a, [c]);
    if Walk(e, ino, a).Some? {
      var i := Walk(e, ino, a).value;
      assert [c][1..] == [];
      assert (i, c) in e ==> Walk(e, e[(i, c)], []) == Some(e[(i, c)]);
    }
  }

  /** One turn of the scan: the piece before the slash at `pos` is done. */
  lemma ScanPiece(path: string, lastpos: nat, pos: nat)
    requires lastpos <= pos < |path| && Find(path, lastpos) == pos
    ensures Components(path[lastpos..]) ==
            (if pos == lastpos then [] else [path[lastpos..pos]]) + Components(path[pos + 1..])
  {
    assert path[lastpos..] == path[lastpos..pos] + "/" + path[pos + 1..];
    FirstPiece(path[lastpos..pos], path[pos + 1..]);
  }

  lemma ScanLast(path: string, lastpos: nat)
    requires lastpos <= |path| && Find(path, lastpos) == |path|
    ensures Components(path[lastpos..]) == if lastpos == |path| then [] else [path[lastpos..]]
  {
    OnlyPiece(path[lastpos..]);
  }

  lemma ScanStart(path: string)
    requires Absolute(path)
    ensures Components(path) == Components(path[1..])
  {
    assert path == "" + "/" + path[1..];
    FirstPiece("", path[1..]);
  }

  /** What the scan has read so far, and where it stands. */
  ghost predicate Scanned(e: Entries, path: string, lastpos: nat, done: seq<string>, ino: u32) {
    && 1 <= lastpos <= |path|
    && done + Components(path[lastpos..]) == Components(path)
    && Walk(e, ROOT, done) == Some(ino)
  }

  lemma ScannedStart(e: Entries, path: string)
    requires Absolute(path)
    ensures Scanned(e, path, 1, [], ROOT)
  {
    ScanStart(path);
  }

  lemma ScannedEmpty(e: Entries, path: string, pos: nat, done: seq<string>, ino: u32)
    requires Scanned(e, path, pos, done, ino) && pos < |path| && Find(path, pos) == pos
    ensures Scanned(e, path, pos + 1, done, ino)
  {
    ScanPiece(path, pos, pos);
    assert [] + Components(path[pos + 1..]) == Components(path[pos + 1..]);
  }

  lemma ScannedName(e: Entries, path: string, lastpos: nat, pos: nat, done: seq<string>, ino: u32, next: u32)
    requires Scanned(e, path, lastpos, done, ino) && lastpos < pos < |path| && Find(path, lastpos) == pos
    requires (ino, path[lastpos..pos]) in e && e[(ino, path[lastpos..pos])] == next
    ensures Scanned(e, path, pos + 1, done + [path[lastpos..pos]], next)
  {
    hide Components, Find, Walk;
    ScanPiece(path, lastpos, pos);
    WalkSnoc(e, ROOT, done, path[lastpos..pos]);
    assert done + [path[lastpos..pos]] + Components(path[pos + 1..]) ==
           done + ([path[lastpos..pos]] + Components(path[pos + 1..]));
  }

  lemma ScannedFails(e: Entries, path: string, lastpos: nat, pos: nat, done: seq<string>, ino: u32)
    requires Scanned(e, path, lastpos, done, ino) && lastpos < pos <= |path| && Find(path, lastpos) == pos
    requires (ino, path[lastpos..pos]) !in e
    ensures Walk(e, ROOT, Components(path)) == None
    ensures Walk(e, ROOT, Front(Components(path))) in {None, Some(ino)}
  {
    hide Components, Find, Walk;
    var c := path[lastpos..pos];
    var rest := if pos == |path| then [] else Components(path[pos + 1..]);
    if pos == |path| {
      ScanLast(path, lastpos);
      assert c == path[lastpos..];
    } else {
      ScanPiece(path, lastpos, pos);
    }
    assert Components(path) == done + [c] + rest;
    WalkSnoc(e, ROOT, done, c);
    WalkConcat(e, ROOT, done + [c], rest);
    if rest == [] {
      assert Front(done + [c] + rest) == done;
    } else {
      assert Front(done + [c] + rest) == done + [c] + Front(rest);
      WalkConcat(e, ROOT, done + [c], Front(rest));
    }
  }

  function Front(cs: seq<string>): seq<string> {
    if cs == [] then [] else cs[..|cs| - 1]
  }

  /** The lookup succeeded with `ino`, coming from directory `last`. */
  ghost predicate Resolves(e: Entries, path: string, ino: u32, last: u32) {
    && Walk(e, ROOT, Components(path)) == Some(ino)
    && Walk(e, ROOT, Front(Components(path))) == Some(last)
  }

  /** The scanning loop computes the fold, and `last` the directory of the final component. */
  method RecursiveLookup(e: Entries, path: string) returns (ok: bool, ino: u32, last: u32)
    ensures ok <==> Absolute(path) && Walk(e, ROOT, Components(path)).Some?
    ensures ok ==> Resolves(e, path, ino, last)
    ensures Absolute(path) ==> Walk(e, ROOT, Front(Components(path))) in {None, Some(last)}
  {
    hide Walk, Components, Find, Scanned;
    var pos, lastpos := 1, 1;
    ino, last := ROOT, ROOT;
    if path == "" || path[0] != '/' {
      return false, ino, last;
    }
    ghost var done := [];
    ScannedStart(e, path);
    LastStart(e);
    pos := Find(path, pos);
    while pos != |path|
      invariant 1 <= lastpos <= pos <= |path| && pos == Find(path, lastpos)
      invariant Scanned(e, path, lastpos, done, ino)
      invariant Walk(e, ROOT, Front(done)) == Some(last)
      decreases |path| - lastpos
    {
      if pos != lastpos {
        var component := path[lastpos..pos];
        last := ino;
        if (ino, component) !in e {
          ScannedFails(e, path, lastpos, pos, done, ino);
          return false, ino, last;
        }
        ScannedName(e, path, lastpos, pos, done, ino, e[(ino, component)]);
        LastStep(e, path, lastpos, done, ino, component);
        done := done + [component];
        ino := e[(ino, component)];
      } else {
        ScannedEmpty(e, path, pos, done, ino);
      }
      pos := pos + 1;
      lastpos := pos;
      pos := Find(path, pos);
    }
    if lastpos != |path| {
      last := ino;
      var component := path[lastpos..];
      assert component == path[lastpos..pos];
      if (ino, component) !in e {
        ScannedFails(e, path, lastpos, pos, done, ino);
        return false, ino, last;
      }
      ScannedEnd(e, path, lastpos, done, ino);
      ino := e[(ino, component)];
    } else {
      ScannedStop(e, path, done, ino);
    }
    ok := true;
  }

  lemma LastStart(e: Entries)
    ensures Walk(e, ROOT, Front([])) == Some(ROOT)
  {
  }

  lemma LastStep(e: Entries, path: string, lastpos: nat, done: seq<string>, ino: u32, c: string)
    requires Scanned(e, path, lastpos, done, ino)
    ensures Walk(e, ROOT, Front(done + [c])) == Some(ino)
  {
    assert Front(done + [c]) == done;
  }

  lemma ScannedEnd(e: Entries, path: string, lastpos: nat, done: seq<string>, ino: u32)
    requires Scanned(e, path, lastpos, done, ino) && lastpos < |path| && Find(path, lastpos) == |path|
    requires (ino, path[lastpos..]) in e
    ensures Components(path) == done + [path[lastpos..]]
    ensures Resolves(e, path, e[(ino, path[lastpos..])], ino)
  {
    ScanLast(path, lastpos);
    WalkSnoc(e, ROOT, done, path[lastpos..]);
    assert Front(done + [path[lastpos..]]) == done;
  }

  lemma ScannedStop(e: Entries, path: string, done: seq<string>, ino: u32)
    requires Scanned(e, path, |path|, done, ino)
    ensures done == Components(path) && Walk(e, ROOT, done) == Some(ino)
  {
    assert path[|path|..] == "";
  }

  /** Position after the last '/' (std::string::rfind), 0 when there is none. */
  function AfterLastSlash(s: string): (k: nat)
    ensures k <= |s| && (k > 0 ==> s[k - 1] == '/') && '/' !in s[k..]
  {
    if s == "" then 0
    else if s[|s| - 1] == '/' then |s|
    else
      var t := s[..|s| - 1];
      var k := AfterLastSlash(t);
      assert s[k..] == t[k..] + [s[|s| - 1]];
      k
  }

  /** The path cut after its last slash, trailing slashes first removed, names the parent directory. */
  method RecursiveLookupParent(e: Entries, path: string) returns (ok: bool, ino: u32)
    ensures ok <==> Absolute(path) && Components(path) != [] && Walk(e, ROOT, Front(Components(path))).Some?
    ensures ok ==> Walk(e, ROOT, Front(Components(path))) == Some(ino)
  {
    hide Walk, Components, Find, AfterLastSlash;
    var p := path;
    while |p| != 0 && p[|p| - 1] == '/'
      invariant Components(p) == Components(path) && p <= path
      decreases |p|
    {
      TrailingSlash(p[..|p| - 1]);
      assert p == p[..|p| - 1] + "/";
      p := p[..|p| - 1];
    }
    if AfterLastSlash(p) != 0 {
      ParentComponents(p);
      p := p[..AfterLastSlash(p)];
    } else {
      NoSlash(p);
    }
    var last: u32;
    ok, ino, last := RecursiveLookup(e, p);
  }

  lemma ParentComponents(p: string)
    requires p != "" && p[|p| - 1] != '/' && AfterLastSlash(p) != 0
    ensures Components(p) != [] && Components(p[..AfterLastSlash(p)]) == Front(Components(p))
  {
    hide Components;
    var k := AfterLastSlash(p);
    SlashAt(p, k);
    CutParts(p[..k - 1], p[k..]);
  }

  lemma SlashAt(p: string, k: nat)
    requires 0 < k <= |p| && p[k - 1] == '/'
    ensures p == p[..k - 1] + "/" + p[k..] && p[..k] == p[..k - 1] + "/"
  {
  }

  lemma CutParts(a: string, b: string)
    requires b != "" && '/' !in b
    ensures Components(a + "/" + b) != [] && Components(a + "/") == Front(Components(a + "/" + b))
  {
    hide Components;
    SplitAtSlash(a, b);
    TrailingSlash(a);
    OnlyPiece(b);
  }

  lemma NoSlash(p: string)
    requires AfterLastSlash(p) == 0
    ensures !Absolute(p) && (p == "" ==> Components(p) == [])
  {
    assert p[0..] == p;
  }

  /** The directory a look-up came from holds the entry of the final component. */
  lemma LastHoldsEntry(e: Entries, path: string, ino: u32, last: u32)
    requires Components(path) != [] && Resolves(e, path, ino, last)
    ensures var name := Components(path)[|Components(path)| - 1];
      (last, name) in e && e[(last, name)] == ino
  {
    var cs := Components(path);
    assert cs == Front(cs) + [cs[|cs| - 1]];
    WalkSnoc(e, ROOT, Front(cs), cs[|cs| - 1]);
  }

  /**
   * Both look-ups of one path: whenever the second finds the parent, `last` is
   * that parent, also when the final component is missing.
   */
  method LookupBoth(e: Entries, path: string) returns (ok: bool, ino: u32, last: u32, pok: bool, parent: u32)
    ensures pok ==> parent == last
    ensures ok && Components(path) != [] ==> pok
    ensures ok && Components(path) != [] ==> (last, Components(path)[|Components(path)| - 1]) in e
    ensures ok && Components(path) == [] ==> !pok && ino == last == ROOT
  {
    ok, ino, last := RecursiveLookup(e, path);
    pok, parent := RecursiveLookupParent(e, path);
    hide Components;
    if ok && Components(path) != [] {
      LastHoldsEntry(e, path, ino, last);
    }
  }

  // ---------- mkdirs ----------

  predicate IsNumber(i: u32) {
    1 <= i < INODE_NUM
  }

  /** Inode numbers that get_inode accepts. */
  ghost function Numbers(): set<u32> {
    set i: u32 | 0 <= i < INODE_NUM && IsNumber(i)
  }

  /** Entries join live inodes, no inode has two names and the root has none. */
  ghost predicate TreeOf(e: Entries, live: set<u32>) {
    && ROOT in live
    && (forall k | k in e :: k.0 in live && e[k] in live && e[k] != ROOT)
    && (forall k, l | k in e && l in e && e[k] == e[l] :: k == l)
  }

  /** An inode is reached by one list of names only. */
  lemma {:induction false} WalkUnique(e: Entries, live: set<u32>, a: seq<string>, b: seq<string>)
    requires TreeOf(e, live) && Walk(e, ROOT, a).Some? && Walk(e, ROOT, a) == Walk(e, ROOT, b)
    ensures a == b
    decreases |a| + |b|
  {
    if a != [] {
      LastEdge(e, live, a);
    }
    if b != [] {
      LastEdge(e, live, b);
    }
    hide TreeOf;
    if a != [] && b != [] {
      WalkUnique(e, live, Front(a), Front(b));
      assert a == Front(a) + [a[|a| - 1]] && b == Front(b) + [b[|b| - 1]];
    }
  }

  /** The last step of a walk is an entry; no other entry leads to that inode. */
  lemma LastEdge(e: Entries, live: set<u32>, a: seq<string>)
    requires TreeOf(e, live) && a != [] && Walk(e, ROOT, a).Some?
    ensures Walk(e, ROOT, Front(a)).Some? && Walk(e, ROOT, a).value != ROOT
    ensures var k := (Walk(e, ROOT, Front(a)).value, a[|a| - 1]);
      k in e && Walk(e, ROOT, a) == Some(e[k]) && forall l | l in e && e[l] == e[k] :: l == k
  {
    assert a == Front(a) + [a[|a| - 1]];
    WalkSnoc(e, ROOT, Front(a), a[|a| - 1]);
  }

  lemma {:induction false} WalkLive(e: Entries, live: set<u32>, a: seq<string>)
    requires TreeOf(e, live) && Walk(e, ROOT, a).Some?
    ensures Walk(e, ROOT, a).value in live
  {
    if a != [] {
      LastEdge(e, live, a);
    }
  }

  /** Paths that resolved still do, to the same inode; a path that newly resolves is a prefix of `cs`. */
  ghost predicate OnlyNew(e: Entries, e': Entries, cs: seq<string>) {
    && (forall ds :: Walk(e, ROOT, ds).Some? ==> Walk(e', ROOT, ds) == Walk(e, ROOT, ds))
    && (forall ds :: Walk(e', ROOT, ds).Some? && Walk(e, ROOT, ds).None? ==> ds <= cs)
  }

  /** A new entry for a fresh inode below the directory reached by `done` makes one more path resolve. */
  lemma {:induction false} AddedWalk(e: Entries, live: set<u32>, done: seq<string>, p: u32, n: string, i: u32,
                                     ds: seq<string>)
    requires TreeOf(e, live) && Walk(e, ROOT, done) == Some(p) && (p, n) !in e && i !in live
    ensures Walk(e[(p, n) := i], ROOT, ds) == if ds == done + [n] then Some(i) else Walk(e, ROOT, ds)
    decreases |ds|
  {
    if ds != [] {
      var fs, c := Front(ds), ds[|ds| - 1];
      var e' := e[(p, n) := i];
      assert ds == fs + [c];
      AddedWalk(e, live, done, p, n, i, fs);
      WalkSnoc(e, ROOT, fs, c);
      WalkSnoc(e', ROOT, fs, c);
      WalkLive(e, live, done);
      if fs == done + [n] {
        FreshHasNone(e, live, i, c);
        FreshPath(e, live, done, p, n, fs);
      } else if Walk(e, ROOT, fs) == Some(p) {
        WalkUnique(e, live, fs, done);
      } else {
        assert ds == done + [n] ==> fs == done;
      }
    }
  }

  lemma FreshHasNone(e: Entries, live: set<u32>, i: u32, c: string)
    requires TreeOf(e, live) && i !in live
    ensures (i, c) !in e
  {
  }

  lemma FreshPath(e: Entries, live: set<u32>, done: seq<string>, p: u32, n: string, fs: seq<string>)
    requires Walk(e, ROOT, done) == Some(p) && (p, n) !in e && fs == done + [n]
    ensures Walk(e, ROOT, fs) == None
  {
    WalkSnoc(e, ROOT, done, n);
  }

  lemma AddedTree(e: Entries, live: set<u32>, p: u32, n: string, i: u32)
    requires TreeOf(e, live) && p in live && (p, n) !in e && i !in live
    ensures TreeOf(e[(p, n) := i], live + {i})
  {
  }

  lemma AddedOnly(e0: Entries, e: Entries, live: set<u32>, done: seq<string>, p: u32, n: string, i: u32)
    requires TreeOf(e, live) && Walk(e, ROOT, done) == Some(p) && (p, n) !in e && i !in live
    requires OnlyNew(e0, e, done)
    ensures OnlyNew(e0, e[(p, n) := i], done + [n]) && Walk(e[(p, n) := i], ROOT, done) == Some(p)
  {
    var e' := e[(p, n) := i];
    hide TreeOf, Walk;
    forall ds
      ensures Walk(e', ROOT, ds) == if ds == done + [n] then Some(i) else Walk(e, ROOT, ds)
    {
      AddedWalk(e, live, done, p, n, i, ds);
    }
    FreshPath(e, live, done, p, n, done + [n]);
    assert done <= done + [n];
  }

  /** When PBMkdirs succeeds: a last name follows the last slash, and is new in a parent that exists or may be made. */
  ghost predicate CanMake(e: Entries, path: string, createparent: bool) {
    && Absolute(path) && path[|path| - 1] != '/'
    && Walk(e, ROOT, Components(path)).None?
    && (createparent || Walk(e, ROOT, Front(Components(path))).Some?)
  }

  /** Where the scan of PBMkdirs stands: `e0` are the entries it started with. */
  ghost predicate Making(e0: Entries, e: Entries, live: set<u32>, path: string, lastpos: nat, done: seq<string>,
                         ino: u32, createparent: bool) {
    && TreeOf(e, live) && ino in live && Absolute(path)
    && Scanned(e, path, lastpos, done, ino) && path[lastpos - 1] == '/'
    && OnlyNew(e0, e, done)
    && (createparent || e == e0)
  }

  ghost predicate Room(live: set<u32>, n: nat) {
    |Numbers() - live| >= n
  }

  lemma RoomLess(live: set<u32>, n: nat, i: u32)
    requires Room(live, n) && n > 0
    ensures Room(live + {i}, n - 1)
  {
    assert Numbers() - (live + {i}) == (Numbers() - live) - {i};
  }

  lemma MakingStart(e: Entries, live: set<u32>, path: string, createparent: bool)
    requires TreeOf(e, live) && Absolute(path)
    ensures Making(e, e, live, path, 1, [], ROOT, createparent)
  {
    ScannedStart(e, path);
  }

  lemma MakingEmpty(e0: Entries, e: Entries, live: set<u32>, path: string, pos: nat, done: seq<string>,
                    ino: u32, cp: bool)
    requires Making(e0, e, live, path, pos, done, ino, cp) && pos < |path| && Find(path, pos) == pos
    ensures Making(e0, e, live, path, pos + 1, done, ino, cp)
    ensures Components(path[pos..]) == Components(path[pos + 1..])
  {
    ScanPiece(path, pos, pos);
    ScannedEmpty(e, path, pos, done, ino);
  }

  /** Descending into an entry that is there. */
  lemma MakingDescends(e0: Entries, e: Entries, live: set<u32>, path: string, lastpos: nat, pos: nat,
                       done: seq<string>, ino: u32, cp: bool)
    requires Making(e0, e, live, path, lastpos, done, ino, cp) && lastpos < pos < |path| && Find(path, lastpos) == pos
    requires (ino, path[lastpos..pos]) in e
    ensures Making(e0, e, live, path, pos + 1, done + [path[lastpos..pos]], e[(ino, path[lastpos..pos])], cp)
    ensures |Components(path[lastpos..])| == |Components(path[pos + 1..])| + 1
  {
    hide Walk, Components;
    ScanPiece(path, lastpos, pos);
    ScannedName(e, path, lastpos, pos, done, ino, e[(ino, path[lastpos..pos])]);
    assert done <= done + [path[lastpos..pos]];
  }

  /** Making a directory below the current one leaves the scan where it was, with the entry there. */
  lemma MakingAdds(e0: Entries, e: Entries, live: set<u32>, path: string, lastpos: nat, done: seq<string>,
                   ino: u32, n: string, i: u32)
    requires Making(e0, e, live, path, lastpos, done, ino, true) && (ino, n) !in e && i !in live
    ensures var e' := e[(ino, n) := i];
      && TreeOf(e', live + {i}) && Scanned(e', path, lastpos, done, ino) && OnlyNew(e0, e', done + [n])
  {
    AddedTree(e, live, ino, n, i);
    AddedOnly(e0, e, live, done, ino, n, i);
  }

  lemma MakingInto(e0: Entries, e: Entries, live: set<u32>, path: string, lastpos: nat, pos: nat,
                   done: seq<string>, ino: u32, i: u32)
    requires Making(e0, e, live, path, lastpos, done, ino, true) && lastpos < pos < |path| && Find(path, lastpos) == pos
    requires (ino, path[lastpos..pos]) !in e && i !in live
    ensures var c := path[lastpos..pos];
      Making(e0, e[(ino, c) := i], live + {i}, path, pos + 1, done + [c], i, true)
    ensures |Components(path[lastpos..])| == |Components(path[pos + 1..])| + 1
  {
    hide Walk, Components, OnlyNew;
    var c := path[lastpos..pos];
    ScanPiece(path, lastpos, pos);
    MakingAdds(e0, e, live, path, lastpos, done, ino, c, i);
    ScannedName(e[(ino, c) := i], path, lastpos, pos, done, ino, i);
  }

  /** A missing parent that may not be made. */
  lemma NoParent(e: Entries, live: set<u32>, path: string, lastpos: nat, pos: nat, done: seq<string>, ino: u32)
    requires Making(e, e, live, path, lastpos, done, ino, false) && lastpos < pos < |path| && Find(path, lastpos) == pos
    requires (ino, path[lastpos..pos]) !in e
    ensures !CanMake(e, path, false)
  {
    hide Walk, Components, Find;
    var c := path[lastpos..pos];
    ScanPiece(path, lastpos, pos);
    var rest := Components(path[pos + 1..]);
    assert Components(path) == done + [c] + rest;
    if path[|path| - 1] != '/' {
      TailNotEmpty(path[pos + 1..]);
      assert Front(Components(path)) == done + [c] + Front(rest);
      WalkSnoc(e, ROOT, done, c);
      WalkConcat(e, ROOT, done + [c], Front(rest));
    }
  }

  lemma TailNotEmpty(s: string)
    requires s != "" && s[|s| - 1] != '/'
    ensures Components(s) != []
  {
    hide Components;
    var k := AfterLastSlash(s);
    if k == 0 {
      assert s[0..] == s;
      OnlyPiece(s);
    } else {
      SlashAt(s, k);
      CutParts(s[..k - 1], s[k..]);
    }
  }

  /** At the last name: making it succeeds exactly when PBMkdirs should. */
  lemma LastName(e0: Entries, e: Entries, live: set<u32>, path: string, lastpos: nat, done: seq<string>,
                 ino: u32, cp: bool)
    requires Making(e0, e, live, path, lastpos, done, ino, cp) && lastpos < |path| && Find(path, lastpos) == |path|
    ensures Components(path) == done + [path[lastpos..]]
    ensures (ino, path[lastpos..]) !in e <==> CanMake(e0, path, cp)
    ensures (ino, path[lastpos..]) in e ==> Walk(e, ROOT, Components(path)).Some?
  {
    hide Walk, Components, Find, TreeOf, OnlyNew;
    var c := path[lastpos..];
    ScanLast(path, lastpos);
    WalkSnoc(e, ROOT, done, c);
    StillUnresolved(e0, e, done, c);
    assert Walk(e0, ROOT, done + [c]).None? <==> (ino, c) !in e;
    assert Front(done + [c]) == done;
    assert path[|path| - 1] != '/' by {
      NoSlashAfter(path, lastpos);
    }
  }

  lemma NoSlashAfter(path: string, lastpos: nat)
    requires lastpos < |path| && Find(path, lastpos) == |path|
    ensures path[|path| - 1] != '/'
  {
  }

  lemma StillUnresolved(e0: Entries, e: Entries, done: seq<string>, c: string)
    requires OnlyNew(e0, e, done)
    ensures Walk(e, ROOT, done + [c]).None? <==> Walk(e0, ROOT, done + [c]).None?
  {
    hide Walk;
    assert !(done + [c] <= done);
  }

  lemma MakingRoom(e0: Entries, e: Entries, live: set<u32>, path: string, lastpos: nat, pos: nat,
                   done: seq<string>, ino: u32, cp: bool)
    requires Making(e0, e, live, path, lastpos, done, ino, cp) && lastpos < pos < |path| && Find(path, lastpos) == pos
    requires Room(live, |Components(path[lastpos..])|)
    ensures Room(live, 1)
  {
    ScanPiece(path, lastpos, pos);
  }

  lemma RoomMore(live: set<u32>, n: nat, m: nat)
    requires Room(live, n) && m <= n
    ensures Room(live, m)
  {
  }

  lemma NothingNew(e: Entries, path: string, cp: bool)
    requires !Absolute(path)
    ensures !CanMake(e, path, cp) && OnlyNew(e, e, Components(path))
  {
  }

  /** What holds of the result when the scan stops. */
  lemma MakingKept(e0: Entries, e: Entries, live: set<u32>, path: string, lastpos: nat, done: seq<string>,
                   ino: u32, cp: bool)
    requires Making(e0, e, live, path, lastpos, done, ino, cp)
    ensures TreeOf(e, live) && OnlyNew(e0, e, Components(path)) && (cp || e == e0)
    ensures lastpos == |path| ==> !CanMake(e0, path, cp) && Walk(e, ROOT, Components(path)).Some?
  {
    if lastpos == |path| {
      ScannedStop(e, path, done, ino);
    }
    hide Walk, Components, TreeOf, OnlyNew;
    MorePaths(e0, e, done, Components(path[lastpos..]));
  }

  lemma MorePaths(e0: Entries, e: Entries, done: seq<string>, rest: seq<string>)
    requires OnlyNew(e0, e, done)
    ensures OnlyNew(e0, e, done + rest)
  {
    hide Walk;
    forall ds | Walk(e, ROOT, ds).Some? && Walk(e0, ROOT, ds).None?
      ensures ds <= done + rest
    {
    }
  }

  lemma LastMade(e0: Entries, e: Entries, live: set<u32>, path: string, lastpos: nat, done: seq<string>,
                 ino: u32, cp: bool, i: u32)
    requires Making(e0, e, live, path, lastpos, done, ino, cp) && lastpos < |path| && Find(path, lastpos) == |path|
    requires (ino, path[lastpos..]) !in e && i !in live
    ensures var e' := e[(ino, path[lastpos..]) := i];
      && TreeOf(e', live + {i}) && OnlyNew(e0, e', Components(path))
      && Walk(e', ROOT, Components(path)) == Some(i)
  {
    hide Walk, Components, TreeOf, OnlyNew;
    var c := path[lastpos..];
    var e' := e[(ino, c) := i];
    LastName(e0, e, live, path, lastpos, done, ino, cp);
    AddedTree(e, live, ino, c, i);
    AddedOnly(e0, e, live, done, ino, c, i);
    WalkSnoc(e', ROOT, done, c);
  }

  datatype Outcome = Done | Throws(what: string)

  /** The name space of the name node. */
  class NameTree {
    var entries: Entries
    var live: set<u32>

    /** The name space with an empty root. */
    constructor ()
      ensures Valid() && entries == map[] && live == {ROOT}
    {
      entries, live := map[], {ROOT};
    }

    ghost predicate Valid()
      reads this
    {
      TreeOf(entries, live)
    }

    /** The lowest free inode number. */
    method AllocInode() returns (i: u32)
      requires Room(live, 1)
      modifies this`live
      ensures i in Numbers() - old(live) && live == old(live) + {i}
    {
      ghost var free: u32 :| free in Numbers() - live;
      i := 1;
      while i in live
        invariant 1 <= i <= free < INODE_NUM
        decreases free - i
      {
        i := i + 1;
      }
      live := live + {i};
    }

    /** NameNode::Mkdir: fails when the name exists. */
    method Mkdir(parent: u32, name: string) returns (ok: bool, ino: u32)
      requires Room(live, 1)
      modifies this
      ensures ok <==> (parent, name) !in old(entries)
      ensures !ok ==> entries == old(entries) && live == old(live)
      ensures ok ==> ino !in old(live) && live == old(live) + {ino} && entries == old(entries)[(parent, name) := ino]
    {
      if (parent, name) in entries {
        return false, entries[(parent, name)];
      }
      ino := AllocInode();
      entries := entries[(parent, name) := ino];
      ok := true;
    }

    /** PBMkdirs; on failure the parents made so far stay. */
    method Mkdirs(path: string, createparent: bool) returns (r: Outcome)
      requires Valid() && Room(live, |Components(path)|)
      modifies this
      ensures Valid() && old(live) <= live
      ensures r.Done? <==> CanMake(old(entries), path, createparent)
      ensures r.Done? ==> Walk(entries, ROOT, Components(path)).Some?
      ensures r.Done? ==> Walk(entries, ROOT, Components(path)).value !in old(live)
      ensures OnlyNew(old(entries), entries, Components(path))
      ensures r.Throws? && !createparent ==> entries == old(entries)
      ensures createparent && Absolute(path) ==> Walk(entries, ROOT, Components(path)).Some?
    {
      hide TreeOf, Walk, Components, Find, Making, OnlyNew, Room, CanMake;
      var pos, lastpos := 1, 1;
      if path == "" || path[0] != '/' {
        NothingNew(entries, path, createparent);
        return Throws("Not absolute path");
      }
      var ino := ROOT;
      ghost var e0, done := entries, [];
      MakingStart(entries, live, path, createparent);
      ScanStart(path);
      pos := Find(path, pos);
      while pos != |path|
        invariant 1 <= lastpos <= pos <= |path| && pos == Find(path, lastpos)
        invariant Making(e0, entries, live, path, lastpos, done, ino, createparent)
        invariant Room(live, |Components(path[lastpos..])|)
        invariant old(live) <= live
        decreases |path| - lastpos
      {
        if pos != lastpos {
          var component := path[lastpos..pos];
          if (ino, component) !in entries {
            if createparent {
              MakingRoom(e0, entries, live, path, lastpos, pos, done, ino, createparent);
              ghost var e, before := entries, live;
              var ok, dir := Mkdir(ino, component);
              MakingInto(e0, e, before, path, lastpos, pos, done, ino, dir);
              RoomLess(before, |Components(path[lastpos..])|, dir);
              ino := dir;
            } else {
              MakingKept(e0, entries, live, path, lastpos, done, ino, createparent);
              NoParent(entries, live, path, lastpos, pos, done, ino);
              return Throws("Parent not exists");
            }
          } else {
            MakingDescends(e0, entries, live, path, lastpos, pos, done, ino, createparent);
            RoomMore(live, |Components(path[lastpos..])|, |Components(path[pos + 1..])|);
            ino := entries[(ino, component)];
          }
          done := done + [component];
        } else {
          MakingEmpty(e0, entries, live, path, pos, done, ino, createparent);
        }
        pos := pos + 1;
        lastpos := pos;
        pos := Find(path, pos);
      }
      if lastpos != |path| {
        var component := path[lastpos..];
        LastName(e0, entries, live, path, lastpos, done, ino, createparent);
        MakingKept(e0, entries, live, path, lastpos, done, ino, createparent);
        ScanLast(path, lastpos);
        ghost var e, before := entries, live;
        RoomMore(live, |Components(path[lastpos..])|, 1);
        var ok, dir := Mkdir(ino, component);
        if !ok {
          return Throws("Mkdirs failed");
        }
        LastMade(e0, e, before, path, lastpos, done, ino, createparent, dir);
        r := Done;
      } else {
        MakingKept(e0, entries, live, path, lastpos, done, ino, createparent);
        r := Throws("No file name given");
      }
    }
  }

  lemma SomeNumbers()
    ensures Room({ROOT}, 1)
  {
    var two: u32 := 2;
    assert IsNumber(two) && two in Numbers() - {ROOT};
  }

  lemma SlashParts()
    ensures Components("/a/") == ["a"]
  {
    assert "/a/" == "" + "/" + ("a" + "/" + "");
    FirstPiece("", "a" + "/" + "");
    FirstPiece("a", "");
  }

  /** A path that ends in a slash is made in vain. */
  lemma SlashFails(e: Entries, path: string, createparent: bool)
    requires path != "" && path[|path| - 1] == '/'
    ensures !CanMake(e, path, createparent)
  {
    hide Walk, Components;
  }

  /** mkdirs of "/a/" fails, and "/a/" is there. */
  method MkdirsSlash() returns (t: NameTree, r: Outcome)
    ensures fresh(t) && r.Throws? && Walk(t.entries, ROOT, ["a"]).Some?
  {
    hide Components, Walk, Room, OnlyNew, TreeOf, CanMake, Numbers;
    t := new NameTree();
    SomeNumbers();
    SlashParts();
    SlashFails(map[], "/a/", true);
    r := t.Mkdirs("/a/", true);
  }
}
