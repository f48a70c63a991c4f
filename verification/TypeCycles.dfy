/** Type declarations of the Tiger checker and their cycle check (Compiler/lab4/semant.c, typeDec and actual_ty). */
module TypeCycles {

  import opened TigerTable
  import opened Scopes
  import opened Wrappers

  /** Type records by order of allocation; a record that is not a name is Solid. Number 0 is NULL. */
  datatype Node = Name(ty: nat) | Solid

  type Heap = seq<Node>

  /** The record of int. */
  const INT: nat := 1

  /** Size of the array that the cycle check remembers a chain in. */
  const USED: nat := 100

  predicate IsRef(h: Heap, r: nat) {
    NULL < r < |h|
  }

  /** Every name has been given a type. */
  ghost predicate Closed(h: Heap) {
    && IsRef(h, INT) && h[INT].Solid?
    && forall r: nat | IsRef(h, r) && h[r].Name? :: IsRef(h, h[r].ty)
  }

  function NameRefs(h: Heap): set<nat> {
    set r: nat | r < |h| && h[r].Name?
  }

  // ---------- alias chains ----------

  /** The record `k` steps along the chain of names from `r`. */
  function Follow(h: Heap, r: nat, k: nat): (s: nat)
    requires Closed(h) && IsRef(h, r)
    ensures IsRef(h, s)
  {
    if k == 0 then r
    else
      var s := Follow(h, r, k - 1);
      if h[s].Name? then h[s].ty else s
  }

  /** The chain comes to an end. */
  ghost predicate Ends(h: Heap, r: nat)
    requires Closed(h) && IsRef(h, r)
  {
    exists k: nat :: h[Follow(h, r, k)].Solid?
  }

  /** The chain meets a name twice. */
  ghost predicate Cyclic(h: Heap, r: nat)
    requires Closed(h) && IsRef(h, r)
  {
    exists i: nat, j: nat :: i < j && h[Follow(h, r, i)].Name? && Follow(h, r, i) == Follow(h, r, j)
  }

  lemma {:induction false} FollowTail(h: Heap, r: nat, k: nat)
    requires Closed(h) && IsRef(h, r) && h[r].Name?
    ensures Follow(h, r, k + 1) == Follow(h, h[r].ty, k)
  {
    if k > 0 {
      FollowTail(h, r, k - 1);
    }
  }

  lemma {:induction false} FollowMore(h: Heap, r: nat, i: nat, k: nat)
    requires Closed(h) && IsRef(h, r)
    ensures Follow(h, r, i + k) == Follow(h, Follow(h, r, i), k)
  {
    if k > 0 {
      FollowMore(h, r, i, k - 1);
    }
  }

  lemma {:induction false} SolidStays(h: Heap, r: nat, i: nat, j: nat)
    requires Closed(h) && IsRef(h, r) && i <= j && h[Follow(h, r, i)].Solid?
    ensures Follow(h, r, j) == Follow(h, r, i)
  {
    if i < j {
      SolidStays(h, r, i, j - 1);
    }
  }

  /** Once a name is met again the chain goes round for ever. */
  lemma {:induction false} RoundAgain(h: Heap, r: nat, i: nat, j: nat, k: nat)
    requires Closed(h) && IsRef(h, r) && i < j && Follow(h, r, i) == Follow(h, r, j)
    requires h[Follow(h, r, i)].Name?
    ensures h[Follow(h, r, k)].Name?
    decreases k
  {
    if k <= i {
      if h[Follow(h, r, k)].Solid? {
        SolidStays(h, r, k, i);
      }
    } else if k > j {
      FollowMore(h, r, i, k - j);
      FollowMore(h, r, j, k - j);
      RoundAgain(h, r, i, j, k - (j - i));
    } else if h[Follow(h, r, k)].Solid? {
      SolidStays(h, r, k, j);
    }
  }

  lemma CyclicNeverEnds(h: Heap, r: nat)
    requires Closed(h) && IsRef(h, r) && Cyclic(h, r)
    ensures !Ends(h, r)
  {
    var i: nat, j: nat :| i < j && h[Follow(h, r, i)].Name? && Follow(h, r, i) == Follow(h, r, j);
    forall k: nat
      ensures h[Follow(h, r, k)].Name?
    {
      RoundAgain(h, r, i, j, k);
    }
  }

  /** Names met so far along the chain, all different. */
  ghost predicate Met(h: Heap, r: nat, used: seq<nat>)
    requires Closed(h) && IsRef(h, r)
  {
    OnChain(h, r, used) && Different(used)
  }

  ghost predicate OnChain(h: Heap, r: nat, used: seq<nat>)
    requires Closed(h) && IsRef(h, r)
  {
    forall i: nat | i < |used| :: used[i] == Follow(h, r, i + 1) && h[used[i]].Name?
  }

  ghost predicate Different(s: seq<nat>) {
    forall i: nat, j: nat | i < j < |s| :: s[i] != s[j]
  }

  lemma {:induction false} FewerThanNames(s: seq<nat>, names: set<nat>)
    requires (forall i: nat | i < |s| :: s[i] in names) && forall i: nat, j: nat | i < j < |s| :: s[i] != s[j]
    ensures |s| <= |names|
  {
    if s != [] {
      var n := |s| - 1;
      FewerThanNames(s[..n], names - {s[n]});
    }
  }

  /** The chain meets more different names than the array has room for. */
  ghost predicate Long(h: Heap, r: nat)
    requires Closed(h) && IsRef(h, r)
  {
    exists used: seq<nat> :: |used| == USED + 1 && Met(h, r, used)
  }

  /** With at most as many name records as the array has room for, no chain is too long. */
  lemma FewNames(h: Heap, r: nat)
    requires Closed(h) && IsRef(h, r) && |NameRefs(h)| <= USED
    ensures !Long(h, r)
  {
    if Long(h, r) {
      var used: seq<nat> :| |used| == USED + 1 && Met(h, r, used);
      forall i: nat | i < |used|
        ensures used[i] in NameRefs(h)
      {
        assert h[used[i]].Name? && used[i] < |h|;
      }
      FewerThanNames(used, NameRefs(h));
    }
  }

  /** A chain ends or goes round: one or the other. */
  lemma EndsExact(h: Heap, r: nat)
    requires Closed(h) && IsRef(h, r)
    ensures Ends(h, r) <==> !Cyclic(h, r)
  {
    if Cyclic(h, r) {
      CyclicNeverEnds(h, r);
    } else if !Ends(h, r) {
      var n := |NameRefs(h)| + 1;
      var s := seq(n, k requires 0 <= k < n => Follow(h, r, k));
      forall k: nat | k < n
        ensures s[k] in NameRefs(h)
      {
        assert !h[Follow(h, r, k)].Solid?;
      }
      FewerThanNames(s, NameRefs(h));
    }
  }

  /** Steps until the chain from `r` ends. */
  ghost function StepsLeft(h: Heap, r: nat): nat
    requires Closed(h) && IsRef(h, r) && Ends(h, r)
  {
    var k: nat :| h[Follow(h, r, k)].Solid?;
    FirstSolid(h, r, k)
  }

  ghost function FirstSolid(h: Heap, r: nat, k: nat): (n: nat)
    requires Closed(h) && IsRef(h, r) && h[Follow(h, r, k)].Solid?
    ensures h[Follow(h, r, n)].Solid? && forall i: nat | i < n :: h[Follow(h, r, i)].Name?
  {
    if k > 0 && h[Follow(h, r, k - 1)].Solid? then FirstSolid(h, r, k - 1)
    else
      NamesBefore(h, r, k);
      k
  }

  lemma {:induction false} NamesBefore(h: Heap, r: nat, k: nat)
    requires Closed(h) && IsRef(h, r) && (k > 0 ==> h[Follow(h, r, k - 1)].Name?)
    ensures forall i: nat | i < k :: h[Follow(h, r, i)].Name?
  {
    forall i: nat | i < k
      ensures h[Follow(h, r, i)].Name?
    {
      if h[Follow(h, r, i)].Solid? {
        SolidStays(h, r, i, k - 1);
      }
    }
  }

  lemma StepsShrink(h: Heap, r: nat)
    requires Closed(h) && IsRef(h, r) && Ends(h, r) && h[r].Name?
    ensures Ends(h, h[r].ty) && StepsLeft(h, h[r].ty) < StepsLeft(h, r)
  {
    var n := StepsLeft(h, r);
    assert Follow(h, r, 0) == r;
    FollowTail(h, r, n - 1);
  }

  /** actual_ty: follows names to the type they stand for. It returns exactly on chains that end. */
  function ActualTy(h: Heap, r: nat): (a: nat)
    requires Closed(h) && (r == NULL || (IsRef(h, r) && Ends(h, r)))
    ensures r != NULL ==> IsRef(h, a) && h[a].Solid? && exists k: nat :: Follow(h, r, k) == a
    decreases if r == NULL then 0 else StepsLeft(h, r)
  {
    if r == NULL then NULL
    else if h[r].Name? then
      StepsShrink(h, r);
      var a := ActualTy(h, h[r].ty);
      ghost var k: nat :| Follow(h, h[r].ty, k) == a;
      FollowTail(h, r, k);
      a
    else
      assert Follow(h, r, 0) == r;
      r
  }

  // ---------- a batch of type declarations ----------

  /** What the cycle check comes to; Overrun: it would write past the end of its array. */
  datatype Verdict = Fine | Cycle | Overrun

  ghost function VerdictOf(h: Heap, r: nat): Verdict
    requires Closed(h) && IsRef(h, r)
  {
    if h[r].Solid? then Fine else if Long(h, r) then Overrun else if Cyclic(h, r) then Cycle else Fine
  }

  ghost predicate GoodEnv(h: Heap, tenv: map<Sym, nat>) {
    forall s | s in tenv :: IsRef(h, tenv[s])
  }

  ghost predicate AllIn(tenv: map<Sym, nat>, types: seq<NamedTy>) {
    forall i: nat | i < |types| :: types[i].name in tenv
  }

  /** The record an alias of `s` is given: the one of `s`, or int when `s` is not declared. */
  function Target(tenv: map<Sym, nat>, s: Sym): nat {
    if s in tenv then tenv[s] else INT
  }

  /** The record of a declaration: a name whose type is what the declaration says. */
  ghost predicate Declared(h: Heap, tenv: map<Sym, nat>, t: NamedTy) {
    && t.name in tenv && IsRef(h, tenv[t.name]) && h[tenv[t.name]].Name?
    && var ty := h[tenv[t.name]].ty;
       if t.ty.NameTy? then ty == Target(tenv, t.ty.sym) else IsRef(h, ty) && h[ty].Solid?
  }

  /** Declaration `i` is the last of the first `n` that concerns its record. */
  ghost predicate LastOf(tenv: map<Sym, nat>, types: seq<NamedTy>, i: nat, n: nat)
    requires i < n <= |types| && AllIn(tenv, types)
  {
    forall j: nat | i < j < n :: tenv[types[j].name] != tenv[types[i].name]
  }

  /**
   * Of the first `n` declarations, the last for each record counts; a record
   * that is not a name, int say, stays what it is.
   */
  ghost predicate DeclaredLast(h: Heap, tenv: map<Sym, nat>, types: seq<NamedTy>, n: nat)
    requires n <= |types| && AllIn(tenv, types) && GoodEnv(h, tenv)
  {
    forall i: nat | i < n && LastOf(tenv, types, i, n) && h[tenv[types[i].name]].Name? :: Declared(h, tenv, types[i])
  }

  /** Older records that no declaration of the batch concerns are as before, and none changes its kind. */
  ghost predicate OldKept(h: Heap, h': Heap, tenv: map<Sym, nat>, types: seq<NamedTy>)
    requires AllIn(tenv, types)
  {
    && |h| <= |h'| && (forall r: nat | r < |h| :: h'[r].Name? <==> h[r].Name?)
    && (forall r: nat | r < |h| && (forall j: nat | j < |types| :: tenv[types[j].name] != r) :: h'[r] == h[r])
  }

  ghost predicate EnvGrown(e: map<Sym, nat>, e': map<Sym, nat>) {
    forall s | s in e :: s in e' && e'[s] == e[s]
  }

  /** Every name that is new has a record of its own, which is new and a name; nothing else is new. */
  ghost predicate OwnRecords(h: Heap, h': Heap, e: map<Sym, nat>, e': map<Sym, nat>, types: seq<NamedTy>) {
    forall s | s in e' && s !in e ::
      && (exists j: nat :: j < |types| && types[j].name == s)
      && |h| <= e'[s] < |h'| && h'[e'[s]].Name? && forall t | t in e' && t != s :: e'[t] != e'[s]
  }

  class TypeEnv {
    var heap: Heap
    var tenv: map<Sym, nat>

    ghost predicate Valid()
      reads this
    {
      Closed(heap) && GoodEnv(heap, tenv)
    }

    constructor ()
      ensures Valid() && tenv == map[] && NameRefs(heap) == {}
    {
      heap, tenv := [Solid, Solid], map[];
    }

    /** Puts all names that are not bound yet in the environment, each with a record without a type. */
    method Headers(types: seq<NamedTy>)
      requires Valid()
      modifies this
      ensures AllIn(tenv, types) && EnvGrown(old(tenv), tenv) && GoodEnv(heap, tenv)
      ensures Untyped(old(heap), heap, tenv, types, |types|)
      ensures OwnRecords(old(heap), heap, old(tenv), tenv, types)
    {
      ghost var h, e := heap, tenv;
      var i := 0;
      while i < |types|
        invariant i <= |types| && GoodEnv(heap, tenv) && EnvGrown(e, tenv)
        invariant forall j: nat | j < i :: types[j].name in tenv
        invariant Untyped(h, heap, tenv, types, i)
        invariant OwnRecords(h, heap, e, tenv, types)
      {
        if types[i].name !in tenv {
          HeaderStep(h, heap, tenv, types, i);
          NewRecord(h, heap, e, tenv, types, i);
          tenv := tenv[types[i].name := |heap|];
          heap := heap + [Name(NULL)];
        } else {
          HeaderSkip(h, heap, tenv, types, i);
        }
        i := i + 1;
      }
    }

    /** transTy: the record a declaration stands for. */
    method TransTy(ty: Ty) returns (r: nat)
      requires IsRef(heap, INT) && GoodEnv(heap, tenv)
      modifies this`heap
      ensures old(heap) <= heap && IsRef(heap, r)
      ensures ty.NameTy? ==> heap == old(heap) && r == Target(tenv, ty.sym)
      ensures !ty.NameTy? ==> heap == old(heap) + [Solid] && r == |old(heap)|
    {
      match ty
      case NameTy(s) =>
        r := if s in tenv then tenv[s] else INT;
      case _ =>
        r := |heap|;
        heap := heap + [Solid];
    }

    /** Gives every name of the batch its type; the field written in a record that is not a name is never read. */
    method Bodies(types: seq<NamedTy>, ghost h: Heap)
      requires Closed(h) && AllIn(tenv, types) && GoodEnv(heap, tenv) && Untyped(h, heap, tenv, types, |types|)
      modifies this`heap
      ensures Closed(heap) && GoodEnv(heap, tenv) && DeclaredLast(heap, tenv, types, |types|)
      ensures OldKept(h, heap, tenv, types) && |NameRefs(heap)| <= |NameRefs(h)| + |types|
      ensures |old(heap)| <= |heap| && forall r: nat | r < |old(heap)| :: heap[r].Name? <==> old(heap)[r].Name?
    {
      hide Closed, DeclaredLast, OldKept, Untyped;
      ghost var h1 := heap;
      BodiesStart(h, heap, tenv, types);
      var i := 0;
      while i < |types|
        invariant i <= |types| && GoodEnv(heap, tenv) && Typing(h, h1, heap, tenv, types, i)
      {
        TypingRefs(h, h1, heap, tenv, types, i);
        var ty := tenv[types[i].name];
        ghost var before := heap;
        var target := TransTy(types[i].ty);
        if heap[ty].Name? {
          heap := heap[ty := Name(target)];
        }
        TypingStep(h, h1, before, heap, tenv, types, i, target);
        i := i + 1;
      }
      TypingEnds(h, h1, heap, tenv, types);
      assert |h1| <= |heap| && forall r: nat | r < |h1| :: heap[r].Name? <==> h1[r].Name?;
    }

    /** The chain of one name, walked with the names met so far kept in an array. */
    method CheckName(ty: nat) returns (v: Verdict)
      requires Valid() && IsRef(heap, ty) && heap[ty].Name?
      ensures v == VerdictOf(heap, ty)
    {
      var usedTypes := new nat[USED];
      var currentType := heap[ty].ty;
      var typeIndex := 0;
      StartsAt(heap, ty);
      while heap[currentType].Name? && heap[currentType].ty != NULL
        invariant typeIndex <= USED && IsRef(heap, currentType) && currentType == Follow(heap, ty, typeIndex + 1)
        invariant Met(heap, ty, usedTypes[..typeIndex])
        decreases USED - typeIndex
      {
        ghost var used := usedTypes[..typeIndex];
        var i := 0;
        while i < typeIndex
          invariant i <= typeIndex && forall k: nat | k < i :: used[k] != currentType
        {
          if currentType == usedTypes[i] {
            assert used[i] == currentType;
            MetAgain(heap, ty, used, i, currentType);
            return Cycle;
          }
          i := i + 1;
        }
        MetMore(heap, ty, used, currentType);
        if typeIndex == USED {
          assert |used + [currentType]| == USED + 1;
          return Overrun;
        }
        usedTypes[typeIndex] := currentType;
        assert usedTypes[..typeIndex + 1] == used + [currentType];
        currentType := heap[currentType].ty;
        typeIndex := typeIndex + 1;
      }
      ChainEnds(heap, ty, typeIndex + 1);
      v := Fine;
    }

    /** Stops at the first name whose chain goes round, or is too long for the array. */
    method CheckCycles(types: seq<NamedTy>) returns (v: Verdict)
      requires Valid() && AllIn(tenv, types)
      ensures v == Fine ==> forall i: nat | i < |types| :: NameVerdict(heap, tenv, types[i].name) == Fine
      ensures v != Fine ==> exists i: nat :: i < |types| && FirstBad(heap, tenv, types, i, v)
    {
      hide Closed, Cyclic, Long;
      var i := 0;
      while i < |types|
        invariant i <= |types|
        invariant forall k: nat | k < i :: NameVerdict(heap, tenv, types[k].name) == Fine
      {
        var ty := tenv[types[i].name];
        if heap[ty].Name? {
          v := CheckName(ty);
          if v != Fine {
            assert FirstBad(heap, tenv, types, i, v);
            return;
          }
        }
        i := i + 1;
      }
      v := Fine;
    }

    /**
     * Any batch. The verdict is that of the first declared name whose chain
     * goes round or outgrows the array; when it is Fine, actual_ty returns on
     * every name declared. With at most 100 name records in all the array is
     * large enough, and the cycle error is reported exactly when some alias
     * chain goes round.
     */
    method TransTypeDec(types: seq<NamedTy>) returns (v: Verdict)
      requires Valid()
      modifies this
      ensures Valid() && AllIn(tenv, types) && EnvGrown(old(tenv), tenv)
      ensures OwnRecords(old(heap), heap, old(tenv), tenv, types)
      ensures DeclaredLast(heap, tenv, types, |types|) && OldKept(old(heap), heap, tenv, types)
      ensures v == Fine ==> forall i: nat | i < |types| :: NameVerdict(heap, tenv, types[i].name) == Fine
      ensures v == Fine ==> forall i: nat | i < |types| :: EndingName(heap, tenv, types[i].name)
      ensures v != Fine ==> exists i: nat :: i < |types| && FirstBad(heap, tenv, types, i, v)
      ensures |NameRefs(old(heap))| + |types| <= USED ==>
                v != Overrun && (v == Cycle <==> exists i: nat :: i < |types| && CyclicName(heap, tenv, types[i].name))
    {
      ghost var h, e := heap, tenv;
      hide Cyclic, Ends, Long, Closed, DeclaredLast, OldKept, FirstBad, Untyped, OwnRecords;
      Headers(types);
      ghost var h1 := heap;
      Bodies(types, h);
      SameKinds(h, h1, heap, e, tenv, types);
      v := CheckCycles(types);
      VerdictMeans(heap, tenv, types, v);
    }
  }

  ghost predicate CyclicName(h: Heap, tenv: map<Sym, nat>, s: Sym)
    requires Closed(h) && GoodEnv(h, tenv)
  {
    s in tenv && Cyclic(h, tenv[s])
  }

  ghost predicate EndingName(h: Heap, tenv: map<Sym, nat>, s: Sym)
    requires Closed(h) && GoodEnv(h, tenv)
  {
    s in tenv && Ends(h, tenv[s])
  }

  ghost function NameVerdict(h: Heap, tenv: map<Sym, nat>, s: Sym): Verdict
    requires Closed(h) && GoodEnv(h, tenv) && s in tenv
  {
    VerdictOf(h, tenv[s])
  }

  ghost predicate FirstBad(h: Heap, tenv: map<Sym, nat>, types: seq<NamedTy>, i: nat, v: Verdict)
    requires Closed(h) && GoodEnv(h, tenv) && AllIn(tenv, types) && i < |types|
  {
    NameVerdict(h, tenv, types[i].name) == v && forall k: nat | k < i :: NameVerdict(h, tenv, types[k].name) == Fine
  }

  lemma VerdictMeans(h: Heap, tenv: map<Sym, nat>, types: seq<NamedTy>, v: Verdict)
    requires Closed(h) && GoodEnv(h, tenv) && AllIn(tenv, types)
    requires v == Fine ==> forall i: nat | i < |types| :: NameVerdict(h, tenv, types[i].name) == Fine
    requires v != Fine ==> exists i: nat :: i < |types| && FirstBad(h, tenv, types, i, v)
    ensures v == Fine ==> forall i: nat | i < |types| :: EndingName(h, tenv, types[i].name)
    ensures |NameRefs(h)| <= USED ==>
              v != Overrun && (v == Cycle <==> exists i: nat :: i < |types| && CyclicName(h, tenv, types[i].name))
  {
    hide Cyclic, Ends, Long, Closed;
    forall i: nat | i < |types|
      ensures NameVerdict(h, tenv, types[i].name) == Fine ==> EndingName(h, tenv, types[i].name)
      ensures NameVerdict(h, tenv, types[i].name) == Cycle ==> CyclicName(h, tenv, types[i].name)
      ensures |NameRefs(h)| <= USED ==> NameVerdict(h, tenv, types[i].name) != Overrun
      ensures CyclicName(h, tenv, types[i].name) <==> !EndingName(h, tenv, types[i].name)
    {
      var r := tenv[types[i].name];
      EndsExact(h, r);
      if h[r].Solid? {
        SolidEnds(h, r);
      }
      if |NameRefs(h)| <= USED {
        FewNames(h, r);
      }
    }
  }

  // ---------- headers ----------

  /** A record of the first `n` headers. */
  ghost predicate HasHeader(tenv: map<Sym, nat>, types: seq<NamedTy>, n: nat, r: nat)
    requires n <= |types|
  {
    exists j: nat :: j < n && types[j].name in tenv && tenv[types[j].name] == r
  }

  /** After `n` headers: the older records, and behind them at most one record a header, none with a type yet. */
  ghost predicate Untyped(h: Heap, h': Heap, tenv: map<Sym, nat>, types: seq<NamedTy>, n: nat)
    requires n <= |types|
  {
    && |h| <= |h'| <= |h| + n && h'[..|h|] == h
    && forall r: nat | |h| <= r < |h'| :: h'[r] == Name(NULL) && HasHeader(tenv, types, n, r)
  }

  lemma HeaderStep(h: Heap, h': Heap, tenv: map<Sym, nat>, types: seq<NamedTy>, n: nat)
    requires n < |types| && Untyped(h, h', tenv, types, n) && types[n].name !in tenv
    ensures Untyped(h, h' + [Name(NULL)], tenv[types[n].name := |h'|], types, n + 1)
  {
    var e, m := tenv[types[n].name := |h'|], n + 1;
    forall r: nat | |h| <= r <= |h'|
      ensures HasHeader(e, types, m, r)
    {
      if r == |h'| {
        assert types[n].name in e && e[types[n].name] == r;
      } else {
        assert HasHeader(tenv, types, n, r);
        var j: nat :| j < n && types[j].name in tenv && tenv[types[j].name] == r;
        assert types[j].name in e && e[types[j].name] == r;
      }
    }
  }

  lemma HeaderSkip(h: Heap, h': Heap, tenv: map<Sym, nat>, types: seq<NamedTy>, n: nat)
    requires n < |types| && Untyped(h, h', tenv, types, n)
    ensures Untyped(h, h', tenv, types, n + 1)
  {
    var m := n + 1;
    forall r: nat | |h| <= r < |h'|
      ensures HasHeader(tenv, types, m, r)
    {
      assert HasHeader(tenv, types, n, r);
      var j: nat :| j < n && types[j].name in tenv && tenv[types[j].name] == r;
      assert types[j].name in tenv && tenv[types[j].name] == r;
    }
  }

  lemma NewRecord(h: Heap, h': Heap, e: map<Sym, nat>, e': map<Sym, nat>, types: seq<NamedTy>, i: nat)
    requires i < |types| && types[i].name !in e' && |h| <= |h'| && GoodEnv(h', e') && OwnRecords(h, h', e, e', types)
    ensures OwnRecords(h, h' + [Name(NULL)], e, e'[types[i].name := |h'|], types)
  {
  }

  lemma SameKinds(h: Heap, h1: Heap, h': Heap, e: map<Sym, nat>, e': map<Sym, nat>, types: seq<NamedTy>)
    requires OwnRecords(h, h1, e, e', types)
    requires |h1| <= |h'| && forall r: nat | r < |h1| :: h'[r].Name? <==> h1[r].Name?
    ensures OwnRecords(h, h', e, e', types)
  {
  }

  // ---------- bodies ----------

  /** A record still without a type belongs to a declaration to come. */
  ghost predicate Pending(tenv: map<Sym, nat>, types: seq<NamedTy>, i: nat, r: nat)
    requires AllIn(tenv, types)
  {
    exists j: nat :: i <= j < |types| && tenv[types[j].name] == r
  }

  /** After `i` bodies; `h` are the older records, `h1` those after the headers. */
  ghost predicate Typing(h: Heap, h1: Heap, h': Heap, tenv: map<Sym, nat>, types: seq<NamedTy>, i: nat)
    requires i <= |types| && AllIn(tenv, types) && GoodEnv(h', tenv)
  {
    && IsRef(h', INT) && h'[INT].Solid?
    && |h1| <= |h'| && Untyped(h, h1, tenv, types, |types|)
    && (forall r: nat | r < |h1| :: h'[r].Name? <==> h1[r].Name?)
    && (forall r: nat | |h1| <= r < |h'| :: h'[r].Solid?)
    && (forall r: nat | IsRef(h', r) && h'[r].Name? :: IsRef(h', h'[r].ty) || Pending(tenv, types, i, r))
    && (forall r: nat | r < |h1| && (forall j: nat | j < i :: tenv[types[j].name] != r) :: h'[r] == h1[r])
    && DeclaredLast(h', tenv, types, i)
  }

  lemma TypingRefs(h: Heap, h1: Heap, h': Heap, tenv: map<Sym, nat>, types: seq<NamedTy>, i: nat)
    requires i <= |types| && AllIn(tenv, types) && GoodEnv(h', tenv) && Typing(h, h1, h', tenv, types, i)
    ensures IsRef(h', INT)
  {
  }

  lemma BodiesStart(h: Heap, h1: Heap, tenv: map<Sym, nat>, types: seq<NamedTy>)
    requires Closed(h) && AllIn(tenv, types) && GoodEnv(h1, tenv) && Untyped(h, h1, tenv, types, |types|)
    ensures Typing(h, h1, h1, tenv, types, 0)
  {
    assert h1[INT] == h1[..|h|][INT];
    forall r: nat | IsRef(h1, r) && h1[r].Name?
      ensures IsRef(h1, h1[r].ty) || Pending(tenv, types, 0, r)
    {
      if r < |h| {
        assert h1[..|h|][r] == h[r];
      } else {
        assert HasHeader(tenv, types, |types|, r);
      }
    }
  }

  lemma TypingStep(h: Heap, h1: Heap, before: Heap, after: Heap, tenv: map<Sym, nat>,
                   types: seq<NamedTy>, i: nat, target: nat)
    requires i < |types| && AllIn(tenv, types) && GoodEnv(before, tenv) && Typing(h, h1, before, tenv, types, i)
    requires BodyDone(before, after, tenv, types[i], target)
    ensures GoodEnv(after, tenv) && Typing(h, h1, after, tenv, types, i + 1)
  {
    hide Untyped, DeclaredLast;
    var r0 := tenv[types[i].name];
    forall r: nat | IsRef(after, r) && after[r].Name?
      ensures IsRef(after, after[r].ty) || Pending(tenv, types, i + 1, r)
    {
      StillPending(before, after, tenv, types, i, target, r);
    }
    forall r: nat | r < |h1| && (forall j: nat | j < i + 1 :: tenv[types[j].name] != r)
      ensures after[r] == h1[r]
    {
      assert tenv[types[i].name] != r;
      assert forall j: nat | j < i :: tenv[types[j].name] != r;
    }
    LastStep(before, after, tenv, types, i, target);
  }

  /** One body: the record, when it is a name, gets its type; a type that is not a name gets a new record. */
  ghost predicate BodyDone(before: Heap, after: Heap, tenv: map<Sym, nat>, t: NamedTy, target: nat) {
    && t.name in tenv && IsRef(before, tenv[t.name])
    && var r := tenv[t.name];
       var h := if t.ty.NameTy? then before else before + [Solid];
       && after == (if h[r].Name? then h[r := Name(target)] else h)
       && (if t.ty.NameTy? then target == Target(tenv, t.ty.sym) else target == |before|)
       && IsRef(after, target)
  }

  lemma StillPending(before: Heap, after: Heap, tenv: map<Sym, nat>, types: seq<NamedTy>, i: nat, target: nat, r: nat)
    requires i < |types| && AllIn(tenv, types) && BodyDone(before, after, tenv, types[i], target)
    requires IsRef(after, r) && after[r].Name?
    requires IsRef(before, r) && before[r].Name? ==> IsRef(before, before[r].ty) || Pending(tenv, types, i, r)
    ensures IsRef(after, after[r].ty) || Pending(tenv, types, i + 1, r)
  {
    if r != tenv[types[i].name] {
      assert after[r] == before[r];
      if !IsRef(before, before[r].ty) {
        var j: nat :| i <= j < |types| && tenv[types[j].name] == r;
        assert j != i;
        assert Pending(tenv, types, i + 1, r);
      }
    }
  }

  lemma LastStep(before: Heap, after: Heap, tenv: map<Sym, nat>, types: seq<NamedTy>, i: nat, target: nat)
    requires i < |types| && AllIn(tenv, types) && GoodEnv(before, tenv) && GoodEnv(after, tenv)
    requires DeclaredLast(before, tenv, types, i) && BodyDone(before, after, tenv, types[i], target)
    ensures DeclaredLast(after, tenv, types, i + 1)
  {
    forall k: nat | k < i + 1 && LastOf(tenv, types, k, i + 1) && after[tenv[types[k].name]].Name?
      ensures Declared(after, tenv, types[k])
    {
      if k == i {
        DeclaredNow(before, after, tenv, types[i], target);
      } else {
        assert tenv[types[i].name] != tenv[types[k].name];
        assert LastOf(tenv, types, k, i);
        DeclaredStill(before, after, tenv, types[i], target, types[k]);
      }
    }
  }

  lemma DeclaredNow(before: Heap, after: Heap, tenv: map<Sym, nat>, t: NamedTy, target: nat)
    requires BodyDone(before, after, tenv, t, target) && after[tenv[t.name]].Name?
    ensures Declared(after, tenv, t)
  {
  }

  lemma DeclaredStill(before: Heap, after: Heap, tenv: map<Sym, nat>, t: NamedTy, target: nat, u: NamedTy)
    requires BodyDone(before, after, tenv, t, target)
    requires u.name in tenv && tenv[u.name] != tenv[t.name] && Declared(before, tenv, u)
    ensures Declared(after, tenv, u)
  {
  }

  lemma TypingEnds(h: Heap, h1: Heap, h': Heap, tenv: map<Sym, nat>, types: seq<NamedTy>)
    requires Closed(h) && AllIn(tenv, types) && GoodEnv(h', tenv) && Typing(h, h1, h', tenv, types, |types|)
    ensures Closed(h') && OldKept(h, h', tenv, types) && DeclaredLast(h', tenv, types, |types|)
    ensures |NameRefs(h')| <= |NameRefs(h)| + |types|
  {
    hide DeclaredLast;
    forall r: nat | r < |h|
      ensures h1[r] == h[r]
    {
      assert h1[..|h|][r] == h[r];
    }
    assert NameRefs(h') <= NameRefs(h) + News(|h|, |types|);
    Smaller(NameRefs(h'), NameRefs(h) + News(|h|, |types|));
    forall r: nat | IsRef(h', r) && h'[r].Name?
      ensures IsRef(h', h'[r].ty)
    {
      assert !Pending(tenv, types, |types|, r);
    }
  }

  function News(base: nat, n: nat): (s: set<nat>)
    ensures |s| <= n && forall r: nat | base <= r < base + n :: r in s
  {
    if n == 0 then {} else News(base, n - 1) + {base + n - 1}
  }

  lemma Smaller(a: set<nat>, b: set<nat>)
    requires a <= b
    ensures |a| <= |b|
  {
    assert b == a + (b - a);
  }

  // ---------- walking a chain ----------

  lemma StartsAt(h: Heap, r: nat)
    requires Closed(h) && IsRef(h, r) && h[r].Name?
    ensures Follow(h, r, 1) == h[r].ty
  {
    assert Follow(h, r, 0) == r;
  }

  lemma MetMore(h: Heap, r: nat, used: seq<nat>, current: nat)
    requires Closed(h) && IsRef(h, r) && Met(h, r, used) && current == Follow(h, r, |used| + 1) && h[current].Name?
    requires forall i: nat | i < |used| :: used[i] != current
    ensures Met(h, r, used + [current]) && h[current].ty == Follow(h, r, |used| + 2)
  {
    MetNext(h, r, used, current);
    hide Follow;
    OneMore(used, current);
  }

  lemma MetNext(h: Heap, r: nat, used: seq<nat>, current: nat)
    requires Closed(h) && IsRef(h, r) && OnChain(h, r, used)
    requires current == Follow(h, r, |used| + 1) && h[current].Name?
    ensures OnChain(h, r, used + [current]) && h[current].ty == Follow(h, r, |used| + 2)
  {
    assert Follow(h, r, |used| + 2) == h[Follow(h, r, |used| + 1)].ty;
    hide Follow;
  }

  lemma OneMore(used: seq<nat>, current: nat)
    requires Different(used) && forall i: nat | i < |used| :: used[i] != current
    ensures Different(used + [current])
  {
  }

  lemma MetFollow(h: Heap, r: nat, used: seq<nat>, i: nat, j: nat)
    requires Closed(h) && IsRef(h, r) && Met(h, r, used) && i < j < |used|
    ensures Follow(h, r, i + 1) != Follow(h, r, j + 1)
  {
    assert used[i] == Follow(h, r, i + 1) && used[j] == Follow(h, r, j + 1);
  }

  lemma MetTyped(h: Heap, r: nat, used: seq<nat>, i: nat)
    requires Closed(h) && IsRef(h, r) && Met(h, r, used) && i < |used|
    ensures h[Follow(h, r, i + 1)].Name? && h[Follow(h, r, i + 1)].ty != NULL
  {
    assert used[i] == Follow(h, r, i + 1);
  }

  lemma MetAgain(h: Heap, r: nat, used: seq<nat>, i: nat, current: nat)
    requires Closed(h) && IsRef(h, r) && Met(h, r, used) && current == Follow(h, r, |used| + 1)
    requires i < |used| <= USED && used[i] == current
    ensures Cyclic(h, r) && !Long(h, r)
  {
    if Long(h, r) {
      var more: seq<nat> :| |more| == USED + 1 && Met(h, r, more);
      MetFollow(h, r, more, i, |used|);
    }
    assert h[Follow(h, r, i + 1)].Name? && Follow(h, r, i + 1) == Follow(h, r, |used| + 1);
  }

  lemma ChainEnds(h: Heap, r: nat, k: nat)
    requires Closed(h) && IsRef(h, r) && 0 < k <= USED + 1
    requires h[Follow(h, r, k)].Name? ==> h[Follow(h, r, k)].ty == NULL
    ensures !Cyclic(h, r) && !Long(h, r)
  {
    EndsExact(h, r);
    if Long(h, r) {
      var more: seq<nat> :| |more| == USED + 1 && Met(h, r, more);
      MetTyped(h, r, more, k - 1);
    }
  }

  lemma SolidEnds(h: Heap, r: nat)
    requires Closed(h) && IsRef(h, r) && h[r].Solid?
    ensures !Cyclic(h, r)
  {
    assert Follow(h, r, 0) == r;
    EndsExact(h, r);
  }

  // ---------- chains longer than the array ----------

  function Numbered(i: nat): Sym {
    2 + i
  }

  function Alias(n: nat, i: nat): NamedTy
    requires i < n
  {
    NamedTy(i, Numbered(i), if i + 1 < n then NameTy(Numbered(i + 1)) else RecordTy([]))
  }

  /** type t0 = t1 type t1 = t2 and so on; the last is a record type. */
  function Aliases(n: nat): (types: seq<NamedTy>)
    ensures |types| == n
  {
    seq(n, i requires 0 <= i < n => Alias(n, i))
  }

  /** The declarations as the checker has stored them, each in a record of its own. */
  ghost predicate Stored(h: Heap, tenv: map<Sym, nat>, n: nat) {
    && Closed(h) && GoodEnv(h, tenv)
    && (forall i: nat | i < n :: Numbered(i) in tenv && Declared(h, tenv, Alias(n, i)))
    && (forall i: nat, j: nat | i < j < n :: tenv[Numbered(i)] != tenv[Numbered(j)])
  }

  lemma {:induction false} AliasFollow(h: Heap, tenv: map<Sym, nat>, n: nat, i: nat, k: nat)
    requires Stored(h, tenv, n) && i + k < n
    ensures Numbered(i) in tenv && Numbered(i + k) in tenv
    ensures Follow(h, tenv[Numbered(i)], k) == tenv[Numbered(i + k)] && h[tenv[Numbered(i + k)]].Name?
  {
    assert Declared(h, tenv, Alias(n, i)) && Declared(h, tenv, Alias(n, i + k));
    if k > 0 {
      AliasFollow(h, tenv, n, i, k - 1);
      assert Declared(h, tenv, Alias(n, i + k - 1));
    }
  }

  /** The chain of declaration `i` has the names after it. */
  lemma AliasVerdict(h: Heap, tenv: map<Sym, nat>, n: nat, i: nat)
    requires Stored(h, tenv, n) && i < n
    ensures Numbered(i) in tenv
    ensures NameVerdict(h, tenv, Numbered(i)) == if n - 1 - i > USED then Overrun else Fine
  {
    assert Declared(h, tenv, Alias(n, i));
    hide Stored, Long, Cyclic, Closed;
    StoredParts(h, tenv, n);
    if n - 1 - i > USED {
      AliasesMet(h, tenv, n, i);
    } else {
      AliasesEnd(h, tenv, n, i);
    }
  }

  lemma StoredParts(h: Heap, tenv: map<Sym, nat>, n: nat)
    requires Stored(h, tenv, n)
    ensures Closed(h) && GoodEnv(h, tenv)
  {
  }

  lemma AliasesEnd(h: Heap, tenv: map<Sym, nat>, n: nat, i: nat)
    requires Stored(h, tenv, n) && i < n <= i + USED + 1 && Numbered(i) in tenv
    ensures !Cyclic(h, tenv[Numbered(i)]) && !Long(h, tenv[Numbered(i)])
  {
    AliasFollow(h, tenv, n, i, n - 1 - i);
    assert Declared(h, tenv, Alias(n, n - 1));
    assert h[Follow(h, tenv[Numbered(i)], n - i)].Solid?;
    hide Stored, Long, Cyclic, Closed;
    ChainEnds(h, tenv[Numbered(i)], n - i);
  }

  /** The records of the names behind declaration `i`. */
  function Behind(tenv: map<Sym, nat>, i: nat): (used: seq<nat>)
    ensures |used| == USED + 1
  {
    seq<nat>(USED + 1, k requires 0 <= k < USED + 1 => Target(tenv, Numbered(i + (k + 1))))
  }

  lemma StoredDiffer(h: Heap, tenv: map<Sym, nat>, n: nat, i: nat, j: nat)
    requires Stored(h, tenv, n) && i < j < n
    ensures Target(tenv, Numbered(i)) != Target(tenv, Numbered(j))
  {
    hide Closed, Declared, GoodEnv;
    assert Numbered(i) in tenv && Numbered(j) in tenv && tenv[Numbered(i)] != tenv[Numbered(j)];
  }

  lemma BehindDiffer(h: Heap, tenv: map<Sym, nat>, n: nat, i: nat)
    requires Stored(h, tenv, n) && i + USED + 1 < n
    ensures Different(Behind(tenv, i))
  {
    hide Stored, Target, Numbered;
    forall k: nat, l: nat | k < l < USED + 1
      ensures Behind(tenv, i)[k] != Behind(tenv, i)[l]
    {
      StoredDiffer(h, tenv, n, i + (k + 1), i + (l + 1));
    }
  }

  lemma BehindIsChain(h: Heap, tenv: map<Sym, nat>, n: nat, i: nat)
    requires Stored(h, tenv, n) && i + USED + 1 < n && Numbered(i) in tenv
    requires Closed(h) && IsRef(h, tenv[Numbered(i)])
    ensures OnChain(h, tenv[Numbered(i)], Behind(tenv, i))
  {
    hide Stored, Closed, Follow;
    forall k: nat | k < USED + 1
      ensures Behind(tenv, i)[k] == Follow(h, tenv[Numbered(i)], k + 1) && h[Behind(tenv, i)[k]].Name?
    {
      AliasFollow(h, tenv, n, i, k + 1);
      assert Behind(tenv, i)[k] == tenv[Numbered(i + (k + 1))];
    }
  }

  lemma AliasesMet(h: Heap, tenv: map<Sym, nat>, n: nat, i: nat)
    requires Stored(h, tenv, n) && i + USED + 1 < n && Numbered(i) in tenv
    ensures Closed(h) && GoodEnv(h, tenv) && Long(h, tenv[Numbered(i)])
  {
    StoredParts(h, tenv, n);
    StoredRef(h, tenv, Numbered(i));
    hide Closed, Declared, GoodEnv, Stored, Different, OnChain, Behind;
    BehindIsChain(h, tenv, n, i);
    BehindDiffer(h, tenv, n, i);
    assert Met(h, tenv[Numbered(i)], Behind(tenv, i));
  }

  lemma StoredRef(h: Heap, tenv: map<Sym, nat>, x: Sym)
    requires GoodEnv(h, tenv) && x in tenv
    ensures IsRef(h, tenv[x])
  {
  }

  lemma AliasRecord(h: Heap, tenv: map<Sym, nat>, h0: Heap, n: nat, i: nat)
    requires AllIn(tenv, Aliases(n)) && OwnRecords(h0, h, map[], tenv, Aliases(n)) && i < n
    ensures Numbered(i) in tenv && tenv[Numbered(i)] < |h| && h[tenv[Numbered(i)]].Name?
    ensures forall j: nat | i < j < n :: Numbered(j) in tenv && tenv[Numbered(i)] != tenv[Numbered(j)]
  {
    assert forall j: nat | j < n :: Aliases(n)[j].name == Numbered(j);
    assert forall j: nat | i < j :: Numbered(j) != Numbered(i);
  }

  lemma AliasDeclared(h: Heap, tenv: map<Sym, nat>, h0: Heap, n: nat, i: nat)
    requires AllIn(tenv, Aliases(n)) && OwnRecords(h0, h, map[], tenv, Aliases(n)) && i < n
    requires GoodEnv(h, tenv) && DeclaredLast(h, tenv, Aliases(n), n)
    ensures Declared(h, tenv, Alias(n, i))
  {
    AliasRecord(h, tenv, h0, n, i);
    hide OwnRecords, Declared;
    assert forall j: nat | j < n :: Aliases(n)[j].name == Numbered(j);
    assert LastOf(tenv, Aliases(n), i, n);
  }

  lemma AliasesStored(h: Heap, tenv: map<Sym, nat>, h0: Heap, n: nat)
    requires Closed(h) && GoodEnv(h, tenv) && AllIn(tenv, Aliases(n)) && OwnRecords(h0, h, map[], tenv, Aliases(n))
    requires DeclaredLast(h, tenv, Aliases(n), n)
    ensures Stored(h, tenv, n)
  {
    hide OwnRecords, DeclaredLast, Declared, Closed, GoodEnv, AllIn, Numbered, Alias, Aliases;
    forall i: nat | i < n
      ensures Numbered(i) in tenv && Declared(h, tenv, Alias(n, i))
      ensures forall j: nat | i < j < n :: Numbered(j) in tenv && tenv[Numbered(i)] != tenv[Numbered(j)]
    {
      AliasRecord(h, tenv, h0, n, i);
      AliasDeclared(h, tenv, h0, n, i);
    }
  }

  lemma ChainVerdict(h: Heap, tenv: map<Sym, nat>, n: nat, v: Verdict)
    requires Stored(h, tenv, n) && AllIn(tenv, Aliases(n))
    requires v == Fine ==> forall i: nat | i < n :: NameVerdict(h, tenv, Aliases(n)[i].name) == Fine
    requires v != Fine ==> exists i: nat :: i < n && FirstBad(h, tenv, Aliases(n), i, v)
    ensures v == if n > USED + 1 then Overrun else Fine
  {
    StoredParts(h, tenv, n);
    hide Stored, Closed, GoodEnv, VerdictOf;
    assert forall i: nat | i < n :: Aliases(n)[i].name == Numbered(i);
    if n > 0 {
      assert Aliases(n)[0].name == Numbered(0);
      AliasVerdict(h, tenv, n, 0);
    }
    if v != Fine {
      var i: nat :| i < n && FirstBad(h, tenv, Aliases(n), i, v);
      AliasVerdict(h, tenv, n, i);
    }
  }

  /** A batch of aliases in a row outgrows the array exactly when there are more than 101. */
  method LongChain(n: nat) returns (t: TypeEnv, v: Verdict)
    ensures fresh(t) && t.Valid() && v == if n > USED + 1 then Overrun else Fine
  {
    t := new TypeEnv();
    ghost var h0 := t.heap;
    v := t.TransTypeDec(Aliases(n));
    AliasesStored(t.heap, t.tenv, h0, n);
    hide Stored, DeclaredLast, OldKept, OwnRecords, Closed, Cyclic, Long, FirstBad;
    ChainVerdict(t.heap, t.tenv, n, v);
  }
}
