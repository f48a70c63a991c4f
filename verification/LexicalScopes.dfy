/** When the environments of the Tiger checker are those of lexical scoping (Compiler/lab4/semant.c, transDec). */
module LexicalScopes {

  import opened TigerTable
  import opened Scopes
  import opened Wrappers

  // ---------- one group of declarations ----------

  /** Binding a group of names one after the other. */
  function Group(rule: Rule, g: seq<(Sym, Entry)>, n: nat, e: Env): Env
    requires n <= |g|
  {
    if n == 0 then e
    else
      var before := Group(rule, g, n - 1, e);
      if rule.Code? && g[n - 1].0 in before then before else before[g[n - 1].0 := g[n - 1].1]
  }

  predicate Repeats(g: seq<(Sym, Entry)>) {
    exists i: nat, j: nat :: i < j < |g| && g[i].0 == g[j].0
  }

  /** None of the names is bound around the group, and none comes twice. */
  ghost predicate NewNames(g: seq<(Sym, Entry)>, e: Env) {
    (forall i: nat | i < |g| :: g[i].0 !in e) && !Repeats(g)
  }

  /** The entries are those of new declarations: none is in the environment, none comes twice. */
  ghost predicate NewEntries(g: seq<(Sym, Entry)>, e: Env) {
    && (forall i: nat, k | i < |g| && k in e :: g[i].1 != e[k])
    && (forall i: nat, j: nat | i < j < |g| :: g[i].1 != g[j].1)
  }

  lemma {:induction false} GroupKeys(rule: Rule, g: seq<(Sym, Entry)>, n: nat, e: Env, x: Key)
    requires n <= |g|
    ensures x in Group(rule, g, n, e) <==> x in e || exists i: nat :: i < n && g[i].0 == x
  {
    if n > 0 {
      GroupKeys(rule, g, n - 1, e, x);
      GroupKeys(rule, g, n - 1, e, g[n - 1].0);
    }
  }

  lemma {:induction false} NewNamesAgree(g: seq<(Sym, Entry)>, n: nat, e: Env)
    requires n <= |g| && NewNames(g, e)
    ensures Group(Code, g, n, e) == Group(Lexical, g, n, e)
  {
    if n > 0 {
      NewNamesAgree(g, n - 1, e);
      GroupKeys(Code, g, n - 1, e, g[n - 1].0);
      if exists i: nat :: i < n - 1 && g[i].0 == g[n - 1].0 {
        assert Repeats(g);
      }
    }
  }

  /** By lexical scoping the last declaration of a name counts. */
  lemma {:induction false} LastCounts(g: seq<(Sym, Entry)>, n: nat, e: Env, i: nat) returns (j: nat)
    requires i < n <= |g|
    ensures i <= j < n && g[i].0 in Group(Lexical, g, n, e) && Group(Lexical, g, n, e)[g[i].0] == g[j].1
  {
    if g[n - 1].0 == g[i].0 {
      j := n - 1;
    } else {
      j := LastCounts(g, n - 1, e, i);
    }
  }

  /** For the checker an outer binding stays. */
  lemma {:induction false} OuterStays(g: seq<(Sym, Entry)>, n: nat, e: Env, x: Key)
    requires n <= |g| && x in e
    ensures x in Group(Code, g, n, e) && Group(Code, g, n, e)[x] == e[x]
  {
    if n > 0 {
      OuterStays(g, n - 1, e, x);
    }
  }

  /** For the checker the first declaration of a new name counts. */
  lemma {:induction false} FirstCounts(g: seq<(Sym, Entry)>, n: nat, e: Env, i: nat) returns (j: nat)
    requires i < n <= |g| && g[i].0 !in e
    ensures j <= i && g[i].0 in Group(Code, g, n, e) && Group(Code, g, n, e)[g[i].0] == g[j].1
  {
    if i < n - 1 {
      j := FirstCounts(g, n - 1, e, i);
    } else {
      GroupKeys(Code, g, n - 1, e, g[i].0);
      if g[i].0 in Group(Code, g, n - 1, e) {
        var l: nat :| l < n - 1 && g[l].0 == g[i].0;
        j := FirstCounts(g, n - 1, e, l);
      } else {
        j := i;
      }
    }
  }

  /** The two rules bind a group of new declarations alike exactly when its names are new. */
  lemma GroupExact(g: seq<(Sym, Entry)>, e: Env)
    requires NewEntries(g, e)
    ensures Group(Code, g, |g|, e) == Group(Lexical, g, |g|, e) <==> NewNames(g, e)
  {
    if NewNames(g, e) {
      NewNamesAgree(g, |g|, e);
    } else if Repeats(g) {
      var i: nat, j: nat :| i < j < |g| && g[i].0 == g[j].0;
      RepeatDiffers(g, e, i, j);
    } else {
      var i: nat :| i < |g| && g[i].0 in e;
      OuterDiffers(g, e, i);
    }
  }

  lemma OuterDiffers(g: seq<(Sym, Entry)>, e: Env, i: nat)
    requires NewEntries(g, e) && i < |g| && g[i].0 in e
    ensures Group(Code, g, |g|, e) != Group(Lexical, g, |g|, e)
  {
    var j := LastCounts(g, |g|, e, i);
    OuterStays(g, |g|, e, g[i].0);
  }

  lemma RepeatDiffers(g: seq<(Sym, Entry)>, e: Env, i: nat, j: nat)
    requires NewEntries(g, e) && i < j < |g| && g[i].0 == g[j].0
    ensures Group(Code, g, |g|, e) != Group(Lexical, g, |g|, e)
  {
    if g[i].0 in e {
      OuterDiffers(g, e, i);
    } else {
      var p := FirstCounts(g, |g|, e, i);
      var q := LastCounts(g, |g|, e, j);
      assert p < q && g[p].1 != g[q].1;
    }
  }

  // ---------- one declaration ----------

  function FunGroup(funs: seq<Fundec>): (g: seq<(Sym, Entry)>)
    ensures |g| == |funs|
  {
    seq(|funs|, i requires 0 <= i < |funs| => (funs[i].name, FunEntry(funs[i].site, |funs[i].params|)))
  }

  function TypeGroup(types: seq<NamedTy>): (g: seq<(Sym, Entry)>)
    ensures |g| == |types|
  {
    seq(|types|, i requires 0 <= i < |types| => (types[i].name, TypeEntry(types[i].site)))
  }

  lemma {:induction false} HeadersAreGroup(rule: Rule, funs: seq<Fundec>, n: nat, e: Envs)
    requires n <= |funs|
    ensures HeadersEnv(rule, funs, n, e) == e.(values := Group(rule, FunGroup(funs), n, e.values))
  {
    if n > 0 {
      HeadersAreGroup(rule, funs, n - 1, e);
    }
  }

  lemma {:induction false} TypesAreGroup(rule: Rule, types: seq<NamedTy>, n: nat, e: Envs)
    requires n <= |types|
    ensures TypesEnv(rule, types, n, e) == e.(types := Group(rule, TypeGroup(types), n, e.types))
  {
    if n > 0 {
      TypesAreGroup(rule, types, n - 1, e);
    }
  }

  /** The names a declaration binds are new where it stands, and a variable's type is defined. */
  ghost predicate CleanDec(d: Dec, e: Envs) {
    match d
    case FunctionDec(funs) => NewNames(FunGroup(funs), e.values)
    case VarDec(_, _, typ, _) => typ.None? || typ.value in e.types
    case TypeDec(types, _) => NewNames(TypeGroup(types), e.types)
  }

  /** The declaration is another one than those the environments hold. */
  ghost predicate NewDec(d: Dec, e: Envs) {
    match d
    case FunctionDec(funs) => NewEntries(FunGroup(funs), e.values)
    case VarDec(site, s, _, _) => s in e.values ==> e.values[s] != VarEntry(site)
    case TypeDec(types, _) => NewEntries(TypeGroup(types), e.types)
  }

  /** A declaration brings into scope what lexical scoping says exactly when it is clean. */
  lemma DecEnvExact(d: Dec, e: Envs)
    requires NewDec(d, e)
    ensures DecEnv(Code, d, e) == DecEnv(Lexical, d, e) <==> CleanDec(d, e)
  {
    match d
    case FunctionDec(funs) =>
      GroupExact(FunGroup(funs), e.values);
      HeadersAreGroup(Code, funs, |funs|, e);
      HeadersAreGroup(Lexical, funs, |funs|, e);
    case VarDec(site, s, _, _) =>
      assert s in WithValue(e, s, VarEntry(site)).values && WithValue(e, s, VarEntry(site)).values[s] == VarEntry(site);
    case TypeDec(types, _) =>
      GroupExact(TypeGroup(types), e.types);
      TypesAreGroup(Code, types, |types|, e);
      TypesAreGroup(Lexical, types, |types|, e);
  }

  // ---------- whole programs ----------

  ghost predicate CleanVar(x: Variable, e: Envs)
    decreases x
  {
    match x
    case Simple(_) => true
    case FieldOf(b, _) => CleanVar(b, e)
    case Subscript(b, i) => CleanVar(b, e) && Clean(i, e)
  }

  /** Every declaration the checker comes to is clean in the lexical environment of its place. */
  ghost predicate Clean(a: Exp, e: Envs)
    decreases a
  {
    match a
    case VarExp(x) => CleanVar(x, e)
    case Constant => true
    case Call(_, args) => CleanAll(args, |args|, e)
    case Op(l, r) => Clean(l, e) && Clean(r, e)
    case Record(_, fields, _) => CleanFields(fields, |fields|, e)
    case Sequence(es) => CleanAll(es, |es|, e)
    case Assign(x, r) => CleanVar(x, e) && Clean(r, e)
    case If(c, t) => Clean(c, e) && Clean(t, e)
    case IfElse(c, t, f) => Clean(c, e) && Clean(t, e) && Clean(f, e)
    case While(c, b) => Clean(c, e) && Clean(b, e)
    case For(site, s, lo, hi, b) => Clean(lo, e) && Clean(hi, e) && Clean(b, WithValue(e, s, VarEntry(site)))
    case Let(decs, b) => CleanDecs(decs, |decs|, e) && Clean(b, DecsEnv(Lexical, decs, |decs|, e))
    case Array(_, _, size, init) => Clean(size, e) && Clean(init, e)
  }

  ghost predicate CleanAll(es: seq<Exp>, n: nat, e: Envs)
    requires n <= |es|
    decreases es, n
  {
    n == 0 || (CleanAll(es, n - 1, e) && Clean(es[n - 1], e))
  }

  ghost predicate CleanFields(fs: seq<EField>, n: nat, e: Envs)
    requires n <= |fs|
    decreases fs, n
  {
    n == 0 || (CleanFields(fs, n - 1, e) && CleanField(fs[n - 1], e))
  }

  ghost predicate CleanField(f: EField, e: Envs)
    decreases f
  {
    Clean(f.exp, e)
  }

  ghost predicate CleanDecs(ds: seq<Dec>, n: nat, e: Envs)
    requires n <= |ds|
    decreases ds, n
  {
    n == 0 || (CleanDecs(ds, n - 1, e) && CleanInside(ds[n - 1], DecsEnv(Lexical, ds, n - 1, e)))
  }

  ghost predicate CleanInside(d: Dec, e: Envs)
    decreases d
  {
    && CleanDec(d, e)
    && match d
       case FunctionDec(funs) => CleanBodies(funs, |funs|, HeadersEnv(Lexical, funs, |funs|, e))
       case VarDec(_, _, _, init) => Clean(init, e)
       case TypeDec(_, _) => true
  }

  ghost predicate CleanBodies(funs: seq<Fundec>, n: nat, e: Envs)
    requires n <= |funs|
    decreases funs, n
  {
    n == 0 || (CleanBodies(funs, n - 1, e) && CleanBody(funs[n - 1], e))
  }

  ghost predicate CleanBody(f: Fundec, e: Envs)
    decreases f
  {
    Clean(f.body, ParamsEnv(f.params, |f.params|, e))
  }

  /** A clean declaration means the same by both rules. */
  lemma CleanDecEnv(d: Dec, e: Envs)
    requires CleanDec(d, e)
    ensures DecEnv(Code, d, e) == DecEnv(Lexical, d, e)
  {
    match d
    case FunctionDec(funs) =>
      NewNamesAgree(FunGroup(funs), |funs|, e.values);
      HeadersAreGroup(Code, funs, |funs|, e);
      HeadersAreGroup(Lexical, funs, |funs|, e);
    case VarDec(_, _, _, _) =>
    case TypeDec(types, _) =>
      NewNamesAgree(TypeGroup(types), |types|, e.types);
      TypesAreGroup(Code, types, |types|, e);
      TypesAreGroup(Lexical, types, |types|, e);
  }

  lemma {:induction false} CleanDecsEnv(ds: seq<Dec>, n: nat, e: Envs)
    requires n <= |ds| && CleanDecs(ds, n, e)
    ensures DecsEnv(Code, ds, n, e) == DecsEnv(Lexical, ds, n, e)
  {
    if n > 0 {
      CleanDecsEnv(ds, n - 1, e);
      CleanDecEnv(ds[n - 1], DecsEnv(Lexical, ds, n - 1, e));
    }
  }

  /** A name of the group is not bound when its header comes up. */
  lemma HeaderUnbound(rule: Rule, funs: seq<Fundec>, n: nat, e: Envs)
    requires n < |funs| && NewNames(FunGroup(funs), e.values)
    ensures funs[n].name !in HeadersEnv(rule, funs, n, e).values
  {
    var g := FunGroup(funs);
    HeadersAreGroup(rule, funs, n, e);
    GroupKeys(rule, g, n, e.values, g[n].0);
    if exists i: nat :: i < n && g[i].0 == g[n].0 {
      assert Repeats(g);
    }
  }

  lemma {:induction false} CleanHeadersLog(funs: seq<Fundec>, n: nat, e: Envs, log: seq<Use>)
    requires n <= |funs| && NewNames(FunGroup(funs), e.values)
    ensures HeadersEnv(Code, funs, n, e) == HeadersEnv(Lexical, funs, n, e)
    ensures HeadersLog(Code, funs, n, e, log) == HeadersLog(Lexical, funs, n, e, log)
  {
    hide NewNames;
    if n > 0 {
      CleanHeadersLog(funs, n - 1, e, log);
      HeaderUnbound(Code, funs, n - 1, e);
    }
  }

  lemma {:induction false} CleanTypeHeadersLog(types: seq<NamedTy>, n: nat, e: Envs, log: seq<Use>)
    requires n <= |types| && NewNames(TypeGroup(types), e.types)
    ensures TypesEnv(Code, types, n, e) == TypesEnv(Lexical, types, n, e)
    ensures TypeHeadersLog(Code, types, n, e, log) == TypeHeadersLog(Lexical, types, n, e, log)
  {
    NewNamesAgree(TypeGroup(types), n, e.types);
    TypesAreGroup(Code, types, n, e);
    TypesAreGroup(Lexical, types, n, e);
    hide NewNames;
    if n > 0 {
      CleanTypeHeadersLog(types, n - 1, e, log);
    }
  }

  lemma {:induction false} CleanVarLog(x: Variable, e: Envs, log: seq<Use>)
    requires CleanVar(x, e)
    ensures VarLog(Code, x, e, log) == VarLog(Lexical, x, e, log)
    decreases x
  {
    match x
    case Simple(_) =>
    case FieldOf(b, _) =>
      CleanVarLog(b, e, log);
    case Subscript(b, i) =>
      CleanVarLog(b, e, log);
      CleanExpLog(i, e, VarLog(Code, b, e, log));
  }

  /**
   * In a clean program every look-up the checker makes finds the binding that
   * lexical scoping gives at that place.
   */
  lemma {:induction false} CleanExpLog(a: Exp, e: Envs, log: seq<Use>)
    requires Clean(a, e)
    ensures ExpLog(Code, a, e, log) == ExpLog(Lexical, a, e, log)
    decreases a, 1
  {
    match a
    case VarExp(x) =>
      CleanVarLog(x, e, log);
    case Constant =>
    case Call(f, args) =>
      var x := Get(e.values, f);
      var n := if x.Some? && x.value.FunEntry? then Least(x.value.formals, |args|) else 0;
      CleanFirst(args, n, |args|, e);
      CleanAllLog(args, n, e, log + [Value(e, f)]);
    case Op(l, r) =>
      CleanExpLog(l, e, log);
      CleanExpLog(r, e, ExpLog(Code, l, e, log));
    case Record(typ, fields, actual) =>
      var names := if Get(e.types, typ).Some? && actual.Some? then actual.value else [];
      CleanFirstFields(fields, Least(|names|, |fields|), |fields|, e);
      CleanFieldsLog(fields, names, Least(|names|, |fields|), e, log + [Type(e, typ)]);
    case Sequence(es) =>
      CleanAllLog(es, |es|, e, log);
    case Assign(x, r) =>
      var log1 := if x.Simple? then log + [Value(e, x.sym)] else log;
      CleanVarLog(x, e, log1);
      CleanExpLog(r, e, VarLog(Code, x, e, log1));
    case If(_, _) =>
      CleanBranches(a, e, log);
    case IfElse(_, _, _) =>
      CleanBranches(a, e, log);
    case While(_, _) =>
      CleanBranches(a, e, log);
    case For(site, s, lo, hi, b) =>
      CleanExpLog(lo, e, log);
      CleanExpLog(hi, e, ExpLog(Code, lo, e, log));
      CleanExpLog(b, WithValue(e, s, VarEntry(site)), ExpLog(Code, hi, e, ExpLog(Code, lo, e, log)));
    case Let(decs, b) =>
      CleanDecsLog(decs, |decs|, e, log);
      CleanDecsEnv(decs, |decs|, e);
      CleanExpLog(b, DecsEnv(Lexical, decs, |decs|, e), DecsLog(Code, decs, |decs|, e, log));
    case Array(typ, _, size, init) =>
      var log1 := log + [Type(e, typ)];
      CleanExpLog(size, e, log1);
      CleanExpLog(init, e, ExpLog(Code, size, e, log1));
  }

  lemma {:induction false} CleanBranches(a: Exp, e: Envs, log: seq<Use>)
    requires Clean(a, e) && (a.If? || a.IfElse? || a.While?)
    ensures ExpLog(Code, a, e, log) == ExpLog(Lexical, a, e, log)
    decreases a, 0
  {
    CleanExpLog(a.test, e, log);
    var log1 := ExpLog(Code, a.test, e, log);
    if a.While? {
      CleanExpLog(a.body, e, log1);
    } else {
      CleanExpLog(a.thn, e, log1);
      if a.IfElse? {
        CleanExpLog(a.els, e, ExpLog(Code, a.thn, e, log1));
      }
    }
  }

  lemma {:induction false} CleanFirst(es: seq<Exp>, n: nat, m: nat, e: Envs)
    requires n <= m <= |es| && CleanAll(es, m, e)
    ensures CleanAll(es, n, e)
  {
    if n < m {
      CleanFirst(es, n, m - 1, e);
    }
  }

  lemma {:induction false} CleanFirstFields(fs: seq<EField>, n: nat, m: nat, e: Envs)
    requires n <= m <= |fs| && CleanFields(fs, m, e)
    ensures CleanFields(fs, n, e)
  {
    if n < m {
      CleanFirstFields(fs, n, m - 1, e);
    }
  }

  lemma {:induction false} CleanAllLog(es: seq<Exp>, n: nat, e: Envs, log: seq<Use>)
    requires n <= |es| && CleanAll(es, n, e)
    ensures ExpsLog(Code, es, n, e, log) == ExpsLog(Lexical, es, n, e, log)
    decreases es, n
  {
    if n > 0 {
      CleanAllLog(es, n - 1, e, log);
      CleanExpLog(es[n - 1], e, ExpsLog(Code, es, n - 1, e, log));
    }
  }

  lemma {:induction false} CleanFieldsLog(fs: seq<EField>, names: seq<Sym>, n: nat, e: Envs, log: seq<Use>)
    requires n <= |fs| && n <= |names| && CleanFields(fs, n, e)
    ensures FieldsLog(Code, fs, names, n, e, log) == FieldsLog(Lexical, fs, names, n, e, log)
    decreases fs, n
  {
    if n > 0 {
      CleanFieldsLog(fs, names, n - 1, e, log);
      CleanFieldLog(fs[n - 1], names[n - 1], e, FieldsLog(Code, fs, names, n - 1, e, log));
    }
  }

  lemma {:induction false} CleanFieldLog(f: EField, name: Sym, e: Envs, log: seq<Use>)
    requires CleanField(f, e)
    ensures FieldLog(Code, f, name, e, log) == FieldLog(Lexical, f, name, e, log)
    decreases f
  {
    CleanExpLog(f.exp, e, log);
  }

  lemma {:induction false} CleanDecsLog(ds: seq<Dec>, n: nat, e: Envs, log: seq<Use>)
    requires n <= |ds| && CleanDecs(ds, n, e)
    ensures DecsLog(Code, ds, n, e, log) == DecsLog(Lexical, ds, n, e, log)
    decreases ds, n
  {
    if n > 0 {
      CleanDecsLog(ds, n - 1, e, log);
      CleanDecsEnv(ds, n - 1, e);
      CleanDecLog(ds[n - 1], DecsEnv(Lexical, ds, n - 1, e), DecsLog(Code, ds, n - 1, e, log));
    }
  }

  lemma {:induction false} CleanDecLog(d: Dec, e: Envs, log: seq<Use>)
    requires CleanInside(d, e)
    ensures DecLog(Code, d, e, log) == DecLog(Lexical, d, e, log)
    decreases d
  {
    match d
    case FunctionDec(funs) =>
      CleanHeadersLog(funs, |funs|, e, log);
      CleanBodiesLog(funs, |funs|, HeadersEnv(Lexical, funs, |funs|, e), HeadersLog(Code, funs, |funs|, e, log));
    case VarDec(_, _, _, init) =>
      CleanExpLog(init, e, log);
    case TypeDec(types, _) =>
      CleanTypeHeadersLog(types, |types|, e, log);
  }

  lemma {:induction false} CleanBodiesLog(funs: seq<Fundec>, n: nat, e: Envs, log: seq<Use>)
    requires n <= |funs| && CleanBodies(funs, n, e)
    ensures BodiesLog(Code, funs, n, e, log) == BodiesLog(Lexical, funs, n, e, log)
    decreases funs, n
  {
    if n > 0 {
      CleanBodiesLog(funs, n - 1, e, log);
      var f := funs[n - 1];
      CleanBodyLog(f, e, FieldTypesLog(f.params, |f.params|, e, BodiesLog(Code, funs, n - 1, e, log)));
    }
  }

  lemma {:induction false} CleanBodyLog(f: Fundec, e: Envs, log: seq<Use>)
    requires CleanBody(f, e)
    ensures var inner := ParamsEnv(f.params, |f.params|, e);
      ExpLog(Code, f.body, inner, log) == ExpLog(Lexical, f.body, inner, log)
    decreases f
  {
    CleanExpLog(f.body, ParamsEnv(f.params, |f.params|, e), log);
  }

  /** A predefined function: symbol and number of parameters. */
  datatype Predefined = Predefined(sym: Sym, formals: nat)

  /** The base environments; predefined names count as declared at site 0. */
  function BaseEnvs(types: seq<Sym>, n: nat, funs: seq<Predefined>, m: nat): Envs
    requires n <= |types| && m <= |funs|
  {
    if m > 0 then WithValue(BaseEnvs(types, n, funs, m - 1), funs[m - 1].sym, FunEntry(0, funs[m - 1].formals))
    else if n > 0 then
      var e := BaseEnvs(types, n - 1, funs, 0);
      e.(types := e.types[types[n - 1] := TypeEntry(0)])
    else Envs(map[], map[])
  }

  /** The predefined names are bound, all at site 0, and no others. */
  lemma {:induction false} BaseFinds(types: seq<Sym>, n: nat, funs: seq<Predefined>, m: nat, k: Key)
    requires n <= |types| && m <= |funs|
    ensures var e := BaseEnvs(types, n, funs, m);
      && (k in e.types <==> exists i: nat :: i < n && types[i] == k)
      && (k in e.values <==> exists i: nat :: i < m && funs[i].sym == k)
      && (k in e.types ==> e.types[k] == TypeEntry(0))
      && (k in e.values ==> exists i: nat :: i < m && funs[i].sym == k && e.values[k] == FunEntry(0, funs[i].formals))
  {
    if m > 0 {
      BaseFinds(types, n, funs, m - 1, k);
      var e := BaseEnvs(types, n, funs, m);
      assert funs[m - 1].sym == k ==> e.values[k] == FunEntry(0, funs[m - 1].formals);
    } else if n > 0 {
      BaseFinds(types, n - 1, funs, 0, k);
      assert types[n - 1] == k ==> k in BaseEnvs(types, n, funs, 0).types;
    }
  }

  /** SEM_transProg: checking a program in the base environments; a clean program is looked up by lexical scoping. */
  method TransProg(types: seq<Sym>, funs: seq<Predefined>, a: Exp) returns (c: Checker)
    ensures c.Valid() && fresh(c)
    ensures EnvsOf(c.Now()) == BaseEnvs(types, |types|, funs, |funs|)
    ensures c.log == ExpLog(Code, a, BaseEnvs(types, |types|, funs, |funs|), [])
    ensures Clean(a, BaseEnvs(types, |types|, funs, |funs|)) ==>
              c.log == ExpLog(Lexical, a, BaseEnvs(types, |types|, funs, |funs|), [])
  {
    c := new Checker();
    hide EnvsOf, GrownScope, Clean;
    NoScope();
    for i := 0 to |types|
      invariant c.Valid() && fresh(c.venv) && fresh(c.venv.table) && fresh(c.tenv) && fresh(c.tenv.table)
      invariant c.log == [] && EnvsOf(c.Now()) == BaseEnvs(types, i, funs, 0)
    {
      c.EnterType(types[i], TypeEntry(0));
    }
    for i := 0 to |funs|
      invariant c.Valid() && fresh(c.venv) && fresh(c.venv.table) && fresh(c.tenv) && fresh(c.tenv.table)
      invariant c.log == [] && EnvsOf(c.Now()) == BaseEnvs(types, |types|, funs, i)
    {
      c.EnterValue(funs[i].sym, FunEntry(0, funs[i].formals));
    }
    c.TransExp(a);
    if Clean(a, BaseEnvs(types, |types|, funs, |funs|)) {
      CleanExpLog(a, BaseEnvs(types, |types|, funs, |funs|), []);
    }
  }

  lemma NoScope()
    ensures EnvsOf(Scope([], [])) == Envs(map[], map[])
  {
  }

  // ---------- a program that is not clean ----------

  const G: Sym := 2

  /** let function g() = 0 in let function g() = 0 in g() end end; the inner g is declaration 1. */
  const NESTED: Exp :=
    Let([FunctionDec([Fundec(0, G, [], None, Constant)])],
        Let([FunctionDec([Fundec(1, G, [], None, Constant)])], Call(G, [])))

  /** The call of g finds the outer function, where lexical scoping gives the inner one. */
  lemma NestedFunction(e: Envs)
    requires G !in e.values
    ensures var log := ExpLog(Code, NESTED, e, []);
      log != [] && log[|log| - 1] == ValueUse(G, Some(FunEntry(0, 0)))
    ensures var log := ExpLog(Lexical, NESTED, e, []);
      log != [] && log[|log| - 1] == ValueUse(G, Some(FunEntry(1, 0)))
  {
    NestedCall(Code, e);
    NestedCall(Lexical, e);
    InnerHeader(Fundec(1, G, [], None, Constant), WithValue(e, G, FunEntry(0, 0)));
  }

  lemma InnerHeader(f: Fundec, e: Envs)
    requires f.name in e.values
    ensures DecEnv(Code, FunctionDec([f]), e) == e
    ensures DecEnv(Lexical, FunctionDec([f]), e) == WithValue(e, f.name, FunEntry(f.site, |f.params|))
  {
    assert HeadersEnv(Code, [f], 0, e) == e && HeadersEnv(Lexical, [f], 0, e) == e;
  }

  lemma NestedCall(rule: Rule, e: Envs)
    requires G !in e.values
    ensures var log := ExpLog(rule, NESTED, e, []); var outer := WithValue(e, G, FunEntry(0, 0));
      log != [] && log[|log| - 1] == Value(DecEnv(rule, FunctionDec([Fundec(1, G, [], None, Constant)]), outer), G)
  {
    var d0, d1 := FunctionDec([Fundec(0, G, [], None, Constant)]), FunctionDec([Fundec(1, G, [], None, Constant)]);
    var outer := WithValue(e, G, FunEntry(0, 0));
    assert DecEnv(rule, d0, e) == outer by {
      OneHeader(rule, Fundec(0, G, [], None, Constant), e);
    }
    OneDec(rule, d0, e, []);
    var log0 := DecLog(rule, d0, e, []);
    assert ExpLog(rule, NESTED, e, []) == ExpLog(rule, Let([d1], Call(G, [])), outer, log0);
    OneDec(rule, d1, outer, log0);
    var inner, log1 := DecEnv(rule, d1, outer), DecLog(rule, d1, outer, log0);
    assert ExpLog(rule, Let([d1], Call(G, [])), outer, log0) == ExpLog(rule, Call(G, []), inner, log1);
    assert ExpLog(rule, Call(G, []), inner, log1) == log1 + [Value(inner, G)];
  }

  lemma OneDec(rule: Rule, d: Dec, e: Envs, log: seq<Use>)
    ensures DecsEnv(rule, [d], 1, e) == DecEnv(rule, d, e) && DecsLog(rule, [d], 1, e, log) == DecLog(rule, d, e, log)
  {
    assert DecsEnv(rule, [d], 0, e) == e && DecsLog(rule, [d], 0, e, log) == log;
  }

  lemma OneHeader(rule: Rule, f: Fundec, e: Envs)
    requires f.name !in e.values
    ensures DecEnv(rule, FunctionDec([f]), e) == WithValue(e, f.name, FunEntry(f.site, |f.params|))
  {
    assert HeadersEnv(rule, [f], 0, e) == e;
  }

  // ---------- what a use finds ----------

  function Use1(s: Sym): Exp {
    VarExp(Simple(s))
  }

  /** A name by itself is looked up once. */
  lemma UseLog(rule: Rule, k: Sym, e: Envs, log: seq<Use>)
    ensures ExpLog(rule, Use1(k), e, log) == log + [ValueUse(k, Get(e.values, k))]
  {
    assert VarLog(rule, Simple(k), e, log) == log + [Value(e, k)];
  }

  /** What is looked up for each kind of expression, in order; the parts are names. */
  lemma VisitsParts(rule: Rule, e: Envs, log: seq<Use>, x: Sym, y: Sym, z: Sym)
    ensures ExpLog(rule, Op(Use1(x), Use1(y)), e, log) == log + [Value(e, x), Value(e, y)]
    ensures ExpLog(rule, If(Use1(x), Use1(y)), e, log) == log + [Value(e, x), Value(e, y)]
    ensures ExpLog(rule, IfElse(Use1(x), Use1(y), Use1(z)), e, log)
         == log + [Value(e, x), Value(e, y), Value(e, z)]
    ensures ExpLog(rule, While(Use1(x), Use1(y)), e, log) == log + [Value(e, x), Value(e, y)]
    ensures ExpLog(rule, Assign(Simple(x), Use1(y)), e, log) == log + [Value(e, x), Value(e, x), Value(e, y)]
    ensures ExpLog(rule, VarExp(FieldOf(Simple(x), y)), e, log) == log + [Value(e, x)]
    ensures ExpLog(rule, VarExp(Subscript(Simple(x), Use1(y))), e, log) == log + [Value(e, x), Value(e, y)]
    ensures ExpLog(rule, Array(x, true, Use1(y), Use1(z)), e, log)
         == log + if x in e.types then [Type(e, x), Value(e, y), Value(e, z)] else [Type(e, x)]
    ensures ExpLog(rule, Array(x, false, Use1(y), Use1(z)), e, log) == log + [Type(e, x)]
  {
    forall k, log': seq<Use>
      ensures ExpLog(rule, Use1(k), e, log') == log' + [ValueUse(k, Get(e.values, k))]
    {
      UseLog(rule, k, e, log');
    }
    hide Use1;
    assert VarLog(rule, Simple(x), e, log) == log + [Value(e, x)];
    assert VarLog(rule, Simple(x), e, log + [Value(e, x)]) == log + [Value(e, x)] + [Value(e, x)];
  }

  /** A loop looks up its bounds around it and its body inside. */
  lemma VisitsLoop(rule: Rule, e: Envs, log: seq<Use>, site: nat, s: Sym, x: Sym, y: Sym, z: Sym)
    ensures ExpLog(rule, For(site, s, Use1(x), Use1(y), Use1(z)), e, log)
         == log + [Value(e, x), Value(e, y), Value(WithValue(e, s, VarEntry(site)), z)]
  {
    UseLog(rule, x, e, log);
    UseLog(rule, y, e, log + [Value(e, x)]);
    UseLog(rule, z, WithValue(e, s, VarEntry(site)), log + [Value(e, x)] + [Value(e, y)]);
  }

  /** A sequence looks up its parts in order, a call those that a formal parameter is paired with. */
  lemma VisitsList(rule: Rule, e: Envs, log: seq<Use>, f: Sym, x: Sym, y: Sym)
    ensures ExpLog(rule, Sequence([Use1(x), Use1(y)]), e, log) == log + [Value(e, x), Value(e, y)]
    ensures ExpLog(rule, Call(f, [Use1(x), Use1(y)]), e, log) ==
            log + [Value(e, f)] +
            if f in e.values && e.values[f].FunEntry?
            then [Value(e, x), Value(e, y)][..Least(e.values[f].formals, 2)] else []
  {
    TwoUses(rule, e, log, x, y);
    TwoUses(rule, e, log + [Value(e, f)], x, y);
    hide Use1;
  }

  lemma TwoUses(rule: Rule, e: Envs, log: seq<Use>, x: Sym, y: Sym)
    ensures forall n: nat | n <= 2 ::
              ExpsLog(rule, [Use1(x), Use1(y)], n, e, log) == log + [Value(e, x), Value(e, y)][..n]
  {
    var es := [Use1(x), Use1(y)];
    UseLog(rule, x, e, log);
    UseLog(rule, y, e, log + [Value(e, x)]);
    hide Use1;
    assert ExpsLog(rule, es, 0, e, log) == log;
    assert ExpsLog(rule, es, 1, e, log) == log + [Value(e, x)];
    assert ExpsLog(rule, es, 2, e, log) == log + [Value(e, x)] + [Value(e, y)];
    assert [Value(e, x), Value(e, y)][..1] == [Value(e, x)];
  }

  /** A record looks up its fields that come under the right name. */
  lemma VisitsField(rule: Rule, e: Envs, log: seq<Use>, t: Sym, n: Sym, m: Sym, x: Sym)
    ensures ExpLog(rule, Record(t, [EField(n, Use1(x))], Some([m])), e, log)
         == log + [Type(e, t)] + if t in e.types && n == m then [Value(e, x)] else []
    ensures ExpLog(rule, Record(t, [EField(n, Use1(x))], None), e, log) == log + [Type(e, t)]
  {
    var fields := [EField(n, Use1(x))];
    UseLog(rule, x, e, log + [Type(e, t)]);
    hide Use1;
    assert FieldsLog(rule, fields, [m], 0, e, log + [Type(e, t)]) == log + [Type(e, t)];
    assert FieldsLog(rule, fields, [], 0, e, log + [Type(e, t)]) == log + [Type(e, t)];
    assert FieldsLog(rule, fields, [m], 1, e, log + [Type(e, t)])
        == FieldLog(rule, fields[0], m, e, log + [Type(e, t)]);
  }

  /** A function of a new name: its header is looked up around it, its body behind its name and parameter. */
  lemma VisitsFunction(rule: Rule, e: Envs, log: seq<Use>, f: Fundec, x: Sym)
    requires f.name !in e.values && |f.params| == 1 && f.result.Some? && f.body == Use1(x)
    ensures var p, inside := f.params[0], WithValue(e, f.name, FunEntry(f.site, 1));
      var inner := WithValue(inside, p.name, VarEntry(p.site));
      DecLog(rule, FunctionDec([f]), e, log)
      == log + [Value(e, f.name), Type(e, f.result.value), Type(e, p.typ), Type(inside, p.typ),
                Value(inner, x), Value(inner, f.name)]
  {
    var p, inside := f.params[0], WithValue(e, f.name, FunEntry(f.site, 1));
    var inner := WithValue(inside, p.name, VarEntry(p.site));
    OneHeader(rule, f, e);
    assert ParamsEnv(f.params, 1, inside) == inner by {
      assert ParamsEnv(f.params, 0, inside) == inside;
    }
    var log1 := HeadersLog(rule, [f], 1, e, log);
    OneHeaderLog(rule, f, e, log);
    assert FieldTypesLog(f.params, 1, inside, log1) == log1 + [Type(inside, p.typ)] by {
      assert FieldTypesLog(f.params, 0, inside, log1) == log1;
    }
    UseLog(rule, x, inner, log1 + [Type(inside, p.typ)]);
    assert BodiesLog(rule, [f], 0, inside, log1) == log1;
  }

  lemma OneHeaderLog(rule: Rule, f: Fundec, e: Envs, log: seq<Use>)
    requires f.name !in e.values && |f.params| == 1 && f.result.Some?
    ensures HeadersLog(rule, [f], 1, e, log)
         == log + [Value(e, f.name), Type(e, f.result.value), Type(e, f.params[0].typ)]
  {
    assert HeadersEnv(rule, [f], 0, e) == e && HeadersLog(rule, [f], 0, e, log) == log;
    var log2 := log + [Value(e, f.name)] + [Type(e, f.result.value)];
    assert FieldTypesLog(f.params, 0, e, log2) == log2;
  }

  /** A type of a new name: the headers are looked up around the batch, the rest in it; an array's element twice. */
  lemma VisitsType(rule: Rule, e: Envs, log: seq<Use>, site: nat, t: Sym, u: Sym)
    requires t !in e.types
    ensures var inside := e.(types := e.types[t := TypeEntry(site)]);
      var log1 := log + [Type(e, t), Type(inside, t), Type(inside, u)];
      && DecLog(rule, TypeDec([NamedTy(site, t, NameTy(u))], 1), e, log) == log1 + [Type(inside, t)]
      && DecLog(rule, TypeDec([NamedTy(site, t, NameTy(u))], 0), e, log) == log1
      && DecLog(rule, TypeDec([NamedTy(site, t, ArrayTy(u))], 0), e, log)
         == log1 + if u in inside.types then [Type(inside, u)] else []
  {
    var inside := e.(types := e.types[t := TypeEntry(site)]);
    OneType(rule, NamedTy(site, t, NameTy(u)), e, log);
    OneType(rule, NamedTy(site, t, ArrayTy(u)), e, log);
    var log1 := TyLog(NameTy(u), inside, log + [Type(e, t), Type(inside, t)]);
    assert NamesLog([NamedTy(site, t, NameTy(u))], 0, inside, log1) == log1;
  }

  lemma OneType(rule: Rule, n: NamedTy, e: Envs, log: seq<Use>)
    requires n.name !in e.types
    ensures var inside := e.(types := e.types[n.name := TypeEntry(n.site)]);
      && TypesEnv(rule, [n], 1, e) == inside
      && TyBodiesLog([n], 1, inside, TypeHeadersLog(rule, [n], 1, e, log))
         == TyLog(n.ty, inside, log + [Type(e, n.name), Type(inside, n.name)])
  {
    var inside := e.(types := e.types[n.name := TypeEntry(n.site)]);
    assert TypesEnv(rule, [n], 0, e) == e && TypeHeadersLog(rule, [n], 0, e, log) == log;
    var log1 := TypeHeadersLog(rule, [n], 1, e, log);
    assert TyBodiesLog([n], 0, inside, log1) == log1;
    assert log1 + [Type(inside, n.name)] == log + [Type(e, n.name), Type(inside, n.name)];
  }

  const F: Sym := 3
  const INT: Sym := 4

  /** let var g = 0 function f(g: int) = g in 0 end; the parameter is declaration 2. */
  const PARAMETER: Exp :=
    Let([VarDec(0, G, None, Constant), FunctionDec([Fundec(1, F, [Field(2, G, INT)], None, Use1(G))])], Constant)

  /** The use of g in the body finds the parameter, not the variable around it. */
  lemma ParameterFound(rule: Rule, e: Envs)
    requires F !in e.values
    ensures var log := ExpLog(rule, PARAMETER, e, []);
      |log| >= 2 && log[|log| - 2] == ValueUse(G, Some(VarEntry(2)))
  {
    var fun := Fundec(1, F, [Field(2, G, INT)], None, Use1(G));
    var d0, d1 := VarDec(0, G, None, Constant), FunctionDec([fun]);
    var e1 := WithValue(e, G, VarEntry(0));
    OneDec(rule, d0, e, []);
    assert DecEnv(rule, d0, e) == e1;
    TwoDecs(rule, d0, d1, e, []);
    OneHeader(rule, fun, e1);
    BodyUse(rule, fun, DecEnv(rule, d1, e1), HeadersLog(rule, [fun], 1, e1, DecLog(rule, d0, e, [])), 0);
  }

  lemma TwoDecs(rule: Rule, d: Dec, d': Dec, e: Envs, log: seq<Use>)
    ensures DecsLog(rule, [d, d'], 2, e, log) == DecLog(rule, d', DecEnv(rule, d, e), DecLog(rule, d, e, log))
  {
    assert DecsEnv(rule, [d, d'], 1, e) == DecEnv(rule, d, e) by {
      assert DecsEnv(rule, [d, d'], 0, e) == e;
    }
    assert DecsLog(rule, [d, d'], 1, e, log) == DecLog(rule, d, e, log) by {
      assert DecsLog(rule, [d, d'], 0, e, log) == log;
    }
  }

  /** In every function whose body is the last parameter of a name, that parameter is found. */
  lemma BodyUse(rule: Rule, f: Fundec, e: Envs, log: seq<Use>, k: nat)
    requires k < |f.params| && LastNamed(f.params, k) && f.body == Use1(f.params[k].name)
    ensures var log' := BodiesLog(rule, [f], 1, e, log);
      |log'| >= 2 && log'[|log'| - 2] == ValueUse(f.params[k].name, Some(VarEntry(f.params[k].site)))
  {
    var inner := ParamsEnv(f.params, |f.params|, e);
    ParamsBind(f.params, e);
    hide ParamsEnv;
    assert BodiesLog(rule, [f], 0, e, log) == log;
    UseLog(rule, f.params[k].name, inner, FieldTypesLog(f.params, |f.params|, e, log));
  }

  /** The loop variable is found in the body, whatever its name stands for around the loop. */
  lemma LoopVariableFound(rule: Rule, site: nat, s: Sym, k: Sym, lo: Exp, hi: Exp, e: Envs, log: seq<Use>)
    ensures var log' := ExpLog(rule, For(site, s, lo, hi, Use1(k)), e, log);
      log' != [] && log'[|log'| - 1] == ValueUse(k, if k == s then Some(VarEntry(site)) else Get(e.values, k))
  {
    UseLog(rule, k, WithValue(e, s, VarEntry(site)), ExpLog(rule, hi, e, ExpLog(rule, lo, e, log)));
  }

  /** The declaration declares `k` as a variable or function. */
  predicate Declares(d: Dec, k: Sym) {
    match d
    case FunctionDec(funs) => exists i: nat :: i < |funs| && funs[i].name == k
    case VarDec(_, s, _, _) => s == k
    case TypeDec(_, _) => false
  }

  lemma NotDeclared(rule: Rule, d: Dec, e: Envs, k: Sym)
    requires !Declares(d, k)
    ensures Get(DecEnv(rule, d, e).values, k) == Get(e.values, k)
  {
    match d
    case FunctionDec(funs) =>
      HeadersAreGroup(rule, funs, |funs|, e);
      GroupOthers(rule, FunGroup(funs), |funs|, e.values, k);
    case VarDec(_, _, _, _) =>
    case TypeDec(types, _) =>
      TypesAreGroup(rule, types, |types|, e);
  }

  lemma {:induction false} GroupOthers(rule: Rule, g: seq<(Sym, Entry)>, n: nat, e: Env, k: Sym)
    requires n <= |g| && forall i: nat | i < n :: g[i].0 != k
    ensures Get(Group(rule, g, n, e), k) == Get(e, k)
  {
    if n > 0 {
      GroupOthers(rule, g, n - 1, e, k);
    }
  }

  /** What a name stands for after some declarations that do not declare it. */
  lemma {:induction false} SameAfter(rule: Rule, ds: seq<Dec>, m: nat, n: nat, e: Envs, k: Sym)
    requires m <= n <= |ds| && forall j: nat | m <= j < n :: !Declares(ds[j], k)
    ensures Get(DecsEnv(rule, ds, n, e).values, k) == Get(DecsEnv(rule, ds, m, e).values, k)
  {
    if m < n {
      SameAfter(rule, ds, m, n - 1, e, k);
      NotDeclared(rule, ds[n - 1], DecsEnv(rule, ds, n - 1, e), k);
    }
  }

  /**
   * In the body of a let a name finds the last variable declared with it, when
   * no function of that name follows and its type is defined; a name the let
   * does not declare finds what it stands for around it.
   */
  lemma LetVariableFound(rule: Rule, ds: seq<Dec>, k: Sym, e: Envs, log: seq<Use>)
    ensures var log' := ExpLog(rule, Let(ds, Use1(k)), e, log);
      log' != [] && log'[|log'| - 1].ValueUse? && log'[|log'| - 1].sym == k
    ensures var found := LastFound(ExpLog(rule, Let(ds, Use1(k)), e, log));
      && ((forall j: nat | j < |ds| :: !Declares(ds[j], k)) ==> found == Get(e.values, k))
      && forall i: nat | i < |ds| && ds[i].VarDec? && ds[i].sym == k && ds[i].typ.None?
                         && (forall j: nat | i < j < |ds| :: !Declares(ds[j], k)) ::
           found == Some(VarEntry(ds[i].site))
  {
    var found := LastFound(ExpLog(rule, Let(ds, Use1(k)), e, log));
    UseLog(rule, k, DecsEnv(rule, ds, |ds|, e), DecsLog(rule, ds, |ds|, e, log));
    if forall j: nat | j < |ds| :: !Declares(ds[j], k) {
      SameAfter(rule, ds, 0, |ds|, e, k);
    }
    forall i: nat | i < |ds| && ds[i].VarDec? && ds[i].sym == k && ds[i].typ.None?
                    && (forall j: nat | i < j < |ds| :: !Declares(ds[j], k))
      ensures found == Some(VarEntry(ds[i].site))
    {
      SameAfter(rule, ds, i + 1, |ds|, e, k);
      assert DecsEnv(rule, ds, i + 1, e) == DecEnv(rule, ds[i], DecsEnv(rule, ds, i, e));
    }
  }

  /** What the last look-up found. */
  function LastFound(log: seq<Use>): Option<Entry> {
    if log == [] then None else log[|log| - 1].found
  }

  /** let var x: t = 0 in 0 end, with t undefined. */
  const UNSEEN: Exp := Let([VarDec(0, G, Some(3), Constant)], Constant)

  /** The other way round does not hold: a declaration that is not clean and never used leaves no trace. */
  lemma UncleanUnseen(e: Envs)
    requires 3 !in e.types
    ensures !Clean(UNSEEN, e) && ExpLog(Code, UNSEEN, e, []) == ExpLog(Lexical, UNSEEN, e, [])
  {
    var d := VarDec(0, G, Some(3), Constant);
    OneDec(Code, d, e, []);
    OneDec(Lexical, d, e, []);
    assert DecsEnv(Lexical, [d], 0, e) == e;
    assert !CleanInside(d, e);
    assert !CleanDecs([d], 1, e);
  }
}
