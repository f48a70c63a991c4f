/**
 * Scope discipline of the Tiger type checker (Compiler/lab4/semant.c, transVar, transExp, transDec).
 *
 * Types are left out but for what decides which parts are visited: each node
 * whose visit depends on a type carries what actual_ty finds there, as an
 * unknown. A node is visited at most once, so this covers every run.
 */
module Scopes {

  import opened TigerTable
  import opened Wrappers

  /** A symbol's address, different from NULL and from the mark. */
  type Sym = s: Key | s != MARK witness 2

  // ---------- abstract syntax ----------

  datatype Variable = Simple(sym: Sym) | FieldOf(base: Variable, field: Sym) | Subscript(base: Variable, index: Exp)

  /** `actual` is what actual_ty reaches: the field names of a record type, or something else. */
  datatype Exp =
    | VarExp(variable: Variable)
    | Constant
    | Call(func: Sym, args: seq<Exp>)
    | Op(left: Exp, right: Exp)
    | Record(typ: Sym, fields: seq<EField>, actual: Option<seq<Sym>>)
    | Sequence(exps: seq<Exp>)
    | Assign(variable: Variable, exp: Exp)
    | If(test: Exp, thn: Exp)
    | IfElse(test: Exp, thn: Exp, els: Exp)
    | While(test: Exp, body: Exp)
    | For(site: nat, sym: Sym, lo: Exp, hi: Exp, body: Exp)
    | Let(decs: seq<Dec>, body: Exp)
    | Array(typ: Sym, isArray: bool, size: Exp, init: Exp)

  datatype EField = EField(name: Sym, exp: Exp)

  datatype Field = Field(site: nat, name: Sym, typ: Sym)

  /** `checked` is how many names the cycle check gets through. */
  datatype Dec =
    | FunctionDec(funs: seq<Fundec>)
    | VarDec(site: nat, sym: Sym, typ: Option<Sym>, init: Exp)
    | TypeDec(types: seq<NamedTy>, checked: nat)

  datatype Fundec = Fundec(site: nat, name: Sym, params: seq<Field>, result: Option<Sym>, body: Exp)

  datatype NamedTy = NamedTy(site: nat, name: Sym, ty: Ty)

  datatype Ty = NameTy(sym: Sym) | RecordTy(fields: seq<Field>) | ArrayTy(sym: Sym)

  // ---------- environments and look-ups ----------

  /** What a name stands for; `site` is its declaration. */
  datatype Entry = VarEntry(site: nat) | FunEntry(site: nat, formals: nat) | TypeEntry(site: nat)

  type Env = map<Key, Entry>

  /**
   * Code is what the checker does: a function or type whose name is bound
   * already, anywhere around, is skipped, and so is a variable of an undefined
   * type. Lexical is lexical scoping: every declaration binds its name.
   */
  datatype Rule = Code | Lexical

  datatype Envs = Envs(values: Env, types: Env)

  /** A look-up made by the checker and what it found. */
  datatype Use = ValueUse(sym: Sym, found: Option<Entry>) | TypeUse(sym: Sym, found: Option<Entry>)

  function Get(e: Env, s: Sym): Option<Entry> {
    if s in e then Some(e[s]) else None
  }

  function Value(e: Envs, s: Sym): Use {
    ValueUse(s, Get(e.values, s))
  }

  function Type(e: Envs, s: Sym): Use {
    TypeUse(s, Get(e.types, s))
  }

  function WithValue(e: Envs, s: Sym, x: Entry): Envs {
    e.(values := e.values[s := x])
  }

  function Least(a: nat, b: nat): nat {
    if a <= b then a else b
  }

  /** The look-ups of a variable, added to `log`. */
  function VarLog(rule: Rule, x: Variable, e: Envs, log: seq<Use>): seq<Use>
    decreases x
  {
    match x
    case Simple(s) => log + [Value(e, s)]
    case FieldOf(b, _) => VarLog(rule, b, e, log)
    case Subscript(b, i) => ExpLog(rule, i, e, VarLog(rule, b, e, log))
  }

  /** The look-ups of an expression, in order, each against the environment its place in the program has. */
  function ExpLog(rule: Rule, a: Exp, e: Envs, log: seq<Use>): seq<Use>
    decreases a
  {
    match a
    case VarExp(x) => VarLog(rule, x, e, log)
    case Constant => log
    case Call(f, args) =>
      var x := Get(e.values, f);
      var n := if x.Some? && x.value.FunEntry? then Least(x.value.formals, |args|) else 0;
      ExpsLog(rule, args, n, e, log + [Value(e, f)])
    case Op(l, r) => ExpLog(rule, r, e, ExpLog(rule, l, e, log))
    case Record(typ, fields, actual) =>
      var names := if Get(e.types, typ).Some? && actual.Some? then actual.value else [];
      FieldsLog(rule, fields, names, Least(|names|, |fields|), e, log + [Type(e, typ)])
    case Sequence(es) => ExpsLog(rule, es, |es|, e, log)
    case Assign(x, r) => ExpLog(rule, r, e, VarLog(rule, x, e, if x.Simple? then log + [Value(e, x.sym)] else log))
    case If(c, t) => ExpLog(rule, t, e, ExpLog(rule, c, e, log))
    case IfElse(c, t, f) => ExpLog(rule, f, e, ExpLog(rule, t, e, ExpLog(rule, c, e, log)))
    case While(c, b) => ExpLog(rule, b, e, ExpLog(rule, c, e, log))
    case For(site, s, lo, hi, b) =>
      ExpLog(rule, b, WithValue(e, s, VarEntry(site)), ExpLog(rule, hi, e, ExpLog(rule, lo, e, log)))
    case Let(decs, b) => ExpLog(rule, b, DecsEnv(rule, decs, |decs|, e), DecsLog(rule, decs, |decs|, e, log))
    case Array(typ, isArray, size, init) =>
      var log1 := log + [Type(e, typ)];
      if Get(e.types, typ).Some? && isArray then ExpLog(rule, init, e, ExpLog(rule, size, e, log1)) else log1
  }

  function ExpsLog(rule: Rule, es: seq<Exp>, n: nat, e: Envs, log: seq<Use>): seq<Use>
    requires n <= |es|
    decreases es, n
  {
    if n == 0 then log else ExpLog(rule, es[n - 1], e, ExpsLog(rule, es, n - 1, e, log))
  }

  function FieldsLog(rule: Rule, fs: seq<EField>, names: seq<Sym>, n: nat, e: Envs, log: seq<Use>): seq<Use>
    requires n <= |fs| && n <= |names|
    decreases fs, n
  {
    if n == 0 then log
    else FieldLog(rule, fs[n - 1], names[n - 1], e, FieldsLog(rule, fs, names, n - 1, e, log))
  }

  /** A field under the wrong name is not checked. */
  function FieldLog(rule: Rule, f: EField, name: Sym, e: Envs, log: seq<Use>): seq<Use>
    decreases f
  {
    if f.name == name then ExpLog(rule, f.exp, e, log) else log
  }

  /** Each declaration of a let is in the scope of those before it. */
  function DecsLog(rule: Rule, ds: seq<Dec>, n: nat, e: Envs, log: seq<Use>): seq<Use>
    requires n <= |ds|
    decreases ds, n
  {
    if n == 0 then log else DecLog(rule, ds[n - 1], DecsEnv(rule, ds, n - 1, e), DecsLog(rule, ds, n - 1, e, log))
  }

  function DecsEnv(rule: Rule, ds: seq<Dec>, n: nat, e: Envs): Envs
    requires n <= |ds|
  {
    if n == 0 then e else DecEnv(rule, ds[n - 1], DecsEnv(rule, ds, n - 1, e))
  }

  /** What a declaration brings into scope. */
  function DecEnv(rule: Rule, d: Dec, e: Envs): Envs {
    match d
    case FunctionDec(funs) => HeadersEnv(rule, funs, |funs|, e)
    case VarDec(site, s, typ, _) =>
      if rule.Lexical? || typ.None? || Get(e.types, typ.value).Some? then WithValue(e, s, VarEntry(site)) else e
    case TypeDec(types, _) => TypesEnv(rule, types, |types|, e)
  }

  function HeadersEnv(rule: Rule, funs: seq<Fundec>, n: nat, e: Envs): Envs
    requires n <= |funs|
  {
    if n == 0 then e
    else
      var before, f := HeadersEnv(rule, funs, n - 1, e), funs[n - 1];
      if rule.Code? && f.name in before.values then before else WithValue(before, f.name, FunEntry(f.site, |f.params|))
  }

  function TypesEnv(rule: Rule, types: seq<NamedTy>, n: nat, e: Envs): Envs
    requires n <= |types|
  {
    if n == 0 then e
    else
      var before, t := TypesEnv(rule, types, n - 1, e), types[n - 1];
      if rule.Code? && t.name in before.types then before
      else before.(types := before.types[t.name := TypeEntry(t.site)])
  }

  function ParamsEnv(ps: seq<Field>, n: nat, e: Envs): Envs
    requires n <= |ps|
  {
    if n == 0 then e else WithValue(ParamsEnv(ps, n - 1, e), ps[n - 1].name, VarEntry(ps[n - 1].site))
  }

  /** The parameter `k` is the last of its name. */
  ghost predicate LastNamed(ps: seq<Field>, k: nat)
    requires k < |ps|
  {
    forall l: nat | k < l < |ps| :: ps[l].name != ps[k].name
  }

  /**
   * In `inner` the name of each parameter stands for the last parameter of that
   * name, any other name for what it stands for in `e`, and so does every type.
   */
  ghost predicate Parameterized(ps: seq<Field>, e: Envs, inner: Envs) {
    && inner.types == e.types
    && (forall k: nat | k < |ps| && LastNamed(ps, k) :: Get(inner.values, ps[k].name) == Some(VarEntry(ps[k].site)))
    && forall s: Sym | (forall k: nat | k < |ps| :: ps[k].name != s) :: Get(inner.values, s) == Get(e.values, s)
  }

  lemma {:induction false} ParamsOthers(ps: seq<Field>, n: nat, e: Envs, s: Sym)
    requires n <= |ps| && forall k: nat | k < n :: ps[k].name != s
    ensures Get(ParamsEnv(ps, n, e).values, s) == Get(e.values, s)
  {
    if n > 0 {
      ParamsOthers(ps, n - 1, e, s);
    }
  }

  lemma {:induction false} ParamsLast(ps: seq<Field>, n: nat, e: Envs, k: nat)
    requires k < n <= |ps| && LastNamed(ps, k)
    ensures Get(ParamsEnv(ps, n, e).values, ps[k].name) == Some(VarEntry(ps[k].site))
  {
    if k < n - 1 {
      ParamsLast(ps, n - 1, e, k);
      assert ps[n - 1].name != ps[k].name;
    }
  }

  lemma {:induction false} ParamsTypes(ps: seq<Field>, n: nat, e: Envs)
    requires n <= |ps|
    ensures ParamsEnv(ps, n, e).types == e.types
  {
    if n > 0 {
      ParamsTypes(ps, n - 1, e);
    }
  }

  lemma ParamsBind(ps: seq<Field>, e: Envs)
    ensures Parameterized(ps, e, ParamsEnv(ps, |ps|, e))
  {
    hide ParamsEnv, LastNamed, Get;
    ParamsTypes(ps, |ps|, e);
    forall k: nat | k < |ps| && LastNamed(ps, k)
      ensures Get(ParamsEnv(ps, |ps|, e).values, ps[k].name) == Some(VarEntry(ps[k].site))
    {
      ParamsLast(ps, |ps|, e, k);
    }
    forall s: Sym | forall k: nat | k < |ps| :: ps[k].name != s
      ensures Get(ParamsEnv(ps, |ps|, e).values, s) == Get(e.values, s)
    {
      ParamsOthers(ps, |ps|, e, s);
    }
  }

  /** Function bodies see all the headers of their group and, innermost, their own parameters. */
  function DecLog(rule: Rule, d: Dec, e: Envs, log: seq<Use>): seq<Use>
    decreases d
  {
    match d
    case FunctionDec(funs) =>
      BodiesLog(rule, funs, |funs|, HeadersEnv(rule, funs, |funs|, e), HeadersLog(rule, funs, |funs|, e, log))
    case VarDec(_, _, typ, init) =>
      var log1 := ExpLog(rule, init, e, log);
      if typ.Some? then log1 + [Type(e, typ.value)] else log1
    case TypeDec(types, checked) =>
      var e' := TypesEnv(rule, types, |types|, e);
      var log1 := TyBodiesLog(types, |types|, e', TypeHeadersLog(rule, types, |types|, e, log));
      NamesLog(types, Least(checked, |types|), e', log1)
  }

  function HeadersLog(rule: Rule, funs: seq<Fundec>, n: nat, e: Envs, log: seq<Use>): seq<Use>
    requires n <= |funs|
  {
    if n == 0 then log
    else
      var before, f := HeadersEnv(rule, funs, n - 1, e), funs[n - 1];
      var log1 := HeadersLog(rule, funs, n - 1, e, log) + [Value(before, f.name)];
      if rule.Code? && f.name in before.values then log1
      else
        var log2 := if f.result.Some? then log1 + [Type(before, f.result.value)] else log1;
        FieldTypesLog(f.params, |f.params|, before, log2)
  }

  function FieldTypesLog(ps: seq<Field>, n: nat, e: Envs, log: seq<Use>): seq<Use>
    requires n <= |ps|
  {
    if n == 0 then log else FieldTypesLog(ps, n - 1, e, log) + [Type(e, ps[n - 1].typ)]
  }

  function BodiesLog(rule: Rule, funs: seq<Fundec>, n: nat, e: Envs, log: seq<Use>): seq<Use>
    requires n <= |funs|
    decreases funs, n
  {
    if n == 0 then log
    else
      var f := funs[n - 1];
      var inner := ParamsEnv(f.params, |f.params|, e);
      var log1 := FieldTypesLog(f.params, |f.params|, e, BodiesLog(rule, funs, n - 1, e, log));
      ExpLog(rule, f.body, inner, log1) + [Value(inner, f.name)]
  }

  function TypeHeadersLog(rule: Rule, types: seq<NamedTy>, n: nat, e: Envs, log: seq<Use>): seq<Use>
    requires n <= |types|
  {
    if n == 0 then log
    else TypeHeadersLog(rule, types, n - 1, e, log) + [Type(TypesEnv(rule, types, n - 1, e), types[n - 1].name)]
  }

  function TyLog(ty: Ty, e: Envs, log: seq<Use>): seq<Use> {
    match ty
    case NameTy(s) => log + [Type(e, s)]
    case RecordTy(fields) => FieldTypesLog(fields, |fields|, e, log)
    case ArrayTy(s) => if s in e.types then log + [Type(e, s)] + [Type(e, s)] else log + [Type(e, s)]
  }

  function TyBodiesLog(types: seq<NamedTy>, n: nat, e: Envs, log: seq<Use>): seq<Use>
    requires n <= |types|
  {
    if n == 0 then log
    else
      var log1 := TyBodiesLog(types, n - 1, e, log) + [Type(e, types[n - 1].name)];
      if types[n - 1].name in e.types then TyLog(types[n - 1].ty, e, log1) else log1
  }

  function NamesLog(types: seq<NamedTy>, n: nat, e: Envs, log: seq<Use>): seq<Use>
    requires n <= |types|
  {
    if n == 0 then log else NamesLog(types, n - 1, e, log) + [Type(e, types[n - 1].name)]
  }

  // ---------- stacks of bindings as environments ----------

  type Stack = seq<Binding<Entry>>

  /** The environment a stack stands for: newest bindings win, marks do not count. */
  function EnvOf(s: Stack): Env {
    if s == [] then map[]
    else
      var older := EnvOf(s[1..]);
      if s[0].key == MARK then older
      else if s[0].value.Some? then older[s[0].key := s[0].value.value]
      else older - {s[0].key}
  }

  lemma {:induction false} FindIsGet(s: Stack, k: Sym)
    ensures Find(s, k) == Get(EnvOf(s), k)
  {
    if s != [] {
      FindIsGet(s[1..], k);
    }
  }

  lemma EnterEnv(s: Stack, k: Sym, x: Entry)
    ensures EnvOf([Binding(k, Some(x))] + s) == EnvOf(s)[k := x]
  {
    assert ([Binding<Entry>.Binding(k, Some(x))] + s)[1..] == s;
  }

  lemma MarkEnv(s: Stack)
    ensures EnvOf([Binding(MARK, None)] + s) == EnvOf(s)
  {
    assert ([Binding<Entry>.Binding(MARK, None)] + s)[1..] == s;
  }

  /** `s` grew to `s'` without opening a scope. */
  ghost predicate Grown(s: Stack, s': Stack) {
    && |s| <= |s'| && s'[|s'| - |s|..] == s
    && forall i | 0 <= i < |s'| - |s| :: s'[i].key != MARK
  }

  lemma GrownTwice(s: Stack, s': Stack, s'': Stack)
    requires Grown(s, s') && Grown(s', s'')
    ensures Grown(s, s'')
  {
    var n := |s''| - |s|;
    assert s''[n..] == s''[|s''| - |s'|..][|s'| - |s|..];
    forall i | |s''| - |s'| <= i < n
      ensures s''[i].key != MARK
    {
      assert s''[i] == s'[i - (|s''| - |s'|)];
    }
  }

  lemma GrownByOne(s: Stack, k: Sym, v: Option<Entry>)
    ensures Grown(s, [Binding(k, v)] + s)
  {
  }

  /** Ending a scope after any growth restores what was there before it began. */
  lemma EndRestores(s: Stack, s': Stack)
    requires Grown([Binding(MARK, None)] + s, s')
    ensures MarkAt(s') < |s'| && s'[MarkAt(s') + 1..] == s
  {
    var n := |s'| - |s| - 1;
    var marked := [Binding<Entry>.Binding(MARK, None)] + s;
    assert s'[n] == s'[n..][0] == marked[0];
    assert s'[n + 1..] == s'[n..][1..] == marked[1..] == s;
  }

  // ---------- the checker ----------

  datatype Scope = Scope(values: Stack, types: Stack)

  ghost function EnvsOf(s: Scope): Envs {
    Envs(EnvOf(s.values), EnvOf(s.types))
  }

  ghost predicate GrownScope(s: Scope, s': Scope) {
    Grown(s.values, s'.values) && Grown(s.types, s'.types)
  }

  class Checker {
    const venv: Tab<Entry>
    const tenv: Tab<Entry>
    /** Every look-up so far. */
    var log: seq<Use>

    ghost predicate Valid()
      reads this, venv, venv.table, tenv, tenv.table
    {
      venv != tenv && venv.table != tenv.table && venv.Valid() && tenv.Valid()
    }

    constructor ()
      ensures Valid() && fresh(venv) && fresh(venv.table) && fresh(tenv) && fresh(tenv.table)
      ensures Now() == Scope([], []) && log == []
    {
      venv := new Tab<Entry>();
      tenv := new Tab<Entry>();
      log := [];
    }

    ghost function Now(): Scope
      reads venv, tenv
    {
      Scope(venv.stack, tenv.stack)
    }

    method LookValue(s: Sym) returns (x: Option<Entry>)
      requires Valid()
      modifies this`log
      ensures Valid() && Now() == old(Now()) && x == Get(EnvsOf(Now()).values, s)
      ensures log == old(log) + [Value(EnvsOf(Now()), s)]
    {
      x := venv.Look(s);
      FindIsGet(venv.stack, s);
      log := log + [ValueUse(s, x)];
    }

    method LookType(s: Sym) returns (x: Option<Entry>)
      requires Valid()
      modifies this`log
      ensures Valid() && Now() == old(Now()) && x == Get(EnvsOf(Now()).types, s)
      ensures log == old(log) + [Type(EnvsOf(Now()), s)]
    {
      x := tenv.Look(s);
      FindIsGet(tenv.stack, s);
      log := log + [TypeUse(s, x)];
    }

    method EnterValue(s: Sym, x: Entry)
      requires Valid()
      modifies venv, venv.table
      ensures Valid() && GrownScope(old(Now()), Now())
      ensures EnvsOf(Now()) == WithValue(EnvsOf(old(Now())), s, x)
    {
      venv.Enter(s, Some(x));
      EnterEnv(old(venv.stack), s, x);
      GrownByOne(old(venv.stack), s, Some(x));
    }

    method EnterType(s: Sym, x: Entry)
      requires Valid()
      modifies tenv, tenv.table
      ensures Valid() && GrownScope(old(Now()), Now())
      ensures var e := EnvsOf(old(Now()));
        EnvsOf(Now()) == e.(types := e.types[s := x])
    {
      tenv.Enter(s, Some(x));
      EnterEnv(old(tenv.stack), s, x);
      GrownByOne(old(tenv.stack), s, Some(x));
    }

    method BeginScopes()
      requires Valid()
      modifies venv, venv.table, tenv, tenv.table
      ensures Valid() && Now() == Opened(old(Now())) && EnvsOf(Now()) == EnvsOf(old(Now()))
    {
      venv.BeginScope();
      tenv.BeginScope();
      MarkEnv(old(venv.stack));
      MarkEnv(old(tenv.stack));
    }

    method EndScopes(ghost outer: Scope)
      requires Valid() && GrownScope(Opened(outer), Now())
      modifies venv, venv.table, tenv, tenv.table
      ensures Valid() && Now() == outer
    {
      EndRestores(outer.values, venv.stack);
      EndRestores(outer.types, tenv.stack);
      tenv.EndScope();
      venv.EndScope();
    }

    method TransVar(x: Variable)
      requires Valid()
      modifies this`log, venv, venv.table, tenv, tenv.table
      ensures Valid() && Now() == old(Now()) && log == VarLog(Code, x, EnvsOf(Now()), old(log))
      decreases x
    {
      match x
      case Simple(s) =>
        var entry := LookValue(s);
      case FieldOf(b, _) =>
        TransVar(b);
      case Subscript(b, i) =>
        TransVar(b);
        TransExp(i);
    }

    /** Leaves both stacks as they were; every look-up found what the checker's own rule says. */
    method TransExp(a: Exp)
      requires Valid()
      modifies this`log, venv, venv.table, tenv, tenv.table
      ensures Valid() && Now() == old(Now()) && log == ExpLog(Code, a, EnvsOf(Now()), old(log))
      decreases a, 1
    {
      hide EnvsOf;
      match a
      case VarExp(x) =>
        TransVar(x);
      case Constant =>
      case Call(_, _) =>
        TransCall(a);
      case Op(l, r) =>
        TransExp(l);
        TransExp(r);
      case Record(_, _, _) =>
        TransRecord(a);
      case Sequence(es) =>
        TransSequence(a);
      case Assign(x, r) =>
        if x.Simple? {
          var checkloop := LookValue(x.sym);
        }
        TransVar(x);
        TransExp(r);
      case If(c, t) =>
        TransExp(c);
        TransExp(t);
      case IfElse(c, t, f) =>
        TransExp(c);
        TransExp(t);
        TransExp(f);
      case While(c, b) =>
        TransExp(c);
        TransExp(b);
      case For(_, _, _, _, _) =>
        TransFor(a);
      case Let(_, _) =>
        TransLet(a);
      case Array(typ, isArray, size, init) =>
        var arrayty := LookType(typ);
        if arrayty.Some? && isArray {
          TransExp(size);
          TransExp(init);
        }
    }

    method TransCall(a: Exp)
      requires Valid() && a.Call?
      modifies this`log, venv, venv.table, tenv, tenv.table
      ensures Valid() && Now() == old(Now()) && log == ExpLog(Code, a, EnvsOf(Now()), old(log))
      decreases a, 0
    {
      hide EnvsOf;
      var x := LookValue(a.func);
      if x.None? || !x.value.FunEntry? {
        return;
      }
      ghost var log0 := log;
      var i := 0;
      while i < x.value.formals && i < |a.args|
        invariant i <= Least(x.value.formals, |a.args|)
        invariant Valid() && Now() == old(Now()) && log == ExpsLog(Code, a.args, i, EnvsOf(Now()), log0)
      {
        TransExp(a.args[i]);
        i := i + 1;
      }
    }

    method TransRecord(a: Exp)
      requires Valid() && a.Record?
      modifies this`log, venv, venv.table, tenv, tenv.table
      ensures Valid() && Now() == old(Now()) && log == ExpLog(Code, a, EnvsOf(Now()), old(log))
      decreases a, 0
    {
      hide EnvsOf;
      var record := LookType(a.typ);
      if record.None? || a.actual.None? {
        return;
      }
      ghost var log0 := log;
      var names := a.actual.value;
      var i := 0;
      while i < |names| && i < |a.fields|
        invariant i <= Least(|names|, |a.fields|)
        invariant Valid() && Now() == old(Now()) && log == FieldsLog(Code, a.fields, names, i, EnvsOf(Now()), log0)
      {
        var f := a.fields[i];
        if f.name == names[i] {
          TransExp(f.exp);
        }
        i := i + 1;
      }
    }

    method TransSequence(a: Exp)
      requires Valid() && a.Sequence?
      modifies this`log, venv, venv.table, tenv, tenv.table
      ensures Valid() && Now() == old(Now()) && log == ExpLog(Code, a, EnvsOf(Now()), old(log))
      decreases a, 0
    {
      hide EnvsOf;
      var i := 0;
      while i < |a.exps|
        invariant i <= |a.exps|
        invariant Valid() && Now() == old(Now()) && log == ExpsLog(Code, a.exps, i, EnvsOf(Now()), old(log))
      {
        TransExp(a.exps[i]);
        i := i + 1;
      }
    }

    /** The loop variable is in scope in the body only. */
    method TransFor(a: Exp)
      requires Valid() && a.For?
      modifies this`log, venv, venv.table, tenv, tenv.table
      ensures Valid() && Now() == old(Now()) && log == ExpLog(Code, a, EnvsOf(Now()), old(log))
      decreases a, 0
    {
      hide EnvsOf, GrownScope;
      TransExp(a.lo);
      TransExp(a.hi);
      ghost var outer := Now();
      BeginScopes();
      EnterValue(a.sym, VarEntry(a.site));
      TransExp(a.body);
      EndScopes(outer);
    }

    method TransLet(a: Exp)
      requires Valid() && a.Let?
      modifies this`log, venv, venv.table, tenv, tenv.table
      ensures Valid() && Now() == old(Now()) && log == ExpLog(Code, a, EnvsOf(Now()), old(log))
      decreases a, 0
    {
      hide EnvsOf, GrownScope;
      ghost var outer, e := Now(), EnvsOf(Now());
      BeginScopes();
      GrownSelf(Now());
      var i := 0;
      while i < |a.decs|
        invariant i <= |a.decs|
        invariant Valid() && GrownScope(Opened(outer), Now())
        invariant EnvsOf(Now()) == DecsEnv(Code, a.decs, i, e) && log == DecsLog(Code, a.decs, i, e, old(log))
      {
        ghost var s := Now();
        TransDec(a.decs[i]);
        GrowOn(Opened(outer), s, Now());
        i := i + 1;
      }
      TransExp(a.body);
      EndScopes(outer);
    }

    /** Adds bindings to the current scope and nothing else. */
    method TransDec(d: Dec)
      requires Valid()
      modifies this`log, venv, venv.table, tenv, tenv.table
      ensures Valid() && GrownScope(old(Now()), Now())
      ensures EnvsOf(Now()) == DecEnv(Code, d, EnvsOf(old(Now())))
      ensures log == DecLog(Code, d, EnvsOf(old(Now())), old(log))
      decreases d, 1
    {
      hide EnvsOf, GrownScope;
      match d
      case FunctionDec(funs) =>
        TransHeaders(funs);
        GrownSelf(Now());
        TransBodies(d);
      case VarDec(site, s, typ, init) =>
        TransExp(init);
        GrownSelf(Now());
        if typ.Some? {
          var ty := LookType(typ.value);
          if ty.None? {
            return;
          }
        }
        EnterValue(s, VarEntry(site));
      case TypeDec(types, checked) =>
        TransTypes(types, checked);
    }

    method TransHeaders(funs: seq<Fundec>)
      requires Valid()
      modifies this`log, venv, venv.table
      ensures Valid() && GrownScope(old(Now()), Now())
      ensures EnvsOf(Now()) == HeadersEnv(Code, funs, |funs|, EnvsOf(old(Now())))
      ensures log == HeadersLog(Code, funs, |funs|, EnvsOf(old(Now())), old(log))
    {
      hide EnvsOf, GrownScope;
      ghost var s0, e := Now(), EnvsOf(Now());
      GrownSelf(s0);
      var i := 0;
      while i < |funs|
        invariant i <= |funs|
        invariant Valid() && GrownScope(s0, Now())
        invariant EnvsOf(Now()) == HeadersEnv(Code, funs, i, e) && EnvsOf(Now()).types == e.types
        invariant log == HeadersLog(Code, funs, i, e, old(log))
      {
        var fun := funs[i];
        var x := LookValue(fun.name);
        if x.None? {
          if fun.result.Some? {
            var ty := LookType(fun.result.value);
          }
          LookFieldTypes(fun.params);
          ghost var s := Now();
          EnterValue(fun.name, FunEntry(fun.site, |fun.params|));
          GrowOn(s0, s, Now());
        }
        i := i + 1;
      }
    }

    /** afieldToTylist and afieldToTyfield: one look-up a field. */
    method LookFieldTypes(ps: seq<Field>)
      requires Valid()
      modifies this`log
      ensures Valid() && Now() == old(Now())
      ensures log == FieldTypesLog(ps, |ps|, EnvsOf(Now()), old(log))
    {
      hide EnvsOf;
      var i := 0;
      while i < |ps|
        invariant i <= |ps|
        invariant Valid() && Now() == old(Now()) && log == FieldTypesLog(ps, i, EnvsOf(Now()), old(log))
      {
        var ty := LookType(ps[i].typ);
        i := i + 1;
      }
    }

    method TransBodies(d: Dec)
      requires Valid() && d.FunctionDec?
      modifies this`log, venv, venv.table, tenv, tenv.table
      ensures Valid() && Now() == old(Now())
      ensures log == BodiesLog(Code, d.funs, |d.funs|, EnvsOf(Now()), old(log))
      decreases d, 0
    {
      hide EnvsOf, GrownScope, Parameterized, ParamsEnv, FieldTypesLog;
      var i := 0;
      while i < |d.funs|
        invariant i <= |d.funs|
        invariant Valid() && Now() == old(Now()) && log == BodiesLog(Code, d.funs, i, EnvsOf(Now()), old(log))
      {
        ghost var inner := TransBody(d.funs[i]);
        i := i + 1;
      }
    }

    /** A function body has a scope of its own in the value environment only. */
    method TransBody(fun: Fundec) returns (ghost inner: Envs)
      requires Valid()
      modifies this`log, venv, venv.table, tenv, tenv.table
      ensures Valid() && Now() == old(Now())
      ensures inner == ParamsEnv(fun.params, |fun.params|, EnvsOf(Now()))
      ensures Parameterized(fun.params, EnvsOf(Now()), inner)
      ensures var ps := fun.params;
        log == ExpLog(Code, fun.body, inner, FieldTypesLog(ps, |ps|, EnvsOf(Now()), old(log)))
               + [Value(inner, fun.name)]
      decreases fun
    {
      hide EnvsOf, GrownScope, Parameterized;
      ghost var outer, e := Now(), EnvsOf(Now());
      venv.BeginScope();
      OpenValues(outer);
      EnterParams(fun.params, Scope([Binding(MARK, None)] + outer.values, outer.types), e);
      inner := EnvsOf(Now());
      TransExp(fun.body);
      var res := LookValue(fun.name);
      CloseValues(outer, Now());
      venv.EndScope();
    }

    method EnterParams(ps: seq<Field>, ghost inner: Scope, ghost e: Envs)
      requires Valid() && Now() == inner && EnvsOf(Now()) == e
      modifies this`log, venv, venv.table
      ensures Valid() && GrownScope(inner, Now())
      ensures EnvsOf(Now()) == ParamsEnv(ps, |ps|, e) && Parameterized(ps, e, EnvsOf(Now()))
      ensures log == FieldTypesLog(ps, |ps|, e, old(log))
    {
      hide EnvsOf, GrownScope, Parameterized;
      ParamsBind(ps, e);
      GrownSelf(Now());
      var i := 0;
      while i < |ps|
        invariant i <= |ps|
        invariant Valid() && GrownScope(inner, Now())
        invariant EnvsOf(Now()) == ParamsEnv(ps, i, e) && EnvsOf(Now()).types == e.types
        invariant log == FieldTypesLog(ps, i, e, old(log))
      {
        var ty := LookType(ps[i].typ);
        ghost var s := Now();
        EnterValue(ps[i].name, VarEntry(ps[i].site));
        GrowOn(inner, s, Now());
        i := i + 1;
      }
    }

    method TransTypes(types: seq<NamedTy>, checked: nat)
      requires Valid()
      modifies this`log, tenv, tenv.table
      ensures Valid() && GrownScope(old(Now()), Now())
      ensures EnvsOf(Now()) == DecEnv(Code, TypeDec(types, checked), EnvsOf(old(Now())))
      ensures log == DecLog(Code, TypeDec(types, checked), EnvsOf(old(Now())), old(log))
    {
      hide EnvsOf, GrownScope;
      TransTypeHeaders(types);
      ghost var s1, log1 := Now(), log;
      var i := 0;
      while i < |types|
        invariant i <= |types|
        invariant Valid() && Now() == s1 && log == TyBodiesLog(types, i, EnvsOf(s1), log1)
      {
        var ty := LookType(types[i].name);
        if ty.Some? {
          TransTy(types[i].ty);
        }
        i := i + 1;
      }
      ghost var log2 := log;
      i := 0;
      while i < |types| && i < checked
        invariant i <= Least(checked, |types|)
        invariant Valid() && Now() == s1 && log == NamesLog(types, i, EnvsOf(s1), log2)
      {
        var ty := LookType(types[i].name);
        i := i + 1;
      }
    }

    method TransTypeHeaders(types: seq<NamedTy>)
      requires Valid()
      modifies this`log, tenv, tenv.table
      ensures Valid() && GrownScope(old(Now()), Now())
      ensures EnvsOf(Now()) == TypesEnv(Code, types, |types|, EnvsOf(old(Now())))
      ensures log == TypeHeadersLog(Code, types, |types|, EnvsOf(old(Now())), old(log))
    {
      hide EnvsOf, GrownScope;
      ghost var s0, e := Now(), EnvsOf(Now());
      GrownSelf(s0);
      var i := 0;
      while i < |types|
        invariant i <= |types|
        invariant Valid() && GrownScope(s0, Now())
        invariant EnvsOf(Now()) == TypesEnv(Code, types, i, e) && log == TypeHeadersLog(Code, types, i, e, old(log))
      {
        var ty := LookType(types[i].name);
        if ty.None? {
          ghost var s := Now();
          EnterType(types[i].name, TypeEntry(types[i].site));
          GrowOn(s0, s, Now());
        }
        i := i + 1;
      }
    }

    method TransTy(ty: Ty)
      requires Valid()
      modifies this`log
      ensures Valid() && Now() == old(Now()) && log == TyLog(ty, EnvsOf(Now()), old(log))
    {
      hide EnvsOf;
      match ty
      case NameTy(s) =>
        var x := LookType(s);
      case RecordTy(fields) =>
        LookFieldTypes(fields);
      case ArrayTy(s) =>
        var x := LookType(s);
        if x.Some? {
          x := LookType(s);
        }
    }
  }

  ghost function Opened(s: Scope): Scope {
    Scope([Binding(MARK, None)] + s.values, [Binding(MARK, None)] + s.types)
  }

  lemma GrownSelf(s: Scope)
    ensures GrownScope(s, s)
  {
  }

  lemma GrowOn(s: Scope, s': Scope, s'': Scope)
    requires GrownScope(s, s') && GrownScope(s', s'')
    ensures GrownScope(s, s'')
  {
    hide Grown;
    GrownTwice(s.values, s'.values, s''.values);
    GrownTwice(s.types, s'.types, s''.types);
  }

  lemma OpenValues(s: Scope)
    ensures EnvsOf(Scope([Binding(MARK, None)] + s.values, s.types)) == EnvsOf(s)
  {
    MarkEnv(s.values);
  }

  lemma CloseValues(s: Scope, s': Scope)
    requires GrownScope(Scope([Binding(MARK, None)] + s.values, s.types), s') && s'.types == s.types
    ensures MarkAt(s'.values) < |s'.values| && s'.values[MarkAt(s'.values) + 1..] == s.values
  {
    EndRestores(s.values, s'.values);
  }
}
