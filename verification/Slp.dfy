/** The straight-line interpreter (Compiler/lab1/myimpl.c). */
module Slp {

  import opened Wrappers

  type i32 = x: int | -0x8000_0000 <= x < 0x8000_0000

  datatype Binop = Plus | Minus | Times | Div

  datatype Stm = CompoundStm(stm1: Stm, stm2: Stm) | AssignStm(id: string, exp: Exp) | PrintStm(exps: ExpList)
  datatype Exp =
    | IdExp(id: string) | NumExp(num: i32)
    | OpExp(left: Exp, oper: Binop, right: Exp) | EseqExp(stm: Stm, exp: Exp)
  datatype ExpList = PairExpList(head: Exp, tail: ExpList) | LastExpList(last: Exp)

  /** What one printf puts out: a number and a blank, or a number and the end of the line. */
  datatype Event = Item(n: i32) | EndItem(n: i32)

  // ---------- store semantics ----------

  /** Variables (0 when absent), output so far, and the argument counts of the print statements that ended. */
  datatype State = State(store: map<string, i32>, out: seq<Event>, prints: seq<nat>)

  /** A run ends in a value or stops the program at a division. */
  datatype Run<+V> = Done(value: V, st: State) | Crashed(st: State)

  function Get(store: map<string, i32>, id: string): i32 {
    if id in store then store[id] else 0
  }

  /** Two's complement. */
  function Wrap(x: int): (r: i32)
    ensures (x - r) % 0x1_0000_0000 == 0
  {
    (x + 0x8000_0000) % 0x1_0000_0000 - 0x8000_0000
  }

  /** C division truncates towards zero; dividing by zero, or the least integer by -1, traps. */
  function Divide(a: i32, b: i32): (r: Option<i32>)
    ensures r.None? <==> b == 0 || (a == -0x8000_0000 && b == -1)
    ensures r.Some? ==> Truncates(a, b, r.value)
  {
    if b == 0 || (a == -0x8000_0000 && b == -1) then None
    else Some(Truncated(a, b))
  }

  /** The divisor's magnitude fits |q| times into the dividend's, and the sign is that of a times b. */
  predicate Truncates(a: i32, b: i32, q: i32) {
    b != 0 && Abs(q) == Quotient(Abs(a), Abs(b)) && (q != 0 ==> (q < 0) == ((a < 0) != (b < 0)))
  }

  function Truncated(a: i32, b: i32): (q: i32)
    requires b != 0 && !(a == -0x8000_0000 && b == -1)
  {
    WithSign(Quotient(Abs(a), Abs(b)), (a < 0) != (b < 0))
  }

  function WithSign(q: nat, negative: bool): (r: int)
    ensures Abs(r) == q && (r != 0 ==> (r < 0) == negative)
  {
    if negative then 0 - q as int else q
  }

  function Abs(a: int): nat {
    if a < 0 then -a else a
  }

  /** How often `n` can be taken from `m`. */
  function Quotient(m: nat, n: nat): (q: nat)
    requires n > 0
    ensures q <= m && (n > 1 && m > 0 ==> q < m)
  {
    if m < n then 0 else 1 + Quotient(m - n, n)
  }

  /** The value of an operation: sum, difference and product modulo 2^32, quotients truncated. */
  predicate IsResult(a: i32, op: Binop, b: i32, v: i32) {
    match op
    case Plus => (a + b - v) % 0x1_0000_0000 == 0
    case Minus => (a - b - v) % 0x1_0000_0000 == 0
    case Times => (a * b - v) % 0x1_0000_0000 == 0
    case Div => Truncates(a, b, v)
  }

  function Apply(a: i32, op: Binop, b: i32): (r: Option<i32>)
    ensures r.None? <==> op.Div? && (b == 0 || (a == -0x8000_0000 && b == -1))
    ensures r.Some? ==> IsResult(a, op, b, r.value)
  {
    match op
    case Plus => Some(Wrap(a + b))
    case Minus => Some(Wrap(a - b))
    case Times => Some(Wrap(a * b))
    case Div => Divide(a, b)
  }

  function RunStm(s: Stm, st: State): Run<()>
    decreases s
  {
    match s
    case CompoundStm(s1, s2) =>
      var r := RunStm(s1, st);
      if r.Done? then RunStm(s2, r.st) else r
    case AssignStm(id, e) =>
      var r := RunExp(e, st);
      if r.Done? then Done((), r.st.(store := r.st.store[id := r.value])) else Crashed(r.st)
    case PrintStm(es) =>
      RunList(es, ArgNum(es), st)
  }

  function RunExp(e: Exp, st: State): Run<i32>
    decreases e
  {
    match e
    case IdExp(id) => Done(Get(st.store, id), st)
    case NumExp(n) => Done(n, st)
    case OpExp(l, op, r) =>
      var left := RunExp(l, st);
      if left.Crashed? then left
      else
        var right := RunExp(r, left.st);
        if right.Crashed? then right
        else
          var v := Apply(left.value, op, right.value);
          if v.Some? then Done(v.value, right.st) else Crashed(right.st)
    case EseqExp(s, e1) =>
      var r := RunStm(s, st);
      if r.Done? then RunExp(e1, r.st) else Crashed(r.st)
  }

  /** The arguments of a print statement of `n` arguments, left to right. */
  function RunList(es: ExpList, n: nat, st: State): Run<()>
    decreases es
  {
    match es
    case PairExpList(head, tail) =>
      var r := RunExp(head, st);
      if r.Done? then RunList(tail, n, r.st.(out := r.st.out + [Item(r.value)])) else Crashed(r.st)
    case LastExpList(last) =>
      var r := RunExp(last, st);
      if r.Done? then Done((), r.st.(out := r.st.out + [EndItem(r.value)], prints := r.st.prints + [n]))
      else Crashed(r.st)
  }

  // ---------- what the semantics means ----------

  /** What has been put out stays and comes first. */
  lemma {:induction false} StmOutput(s: Stm, st: State)
    ensures st.out <= RunStm(s, st).st.out
    decreases s
  {
    hide Apply, Get;
    match s
    case CompoundStm(s1, s2) =>
      StmOutput(s1, st);
      if RunStm(s1, st).Done? {
        StmOutput(s2, RunStm(s1, st).st);
      }
    case AssignStm(_, e) =>
      ExpOutput(e, st);
    case PrintStm(es) =>
      ListOutput(es, ArgNum(es), st);
  }

  lemma {:induction false} ExpOutput(e: Exp, st: State)
    ensures st.out <= RunExp(e, st).st.out
    decreases e
  {
    hide Apply, Get;
    match e
    case IdExp(_) =>
    case NumExp(_) =>
    case OpExp(l, _, r) =>
      ExpOutput(l, st);
      if RunExp(l, st).Done? {
        ExpOutput(r, RunExp(l, st).st);
      }
    case EseqExp(s, e1) =>
      StmOutput(s, st);
      if RunStm(s, st).Done? {
        ExpOutput(e1, RunStm(s, st).st);
      }
  }

  lemma {:induction false} ListOutput(es: ExpList, n: nat, st: State)
    ensures st.out <= RunList(es, n, st).st.out
    decreases es
  {
    hide Apply, Get;
    match es
    case PairExpList(head, tail) =>
      ExpOutput(head, st);
      var r := RunExp(head, st);
      if r.Done? {
        ListOutput(tail, n, r.st.(out := r.st.out + [Item(r.value)]));
      }
    case LastExpList(last) =>
      ExpOutput(last, st);
  }

  /**
   * The left operand is evaluated first and its output comes first; the right one
   * sees what it has assigned, and the value is that of the operation on the two.
   */
  lemma OperandsInOrder(l: Exp, op: Binop, r: Exp, st: State)
    ensures var run, a := RunExp(OpExp(l, op, r), st), RunExp(l, st);
      && st.out <= a.st.out <= run.st.out && (a.Crashed? ==> run == a)
      && (a.Done? ==>
            var b := RunExp(r, a.st);
            && run.st == b.st && (b.Crashed? ==> run == b)
            && (b.Done? ==>
                  && (run.Crashed? <==> op.Div? && (b.value == 0 || (a.value == -0x8000_0000 && b.value == -1)))
                  && (run.Done? ==> IsResult(a.value, op, b.value, run.value))))
  {
    ExpOutput(l, st);
    if RunExp(l, st).Done? {
      ExpOutput(r, RunExp(l, st).st);
    }
    hide Apply, IsResult;
  }

  /** After an assignment its name stands for the value, any other for what it stood for, which at first is 0. */
  lemma AssignedValue(id: string, e: Exp, other: string, st: State)
    ensures var run, r := RunExp(EseqExp(AssignStm(id, e), IdExp(other)), st), RunExp(e, st);
      && (run.Done? <==> r.Done?)
      && (r.Done? ==>
            && run.value == (if other == id then r.value else if other in r.st.store then r.st.store[other] else 0)
            && run.st.out == r.st.out)
  {
    assert RunStm(AssignStm(id, e), st).Done? <==> RunExp(e, st).Done?;
  }

  /** Of two statements the second runs last, on what the first has left. */
  lemma StatementsInOrder(s1: Stm, s2: Stm, st: State)
    ensures var run, r := RunStm(CompoundStm(s1, s2), st), RunStm(s1, st);
      && st.out <= r.st.out <= run.st.out
      && run == (if r.Done? then RunStm(s2, r.st) else r)
  {
    StmOutput(s1, st);
    if RunStm(s1, st).Done? {
      StmOutput(s2, RunStm(s1, st).st);
    }
    hide RunExp, RunList;
  }

  /** The arguments of a print statement that are numbers. */
  function Numbers(ns: seq<i32>): (es: ExpList)
    requires ns != []
  {
    if |ns| == 1 then LastExpList(NumExp(ns[0])) else PairExpList(NumExp(ns[0]), Numbers(ns[1..]))
  }

  /** They are printed in order, each but the last with a blank behind it, and counted. */
  lemma {:induction false} PrintsNumbers(ns: seq<i32>, n: nat, st: State)
    requires ns != []
    ensures ArgNum(Numbers(ns)) == |ns|
    ensures var run := RunList(Numbers(ns), n, st);
      && run.Done? && run.st.prints == st.prints + [n] && run.st.store == st.store
      && |run.st.out| == |st.out| + |ns| && st.out <= run.st.out
      && forall k: nat | k < |ns| ::
           run.st.out[|st.out| + k] == if k + 1 < |ns| then Item(ns[k]) else EndItem(ns[k])
    decreases |ns|
  {
    if |ns| > 1 {
      PrintsNumbers(ns[1..], n, st.(out := st.out + [Item(ns[0])]));
      assert RunExp(NumExp(ns[0]), st) == Done(ns[0], st);
      var run := RunList(Numbers(ns), n, st);
      forall k: nat | k < |ns|
        ensures run.st.out[|st.out| + k] == if k + 1 < |ns| then Item(ns[k]) else EndItem(ns[k])
      {
        if k > 0 {
          assert run.st.out[|st.out| + 1 + (k - 1)]
              == if k - 1 + 1 < |ns[1..]| then Item(ns[1..][k - 1]) else EndItem(ns[1..][k - 1]);
        }
      }
    } else {
      assert RunExp(NumExp(ns[0]), st) == Done(ns[0], st);
    }
  }

  // ---------- maxargs ----------

  function Max(a: nat, b: nat): nat {
    if a > b then a else b
  }

  function MaxExpArgs(e: Exp): nat {
    match e
    case IdExp(_) => 0
    case NumExp(_) => 0
    case OpExp(l, _, r) => Max(MaxExpArgs(l), MaxExpArgs(r))
    case EseqExp(s, e1) => Max(MaxArgs(s), MaxExpArgs(e1))
  }

  function ArgNum(es: ExpList): nat {
    match es
    case LastExpList(_) => 1
    case PairExpList(_, tail) => ArgNum(tail) + 1
  }

  function MaxSubArgs(es: ExpList): nat {
    match es
    case LastExpList(last) => MaxExpArgs(last)
    case PairExpList(head, tail) => Max(MaxExpArgs(head), MaxSubArgs(tail))
  }

  function MaxArgs(s: Stm): nat {
    match s
    case CompoundStm(s1, s2) => Max(MaxArgs(s1), MaxArgs(s2))
    case AssignStm(_, e) => MaxExpArgs(e)
    case PrintStm(es) => Max(ArgNum(es), MaxSubArgs(es))
  }

  function Largest(ns: seq<nat>): nat {
    if ns == [] then 0 else Max(Largest(ns[..|ns| - 1]), ns[|ns| - 1])
  }

  lemma {:induction false} LargestIs(ns: seq<nat>)
    ensures forall n | n in ns :: n <= Largest(ns)
    ensures Largest(ns) in ns || (ns == [] && Largest(ns) == 0)
  {
    if ns != [] {
      var front, last := ns[..|ns| - 1], ns[|ns| - 1];
      LargestIs(front);
      assert ns == front + [last];
      forall n | n in ns
        ensures n <= Max(Largest(front), last)
      {
        assert n in front || n == last;
      }
      assert Largest(front) in front ==> Largest(front) in ns;
      assert last in ns;
    }
  }

  lemma LargestSnoc(ns: seq<nat>, n: nat)
    ensures Largest(ns + [n]) == Max(Largest(ns), n)
  {
    assert (ns + [n])[..|ns|] == ns;
  }

  lemma {:induction false} StmPrints(s: Stm, st: State)
    ensures var r := RunStm(s, st);
      if r.Done? then Largest(r.st.prints) == Max(Largest(st.prints), MaxArgs(s))
      else Largest(r.st.prints) <= Max(Largest(st.prints), MaxArgs(s))
    decreases s
  {
    hide Apply, Get;
    match s
    case CompoundStm(s1, s2) =>
      StmPrints(s1, st);
      if RunStm(s1, st).Done? {
        StmPrints(s2, RunStm(s1, st).st);
      }
    case AssignStm(_, e) =>
      ExpPrints(e, st);
    case PrintStm(es) =>
      ListPrints(es, ArgNum(es), st);
  }

  lemma {:induction false} ExpPrints(e: Exp, st: State)
    ensures var r := RunExp(e, st);
      if r.Done? then Largest(r.st.prints) == Max(Largest(st.prints), MaxExpArgs(e))
      else Largest(r.st.prints) <= Max(Largest(st.prints), MaxExpArgs(e))
    decreases e
  {
    hide Apply, Get;
    match e
    case IdExp(_) =>
    case NumExp(_) =>
    case OpExp(l, _, r) =>
      ExpPrints(l, st);
      if RunExp(l, st).Done? {
        ExpPrints(r, RunExp(l, st).st);
      }
    case EseqExp(s, e1) =>
      StmPrints(s, st);
      if RunStm(s, st).Done? {
        ExpPrints(e1, RunStm(s, st).st);
      }
  }

  lemma {:induction false} ListPrints(es: ExpList, n: nat, st: State)
    ensures var r := RunList(es, n, st);
      if r.Done? then Largest(r.st.prints) == Max(Max(Largest(st.prints), MaxSubArgs(es)), n)
      else Largest(r.st.prints) <= Max(Largest(st.prints), MaxSubArgs(es))
    decreases es
  {
    hide Apply, Get;
    match es
    case PairExpList(head, tail) =>
      ExpPrints(head, st);
      var r := RunExp(head, st);
      if r.Done? {
        ListPrints(tail, n, r.st.(out := r.st.out + [Item(r.value)]));
      }
    case LastExpList(last) =>
      ExpPrints(last, st);
      var r := RunExp(last, st);
      if r.Done? {
        LargestSnoc(r.st.prints, n);
      }
  }

  /** maxargs is the largest argument count among the print statements a complete run executes. */
  lemma MaxArgsExecuted(s: Stm)
    ensures var r := RunStm(s, State(map[], [], []));
      if r.Done? then Largest(r.st.prints) == MaxArgs(s) else Largest(r.st.prints) <= MaxArgs(s)
  {
    StmPrints(s, State(map[], [], []));
  }

  // ---------- the interpreter ----------

  datatype Table = Null | Table(id: string, value: i32, tail: Table)

  datatype IntAndTable = IntAndTable(i: i32, t: Table)

  /** The store a list of assignments stands for: the first entry of a name counts. */
  function StoreOf(t: Table): map<string, i32> {
    if t.Null? then map[] else StoreOf(t.tail)[t.id := t.value]
  }

  method Lookup(t: Table, key: string) returns (v: i32)
    ensures v == Get(StoreOf(t), key)
  {
    if t.Null? {
      return 0;
    }
    var temp := t;
    while temp.id != key
      invariant temp.Table? && Get(StoreOf(temp), key) == Get(StoreOf(t), key)
      decreases temp
    {
      if temp.tail.Null? {
        return 0;
      } else {
        temp := temp.tail;
      }
    }
    v := temp.value;
  }

  class Interpreter {
    /** Everything printed. */
    var out: seq<Event>
    /** Argument counts of the print statements that ended. */
    ghost var prints: seq<nat>

    constructor ()
      ensures out == [] && prints == []
    {
      out, prints := [], [];
    }

    ghost function Now(t: Table): State
      reads this
    {
      State(StoreOf(t), out, prints)
    }

    /** None when a division stops the program. */
    method InterpStm(s: Stm, t: Table) returns (r: Option<Table>)
      modifies this
      ensures AgreesStm(RunStm(s, old(Now(t))), r, out, prints)
      decreases s, 1
    {
      match s
      case CompoundStm(s1, s2) =>
        r := InterpStm(s1, t);
        if r.Some? {
          r := InterpStm(s2, r.value);
        }
      case AssignStm(id, e) =>
        var expRes := InterpExp(e, t);
        r := if expRes.Some? then Some(Table.Table(id, expRes.value.i, expRes.value.t)) else None;
      case PrintStm(es) =>
        r := InterpPrint(es, t);
    }

    method InterpExp(e: Exp, t: Table) returns (r: Option<IntAndTable>)
      modifies this
      ensures AgreesExp(RunExp(e, old(Now(t))), r, out, prints)
      decreases e, 0
    {
      match e
      case IdExp(id) =>
        var v := Lookup(t, id);
        r := Some(IntAndTable(v, t));
      case NumExp(n) =>
        r := Some(IntAndTable(n, t));
      case OpExp(l, op, right) =>
        var left := InterpExp(l, t);
        if left.None? {
          return None;
        }
        r := InterpExp(right, left.value.t);
        if r.Some? {
          var v := Apply(left.value.i, op, r.value.i);
          r := if v.Some? then Some(IntAndTable(v.value, r.value.t)) else None;
        }
      case EseqExp(s, e1) =>
        var t1 := InterpStm(s, t);
        if t1.None? {
          return None;
        }
        r := InterpExp(e1, t1.value);
    }

    method InterpPrint(exps: ExpList, t: Table) returns (r: Option<Table>)
      modifies this
      ensures AgreesStm(RunList(exps, ArgNum(exps), old(Now(t))), r, out, prints)
      decreases exps, 0
    {
      var tempList, tempTable := exps, t;
      while tempList.PairExpList?
        invariant tempList == exps || tempList < exps
        invariant RunList(tempList, ArgNum(exps), Now(tempTable)) == RunList(exps, ArgNum(exps), old(Now(t)))
        decreases tempList
      {
        var res := InterpExp(tempList.head, tempTable);
        if res.None? {
          return None;
        }
        out := out + [Item(res.value.i)];
        tempList := tempList.tail;
        tempTable := res.value.t;
      }
      var lastRes := InterpExp(tempList.last, tempTable);
      if lastRes.None? {
        return None;
      }
      out := out + [EndItem(lastRes.value.i)];
      prints := prints + [ArgNum(exps)];
      r := Some(lastRes.value.t);
    }
  }

  /** The interpreter's table and output against the store semantics, also when the program is stopped. */
  ghost predicate AgreesStm(run: Run<()>, r: Option<Table>, out: seq<Event>, prints: seq<nat>) {
    && (run.Done? <==> r.Some?)
    && (r.Some? ==> run.st == State(StoreOf(r.value), out, prints))
    && (r.None? ==> run.st.out == out && run.st.prints == prints)
  }

  ghost predicate AgreesExp(run: Run<i32>, r: Option<IntAndTable>, out: seq<Event>, prints: seq<nat>) {
    && (run.Done? <==> r.Some?)
    && (r.Some? ==> run.Done? && run.value == r.value.i && run.st == State(StoreOf(r.value.t), out, prints))
    && (r.None? ==> run.st.out == out && run.st.prints == prints)
  }
}
