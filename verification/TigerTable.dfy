/** The Tiger compiler's hashed table with an undo thread through its binders (Compiler/lab4/table.c, symbol.c). */
module TigerTable {

  import opened Wrappers

  const TABSIZE: nat := 127
  const NULL: nat := 0

  /** Address of the mark that begins a scope. */
  const MARK: nat := 1

  /** Address of a key; NULL is not one. */
  type Key = k: nat | k != 0 witness 1

  /** A stored value; None is the null pointer. */
  datatype Binding<+V> = Binding(key: Key, value: Option<V>)

  /** Binders are never changed once made: a bucket is the list its head starts. */
  datatype Binders<+V> = Nil | Binder(key: Key, value: Option<V>, next: Binders<V>, prevtop: nat)

  function Index(k: nat): (i: nat)
    ensures i < TABSIZE
  {
    k % TABSIZE
  }

  /** The newest binding of a key; bindings are listed newest first. */
  function Find<V>(stack: seq<Binding<V>>, k: Key): Option<V> {
    if stack == [] then None
    else if stack[0].key == k then stack[0].value
    else Find(stack[1..], k)
  }

  /** The buckets and the top key thread exactly the stack. */
  ghost predicate Threads<V>(buckets: seq<Binders<V>>, top: nat, stack: seq<Binding<V>>)
    requires |buckets| == TABSIZE
    decreases |stack|
  {
    if stack == [] then top == NULL && forall i: nat | i < TABSIZE :: buckets[i] == Nil
    else
      var b := buckets[Index(top)];
      && top == stack[0].key && b.Binder? && b.key == top && b.value == stack[0].value
      && Threads(buckets[Index(top) := b.next], b.prevtop, stack[1..])
  }

  /** A bucket as bindings. */
  function Listed<V>(b: Binders<V>): seq<Binding<V>> {
    if b.Nil? then [] else [Binding(b.key, b.value)] + Listed(b.next)
  }

  /** The bindings of one bucket, newest first. */
  function Hashed<V>(stack: seq<Binding<V>>, i: nat): seq<Binding<V>> {
    if stack == [] then []
    else if Index(stack[0].key) == i then [stack[0]] + Hashed(stack[1..], i)
    else Hashed(stack[1..], i)
  }

  lemma {:induction false} BucketHolds<V>(buckets: seq<Binders<V>>, top: nat, stack: seq<Binding<V>>, i: nat)
    requires |buckets| == TABSIZE && Threads(buckets, top, stack) && i < TABSIZE
    ensures Listed(buckets[i]) == Hashed(stack, i)
    decreases |stack|
  {
    if stack != [] {
      var b := buckets[Index(top)];
      BucketHolds(buckets[Index(top) := b.next], b.prevtop, stack[1..], i);
    }
  }

  lemma {:induction false} FindHashed<V>(stack: seq<Binding<V>>, k: Key)
    ensures Find(Hashed(stack, Index(k)), k) == Find(stack, k)
  {
    if stack != [] {
      FindHashed(stack[1..], k);
      if Index(stack[0].key) == Index(k) {
        var rest := Hashed(stack[1..], Index(k));
        assert ([stack[0]] + rest)[1..] == rest;
      }
    }
  }

  /** The stack can be read back from the table: two stacks threaded by one table are the same. */
  lemma {:induction false} ThreadsUnique<V>(buckets: seq<Binders<V>>, top: nat, s: seq<Binding<V>>, t: seq<Binding<V>>)
    requires |buckets| == TABSIZE && Threads(buckets, top, s) && Threads(buckets, top, t)
    ensures s == t
    decreases |s|
  {
    if s != [] && t != [] {
      var b := buckets[Index(top)];
      ThreadsUnique(buckets[Index(top) := b.next], b.prevtop, s[1..], t[1..]);
      assert s == [s[0]] + s[1..] && t == [t[0]] + t[1..];
    }
  }

  lemma EnterThreads<V>(buckets: seq<Binders<V>>, top: nat, stack: seq<Binding<V>>, k: Key, v: Option<V>)
    requires |buckets| == TABSIZE && Threads(buckets, top, stack)
    ensures Threads(buckets[Index(k) := Binder(k, v, buckets[Index(k)], top)], k, [Binding(k, v)] + stack)
  {
    var after := buckets[Index(k) := Binder(k, v, buckets[Index(k)], top)];
    assert after[Index(k) := buckets[Index(k)]] == buckets;
    assert ([Binding(k, v)] + stack)[1..] == stack;
  }

  /** Where the newest mark is, |stack| when there is none. */
  function MarkAt<V>(stack: seq<Binding<V>>): (n: nat)
    ensures n <= |stack| && (n < |stack| ==> stack[n].key == MARK)
    ensures forall i | 0 <= i < n :: stack[i].key != MARK
  {
    if stack == [] || stack[0].key == MARK then 0 else 1 + MarkAt(stack[1..])
  }

  class Tab<V> {
    const table: array<Binders<V>>
    var top: nat
    /** All bindings, newest first. */
    ghost var stack: seq<Binding<V>>

    ghost predicate Valid()
      reads this, table
    {
      table.Length == TABSIZE && Threads(table[..], top, stack)
    }

    constructor ()
      ensures Valid() && fresh(table) && stack == []
    {
      table := new Binders<V>[TABSIZE](i => Nil);
      top := NULL;
      stack := [];
    }

    method Enter(key: Key, value: Option<V>)
      requires Valid()
      modifies this, table
      ensures Valid() && stack == [Binding(key, value)] + old(stack)
    {
      var index := Index(key);
      EnterThreads(table[..], top, stack, key, value);
      hide Threads;
      table[index] := Binder(key, value, table[index], top);
      top := key;
      stack := [Binding(key, value)] + stack;
    }

    /** The newest binding of the key. */
    method Look(key: Key) returns (value: Option<V>)
      requires Valid()
      ensures value == Find(stack, key)
    {
      var index := Index(key);
      BucketHolds(table[..], top, stack, index);
      FindHashed(stack, key);
      hide Threads;
      var b := table[index];
      while b.Binder?
        invariant Find(Listed(b), key) == Find(stack, key)
        decreases b
      {
        if b.key == key {
          return b.value;
        }
        assert Listed(b)[1..] == Listed(b.next);
        b := b.next;
      }
      value := None;
    }

    /** Undoes the newest Enter, whatever its key. */
    method Pop() returns (key: Key)
      requires Valid() && stack != []
      modifies this, table
      ensures Valid() && key == old(stack)[0].key && stack == old(stack)[1..]
    {
      var k := top;
      var index := Index(k);
      var b := table[index];
      ghost var was := table[..];
      table[index] := b.next;
      top := b.prevtop;
      stack := stack[1..];
      assert table[..] == was[index := b.next];
      key := b.key;
    }

    /** Visits the whole stack, newest first, and puts the table back as it was. */
    method Dump() returns (shown: seq<Binding<V>>)
      requires Valid()
      modifies this, table
      ensures Valid() && shown == stack == old(stack)
      ensures table[..] == old(table[..]) && top == old(top)
      decreases |stack|
    {
      var k := top;
      var index := Index(k);
      var b := table[index];
      if b.Nil? {
        return [];
      }
      ghost var was, whole := table[..], stack;
      table[index] := b.next;
      top := b.prevtop;
      stack := stack[1..];
      ghost var rest := table[..];
      assert rest == was[index := b.next];
      shown := Dump();
      assert top == b.prevtop && table[index] == b.next;
      shown := [Binding(b.key, b.value)] + shown;
      top := k;
      table[index] := b;
      stack := whole;
      assert table[..] == rest[index := b] == was;
    }

    // ---------- scopes (symbol.c) ----------

    method BeginScope()
      requires Valid()
      modifies this, table
      ensures Valid() && stack == [Binding(MARK, None)] + old(stack)
    {
      Enter(MARK, None);
    }

    /** Pops to the newest mark: what was entered since the matching BeginScope is gone. */
    method EndScope()
      requires Valid() && MarkAt(stack) < |stack|
      modifies this, table
      ensures Valid() && stack == old(stack)[MarkAt(old(stack)) + 1..]
    {
      hide Threads;
      ghost var s0, n := stack, MarkAt(stack);
      var s := Pop();
      ghost var i := 0;
      while s != MARK
        invariant Valid() && i <= n && s == s0[i].key && stack == s0[i + 1..]
        decreases n - i
      {
        s := Pop();
        i := i + 1;
      }
    }
  }
}
