/** Interning of names as symbols (Compiler/lab4/symbol.c). */
module Symbols {

  import opened Bytes
  import opened TigerTable
  import opened Wrappers

  const SIZE: nat := 109

  /** Symbols of one bucket; a symbol is its address. */
  datatype Chain = Nil | Symbol(addr: nat, name: seq<byte>, next: Chain)

  /** Characters are signed. */
  function Signed(c: byte): int {
    if c < 128 then c as int else c as int - 256
  }

  /** The hash of a name in 32-bit unsigned arithmetic. */
  function Hash(name: seq<byte>): u32 {
    if name == [] then 0
    else (Hash(name[..|name| - 1]) as int * 65599 + Signed(name[|name| - 1])) % 0x1_0000_0000
  }

  /** One more character; with the empty name this determines the hash. */
  lemma HashExtends(name: seq<byte>, c: byte)
    ensures Hash([]) == 0
    ensures Hash(name + [c])
         == (Hash(name) as int * 65599 + if c < 128 then c as int else c as int - 256) % 0x1_0000_0000
  {
    assert (name + [c])[..|name|] == name;
  }

  function Bucket(name: seq<byte>): (i: nat)
    ensures i < SIZE
  {
    Hash(name) % SIZE
  }

  function Search(c: Chain, name: seq<byte>): Option<nat> {
    if c.Nil? then None else if c.name == name then Some(c.addr) else Search(c.next, name)
  }

  /** The table finds exactly the interned names, at addresses that tell them apart. */
  ghost predicate Interned(buckets: seq<Chain>, names: map<seq<byte>, nat>, brk: nat)
    requires |buckets| == SIZE
  {
    && brk > MARK
    && (forall n :: Search(buckets[Bucket(n)], n) == if n in names then Some(names[n]) else None)
    && (forall n | n in names :: MARK < names[n] < brk)
    && (forall n, m | n in names && m in names && names[n] == names[m] :: n == m)
  }

  class SymbolTable {
    const hashtable: array<Chain>
    /** Addresses below are in use. */
    var brk: nat
    /** The symbol of every name interned so far. */
    ghost var names: map<seq<byte>, nat>

    ghost predicate Valid()
      reads this, hashtable
    {
      hashtable.Length == SIZE && Interned(hashtable[..], names, brk)
    }

    constructor ()
      ensures Valid() && fresh(hashtable) && names == map[]
    {
      hashtable := new Chain[SIZE](i => Chain.Nil);
      brk, names := MARK + 1, map[];
    }

    static method HashOf(name: seq<byte>) returns (h: u32)
      ensures h == Hash(name)
    {
      h := 0;
      for i := 0 to |name|
        invariant h == Hash(name[..i])
      {
        assert name[..i + 1][..i] == name[..i];
        h := (h as int * 65599 + Signed(name[i])) % 0x1_0000_0000;
      }
      assert name[..|name|] == name;
    }

    /** Two calls give the same symbol exactly when the names are equal; symbols never change. */
    method Intern(name: seq<byte>) returns (sym: nat)
      requires Valid()
      modifies this, hashtable
      ensures Valid() && sym > MARK
      ensures name in old(names) ==> names == old(names)
      ensures name !in old(names) ==> names == old(names)[name := sym]
      ensures name in names && names[name] == sym
      ensures forall m | m in names && names[m] == sym :: m == name
    {
      var hash := HashOf(name);
      var index := hash % SIZE;
      var syms := hashtable[index];
      var cursor := syms;
      while cursor.Symbol?
        invariant Search(cursor, name) == Search(syms, name)
        decreases cursor
      {
        if cursor.name == name {
          return cursor.addr;
        }
        cursor := cursor.next;
      }
      AddSymbol(hashtable[..], names, brk, name);
      sym := brk;
      brk := brk + 1;
      hashtable[index] := Symbol(sym, name, syms);
      names := names[name := sym];
    }
  }

  lemma AddSymbol(buckets: seq<Chain>, names: map<seq<byte>, nat>, brk: nat, name: seq<byte>)
    requires |buckets| == SIZE && Interned(buckets, names, brk) && name !in names
    ensures var i := Bucket(name);
      Interned(buckets[i := Symbol(brk, name, buckets[i])], names[name := brk], brk + 1)
  {
    hide Hash;
  }
}
