/** The bytes of a directory as a map from names to inode numbers. */
module Directory {

  import opened Bytes
  import opened Namespace

  datatype DirEnt = DirEnt(name: seq<byte>, inum: u32)

  /** What the tools hand to the file system: 1 to 59 bytes, none of them NUL. */
  predicate IsName(n: seq<byte>) {
    1 <= |n| < MAXFILENAMELEN && 0 !in n
  }

  function Zeros(n: nat): (z: seq<byte>)
    ensures |z| == n
  {
    seq(n, i => 0)
  }

  function Pad(name: seq<byte>): (p: seq<byte>)
    requires |name| <= MAXFILENAMELEN
    ensures |p| == MAXFILENAMELEN
  {
    name + Zeros(MAXFILENAMELEN - |name|)
  }

  /** The C string at the start of a buffer: everything before the first NUL. */
  function CStr(b: seq<byte>): (s: seq<byte>)
    ensures |s| <= |b| && b[..|s|] == s && 0 !in s
    ensures |s| < |b| ==> b[|s|] == 0
  {
    if b == [] || b[0] == 0 then [] else [b[0]] + CStr(b[1..])
  }

  /** A C string is determined by where the first NUL is. */
  lemma {:induction false} CStrIs(b: seq<byte>, s: seq<byte>)
    requires |s| <= |b| && b[..|s|] == s && 0 !in s
    requires |s| < |b| ==> b[|s|] == 0
    ensures CStr(b) == s
  {
    if s != [] {
      assert b[0] == s[0] && s[0] in s;
      CStrIs(b[1..], s[1..]);
    }
  }

  function Slice(data: seq<byte>, k: nat): (e: seq<byte>)
    requires (k + 1) * MAXDIRENTRYLEN <= |data|
    ensures |e| == MAXDIRENTRYLEN
  {
    data[k * MAXDIRENTRYLEN..(k + 1) * MAXDIRENTRYLEN]
  }

  function EncodeEnt(e: DirEnt): (b: seq<byte>)
    requires |e.name| <= MAXFILENAMELEN
    ensures |b| == MAXDIRENTRYLEN
  {
    Pad(e.name) + Le32(e.inum)
  }

  function DecodeEnt(b: seq<byte>): DirEnt
    requires |b| == MAXDIRENTRYLEN
  {
    DirEnt(CStr(b[..MAXFILENAMELEN]), FromLe32(b[MAXFILENAMELEN..]))
  }

  /** A record is the name, zeros up to byte 60, and the number with its lowest byte first. */
  lemma EntLayout(e: DirEnt)
    requires |e.name| <= 60
    ensures var b := EncodeEnt(e);
      && |b| == 64 && b[..|e.name|] == e.name && (forall k | |e.name| <= k < 60 :: b[k] == 0)
      && b[60] as int + 0x100 * b[61] as int + 0x1_0000 * b[62] as int + 0x100_0000 * b[63] as int == e.inum
  {
    WordPlaces(e.inum);
    hide Le32;
  }

  predicate GoodEnt(b: seq<byte>)
    requires |b| == MAXDIRENTRYLEN
  {
    var n := CStr(b[..MAXFILENAMELEN]);
    IsName(n) && b[..MAXFILENAMELEN] == Pad(n)
  }

  lemma EntRoundTrip(e: DirEnt)
    requires IsName(e.name)
    ensures GoodEnt(EncodeEnt(e)) && DecodeEnt(EncodeEnt(e)) == e
  {
    var b := EncodeEnt(e);
    assert b[..MAXFILENAMELEN] == Pad(e.name) && b[MAXFILENAMELEN..] == Le32(e.inum);
    CStrIs(Pad(e.name), e.name);
    FromTo32(e.inum);
  }

  lemma EntBytes(b: seq<byte>)
    requires |b| == MAXDIRENTRYLEN && GoodEnt(b)
    ensures EncodeEnt(DecodeEnt(b)) == b
  {
    ToFrom32(b[MAXFILENAMELEN..]);
    assert b == b[..MAXFILENAMELEN] + b[MAXFILENAMELEN..];
  }

  /** The entries of a directory in disk order. */
  function Entries(data: seq<byte>): (es: seq<DirEnt>)
    ensures |es| == |data| / MAXDIRENTRYLEN
  {
    seq(|data| / MAXDIRENTRYLEN, k requires 0 <= k < |data| / MAXDIRENTRYLEN => DecodeEnt(Slice(data, k)))
  }

  ghost predicate Unique(es: seq<DirEnt>) {
    forall k, l :: 0 <= k < l < |es| ==> es[k].name != es[l].name
  }

  predicate GoodEnts(data: seq<byte>) {
    && |data| % MAXDIRENTRYLEN == 0
    && forall k: nat | k < |data| / MAXDIRENTRYLEN :: GoodEnt(Slice(data, k))
  }

  /** Whole entries, each a padded name and a number, no name twice. */
  ghost predicate GoodDir(data: seq<byte>) {
    GoodEnts(data) && Unique(Entries(data))
  }

  ghost function NamesOf(es: seq<DirEnt>): set<seq<byte>> {
    set k | 0 <= k < |es| :: es[k].name
  }

  ghost function MapOf(es: seq<DirEnt>): (m: map<seq<byte>, u32>)
    ensures m.Keys == NamesOf(es)
  {
    if es == [] then map[] else MapOf(es[..|es| - 1])[es[|es| - 1].name := es[|es| - 1].inum]
  }

  /** The abstraction: a directory is a map from names to inode numbers. */
  ghost function DirMap(data: seq<byte>): map<seq<byte>, u32> {
    MapOf(Entries(data))
  }

  lemma {:induction false} MapOfAt(es: seq<DirEnt>, k: nat)
    requires Unique(es) && k < |es|
    ensures es[k].name in MapOf(es) && MapOf(es)[es[k].name] == es[k].inum
  {
    if k < |es| - 1 {
      MapOfAt(es[..|es| - 1], k);
    }
  }

  lemma UniqueWithout(es: seq<DirEnt>, k: nat)
    requires Unique(es) && k < |es|
    ensures Unique(Without(es, k))
  {
    WithoutIndex(es, k);
  }

  lemma PutLess<K, V>(m: map<K, V>, a: K, v: V, b: K)
    ensures a != b ==> (m - {b})[a := v] == m[a := v] - {b}
    ensures a !in m ==> m[a := v] - {a} == m
  {
  }

  /** Dropping one entry deletes exactly its name. */
  lemma {:induction false} MapOfWithout(es: seq<DirEnt>, k: nat)
    requires Unique(es) && k < |es|
    ensures Unique(Without(es, k))
    ensures MapOf(Without(es, k)) == MapOf(es) - {es[k].name}
  {
    UniqueWithout(es, k);
    var t, last := es[..|es| - 1], es[|es| - 1];
    assert es == t + [last] && Unique(t);
    LastNameNew(t, last);
    hide MapOf, Without, Unique;
    MapOfSnoc(t, last);
    PutLess(MapOf(t), last.name, last.inum, es[k].name);
    if k == |es| - 1 {
      WithoutLast(t, last);
    } else {
      MapOfWithout(t, k);
      WithoutSnoc(t, last, k);
      MapOfSnoc(Without(t, k), last);
      OtherName(es, k);
    }
  }

  lemma LastNameNew(t: seq<DirEnt>, last: DirEnt)
    requires Unique(t + [last])
    ensures last.name !in MapOf(t)
  {
    forall k | 0 <= k < |t|
      ensures t[k].name != last.name
    {
      assert (t + [last])[k] == t[k] && (t + [last])[|t|] == last;
    }
  }

  lemma WithoutLast<T>(t: seq<T>, x: T)
    ensures Without(t + [x], |t|) == t
  {
  }

  lemma OtherName(es: seq<DirEnt>, k: nat)
    requires Unique(es) && k + 1 < |es|
    ensures es[|es| - 1].name != es[k].name
  {
  }

  // ---------- appending and erasing an entry ----------

  lemma SliceAppend(data: seq<byte>, e: seq<byte>, k: nat)
    requires |data| % MAXDIRENTRYLEN == 0 && |e| == MAXDIRENTRYLEN && k <= |data| / MAXDIRENTRYLEN
    ensures Slice(data + e, k) == if k == |data| / MAXDIRENTRYLEN then e else Slice(data, k)
  {
  }

  lemma AppendEnts(data: seq<byte>, e: DirEnt)
    requires GoodEnts(data) && IsName(e.name)
    ensures GoodEnts(data + EncodeEnt(e))
    ensures Entries(data + EncodeEnt(e)) == Entries(data) + [e]
  {
    EntRoundTrip(e);
    var d, b, n := data + EncodeEnt(e), EncodeEnt(e), |data| / MAXDIRENTRYLEN;
    hide CStr, GoodEnt, DecodeEnt, EncodeEnt, IsName;
    forall k: nat | k <= n
      ensures GoodEnt(Slice(d, k)) && DecodeEnt(Slice(d, k)) == (Entries(data) + [e])[k]
    {
      SliceAppend(data, b, k);
    }
  }

  /** Appending an entry with a new name inserts into the map. */
  lemma Append(data: seq<byte>, e: DirEnt)
    requires GoodDir(data) && IsName(e.name)
    ensures Entries(data + EncodeEnt(e)) == Entries(data) + [e]
    ensures DirMap(data + EncodeEnt(e)) == DirMap(data)[e.name := e.inum]
    ensures e.name !in DirMap(data) ==> GoodDir(data + EncodeEnt(e))
  {
    hide GoodEnts, Entries, EncodeEnt, MapOf, IsName;
    AppendEnts(data, e);
    MapOfSnoc(Entries(data), e);
  }

  lemma MapOfSnoc(es: seq<DirEnt>, e: DirEnt)
    ensures MapOf(es + [e]) == MapOf(es)[e.name := e.inum]
    ensures Unique(es) && e.name !in MapOf(es) ==> Unique(es + [e])
  {
    assert (es + [e])[..|es|] == es;
    assert forall k | 0 <= k < |es| :: es[k].name in NamesOf(es);
  }

  function Erase(data: seq<byte>, k: nat): seq<byte>
    requires (k + 1) * MAXDIRENTRYLEN <= |data|
  {
    data[..k * MAXDIRENTRYLEN] + data[(k + 1) * MAXDIRENTRYLEN..]
  }

  lemma SliceErase(data: seq<byte>, k: nat, l: nat)
    requires (k + 1) * MAXDIRENTRYLEN <= |data| && (l + 2) * MAXDIRENTRYLEN <= |data|
    ensures Slice(Erase(data, k), l) == Slice(data, if l < k then l else l + 1)
  {
  }

  lemma ErasedEnts(data: seq<byte>, k: nat)
    requires GoodEnts(data) && k < |data| / MAXDIRENTRYLEN
    ensures GoodEnts(Erase(data, k))
    ensures Entries(Erase(data, k)) == Without(Entries(data), k)
  {
    hide CStr, GoodEnt, DecodeEnt;
    var d := Erase(data, k);
    forall l: nat | l < |d| / MAXDIRENTRYLEN
      ensures GoodEnt(Slice(d, l)) && DecodeEnt(Slice(d, l)) == Without(Entries(data), k)[l]
    {
      SliceErase(data, k, l);
    }
  }

  /** Erasing an entry deletes its name from the map. */
  lemma Erased(data: seq<byte>, k: nat)
    requires GoodDir(data) && k < |data| / MAXDIRENTRYLEN
    ensures GoodDir(Erase(data, k))
    ensures Entries(Erase(data, k)) == Without(Entries(data), k)
    ensures DirMap(Erase(data, k)) == DirMap(data) - {Entries(data)[k].name}
  {
    ErasedEnts(data, k);
    hide GoodEnts, Entries, Erase;
    MapOfWithout(Entries(data), k);
  }

  /** Cutting off the 64 bytes just appended leaves the others. */
  lemma AppendErase(data: seq<byte>, e: DirEnt)
    requires |data| % MAXDIRENTRYLEN == 0 && |e.name| <= MAXFILENAMELEN
    ensures Erase(data + EncodeEnt(e), |data| / MAXDIRENTRYLEN) == data
  {
  }

  /** The inode numbers of a directory, in the two ways they are read. */
  lemma SubsAreEntries(data: seq<byte>)
    ensures |Subs(data)| == |Entries(data)|
    ensures forall k | 0 <= k < |Subs(data)| :: Subs(data)[k] == Entries(data)[k].inum
  {
    forall k: nat | k < |data| / MAXDIRENTRYLEN
      ensures EntryInum(data, k) == DecodeEnt(Slice(data, k)).inum
    {
      assert Slice(data, k)[MAXFILENAMELEN..]
          == data[k * MAXDIRENTRYLEN + MAXFILENAMELEN..(k + 1) * MAXDIRENTRYLEN];
    }
  }
}
