/** Bytes and 32-bit words as the disk and the wire store them (little endian). */
module Bytes {

  type byte = x: int | 0 <= x < 256
  type u32 = x: int | 0 <= x < 0x1_0000_0000

  /** The four bytes of a 32-bit word, least significant first. */
  function Le32(n: u32): (b: seq<byte>)
    ensures |b| == 4
  {
    [n % 256, n / 256 % 256, n / 65536 % 256, n / 16777216]
  }

  function FromLe32(b: seq<byte>): u32
    requires |b| == 4
  {
    b[0] as int + 256 * b[1] as int + 65536 * b[2] as int + 16777216 * b[3] as int
  }

  lemma FromTo32(n: u32)
    ensures FromLe32(Le32(n)) == n
  {
    var q := n / 256;
    assert n / 65536 == q / 256 && n / 16777216 == q / 65536;
  }

  lemma ToFrom32(b: seq<byte>)
    requires |b| == 4
    ensures Le32(FromLe32(b)) == b
  {
    var n: int, b1: int, b2: int, b3: int := FromLe32(b), b[1], b[2], b[3];
    assert n / 256 == b1 + 256 * b2 + 65536 * b3;
    assert n / 65536 == b2 + 256 * b3;
    assert n / 16777216 == b3;
  }

  /** The place values of the bytes of a word, lowest first. */
  lemma WordPlaces(n: u32)
    ensures var b := Le32(n);
      b[0] as int + 0x100 * b[1] as int + 0x1_0000 * b[2] as int + 0x100_0000 * b[3] as int == n
  {
    FromTo32(n);
  }

  function PutWords(ws: seq<u32>): (b: seq<byte>)
    ensures |b| == 4 * |ws|
  {
    if ws == [] then [] else Le32(ws[0]) + PutWords(ws[1..])
  }

  function GetWords(b: seq<byte>): (ws: seq<u32>)
    requires |b| % 4 == 0
    ensures |ws| == |b| / 4
  {
    if b == [] then [] else [FromLe32(b[..4])] + GetWords(b[4..])
  }

  /** A word array survives being stored as bytes. */
  lemma {:induction false} GetPutWords(ws: seq<u32>)
    ensures GetWords(PutWords(ws)) == ws
  {
    if ws != [] {
      FromTo32(ws[0]);
      GetPutWords(ws[1..]);
      var b := PutWords(ws);
      assert b[..4] == Le32(ws[0]) && b[4..] == PutWords(ws[1..]);
    }
  }

  /** Word `k` of an array is in the bytes from 4k on. */
  lemma {:induction false} WordAt(ws: seq<u32>, k: nat)
    requires k < |ws|
    ensures var b := PutWords(ws);
      b[4 * k] as int + 0x100 * b[4 * k + 1] as int + 0x1_0000 * b[4 * k + 2] as int + 0x100_0000 * b[4 * k + 3] as int
      == ws[k]
  {
    if k == 0 {
      WordPlaces(ws[0]);
    } else {
      WordAt(ws[1..], k - 1);
    }
    hide Le32;
  }

  function Elems<T>(s: seq<T>): set<T> {
    set x | x in s
  }

  ghost predicate NoDup<T>(s: seq<T>) {
    forall i, j :: 0 <= i < j < |s| ==> s[i] != s[j]
  }

  lemma NoDupConcat<T>(a: seq<T>, b: seq<T>)
    requires NoDup(a) && NoDup(b) && Elems(a) !! Elems(b)
    ensures NoDup(a + b)
    ensures Elems(a + b) == Elems(a) + Elems(b)
  {
    forall i, j | 0 <= i < j < |a + b|
      ensures (a + b)[i] != (a + b)[j]
    {
      if i < |a| <= j {
        assert a[i] in Elems(a) && b[j - |a|] in Elems(b);
      }
    }
  }

  lemma NoDupSplit<T>(a: seq<T>, b: seq<T>)
    requires NoDup(a + b)
    ensures NoDup(a) && NoDup(b) && Elems(a) !! Elems(b)
    ensures Elems(a + b) == Elems(a) + Elems(b)
  {
    forall i, j | 0 <= i < |a| && 0 <= j < |b|
      ensures a[i] != b[j]
    {
      assert (a + b)[i] != (a + b)[|a| + j];
    }
    assert NoDup(a) by {
      assert (a + b)[..|a|] == a;
    }
    forall i, j | 0 <= i < j < |b|
      ensures b[i] != b[j]
    {
      assert (a + b)[|a| + i] != (a + b)[|a| + j];
    }
  }

  /** A duplicate-free sequence is as long as its set of elements. */
  lemma {:induction false} NoDupSize<T>(s: seq<T>)
    requires NoDup(s)
    ensures |Elems(s)| == |s|
  {
    if s != [] {
      var t := s[..|s| - 1];
      NoDupSize(t);
      assert Elems(s) == Elems(t) + {s[|s| - 1]};
      assert s[|s| - 1] !in Elems(t);
    }
  }

  lemma SpliceSet<T>(a: seq<T>, g: seq<T>, c: seq<T>, x: T)
    requires c != []
    ensures (a + g + c)[|a| + |g| := x] == a + (g + [x]) + c[1..]
  {
  }

  lemma SpliceParts<T>(a: seq<T>, g: seq<T>, c: seq<T>)
    ensures var s := a + g + c;
      s[..|a|] == a && s[|a|..|a| + |g|] == g && s[|a| + |g|..] == c
  {
  }

  /** `s` with its element at `k` removed. */
  function Without<T>(s: seq<T>, k: nat): seq<T>
    requires k < |s|
  {
    s[..k] + s[k + 1..]
  }

  lemma WithoutIndex<T>(s: seq<T>, k: nat)
    requires k < |s|
    ensures |Without(s, k)| == |s| - 1
    ensures forall l | 0 <= l < k :: Without(s, k)[l] == s[l]
    ensures forall l | k <= l < |s| - 1 :: Without(s, k)[l] == s[l + 1]
  {
  }

  lemma WithoutSnoc<T>(t: seq<T>, x: T, k: nat)
    requires k < |t|
    ensures Without(t + [x], k) == Without(t, k) + [x]
    ensures (Without(t, k) + [x])[..|t| - 1] == Without(t, k)
  {
    assert (t + [x])[..k] == t[..k] && (t + [x])[k + 1..] == t[k + 1..] + [x];
  }

  /** Distinct numbers from a range are at most as many as the range is long. */
  lemma {:induction false} DistinctBetween(s: seq<u32>, lo: nat, hi: nat)
    requires lo <= hi && NoDup(s) && forall k | 0 <= k < |s| :: lo <= s[k] < hi
    ensures |s| <= hi - lo
    decreases hi
  {
    if s == [] {
      return;
    }
    assert lo <= s[0] < hi;
    if exists k :: 0 <= k < |s| && s[k] == hi - 1 {
      var k :| 0 <= k < |s| && s[k] == hi - 1;
      WithoutIndex(s, k);
      DistinctBetween(Without(s, k), lo, hi - 1);
    } else {
      DistinctBetween(s, lo, hi - 1);
    }
  }
}
