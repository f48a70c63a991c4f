/** Reading and writing at an offset of a file's bytes (CSE/cselab1backup/yfs_client.cc, read and write). */
module FileBytes {

  import opened Bytes
  import opened InodeImage
  import opened Directory

  function Min(a: int, b: int): int {
    if a < b then a else b
  }

  function Max(a: int, b: int): int {
    if a < b then b else a
  }

  /** std::string::substr with a valid start: at most `n` bytes. */
  function Substr(s: seq<byte>, from: nat, n: nat): seq<byte>
    requires from <= |s|
  {
    s[from..Min(from + n, |s|)]
  }

  /** The part of the data that still fits below the largest file size. */
  function Fitting(off: nat, data: seq<byte>): (d: seq<byte>)
    ensures d <= data && |d| == Max(0, Min(|data|, 81920 - off))
  {
    if off >= MAX_BYTES then [] else data[..Min(|data|, MAX_BYTES - off)]
  }

  /** File length after writing `data` at `off`. */
  function LengthAfter(before: seq<byte>, off: nat, data: seq<byte>): nat {
    if off < MAX_BYTES then Max(|before|, off + |Fitting(off, data)|) else MAX_BYTES
  }

  /**
   * The law of write: the data inside its range, zeros in the hole between the
   * old end and the offset, the old bytes everywhere else.
   */
  ghost predicate IsWrite(before: seq<byte>, off: nat, data: seq<byte>, after: seq<byte>) {
    && |after| == LengthAfter(before, off, data)
    && forall k: nat | k < |after| ::
         after[k] == if off <= k < off + |Fitting(off, data)| then Fitting(off, data)[k - off]
                    else if k < |before| then before[k]
                    else 0
  }

  /** The law determines the bytes. */
  lemma WriteUnique(before: seq<byte>, off: nat, data: seq<byte>, a: seq<byte>, b: seq<byte>)
    requires IsWrite(before, off, data, a) && IsWrite(before, off, data, b)
    ensures a == b
  {
  }

  /** The law of read: the bytes from the offset on, as many as asked for or as there are. */
  ghost predicate IsRead(s: seq<byte>, off: nat, size: nat, r: seq<byte>) {
    && |r| == (if off >= |s| then 0 else if size <= |s| - off then size else |s| - off)
    && forall k: nat | k < |r| :: r[k] == s[off + k]
  }

  /** What read returns. */
  function ReadAt(s: seq<byte>, off: nat, size: nat): (r: seq<byte>)
    ensures IsRead(s, off, size, r)
  {
    if off >= |s| then [] else Substr(s, off, size)
  }

  /** Reading a range that was just written gives back the bytes that fitted. */
  lemma ReadAfterWrite(before: seq<byte>, off: nat, data: seq<byte>, after: seq<byte>)
    requires |before| <= MAX_BYTES && IsWrite(before, off, data, after)
    ensures |after| <= MAX_BYTES
    ensures ReadAt(after, off, |Fitting(off, data)|) == Fitting(off, data)
    ensures off + |data| <= MAX_BYTES ==> ReadAt(after, off, |data|) == data
  {
    var d := Fitting(off, data);
    if d != [] {
      forall k | 0 <= k < |d|
        ensures ReadAt(after, off, |d|)[k] == d[k]
      {
        assert after[off + k] == d[k];
      }
    }
  }

  /** Where the file ends after a write: its old end or that of the data, but no later than the largest file. */
  function EndAfter(before: seq<byte>, off: nat, data: seq<byte>): nat {
    if off >= 81920 then 81920 else Max(|before|, Min(off + |data|, 81920))
  }

  /** Reading a range that does not meet the written one gives what was there, zeros past the old end. */
  lemma ReadElsewhere(before: seq<byte>, off: nat, data: seq<byte>, after: seq<byte>, at: nat, size: nat)
    requires IsWrite(before, off, data, after)
    requires at + size <= off || off + |Fitting(off, data)| <= at
    ensures |ReadAt(after, at, size)| == Max(0, Min(size, EndAfter(before, off, data) - at))
    ensures forall k: nat | k < |ReadAt(after, at, size)| ::
              ReadAt(after, at, size)[k] == if at + k < |before| then before[at + k] else 0
  {
    forall k: nat | k < |ReadAt(after, at, size)|
      ensures ReadAt(after, at, size)[k] == if at + k < |before| then before[at + k] else 0
    {
      assert ReadAt(after, at, size)[k] == after[at + k];
    }
  }

  /** The byte count reported by write. */
  function Reported(before: seq<byte>, off: nat, data: seq<byte>): int {
    if off < MAX_BYTES then
      if off > |before| then off + |Fitting(off, data)| - |before| else |Fitting(off, data)|
    else
      MAX_BYTES - |before|
  }

  /** The count is that of the data stored exactly when no hole had to be filled; otherwise it counts the hole too. */
  lemma ReportedExact(before: seq<byte>, off: nat, data: seq<byte>)
    requires |before| <= MAX_BYTES
    ensures Reported(before, off, data) == |Fitting(off, data)| <==> off <= |before| || |before| == MAX_BYTES
    ensures Reported(before, off, data) == |Fitting(off, data)| + Max(0, Min(off, MAX_BYTES) - |before|)
  {
  }

  /** One byte written one past the start of an empty file is reported as two. */
  lemma HoleReported()
    ensures Reported([], 1, [7]) == 2 && |Fitting(1, [7])| == 1
  {
    assert MAX_BYTES > 2;
    assert Fitting(1, [7]) == [7];
  }
}
