/** Length-delimited frames (CSE/lab/hrpc.h); lengths are "Base 128 Varints" of the Protocol Buffers encoding. */
module Hrpc {

  import opened Bytes
  import opened Wrappers

  /** A serialised message; its size is a C int. */
  type Message = m: seq<byte> | |m| < 0x8000_0000 witness []

  function Pow2(k: nat): (p: nat)
    ensures p > 0
  {
    if k == 0 then 1 else 2 * Pow2(k - 1)
  }

  /** The place values of the bytes of a varint. */
  lemma Places(i: nat)
    requires i <= 4
    ensures Pow2(7 * i) == if i == 0 then 1 else if i == 1 then 128 else if i == 2 then 16384
                           else if i == 3 then 2097152 else 268435456
  {
    assert Pow2(7) == 128 && Pow2(14) == 16384 && Pow2(21) == 2097152 && Pow2(28) == 268435456;
    assert i == 0 || i == 1 || i == 2 || i == 3 || i == 4;
  }

  // ---------- varints ----------

  /** Seven bits a byte, least significant first; all bytes but the last have the top bit set. */
  function Varint(n: nat): (b: seq<byte>)
    ensures b != [] && b[|b| - 1] < 128 && forall k | 0 <= k < |b| - 1 :: b[k] >= 128
  {
    if n < 128 then [n] else [n % 128 + 128] + Varint(n / 128)
  }

  lemma DivideUnique(n: nat, d: nat, a: nat, t: nat)
    requires n == a * d + t && t < d
    ensures n / d == a
  {
    var q, r := n / d, n % d;
    assert n == q * d + r;
    assert (q - a) * d == t - r;
    AtLeastOnce(q - a, d);
  }

  lemma AtLeastOnce(x: int, d: nat)
    ensures x >= 1 ==> x * d >= d
    ensures x <= -1 ==> x * d + d <= 0
  {
  }

  lemma DivideTwice(n: nat, p: nat)
    requires p > 0
    ensures n / 128 / p == n / (128 * p)
  {
    var q, r := n / 128, n % 128;
    var a, s := q / p, q % p;
    assert q == a * p + s;
    assert 128 * (a * p + s) == a * (128 * p) + 128 * s;
    assert n == a * (128 * p) + (128 * s + r);
    DivideUnique(n, 128 * p, a, 128 * s + r);
  }

  lemma SevenMore(k: nat)
    ensures Pow2(7 * (k + 1)) == 128 * Pow2(7 * k)
  {
    var i := 7 * k;
    assert Pow2(i + 1) == 2 * Pow2(i) && Pow2(i + 2) == 2 * Pow2(i + 1) && Pow2(i + 3) == 2 * Pow2(i + 2);
    assert Pow2(i + 4) == 2 * Pow2(i + 3) && Pow2(i + 5) == 2 * Pow2(i + 4) && Pow2(i + 6) == 2 * Pow2(i + 5);
    assert Pow2(i + 7) == 2 * Pow2(i + 6);
  }

  /** Byte `k` of a varint holds the bits of the number from 7k on, the last byte the highest that are set. */
  lemma {:induction false} VarintDigits(n: nat, k: nat)
    requires k < |Varint(n)|
    ensures Varint(n)[k] % 128 == n / Pow2(7 * k) % 128
    ensures k > 0 && k == |Varint(n)| - 1 ==> 0 < n / Pow2(7 * k) < 128
    ensures Varint(n)[k] >= 128 <==> k < |Varint(n)| - 1
    decreases n
  {
    hide Varint, Pow2;
    if k == 0 {
      FirstDigit(n);
    } else {
      LaterDigit(n, k);
      VarintDigits(n / 128, k - 1);
      FirstDigit(n / 128);
      SevenMore(k - 1);
      DivideTwice(n, Pow2(7 * (k - 1)));
    }
  }

  lemma FirstDigit(n: nat)
    ensures Pow2(0) == 1 && n / Pow2(0) == n
    ensures Varint(n)[0] % 128 == n % 128 && (Varint(n)[0] >= 128 <==> |Varint(n)| > 1)
    ensures |Varint(n)| == 1 <==> n < 128
  {
  }

  lemma LaterDigit(n: nat, k: nat)
    requires 0 < k < |Varint(n)|
    ensures n >= 128 && |Varint(n)| == |Varint(n / 128)| + 1 && Varint(n)[k] == Varint(n / 128)[k - 1]
  {
  }

  function Or(a: nat, b: nat): nat {
    if a == 0 then b
    else if b == 0 then a
    else (if a % 2 == 1 || b % 2 == 1 then 1 else 0) + 2 * Or(a / 2, b / 2)
  }

  /**
   * Seven bits shifted left as a 32-bit int and then widened to 64 bits unsigned,
   * which copies the sign. Shifts by 32 and more are undefined in C: `beyond` is
   * what they give.
   */
  function Shifted(c: nat, shift: nat, beyond: nat -> nat): nat {
    if shift < 32 then
      var x := c * Pow2(shift) % 0x1_0000_0000;
      if x < 0x8000_0000 then x else x + 0xFFFF_FFFF_0000_0000
    else beyond(shift)
  }

  /** The reader from `pos` on: the value and the position behind it. */
  function Scan(b: seq<byte>, pos: nat, shift: nat, res: nat, beyond: nat -> nat): Option<(nat, nat)>
    requires pos <= |b|
    decreases |b| - pos
  {
    if pos == |b| then None
    else
      var res' := Or(res, Shifted(b[pos] % 128, shift, beyond));
      if b[pos] >= 128 then Scan(b, pos + 1, shift + 7, res', beyond) else Some((res', pos + 1))
  }

  /** The reader fails exactly when no byte without the top bit is left. */
  lemma {:induction false} ScanFails(b: seq<byte>, pos: nat, shift: nat, res: nat, beyond: nat -> nat)
    requires pos <= |b|
    ensures Scan(b, pos, shift, res, beyond).None? <==> forall k | pos <= k < |b| :: b[k] >= 128
    decreases |b| - pos
  {
    if pos < |b| && b[pos] >= 128 {
      ScanFails(b, pos + 1, shift + 7, Or(res, Shifted(b[pos] % 128, shift, beyond)), beyond);
    }
  }

  method ReadVariant(b: seq<byte>, start: nat, beyond: nat -> nat) returns (ok: bool, v: nat, p: nat)
    requires start <= |b|
    ensures ok <==> exists k: nat :: start <= k < |b| && b[k] < 128
    ensures ok ==> Scan(b, start, 0, 0, beyond) == Some((v, p)) && p <= |b|
    ensures !ok ==> Scan(b, start, 0, 0, beyond) == None
  {
    var shift, res := 0, 0;
    p := start;
    ScanFails(b, start, 0, 0, beyond);
    while p != |b| && b[p] >= 128
      invariant start <= p <= |b|
      invariant Scan(b, p, shift, res, beyond) == Scan(b, start, 0, 0, beyond)
      decreases |b| - p
    {
      res := Or(res, Shifted(b[p] % 128, shift, beyond));
      shift := shift + 7;
      p := p + 1;
    }
    if p == |b| {
      return false, 0, p;
    }
    v := Or(res, Shifted(b[p] % 128, shift, beyond));
    p := p + 1;
    ok := true;
  }

  /** `c` with `k` zero bits behind it. */
  function Lifted(c: nat, k: nat): nat {
    if k == 0 then c else 2 * Lifted(c, k - 1)
  }

  lemma {:induction false} LiftedIs(c: nat, k: nat)
    ensures Lifted(c, k) == c * Pow2(k)
  {
    if k > 0 {
      LiftedIs(c, k - 1);
      TwiceInside(c, Pow2(k - 1));
    }
  }

  lemma TwiceInside(c: nat, p: nat)
    ensures c * (2 * p) == 2 * (c * p)
  {
  }

  lemma {:induction false} OrLifted(a: nat, c: nat, k: nat)
    requires a < Pow2(k)
    ensures Or(a, Lifted(c, k)) == a + Lifted(c, k)
  {
    if k > 0 && a != 0 && Lifted(c, k - 1) != 0 {
      OrLifted(a / 2, c, k - 1);
    }
  }

  /** Bits above `k` are added to a number below 2^k. */
  lemma OrDisjoint(a: nat, c: nat, k: nat)
    requires a < Pow2(k)
    ensures Or(a, c * Pow2(k)) == a + c * Pow2(k)
  {
    OrLifted(a, c, k);
    LiftedIs(c, k);
  }

  /** What the reader makes of a 32-bit length: from 2^31 on the sign of the last shift spoils it. */
  function AsRead(n: nat): nat {
    if n < 0x8000_0000 then n else n + 0xFFFF_FFFF_0000_0000
  }

  predicate HasAt(b: seq<byte>, pos: nat, s: seq<byte>) {
    pos + |s| <= |b| && b[pos..pos + |s|] == s
  }

  /** The value of `c` as byte number `i` of a varint. */
  function Place(c: nat, i: nat): nat {
    c * Pow2(7 * i)
  }

  /** One more byte of a varint of which `i` bytes, with value `res`, were read. */
  lemma ByteRead(c: nat, i: nat, res: nat, beyond: nat -> nat)
    requires i <= 4 && c < 128 && res < Pow2(7 * i) && Place(c, i) + res < 0x1_0000_0000
    ensures Or(res, Shifted(c, 7 * i, beyond)) == AsRead(Place(c, i) + res)
  {
    ByteShifted(c, i, beyond);
    if Place(c, i) < 0x8000_0000 {
      OrDisjoint(res, c, 7 * i);
      BelowSign(c, i, res);
    } else {
      HighByte(c, i);
      OrDisjoint(res, c + 0xF_FFFF_FFF0, 7 * i);
    }
  }

  lemma ByteShifted(c: nat, i: nat, beyond: nat -> nat)
    requires i <= 4 && Place(c, i) < 0x1_0000_0000
    ensures Shifted(c, 7 * i, beyond) == AsRead(Place(c, i))
  {
    hide Pow2;
  }

  /** Bits below a byte that leaves the sign bit clear leave it clear too. */
  lemma BelowSign(c: nat, i: nat, res: nat)
    requires i <= 4 && c < 128 && res < Pow2(7 * i) && Place(c, i) < 0x8000_0000
    ensures Place(c, i) + res < 0x8000_0000
  {
    Places(i);
    hide Pow2;
    if i == 4 {
      assert c * 268435456 < 0x8000_0000;
      assert c < 8;
    } else if i == 3 {
      assert Place(c, i) == c * 2097152;
    } else if i == 2 {
      assert Place(c, i) == c * 16384;
    } else if i == 1 {
      assert Place(c, i) == c * 128;
    }
  }

  /** Only the fifth byte reaches the sign bit. */
  lemma HighByte(c: nat, i: nat)
    requires i <= 4 && c < 128 && Place(c, i) >= 0x8000_0000
    ensures Place(c + 0xF_FFFF_FFF0, i) == Place(c, i) + 0xFFFF_FFFF_0000_0000
  {
    Places(i);
    hide Pow2;
    if i < 4 {
      Times(c, Pow2(7 * i));
    }
  }

  lemma {:induction false} ScanVarint(b: seq<byte>, pos: nat, m: nat, i: nat, res: nat, beyond: nat -> nat)
    requires i <= 4 && res < Pow2(7 * i) && Place(m, i) + res < 0x1_0000_0000
    requires HasAt(b, pos, Varint(m))
    ensures Scan(b, pos, 7 * i, res, beyond) == Some((AsRead(Place(m, i) + res), pos + |Varint(m)|))
    decreases m
  {
    hide Or, Shifted, Pow2, Varint, HasAt, Place;
    if m < 128 {
      LastByte(b, pos, m);
      ByteRead(m, i, res, beyond);
    } else {
      var c := m % 128;
      Carry(m, i, res);
      ByteRead(c, i, res, beyond);
      Continues(b, pos, m);
      ScanVarint(b, pos + 1, m / 128, i + 1, Place(c, i) + res, beyond);
    }
  }

  lemma LastByte(b: seq<byte>, pos: nat, m: nat)
    requires HasAt(b, pos, Varint(m)) && m < 128
    ensures pos < |b| && b[pos] == m && |Varint(m)| == 1
  {
    assert b[pos] == b[pos..pos + 1][0];
  }

  lemma Continues(b: seq<byte>, pos: nat, m: nat)
    requires HasAt(b, pos, Varint(m)) && m >= 128
    ensures pos < |b| && |Varint(m)| == 1 + |Varint(m / 128)|
    ensures HasAt(b, pos + 1, Varint(m / 128)) && b[pos] == m % 128 + 128
  {
    var v := Varint(m);
    assert v == [v[0]] + Varint(m / 128);
    assert b[pos] == b[pos..pos + |v|][0];
    assert b[pos + 1..pos + |v|] == b[pos..pos + |v|][1..] == Varint(m / 128);
  }

  /** The arithmetic of one more byte. */
  lemma Carry(m: nat, i: nat, res: nat)
    requires i <= 4 && m >= 128 && res < Pow2(7 * i) && Place(m, i) + res < 0x1_0000_0000
    ensures i < 4 && Place(m % 128, i) + res < Pow2(7 * (i + 1)) <= 268435456
    ensures Place(m / 128, i + 1) + (Place(m % 128, i) + res) == Place(m, i) + res
  {
    Places(i);
    assert m * 268435456 >= 0x8_0000_0000;
    assert i < 4;
    Places(i + 1);
    hide Pow2;
    CarryParts(m, Pow2(7 * i), res);
  }

  lemma CarryParts(m: nat, p: nat, res: nat)
    requires 0 < p <= 2097152 && res < p
    ensures m % 128 * p + res < 128 * p
    ensures m / 128 * (128 * p) + (m % 128 * p + res) == m * p + res
  {
    var c, q := m % 128, m / 128;
    Times(c, p);
    assert m == 128 * q + c;
    assert (128 * q + c) * p == 128 * (q * p) + c * p;
    assert q * (128 * p) == 128 * (q * p);
  }

  lemma Times(c: nat, p: nat)
    requires c < 128
    ensures c * p <= 127 * p
  {
  }

  /** A 32-bit length is read back exactly when it is below 2^31. */
  lemma VarintExact(n: u32, rest: seq<byte>, beyond: nat -> nat)
    ensures Scan(Varint(n) + rest, 0, 0, 0, beyond) == Some((AsRead(n), |Varint(n)|))
    ensures AsRead(n) == n <==> n < 0x8000_0000
  {
    var b := Varint(n) + rest;
    assert b[0..|Varint(n)|] == Varint(n);
    ScanVarint(b, 0, n, 0, 0, beyond);
  }

  /** The first length that is misread. */
  lemma TwoTo31Misread(rest: seq<byte>, beyond: nat -> nat)
    ensures Scan(Varint(0x8000_0000) + rest, 0, 0, 0, beyond) == Some((0xFFFF_FFFF_8000_0000, |Varint(0x8000_0000)|))
  {
    VarintExact(0x8000_0000, rest, beyond);
  }

  // ---------- messages ----------

  /** A message as the writer puts it. */
  function Delimited(m: Message): seq<byte> {
    Varint(|m|) + m
  }

  function Body(ms: seq<Message>): seq<byte> {
    if ms == [] then [] else Body(ms[..|ms| - 1]) + Delimited(ms[|ms| - 1])
  }

  /** Big-endian, as htonl leaves it in memory. */
  function Be32(n: u32): (b: seq<byte>)
    ensures |b| == 4
  {
    [n / 0x100_0000, n / 0x1_0000 % 256, n / 256 % 256, n % 256]
  }

  function FromBe32(b: seq<byte>): u32
    requires |b| == 4
  {
    b[0] as int * 0x100_0000 + b[1] as int * 0x1_0000 + b[2] as int * 256 + b[3] as int
  }

  lemma BeRoundTrip(n: u32)
    ensures FromBe32(Be32(n)) == n
  {
    var q := n / 256;
    assert n / 0x1_0000 == q / 256 && n / 0x100_0000 == q / 256 / 256;
  }

  /** The place values of the four bytes, highest first. */
  lemma BePlaces(n: u32)
    ensures var b := Be32(n); b[0] as int * 0x100_0000 + b[1] as int * 0x1_0000 + b[2] as int * 256 + b[3] == n
  {
    BeRoundTrip(n);
  }

  /** The frame: the length of all delimited messages in 32 bits, then the messages. */
  function Frame(ms: seq<Message>): seq<byte> {
    Be32(|Body(ms)| % 0x1_0000_0000) + Body(ms)
  }

  /** HrpcWrite; the overloads for one, two and three messages as one loop. */
  method HrpcWrite(ms: seq<Message>) returns (wire: seq<byte>)
    ensures wire == Frame(ms)
    ensures |wire| >= 4
    ensures wire[0] as int * 0x100_0000 + wire[1] as int * 0x1_0000 + wire[2] as int * 256 + wire[3]
         == (|wire| - 4) % 0x1_0000_0000
  {
    var len := TotalLength(ms);
    NoBody(ms);
    hide Body, Delimited, Varint, Be32;
    wire := Be32(len);
    BePlaces(len);
    for i := 0 to |ms|
      invariant wire == Be32(len) + Body(ms[..i])
    {
      BodySnoc(ms, i);
      wire := wire + Varint(|ms[i]|);
      wire := wire + ms[i];
    }
    assert ms[..|ms|] == ms;
  }

  /** The sum of the delimited lengths, kept in 32 bits. */
  method TotalLength(ms: seq<Message>) returns (len: u32)
    ensures len == |Body(ms)| % 0x1_0000_0000
  {
    NoBody(ms);
    hide Body, Delimited, Varint;
    len := 0;
    for i := 0 to |ms|
      invariant len == |Body(ms[..i])| % 0x1_0000_0000
    {
      BodySnoc(ms, i);
      var delimited := |Varint(|ms[i]|)| + |ms[i]|;
      SumWraps(|Body(ms[..i])|, delimited);
      len := (len + delimited) % 0x1_0000_0000;
    }
    assert ms[..|ms|] == ms;
  }

  lemma SumWraps(a: nat, b: nat)
    ensures (a % 0x1_0000_0000 + b) % 0x1_0000_0000 == (a + b) % 0x1_0000_0000
  {
  }

  lemma NoBody(ms: seq<Message>)
    ensures Body(ms[..0]) == []
  {
  }

  lemma BodySnoc(ms: seq<Message>, i: nat)
    requires i < |ms|
    ensures Body(ms[..i + 1]) == Body(ms[..i]) + Varint(|ms[i]|) + ms[i]
  {
    assert ms[..i + 1][..i] == ms[..i];
  }

  /** ReadDelimited as a function: the message and the buffer behind it. */
  function ParseOne(b: seq<byte>, beyond: nat -> nat): Option<(seq<byte>, seq<byte>)> {
    match Scan(b, 0, 0, 0, beyond)
    case None => None
    case Some((len, p)) =>
      if p <= |b| && p + len <= |b| then Some((b[p..p + len], b[p + len..])) else None
  }

  function Parse(b: seq<byte>, n: nat, beyond: nat -> nat): Option<(seq<seq<byte>>, seq<byte>)> {
    if n == 0 then Some(([], b))
    else
      match Parse(b, n - 1, beyond)
      case None => None
      case Some((ms, rest)) =>
        match ParseOne(rest, beyond)
        case None => None
        case Some((m, rest')) => Some((ms + [m], rest'))
  }

  method ReadDelimited(buf: seq<byte>, beyond: nat -> nat) returns (ok: bool, t: seq<byte>, rest: seq<byte>)
    ensures ParseOne(buf, beyond) == if ok then Some((t, rest)) else None
    ensures !ok ==> rest == buf
  {
    t, rest := [], buf;
    var len, p;
    ok, len, p := ReadVariant(buf, 0, beyond);
    if !ok {
      return;
    }
    if p + len > |buf| {
      return false, t, rest;
    }
    t := buf[p..p + len];
    rest := buf[p + len..];
  }

  /** HrpcRead with `n` messages: each overload calls the one with a message less. `left` is what stays on the wire. */
  method HrpcRead(wire: seq<byte>, n: nat, beyond: nat -> nat)
    returns (ok: bool, ms: seq<seq<byte>>, buf: seq<byte>, left: seq<byte>)
    ensures ok <==> ReadFrame(wire, n, beyond).Some?
    ensures ok ==> ReadFrame(wire, n, beyond) == Some((ms, buf, left))
    decreases n
  {
    ms, buf, left := [], [], wire;
    if n == 0 {
      if |wire| < 4 {
        return false, ms, buf, left;
      }
      var len := FromBe32(wire[..4]);
      if |wire| - 4 < len {
        return false, ms, buf, left;
      }
      buf, left := wire[4..4 + len], wire[4 + len..];
      ok := true;
    } else {
      ok, ms, buf, left := HrpcRead(wire, n - 1, beyond);
      if !ok {
        return;
      }
      var t: seq<byte>;
      ok, t, buf := ReadDelimited(buf, beyond);
      ms := ms + [t];
    }
  }

  /** What is read from the wire: the messages, the rest of the buffer, and what is left on the wire. */
  function ReadFrame(wire: seq<byte>, n: nat, beyond: nat -> nat): Option<(seq<seq<byte>>, seq<byte>, seq<byte>)> {
    if |wire| < 4 then None
    else
      var len := FromBe32(wire[..4]);
      if |wire| - 4 < len then None
      else
        match Parse(wire[4..4 + len], n, beyond)
        case None => None
        case Some((ms, rest)) => Some((ms, rest, wire[4 + len..]))
  }

  lemma OneRoundTrip(m: Message, rest: seq<byte>, beyond: nat -> nat)
    ensures ParseOne(Delimited(m) + rest, beyond) == Some((m, rest))
  {
    var v := Varint(|m|);
    assert Delimited(m) + rest == v + (m + rest);
    VarintExact(|m|, m + rest, beyond);
    var b := v + (m + rest);
    assert b[|v|..|v| + |m|] == m && b[|v| + |m|..] == rest;
  }

  lemma {:induction false} BodyRoundTrip(ms: seq<Message>, rest: seq<byte>, beyond: nat -> nat)
    ensures Parse(Body(ms) + rest, |ms|, beyond) == Some((ms, rest))
  {
    hide ParseOne, Delimited;
    if ms == [] {
      assert Body(ms) + rest == rest;
    } else {
      var front, last := ms[..|ms| - 1], ms[|ms| - 1];
      assert Body(ms) + rest == Body(front) + (Delimited(last) + rest);
      BodyRoundTrip(front, Delimited(last) + rest, beyond);
      OneRoundTrip(last, rest, beyond);
      assert front + [last] == ms;
    }
  }

  /** A message cut short is not accepted. */
  lemma OneCut(m: Message, k: nat, beyond: nat -> nat)
    requires k < |Delimited(m)|
    ensures ParseOne(Delimited(m)[..k], beyond) == None
  {
    var v := Varint(|m|);
    var b := Delimited(m)[..k];
    if k < |v| {
      ScanFails(b, 0, 0, 0, beyond);
    } else {
      assert b == v + m[..k - |v|];
      VarintExact(|m|, m[..k - |v|], beyond);
    }
  }

  lemma {:induction false} BodyCut(ms: seq<Message>, k: nat, beyond: nat -> nat)
    requires k < |Body(ms)|
    ensures Parse(Body(ms)[..k], |ms|, beyond) == None
  {
    hide ParseOne, Delimited;
    if ms != [] {
      var front, last := ms[..|ms| - 1], ms[|ms| - 1];
      var n := |Body(front)|;
      if k < n {
        BodyCut(front, k, beyond);
        assert Body(ms)[..k] == Body(front)[..k];
      } else {
        var cut := Delimited(last)[..k - n];
        assert Body(ms)[..k] == Body(front) + cut;
        BodyRoundTrip(front, cut, beyond);
        OneCut(last, k - n, beyond);
      }
    }
  }

  /**
   * Reading a written frame gives the messages, an empty buffer and the rest of
   * the wire exactly when all the delimited messages together fit 32 bits;
   * otherwise it fails.
   */
  lemma FrameExact(ms: seq<Message>, tail: seq<byte>, beyond: nat -> nat)
    requires ms != []
    ensures |Body(ms)| < 0x1_0000_0000 ==> ReadFrame(Frame(ms) + tail, |ms|, beyond) == Some((ms, [], tail))
    ensures |Body(ms)| >= 0x1_0000_0000 ==> ReadFrame(Frame(ms) + tail, |ms|, beyond) == None
  {
    var body := Body(ms);
    var len := |body| % 0x1_0000_0000;
    BeRoundTrip(len);
    Truncates(|body|);
    hide Body, Parse, Be32, FromBe32, ReadFrame;
    ReadsBody(Be32(len), body, tail, len, |ms|, beyond);
    if |body| < 0x1_0000_0000 {
      BodyRoundTrip(ms, [], beyond);
      All(body);
    } else {
      BodyCut(ms, len, beyond);
    }
  }

  lemma Truncates(n: nat)
    ensures if n < 0x1_0000_0000 then n % 0x1_0000_0000 == n else n % 0x1_0000_0000 < n
  {
  }

  lemma All(b: seq<byte>)
    ensures b + [] == b && b[..|b|] == b
  {
  }

  lemma ReadsBody(h: seq<byte>, body: seq<byte>, tail: seq<byte>, len: nat, n: nat, beyond: nat -> nat)
    requires |h| == 4 && FromBe32(h) == len <= |body|
    ensures var r, p := ReadFrame(h + body + tail, n, beyond), Parse(body[..len], n, beyond);
      && (r.None? <==> p.None?)
      && (p.Some? ==> r.value.0 == p.value.0 && r.value.1 == p.value.1)
      && (p.Some? && len == |body| ==> r.value.2 == tail)
  {
    hide Parse, FromBe32;
    var w := h + body + tail;
    assert w[..4] == h && w[4..4 + len] == body[..len];
    assert len == |body| ==> w[4 + len..] == tail;
  }
}
