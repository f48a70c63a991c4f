/** Chain replication of a block over data nodes (CSE/lab/datanode_base.cc, CSE/lab/datanode.cc). */
module Pipeline {

  import opened Bytes
  import opened Wrappers

  const BLOCK_SIZE: nat := 16384
  const ZERO_BLOCK: seq<byte> := seq(BLOCK_SIZE, i => 0)

  type u64 = x: int | 0 <= x < 0x1_0000_0000_0000_0000

  type Block = b: seq<byte> | |b| == BLOCK_SIZE witness ZERO_BLOCK

  datatype Status = SUCCESS | ERROR

  datatype Packet = PacketRecord(offset: u64, data: seq<byte>, last: bool)

  /** A packet's data length is a 32-bit field. */
  type PacketIn = p: Packet | |p.data| < 0x1_0000_0000 witness PacketRecord(0, [], true)

  /** What may go wrong at one node while it handles one packet. */
  datatype Fault = Fine | BadPacket | ReadFails | WriteFails(applied: bool) | SendFails | AckLost

  datatype Stored = Wrote | Refused | Thrown

  predicate Fits(p: Packet) {
    p.offset + |p.data| <= BLOCK_SIZE
  }

  /** The block with the packet's data at its offset. */
  function Splice(c: Block, p: Packet): Block
    requires Fits(p)
  {
    c[..p.offset] + p.data + c[p.offset + |p.data|..]
  }

  function Min(a: nat, b: nat): nat {
    if a <= b then a else b
  }

  function At(blocks: map<u32, Block>, bid: u32): Block {
    if bid in blocks then blocks[bid] else seq(BLOCK_SIZE, i => 0)
  }

  /** A node's blocks after the packet, when it stored it. */
  function Spliced(blocks: map<u32, Block>, bid: u32, p: Packet): map<u32, Block>
    requires Fits(p)
  {
    blocks[bid := Splice(At(blocks, bid), p)]
  }

  /** Node handling: a node that reported success has the splice, any other has it or is unchanged. */
  ghost predicate Handled(before: map<u32, Block>, after: map<u32, Block>, bid: u32, p: Packet, success: bool) {
    && (after != before ==> Fits(p) && after == Spliced(before, bid, p))
    && (success ==> Fits(p) && after == Spliced(before, bid, p))
  }

  /** Faults that leave the node's own part undisturbed. */
  predicate Keeps(f: Fault) {
    f.Fine? || f.SendFails? || f.AckLost?
  }

  /** And those with which the packet is in the block all the same. */
  predicate Lands(f: Fault) {
    Keeps(f) || (f.WriteFails? && f.applied)
  }

  /** The range of the packet ends past the block, which the node finds out by an exception. */
  predicate Throws(f: Fault, p: Packet) {
    !f.BadPacket? && !f.ReadFails? && (p.offset + |p.data|) % 0x1_0000_0000_0000_0000 > 16384
  }

  // ---------- one data node ----------

  class DataNode {
    /** Blocks of the extent server behind this node. */
    var blocks: map<u32, Block>
    /** Whether the node still reads packets of the current write. */
    var open: bool

    /** The write stores the splice, in the block named and nowhere else, exactly when the packet fits a block. */
    method WriteBlock(bid: u32, offset: u64, len: u64, buf: seq<byte>, fault: Fault) returns (r: Stored)
      requires len == |buf| < 0x1_0000_0000
      modifies this`blocks
      ensures var p := PacketRecord(offset, buf, false);
        && (r.Wrote? <==> Fits(p) && !fault.ReadFails? && !fault.WriteFails?)
        && (r.Thrown? <==> !fault.ReadFails? && (offset + len) % 0x1_0000_0000_0000_0000 > BLOCK_SIZE)
        && Handled(old(blocks), blocks, bid, p, r.Wrote?)
        && blocks == if Fits(p) && !fault.ReadFails? && (fault.WriteFails? ==> fault.applied)
                     then Spliced(old(blocks), bid, p) else old(blocks)
    {
      if fault.ReadFails? {
        return Refused;
      }
      var writeContent: seq<byte> := At(blocks, bid);
      var tail := (offset + len) % 0x1_0000_0000_0000_0000;
      if tail > |writeContent| {
        return Thrown;
      }
      writeContent := writeContent[..Min(offset, |writeContent|)] + buf + writeContent[tail..];
      if |writeContent| != BLOCK_SIZE {
        return Refused;
      }
      if fault.WriteFails? && !fault.applied {
        return Refused;
      }
      blocks := blocks[bid := writeContent];
      return if fault.WriteFails? then Refused else Wrote;
    }

    /** The packet loop up to the node's own status: None when it is gone; it stops unless it succeeds. */
    method Take(bid: u32, p: PacketIn, fault: Fault) returns (r: Option<Status>)
      modifies this
      ensures Handled(old(blocks), blocks, bid, p, r == Some(SUCCESS))
      ensures r == Some(SUCCESS) <==> old(open) && Keeps(fault) && Fits(p)
      ensures open <==> r == Some(SUCCESS)
      ensures r.None? <==> !old(open) || Throws(fault, p)
      ensures blocks == if old(open) && Fits(p) && Lands(fault) then Spliced(old(blocks), bid, p) else old(blocks)
    {
      hide Spliced;
      if !open {
        return None;
      }
      if fault.BadPacket? {
        open := false;
        return Some(ERROR);
      }
      var w := WriteBlock(bid, p.offset, |p.data|, p.data, fault);
      LastIrrelevant(old(blocks), blocks, bid, p, w.Wrote?);
      open := w.Wrote?;
      r := if w.Wrote? then Some(SUCCESS) else if w.Refused? then Some(ERROR) else None;
    }

    /** Reading what lies inside the block; beyond its end there is nothing. */
    method ReadBlock(bid: u32, offset: u64, len: u64) returns (buf: seq<byte>)
      ensures |buf| == if offset > BLOCK_SIZE then 0 else Min(len, BLOCK_SIZE - offset)
      ensures forall k | 0 <= k < |buf| :: offset + k < BLOCK_SIZE && buf[k] == At(blocks, bid)[offset + k]
    {
      var blockContent := At(blocks, bid);
      if offset > |blockContent| {
        buf := [];
      } else {
        buf := blockContent[offset..offset + Min(len, |blockContent| - offset)];
      }
    }
  }

  // ---------- one packet down the chain ----------

  type Ack = seq<Status>

  /** `j` successes, then only errors. */
  ghost predicate AckForm(ack: Ack, j: nat, n: nat) {
    j <= |ack| <= n && forall k | 0 <= k < |ack| :: ack[k] == if k < j then SUCCESS else ERROR
  }

  ghost predicate AllGood(ack: Option<Ack>, n: nat) {
    ack.Some? && |ack.value| == n && forall k | 0 <= k < n :: ack.value[k] == SUCCESS
  }

  ghost predicate Distinct(nodes: seq<DataNode>) {
    forall i, j | 0 <= i < j < |nodes| :: nodes[i] != nodes[j]
  }

  type Store = map<u32, Block>

  ghost function Stores(nodes: seq<DataNode>): (s: seq<Store>)
    reads nodes`blocks
    ensures |s| == |nodes|
  {
    if nodes == [] then [] else [nodes[0].blocks] + Stores(nodes[1..])
  }

  ghost function Opens(nodes: seq<DataNode>): (s: seq<bool>)
    reads nodes`open
    ensures |s| == |nodes|
  {
    if nodes == [] then [] else [nodes[0].open] + Opens(nodes[1..])
  }

  /** How many nodes in a row take the packet and have that reported to the head. */
  function Lead(opens: seq<bool>, faults: seq<Fault>, p: Packet): (j: nat)
    requires |opens| == |faults|
    ensures j <= |opens|
  {
    if opens == [] || !opens[0] || !Keeps(faults[0]) || !Fits(p) then 0
    else if !faults[0].Fine? then 1
    else 1 + Lead(opens[1..], faults[1..], p)
  }

  /**
   * Answers in the acknowledgement when the first `j` nodes succeeded: one error
   * for the next node when it was heard of, otherwise one for each further node.
   */
  function AckLength(opens: seq<bool>, faults: seq<Fault>, j: nat): nat
    requires j <= |opens| == |faults|
  {
    if j == |opens| then j
    else if j == 0 || (faults[j - 1].Fine? && opens[j]) then j + 1
    else |opens|
  }

  /** Node `k` is counted exactly when it and all before it take the packet, and nothing is lost on the way back. */
  lemma {:induction false} LeadAt(opens: seq<bool>, faults: seq<Fault>, p: Packet, k: nat)
    requires |opens| == |faults| && k < |opens|
    ensures k < Lead(opens, faults, p) <==>
              && (forall i: nat | i <= k :: opens[i] && (faults[i].Fine? || faults[i].SendFails? || faults[i].AckLost?))
              && (forall i: nat | i < k :: faults[i].Fine?) && p.offset + |p.data| <= 16384
  {
    if k > 0 {
      LeadAt(opens[1..], faults[1..], p, k - 1);
      assert forall i: nat | 0 < i <= k :: opens[i] == opens[1..][i - 1] && faults[i] == faults[1..][i - 1];
    }
  }

  lemma LeadAll(opens: seq<bool>, faults: seq<Fault>, p: Packet)
    requires |opens| == |faults| && Fits(p)
    requires forall i: nat | i < |opens| :: opens[i] && faults[i].Fine?
    ensures Lead(opens, faults, p) == |opens|
  {
    if |opens| > 0 {
      LeadAt(opens, faults, p, |opens| - 1);
    }
  }

  /** Every node before `k` reads, stores and sends on. */
  ghost predicate Reached(opens: seq<bool>, faults: seq<Fault>, p: Packet, k: nat)
    requires k <= |opens| == |faults|
  {
    forall i: nat | i < k :: opens[i] && Fits(p) && (faults[i].Fine? || faults[i].AckLost?)
  }

  /**
   * What a packet leaves at every node. One that it reaches and that reads
   * stores it when it fits and the fault lets it, and reads on unless it failed
   * or this was the last; one that it does not reach is as before.
   */
  ghost predicate Effect(before: seq<Store>, opens: seq<bool>, after: seq<Store>, opens': seq<bool>,
                         faults: seq<Fault>, bid: u32, p: Packet) {
    && |before| == |opens| == |after| == |opens'| == |faults|
    && forall k: nat | k < |opens| ::
         NodeEffect(before[k], opens[k], after[k], opens'[k], faults[k], bid, p, Reached(opens, faults, p, k))
  }

  predicate NodeEffect(before: Store, open: bool, after: Store, open': bool, fault: Fault, bid: u32, p: Packet,
                       reached: bool) {
    && (open' <==> open && (reached ==> Fits(p) && Keeps(fault) && !p.last))
    && after == if reached && open && Fits(p) && Lands(fault) then Spliced(before, bid, p) else before
  }

  lemma NoEffect(stores: seq<Store>, opens: seq<bool>, faults: seq<Fault>, bid: u32, p: Packet)
    requires stores == [] && opens == [] && faults == []
    ensures Effect(stores, opens, stores, opens, faults, bid, p)
  {
  }

  lemma ReachedBehind(o: bool, others: seq<bool>, faults: seq<Fault>, p: Packet, k: nat)
    requires k <= |others| == |faults| - 1
    ensures Reached([o] + others, faults, p, k + 1) <==>
              o && Fits(p) && (faults[0].Fine? || faults[0].AckLost?) && Reached(others, faults[1..], p, k)
  {
    var opens := [o] + others;
    if Reached(opens, faults, p, k + 1) {
      assert opens[0] == o;
      forall i: nat | i < k
        ensures others[i] && Fits(p) && (faults[1..][i].Fine? || faults[1..][i].AckLost?)
      {
        assert opens[i + 1] == others[i] && faults[i + 1] == faults[1..][i];
      }
    }
  }

  /** The head's part and that of the nodes behind it. */
  lemma EffectBehind(was: Store, mine: Store, o: bool, o': bool, before: seq<Store>, after: seq<Store>,
                     others: seq<bool>, others': seq<bool>, faults: seq<Fault>, bid: u32, p: Packet)
    requires |others| == |others'| == |before| == |after| == |faults| - 1
    requires NodeEffect(was, o, mine, o', faults[0], bid, p, true)
    requires if o && Fits(p) && (faults[0].Fine? || faults[0].AckLost?)
             then Effect(before, others, after, others', faults[1..], bid, p)
             else before == after && others == others'
    ensures Effect([was] + before, [o] + others, [mine] + after, [o'] + others', faults, bid, p)
  {
    hide Reached, Spliced, Fits, Keeps, Lands;
    var opens := [o] + others;
    assert Reached(opens, faults, p, 0) by {
      NothingBefore(opens, faults, p);
    }
    forall k: nat | k < |others|
      ensures NodeEffect(before[k], others[k], after[k], others'[k], faults[k + 1], bid, p,
                         Reached(opens, faults, p, k + 1))
    {
      ReachedBehind(o, others, faults, p, k);
    }
    hide NodeEffect;
    forall k: nat | k < |opens|
      ensures NodeEffect(([was] + before)[k], opens[k], ([mine] + after)[k], ([o'] + others')[k], faults[k], bid, p,
                         Reached(opens, faults, p, k))
    {
      if k > 0 {
        assert NodeEffect(before[k - 1], others[k - 1], after[k - 1], others'[k - 1], faults[k - 1 + 1], bid, p,
                          Reached(opens, faults, p, k - 1 + 1));
      }
    }
  }

  lemma NothingBefore(opens: seq<bool>, faults: seq<Fault>, p: Packet)
    requires |opens| == |faults|
    ensures Reached(opens, faults, p, 0)
  {
  }

  lemma HeadFirst(nodes: seq<DataNode>)
    requires nodes != []
    ensures Stores(nodes) == [nodes[0].blocks] + Stores(nodes[1..])
    ensures Opens(nodes) == [nodes[0].open] + Opens(nodes[1..])
  {
  }

  lemma NoChain(faults: seq<Fault>, p: Packet)
    requires faults == []
    ensures Lead([], faults, p) == 0
  {
  }

  lemma LeadStep(opens: seq<bool>, faults: seq<Fault>, p: Packet)
    requires |opens| == |faults| > 0
    ensures Lead(opens, faults, p) ==
            if opens[0] && Keeps(faults[0]) && Fits(p)
            then 1 + (if faults[0].SendFails? || faults[0].AckLost? then 0 else Lead(opens[1..], faults[1..], p))
            else 0
    ensures |opens| == 1 ==> Lead(opens[1..], faults[1..], p) == 0
  {
  }

  /** What a packet does to the nodes of a chain of which the first `j` reported success. */
  ghost predicate HandledAll(before: seq<Store>, after: seq<Store>, bid: u32, p: Packet, j: nat) {
    |before| == |after| && forall k: nat | k < |before| :: Handled(before[k], after[k], bid, p, k < j)
  }

  /**
   * One turn of the packet loop at nodes[0], with the rest of the chain behind it.
   * The acknowledgement is j successes and then at least one error unless all
   * succeeded; the first j nodes have the packet in the block. No
   * acknowledgement means the connection is gone.
   */
  method HandlePacket(nodes: seq<DataNode>, bid: u32, p: PacketIn, faults: seq<Fault>)
    returns (ack: Option<Ack>, ghost j: nat)
    requires 0 < |nodes| == |faults| && Distinct(nodes)
    modifies nodes
    ensures Handles(old(Stores(nodes)), old(Opens(nodes)), Stores(nodes), faults, bid, p, ack, j)
    ensures nodes[0].open <==> j > 0 && !p.last
    ensures Effect(old(Stores(nodes)), old(Opens(nodes)), Stores(nodes), Opens(nodes), faults, bid, p)
    decreases |nodes|, 0
  {
    hide Handled, HandledAll, Handles, Fits, Keeps, Lead, AckForm, Stores, Opens, Effect, Spliced;
    var node, targets := nodes[0], nodes[1..];
    ghost var was, behind, o, others := node.blocks, Stores(targets), node.open, Opens(targets);
    HeadFirst(nodes);
    var status := node.Take(bid, p, faults[0]);
    ghost var mine := node.blocks;
    assert Stores(targets) == behind && Opens(targets) == others;
    HeadFirst(nodes);
    if status != Some(SUCCESS) {
      ack, j := if status.Some? then Some([ERROR]) else None, 0;
      FailsHere(was, mine, behind, o, others, faults, bid, p, ack);
      FailsAlone(was, mine, behind, o, others, faults, bid, p);
      return;
    }
    var reply: Ack;
    ghost var m: nat;
    reply, m := Forward(targets, bid, p, faults[0], faults[1..]);
    ghost var behind' := Stores(targets);
    HeadFirst(nodes);
    GoesThrough(was, mine, behind, behind', o, others, faults, bid, p, reply, m);
    ghost var others' := Opens(targets);
    if p.last {
      node.open := false;
    }
    assert Opens(targets) == others' && Stores(targets) == behind';
    HeadFirst(nodes);
    SendsOn(was, mine, node.open, behind, behind', others, others', faults, bid, p);
    ack, j := Some(reply), 1 + m;
  }

  /** The effect of one packet on a chain, with the answer its head gives. */
  ghost predicate Handles(before: seq<Store>, opens: seq<bool>, after: seq<Store>, faults: seq<Fault>,
                          bid: u32, p: Packet, ack: Option<Ack>, j: nat) {
    && |before| == |opens| == |faults|
    && j == Lead(opens, faults, p) && opens != [] && (ack.None? <==> !opens[0] || Throws(faults[0], p))
    && (ack.None? ==> j == 0)
    && (ack.Some? ==> AckForm(ack.value, j, |before|) && |ack.value| == AckLength(opens, faults, j))
    && HandledAll(before, after, bid, p, j)
  }

  /** Answers for the nodes behind one that has stored the packet. */
  function Behind(others: seq<bool>, fault: Fault, faults: seq<Fault>, p: Packet, m: nat): nat
    requires m <= |others| == |faults|
  {
    if others == [] || fault.SendFails? || fault.AckLost? || !others[0] || Throws(faults[0], p) then |others|
    else AckLength(others, faults, m)
  }

  lemma FailsHere(was: Store, mine: Store, behind: seq<Store>, o: bool, others: seq<bool>, faults: seq<Fault>,
                  bid: u32, p: Packet, ack: Option<Ack>)
    requires |behind| == |others| == |faults| - 1 && Handled(was, mine, bid, p, false)
    requires !(o && Keeps(faults[0]) && Fits(p))
    requires ack == if !o || Throws(faults[0], p) then None else Some([ERROR])
    ensures Handles([was] + behind, [o] + others, [mine] + behind, faults, bid, p, ack, 0)
  {
    FirstHandled(was, mine, behind, bid, p, false);
    LeadStep([o] + others, faults, p);
    hide HandledAll, Handled, Lead;
  }

  lemma GoesThrough(was: Store, mine: Store, behind: seq<Store>, behind': seq<Store>, o: bool, others: seq<bool>,
                    faults: seq<Fault>, bid: u32, p: Packet, reply: Ack, m: nat)
    requires |behind| == |others| == |faults| - 1 && Handled(was, mine, bid, p, true)
    requires o && Keeps(faults[0]) && Fits(p)
    requires AckForm(reply, 1 + m, 1 + |behind|) && m <= |others|
    requires |reply| == 1 + Behind(others, faults[0], faults[1..], p, m)
    requires m == if faults[0].SendFails? || faults[0].AckLost? then 0 else Lead(others, faults[1..], p)
    requires HandledAll(behind, behind', bid, p, m)
    ensures Handles([was] + behind, [o] + others, [mine] + behind', faults, bid, p, Some(reply), 1 + m)
  {
    RestHandled(was, mine, behind, behind', bid, p, m);
    LeadStep([o] + others, faults, p);
    assert ([o] + others)[1..] == others;
    hide HandledAll, Handled, Lead;
  }

  lemma FailsAlone(was: Store, mine: Store, behind: seq<Store>, o: bool, others: seq<bool>, faults: seq<Fault>,
                   bid: u32, p: Packet)
    requires |behind| == |others| == |faults| - 1 && !(o && Keeps(faults[0]) && Fits(p))
    requires mine == if o && Fits(p) && Lands(faults[0]) then Spliced(was, bid, p) else was
    ensures Effect([was] + behind, [o] + others, [mine] + behind, [false] + others, faults, bid, p)
  {
    hide Effect, Spliced;
    EffectBehind(was, mine, o, false, behind, behind, others, others, faults, bid, p);
  }

  lemma SendsOn(was: Store, mine: Store, o': bool, behind: seq<Store>, behind': seq<Store>, others: seq<bool>,
                others': seq<bool>, faults: seq<Fault>, bid: u32, p: Packet)
    requires |behind| == |behind'| == |others| == |others'| == |faults| - 1
    requires Keeps(faults[0]) && Fits(p) && mine == Spliced(was, bid, p) && o' == !p.last
    requires if faults[0].SendFails? then behind == behind' && others == others'
             else Effect(behind, others, behind', others', faults[1..], bid, p)
    ensures Effect([was] + behind, [true] + others, [mine] + behind', [o'] + others', faults, bid, p)
  {
    hide Effect, Spliced;
    EffectBehind(was, mine, true, o', behind, behind', others, others', faults, bid, p);
  }

  /** The inner block of the packet loop: sends the packet on, and puts the answers behind the node's own success. */
  method Forward(targets: seq<DataNode>, bid: u32, p: PacketIn, fault: Fault, faults: seq<Fault>)
    returns (reply: Ack, ghost m: nat)
    requires |targets| == |faults| && Distinct(targets)
    modifies targets
    ensures m == if fault.SendFails? || fault.AckLost? then 0 else Lead(old(Opens(targets)), faults, p)
    ensures AckForm(reply, 1 + m, 1 + |targets|) && |reply| == 1 + Behind(old(Opens(targets)), fault, faults, p, m)
    ensures HandledAll(old(Stores(targets)), Stores(targets), bid, p, m)
    ensures if fault.SendFails? then Stores(targets) == old(Stores(targets)) && Opens(targets) == old(Opens(targets))
            else Effect(old(Stores(targets)), old(Opens(targets)), Stores(targets), Opens(targets), faults, bid, p)
    decreases |targets|, 1
  {
    hide Handled, HandledAll, Lead, Fits, Keeps, Effect;
    reply, m := [SUCCESS], 0;
    Unhandled(Stores(targets), bid, p);
    if |targets| == 0 {
      NoChain(faults, p);
      NoEffect(Stores(targets), Opens(targets), faults, bid, p);
      return;
    }
    if fault.SendFails? {
      reply := AddErrors(reply, |targets|);
      return;
    }
    var mirror: Option<Ack>;
    mirror, m := HandlePacket(targets, bid, p, faults);
    if fault.AckLost? || mirror.None? {
      FewerCounted(old(Stores(targets)), Stores(targets), bid, p, m);
      m := 0;
      reply := AddErrors(reply, |targets|);
    } else {
      reply := AddReplies(reply, mirror.value);
    }
  }

  lemma FewerCounted(before: seq<Store>, after: seq<Store>, bid: u32, p: Packet, m: nat)
    requires HandledAll(before, after, bid, p, m)
    ensures HandledAll(before, after, bid, p, 0)
  {
    hide Spliced;
  }

  lemma LastIrrelevant(before: Store, after: Store, bid: u32, p: Packet, success: bool)
    requires Handled(before, after, bid, PacketRecord(p.offset, p.data, false), success)
    ensures Handled(before, after, bid, p, success)
    ensures Fits(p) ==> Spliced(before, bid, PacketRecord(p.offset, p.data, false)) == Spliced(before, bid, p)
  {
  }

  lemma Unhandled(stores: seq<Store>, bid: u32, p: Packet)
    ensures HandledAll(stores, stores, bid, p, 0)
  {
  }

  lemma FirstHandled(was: Store, mine: Store, behind: seq<Store>, bid: u32, p: Packet, success: bool)
    requires Handled(was, mine, bid, p, success)
    ensures HandledAll([was] + behind, [mine] + behind, bid, p, if success then 1 else 0)
  {
    hide Spliced;
  }

  lemma RestHandled(was: Store, mine: Store, behind: seq<Store>, behind': seq<Store>, bid: u32, p: Packet, m: nat)
    requires Handled(was, mine, bid, p, true) && HandledAll(behind, behind', bid, p, m)
    ensures HandledAll([was] + behind, [mine] + behind', bid, p, 1 + m)
  {
    hide Spliced;
  }

  method AddErrors(reply: Ack, n: nat) returns (r: Ack)
    ensures |r| == |reply| + n && forall k | 0 <= k < |r| :: r[k] == if k < |reply| then reply[k] else ERROR
  {
    r := reply;
    for i := 0 to n
      invariant |r| == |reply| + i && forall k | 0 <= k < |r| :: r[k] == if k < |reply| then reply[k] else ERROR
    {
      r := r + [ERROR];
    }
  }

  method AddReplies(reply: Ack, mirror: Ack) returns (r: Ack)
    ensures r == reply + mirror
  {
    r := reply;
    for i := 0 to |mirror|
      invariant r == reply + mirror[..i]
    {
      r := r + [mirror[i]];
    }
  }

  // ---------- a whole block ----------

  /** The block after the packets a node stored, in order. */
  function Applied(c: Block, ps: seq<Packet>, stored: seq<bool>): Block
    requires |ps| == |stored|
  {
    if ps == [] then c
    else
      var n := |ps| - 1;
      var before := Applied(c, ps[..n], stored[..n]);
      if stored[n] && Fits(ps[n]) then Splice(before, ps[n]) else before
  }

  /** A node ended up with the packets it stored, in order, in that block, and no other change. */
  ghost predicate Ran(before: map<u32, Block>, after: map<u32, Block>, bid: u32, ps: seq<Packet>, stored: seq<bool>) {
    && |ps| == |stored|
    && At(after, bid) == Applied(At(before, bid), ps, stored)
    && forall b: u32 | b != bid :: At(after, b) == At(before, b)
  }

  /** The head goes on to the next packet. */
  predicate GoesOn(p: Packet, ack: Option<Ack>) {
    Reports(ack, 0) && !p.last
  }

  /** One answer a packet, up to the last packet or the first that the head itself failed at. */
  ghost predicate Answered(ps: seq<Packet>, acks: seq<Option<Ack>>) {
    && |acks| <= |ps| && (forall t: nat | t + 1 < |acks| :: GoesOn(ps[t], acks[t]))
    && (|acks| < |ps| ==> acks != [] && !GoesOn(ps[|acks| - 1], acks[|acks| - 1]))
  }

  /** The acknowledgement says that node `k` succeeded. */
  predicate Reports(ack: Option<Ack>, k: nat) {
    ack.Some? && k < |ack.value| && ack.value[k] == SUCCESS
  }

  lemma RanStep(before: Store, mid: Store, after: Store, bid: u32,
                ps: seq<Packet>, stored: seq<bool>, p: Packet, success: bool)
    requires Ran(before, mid, bid, ps, stored) && Handled(mid, after, bid, p, success)
    ensures Ran(before, after, bid, ps + [p], stored + [after != mid || success])
  {
    assert (ps + [p])[..|ps|] == ps;
    assert forall b: bool :: (stored + [b])[..|ps|] == stored;
    hide Splice;
  }

  /** Node `k`: what it acknowledged it stored, and it holds what it stored in the order sent. */
  ghost predicate NodeRun(before: Store, after: Store, bid: u32, ps: seq<Packet>, acks: seq<Option<Ack>>,
                          stored: seq<bool>, k: nat) {
    && |acks| == |ps| && Ran(before, after, bid, ps, stored)
    && forall t: nat | t < |ps| && Reports(acks[t], k) :: stored[t]
  }

  ghost predicate ChainRun(before: seq<Store>, after: seq<Store>, bid: u32, ps: seq<Packet>, acks: seq<Option<Ack>>,
                           stored: seq<seq<bool>>) {
    && |after| == |before| == |stored|
    && forall k: nat | k < |before| :: NodeRun(before[k], after[k], bid, ps, acks, stored[k], k)
  }

  lemma NodeStep(before: Store, mid: Store, after: Store, bid: u32, ps: seq<Packet>, acks: seq<Option<Ack>>,
                 stored: seq<bool>, k: nat, p: Packet, ack: Option<Ack>, j: nat)
    requires NodeRun(before, mid, bid, ps, acks, stored, k) && Handled(mid, after, bid, p, k < j)
    requires Reports(ack, k) ==> k < j
    ensures NodeRun(before, after, bid, ps + [p], acks + [ack], stored + [after != mid || k < j], k)
  {
    RanStep(before, mid, after, bid, ps, stored, p, k < j);
    hide Ran, Reports;
  }

  lemma ChainStep(before: seq<Store>, mid: seq<Store>, after: seq<Store>, bid: u32, ps: seq<Packet>,
                  acks: seq<Option<Ack>>, stored: seq<seq<bool>>, p: Packet, ack: Option<Ack>, j: nat)
    returns (stored': seq<seq<bool>>)
    requires ChainRun(before, mid, bid, ps, acks, stored) && HandledAll(mid, after, bid, p, j)
    requires ack.Some? ==> AckForm(ack.value, j, |before|)
    ensures ChainRun(before, after, bid, ps + [p], acks + [ack], stored')
  {
    hide NodeRun, Handled, Reports, AckForm;
    stored' := seq(|stored|, k requires 0 <= k < |stored| => stored[k] + [after[k] != mid[k] || k < j]);
    forall k: nat | k < |before|
      ensures NodeRun(before[k], after[k], bid, ps + [p], acks + [ack], stored'[k], k)
    {
      ReportedBefore(ack, j, |before|, k);
      NodeStep(before[k], mid[k], after[k], bid, ps, acks, stored[k], k, p, ack, j);
    }
  }

  /** Every packet acknowledged by the whole chain. */
  ghost predicate AllAcked(ps: seq<Packet>, acks: seq<Option<Ack>>, n: nat) {
    |acks| == |ps| && forall t: nat | t < |acks| :: AllGood(acks[t], n)
  }

  ghost predicate AllHold(stores: seq<Store>, bid: u32, c: Block) {
    forall k: nat | k < |stores| :: At(stores[k], bid) == c
  }

  predicate AllOpen(opens: seq<bool>) {
    forall k | 0 <= k < |opens| :: opens[k]
  }

  /** Nodes that read, packets that fit, the final one marked as the last. */
  ghost predicate Clean(opens: seq<bool>, ps: seq<Packet>, faults: seq<seq<Fault>>) {
    && AllOpen(opens)
    && (forall t | 0 <= t < |ps| :: ps[t].offset + |ps[t].data| <= 16384 && (ps[t].last <==> t + 1 == |ps|))
    && forall t, k | 0 <= t < |faults| && 0 <= k < |faults[t]| :: faults[t][k].Fine?
  }

  /** In a write without faults a packet is acknowledged by all and leaves all nodes reading until it is the last. */
  lemma CleanStep(opens0: seq<bool>, ps: seq<Packet>, faults: seq<seq<Fault>>, t: nat, before: seq<Store>,
                  opens: seq<bool>, after: seq<Store>, opens': seq<bool>, bid: u32, ack: Option<Ack>, j: nat)
    requires Clean(opens0, ps, faults) && AllOpen(opens) && t < |ps| == |faults| && opens != []
    requires Handles(before, opens, after, faults[t], bid, ps[t], ack, j)
    requires Effect(before, opens, after, opens', faults[t], bid, ps[t])
    ensures AllGood(ack, |opens|) && j == |opens|
    ensures t + 1 < |ps| ==> AllOpen(opens') && !ps[t].last
  {
    LeadAll(opens, faults[t], ps[t]);
    hide HandledAll, Spliced, Lead;
  }

  /**
   * The packet loop of the head. Whatever fails: an acknowledged success of
   * node `k` for packet `t` means node `k` stored it, and every node holds the
   * packets it stored in the order they were sent. So packets that cover the
   * block and are all acknowledged by all leave the same block everywhere; and
   * without faults they are.
   */
  method ReceiveBlock(nodes: seq<DataNode>, bid: u32, ps: seq<PacketIn>, faults: seq<seq<Fault>>)
    returns (acks: seq<Option<Ack>>, ghost stored: seq<seq<bool>>)
    requires 0 < |nodes| && Distinct(nodes)
    requires |faults| == |ps| && forall t | 0 <= t < |ps| :: |faults[t]| == |nodes|
    modifies nodes
    ensures Answered(ps, acks)
    ensures ChainRun(old(Stores(nodes)), Stores(nodes), bid, ps[..|acks|], acks, stored)
    ensures Covers(ps) && AllAcked(ps, acks, |nodes|) ==> AllHold(Stores(nodes), bid, Written(ps))
    ensures Clean(old(Opens(nodes)), ps, faults) ==> AllAcked(ps, acks, |nodes|)
  {
    hide NodeRun, HandledAll, AckForm, AllAcked, AllHold, Covers, Stores, ChainRun, Written, Distinct;
    hide Reports, Lead, Opens;
    hide Clean, AllOpen, Effect, Handles, AllGood, GoesOn;
    ghost var before, opens0 := Stores(nodes), Opens(nodes);
    CleanOpens(opens0, ps, faults);
    acks := [];
    stored := seq(|nodes|, k => []);
    ChainStart(before, bid);
    var more := true;
    while more && |acks| < |ps|
      invariant |acks| <= |ps| && (acks == [] ==> more)
      invariant forall t: nat | t + 1 < |acks| :: GoesOn(ps[t], acks[t])
      invariant acks != [] ==> (more <==> GoesOn(ps[|acks| - 1], acks[|acks| - 1]))
      invariant ChainRun(before, Stores(nodes), bid, ps[..|acks|], acks, stored)
      invariant Clean(opens0, ps, faults) ==>
                  && (forall t: nat | t < |acks| :: AllGood(acks[t], |nodes|))
                  && (|acks| < |ps| ==> more && AllOpen(Opens(nodes)))
      decreases |ps| - |acks|
    {
      ghost var mid, opens := Stores(nodes), Opens(nodes);
      var p := ps[|acks|];
      var ack: Option<Ack>;
      ghost var j: nat;
      ack, j := HandlePacket(nodes, bid, p, faults[|acks|]);
      HandlesForm(mid, opens, Stores(nodes), faults[|acks|], bid, p, ack, j);
      ReportedAhead(ack, j, |nodes|);
      if Clean(opens0, ps, faults) {
        CleanStep(opens0, ps, faults, |acks|, mid, opens, Stores(nodes), Opens(nodes), bid, ack, j);
      }
      assert nodes[0].open <==> GoesOn(p, ack) by {
        TurnsOn(p, ack);
      }
      stored := ChainStep(before, mid, Stores(nodes), bid, ps[..|acks|], acks, stored, p, ack, j);
      assert ps[..|acks|] + [p] == ps[..|acks| + 1];
      acks := acks + [ack];
      more := nodes[0].open;
    }
    ChainAcked(before, Stores(nodes), bid, ps, acks, stored);
    if Clean(opens0, ps, faults) {
      AllAckedIs(ps, acks, |nodes|);
    }
  }

  lemma CleanOpens(opens: seq<bool>, ps: seq<Packet>, faults: seq<seq<Fault>>)
    ensures Clean(opens, ps, faults) ==> AllOpen(opens)
  {
  }

  lemma TurnsOn(p: Packet, ack: Option<Ack>)
    ensures GoesOn(p, ack) <==> Reports(ack, 0) && !p.last
  {
  }

  lemma AllAckedIs(ps: seq<Packet>, acks: seq<Option<Ack>>, n: nat)
    requires |acks| == |ps| && forall t: nat | t < |acks| :: AllGood(acks[t], n)
    ensures AllAcked(ps, acks, n)
  {
  }

  lemma HandlesForm(before: seq<Store>, opens: seq<bool>, after: seq<Store>, faults: seq<Fault>, bid: u32, p: Packet,
                    ack: Option<Ack>, j: nat)
    requires Handles(before, opens, after, faults, bid, p, ack, j)
    ensures ack.None? ==> j == 0
    ensures ack.Some? ==> AckForm(ack.value, j, |before|) && (|ack.value| > j || j == |before|)
    ensures HandledAll(before, after, bid, p, j)
  {
  }

  lemma ChainStart(s: seq<Store>, bid: u32)
    ensures ChainRun(s, s, bid, [], [], seq(|s|, k => []))
  {
  }

  lemma ChainAcked(before: seq<Store>, after: seq<Store>, bid: u32, ps: seq<Packet>, acks: seq<Option<Ack>>,
                   stored: seq<seq<bool>>)
    requires |acks| <= |ps| && ChainRun(before, after, bid, ps[..|acks|], acks, stored)
    ensures Covers(ps) && AllAcked(ps, acks, |before|) ==> AllHold(after, bid, Written(ps))
  {
    hide NodeRun, Covers, AllGood, Reports;
    if Covers(ps) && AllAcked(ps, acks, |before|) {
      assert ps[..|acks|] == ps;
      forall k: nat | k < |after|
        ensures At(after[k], bid) == Written(ps)
      {
        AllReported(acks, |before|, k);
        NodeAcked(before[k], after[k], bid, ps, acks, stored[k], k);
      }
    }
  }

  lemma NodeAcked(before: Store, after: Store, bid: u32, ps: seq<Packet>, acks: seq<Option<Ack>>,
                  stored: seq<bool>, k: nat)
    requires NodeRun(before, after, bid, ps, acks, stored, k) && Covers(ps)
    requires forall t: nat | t < |acks| :: Reports(acks[t], k)
    ensures At(after, bid) == Written(ps)
  {
    hide Covers, Written, Reports, Applied;
    AllStored(At(before, bid), ps, stored);
  }

  lemma ReportedBefore(ack: Option<Ack>, j: nat, n: nat, k: nat)
    requires ack.Some? ==> AckForm(ack.value, j, n)
    ensures Reports(ack, k) ==> k < j
  {
  }

  lemma ReportedAhead(ack: Option<Ack>, j: nat, n: nat)
    requires ack.Some? ==> AckForm(ack.value, j, n) && (|ack.value| > j || j == n)
    requires ack.None? ==> j == 0
    ensures Reports(ack, 0) <==> j > 0
  {
  }

  lemma AllReported(acks: seq<Option<Ack>>, n: nat, k: nat)
    requires k < n && forall t: nat | t < |acks| :: AllGood(acks[t], n)
    ensures forall t: nat | t < |acks| :: Reports(acks[t], k)
  {
  }

  // ---------- covering packet sequences ----------

  predicate Touches(p: Packet, x: nat) {
    Fits(p) && p.offset <= x < p.offset + |p.data|
  }

  /** Every byte of the block is in some packet. */
  ghost predicate Covers(ps: seq<Packet>) {
    forall x: nat | x < BLOCK_SIZE :: Covered(ps, x)
  }

  ghost predicate Covered(ps: seq<Packet>, x: nat) {
    exists t :: 0 <= t < |ps| && Touches(ps[t], x)
  }

  /** The last packet that touches a byte decides it. */
  function LastWriter(ps: seq<Packet>, x: nat): (r: Option<byte>)
    ensures r.Some? <==> Covered(ps, x)
  {
    if ps == [] then None
    else
      var n := |ps| - 1;
      if Touches(ps[n], x) then Some(ps[n].data[x - ps[n].offset]) else LastWriter(ps[..n], x)
  }

  /** The block that covering packets describe. */
  ghost function Written(ps: seq<Packet>): (b: Block)
    requires Covers(ps)
    ensures forall x: nat | x < BLOCK_SIZE :: b[x] == LastByte(ps, x)
  {
    seq(BLOCK_SIZE, x requires 0 <= x < BLOCK_SIZE => LastByte(ps, x))
  }

  ghost function LastByte(ps: seq<Packet>, x: nat): byte
    requires Covers(ps) && x < BLOCK_SIZE
  {
    LastWriter(ps, x).value
  }

  function AllTrue(n: nat): (s: seq<bool>)
    ensures |s| == n && forall t | 0 <= t < n :: s[t]
  {
    seq(n, t => true)
  }

  lemma {:induction false} AppliedAt(c: Block, ps: seq<Packet>, stored: seq<bool>, x: nat)
    requires |ps| == |stored| && (forall t | 0 <= t < |ps| :: stored[t]) && x < BLOCK_SIZE
    ensures Applied(c, ps, stored)[x] == if LastWriter(ps, x).Some? then LastWriter(ps, x).value else c[x]
  {
    if ps != [] {
      AppliedAt(c, ps[..|ps| - 1], stored[..|ps| - 1], x);
    }
  }

  lemma AllStored(c: Block, ps: seq<Packet>, stored: seq<bool>)
    requires |ps| == |stored| && (forall t | 0 <= t < |ps| :: stored[t]) && Covers(ps)
    ensures Applied(c, ps, stored) == Written(ps)
  {
    forall x | 0 <= x < BLOCK_SIZE
      ensures Applied(c, ps, stored)[x] == Written(ps)[x]
    {
      AppliedAt(c, ps, stored, x);
    }
  }

  /** Packets that all nodes stored make any two replicas equal exactly when they cover the block. */
  lemma ReplicasAgree(ps: seq<Packet>)
    ensures Covers(ps) <==> forall c, d :: Applied(c, ps, AllTrue(|ps|)) == Applied(d, ps, AllTrue(|ps|))
  {
    var all := AllTrue(|ps|);
    if Covers(ps) {
      forall c, d
        ensures Applied(c, ps, all) == Applied(d, ps, all)
      {
        AllStored(c, ps, all);
        AllStored(d, ps, all);
      }
    } else {
      var x: nat :| x < BLOCK_SIZE && !Covered(ps, x);
      var c: Block, d: Block := seq(BLOCK_SIZE, i => 0), seq(BLOCK_SIZE, i => 1);
      AppliedAt(c, ps, all, x);
      AppliedAt(d, ps, all, x);
      assert Applied(c, ps, all)[x] != Applied(d, ps, all)[x];
    }
  }
}
