/** Messages, packets, and the reference definition of how one becomes the other. */
module Messages {
  import opened Options

  type Byte = b: int | 0 <= b < 0x100

  /** IBV_WR_SEND and IBV_WR_RDMA_WRITE. */
  datatype WrOpcode = Send | RdmaWrite

  /** The part of a work request that its packets are made from. */
  datatype Message = Message(op: WrOpcode, data: seq<Byte>, remoteAddr: nat, rkey: nat, curPos: nat, signaled: bool)

  /** The reliable-connection opcodes this transport sends; NoOpcode is OPCODE_NONE. */
  datatype Opcode =
    | NoOpcode
    | SendFirst | SendMiddle | SendLast | SendOnly
    | WriteFirst | WriteMiddle | WriteLast | WriteOnly
  {
    // The mask column of the opcode table.
    predicate IsStart() { SendFirst? || SendOnly? || WriteFirst? || WriteOnly? }
    predicate IsEnd() { SendLast? || SendOnly? || WriteLast? || WriteOnly? }
    predicate IsSend() { SendFirst? || SendMiddle? || SendLast? || SendOnly? }
    predicate IsWrite() { WriteFirst? || WriteMiddle? || WriteLast? || WriteOnly? }
    predicate HasReth() { WriteFirst? || WriteOnly? }
    predicate IsComp() { SendLast? || SendOnly? }

    /** A message of this kind is unfinished after such a packet. */
    predicate Continues(op: WrOpcode) {
      if op == Send then SendFirst? || SendMiddle? else WriteFirst? || WriteMiddle?
    }
  }

  datatype Reth = Reth(va: nat, rkey: nat, len: nat)

  datatype Packet = Packet(opcode: Opcode, psn: nat, ackReq: bool, reth: Option<Reth>, payload: seq<Byte>)

  // ----- What the packets of a message should be -----

  /** A packet without its sequence number and acknowledge bit. */
  datatype Fragment = Fragment(opcode: Opcode, reth: Option<Reth>, payload: seq<Byte>)

  function FragmentOf(p: Packet): Fragment { Fragment(p.opcode, p.reth, p.payload) }

  /** A byte count the sender handles: positive, and an int. */
  predicate Sendable(m: Message) { 0 < |m.data| < 0x8000_0000 }

  function NumPackets(m: Message): nat { (|m.data| + 8191) / 8192 }

  /** SMARTNS_MTU bytes a packet. */
  function Offset(j: nat): nat { 8192 * j }

  function SliceEnd(m: Message, j: nat): nat {
    if Offset(j + 1) < |m.data| then Offset(j + 1) else |m.data|
  }

  function OpcodeAt(m: Message, j: nat): Opcode {
    if NumPackets(m) == 1 then (if m.op == Send then SendOnly else WriteOnly)
    else if j == 0 then (if m.op == Send then SendFirst else WriteFirst)
    else if j + 1 == NumPackets(m) then (if m.op == Send then SendLast else WriteLast)
    else if m.op == Send then SendMiddle else WriteMiddle
  }

  /** Packet j of message m. */
  function FragmentAt(m: Message, j: nat): Fragment
    requires Offset(j) <= |m.data|
  {
    Fragment(OpcodeAt(m, j),
             if j == 0 && m.op == RdmaWrite then Some(Reth(m.remoteAddr, m.rkey, |m.data|)) else None,
             m.data[Offset(j)..SliceEnd(m, j)])
  }

  /** The first j packets of m. */
  function Fragments(m: Message, j: nat): (fs: seq<Fragment>)
    requires j <= NumPackets(m)
    ensures |fs| == j
    decreases j
  {
    if j == 0 then [] else Fragments(m, j - 1) + [FragmentAt(m, j - 1)]
  }

  /** Every packet of every message, in order: the reference the wire is compared with. */
  function AllFragments(ms: seq<Message>): seq<Fragment>
    decreases |ms|
  {
    if ms == [] then []
    else AllFragments(ms[..|ms| - 1]) + Fragments(ms[|ms| - 1], NumPackets(ms[|ms| - 1]))
  }

  /** The number of packets of the first k messages, so the packet number at which message k starts. */
  function Start(ms: seq<Message>, k: nat): nat
    requires k <= |ms|
    decreases k
  {
    if k == 0 then 0 else Start(ms, k - 1) + NumPackets(ms[k - 1])
  }

  lemma {:induction false} AllFragmentsLength(ms: seq<Message>, k: nat)
    requires k <= |ms|
    ensures |AllFragments(ms[..k])| == Start(ms, k)
    decreases k
  {
    if k > 0 {
      AllFragmentsLength(ms, k - 1);
      assert ms[..k][..k - 1] == ms[..k - 1];
    }
  }

  lemma AllFragmentsNext(ms: seq<Message>, k: nat)
    requires k < |ms|
    ensures AllFragments(ms[..k + 1]) == AllFragments(ms[..k]) + Fragments(ms[k], NumPackets(ms[k]))
  {
    assert ms[..k + 1][..k] == ms[..k];
  }

  lemma {:induction false} StartPrefix(ms: seq<Message>, m: Message, k: nat)
    requires k <= |ms|
    ensures Start(ms + [m], k) == Start(ms, k)
    decreases k
  {
    if k > 0 {
      StartPrefix(ms, m, k - 1);
    }
  }

  lemma {:induction false} StartMonotone(ms: seq<Message>, j: nat, k: nat)
    requires j <= k <= |ms|
    requires forall i | 0 <= i < |ms| :: Sendable(ms[i])
    ensures Start(ms, j) + (k - j) <= Start(ms, k)
    decreases k
  {
    if j < k {
      StartMonotone(ms, j, k - 1);
    }
  }

  /** The packet numbers of two messages do not meet. */
  lemma StartOrder(ms: seq<Message>, j: nat, k: nat, n: nat)
    requires j < |ms| && k <= |ms|
    requires forall i | 0 <= i < |ms| :: Sendable(ms[i])
    requires n < Start(ms, j + 1) && Start(ms, k) <= n
    ensures k <= j
  {
    if j < k {
      StartMonotone(ms, j + 1, k);
    }
  }

  // ----- Fragments put together are the message -----

  function Payloads(fs: seq<Fragment>): seq<Byte>
    decreases |fs|
  {
    if fs == [] then [] else Payloads(fs[..|fs| - 1]) + fs[|fs| - 1].payload
  }

  /** Where the first j packets of m end. */
  function PrefixEnd(m: Message, j: nat): nat {
    if j == NumPackets(m) then |m.data| else Offset(j)
  }

  lemma SliceEndIsPrefixEnd(m: Message, j: nat)
    requires Sendable(m) && j < NumPackets(m)
    ensures SliceEnd(m, j) == PrefixEnd(m, j + 1) <= |m.data|
    ensures Offset(j) == PrefixEnd(m, j) < |m.data|
  {
  }

  lemma {:induction false} PayloadsOfPrefix(m: Message, j: nat)
    requires Sendable(m) && j <= NumPackets(m) && PrefixEnd(m, j) <= |m.data|
    ensures Payloads(Fragments(m, j)) == m.data[..PrefixEnd(m, j)]
    decreases j
  {
    if j > 0 {
      SliceEndIsPrefixEnd(m, j - 1);
      hide PrefixEnd, Offset, SliceEnd, NumPackets;
      var fs := Fragments(m, j);
      assert fs[..j - 1] == Fragments(m, j - 1);
      PayloadsOfPrefix(m, j - 1);
      assert m.data[..PrefixEnd(m, j - 1)] + m.data[PrefixEnd(m, j - 1)..PrefixEnd(m, j)] == m.data[..PrefixEnd(m, j)];
    }
  }

  /** The payloads of a message's packets concatenate to the message. */
  lemma SegmentationIsLossless(m: Message)
    requires Sendable(m)
    ensures Payloads(Fragments(m, NumPackets(m))) == m.data
  {
    PayloadsOfPrefix(m, NumPackets(m));
  }
}
