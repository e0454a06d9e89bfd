/** A first SEND on a queue pair as it is created: what the sender would be, had it begun with a clear opcode
    field. The two emit the same packets but for the opcode of the first. */
module Repaired {
  import opened Messages
  import opened Psn
  import opened Requester
  import opened RequesterProofs
  import opened AckProofs
  import opened PacketOrder
  import opened Transport

  /** A message that SEND_FIRST in the opcode field claims to have begun. */
  predicate Claimed(m: Message) { m.op == Send && Sendable(m) }

  /** The opcode of its first packet as it should be, and as it is. */
  function RightOpcode(m: Message): Opcode { if |m.data| <= 8192 then SendOnly else SendFirst }
  function WrongOpcode(m: Message): Opcode { if |m.data| <= 8192 then SendLast else SendMiddle }

  function RepairQueue(queue: seq<SendWqe>): (q: seq<SendWqe>)
    ensures |q| == |queue| && forall k | 1 <= k < |queue| :: q[k] == queue[k]
  {
    if queue == [] || queue[0].state == Posted then queue
    else queue[0 := queue[0].(lastPsn := Wrap(NumPackets(queue[0].msg) - 1))]
  }

  /** The packets with another opcode in the first. */
  function RepairWire(ps: seq<Packet>, first: Opcode): (qs: seq<Packet>)
    ensures |qs| == |ps|
  {
    if ps == [] then [] else [ps[0].(opcode := first)] + ps[1..]
  }

  function RepairOpcode(n: nat, opcode: Opcode, first: Opcode): Opcode {
    if n == 0 then NoOpcode else if n == 1 then first else opcode
  }

  function FirstOpcode(queue: seq<SendWqe>): Opcode { if queue == [] then NoOpcode else RightOpcode(queue[0].msg) }

  function Repair(r: Requester): Requester {
    r.(queue := RepairQueue(r.queue), sent := RepairWire(r.sent, FirstOpcode(r.queue)),
       opcode := RepairOpcode(|r.sent|, r.opcode, FirstOpcode(r.queue)))
  }

  /** The same, with nothing completed. */
  function Base(r: Requester): Requester { Repair(r).(tail := 0, cqes := []) }

  /** How the first request and the wire differ from those of the repaired sender. */
  predicate Misnumbered(r: Requester) {
    && (r.queue != [] ==> Claimed(r.queue[0].msg) && r.queue[0].firstPsn == 0 && r.queue[0].lastPsn == 0)
    && (r.sent == [] ==> r.opcode == SendFirst)
    && (r.sent != [] ==> r.queue != [] && r.sent[0].opcode == WrongOpcode(r.queue[0].msg))
    && (|r.sent| == 1 ==> r.queue != [] && r.opcode == WrongOpcode(r.queue[0].msg))
  }

  ghost predicate RepairInv(r: Requester) { Misnumbered(r) && CoreInv(Base(r)) }

  lemma RepairMessages(r: Requester)
    ensures MessagesOf(RepairQueue(r.queue)) == MessagesOf(r.queue)
  {
    hide Wrap, NumPackets;
  }

  lemma RepairWireNext(ps: seq<Packet>, p: Packet, first: Opcode)
    ensures RepairWire(ps + [p], first) == RepairWire(ps, first) + [if ps == [] then p.(opcode := first) else p]
  {
    if ps != [] {
      assert (ps + [p])[1..] == ps[1..] + [p];
    }
  }

  lemma RepairCreate()
    ensures RepairInv(Create(SendFirst))
  {
    hide CoreInv, Claimed;
    CreateInv(NoOpcode);
    assert Base(Create(SendFirst)) == Create(NoOpcode);
  }

  // ----- Queueing -----

  lemma RepairEnqueue(r: Requester, m: Message)
    requires RepairInv(r) && Sendable(m) && (r.queue == [] ==> Claimed(m))
    ensures RepairInv(Enqueue(r, m))
    ensures Base(Enqueue(r, m)) == Enqueue(Base(r), m)
  {
    BaseEnqueue(r, m);
    BaseJoins(r, m);
    hide CoreInv, Sendable, Joins, Base, Enqueue;
    EnqueueCore(Base(r), m);
  }

  lemma BaseEnqueue(r: Requester, m: Message)
    requires Misnumbered(r) && (r.queue == [] ==> Claimed(m))
    ensures Misnumbered(Enqueue(r, m)) && Base(Enqueue(r, m)) == Enqueue(Base(r), m)
  {
    hide Wrap, NumPackets, Claimed;
    if r.queue == [] {
      assert r.sent == [];
    } else {
      assert (r.queue + [Fresh(m)])[0] == r.queue[0];
      assert Base(Enqueue(r, m)).queue == Enqueue(Base(r), m).queue;
    }
  }

  lemma BaseJoins(r: Requester, m: Message)
    requires Misnumbered(r)
    ensures Joins(Base(r), m)
  {
  }

  /** No more is emitted or acknowledged than the messages hold. */
  lemma SentWithin(r: Requester)
    requires CoreInv(Base(r))
    ensures r.acked <= |r.sent| <= Start(MessagesOf(r.queue), |r.queue|) && |r.sent| <= r.acked + 129
    ensures AllSendable(MessagesOf(r.queue)) && r.index <= |r.queue|
  {
    hide AckBitsOk, AsksOften, CompletionsOf, OpcodeOk, Numbered, Expected, Start, NumPackets, SentWhole, SentInPart,
         Wrap, AllSendable, RepairQueue;
    RepairMessages(r);
    EveryStart(MessagesOf(r.queue), r.index);
    if r.index == |r.queue| {
      assert |r.sent| == Start(MessagesOf(r.queue), r.index);
    }
  }

  // ----- Sending -----

  /** Where the first message stands. */
  predicate FirstStands(r: Requester) {
    && (r.sent == [] ==> r.index == 0 && r.psn == 0 && (r.queue != [] ==> r.queue[0] == Fresh(r.queue[0].msg)))
    && (r.sent != [] ==> r.queue != [] && r.queue[0].state != Posted)
    && (r.index == 0 && r.sent != [] ==>
          && r.queue[0].state == Processing && |r.sent| == r.queue[0].pktNum < NumPackets(r.queue[0].msg)
          && r.queue[0].offset == Offset(r.queue[0].pktNum) < |r.queue[0].msg.data| && r.opcode == SendMiddle)
    && (r.index > 0 ==> r.queue != [] && r.queue[0].state == Pending && |r.sent| >= NumPackets(r.queue[0].msg))
  }

  /** Between its first packet and its last. */
  lemma MiddleStands(r: Requester)
    requires RepairInv(r)
    ensures r.index == 0 && r.sent != [] ==> r.opcode == SendMiddle
  {
    hide AckBitsOk, AsksOften, WindowOk, CompletionsOf, Numbered, Expected, FragmentsOf, Offset, SentWhole, Wrap;
    RepairMessages(r);
    if r.queue != [] {
      OnePacket(r.queue[0].msg);
    }
    hide NumPackets;
  }

  lemma BaseStands(r: Requester)
    requires RepairInv(r)
    ensures FirstStands(r)
  {
    hide AckBitsOk, AsksOften, WindowOk, CompletionsOf, OpcodeOk, Numbered, Expected, FragmentsOf, Offset, Sendable,
         Wrap;
    RepairMessages(r);
    var ms := MessagesOf(r.queue);
    SmallWrap(0);
    MiddleStands(r);
    if r.queue != [] {
      StartNext(ms, 0);
      PacketsBound(ms[0]);
      if r.index > 0 {
        StartMonotone(ms, 1, r.index);
        assert SentWhole(RepairQueue(r.queue)[0], Start(ms, 1));
      }
    }
    hide Start;
  }

  /** Emission commutes with the repair: the first packet of the first message. */
  lemma EmitFirst(r: Requester)
    requires Misnumbered(r) && r.sent == [] && r.index == 0 && r.psn == 0 && r.queue != []
    requires r.queue[0] == Fresh(r.queue[0].msg)
    ensures Misnumbered(EmitPacket(r)) && Base(EmitPacket(r)) == EmitPacket(Base(r))
  {
    SmallWrap(0);
    SmallWrap(1);
    OnePacket(r.queue[0].msg);
    hide Wrap, NumPackets;
    var r' := EmitPacket(r);
    assert r'.sent[1..] == [];
    assert Base(r').queue == EmitPacket(Base(r)).queue;
  }

  lemma OnePacket(m: Message)
    requires Sendable(m)
    ensures NumPackets(m) >= 1 && (NumPackets(m) == 1 <==> |m.data| <= 8192)
  {
  }

  /** And every later packet. */
  lemma EmitLater(r: Requester)
    requires Misnumbered(r) && CanSend(r) && r.sent != [] && FirstStands(r)
    ensures Misnumbered(EmitPacket(r)) && Base(EmitPacket(r)) == EmitPacket(Base(r))
  {
    var w, w' := r.queue[r.index], RepairQueue(r.queue)[r.index];
    SameCut(r, w);
    SameButLast(r);
    EmittedFields(r);
    EmittedFields(Base(r));
    var op, payload := NextOpcode(w, r.opcode), PayloadOf(w);
    SamePacket(r, w, w', op, payload);
    LaterQueue(r, op, payload);
    LaterWire(r, EmitPacket(r), MakePacket(r, w, op, payload).0);
    hide Wrap, NextOpcode, NumPackets, RepairWire, RepairQueue, RepairOpcode, MakePacket, CutFrom, EmitPacket,
         Misnumbered, FirstStands, FirstOpcode;
  }

  predicate SameBut(w: SendWqe, w': SendWqe) { w' == w.(lastPsn := w'.lastPsn) }

  lemma SameButLast(r: Requester)
    requires r.index < |r.queue|
    ensures SameBut(r.queue[r.index], RepairQueue(r.queue)[r.index])
  {
  }

  lemma LaterQueue(r: Requester, op: Opcode, payload: nat)
    requires r.index < |r.queue| && r.queue[0].state != Posted && (r.index == 0 ==> !op.IsStart())
    ensures var w := r.queue[r.index];
      && RepairQueue(r.queue[r.index := CutFrom(w, op, payload, r.psn)])
         == RepairQueue(r.queue)[r.index := CutFrom(RepairQueue(r.queue)[r.index], op, payload, r.psn)]
      && CutFrom(w, op, payload, r.psn).msg == w.msg
      && (r.index == 0 ==> CutFrom(w, op, payload, r.psn).firstPsn == w.firstPsn
                           && CutFrom(w, op, payload, r.psn).lastPsn == w.lastPsn)
  {
    hide Wrap, NumPackets;
  }

  lemma LaterWire(r: Requester, r': Requester, p: Packet)
    requires Misnumbered(r) && r.sent != [] && r'.sent == r.sent + [p]
    requires |r'.queue| == |r.queue| && r'.queue[0].msg == r.queue[0].msg
    requires r'.queue[0].firstPsn == r'.queue[0].lastPsn == 0
    ensures FirstOpcode(r'.queue) == FirstOpcode(r.queue)
    ensures RepairWire(r'.sent, FirstOpcode(r.queue)) == RepairWire(r.sent, FirstOpcode(r.queue)) + [p]
    ensures RepairOpcode(|r'.sent|, r'.opcode, FirstOpcode(r.queue)) == r'.opcode
    ensures Misnumbered(r')
  {
    RepairWireNext(r.sent, p, FirstOpcode(r.queue));
  }

  /** The packet depends on what the repair leaves alone. */
  lemma SamePacket(r: Requester, w: SendWqe, w': SendWqe, opcode: Opcode, payload: nat)
    requires SameBut(w, w') && w.offset + payload <= |w.msg.data|
    ensures MakePacket(Base(r), w', opcode, payload) == MakePacket(r, w, opcode, payload)
  {
    hide Wrap, RepairWire, RepairQueue;
  }

  lemma SameCut(r: Requester, w: SendWqe)
    requires Misnumbered(r) && CanSend(r) && r.sent != [] && FirstStands(r) && w == r.queue[r.index]
    ensures NextOpcode(RepairQueue(r.queue)[r.index], RepairOpcode(|r.sent|, r.opcode, FirstOpcode(r.queue)))
         == NextOpcode(w, r.opcode)
    ensures r.index == 0 ==> !NextOpcode(w, r.opcode).IsStart()
  {
    OnePacket(r.queue[0].msg);
    hide Wrap, NumPackets;
  }

  lemma SendCommutes(r: Requester)
    requires RepairInv(r) && CanSend(r)
    ensures Misnumbered(SendStep(r).0) && Base(SendStep(r).0) == SendStep(Base(r)).0
  {
    BaseStands(r);
    hide CoreInv, EmitPacket, PsnCompare, Claimed, RepairWire, Misnumbered;
    BaseFields(r);
    if r.sent == [] {
      EmitFirst(r);
    } else {
      EmitLater(r);
    }
    SkipCommutes(r);
  }

  lemma SkipCommutes(r: Requester)
    requires Misnumbered(r)
    ensures Misnumbered(r.(index := r.index + 1)) && Base(r.(index := r.index + 1)) == Base(r).(index := r.index + 1)
  {
    hide Claimed, RepairWire, RepairQueue;
  }

  /** What decides the next step is the same. */
  lemma BaseFields(r: Requester)
    requires CanSend(r)
    ensures Base(r).index == r.index && |Base(r).queue| == |r.queue|
    ensures Skips(Base(r).queue[r.index]) == Skips(r.queue[r.index]) && WindowClosed(Base(r)) == WindowClosed(r)
  {
    hide PsnCompare, RepairWire, Wrap, NumPackets;
  }

  lemma RepairSend(r: Requester)
    requires RepairInv(r) && CanSend(r)
    ensures RepairInv(SendStep(r).0) && MessagesOf(SendStep(r).0.queue) == MessagesOf(r.queue)
  {
    hide CoreInv, Misnumbered, EmitPacket, PsnCompare;
    SendStepCore(Base(r));
    SendCommutes(r);
    EmitKeepsMessages(r);
  }

  // ----- Acknowledgements -----

  lemma SameNumbers(r: Requester, r': Requester)
    requires Misnumbered(r) && SameWire(r, r')
    ensures Misnumbered(r')
  {
  }

  /** The invariant of the sender holds whatever the window and the number expected. */
  lemma CoreIgnoresWindow(g: Requester, compPsn: nat, acked: nat, recvPsn: nat)
    requires CoreInv(g) && WindowOk(compPsn, acked, |g.sent|)
    ensures CoreInv(g.(compPsn := compPsn, acked := acked, recvPsn := recvPsn))
  {
    hide QueueOk, WireOk, OpcodeOk, AckBitsOk, AsksOften, CompletionsOf, WindowOk;
  }

  /** So acknowledgement processing, whatever it does to the tail, keeps the repaired sender. */
  lemma RepairAck(r: Requester, r': Requester)
    requires RepairInv(r) && SameWire(r, r') && WindowOk(r'.compPsn, r'.acked, |r'.sent|)
    ensures RepairInv(r')
  {
    hide CoreInv, Misnumbered, WindowOk, RepairQueue, RepairWire, RepairOpcode;
    SameNumbers(r, r');
    CoreIgnoresWindow(Base(r), r'.compPsn, r'.acked, r'.recvPsn);
    assert Base(r') == Base(r).(compPsn := r'.compPsn, acked := r'.acked, recvPsn := r'.recvPsn);
  }
}
