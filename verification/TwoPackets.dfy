/** A first SEND of exactly two packets on a queue pair as it is created. Its packet numbers are wrong,
    so it may be completed too early; but acknowledgement processing never finds it not pending. */
module TwoPackets {
  import opened Messages
  import opened Psn
  import opened Requester
  import opened RequesterProofs
  import opened AckProofs
  import opened PacketOrder
  import opened Repaired
  import opened Transport
  import opened FirstMessage
  import Responder

  /** A SEND of two packets. */
  predicate Double(m: Message) { m.op == Send && 8192 < |m.data| <= 16384 }

  /** The tail is where the acknowledgements put it, or has passed the first request too early. */
  predicate TailNear(ms: seq<Message>, tail: nat, acked: nat) {
    && tail <= |ms|
    && (tail >= 2 ==> Start(ms, tail) <= acked)
    && (tail == 0 ==> acked <= 1)
    && (tail < |ms| ==> acked < Start(ms, tail + 1))
  }

  ghost predicate TwoInv(r: Requester) {
    var ms := MessagesOf(r.queue);
    && RepairInv(r)
    && (r.queue != [] ==> Double(r.queue[0].msg))
    && TailNear(ms, r.tail, r.acked)
    && (r.tail <= r.index || r.tail == 1)
    && r.cqes == CompletionsOf(ms[..r.tail])
  }

  lemma TwoCreate()
    ensures TwoInv(Create(SendFirst))
  {
    hide RepairInv, Double, NumPackets;
    var r := Create(SendFirst);
    RepairCreate();
    assert MessagesOf(r.queue) == [] && MessagesOf(r.queue)[..0] == [];
  }

  // ----- Queueing -----

  lemma TwoEnqueue(r: Requester, m: Message)
    requires TwoInv(r) && Sendable(m) && (r.queue == [] ==> Double(m))
    ensures TwoInv(Enqueue(r, m))
  {
    DoubleIsClaimed(m);
    NearGrows(r, m);
    hide RepairInv, TailNear, CompletionsOf, Sendable, Double, Claimed;
    RepairEnqueue(r, m);
    EnqueueStarts(r.queue, m);
    TailInside(r);
    assert (MessagesOf(r.queue) + [m])[..r.tail] == MessagesOf(r.queue)[..r.tail];
  }

  lemma DoubleIsClaimed(m: Message)
    ensures Double(m) ==> Claimed(m)
  {
  }

  lemma TailInside(r: Requester)
    requires TailNear(MessagesOf(r.queue), r.tail, r.acked)
    ensures r.tail <= |r.queue|
  {
  }

  lemma NearGrows(r: Requester, m: Message)
    requires CoreInv(Base(r)) && TailNear(MessagesOf(r.queue), r.tail, r.acked) && Sendable(m)
    ensures TailNear(MessagesOf(r.queue) + [m], r.tail, r.acked)
  {
    hide NumPackets, CoreInv;
    var ms := MessagesOf(r.queue);
    PacketsBound(m);
    StartPrefix(ms, m, r.tail);
    SentWithin(r);
    if r.tail < |ms| {
      StartPrefix(ms, m, r.tail + 1);
    }
  }

  // ----- Sending -----

  lemma FirstStart(ms: seq<Message>)
    requires ms != [] && Double(ms[0])
    ensures Start(ms, 0) == 0 && Start(ms, 1) == 2 && NumPackets(ms[0]) == 2
  {
    StartNext(ms, 0);
  }

  lemma TwoSend(r: Requester)
    requires TwoInv(r) && CanSend(r)
    ensures TwoInv(SendStep(r).0) && MessagesOf(SendStep(r).0.queue) == MessagesOf(r.queue)
    ensures SendStep(r).0.acked == r.acked && |r.sent| <= |SendStep(r).0.sent|
  {
    hide RepairInv, TailNear, CompletionsOf, SendStep, Double;
    RepairSend(r);
    EmitKeepsMessages(r);
    SendForward(r);
    SameFirst(r, SendStep(r).0);
  }

  lemma SameFirst(r: Requester, r': Requester)
    requires MessagesOf(r'.queue) == MessagesOf(r.queue)
    ensures |r'.queue| == |r.queue| && (r.queue != [] ==> r'.queue[0].msg == r.queue[0].msg)
  {
    assert r.queue != [] ==> MessagesOf(r'.queue)[0] == MessagesOf(r.queue)[0];
  }

  lemma SendForward(r: Requester)
    requires CanSend(r)
    ensures var r' := SendStep(r).0;
      r.index <= r'.index && r'.tail == r.tail && r'.acked == r.acked && r'.cqes == r.cqes
  {
    hide PsnCompare, Wrap, NextOpcode, MakePacket, CutFrom;
  }

  // ----- Acknowledgements -----

  function Rewired(r: Requester, queue: seq<SendWqe>, sent: seq<Packet>, opcode: Opcode): Requester {
    r.(queue := queue, sent := sent, opcode := opcode)
  }

  /** Past the first request, acknowledgement processing does not look at it, the wire or the opcode. */
  lemma {:induction false} AckIgnoresFirst(r: Requester, queue: seq<SendWqe>, sent: seq<Packet>, opcode: Opcode,
                                           psn: nat, syndrome: Syndrome)
    requires r.tail >= 1 && |queue| == |r.queue| && forall k | 1 <= k < |queue| :: queue[k] == r.queue[k]
    ensures HandleAck(Rewired(r, queue, sent, opcode), psn, syndrome) ==
      match HandleAck(r, psn, syndrome)
      case Running(r') => Running(Rewired(r', queue, sent, opcode))
      case Halted(r', cause) => Halted(Rewired(r', queue, sent, opcode), cause)
    decreases |r.queue| - r.tail
  {
    CompleteIgnores(r, queue, sent, opcode);
    hide Wrap, PsnCompare, Complete;
    if r.tail < |r.queue| {
      AckIgnoresFirst(Complete(r), queue, sent, opcode, psn, syndrome);
    }
  }

  lemma CompleteIgnores(r: Requester, queue: seq<SendWqe>, sent: seq<Packet>, opcode: Opcode)
    requires r.tail < |r.queue| == |queue| ==> queue[r.tail] == r.queue[r.tail]
    ensures r.tail < |r.queue| == |queue| ==>
      && Complete(Rewired(r, queue, sent, opcode)) == Rewired(Complete(r), queue, sent, opcode)
      && Complete(r).queue == r.queue && Complete(r).tail == r.tail + 1
      && Complete(r).compPsn == r.compPsn && Complete(r).acked == r.acked
  {
    hide Wrap, PsnCompare;
  }

  lemma CoreRebase(g: Requester, tail: nat)
    requires CoreInv(g) && tail <= g.index
    ensures CoreInv(g.(tail := tail, cqes := CompletionsOf(MessagesOf(g.queue)[..tail])))
  {
    hide WireOk, OpcodeOk, AckBitsOk, AsksOften, WindowOk, CompletionsOf, SentWhole, SentInPart, Start, AllSendable;
  }

  lemma CoreOf(r: Requester)
    requires TwoInv(r) && r.tail <= r.index
    ensures CoreInv(Repair(r))
  {
    hide CoreInv, TailNear, CompletionsOf, Misnumbered;
    RepairMessages(r);
    CoreRebase(Base(r), r.tail);
  }

  lemma BaseOf(r: Requester)
    requires CoreInv(Repair(r))
    ensures CoreInv(Base(r)) && r.cqes == CompletionsOf(MessagesOf(r.queue)[..r.tail]) && r.tail <= r.index
  {
    hide WireOk, OpcodeOk, AckBitsOk, AsksOften, WindowOk, CompletionsOf, SentWhole, SentInPart, Start, AllSendable;
    RepairMessages(r);
    CoreRebase(Repair(r), 0);
    assert MessagesOf(r.queue)[..0] == [];
    assert CompletionsOf(MessagesOf(r.queue)[..0]) == [] by { NoCompletions(MessagesOf(r.queue)[..0]); }
  }

  lemma NoCompletions(ms: seq<Message>)
    ensures ms == [] ==> CompletionsOf(ms) == []
  {
  }

  lemma ExactIsNear(ms: seq<Message>, tail: nat, acked: nat)
    requires TailExact(ms, tail, acked) && tail >= 1
    ensures TailNear(ms, tail, acked)
  {
  }

  /** An acknowledgement of a packet at or after the request at the tail is processed as by the repaired
      sender. */
  lemma TwoAckAhead(r: Requester, t: nat, syndrome: Syndrome)
    requires TwoInv(r) && r.tail >= 1 && r.acked <= t < |r.sent| && Start(MessagesOf(r.queue), r.tail) <= t
    ensures match HandleAck(r, Wrap(t), syndrome)
      case Running(r') => TwoInv(r') && r'.acked == t + 1
      case Halted(_, cause) => cause == NakReceived
  {
    hide CoreInv, TailNear, CompletionsOf, HandleAck, Wrap, Start, TailExact, Misnumbered, FirstStands, RepairQueue,
         RepairWire, RepairOpcode;
    var ms := MessagesOf(r.queue);
    RepairMessages(r);
    NearBounds(ms, r.tail, r.acked);
    SentBefore(r);
    CoreOf(r);
    AckIsExact(Repair(r), t, syndrome);
    AckIgnoresFirst(r, RepairQueue(r.queue), RepairWire(r.sent, FirstOpcode(r.queue)),
                    RepairOpcode(|r.sent|, r.opcode, FirstOpcode(r.queue)), Wrap(t), syndrome);
    AckKeepsWire(r, Wrap(t), syndrome);
    match HandleAck(r, Wrap(t), syndrome) {
      case Running(r') =>
        assert Repair(r') == Rewired(r', RepairQueue(r.queue), RepairWire(r.sent, FirstOpcode(r.queue)),
                    RepairOpcode(|r.sent|, r.opcode, FirstOpcode(r.queue)));
        assert Inv(Repair(r'));
        RepairMessages(r');
        BaseOf(r');
        ExactIsNear(ms, r'.tail, r'.acked);
        SameNumbers(r, r');
      case Halted(r', cause) =>
    }
  }

  lemma NearBounds(ms: seq<Message>, tail: nat, acked: nat)
    requires TailNear(ms, tail, acked)
    ensures tail <= |ms|
    ensures tail < |ms| ==> acked < Start(ms, tail + 1)
    ensures tail >= 2 ==> Start(ms, tail) <= acked
    ensures tail == 0 ==> acked <= 1
  {
  }

  /** What has been emitted belongs to requests up to the index. */
  lemma SentBefore(r: Requester)
    requires TwoInv(r) && r.tail >= 1 && r.tail <= |r.queue| && Start(MessagesOf(r.queue), r.tail) < |r.sent|
    ensures r.tail <= r.index
  {
    hide AckBitsOk, AsksOften, CompletionsOf, OpcodeOk, Numbered, Expected, Start, NumPackets, SentWhole, SentInPart,
         Wrap,
         RepairQueue, Misnumbered, TailNear, WindowOk;
    RepairMessages(r);
    var ms := MessagesOf(r.queue);
    if r.index < r.tail {
      StartNext(ms, r.index);
      StartMonotone(ms, r.index + 1, r.tail);
    }
  }

  /** The request at a tail past the first. */
  lemma TailRequest(r: Requester)
    requires TwoInv(r) && 1 <= r.tail < |r.queue| && r.queue[r.tail].state != Posted
    ensures var ms := MessagesOf(r.queue);
      && r.tail <= r.index
      && r.queue[r.tail].lastPsn == Wrap(Start(ms, r.tail + 1) - 1)
      && Start(ms, r.tail) < Start(ms, r.tail + 1) <= Start(ms, r.tail) + 0x4_0000
      && Start(ms, r.tail) <= |r.sent|
  {
    hide AckBitsOk, AsksOften, CompletionsOf, OpcodeOk, Numbered, Expected, Start, NumPackets, Wrap, Offset,
         RepairQueue, Misnumbered, TailNear, WindowOk, Sendable;
    RepairMessages(r);
    var ms := MessagesOf(r.queue);
    assert RepairQueue(r.queue)[r.tail] == r.queue[r.tail];
    assert Sendable(ms[r.tail]);
    StartNext(ms, r.tail);
    PacketsBound(ms[r.tail]);
    if r.tail < r.index {
      assert SentWhole(RepairQueue(r.queue)[r.tail], Start(ms, r.tail + 1));
      StartMonotone(ms, r.tail, r.index);
    }
  }

  /** The last step of the loop. */
  lemma WindowMoves(r: Requester, t: nat)
    requires TwoInv(r) && r.acked <= t < |r.sent| && TailNear(MessagesOf(r.queue), r.tail, t + 1)
    ensures var r' := r.(compPsn := Wrap(Wrap(t) + 1), acked := r.acked + 1 + Wrap(Wrap(t) - r.compPsn));
      TwoInv(r') && r'.acked == t + 1
  {
    hide QueueOk, WireOk, OpcodeOk, AckBitsOk, AsksOften, CompletionsOf, TailNear, Wrap, PsnCompare, Misnumbered;
    AckWindow(Base(r), t);
    WrapNext(t);
    var r' := r.(compPsn := Wrap(Wrap(t) + 1), acked := r.acked + 1 + Wrap(Wrap(t) - r.compPsn));
    RepairAck(r, r');
  }

  lemma BaseWithin(r: Requester)
    requires CoreInv(Base(r))
    ensures WindowOk(r.compPsn, r.acked, |r.sent|)
  {
  }

  lemma TwoComplete(r: Requester)
    requires TwoInv(r) && r.tail < |r.queue| && (r.tail == 0 || r.tail < r.index)
    requires TailNear(MessagesOf(r.queue), r.tail + 1, r.acked)
    ensures TwoInv(Complete(r)) && Complete(r).tail == r.tail + 1 && Complete(r).acked == r.acked
    ensures Complete(r).queue == r.queue && Complete(r).sent == r.sent && Complete(r).compPsn == r.compPsn
  {
    hide CoreInv, TailNear, Wrap, PsnCompare, Misnumbered;
    var ms := MessagesOf(r.queue);
    SameNumbers(r, Complete(r));
    BaseWithin(r);
    RepairAck(r, Complete(r));
    assert ms[..r.tail + 1][..r.tail] == ms[..r.tail];
  }

  /** Past the first request. */
  lemma TwoAckTail(r: Requester, t: nat, syndrome: Syndrome)
    requires TwoInv(r) && r.tail >= 1 && t < |r.sent| <= t + 0x40_0000
    ensures match HandleAck(r, Wrap(t), syndrome)
      case Running(r') => TwoInv(r') && (r'.acked == r.acked || r'.acked == t + 1)
      case Halted(_, cause) => cause == NakReceived
  {
    hide CoreInv, CompletionsOf, Wrap, Start, Misnumbered, PsnCompare, Complete, TailNear;
    var ms := MessagesOf(r.queue);
    NearBounds(ms, r.tail, r.acked);
    SentWithin(r);
    if r.tail < |r.queue| && r.queue[r.tail].state != Posted {
      TailRequest(r);
      if r.acked <= t && Start(ms, r.tail) <= t {
        TwoAckAhead(r, t, syndrome);
      } else {
        TwoAckBehind(r, t, syndrome);
      }
    }
  }

  /** An acknowledgement of a packet before the request at the tail, or before the window. */
  lemma TwoAckBehind(r: Requester, t: nat, syndrome: Syndrome)
    requires TwoInv(r) && 1 <= r.tail < |r.queue| && t < |r.sent| <= t + 0x40_0000 && r.queue[r.tail].state != Posted
    requires t < r.acked || t < Start(MessagesOf(r.queue), r.tail)
    ensures match HandleAck(r, Wrap(t), syndrome)
      case Running(r') => TwoInv(r') && (r'.acked == r.acked || r'.acked == t + 1)
      case Halted(_, cause) => cause == NakReceived
  {
    hide CoreInv, CompletionsOf, Wrap, Start, Misnumbered, PsnCompare, Complete, TailNear;
    var ms := MessagesOf(r.queue);
    NearBounds(ms, r.tail, r.acked);
    TailRequest(r);
    SentWithin(r);
    var last := Start(ms, r.tail + 1) - 1;
    WrapTwice(t);
    WrapTwice(last);
    CompareIsExact(Wrap(t), r.queue[r.tail].lastPsn, t, last);
    WrapMeets(t, last);
    BaseWindow(r);
    WrapTwice(r.acked);
    CompareIsExact(Wrap(t), r.compPsn, t, r.acked);
    if r.acked <= t {
      NearWhenOne(ms, r.tail, r.acked, t);
      WindowMoves(r, t);
    }
  }

  lemma BaseWindow(r: Requester)
    requires CoreInv(Base(r))
    ensures r.compPsn == Wrap(r.acked)
  {
  }

  /** Only the first request is ever passed early. */
  lemma NearWhenOne(ms: seq<Message>, tail: nat, acked: nat, t: nat)
    requires TailNear(ms, tail, acked) && 1 <= tail < |ms| && acked <= t < Start(ms, tail) < Start(ms, tail + 1)
    ensures TailNear(ms, tail, t + 1)
  {
    hide Start;
  }

  /** At the first request, whose last packet number is taken to be 0. */
  lemma TwoAckFirst(r: Requester, t: nat, syndrome: Syndrome)
    requires TwoInv(r) && r.tail == 0 && t < |r.sent| <= t + 0x40_0000
    ensures match HandleAck(r, Wrap(t), syndrome)
      case Running(r') => TwoInv(r') && (r'.acked == r.acked || r'.acked == t + 1)
      case Halted(_, cause) => cause == NakReceived
  {
    hide CoreInv, CompletionsOf, Start, PsnCompare, Complete, TailNear, Wrap;
    var ms := MessagesOf(r.queue);
    BaseStands(r);
    NearBounds(ms, 0, r.acked);
    FirstStart(ms);
    SentWithin(r);
    SmallWrap(0);
    SmallWrap(1);
    SmallWrap(t);
    SmallWrap(r.acked);
    BaseWindow(r);
    CompareIsExactSmall(t, 0);
    CompareIsExactSmall(t, r.acked);
    NearAfterFirst(ms, r.acked);
    TwoComplete(r);
    if t > 0 {
      TwoAckTail(Complete(r), t, syndrome);
    } else if r.acked == 0 {
      NearAfterFirst(ms, 1);
      if r.queue[0].state == Pending {
        WindowMoves(Complete(r), 0);
      } else {
        WindowMoves(r, 0);
      }
    }
  }

  lemma NearAfterFirst(ms: seq<Message>, acked: nat)
    requires ms != [] && Start(ms, 1) == 2 && acked <= 1 && AllSendable(ms)
    ensures TailNear(ms, 1, acked) && TailNear(ms, 0, acked)
  {
    hide NumPackets;
    if |ms| > 1 {
      StartNext(ms, 1);
      PacketsBound(ms[1]);
    }
  }

  /** Acknowledgement processing keeps the invariant and never finds a request not pending. */
  lemma TwoAck(r: Requester, t: nat, syndrome: Syndrome)
    requires TwoInv(r) && t < |r.sent| <= t + 0x40_0000
    ensures match HandleAck(r, Wrap(t), syndrome)
      case Running(r') => TwoInv(r') && (r'.acked == r.acked || r'.acked == t + 1)
      case Halted(_, cause) => cause == NakReceived
  {
    if r.tail == 0 {
      TwoAckFirst(r, t, syndrome);
    } else {
      TwoAckTail(r, t, syndrome);
    }
  }

  // ----- Both sides -----

  ghost predicate TwoSys(s: System) {
    && s.status != SenderStopped(NotPending)
    && Ordered(s)
    && (s.status == Live ==> TwoInv(s.req))
  }

  lemma TwoDeliverAck(s: System, i: nat)
    requires TwoSys(s) && Enabled(s, DeliverAck(i))
    ensures Apply(s, DeliverAck(i)).status == Live ==> TwoInv(Apply(s, DeliverAck(i)).req)
    ensures Apply(s, DeliverAck(i)).status != SenderStopped(NotPending)
  {
    hide TwoInv, HandleAck, Wrap, Ordered;
    var a := s.resp.acks[i];
    OrderedAckNames(s, i);
    TwoAck(s.req, Named(a), a.syndrome);
  }

  lemma TwoApply(s: System, e: Event)
    requires TwoSys(s) && Enabled(s, e) && (e.Queue? && s.req.queue == [] ==> Double(e.m))
    ensures TwoSys(Apply(s, e))
  {
    hide TwoInv, Ordered, Responder.HandleRequest, HandleAck, SendStep, Double;
    ApplyOrdered(s, e);
    match e {
      case Queue(m) => TwoEnqueue(s.req, m);
      case PostRecv(_) =>
      case SendOne => TwoSend(s.req);
      case DeliverRequest(i) => DeliverRequestOrdered(s, i);
      case DeliverAck(i) => TwoDeliverAck(s, i);
    }
  }

  lemma {:induction false} TwoRun(s: System, events: seq<Event>)
    requires TwoSys(s) && Legal(s, events)
    requires MessagesIn(Run(s, events)) != [] ==> Double(MessagesIn(Run(s, events))[0])
    ensures TwoSys(Run(s, events))
    decreases |events|
  {
    hide TwoSys, Enabled, Apply, Double;
    if events != [] {
      var s' := Apply(s, events[0]);
      ApplyKeepsMessages(s, events[0]);
      RunKeepsMessages(s', events[1..]);
      TwoApply(s, events[0]);
      TwoRun(s', events[1..]);
    }
  }

  /** No run of a created queue pair whose first message is a SEND of two packets reaches the assertion
      that a request is pending. */
  lemma TwoNeverAssert(mrs: set<nat>, events: seq<Event>)
    requires Legal(Init(SendFirst, mrs), events)
    requires var ms := MessagesIn(Run(Init(SendFirst, mrs), events)); ms != [] ==> Double(ms[0])
    ensures Run(Init(SendFirst, mrs), events).status != SenderStopped(NotPending)
  {
    TwoCreate();
    InitOrdered(SendFirst, mrs);
    hide TwoInv, Legal, Run, Double;
    TwoRun(Init(SendFirst, mrs), events);
  }
}
