/** The receiving end of a queue pair as it is created does all it should in every run: the opcode that the
    sender gets wrong makes no difference to it. */
module CreatedReceivers {
  import opened Messages
  import opened Psn
  import opened RequesterProofs
  import opened AckProofs
  import opened ResponderProofs
  import opened PacketOrder
  import opened Repaired
  import opened Transport
  import opened TransportTheorems
  import opened FirstMessage
  import opened Misread
  import Requester
  import Responder
  import Scatter

  ghost predicate ClaimedSys(s: System) {
    Ordered(s) && RepairInv(s.req) && RecvInv(s.resp, MessagesIn(s), s.done, s.part)
  }

  /** The packet as it is differs from the packet as it should be in an opcode of the same kind. */
  lemma WireDiffers(r: Requester.Requester, i: nat)
    requires Misnumbered(r) && i < |r.sent|
    ensures var p, q := Base(r).sent[i], r.sent[i];
      p.psn == q.psn && q == p.(opcode := q.opcode) && (i > 0 ==> p == q)
      && (i == 0 ==> r.queue != [] && p.opcode == RightOpcode(r.queue[0].msg)
                     && q.opcode == WrongOpcode(r.queue[0].msg))
  {
    hide RepairQueue, RepairOpcode;
  }

  lemma KindsAgree(m: Message)
    ensures SameKind(RightOpcode(m), WrongOpcode(m))
  {
  }

  lemma SameKindItself(a: Opcode)
    ensures SameKind(a, a)
  {
  }

  /** The receiver's invariant counts the accepted packets and does not look at them. */
  lemma RecallKeeps(s: Responder.Responder, accepted: seq<Packet>, opcode: Opcode, ms: seq<Message>, done: nat,
                    part: nat)
    requires RecvInv(s, ms, done, part) && |accepted| == |s.accepted|
    ensures RecvInv(Recall(s, accepted, opcode), ms, done, part)
  {
    hide Wrap, Start, NumPackets, PrefixEnd, RecvCompletionsOf, AcksOk, Scatter.CursorOk, Scatter.Flat, NumSends,
         EffectsOf,
         MessageEffect;
  }

  lemma RecallItself(s: Responder.Responder)
    ensures Recall(s, s.accepted, s.opcode) == s
  {
  }

  lemma ClaimedIncoming(s: System)
    requires ClaimedSys(s) && |s.resp.accepted| < |s.req.sent|
    ensures Incoming(Base(s.req).sent[|s.resp.accepted|], MessagesIn(s), s.done, s.part)
  {
    hide QueueOk, WireOk, AckBitsOk, AsksOften, OpcodeOk, CompletionsOf, RecvInv, WindowOk, Incoming, Ordered,
         Misnumbered, RepairWire, RepairQueue, RepairOpcode;
    var b := Base(s.req);
    RepairMessages(s.req);
    IncomingOnWire(MessagesIn(s), b.index, PartSent(b.queue, b.index), b.sent, b.psn, s.resp, s.done, s.part);
  }

  /** Taking the next packet as it is does what taking it as it should be does. */
  lemma TakesAsItIs(s: Responder.Responder, p: Packet, q: Packet, ms: seq<Message>, done: nat, part: nat)
    requires RecvInv(s, ms, done, part) && Incoming(p, ms, done, part)
    requires q == p.(opcode := q.opcode) && SameKind(p.opcode, q.opcode)
    ensures match Responder.Accept(s, q)
      case Stopped => true
      case Took(s') =>
        && s'.accepted == s.accepted + [q]
        && (if q.opcode.IsEnd() then RecvInv(s', ms, done + 1, 0) else RecvInv(s', ms, done, part + 1))
  {
    hide RecvInv, Responder.Accept, Incoming, Recall;
    AcceptKeeps(s, p, ms, done, part);
    AcceptIgnores(s, p, q, s.accepted, s.opcode);
    RecallItself(s);
    AcceptedOpcode(s, q);
    match Responder.Accept(s, p) {
      case Stopped =>
      case Took(a) =>
        if p.opcode.IsEnd() {
          RecallKeeps(a, s.accepted + [q], q.opcode, ms, done + 1, 0);
        } else {
          RecallKeeps(a, s.accepted + [q], q.opcode, ms, done, part + 1);
        }
    }
  }

  /** The packet expected next, as it should be and as it is. */
  lemma NextDiffers(s: System) returns (p: Packet)
    requires ClaimedSys(s) && |s.resp.accepted| < |s.req.sent|
    ensures var q := s.req.sent[|s.resp.accepted|];
      q == p.(opcode := q.opcode) && SameKind(p.opcode, q.opcode) && Incoming(p, MessagesIn(s), s.done, s.part)
  {
    hide Ordered, RepairInv, RecvInv, Incoming, SameKind, Base;
    var n := |s.resp.accepted|;
    RepairParts(s.req);
    BaseLength(s.req);
    WireDiffers(s.req, n);
    KindOnWire(s.req, n);
    ClaimedIncoming(s);
    p := Base(s.req).sent[n];
  }

  lemma ClaimedAccept(s: System)
    requires ClaimedSys(s) && Enabled(s, DeliverRequest(|s.resp.accepted|))
    ensures var s' := Apply(s, DeliverRequest(|s.resp.accepted|));
      RecvInv(s'.resp, MessagesIn(s'), s'.done, s'.part)
  {
    hide Ordered, RepairInv, RecvInv, Responder.Accept, Incoming, PsnCompare, Wrap, SameKind;
    var n := |s.resp.accepted|;
    OrderedCompares(s, n);
    var p := NextDiffers(s);
    TakesAsItIs(s.resp, p, s.req.sent[n], MessagesIn(s), s.done, s.part);
    AfterKeepsSender(s, s.resp);
  }

  lemma BaseLength(r: Requester.Requester)
    ensures |Base(r).sent| == |r.sent|
  {
  }

  lemma RepairParts(r: Requester.Requester)
    requires RepairInv(r)
    ensures Misnumbered(r) && CoreInv(Base(r))
  {
  }

  lemma KindOnWire(r: Requester.Requester, i: nat)
    requires Misnumbered(r) && i < |r.sent|
    ensures SameKind(Base(r).sent[i].opcode, r.sent[i].opcode)
  {
    hide Base, Misnumbered, RightOpcode, WrongOpcode;
    WireDiffers(r, i);
    SameKindItself(r.sent[i].opcode);
    if i == 0 {
      KindsAgree(r.queue[0].msg);
    }
  }

  lemma ClaimedOther(s: System, i: nat)
    requires ClaimedSys(s) && Enabled(s, DeliverRequest(i)) && i != |s.resp.accepted|
    ensures var s' := Apply(s, DeliverRequest(i));
      RecvInv(s'.resp, MessagesIn(s'), s'.done, s'.part)
  {
    hide Ordered, RepairInv, RecvInv, Responder.Accept, PsnCompare, Wrap;
    OrderedCompares(s, i);
    NotNextKeeps(s.resp, s.req.sent[i], MessagesIn(s), s.done, s.part);
  }

  lemma ClaimedAck(s: System, i: nat)
    requires ClaimedSys(s) && Enabled(s, DeliverAck(i))
    ensures RepairInv(Apply(s, DeliverAck(i)).req)
  {
    hide Ordered, RepairInv, RecvInv, Apply, Enabled, WindowOk, SameWire;
    ApplyOrdered(s, DeliverAck(i));
    OrderedWindow(Apply(s, DeliverAck(i)));
    AckSameWire(s, i);
    RepairAck(s.req, Apply(s, DeliverAck(i)).req);
  }

  lemma AckSameWire(s: System, i: nat)
    requires Enabled(s, DeliverAck(i))
    ensures var s' := Apply(s, DeliverAck(i));
      SameWire(s.req, s'.req) && s'.resp == s.resp && s'.done == s.done && s'.part == s.part
  {
    hide Requester.HandleAck, SameWire;
    AckKeepsWire(s.req, s.resp.acks[i].psn, s.resp.acks[i].syndrome);
  }

  lemma OrderedWindow(s: System)
    requires Ordered(s)
    ensures WindowOk(s.req.compPsn, s.req.acked, |s.req.sent|)
  {
  }

  lemma ClaimedApply(s: System, e: Event)
    requires ClaimedSys(s) && Enabled(s, e) && (e.Queue? && s.req.queue == [] ==> Claimed(e.m))
    ensures ClaimedSys(Apply(s, e))
  {
    ApplyOrdered(s, e);
    ApplyKeepsMessages(s, e);
    hide Ordered, RepairInv, RecvInv, Requester.SendStep, Requester.HandleAck, Responder.HandleRequest, Claimed,
         MessagesIn;
    match e {
      case Queue(m) =>
        RepairEnqueue(s.req, m);
        EnqueueRecvInv(s.resp, MessagesIn(s), s.done, s.part, m);
      case PostRecv(w) => PostRecvInv(s.resp, w, MessagesIn(s), s.done, s.part);
      case SendOne => RepairSend(s.req);
      case DeliverRequest(i) =>
        DeliverRequestOrdered(s, i);
        if i == |s.resp.accepted| {
          ClaimedAccept(s);
        } else {
          ClaimedOther(s, i);
        }
      case DeliverAck(i) => ClaimedAck(s, i);
    }
  }

  lemma {:induction false} ClaimedRun(s: System, events: seq<Event>)
    requires ClaimedSys(s) && Legal(s, events)
    requires MessagesIn(Run(s, events)) != [] ==> Claimed(MessagesIn(Run(s, events))[0])
    ensures ClaimedSys(Run(s, events))
    decreases |events|
  {
    hide ClaimedSys, Enabled, Apply, Claimed;
    if events != [] {
      var s' := Apply(s, events[0]);
      ApplyKeepsMessages(s, events[0]);
      RunKeepsMessages(s', events[1..]);
      ClaimedApply(s, events[0]);
      ClaimedRun(s', events[1..]);
    }
  }

  lemma ClaimedInit(mrs: set<nat>)
    ensures ClaimedSys(Init(SendFirst, mrs))
  {
    InitInv(SendFirst, mrs);
    InitOrdered(SendFirst, mrs);
    RepairCreate();
    hide CoreInv, RecvInv, RepairInv, Ordered;
  }

  /** The first message of a run is claimed to have begun, or it is a good run. */
  lemma FirstIsClaimed(mrs: set<nat>, events: seq<Event>)
    requires Legal(Init(SendFirst, mrs), events)
    ensures var ms := MessagesIn(Run(Init(SendFirst, mrs), events));
      (ms != [] && Claimed(ms[0])) || GoodRun(SendFirst, mrs, events)
  {
    RunFirstCut(Init(SendFirst, mrs), events, SendFirst);
    hide Run, Init, Legal, Sendable, Requester.NextOpcode, Requester.Fresh;
    var r := Run(Init(SendFirst, mrs), events).req;
    if r.queue != [] {
      assert Sendable(r.queue[0].msg);
    }
  }

  /** In every run of a created queue pair, whatever its first message, the receiver's completions and the bytes
      written are those that the messages queued and the receive requests posted call for. */
  lemma ReceiverIsRight(mrs: set<nat>, events: seq<Event>)
    requires Legal(Init(SendFirst, mrs), events)
    ensures var s := Run(Init(SendFirst, mrs), events);
      ReceiverSound(s) && MessagesIn(s) == QueuedBy(events) && s.resp.posted == PostedBy(events)
  {
    hide Run, Init, Legal, ReceiverSound, ClaimedSys, Claimed, MessagesIn, GoodRun, QueuedBy, PostedBy;
    RunRecords(Init(SendFirst, mrs), events);
    NothingYet(SendFirst, mrs);
    ClaimedInit(mrs);
    FirstIsClaimed(mrs, events);
    if GoodRun(SendFirst, mrs, events) {
      CompletionIsSound(SendFirst, mrs, events);
      SoundReceiver(Run(Init(SendFirst, mrs), events));
    } else {
      ClaimedRun(Init(SendFirst, mrs), events);
      ClaimedIsSound(Run(Init(SendFirst, mrs), events));
    }
  }

  lemma SoundReceiver(s: System)
    requires Sound(s)
    ensures ReceiverSound(s)
  {
  }

  lemma ClaimedIsSound(s: System)
    requires ClaimedSys(s)
    ensures ReceiverSound(s)
  {
    hide ReceiverSound, RecvInv, Ordered, RepairInv, MessagesIn;
    InvIsReceiverSound(s);
  }
}
