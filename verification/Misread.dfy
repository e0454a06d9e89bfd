/** A first SEND of one packet on a queue pair as it is created: the packet goes out as the last of a
    message instead of the only one, and that is the whole difference. */
module Misread {
  import opened Messages
  import opened Psn
  import opened Scatter
  import opened RequesterProofs
  import opened AckProofs
  import opened ResponderProofs
  import opened PacketOrder
  import opened Transport
  import opened FirstMessage
  import Responder
  import Requester

  /** A SEND that fits one packet. */
  predicate Single(m: Message) { m.op == Send && 0 < |m.data| <= 8192 }

  function Patched(p: Packet): Packet { p.(opcode := SendLast) }

  /** The packets with the first one patched. */
  function Patch(ps: seq<Packet>): (qs: seq<Packet>)
    ensures |qs| == |ps|
  {
    if ps == [] then [] else [Patched(ps[0])] + ps[1..]
  }

  lemma PatchNext(ps: seq<Packet>, p: Packet)
    ensures Patch(ps + [p]) == Patch(ps) + [if ps == [] then Patched(p) else p]
  {
    if ps != [] {
      assert (ps + [p])[1..] == ps[1..] + [p];
    }
  }

  /** The opcode after n packets. */
  function PatchOpcode(n: nat, opcode: Opcode, start: Opcode): Opcode {
    if n == 0 then start else if n == 1 then SendLast else opcode
  }

  function MisreadSender(r: Requester.Requester): Requester.Requester {
    r.(sent := Patch(r.sent), opcode := PatchOpcode(|r.sent|, r.opcode, SendFirst))
  }

  function MisreadReceiver(s: Responder.Responder): Responder.Responder {
    s.(accepted := Patch(s.accepted), opcode := PatchOpcode(|s.accepted|, s.opcode, s.opcode))
  }

  /** The state of the created queue pair, from that of one whose opcode field was clear. */
  function MisreadSystem(g: System): System {
    g.(req := MisreadSender(g.req), resp := MisreadReceiver(g.resp))
  }

  predicate FirstSingle(ms: seq<Message>) { ms != [] ==> Single(ms[0]) }

  /** What is used of the run that the misread one follows. */
  predicate Leads(r: Requester.Requester) {
    && FirstCut(r, NoOpcode)
    && (r.queue != [] ==> Single(r.queue[0].msg))
    && (|r.sent| == 1 ==> r.opcode == SendOnly)
    && (r.sent != [] ==> r.sent[0].opcode == SendOnly && 1 <= r.index)
    && (r.sent == [] ==> r.psn == 0)
  }

  // ----- The sender -----

  lemma FirstEmission(r: Requester.Requester)
    requires Leads(r) && r.sent == [] && r.queue != []
    ensures Requester.EmitPacket(MisreadSender(r)) == MisreadSender(Requester.EmitPacket(r))
    ensures Leads(Requester.EmitPacket(r)) && !Requester.Skips(r.queue[0])
  {
    SmallWrap(0);
    SmallWrap(1);
    PatchNext(r.sent, Requester.EmitPacket(r).sent[0]);
    hide Wrap;
  }

  /** Neither opcode continues a message, so the next request is cut alike. */
  lemma SameNext(w: Requester.SendWqe)
    ensures Requester.NextOpcode(w, SendLast) == Requester.NextOpcode(w, SendOnly)
  {
  }

  lemma LaterEmission(r: Requester.Requester)
    requires Leads(r) && r.sent != [] && CanSend(r)
    ensures Requester.EmitPacket(MisreadSender(r)) == MisreadSender(Requester.EmitPacket(r))
    ensures Leads(Requester.EmitPacket(r))
  {
    SameNext(r.queue[r.index]);
    EmitsAfter(r);
    PatchNext(r.sent, Requester.EmitPacket(r).sent[|r.sent|]);
    hide Wrap, Requester.NextOpcode, Requester.CutFrom, NumPackets, Sendable;
    assert Requester.EmitPacket(r).queue[0] == r.queue[0];
  }

  lemma EmitsAfter(r: Requester.Requester)
    requires CanSend(r)
    ensures |Requester.EmitPacket(r).sent| == |r.sent| + 1
    ensures Requester.EmitPacket(r).sent == r.sent + [Requester.EmitPacket(r).sent[|r.sent|]]
    ensures FirstCut(r, NoOpcode) && r.sent != [] ==> FirstCut(Requester.EmitPacket(r), NoOpcode)
  {
    hide Wrap, Requester.NextOpcode, NumPackets, Sendable;
  }

  lemma SendFollows(r: Requester.Requester)
    requires Leads(r) && CanSend(r)
    ensures Requester.SendStep(MisreadSender(r)) ==
      (MisreadSender(Requester.SendStep(r).0), Requester.SendStep(r).1)
    ensures Leads(Requester.SendStep(r).0)
  {
    hide Requester.EmitPacket, PsnCompare, Requester.NextOpcode, Sendable;
    if r.sent == [] {
      FirstEmission(r);
    } else {
      LaterEmission(r);
    }
  }

  /** Acknowledgement processing neither reads nor changes the wire and the opcode field. */
  lemma {:induction false} AckIgnoresWire(r: Requester.Requester, sent: seq<Packet>, opcode: Opcode, psn: nat,
                                          syndrome: Requester.Syndrome)
    ensures Requester.HandleAck(r.(sent := sent, opcode := opcode), psn, syndrome) ==
      match Requester.HandleAck(r, psn, syndrome)
      case Running(r') => Requester.Running(r'.(sent := sent, opcode := opcode))
      case Halted(r', cause) => Requester.Halted(r'.(sent := sent, opcode := opcode), cause)
    decreases |r.queue| - r.tail
  {
    hide Wrap, PsnCompare;
    if r.tail < |r.queue| {
      AckIgnoresWire(Requester.Complete(r), sent, opcode, psn, syndrome);
    }
  }

  // ----- The receiver -----

  /** What the receiver asks of an opcode. */
  predicate SameKind(a: Opcode, b: Opcode) {
    && (a.IsSend() <==> b.IsSend()) && (a.IsWrite() <==> b.IsWrite()) && (a.HasReth() <==> b.HasReth())
    && (a.IsComp() <==> b.IsComp()) && (a.IsEnd() <==> b.IsEnd())
  }

  /** A receiver with other packets, as many of them, in its history and another last opcode. */
  function Recall(s: Responder.Responder, accepted: seq<Packet>, opcode: Opcode): Responder.Responder {
    s.(accepted := accepted, opcode := opcode)
  }

  function RecallTook(t: Responder.Reception, accepted: seq<Packet>, opcode: Opcode): Responder.Reception {
    match t
    case Stopped => Responder.Stopped
    case Took(s) => Responder.Took(Recall(s, accepted, opcode))
  }

  lemma StartWriteIgnores(s: Responder.Responder, p: Packet, q: Packet, accepted: seq<Packet>, opcode: Opcode)
    requires q == p.(opcode := q.opcode) && SameKind(p.opcode, q.opcode)
    ensures Responder.StartWrite(Recall(s, accepted, opcode), q)
        == RecallTook(Responder.StartWrite(s, p), accepted, opcode)
  {
  }

  lemma ExecuteIgnores(s: Responder.Responder, p: Packet, q: Packet, accepted: seq<Packet>, opcode: Opcode)
    requires q == p.(opcode := q.opcode) && SameKind(p.opcode, q.opcode)
    ensures Responder.Execute(Recall(s, accepted, opcode), q) == RecallTook(Responder.Execute(s, p), accepted, opcode)
  {
    hide ScatterPayload;
  }

  lemma AcceptIgnores(s: Responder.Responder, p: Packet, q: Packet, accepted: seq<Packet>, opcode: Opcode)
    requires q == p.(opcode := q.opcode) && SameKind(p.opcode, q.opcode) && |accepted| == |s.accepted|
    ensures Responder.Accept(Recall(s, accepted, opcode), q)
         == RecallTook(Responder.Accept(s, p), accepted + [q], q.opcode)
  {
    hide Wrap, Responder.StartWrite, Responder.Execute;
    var s0 := s.(sentNak := false);
    StartWriteIgnores(s0, p, q, accepted, opcode);
    match Responder.StartWrite(s0, p) {
      case Stopped =>
      case Took(s1) =>
        ExecuteIgnores(s1, p, q, accepted, opcode);
        SameHistory(s0, s1, p);
    }
  }

  lemma SameHistory(s0: Responder.Responder, s1: Responder.Responder, p: Packet)
    requires Responder.StartWrite(s0, p) == Responder.Took(s1)
    ensures s1.accepted == s0.accepted
    ensures Responder.Execute(s1, p).Took? ==> Responder.Execute(s1, p).next.accepted == s0.accepted
  {
    hide ScatterPayload;
  }

  /** Handling a packet depends on the history only through its length, and on the opcode only through
      its kind. */
  lemma RequestIgnores(s: Responder.Responder, p: Packet, q: Packet, accepted: seq<Packet>, opcode: Opcode)
    requires q == p.(opcode := q.opcode) && SameKind(p.opcode, q.opcode) && |accepted| == |s.accepted|
    ensures Responder.HandleRequest(Recall(s, accepted, opcode), q) ==
      if PsnCompare(p.psn, s.psn) == 0 then RecallTook(Responder.HandleRequest(s, p), accepted + [q], q.opcode)
      else RecallTook(Responder.HandleRequest(s, p), accepted, opcode)
  {
    hide Wrap, PsnCompare, Responder.Accept;
    AcceptIgnores(s, p, q, accepted, opcode);
  }

  // ----- Both sides -----

  ghost predicate LeadsBoth(g: System) { SysInv(g) && Leads(g.req) }

  lemma RequestFollows(s: Responder.Responder, p: Packet, i: nat)
    requires PsnCompare(p.psn, s.psn) == 256 * (i - |s.accepted|) && (i == 0 ==> p.opcode == SendOnly)
    ensures Responder.HandleRequest(MisreadReceiver(s), if i == 0 then Patched(p) else p) ==
      match Responder.HandleRequest(s, p)
      case Stopped => Responder.Stopped
      case Took(s') => Responder.Took(MisreadReceiver(s'))
  {
    hide Wrap, PsnCompare, Responder.Accept;
    var q := if i == 0 then Patched(p) else p;
    RequestIgnores(s, p, q, Patch(s.accepted), PatchOpcode(|s.accepted|, s.opcode, s.opcode));
    if i == |s.accepted| {
      AcceptedOpcode(s, p);
      PatchNext(s.accepted, p);
    } else {
      OtherKeepsHistory(s, p);
    }
  }

  lemma PatchAt(ps: seq<Packet>, i: nat)
    requires i < |ps|
    ensures Patch(ps)[i] == if i == 0 then Patched(ps[i]) else ps[i]
    ensures ps[0].opcode == SendOnly ==> Patch(ps)[i].opcode.IsEnd() == ps[i].opcode.IsEnd()
  {
  }

  lemma AfterFollows(g: System, resp: Responder.Responder)
    requires |resp.accepted| == |g.resp.accepted| || resp.accepted == [] || resp.accepted[0].opcode == SendOnly
    ensures AfterRequest(MisreadSystem(g), MisreadReceiver(resp)) == MisreadSystem(AfterRequest(g, resp))
  {
    if resp.accepted != [] {
      PatchAt(resp.accepted, |resp.accepted| - 1);
    }
    hide Patch;
  }

  lemma DeliverRequestFollows(g: System, i: nat)
    requires LeadsBoth(g) && Enabled(g, DeliverRequest(i))
    ensures Enabled(MisreadSystem(g), DeliverRequest(i))
    ensures Apply(MisreadSystem(g), DeliverRequest(i)) == MisreadSystem(Apply(g, DeliverRequest(i)))
    ensures Apply(g, DeliverRequest(i)).req == g.req
  {
    hide SysInv, Responder.HandleRequest, Patch, MisreadReceiver, Leads, AfterRequest, Patched, PsnCompare;
    var p := g.req.sent[i];
    ComparePackets(g, i);
    FirstOnWire(g.req, i);
    PatchAt(g.req.sent, i);
    RequestFollows(g.resp, p, i);
    match Responder.HandleRequest(g.resp, p) {
      case Stopped =>
      case Took(resp) =>
        AcceptedOnWire(g);
        AcceptedFirst(g.resp, p, i, resp);
        AfterFollows(g, resp);
        AfterKeepsSender(g, resp);
    }
  }

  lemma FirstOnWire(r: Requester.Requester, i: nat)
    requires Leads(r) && i < |r.sent|
    ensures i == 0 ==> r.sent[i].opcode == SendOnly
  {
  }

  lemma AfterKeepsSender(g: System, resp: Responder.Responder)
    ensures AfterRequest(g, resp).req == g.req
  {
  }

  lemma AcceptedOnWire(g: System)
    requires LeadsBoth(g)
    ensures g.resp.accepted != [] ==> g.resp.accepted[0].opcode == SendOnly
  {
    hide CoreInv, RecvInv, TailExact, NaksEmitted, AcksSent, FirstCut, Start;
    if g.resp.accepted != [] {
      FirstOnWire(g.req, 0);
    }
  }

  lemma AcceptedFirst(s: Responder.Responder, p: Packet, i: nat, resp: Responder.Responder)
    requires Responder.HandleRequest(s, p) == Responder.Took(resp)
    requires PsnCompare(p.psn, s.psn) == 256 * (i - |s.accepted|)
    requires i == 0 ==> p.opcode == SendOnly
    requires s.accepted != [] ==> s.accepted[0].opcode == SendOnly
    ensures |resp.accepted| == |s.accepted| || (resp.accepted != [] && resp.accepted[0].opcode == SendOnly)
  {
    hide PsnCompare, Responder.Accept, Wrap;
    AcceptedOpcode(s, p);
    if i != |s.accepted| {
      OtherKeepsHistory(s, p);
    }
  }

  lemma DeliverAckFollows(g: System, i: nat)
    requires LeadsBoth(g) && Enabled(g, DeliverAck(i))
    ensures Enabled(MisreadSystem(g), DeliverAck(i))
    ensures Apply(MisreadSystem(g), DeliverAck(i)) == MisreadSystem(Apply(g, DeliverAck(i)))
    ensures Leads(Apply(g, DeliverAck(i)).req)
  {
    hide SysInv, Requester.HandleAck, Patch, PatchOpcode, Requester.NextOpcode, Sendable;
    var r, a := g.req, g.resp.acks[i];
    AckIgnoresWire(r, Patch(r.sent), PatchOpcode(|r.sent|, r.opcode, SendFirst), a.psn, a.syndrome);
    AckKeepsWire(r, a.psn, a.syndrome);
  }

  lemma ApplyFollows(g: System, e: Event)
    requires LeadsBoth(g) && Enabled(g, e) && FirstSingle(MessagesIn(Apply(g, e)))
    ensures Enabled(MisreadSystem(g), e) && Apply(MisreadSystem(g), e) == MisreadSystem(Apply(g, e))
    ensures LeadsBoth(Apply(g, e))
  {
    hide SysInv, Requester.HandleAck, Requester.SendStep, Responder.HandleRequest, Patch, MisreadReceiver, Apply,
         Enabled,
         Leads, MisreadSystem, FirstSingle, MessagesIn;
    JoinsClear(g, e);
    ApplyInv(g, e);
    match e {
      case Queue(m) => QueueFollows(g, m);
      case PostRecv(w) => PostFollows(g, w);
      case SendOne => SendOneFollows(g);
      case DeliverRequest(i) => DeliverRequestFollows(g, i);
      case DeliverAck(i) => DeliverAckFollows(g, i);
    }
  }

  lemma JoinsClear(g: System, e: Event)
    requires Leads(g.req)
    ensures e.Queue? ==> Joins(g.req, e.m)
  {
    hide Sendable, Requester.NextOpcode, Single;
  }

  lemma QueueFollows(g: System, m: Message)
    requires Leads(g.req) && Enabled(g, Queue(m)) && FirstSingle(MessagesIn(Apply(g, Queue(m))))
    ensures Enabled(MisreadSystem(g), Queue(m)) && Apply(MisreadSystem(g), Queue(m))
        == MisreadSystem(Apply(g, Queue(m)))
    ensures Leads(Apply(g, Queue(m)).req)
  {
    hide Patch, MisreadReceiver, Requester.NextOpcode, Sendable;
  }

  lemma PostFollows(g: System, w: RecvWqe)
    requires Leads(g.req) && Enabled(g, PostRecv(w))
    ensures Enabled(MisreadSystem(g), PostRecv(w))
    ensures Apply(MisreadSystem(g), PostRecv(w)) == MisreadSystem(Apply(g, PostRecv(w)))
    ensures Leads(Apply(g, PostRecv(w)).req)
  {
    hide Patch, Leads;
  }

  lemma SendOneFollows(g: System)
    requires Leads(g.req) && Enabled(g, SendOne)
    ensures Enabled(MisreadSystem(g), SendOne) && Apply(MisreadSystem(g), SendOne) == MisreadSystem(Apply(g, SendOne))
    ensures Leads(Apply(g, SendOne).req)
  {
    hide Requester.SendStep, Patch, PatchOpcode, MisreadReceiver, FirstCut;
    SendFollows(g.req);
  }

  lemma EnabledBack(g: System, e: Event)
    requires Enabled(MisreadSystem(g), e)
    ensures Enabled(g, e)
  {
    hide Patch, PatchOpcode;
  }

  lemma {:induction false} RunFollows(g: System, events: seq<Event>)
    requires LeadsBoth(g) && Legal(MisreadSystem(g), events) && FirstSingle(MessagesIn(Run(MisreadSystem(g), events)))
    ensures Legal(g, events) && Run(MisreadSystem(g), events) == MisreadSystem(Run(g, events))
    ensures LeadsBoth(Run(g, events))
    decreases |events|
  {
    hide LeadsBoth, MisreadSystem, Enabled, Apply, MessagesIn, FirstSingle;
    if events != [] {
      var e := events[0];
      EnabledBack(g, e);
      RunKeepsMessages(Apply(MisreadSystem(g), e), events[1..]);
      SingleBefore(g, e, MessagesIn(Run(MisreadSystem(g), events)));
      ApplyFollows(g, e);
      RunFollows(Apply(g, e), events[1..]);
    }
  }

  /** And the other way, where nothing is queued. */
  lemma {:induction false} DeliveriesFollow(g: System, events: seq<Event>)
    requires LeadsBoth(g) && FirstSingle(MessagesIn(g)) && Legal(g, events)
    requires forall e | e in events :: !e.Queue?
    ensures Legal(MisreadSystem(g), events) && Run(MisreadSystem(g), events) == MisreadSystem(Run(g, events))
    decreases |events|
  {
    hide LeadsBoth, MisreadSystem, Enabled, Apply, MessagesIn, FirstSingle;
    if events != [] {
      ApplyKeepsMessages(g, events[0]);
      ApplyFollows(g, events[0]);
      DeliveriesFollow(Apply(g, events[0]), events[1..]);
    }
  }

  /** The first message of the run is that of each of its states. */
  lemma SingleBefore(g: System, e: Event, ms: seq<Message>)
    requires Enabled(g, e) && Enabled(MisreadSystem(g), e) && FirstSingle(ms)
    requires MessagesIn(Apply(MisreadSystem(g), e)) <= ms
    ensures FirstSingle(MessagesIn(Apply(g, e)))
  {
    hide Enabled, Apply, MisreadSystem, Single;
    ApplyKeepsMessages(g, e);
    ApplyKeepsMessages(MisreadSystem(g), e);
    SameMessages(g);
  }

  lemma SameMessages(g: System)
    ensures MessagesIn(MisreadSystem(g)) == MessagesIn(g)
  {
    hide Patch;
  }
}
