/** The sender, the receiver and the network between them, over whole runs. Traffic is one way. The
    network is the log of what was emitted: delivering an entry any number of times, in any order or
    never is duplication, reordering and loss. */
module Transport {
  import opened Messages
  import opened Psn
  import opened Scatter
  import opened RequesterProofs
  import opened AckProofs
  import opened ResponderProofs
  import Requester
  import Responder

  /** done and part are history: messages received whole, and packets of the next one. */
  datatype System = System(req: Requester.Requester, resp: Responder.Responder, done: nat, part: nat, status: Status)

  /** Whether one end has reached an assertion or exit of the source, and which. */
  datatype Status = Live | ReceiverStopped | SenderStopped(cause: Requester.Cause)

  datatype Event =
    | Queue(m: Message)
    | PostRecv(w: RecvWqe)
    | SendOne
    | DeliverRequest(i: nat)
    | DeliverAck(i: nat)

  function Init(opcode: Opcode, mrs: set<nat>): System {
    System(Requester.Create(opcode), Responder.Create(mrs), 0, 0, Live)
  }

  /** The loop of rxe_handle_req has a request to look at. */
  predicate CanSend(r: Requester.Requester) {
    r.tail < |r.queue| && r.index < |r.queue| && r.queue[r.index].offset <= |r.queue[r.index].msg.data|
  }

  /** The number of the packet an acknowledgement names. */
  function Named(a: Responder.Ack): int {
    if a.syndrome == Requester.AckUnlimited then a.covers - 1 else a.covers
  }

  /** What the environment may do: a delivered packet is at most 2^22 packet numbers old. */
  predicate Enabled(s: System, e: Event) {
    && s.status == Live
    && match e
       case Queue(m) => Sendable(m)
       case PostRecv(w) => |w.sges| <= w.maxSge
       case SendOne => CanSend(s.req)
       case DeliverRequest(i) => i < |s.req.sent| <= i + 0x40_0000
       case DeliverAck(i) => i < |s.resp.acks| && |s.req.sent| <= Named(s.resp.acks[i]) + 0x40_0000
  }

  /** The receiver's state after a packet, with the history brought up to date. */
  function AfterRequest(s: System, resp: Responder.Responder): System {
    if |resp.accepted| == |s.resp.accepted| || resp.accepted == [] then s.(resp := resp)
    else if resp.accepted[|resp.accepted| - 1].opcode.IsEnd() then s.(resp := resp, done := s.done + 1, part := 0)
    else s.(resp := resp, part := s.part + 1)
  }

  function Apply(s: System, e: Event): System
    requires Enabled(s, e)
  {
    match e
    case Queue(m) => s.(req := Requester.Enqueue(s.req, m))
    case PostRecv(w) => s.(resp := Responder.PostRecv(s.resp, w))
    case SendOne => s.(req := Requester.SendStep(s.req).0)
    case DeliverRequest(i) =>
      (match Responder.HandleRequest(s.resp, s.req.sent[i])
       case Took(resp) => AfterRequest(s, resp)
       case Stopped => s.(status := ReceiverStopped))
    case DeliverAck(i) =>
      match Requester.HandleAck(s.req, s.resp.acks[i].psn, s.resp.acks[i].syndrome)
      case Running(req) => s.(req := req)
      case Halted(req, cause) => s.(req := req, status := SenderStopped(cause))
  }

  predicate Legal(s: System, events: seq<Event>)
    decreases |events|
  {
    events == [] || (Enabled(s, events[0]) && Legal(Apply(s, events[0]), events[1..]))
  }

  function Run(s: System, events: seq<Event>): System
    requires Legal(s, events)
    decreases |events|
  {
    if events == [] then s else Run(Apply(s, events[0]), events[1..])
  }

  // ----- The invariant of every run -----

  /** A NAK names a packet that has been emitted. */
  predicate NaksEmitted(acks: seq<Responder.Ack>, emitted: nat) {
    forall i | 0 <= i < |acks| && acks[i].syndrome == Requester.NakPsnSeqError :: acks[i].covers < emitted
  }

  ghost predicate SysInv(s: System) {
    var ms := Requester.MessagesOf(s.req.queue);
    && CoreInv(s.req)
    && s.status != SenderStopped(Requester.NotPending)
    && (s.status == Live ==> TailExact(ms, s.req.tail, s.req.acked))
    && RecvInv(s.resp, ms, s.done, s.part)
    && s.resp.accepted <= s.req.sent
    && NaksEmitted(s.resp.acks, |s.req.sent|)
    && AcksSent(s.resp.accepted, s.resp.acks)
    && s.req.acked <= |s.resp.accepted|
    && s.req.tail <= |ms| && Start(ms, s.req.tail) <= |s.resp.accepted|
  }

  lemma InitInv(opcode: Opcode, mrs: set<nat>)
    ensures SysInv(Init(opcode, mrs))
  {
    CreateInv(opcode);
    var s := Init(opcode, mrs);
    assert Requester.MessagesOf(s.req.queue) == [];
  }

  lemma {:induction false} ExpectedAt(ms: seq<Message>, index: nat, part: nat, k: nat, j: nat)
    requires index <= |ms| && part <= (if index < |ms| then NumPackets(ms[index]) else 0)
    requires k < |ms| && j < NumPackets(ms[k]) && AllSendable(ms)
    requires Start(ms, k) + j < Start(ms, index) + part
    ensures Offset(j) <= |ms[k].data|
    ensures |Expected(ms, index, part)| == Start(ms, index) + part
    ensures Expected(ms, index, part)[Start(ms, k) + j] == FragmentAt(ms[k], j)
    decreases index
  {
    hide FragmentAt, NumPackets, Start, AllFragments, Offset;
    AllFragmentsLength(ms, index);
    StartNext(ms, k);
    if k < index {
      AllFragmentsNext(ms, index - 1);
      StartNext(ms, index - 1);
      AllFragmentsLength(ms, index - 1);
      StartMonotone(ms, k + 1, index);
      if k == index - 1 {
        FragmentsAt(ms[k], NumPackets(ms[k]), j);
      } else {
        StartMonotone(ms, k + 1, index - 1);
        assert Expected(ms, index - 1, 0) == AllFragments(ms[..index - 1]);
        ExpectedAt(ms, index - 1, 0, k, j);
      }
    } else {
      if index < k {
        StartNext(ms, index);
        StartMonotone(ms, index + 1, k);
      }
      FragmentsAt(ms[k], part, j);
    }
  }

  lemma {:induction false} FragmentsAt(m: Message, n: nat, j: nat)
    requires Sendable(m) && j < n <= NumPackets(m)
    ensures Offset(j) <= |m.data|
    ensures Fragments(m, n)[j] == FragmentAt(m, j)
    decreases n
  {
    if j < n - 1 {
      FragmentsAt(m, n - 1, j);
    }
  }

  /** The packet that continues the accepted prefix is the next packet of the next message. */
  lemma IncomingOnWire(ms: seq<Message>, index: nat, sentPart: nat, sent: seq<Packet>, psn: nat,
                       resp: Responder.Responder, done: nat, part: nat)
    requires WireOk(ms, index, sentPart, sent, psn) && RecvInv(resp, ms, done, part) && |resp.accepted| < |sent|
    ensures Incoming(sent[|resp.accepted|], ms, done, part)
  {
    hide RegistersOk, OutputOk, AcksOk, FragmentAt, Wrap, Expected, Offset, NumPackets, Start;
    var n := |resp.accepted|;
    if done == |ms| {
      EveryStart(ms, index);
    }
    ExpectedAt(ms, index, sentPart, done, part);
    assert FragmentsOf(sent)[n] == FragmentOf(sent[n]);
  }

  lemma NextIncoming(s: System)
    requires SysInv(s) && |s.resp.accepted| < |s.req.sent|
    ensures Incoming(s.req.sent[|s.resp.accepted|], Requester.MessagesOf(s.req.queue), s.done, s.part)
  {
    hide AcksSent, QueueOk, WireOk, AckBitsOk, AsksOften, OpcodeOk, CompletionsOf, RecvInv, TailExact, WindowOk, Start,
         Incoming;
    var r := s.req;
    IncomingOnWire(Requester.MessagesOf(r.queue), r.index, PartSent(r.queue, r.index), r.sent, r.psn, s.resp, s.done,
                   s.part);
  }

  /** The receiver lacks a receive request, room in its buffers, or the region of a write. */
  predicate Starved(s: System) {
    var ms := Requester.MessagesOf(s.req.queue);
    s.done < |ms| && !CanTake(s.resp, ms[s.done], s.part)
  }

  lemma AcceptInv(s: System, i: nat)
    requires SysInv(s) && Enabled(s, DeliverRequest(i)) && i == |s.resp.accepted|
    ensures SysInv(Apply(s, DeliverRequest(i)))
    ensures Apply(s, DeliverRequest(i)).status == if Starved(s) then ReceiverStopped else Live
  {
    hide AcksSent, CoreInv, TailExact, RecvInv, Incoming, Responder.Accept, Wrap, Start, NumPackets, CanTake,
         PsnCompare;
    var ms, p := Requester.MessagesOf(s.req.queue), s.req.sent[i];
    NextIncoming(s);
    IncomingDone(p, ms, s.done, s.part);
    AcceptKeeps(s.resp, p, ms, s.done, s.part);
    AcksGrow(s.resp, p);
    AcksSentGrows(s.resp, p);
    ComparePackets(s, i);
    assert s.req.sent[..i + 1] == s.resp.accepted + [p];
  }

  lemma IncomingDone(p: Packet, ms: seq<Message>, done: nat, part: nat)
    requires Incoming(p, ms, done, part)
    ensures done < |ms|
  {
  }

  /** Packet i compares with the expected one as their numbers do. */
  predicate Compares(s: System, i: nat) {
    && i < |s.req.sent| && s.req.sent[i].psn == Wrap(i)
    && PsnCompare(s.req.sent[i].psn, s.resp.psn) == 256 * (i - |s.resp.accepted|)
  }

  lemma ComparePackets(s: System, i: nat)
    requires SysInv(s) && Enabled(s, DeliverRequest(i))
    ensures Compares(s, i)
  {
    hide AcksSent, QueueOk, AckBitsOk, AsksOften, OpcodeOk, CompletionsOf, RegistersOk, OutputOk, AcksOk, TailExact,
         PsnCompare, Wrap, Expected;
    WrapTwice(i);
    WrapTwice(|s.resp.accepted|);
    CompareIsExact(s.req.sent[i].psn, s.resp.psn, i, |s.resp.accepted|);
  }

  lemma DeliverRequestInv(s: System, i: nat)
    requires SysInv(s) && Enabled(s, DeliverRequest(i))
    ensures SysInv(Apply(s, DeliverRequest(i)))
  {
    hide AcksSent, CoreInv, TailExact, Incoming, Responder.Accept, Wrap, Start, NumPackets, CanTake, PsnCompare;
    AcksSentGrows(s.resp, s.req.sent[i]);
    if i == |s.resp.accepted| {
      AcceptInv(s, i);
    } else {
      ComparePackets(s, i);
      NotNextKeeps(s.resp, s.req.sent[i], Requester.MessagesOf(s.req.queue), s.done, s.part);
    }
  }

  lemma QueueInv(s: System, m: Message)
    requires SysInv(s) && Enabled(s, Queue(m)) && Joins(s.req, m)
    ensures SysInv(Apply(s, Queue(m)))
  {
    hide AcksSent, CoreInv, TailExact, RecvInv, Sendable, Start;
    var ms := Requester.MessagesOf(s.req.queue);
    EnqueueInv(s.req, m);
    EnqueueRecvInv(s.resp, ms, s.done, s.part, m);
    StartPrefix(ms, m, s.req.tail);
  }

  predicate HaltsOnlyOnNak(s: System, i: nat)
    requires Enabled(s, DeliverAck(i))
  {
    match Apply(s, DeliverAck(i)).status
    case Live => true
    case ReceiverStopped => false
    case SenderStopped(cause) => cause == Requester.NakReceived && s.resp.acks[i].syndrome == Requester.NakPsnSeqError
  }

  lemma DeliverAckInv(s: System, i: nat)
    requires SysInv(s) && Enabled(s, DeliverAck(i))
    ensures SysInv(Apply(s, DeliverAck(i)))
    ensures HaltsOnlyOnNak(s, i)
  {
    hide AcksSent, CoreInv, TailExact, RegistersOk, OutputOk, Wrap, Start, NumPackets, Requester.HandleAck, PsnCompare;
    var ms, a := Requester.MessagesOf(s.req.queue), s.resp.acks[i];
    var t := Named(a);
    AckNames(s, i);
    if t < s.req.acked {
      StaleAckIsIgnored(s.req, t, a.syndrome);
    } else {
      TailBounds(s.req, ms);
      AckIsExact(s.req, t, a.syndrome);
      match Requester.HandleAck(s.req, Wrap(t), a.syndrome) {
        case Running(r') => TailBounds(r', ms);
        case Halted(r', _) => CoreSendable(r');
      }
    }
  }

  /** Acknowledgement i names a packet emitted, accepted unless it is refused, and not too old. */
  predicate AckNamed(s: System, i: nat) {
    && i < |s.resp.acks|
    && var a := s.resp.acks[i];
    && 0 <= Named(a) < |s.req.sent|
    && a.psn == Wrap(Named(a))
    && Named(a) <= |s.resp.accepted|
    && (a.syndrome == Requester.AckUnlimited ==> Named(a) < |s.resp.accepted|)
    && s.req.acked <= Named(a) + 0x40_0000
  }

  lemma AckNames(s: System, i: nat)
    requires SysInv(s) && Enabled(s, DeliverAck(i))
    ensures AckNamed(s, i)
  {
    hide AcksSent, QueueOk, WireOk, AckBitsOk, AsksOften, OpcodeOk, CompletionsOf, RegistersOk, OutputOk, TailExact,
         Wrap;
    assert AckOk(s.resp.acks[i], |s.resp.accepted|);
  }

  lemma TailBounds(r: Requester.Requester, ms: seq<Message>)
    requires TailExact(ms, r.tail, r.acked) && ms == Requester.MessagesOf(r.queue)
    ensures r.tail <= |ms| && Start(ms, r.tail) <= r.acked
    ensures r.tail < |ms| ==> r.acked < Start(ms, r.tail + 1)
  {
  }

  lemma SendInv(s: System)
    requires SysInv(s) && Enabled(s, SendOne)
    ensures SysInv(Apply(s, SendOne))
  {
    hide AcksSent, CoreInv, TailExact, RecvInv, Start, Requester.SendStep;
    SendStepInv(s.req);
    SendKeeps(s.req);
  }

  lemma SendKeeps(r: Requester.Requester)
    requires CanSend(r)
    ensures Requester.SendStep(r).0.tail == r.tail
  {
  }

  lemma ApplyInv(s: System, e: Event)
    requires SysInv(s) && Enabled(s, e) && (e.Queue? ==> Joins(s.req, e.m))
    ensures SysInv(Apply(s, e))
  {
    hide SysInv, Apply, Enabled, Joins;
    match e {
      case Queue(m) => QueueInv(s, m);
      case PostRecv(w) => PostInv(s, w);
      case SendOne => SendInv(s);
      case DeliverRequest(i) => DeliverRequestInv(s, i);
      case DeliverAck(i) => DeliverAckInv(s, i);
    }
  }

  lemma PostInv(s: System, w: RecvWqe)
    requires SysInv(s) && Enabled(s, PostRecv(w))
    ensures SysInv(Apply(s, PostRecv(w)))
  {
    hide AcksSent, CoreInv, TailExact, RecvInv, Start;
    PostRecvInv(s.resp, w, Requester.MessagesOf(s.req.queue), s.done, s.part);
  }

  // ----- The first message and the opcode field -----

  /** The messages queued so far. */
  function MessagesIn(s: System): seq<Message> { Requester.MessagesOf(s.req.queue) }

  /** The opcode field, as it was at the start, does not claim that the first message has begun. */
  predicate RightStart(opcode: Opcode, ms: seq<Message>) { ms != [] ==> !opcode.Continues(ms[0].op) }

  lemma EmitKeepsMessages(r: Requester.Requester)
    requires CanSend(r)
    ensures Requester.MessagesOf(Requester.SendStep(r).0.queue) == Requester.MessagesOf(r.queue)
    ensures r.sent <= Requester.SendStep(r).0.sent
  {
    hide Wrap, PsnCompare, Requester.NextOpcode, Requester.MakePacket, NumPackets;
  }

  /** No step takes a message back, and none but an emission changes the opcode field. */
  lemma ApplyKeepsMessages(s: System, e: Event)
    requires Enabled(s, e)
    ensures MessagesIn(s) <= MessagesIn(Apply(s, e))
    ensures e.Queue? ==> MessagesIn(Apply(s, e)) == MessagesIn(s) + [e.m]
    ensures !e.SendOne? ==> Apply(s, e).req.opcode == s.req.opcode
    ensures !e.Queue? ==> MessagesIn(Apply(s, e)) == MessagesIn(s)
    ensures s.req.sent <= Apply(s, e).req.sent
  {
    hide Requester.SendStep, Requester.HandleAck, Responder.HandleRequest;
    match e {
      case Queue(m) => EnqueueStarts(s.req.queue, m);
      case PostRecv(_) =>
      case SendOne => EmitKeepsMessages(s.req);
      case DeliverRequest(_) =>
      case DeliverAck(i) => AckKeepsWire(s.req, s.resp.acks[i].psn, s.resp.acks[i].syndrome);
    }
  }

  lemma {:induction false} RunKeepsMessages(s: System, events: seq<Event>)
    requires Legal(s, events)
    ensures MessagesIn(s) <= MessagesIn(Run(s, events)) && s.req.sent <= Run(s, events).req.sent
    decreases |events|
  {
    hide Apply, Enabled, MessagesIn;
    if events != [] {
      ApplyKeepsMessages(s, events[0]);
      RunKeepsMessages(Apply(s, events[0]), events[1..]);
    }
  }

  // ----- What a run was given -----

  function QueuedBy(events: seq<Event>): seq<Message>
    decreases |events|
  {
    if events == [] then [] else (if events[0].Queue? then [events[0].m] else []) + QueuedBy(events[1..])
  }

  function PostedBy(events: seq<Event>): seq<RecvWqe>
    decreases |events|
  {
    if events == [] then [] else (if events[0].PostRecv? then [events[0].w] else []) + PostedBy(events[1..])
  }

  lemma RequestKeepsPosted(s: Responder.Responder, p: Packet)
    ensures match Responder.HandleRequest(s, p)
      case Stopped => true
      case Took(s') => s'.posted == s.posted
  {
    hide Wrap, PsnCompare, ScatterPayload;
  }

  lemma ApplyRecords(s: System, e: Event)
    requires Enabled(s, e)
    ensures MessagesIn(Apply(s, e)) == MessagesIn(s) + (if e.Queue? then [e.m] else [])
    ensures Apply(s, e).resp.posted == s.resp.posted + (if e.PostRecv? then [e.w] else [])
  {
    ApplyKeepsMessages(s, e);
    hide Requester.SendStep, Requester.HandleAck, Responder.HandleRequest, MessagesIn;
    if e.DeliverRequest? {
      RequestKeepsPosted(s.resp, s.req.sent[e.i]);
    }
  }

  /** The messages of a run are those queued in it, in order, and its receive requests those posted in it. */
  lemma {:induction false} RunRecords(s: System, events: seq<Event>)
    requires Legal(s, events)
    ensures MessagesIn(Run(s, events)) == MessagesIn(s) + QueuedBy(events)
    ensures Run(s, events).resp.posted == s.resp.posted + PostedBy(events)
    decreases |events|
  {
    hide Apply, Enabled, MessagesIn;
    if events != [] {
      ApplyRecords(s, events[0]);
      RunRecords(Apply(s, events[0]), events[1..]);
    }
  }

  // ----- The run -----

  /** Every state of every run satisfies the invariant, unless the opcode field claimed that the first
      message had begun. */
  lemma {:induction false} RunInv(s: System, events: seq<Event>)
    requires SysInv(s) && Legal(s, events)
    requires s.req.queue == [] ==> RightStart(s.req.opcode, MessagesIn(Run(s, events)))
    ensures SysInv(Run(s, events))
    decreases |events|
  {
    hide SysInv, Apply, Enabled;
    if events != [] {
      var s' := Apply(s, events[0]);
      ApplyKeepsMessages(s, events[0]);
      RunKeepsMessages(s', events[1..]);
      if events[0].SendOne? {
        SendsSomething(s);
      }
      ApplyInv(s, events[0]);
      RunInv(s', events[1..]);
    }
  }

  lemma SendsSomething(s: System)
    requires Enabled(s, SendOne)
    ensures s.req.queue != []
  {
  }
}
