/** What the opcode field of a fresh queue pair does to its first message: the wire in every run, and two
    runs of a queue pair as it is created that go wrong. */
module FirstMessage {
  import opened Options
  import opened Messages
  import opened Psn
  import opened Scatter
  import opened RequesterProofs
  import opened AckProofs
  import opened PacketOrder
  import opened Transport
  import opened TransportTheorems
  import Responder
  import Requester

  // ----- The wire in every run -----

  /** Either nothing has happened to the queue, or the first packet was cut from the first message with
      the opcode field as it was at the start. */
  predicate FirstCut(r: Requester.Requester, opcode: Opcode) {
    && (forall k | 0 <= k < |r.queue| :: Sendable(r.queue[k].msg))
    && (if r.sent == [] then
          && r.index == 0 && r.opcode == opcode
          && (r.queue != [] ==> r.queue[0] == Requester.Fresh(r.queue[0].msg))
        else
          && r.queue != []
          && r.sent[0].opcode == Requester.NextOpcode(Requester.Fresh(r.queue[0].msg), opcode))
  }

  lemma MessageAt(r: Requester.Requester, r': Requester.Requester)
    requires Requester.MessagesOf(r.queue) <= Requester.MessagesOf(r'.queue)
    ensures |r.queue| <= |r'.queue|
    ensures forall k | 0 <= k < |r.queue| :: r'.queue[k].msg == r.queue[k].msg
  {
    forall k | 0 <= k < |r.queue| ensures r'.queue[k].msg == r.queue[k].msg {
      assert Requester.MessagesOf(r.queue)[k] == Requester.MessagesOf(r'.queue)[k];
    }
  }

  lemma SendFirstCut(r: Requester.Requester, opcode: Opcode)
    requires FirstCut(r, opcode) && CanSend(r)
    ensures FirstCut(Requester.SendStep(r).0, opcode)
  {
    hide Wrap, PsnCompare, NumPackets, Requester.NextOpcode, Sendable;
    EmitKeepsMessages(r);
    MessageAt(r, Requester.SendStep(r).0);
    if r.sent == [] {
      NotSkipped(r.queue[0].msg);
    }
  }

  lemma NotSkipped(m: Message)
    requires Sendable(m)
    ensures !Requester.Skips(Requester.Fresh(m))
  {
  }

  lemma ApplyFirstCut(s: System, e: Event, opcode: Opcode)
    requires Enabled(s, e) && FirstCut(s.req, opcode)
    ensures FirstCut(Apply(s, e).req, opcode)
  {
    hide Requester.HandleAck, Requester.SendStep, Responder.HandleRequest, Requester.NextOpcode, Sendable;
    match e {
      case Queue(_) =>
      case PostRecv(_) =>
      case SendOne => SendFirstCut(s.req, opcode);
      case DeliverRequest(_) =>
      case DeliverAck(i) => AckKeepsWire(s.req, s.resp.acks[i].psn, s.resp.acks[i].syndrome);
    }
  }

  lemma {:induction false} RunFirstCut(s: System, events: seq<Event>, opcode: Opcode)
    requires Legal(s, events) && FirstCut(s.req, opcode)
    ensures FirstCut(Run(s, events).req, opcode)
    decreases |events|
  {
    hide FirstCut, Apply, Enabled;
    if events != [] {
      ApplyFirstCut(s, events[0], opcode);
      RunFirstCut(Apply(s, events[0]), events[1..], opcode);
    }
  }

  /** A packet that claims to continue a message is not the first packet of one. */
  lemma WrongFirst(m: Message, opcode: Opcode)
    requires Sendable(m) && opcode.Continues(m.op)
    ensures Requester.NextOpcode(Requester.Fresh(m), opcode) != FragmentAt(m, 0).opcode
  {
  }

  lemma {:induction false} FirstFragment(ms: seq<Message>)
    requires ms != [] && Sendable(ms[0])
    ensures AllFragments(ms) != [] && AllFragments(ms)[0] == FragmentAt(ms[0], 0)
    decreases |ms|
  {
    hide FragmentAt, NumPackets, Sendable;
    if |ms| == 1 {
      assert ms[..0] == [];
      PacketsBound(ms[0]);
      FragmentsAt(ms[0], NumPackets(ms[0]), 0);
    } else {
      assert ms[..|ms| - 1][0] == ms[0];
      FirstFragment(ms[..|ms| - 1]);
    }
  }

  /** In every run, whatever the opcode field at the start, what is emitted is a prefix of the
      segmentation of the messages if and only if nothing is emitted or the field does not claim that the
      first message has begun. */
  lemma WireIsRightExactly(opcode: Opcode, mrs: set<nat>, events: seq<Event>)
    requires Legal(Init(opcode, mrs), events)
    ensures var s := Run(Init(opcode, mrs), events);
      FragmentsOf(s.req.sent) <= AllFragments(MessagesIn(s)) <==> s.req.sent == [] || RightStart(opcode, MessagesIn(s))
  {
    var s := Run(Init(opcode, mrs), events);
    var ms := MessagesIn(s);
    RunFirstCut(Init(opcode, mrs), events, opcode);
    hide Run, Init, Legal, AllFragments, FragmentAt, Requester.NextOpcode, Sendable;
    if RightStart(opcode, ms) {
      WireIsPrefix(opcode, mrs, events);
    } else if s.req.sent != [] {
      WrongFirst(ms[0], opcode);
      FirstFragment(ms);
      assert FragmentsOf(s.req.sent)[0].opcode == s.req.sent[0].opcode;
    }
  }

  // ----- A first SEND of more than one packet on a queue pair as created -----

  /** The sender after j packets, before the last, of a first SEND: none of them set the request's
      packet numbers. */
  function Sending(m: Message, j: nat): Requester.Requester
    requires Offset(j) <= |m.data|
  {
    Requester.Create(SendFirst).(
      queue := [Requester.SendWqe(m, if j == 0 then Requester.Posted else Requester.Processing, 0, 0, j, Offset(j))],
      psn := j, opcode := if j == 0 then SendFirst else SendMiddle, noAckPkts := if j <= 64 then j else 0,
      sent := Middles(m, j))
  }

  /** The 65th packet is the first that asks for an acknowledgement. */
  function Middle(m: Message, j: nat): Packet
    requires Offset(j + 1) <= |m.data|
  {
    Packet(SendMiddle, j, j == 64, None, m.data[Offset(j)..Offset(j + 1)])
  }

  function Middles(m: Message, j: nat): (ps: seq<Packet>)
    requires Offset(j) <= |m.data|
    ensures |ps| == j
    decreases j
  {
    if j == 0 then [] else Middles(m, j - 1) + [Middle(m, j - 1)]
  }

  lemma SendingNext(m: Message, j: nat)
    requires m.op == Send && Sendable(m) && j < 65 && Offset(j + 1) < |m.data|
    ensures Requester.SendStep(Sending(m, j)) == (Sending(m, j + 1), true)
  {
    var r := Sending(m, j);
    SmallWrap(j);
    SmallWrap(j + 1);
    SmallCompare(j);
    hide Wrap, PsnCompare;
    assert Requester.NextOpcode(r.queue[0], r.opcode) == SendMiddle;
    assert Requester.EmitPacket(r).queue == Sending(m, j + 1).queue;
  }

  lemma SmallCompare(j: nat)
    requires j <= 128
    ensures PsnCompare(j, 0 + 128) <= 0
  {
    CompareIsExact(j, 128, j, 128);
  }

  /** Room for 66 packets. */
  const ROOM := RecvWqe([Sge(0, 540672)], 1)

  function Landed(m: Message, k: nat): (ds: seq<Dma>)
    requires Offset(k) <= |m.data|
    decreases k
  {
    if k == 0 then [] else Landed(m, k - 1) + [Dma(Offset(k - 1), m.data[Offset(k - 1)..Offset(k)])]
  }

  /** The receiver after k of them. */
  function Receiving(mrs: set<nat>, m: Message, k: nat): Responder.Responder
    requires Offset(k) <= |m.data|
  {
    Responder.Create(mrs).(
      psn := k, ackPsn := k, opcode := if k == 0 then SendFirst else SendMiddle, posted := [ROOM],
      cursor := Cursor(0, Offset(k), Offset(k)), dmas := Landed(m, k),
      acks := if k == 65 then [Responder.Ack(Requester.AckUnlimited, 64, 0, 65)] else [], accepted := Middles(m, k))
  }

  lemma ReceivingNext(mrs: set<nat>, m: Message, k: nat)
    requires k < 65 && Offset(k + 1) <= |m.data|
    ensures Responder.HandleRequest(Receiving(mrs, m, k), Middle(m, k)) == Responder.Took(Receiving(mrs, m, k + 1))
  {
    SmallWrap(k + 1);
    hide Wrap;
    CompareIsExactSmall(k, k);
    LandsNext(m, k);
    hide PsnCompare, ScatterPayload;
  }

  lemma LandsNext(m: Message, k: nat)
    requires k < 65 && Offset(k + 1) <= |m.data|
    ensures ScatterPayload(ROOM, Cursor(0, Offset(k), Offset(k)), Middle(m, k).payload)
         == Some((Cursor(0, Offset(k + 1), Offset(k + 1)), [Dma(Offset(k), Middle(m, k).payload)]))
  {
  }

  lemma CompareIsExactSmall(i: nat, k: nat)
    requires i < 0x80_0000 && k < 0x80_0000
    ensures PsnCompare(i, k) == 256 * (i - k)
  {
    CompareIsExact(i, k, i, k);
  }

  /** A repeated packet is answered with the number of the last accepted one. */
  lemma ReceivingRepeat(mrs: set<nat>, m: Message, k: nat)
    requires 1 <= k <= 2 && Offset(k) <= |m.data|
    ensures Responder.HandleRequest(Receiving(mrs, m, k), Middle(m, 0))
         == Responder.Took(Responder.SendAck(Receiving(mrs, m, k), Requester.AckUnlimited, k - 1))
  {
    SmallWrap(k - 1);
    hide Wrap;
    CompareIsExactSmall(0, k);
    hide PsnCompare;
  }

  // ----- The runs -----

  function Stage(mrs: set<nat>, m: Message, j: nat, k: nat): System
    requires k <= j && Offset(j) <= |m.data|
  {
    System(Sending(m, j), Receiving(mrs, m, k), 0, k, Live)
  }

  lemma {:induction false} MiddlesAt(m: Message, j: nat, i: nat)
    requires i < j && Offset(j) <= |m.data|
    ensures Middles(m, j)[i] == Middle(m, i)
    decreases j
  {
    if i < j - 1 {
      MiddlesAt(m, j - 1, i);
    }
  }

  lemma StageSend(mrs: set<nat>, m: Message, j: nat, k: nat)
    requires m.op == Send && Sendable(m) && k <= j < 65 && Offset(j + 1) < |m.data|
    ensures Enabled(Stage(mrs, m, j, k), SendOne) && Apply(Stage(mrs, m, j, k), SendOne) == Stage(mrs, m, j + 1, k)
  {
    hide Requester.SendStep, Middles, Landed;
    SendingNext(m, j);
  }

  lemma StageTake(mrs: set<nat>, m: Message, j: nat, k: nat)
    requires k < j <= 65 && Offset(j) <= |m.data|
    ensures Enabled(Stage(mrs, m, j, k), DeliverRequest(k))
    ensures Apply(Stage(mrs, m, j, k), DeliverRequest(k)) == Stage(mrs, m, j, k + 1)
  {
    MiddlesAt(m, j, k);
    ReceivingNext(mrs, m, k);
    assert Middles(m, k + 1)[k] == Middle(m, k);
    hide Responder.HandleRequest, Landed, Middles;
  }

  /** The system after a packet has arrived again. */
  function Repeated(mrs: set<nat>, m: Message, j: nat, k: nat): System
    requires 1 <= k <= j && Offset(j) <= |m.data|
  {
    Stage(mrs, m, j, k).(resp := Responder.SendAck(Receiving(mrs, m, k), Requester.AckUnlimited, k - 1))
  }

  lemma StageRepeat(mrs: set<nat>, m: Message, j: nat, k: nat)
    requires 1 <= k <= j <= 2 && Offset(j) <= |m.data|
    ensures Enabled(Stage(mrs, m, j, k), DeliverRequest(0))
    ensures Apply(Stage(mrs, m, j, k), DeliverRequest(0)) == Repeated(mrs, m, j, k)
  {
    MiddlesAt(m, j, 0);
    ReceivingRepeat(mrs, m, k);
    hide Responder.HandleRequest, Landed, Middles, Responder.SendAck, Receiving, Middle;
    SameAccepted(Receiving(mrs, m, k), k - 1);
    assert Stage(mrs, m, j, k).req.sent == Middles(m, j);
  }

  lemma SameAccepted(s: Responder.Responder, psn: nat)
    ensures Responder.SendAck(s, Requester.AckUnlimited, psn).accepted == s.accepted
  {
  }

  lemma StageStart(mrs: set<nat>, m: Message)
    requires Sendable(m)
    ensures Legal(Init(SendFirst, mrs), [Queue(m), PostRecv(ROOM)])
    ensures Run(Init(SendFirst, mrs), [Queue(m), PostRecv(ROOM)]) == Stage(mrs, m, 0, 0)
  {
    var s, e := Init(SendFirst, mrs), [Queue(m), PostRecv(ROOM)];
    var s1 := Apply(s, Queue(m));
    assert Apply(s1, PostRecv(ROOM)) == Stage(mrs, m, 0, 0);
    assert e[1..] == [PostRecv(ROOM)] && e[1..][1..] == [];
    assert Legal(s1, e[1..]) && Run(s1, e[1..]) == Stage(mrs, m, 0, 0);
  }

  /** The acknowledgement of packet 0, delivered twice, completes the request. */
  lemma TwiceCompletes(m: Message)
    requires Offset(1) < |m.data|
    ensures var r := Sending(m, 1).(compPsn := 1, acked := 1);
      && Requester.HandleAck(Sending(m, 1), 0, Requester.AckUnlimited) == Requester.Running(r)
      && Requester.HandleAck(r, 0, Requester.AckUnlimited) == Requester.Running(Requester.Complete(r))
  {
    SmallWrap(1);
    SmallWrap(0);
    CompareIsExactSmall(0, 0);
    CompareIsExactSmall(0, 1);
    hide Wrap, PsnCompare, Middles;
  }

  /** One packet of several, delivered twice, and its acknowledgement, delivered twice: the request is
      completed although the receiver has only its first packet. */
  lemma UnsoundRun(mrs: set<nat>, m: Message) returns (events: seq<Event>)
    requires m.op == Send && Sendable(m) && |m.data| > 8192
    ensures Legal(Init(SendFirst, mrs), events)
    ensures var s := Run(Init(SendFirst, mrs), events);
      MessagesIn(s) == [m] && s.req.tail == 1 && s.done == 0 && |s.resp.accepted| == 1
  {
    hide Stage, Repeated, Enabled, Apply, Legal, Run, Sending, Receiving, Requester.HandleAck, Init;
    var s := Init(SendFirst, mrs);
    StageStart(mrs, m);
    events := [Queue(m), PostRecv(ROOM)];
    StageSend(mrs, m, 0, 0);
    RunSnoc(s, events, SendOne);
    events := events + [SendOne];
    StageTake(mrs, m, 1, 0);
    RunSnoc(s, events, DeliverRequest(0));
    events := events + [DeliverRequest(0)];
    StageRepeat(mrs, m, 1, 1);
    RunSnoc(s, events, DeliverRequest(0));
    events := events + [DeliverRequest(0)];
    FirstAck(mrs, m);
    RunSnoc(s, events, DeliverAck(0));
    events := events + [DeliverAck(0)];
    RunSnoc(s, events, DeliverAck(0));
    events := events + [DeliverAck(0)];
  }

  lemma FirstAck(mrs: set<nat>, m: Message)
    requires Offset(1) < |m.data|
    ensures Enabled(Repeated(mrs, m, 1, 1), DeliverAck(0))
    ensures var s := Apply(Repeated(mrs, m, 1, 1), DeliverAck(0));
      && Enabled(s, DeliverAck(0))
      && var s' := Apply(s, DeliverAck(0));
      MessagesIn(s') == [m] && s'.req.tail == 1 && s'.done == 0 && |s'.resp.accepted| == 1
  {
    TwiceCompletes(m);
    hide Requester.HandleAck, PsnCompare, Landed;
  }

  /** With a third packet still to be sent, an acknowledgement of the second reaches the assertion that
      the request is pending. */
  lemma AssertionRun(mrs: set<nat>, m: Message) returns (events: seq<Event>)
    requires m.op == Send && Sendable(m) && |m.data| > 16384
    ensures Legal(Init(SendFirst, mrs), events)
    ensures var s := Run(Init(SendFirst, mrs), events);
      MessagesIn(s) == [m] && s.status == SenderStopped(Requester.NotPending)
  {
    hide Stage, Repeated, Enabled, Apply, Legal, Run, Sending, Receiving, Requester.HandleAck, Init;
    var s := Init(SendFirst, mrs);
    StageStart(mrs, m);
    events := [Queue(m), PostRecv(ROOM)];
    StageSend(mrs, m, 0, 0);
    RunSnoc(s, events, SendOne);
    events := events + [SendOne];
    StageSend(mrs, m, 1, 0);
    RunSnoc(s, events, SendOne);
    events := events + [SendOne];
    StageTake(mrs, m, 2, 0);
    RunSnoc(s, events, DeliverRequest(0));
    events := events + [DeliverRequest(0)];
    StageTake(mrs, m, 2, 1);
    RunSnoc(s, events, DeliverRequest(1));
    events := events + [DeliverRequest(1)];
    StageRepeat(mrs, m, 2, 2);
    RunSnoc(s, events, DeliverRequest(0));
    events := events + [DeliverRequest(0)];
    SecondAck(mrs, m);
    RunSnoc(s, events, DeliverAck(0));
    events := events + [DeliverAck(0)];
  }

  // ----- Without any fault of the network -----

  function Emissions(n: nat): seq<Event> { if n == 0 then [] else [SendOne] + Emissions(n - 1) }

  lemma {:induction false} StageEmissions(mrs: set<nat>, m: Message, j: nat)
    requires m.op == Send && Sendable(m) && j <= 65 && Offset(65) < |m.data|
    ensures Legal(Stage(mrs, m, j, 0), Emissions(65 - j))
    ensures Run(Stage(mrs, m, j, 0), Emissions(65 - j)) == Stage(mrs, m, 65, 0)
    decreases 65 - j
  {
    hide Stage, Enabled, Apply;
    if j < 65 {
      StageSend(mrs, m, j, 0);
      StageEmissions(mrs, m, j + 1);
      assert Emissions(65 - j)[1..] == Emissions(65 - (j + 1));
    }
  }

  lemma {:induction false} StageDeliveries(mrs: set<nat>, m: Message, k: nat)
    requires k <= 65 && Offset(65) <= |m.data|
    ensures Legal(Stage(mrs, m, 65, k), Deliveries(k, 65))
    ensures Run(Stage(mrs, m, 65, k), Deliveries(k, 65)) == Stage(mrs, m, 65, 65)
    decreases 65 - k
  {
    hide Stage, Enabled, Apply, Deliveries;
    if k < 65 {
      StageTake(mrs, m, 65, k);
      StageDeliveries(mrs, m, k + 1);
      DeliveriesNext(k, 65);
    } else {
      NoDeliveries(65);
    }
  }

  /** 65 packets sent, each delivered once and in order, and the acknowledgement that the last of them asks
      for. */
  function Faultless(m: Message): seq<Event> {
    [Queue(m), PostRecv(ROOM)] + Emissions(65) + Deliveries(0, 65) + [DeliverAck(0)]
  }

  /** A first SEND of more packets than that reaches the assertion over a network that makes no mistake. */
  lemma FaultlessAssertion(mrs: set<nat>, m: Message)
    requires m.op == Send && Sendable(m) && |m.data| > 532480
    ensures Legal(Init(SendFirst, mrs), Faultless(m))
    ensures var s := Run(Init(SendFirst, mrs), Faultless(m));
      MessagesIn(s) == [m] && s.status == SenderStopped(Requester.NotPending)
  {
    hide Stage, Enabled, Apply, Legal, Run, Sending, Receiving, Requester.HandleAck, Init, Emissions, Deliveries;
    var s := Init(SendFirst, mrs);
    StageStart(mrs, m);
    var events := [Queue(m), PostRecv(ROOM)];
    StageEmissions(mrs, m, 0);
    RunAppend(s, events, Emissions(65));
    events := events + Emissions(65);
    StageDeliveries(mrs, m, 0);
    RunAppend(s, events, Deliveries(0, 65));
    events := events + Deliveries(0, 65);
    FaultlessAck(mrs, m);
    RunSnoc(s, events, DeliverAck(0));
  }

  lemma FaultlessAck(mrs: set<nat>, m: Message)
    requires Offset(65) < |m.data|
    ensures Enabled(Stage(mrs, m, 65, 65), DeliverAck(0))
    ensures var s := Apply(Stage(mrs, m, 65, 65), DeliverAck(0));
      MessagesIn(s) == [m] && s.status == SenderStopped(Requester.NotPending)
  {
    CompareIsExactSmall(64, 0);
    hide PsnCompare, Wrap, Landed, Middles;
  }

  /** After two packets of any first SEND of more than one, the acknowledgement of the second does not move
      the window: it completes the request and finds none behind it, or finds it not pending. */
  lemma WindowLostRun(mrs: set<nat>, m: Message) returns (events: seq<Event>)
    requires m.op == Send && Sendable(m) && |m.data| > 8192
    ensures Legal(Init(SendFirst, mrs), events)
    ensures var s := Run(Init(SendFirst, mrs), events);
      && MessagesIn(s) == [m] && s.status == Live && s.req.acked == 0 && |s.req.sent| == 2
      && !Reopens(s.req, 1)
  {
    hide Stage, Enabled, Apply, Legal, Run, Sending, Receiving, Init, Reopens;
    var s := Init(SendFirst, mrs);
    StageStart(mrs, m);
    events := [Queue(m), PostRecv(ROOM)];
    StageSend(mrs, m, 0, 0);
    RunSnoc(s, events, SendOne);
    events := events + [SendOne];
    SecondSent(mrs, m);
    RunSnoc(s, events, SendOne);
    events := events + [SendOne];
  }

  /** A request in progress whose packet numbers were never set, and none behind it. */
  predicate Unnumbered(r: Requester.Requester) {
    && |r.queue| == 1 && r.tail == 0 && r.queue[0].lastPsn == 0
    && (r.queue[0].state == Requester.Processing || r.queue[0].state == Requester.Pending)
    && r.acked == 0 && |r.sent| == 2
  }

  lemma UnnumberedIgnores(r: Requester.Requester)
    requires Unnumbered(r)
    ensures !Reopens(r, 1)
  {
    SmallWrap(1);
    CompareIsExactSmall(1, 0);
    hide PsnCompare, Wrap;
    var done := Requester.Complete(r);
    assert Requester.HandleAck(done, 1, Requester.AckUnlimited) == Requester.Running(done);
  }

  lemma SecondEmission(m: Message)
    requires m.op == Send && Sendable(m) && |m.data| > 8192
    ensures Unnumbered(Requester.SendStep(Sending(m, 1)).0)
    ensures Requester.MessagesOf(Requester.SendStep(Sending(m, 1)).0.queue) == [m]
  {
    SmallCompare(1);
    hide PsnCompare, Wrap;
    assert Requester.NextOpcode(Sending(m, 1).queue[0], SendMiddle) in {SendMiddle, SendLast};
  }

  lemma SecondSent(mrs: set<nat>, m: Message)
    requires m.op == Send && Sendable(m) && |m.data| > 8192
    ensures Enabled(Stage(mrs, m, 1, 0), SendOne)
    ensures var s := Apply(Stage(mrs, m, 1, 0), SendOne);
      && MessagesIn(s) == [m] && s.status == Live && s.req.acked == 0 && |s.req.sent| == 2
      && !Reopens(s.req, 1)
  {
    hide Requester.SendStep, Reopens, Middles, Landed;
    SecondEmission(m);
    UnnumberedIgnores(Requester.SendStep(Sending(m, 1)).0);
  }

  lemma SecondAck(mrs: set<nat>, m: Message)
    requires Offset(2) < |m.data|
    ensures Enabled(Repeated(mrs, m, 2, 2), DeliverAck(0))
    ensures var s := Apply(Repeated(mrs, m, 2, 2), DeliverAck(0));
      MessagesIn(s) == [m] && s.status == SenderStopped(Requester.NotPending)
  {
    CompareIsExactSmall(1, 0);
    hide PsnCompare, Wrap, Landed;
  }
}
