/** Queue pairs as handle_create_qp makes them, with SEND_FIRST in the opcode field: exactly when their
    runs keep the transport's promises. */
module CreatedRuns {
  import opened Messages
  import opened Transport
  import opened TransportTheorems
  import opened FirstMessage
  import opened Misread
  import opened TwoPackets
  import Requester
  import Psn

  /** A run of a created queue pair whose first message is m. */
  predicate CreatedRun(m: Message, mrs: set<nat>, events: seq<Event>) {
    && Legal(Init(SendFirst, mrs), events)
    && MessagesIn(Run(Init(SendFirst, mrs), events)) != []
    && MessagesIn(Run(Init(SendFirst, mrs), events))[0] == m
  }

  function After(mrs: set<nat>, events: seq<Event>): System
    requires Legal(Init(SendFirst, mrs), events)
  {
    Run(Init(SendFirst, mrs), events)
  }

  // ----- First messages that do no harm -----

  lemma WriteIsGood(m: Message, mrs: set<nat>, events: seq<Event>)
    requires CreatedRun(m, mrs, events) && m.op == RdmaWrite
    ensures GoodRun(SendFirst, mrs, events)
  {
    hide Run, Init, Legal;
  }

  lemma ClearStart(mrs: set<nat>)
    ensures MisreadSystem(Init(NoOpcode, mrs)) == Init(SendFirst, mrs) && LeadsBoth(Init(NoOpcode, mrs))
  {
    InitInv(NoOpcode, mrs);
    hide SysInv;
  }

  /** A first SEND of one packet: the run is that of a clear queue pair, but for the opcode of the first
      packet. */
  lemma SingleFollows(m: Message, mrs: set<nat>, events: seq<Event>)
    requires CreatedRun(m, mrs, events) && Single(m)
    ensures GoodRun(NoOpcode, mrs, events)
    ensures After(mrs, events) == MisreadSystem(Run(Init(NoOpcode, mrs), events))
    ensures LeadsBoth(Run(Init(NoOpcode, mrs), events))
  {
    hide Run, Init, Legal, LeadsBoth, MisreadSystem, MessagesIn;
    ClearStart(mrs);
    RunFollows(Init(NoOpcode, mrs), events);
  }

  /** The first message is a write or fits one packet. */
  predicate Harmless(m: Message) { m.op == RdmaWrite || |m.data| <= 8192 }

  lemma SoundFollows(g: System)
    requires Sound(g)
    ensures Sound(MisreadSystem(g))
  {
    SameMessages(g);
    hide Patch, PatchOpcode, MessagesIn;
  }

  lemma HarmlessIsSound(m: Message, mrs: set<nat>, events: seq<Event>)
    requires CreatedRun(m, mrs, events) && Sendable(m) && Harmless(m)
    ensures Sound(After(mrs, events))
  {
    hide Run, Init, Legal, Sound, LeadsBoth, MisreadSystem, CreatedRun;
    if m.op == RdmaWrite {
      WriteIsGood(m, mrs, events);
      CompletionIsSound(SendFirst, mrs, events);
    } else {
      SingleFollows(m, mrs, events);
      CompletionIsSound(NoOpcode, mrs, events);
      SoundFollows(Run(Init(NoOpcode, mrs), events));
    }
  }

  lemma WindowFollows(r: Requester.Requester)
    requires WindowKept(r)
    ensures WindowKept(MisreadSender(r))
  {
    hide PatchOpcode, Requester.HandleAck;
    var r' := MisreadSender(r);
    if Requester.WindowClosed(r') {
      var i :| r.acked <= i < |r.sent| && r.sent[i].ackReq;
      PatchAt(r.sent, i);
      assert r'.sent[i].ackReq;
    }
    forall t: nat | r'.acked <= t < |r'.sent| ensures Reopens(r', t) {
      assert Reopens(r, t);
      AckIgnoresWire(r, r'.sent, r'.opcode, Psn.Wrap(t), Requester.AckUnlimited);
    }
  }

  /** And its window is kept as that of any other queue pair. */
  lemma HarmlessKeepsWindow(m: Message, mrs: set<nat>, events: seq<Event>)
    requires CreatedRun(m, mrs, events) && Sendable(m) && Harmless(m) && After(mrs, events).status == Live
    ensures WindowKept(After(mrs, events).req)
  {
    hide Run, Init, Legal, WindowKept, LeadsBoth, MisreadReceiver, MisreadSender, CreatedRun;
    if m.op == RdmaWrite {
      WriteIsGood(m, mrs, events);
      WindowReopens(SendFirst, mrs, events);
    } else {
      SingleFollows(m, mrs, events);
      WindowReopens(NoOpcode, mrs, events);
      WindowFollows(Run(Init(NoOpcode, mrs), events).req);
    }
  }

  lemma StarvedFollows(g: System)
    ensures Starved(MisreadSystem(g)) == Starved(g)
    ensures Requester.WindowClosed(MisreadSystem(g).req) == Requester.WindowClosed(g.req)
    ensures MisreadSystem(g).status == g.status
  {
    SameMessages(g);
    hide Patch, PatchOpcode, MessagesIn;
  }

  lemma UnstallsFollows(g: System, more: seq<Event>)
    requires LeadsBoth(g) && FirstSingle(MessagesIn(g)) && Unstalls(g, more)
    ensures Unstalls(MisreadSystem(g), more)
  {
    hide LeadsBoth, MisreadSystem, MessagesIn, Starved, Requester.WindowClosed, Legal, Run, FirstSingle;
    DeliveriesFollow(g, more);
    StarvedFollows(Run(g, more));
  }

  /** And the deliveries of NoSilentStall open it. */
  lemma HarmlessNeverStalls(m: Message, mrs: set<nat>, events: seq<Event>) returns (more: seq<Event>)
    requires CreatedRun(m, mrs, events) && Sendable(m) && Harmless(m) && After(mrs, events).status == Live
    ensures Unstalls(After(mrs, events), more)
  {
    hide Run, Init, Legal, Unstalls, LeadsBoth, MisreadReceiver, MisreadSender, CreatedRun;
    if m.op == RdmaWrite {
      WriteIsGood(m, mrs, events);
      more := NoSilentStall(SendFirst, mrs, events);
    } else {
      SingleFollows(m, mrs, events);
      more := NoSilentStall(NoOpcode, mrs, events);
      FirstIsSingle(m, mrs, events);
      UnstallsFollows(Run(Init(NoOpcode, mrs), events), more);
    }
  }

  lemma FirstIsSingle(m: Message, mrs: set<nat>, events: seq<Event>)
    requires CreatedRun(m, mrs, events) && Single(m)
    ensures Legal(Init(NoOpcode, mrs), events) && FirstSingle(MessagesIn(Run(Init(NoOpcode, mrs), events)))
  {
    SingleFollows(m, mrs, events);
    hide Run, Init, Legal, MessagesIn;
    SameMessages(Run(Init(NoOpcode, mrs), events));
  }

  // ----- Exactly those -----

  /** Every run of a created queue pair that begins with m keeps what is promised of completions. */
  ghost predicate AlwaysSound(m: Message) {
    forall mrs, events | CreatedRun(m, mrs, events) :: Sound(After(mrs, events))
  }

  ghost predicate AlwaysWindowKept(m: Message) {
    forall mrs, events | CreatedRun(m, mrs, events) && After(mrs, events).status == Live ::
      WindowKept(After(mrs, events).req)
  }

  ghost predicate NeverAsserts(m: Message) {
    forall mrs, events | CreatedRun(m, mrs, events) :: After(mrs, events).status != SenderStopped(Requester.NotPending)
  }

  /** Completions of a created queue pair are sound in every run if and only if its first message is a
      write or fits one packet. */
  lemma SoundExactly(m: Message)
    requires Sendable(m)
    ensures AlwaysSound(m) <==> m.op == RdmaWrite || |m.data| <= 8192
  {
    hide Sound, Run, Init, Legal, MessagesIn;
    if Harmless(m) {
      forall mrs, events | CreatedRun(m, mrs, events) ensures Sound(After(mrs, events)) {
        HarmlessIsSound(m, mrs, events);
      }
    } else {
      var events := UnsoundRun({}, m);
      IsCreatedRun(m, {}, events);
      TooEarly(After({}, events));
    }
  }

  /** In every run of a created queue pair acknowledging any outstanding packet moves the window, if and only
      if its first message is a write or fits one packet. */
  lemma WindowExactly(m: Message)
    requires Sendable(m)
    ensures AlwaysWindowKept(m) <==> m.op == RdmaWrite || |m.data| <= 8192
  {
    hide Run, Init, Legal, MessagesIn, WindowKept;
    if Harmless(m) {
      forall mrs, events | CreatedRun(m, mrs, events) && After(mrs, events).status == Live
        ensures WindowKept(After(mrs, events).req)
      {
        HarmlessKeepsWindow(m, mrs, events);
      }
    } else {
      var events := WindowLostRun({}, m);
      IsCreatedRun(m, {}, events);
      NotKept(After({}, events).req);
    }
  }

  lemma NotKept(r: Requester.Requester)
    requires r.acked == 0 && |r.sent| == 2 && !Reopens(r, 1)
    ensures !WindowKept(r)
  {
    hide Requester.WindowClosed, Reopens;
  }

  lemma IsCreatedRun(m: Message, mrs: set<nat>, events: seq<Event>)
    requires Legal(Init(SendFirst, mrs), events) && MessagesIn(Run(Init(SendFirst, mrs), events)) == [m]
    ensures CreatedRun(m, mrs, events)
  {
  }

  lemma TooEarly(s: System)
    requires s.req.tail > s.done
    ensures !Sound(s)
  {
  }

  /** Acknowledgement processing of a created queue pair finds a request not pending in some run if and
      only if its first message is a SEND of more than two packets. */
  lemma AssertsExactly(m: Message)
    requires Sendable(m)
    ensures NeverAsserts(m) <==> m.op == RdmaWrite || |m.data| <= 16384
  {
    hide Run, Init, Legal, MessagesIn;
    if m.op == RdmaWrite || |m.data| <= 16384 {
      forall mrs, events | CreatedRun(m, mrs, events)
        ensures After(mrs, events).status != SenderStopped(Requester.NotPending)
      {
        NoAssertion(m, mrs, events);
      }
    } else {
      var events := AssertionRun({}, m);
      IsCreatedRun(m, {}, events);
    }
  }

  lemma NoAssertion(m: Message, mrs: set<nat>, events: seq<Event>)
    requires CreatedRun(m, mrs, events) && Sendable(m) && (m.op == RdmaWrite || |m.data| <= 16384)
    ensures After(mrs, events).status != SenderStopped(Requester.NotPending)
  {
    hide Run, Init, Legal, MessagesIn;
    if m.op == RdmaWrite {
      WriteIsGood(m, mrs, events);
      Reaches(SendFirst, mrs, events);
      InvNeverAsserts(After(mrs, events));
    } else if |m.data| <= 8192 {
      SingleFollows(m, mrs, events);
      Reaches(NoOpcode, mrs, events);
      InvNeverAsserts(Run(Init(NoOpcode, mrs), events));
      SameStatus(Run(Init(NoOpcode, mrs), events));
    } else {
      TwoNeverAssert(mrs, events);
    }
  }

  lemma InvNeverAsserts(s: System)
    requires SysInv(s)
    ensures s.status != SenderStopped(Requester.NotPending)
  {
  }

  lemma SameStatus(g: System)
    ensures MisreadSystem(g).status == g.status
  {
  }
}
