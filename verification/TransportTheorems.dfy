/** What the reliable connection promises, over every run. */
module TransportTheorems {
  import opened Messages
  import opened Psn
  import opened Scatter
  import opened RequesterProofs
  import opened AckProofs
  import opened ResponderProofs
  import opened Transport
  import Requester

  /** A run from creation whose first message the opcode field does not claim to have begun. */
  predicate GoodRun(opcode: Opcode, mrs: set<nat>, events: seq<Event>) {
    && Legal(Init(opcode, mrs), events)
    && RightStart(opcode, MessagesIn(Run(Init(opcode, mrs), events)))
  }

  lemma Reaches(opcode: Opcode, mrs: set<nat>, events: seq<Event>)
    requires GoodRun(opcode, mrs, events)
    ensures SysInv(Run(Init(opcode, mrs), events))
  {
    InitInv(opcode, mrs);
    RunInv(Init(opcode, mrs), events);
  }

  lemma {:induction false} AllFragmentsPrefix(ms: seq<Message>, k: nat)
    requires k <= |ms|
    ensures AllFragments(ms[..k]) <= AllFragments(ms)
    decreases |ms| - k
  {
    if k < |ms| {
      AllFragmentsNext(ms, k);
      AllFragmentsPrefix(ms, k + 1);
    } else {
      assert ms[..k] == ms;
    }
  }

  lemma {:induction false} FragmentsPrefix(m: Message, j: nat, n: nat)
    requires j <= n <= NumPackets(m)
    ensures Fragments(m, j) <= Fragments(m, n)
    decreases n
  {
    if j < n {
      FragmentsPrefix(m, j, n - 1);
    }
  }

  lemma PrefixWithin<T>(a: seq<T>, f: seq<T>, g: seq<T>, all: seq<T>)
    requires f <= g && a + g <= all
    ensures a + f <= all
  {
    assert f == g[..|f|];
    assert all[..|a| + |f|] == a + f;
  }

  lemma WholePrefix(ms: seq<Message>, index: nat)
    requires index < |ms|
    ensures AllFragments(ms[..index]) + Fragments(ms[index], NumPackets(ms[index])) <= AllFragments(ms)
  {
    hide AllFragments, Fragments, NumPackets;
    AllFragmentsNext(ms, index);
    AllFragmentsPrefix(ms, index + 1);
  }

  lemma ExpectedPrefix(ms: seq<Message>, index: nat, part: nat)
    requires index <= |ms| && part <= if index < |ms| then NumPackets(ms[index]) else 0
    ensures Expected(ms, index, part) <= AllFragments(ms)
  {
    hide AllFragments, Fragments, NumPackets;
    if index < |ms| {
      FragmentsPrefix(ms[index], part, NumPackets(ms[index]));
      WholePrefix(ms, index);
      PrefixWithin(AllFragments(ms[..index]), Fragments(ms[index], part), Fragments(ms[index], NumPackets(ms[index])),
          AllFragments(ms));
    } else {
      AllFragmentsPrefix(ms, index);
    }
  }

  /** The wire is a prefix of the segmentation of the messages. */
  lemma WireIsPrefix(opcode: Opcode, mrs: set<nat>, events: seq<Event>)
    requires GoodRun(opcode, mrs, events)
    ensures var s := Run(Init(opcode, mrs), events); FragmentsOf(s.req.sent) <= AllFragments(MessagesIn(s))
  {
    Reaches(opcode, mrs, events);
    hide QueueOk, OpcodeOk, AckBitsOk, AsksOften, CompletionsOf, RecvInv, TailExact, Start, Wrap, Run, Init;
    var s := Run(Init(opcode, mrs), events);
    ExpectedPrefix(MessagesIn(s), s.req.index, PartSent(s.req.queue, s.req.index));
  }

  /** The receiver's completions are those of the SENDs received, with their lengths, in order and once, and the
      bytes written are exactly those the messages call for, with those of the message in progress so far. */
  predicate ReceiverSound(s: System) {
    var ms := MessagesIn(s);
    && s.done <= |ms|
    && s.resp.cqes == RecvCompletionsOf(ms[..s.done])
    && s.resp.head == NumSends(ms[..s.done]) <= |s.resp.posted|
    && (if s.part == 0 then
          Flat(s.resp.dmas) == EffectsOf(ms[..s.done], s.resp.posted) && s.resp.resid == 0
        else
          && s.done < |ms| && Offset(s.part) < |ms[s.done].data|
          && Flat(s.resp.dmas) == EffectsOf(ms[..s.done], s.resp.posted)
                                  + MessageEffect(ms[s.done], s.resp.posted, s.resp.head, Offset(s.part)))
  }

  /** Besides, messages completed at the sender are received whole, and the sender's completions are those of
      its signaled requests. */
  predicate Sound(s: System) {
    && ReceiverSound(s)
    && s.req.tail <= s.done && s.req.cqes == CompletionsOf(MessagesIn(s)[..s.req.tail])
  }

  lemma InvIsReceiverSound(s: System)
    requires RecvInv(s.resp, MessagesIn(s), s.done, s.part)
    ensures ReceiverSound(s)
  {
    hide CompletionsOf, RecvCompletionsOf, EffectsOf, NumSends, Flat, Wrap, Start, CursorOk, MessageEffect, AcksOk;
    var ms := MessagesIn(s);
    if s.part > 0 {
      SliceEndIsPrefixEnd(ms[s.done], s.part);
    }
  }

  lemma InvIsSound(s: System)
    requires SysInv(s)
    ensures Sound(s)
  {
    InvIsReceiverSound(s);
    hide QueueOk, WireOk, OpcodeOk, AckBitsOk, AsksOften, WindowOk, TailExact, CompletionsOf, RegistersOk, OutputOk,
         Wrap, Start, AcksOk, NaksEmitted, AcksSent, ReceiverSound;
    var ms := MessagesIn(s);
    if s.done < |ms| {
      StartNext(ms, s.done);
      StartOrder(ms, s.done, s.req.tail, |s.resp.accepted|);
    }
  }

  lemma NothingYet(opcode: Opcode, mrs: set<nat>)
    ensures MessagesIn(Init(opcode, mrs)) == [] && Init(opcode, mrs).resp.posted == []
  {
  }

  /** So it is, with the messages queued and the receive requests posted, in every run whose first message the
      opcode field did not claim to have begun. */
  lemma CompletionIsSound(opcode: Opcode, mrs: set<nat>, events: seq<Event>)
    requires GoodRun(opcode, mrs, events)
    ensures Sound(Run(Init(opcode, mrs), events))
    ensures MessagesIn(Run(Init(opcode, mrs), events)) == QueuedBy(events)
    ensures Run(Init(opcode, mrs), events).resp.posted == PostedBy(events)
  {
    RunRecords(Init(opcode, mrs), events);
    NothingYet(opcode, mrs);
    Reaches(opcode, mrs, events);
    hide Run, Init, SysInv, Sound, MessagesIn;
    InvIsSound(Run(Init(opcode, mrs), events));
  }

  /** The acknowledgement of any unacknowledged packet is taken and leaves the window open. */
  predicate Reopens(r: Requester.Requester, t: nat) {
    var a := Requester.HandleAck(r, Wrap(t), Requester.AckUnlimited);
    a.Running? && a.next.acked == t + 1 && !Requester.WindowClosed(a.next)
  }

  lemma AckReopens(r: Requester.Requester, t: nat)
    requires RequesterProofs.Inv(r) && r.acked <= t < |r.sent|
    ensures Reopens(r, t)
  {
    hide QueueOk, WireOk, OpcodeOk, AckBitsOk, AsksOften, TailExact, CompletionsOf, Start, Wrap,
         Requester.HandleAck, PsnCompare;
    TailBounds(r, Requester.MessagesOf(r.queue));
    AckIsExact(r, t, Requester.AckUnlimited);
    WirePsn(r);
    var r' := Requester.HandleAck(r, Wrap(t), Requester.AckUnlimited).next;
    WirePsn(r');
    WindowIsOpen(r'.compPsn, r'.acked, |r'.sent|, r'.psn);
  }

  /** The window never holds more than RXE_MAX_UNACKED_PSNS + 1 packets. When it is closed, one of
      them asks for an acknowledgement, and the acknowledgement of any of them opens it. */
  ghost predicate WindowKept(r: Requester.Requester) {
    && |r.sent| - r.acked <= 129
    && (Requester.WindowClosed(r) ==> exists i :: r.acked <= i < |r.sent| && r.sent[i].ackReq)
    && (forall t: nat | r.acked <= t < |r.sent| :: Reopens(r, t))
  }

  lemma InvKeepsWindow(r: Requester.Requester)
    requires RequesterProofs.Inv(r)
    ensures WindowKept(r)
  {
    hide QueueOk, WireOk, OpcodeOk, AckBitsOk, AsksOften, TailExact, CompletionsOf, Start, Wrap, PsnCompare, Reopens,
         WindowOk;
    WindowBound(r);
    if Requester.WindowClosed(r) {
      SomeAsks(r);
    }
    forall t: nat | r.acked <= t < |r.sent| ensures Reopens(r, t) {
      AckReopens(r, t);
    }
  }

  lemma LiveInv(s: System)
    requires SysInv(s) && s.status == Live
    ensures RequesterProofs.Inv(s.req)
  {
    hide CoreInv, TailExact, RecvInv, AcksSent, NaksEmitted, Start;
  }

  lemma WindowReopens(opcode: Opcode, mrs: set<nat>, events: seq<Event>)
    requires GoodRun(opcode, mrs, events) && Run(Init(opcode, mrs), events).status == Live
    ensures WindowKept(Run(Init(opcode, mrs), events).req)
  {
    hide SysInv, Run, Init, WindowKept, RequesterProofs.Inv;
    Reaches(opcode, mrs, events);
    LiveInv(Run(Init(opcode, mrs), events));
    InvKeepsWindow(Run(Init(opcode, mrs), events).req);
  }

  lemma SomeAsks(r: Requester.Requester)
    requires CoreInv(r) && r.acked + 65 <= |r.sent|
    ensures exists i :: r.acked <= i < |r.sent| && r.sent[i].ackReq
  {
    hide QueueOk, WireOk, OpcodeOk, AckBitsOk, CompletionsOf, WindowOk;
    assert AsksWithin(r.sent, r.acked);
  }

  lemma WindowBound(r: Requester.Requester)
    requires CoreInv(r)
    ensures r.acked <= |r.sent| <= r.acked + 129
    ensures Requester.WindowClosed(r) <==> |r.sent| == r.acked + 129
  {
    hide QueueOk, OpcodeOk, AckBitsOk, CompletionsOf, Start, Wrap, PsnCompare, Expected;
    WindowIsOpen(r.compPsn, r.acked, |r.sent|, r.psn);
  }

  lemma WirePsn(r: Requester.Requester)
    requires CoreInv(r)
    ensures r.psn == Wrap(|r.sent|) && WindowOk(r.compPsn, r.acked, |r.sent|)
  {
  }

  // ----- A closed window does not stay closed -----

  /** Packets from .. end - 1 arrive, one after the other. */
  function Deliveries(from: nat, end: nat): seq<Event>
    decreases end - from
  {
    if from >= end then [] else [DeliverRequest(from)] + Deliveries(from + 1, end)
  }

  lemma DeliveriesNext(from: nat, end: nat)
    requires from < end
    ensures Deliveries(from, end) != []
    ensures Deliveries(from, end)[0] == DeliverRequest(from) && Deliveries(from, end)[1..] == Deliveries(from + 1, end)
  {
  }

  /** The packets not yet accepted can be delivered in order, up to any of them, unless the receiver
      lacks what the next one needs. */
  lemma {:induction false} DeliverUpTo(s: System, end: nat) returns (k: nat)
    requires SysInv(s) && s.status == Live
    requires |s.resp.accepted| <= end <= |s.req.sent| <= |s.resp.accepted| + 0x40_0000
    ensures |s.resp.accepted| <= k <= end && Legal(s, Deliveries(|s.resp.accepted|, k))
    ensures var s' := Run(s, Deliveries(|s.resp.accepted|, k));
      && SysInv(s') && s'.status == Live && s'.req == s.req && |s'.resp.accepted| == k
      && (k == end || Starved(s'))
    decreases end - |s.resp.accepted|
  {
    hide SysInv, Starved, Apply, Deliveries;
    var n := |s.resp.accepted|;
    k := n;
    NoDeliveries(n);
    if n < end && !Starved(s) {
      AcceptInv(s, n);
      AcceptedNext(s);
      var s1 := Apply(s, DeliverRequest(n));
      k := DeliverUpTo(s1, end);
      DeliveriesNext(n, k);
    }
  }

  lemma NoDeliveries(n: nat)
    ensures Deliveries(n, n) == []
  {
  }

  lemma AcceptedNext(s: System)
    requires SysInv(s) && Enabled(s, DeliverRequest(|s.resp.accepted|)) && !Starved(s)
    ensures var s' := Apply(s, DeliverRequest(|s.resp.accepted|));
      s'.req == s.req && |s'.resp.accepted| == |s.resp.accepted| + 1
  {
    hide SysInv, Starved, Responder.Accept, PsnCompare;
    var i := |s.resp.accepted|;
    AcceptInv(s, i);
    ComparePackets(s, i);
    AcceptAcknowledges(s.resp, s.req.sent[i]);
  }

  lemma {:induction false} RunAppend(s: System, events: seq<Event>, more: seq<Event>)
    requires Legal(s, events) && Legal(Run(s, events), more)
    ensures Legal(s, events + more) && Run(s, events + more) == Run(Run(s, events), more)
    decreases |events|
  {
    hide Enabled, Apply;
    if events == [] {
      assert events + more == more;
    } else {
      RunAppend(Apply(s, events[0]), events[1..], more);
      assert (events + more)[1..] == events[1..] + more;
    }
  }

  lemma RunSnoc(s: System, events: seq<Event>, e: Event)
    requires Legal(s, events) && Enabled(Run(s, events), e)
    ensures Legal(s, events + [e]) && Run(s, events + [e]) == Apply(Run(s, events), e)
  {
    hide Enabled, Apply;
    assert [e][1..] == [];
    RunAppend(s, events, [e]);
  }

  /** Deliveries alone lead from s to a state whose window is open, unless the receiver comes to lack what
      the next packet needs. */
  predicate Unstalls(s: System, more: seq<Event>) {
    && (forall e | e in more :: e.DeliverRequest? || e.DeliverAck?)
    && Legal(s, more) && Run(s, more).status == Live
    && (Starved(Run(s, more)) || !Requester.WindowClosed(Run(s, more).req))
  }

  /** From any state of a run, the packets not yet accepted, delivered in order, and one acknowledgement
      already sent do so. */
  lemma NoSilentStall(opcode: Opcode, mrs: set<nat>, events: seq<Event>) returns (more: seq<Event>)
    requires GoodRun(opcode, mrs, events) && Run(Init(opcode, mrs), events).status == Live
    ensures Unstalls(Run(Init(opcode, mrs), events), more)
  {
    hide SysInv, Starved, Apply, Deliveries, Requester.WindowClosed, Legal, Run, Init;
    var s := Run(Init(opcode, mrs), events);
    Reaches(opcode, mrs, events);
    NothingHappens(s);
    more := [];
    if Requester.WindowClosed(s.req) {
      var i := Asking(s);
      var n := |s.resp.accepted|;
      var k := DeliverUpTo(s, if i < n then n else i + 1);
      more := Deliveries(n, k);
      OnlyDeliveries(n, k);
      var s' := Run(s, more);
      if !Starved(s') {
        var j := AnsweringAck(s', i);
        RunSnoc(s, more, DeliverAck(j));
        more := more + [DeliverAck(j)];
      }
    }
  }

  lemma NothingHappens(s: System)
    ensures Legal(s, []) && Run(s, []) == s
  {
  }

  lemma {:induction false} OnlyDeliveries(from: nat, end: nat)
    ensures forall e | e in Deliveries(from, end) :: e.DeliverRequest?
    decreases end - from
  {
    if from < end {
      OnlyDeliveries(from + 1, end);
    }
  }

  /** A closed window holds a packet that asks for an acknowledgement. */
  lemma Asking(s: System) returns (i: nat)
    requires SysInv(s) && s.status == Live && Requester.WindowClosed(s.req)
    ensures s.req.acked <= i < |s.req.sent| == s.req.acked + 129 && s.req.sent[i].ackReq
    ensures s.req.acked <= |s.resp.accepted| <= |s.req.sent|
  {
    hide QueueOk, WireOk, OpcodeOk, AckBitsOk, TailExact, CompletionsOf, RecvInv, Start, Wrap, PsnCompare, WindowOk,
         AcksSent, NaksEmitted, Requester.WindowClosed;
    WindowBound(s.req);
    assert AsksWithin(s.req.sent, s.req.acked);
    i :| s.req.acked <= i < s.req.acked + 65 && s.req.sent[i].ackReq;
  }

  /** Once such a packet is accepted, its acknowledgement has been sent and opens the window. */
  lemma AnsweringAck(s: System, i: nat) returns (j: nat)
    requires SysInv(s) && s.status == Live
    requires s.req.acked <= i < |s.resp.accepted| && |s.req.sent| <= s.req.acked + 129 && s.req.sent[i].ackReq
    ensures Enabled(s, DeliverAck(j))
    ensures Apply(s, DeliverAck(j)).status == Live && !Requester.WindowClosed(Apply(s, DeliverAck(j)).req)
  {
    hide CoreInv, RecvInv, TailExact, NaksEmitted, Requester.HandleAck, Requester.WindowClosed;
    assert s.resp.accepted[i] == s.req.sent[i];
    assert AckSent(s.resp.acks, i + 1);
    j :| 0 <= j < |s.resp.acks| && s.resp.acks[j].syndrome == Requester.AckUnlimited && s.resp.acks[j].covers == i + 1;
    AckNames(s, j);
    AckReopens(s.req, i);
  }
}
