/** What completing requests does to the number that the queue pair itself expects from its peer: why the
    traffic of a queue pair has to go one way. */
module ReceiveNumber {
  import opened Messages
  import opened Psn
  import opened Requester
  import opened RequesterProofs
  import opened AckProofs
  import opened Transport
  import opened TransportTheorems
  import opened ResponderProofs
  import Responder

  /** From any expected number, completing a request moves it just past the request's last packet if and only
      if the request is pending and that packet is not behind it. */
  lemma CompleteMovesExactly(r: Requester)
    requires r.tail < |r.queue|
    ensures var w := r.queue[r.tail];
      Complete(r).recvPsn == if w.state == Pending && Wrap(w.lastPsn - r.recvPsn) < 0x80_0000 then Wrap(w.lastPsn + 1)
                             else r.recvPsn
  {
    CompareByDifference(r.queue[r.tail].lastPsn, r.recvPsn);
    hide Wrap, PsnCompare;
  }

  /** In packet numbers: n becomes k + 1 if k is at least n, and stays otherwise. */
  lemma CompleteMovesPast(r: Requester, k: int, n: int)
    requires r.tail < |r.queue| && r.queue[r.tail].state == Pending
    requires r.queue[r.tail].lastPsn == Wrap(k) && r.recvPsn == Wrap(n) && -0x80_0000 <= k - n < 0x80_0000
    ensures Complete(r).recvPsn == Wrap(if k >= n then k + 1 else n)
    ensures Complete(r).recvPsn != r.recvPsn <==> k >= n
  {
    WrapTwice(k);
    WrapTwice(n);
    CompareIsExact(r.queue[r.tail].lastPsn, r.recvPsn, k, n);
    WrapNext(k);
    if k >= n {
      WrapDifference(k + 1, n);
      SmallNonzero(k + 1 - n);
    }
    hide Wrap, PsnCompare;
  }

  lemma SmallNonzero(k: int)
    requires 0 < k < 0x100_0000
    ensures Wrap(k) != 0
  {
  }

  /** The number expected is that of the first packet of the request at the tail. */
  predicate AtTail(r: Requester) { r.tail <= |r.queue| && r.recvPsn == Wrap(Start(MessagesOf(r.queue), r.tail)) }

  lemma CompleteAtTail(r: Requester)
    requires CoreInv(r) && AtTail(r) && r.tail < r.index
    ensures AtTail(Complete(r))
  {
    hide WireOk, AckBitsOk, AsksOften, OpcodeOk, WindowOk, CompletionsOf, NumPackets, Start, Wrap, PsnCompare;
    var ms := MessagesOf(r.queue);
    assert SentWhole(r.queue[r.tail], Start(ms, r.tail + 1));
    StartNext(ms, r.tail);
    PacketsBound(ms[r.tail]);
    CompleteMovesPast(r, Start(ms, r.tail + 1) - 1, Start(ms, r.tail));
  }

  lemma {:induction false} AckAtTail(r: Requester, t: nat, syndrome: Syndrome)
    requires CoreInv(r) && AtTail(r) && r.tail <= |r.queue|
    requires Start(MessagesOf(r.queue), r.tail) <= t && r.acked <= t < |r.sent|
    requires r.tail < |r.queue| ==> r.acked < Start(MessagesOf(r.queue), r.tail + 1)
    ensures match HandleAck(r, Wrap(t), syndrome)
      case Running(r') => AtTail(r')
      case Halted(r', _) => AtTail(r')
    decreases |r.queue| - r.tail
  {
    hide CoreInv, PsnCompare, Wrap, Complete, Start, SameWire, AllSendable, AtTail;
    var ms := MessagesOf(r.queue);
    TailHolds(r, t);
    CoreSendable(r);
    var last := Start(ms, r.tail + 1) - 1;
    WrapTwice(t);
    WrapTwice(last);
    CompareIsExact(Wrap(t), r.queue[r.tail].lastPsn, t, last);
    AckWindow(r, t);
    NextTail(ms, r.tail, t);
    if t <= last {
      WrapMeets(t, last);
    }
    if t >= last {
      CompleteCore(r);
      CompleteAtTail(r);
      SameWireQueue(r, Complete(r));
    }
    if t > last {
      AckAtTail(Complete(r), t, syndrome);
    } else {
      MovedAtTail(r, Wrap(Wrap(t) + 1), r.acked + 1 + Wrap(Wrap(t) - r.compPsn));
      MovedAtTail(Complete(r), Wrap(Wrap(t) + 1), Complete(r).acked + 1 + Wrap(Wrap(t) - Complete(r).compPsn));
    }
  }

  lemma MovedAtTail(r: Requester, compPsn: nat, acked: nat)
    ensures AtTail(r.(compPsn := compPsn, acked := acked)) <==> AtTail(r)
  {
  }

  lemma SendAtTail(r: Requester)
    requires AtTail(r) && CanSend(r)
    ensures AtTail(SendStep(r).0)
  {
    hide Wrap, PsnCompare, NextOpcode, MakePacket, CutFrom, Start;
    EmitKeepsMessages(r);
  }

  lemma EnqueueAtTail(r: Requester, m: Message)
    requires AtTail(r)
    ensures AtTail(Enqueue(r, m))
  {
    EnqueueStarts(r.queue, m);
    hide Start, Wrap;
  }

  lemma DeliverAckAtTail(s: System, i: nat)
    requires SysInv(s) && Enabled(s, DeliverAck(i)) && AtTail(s.req)
    ensures AtTail(Apply(s, DeliverAck(i)).req)
  {
    hide AcksSent, CoreInv, TailExact, RecvInv, Wrap, Start, NumPackets, HandleAck, PsnCompare, AtTail;
    var a := s.resp.acks[i];
    AckNames(s, i);
    TailBounds(s.req, MessagesOf(s.req.queue));
    if Named(a) < s.req.acked {
      StaleAckIsIgnored(s.req, Named(a), a.syndrome);
    } else {
      AckAtTail(s.req, Named(a), a.syndrome);
    }
  }

  lemma ApplyAtTail(s: System, e: Event)
    requires SysInv(s) && Enabled(s, e) && AtTail(s.req)
    ensures AtTail(Apply(s, e).req)
  {
    hide SysInv, AtTail, HandleAck, SendStep, Responder.HandleRequest;
    match e {
      case Queue(m) => EnqueueAtTail(s.req, m);
      case PostRecv(_) =>
      case SendOne => SendAtTail(s.req);
      case DeliverRequest(_) =>
      case DeliverAck(i) => DeliverAckAtTail(s, i);
    }
  }

  lemma {:induction false} RunAtTail(s: System, events: seq<Event>)
    requires SysInv(s) && Legal(s, events) && AtTail(s.req)
    requires s.req.queue == [] ==> RightStart(s.req.opcode, MessagesIn(Run(s, events)))
    ensures AtTail(Run(s, events).req)
    decreases |events|
  {
    hide SysInv, Apply, Enabled, AtTail;
    if events != [] {
      var e, s' := events[0], Apply(s, events[0]);
      ApplyKeepsMessages(s, e);
      RunKeepsMessages(s', events[1..]);
      if e.SendOne? {
        SendsSomething(s);
      }
      RunInv(s, [e]);
      ApplyAtTail(s, e);
      RunAtTail(s', events[1..]);
    }
  }

  /** In every run whose first message the opcode field did not claim to have begun, the number that the sender
      itself expects is that of the first packet not yet completed: it leaves what its peer sends behind. */
  lemma RecvPsnFollowsTail(opcode: Opcode, mrs: set<nat>, events: seq<Event>)
    requires GoodRun(opcode, mrs, events)
    ensures var s := Run(Init(opcode, mrs), events);
      s.req.tail <= |MessagesIn(s)| && s.req.recvPsn == Wrap(Start(MessagesIn(s), s.req.tail))
  {
    InitInv(opcode, mrs);
    InitAtTail(opcode);
    hide Run, SysInv, Wrap;
    RunAtTail(Init(opcode, mrs), events);
  }

  lemma InitAtTail(opcode: Opcode)
    ensures AtTail(Create(opcode))
  {
  }
}
