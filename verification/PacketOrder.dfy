/** What every run keeps, whatever the opcode field and the messages: packets are numbered in the order of
    their emission, accepted in that order, and acknowledged after they are accepted; and the window bounds
    how many are outstanding. */
module PacketOrder {
  import opened Messages
  import opened Psn
  import opened Requester
  import opened RequesterProofs
  import opened AckProofs
  import opened ResponderProofs
  import opened Transport
  import Scatter
  import Responder

  /** The sender's numbers. */
  predicate SenderNumbered(r: Requester) {
    r.psn == Wrap(|r.sent|) && Numbered(r.sent) && WindowOk(r.compPsn, r.acked, |r.sent|)
  }

  /** The receiver's numbers. */
  predicate ReceiverNumbered(s: Responder.Responder) {
    s.psn == s.ackPsn == Wrap(|s.accepted|) && AcksOk(s.acks, |s.accepted|)
  }

  predicate Ordered(s: System) {
    && SenderNumbered(s.req) && ReceiverNumbered(s.resp)
    && s.resp.accepted <= s.req.sent && s.req.acked <= |s.resp.accepted|
    && NaksEmitted(s.resp.acks, |s.req.sent|)
  }

  // ----- The sender -----

  /** An acknowledgement of packet t moves the window to t + 1 or leaves it, and a NAK leaves it. */
  predicate WindowMovedTo(r: Requester, r': Requester, t: nat, syndrome: Syndrome) {
    || (r'.compPsn == r.compPsn && r'.acked == r.acked)
    || (syndrome == AckUnlimited && r.acked <= t && r'.compPsn == Wrap(t + 1) && r'.acked == t + 1)
  }

  /** How far packet t is from the window's lower end. */
  lemma AckDistance(r: Requester, t: nat)
    requires SenderNumbered(r) && t < |r.sent| <= t + 0x40_0000
    ensures PsnCompare(Wrap(t), r.compPsn) < 0 <==> t < r.acked
    ensures r.acked <= t ==> Wrap(Wrap(t) - r.compPsn) == t - r.acked && Wrap(Wrap(t) + 1) == Wrap(t + 1)
  {
    hide Numbered, Wrap, PsnCompare;
    WrapTwice(t);
    WrapTwice(r.acked);
    CompareIsExact(Wrap(t), r.compPsn, t, r.acked);
    if r.acked <= t {
      WrapSubtract(Wrap(t), r.compPsn, t, r.acked);
      SmallWrap(t - r.acked);
      WrapNext(t);
    }
  }

  lemma {:induction false} AckMovesWindow(r: Requester, t: nat, syndrome: Syndrome)
    requires SenderNumbered(r) && t < |r.sent| <= t + 0x40_0000
    ensures match HandleAck(r, Wrap(t), syndrome)
      case Running(r') => WindowMovedTo(r, r', t, syndrome)
      case Halted(r', _) => WindowMovedTo(r, r', t, syndrome)
    decreases |r.queue| - r.tail
  {
    hide Wrap, PsnCompare, Numbered;
    AckDistance(r, t);
    if r.tail < |r.queue| {
      AckMovesWindow(Complete(r), t, syndrome);
    }
  }

  lemma SmallWrap(k: nat)
    requires k < 0x100_0000
    ensures Wrap(k) == k
  {
  }

  /** An emission appends the packet with the next number, and only while the window is open. */
  lemma SendNumbered(r: Requester)
    requires SenderNumbered(r) && CanSend(r)
    ensures var r' := SendStep(r).0;
      SenderNumbered(r') && r'.acked == r.acked && r.sent <= r'.sent
  {
    hide Wrap, PsnCompare, NextOpcode, NumPackets;
    WindowIsOpen(r.compPsn, r.acked, |r.sent|, r.psn);
    WrapNext(|r.sent|);
    WrapTwice(|r.sent|);
  }

  // ----- The receiver -----

  lemma OtherKeepsHistory(s: Responder.Responder, p: Packet)
    requires PsnCompare(p.psn, s.psn) != 0
    ensures match Responder.HandleRequest(s, p)
      case Stopped => true
      case Took(s') => s'.accepted == s.accepted && s'.opcode == s.opcode
  {
    hide PsnCompare, Wrap;
  }

  lemma AcceptedOpcode(s: Responder.Responder, p: Packet)
    ensures match Responder.Accept(s, p)
      case Stopped => true
      case Took(s') =>
        s'.accepted == s.accepted + [p] && s'.opcode == p.opcode && s'.psn == s'.ackPsn == Wrap(p.psn + 1)
  {
    hide Wrap, Scatter.ScatterPayload;
  }

  lemma AcceptNumbered(s: Responder.Responder, p: Packet)
    requires ReceiverNumbered(s) && p.psn == Wrap(|s.accepted|)
    ensures match Responder.Accept(s, p)
      case Stopped => true
      case Took(s') => ReceiverNumbered(s') && s'.accepted == s.accepted + [p]
  {
    hide Responder.Accept, Wrap;
    AcceptAcknowledges(s, p);
    AcceptedOpcode(s, p);
    WrapNext(|s.accepted|);
    match Responder.Accept(s, p) {
      case Stopped =>
      case Took(s') =>
        forall i | 0 <= i < |s'.acks| ensures AckOk(s'.acks[i], |s'.accepted|) {
          if i < |s.acks| {
            assert AckOk(s.acks[i], |s.accepted|);
          }
        }
    }
  }

  lemma AnswerNumbered(s: Responder.Responder, syndrome: Syndrome, psn: nat)
    requires ReceiverNumbered(s) && AckOk(Responder.Ack(syndrome, psn, 0, |s.accepted|), |s.accepted|)
    ensures ReceiverNumbered(Responder.SendAck(s, syndrome, psn))
  {
    hide Wrap;
  }

  lemma AnswersNamed(s: Responder.Responder)
    requires ReceiverNumbered(s)
    ensures AckOk(Responder.Ack(NakPsnSeqError, s.psn, 0, |s.accepted|), |s.accepted|)
    ensures s.accepted != [] ==> AckOk(Responder.Ack(AckUnlimited, Wrap(s.ackPsn - 1), 0, |s.accepted|), |s.accepted|)
  {
    WrapNext(|s.accepted|);
  }

  /** Packet i of the wire is accepted only behind packets 0 .. i - 1, and a NAK names a packet before the
      one that caused it. */
  lemma RequestNumbered(s: Responder.Responder, p: Packet, i: nat)
    requires ReceiverNumbered(s) && p.psn == Wrap(i) && PsnCompare(p.psn, s.psn) == 256 * (i - |s.accepted|)
    ensures match Responder.HandleRequest(s, p)
      case Stopped => true
      case Took(s') =>
        && ReceiverNumbered(s') && s'.accepted == (if i == |s.accepted| then s.accepted + [p] else s.accepted)
        && (forall emitted: nat | i < emitted && NaksEmitted(s.acks, emitted) :: NaksEmitted(s'.acks, emitted))
  {
    hide Responder.Accept, Wrap, PsnCompare, AckOk;
    AnswersNamed(s);
    AcksGrow(s, p);
    if i == |s.accepted| {
      AcceptNumbered(s, p);
    } else if PsnCompare(p.psn, s.psn) > 0 {
      AnswerNumbered(s.(sentNak := true), NakPsnSeqError, s.psn);
    } else {
      AnswerNumbered(s, AckUnlimited, Wrap(s.ackPsn - 1));
    }
  }

  // ----- Both sides -----

  lemma InitOrdered(opcode: Opcode, mrs: set<nat>)
    ensures Ordered(Init(opcode, mrs))
  {
  }

  lemma OrderedCompares(s: System, i: nat)
    requires Ordered(s) && Enabled(s, DeliverRequest(i))
    ensures Compares(s, i)
  {
    hide PsnCompare, Wrap, AcksOk, NaksEmitted;
    WrapTwice(i);
    WrapTwice(|s.resp.accepted|);
    CompareIsExact(s.req.sent[i].psn, s.resp.psn, i, |s.resp.accepted|);
  }

  lemma DeliverRequestOrdered(s: System, i: nat)
    requires Ordered(s) && Enabled(s, DeliverRequest(i))
    ensures Ordered(Apply(s, DeliverRequest(i))) && Apply(s, DeliverRequest(i)).req == s.req
  {
    hide SenderNumbered, ReceiverNumbered, NaksEmitted, Wrap, PsnCompare, Responder.HandleRequest;
    OrderedCompares(s, i);
    RequestNumbered(s.resp, s.req.sent[i], i);
  }

  lemma OrderedAckNames(s: System, i: nat)
    requires Ordered(s) && Enabled(s, DeliverAck(i))
    ensures AckNamed(s, i)
  {
    hide Wrap, Numbered;
    assert AckOk(s.resp.acks[i], |s.resp.accepted|);
  }

  lemma DeliverAckOrdered(s: System, i: nat)
    requires Ordered(s) && Enabled(s, DeliverAck(i))
    ensures Ordered(Apply(s, DeliverAck(i)))
  {
    hide ReceiverNumbered, NaksEmitted, Numbered, HandleAck, Wrap;
    var a := s.resp.acks[i];
    OrderedAckNames(s, i);
    AckMovesWindow(s.req, Named(a), a.syndrome);
    AckKeepsWire(s.req, a.psn, a.syndrome);
  }

  lemma MoreEmitted(acks: seq<Responder.Ack>, emitted: nat, more: nat)
    requires NaksEmitted(acks, emitted) && emitted <= more
    ensures NaksEmitted(acks, more)
  {
  }

  lemma ApplyOrdered(s: System, e: Event)
    requires Ordered(s) && Enabled(s, e)
    ensures Ordered(Apply(s, e))
  {
    hide NaksEmitted, Responder.HandleRequest, HandleAck, SendStep, Numbered, Wrap;
    match e {
      case Queue(_) =>
      case PostRecv(_) =>
      case SendOne =>
        SendNumbered(s.req);
        MoreEmitted(s.resp.acks, |s.req.sent|, |SendStep(s.req).0.sent|);
      case DeliverRequest(i) => DeliverRequestOrdered(s, i);
      case DeliverAck(i) => DeliverAckOrdered(s, i);
    }
  }

  lemma {:induction false} RunOrdered(s: System, events: seq<Event>)
    requires Ordered(s) && Legal(s, events)
    ensures Ordered(Run(s, events))
    decreases |events|
  {
    hide Ordered, Apply, Enabled;
    if events != [] {
      ApplyOrdered(s, events[0]);
      RunOrdered(Apply(s, events[0]), events[1..]);
    }
  }

  /** In every run what the receiver accepts is a prefix of the wire, in order, without gap or repeat,
      whatever the network does; what is acknowledged has been accepted; packets are numbered from 0 modulo
      2^24; and at most RXE_MAX_UNACKED_PSNS + 1 of them are unacknowledged. */
  lemma AcceptedInOrder(opcode: Opcode, mrs: set<nat>, events: seq<Event>)
    requires Legal(Init(opcode, mrs), events)
    ensures var s := Run(Init(opcode, mrs), events);
      && s.resp.accepted <= s.req.sent
      && (forall i | 0 <= i < |s.req.sent| :: s.req.sent[i].psn == Wrap(i))
      && s.req.acked <= |s.resp.accepted| <= |s.req.sent| <= s.req.acked + 129
      && s.req.compPsn == Wrap(s.req.acked) && s.resp.psn == Wrap(|s.resp.accepted|)
  {
    InitOrdered(opcode, mrs);
    RunOrdered(Init(opcode, mrs), events);
    hide Run, Init, Wrap, NaksEmitted, AcksOk;
  }
}
