/** How a connection asks for acknowledgements and refuses packets, in every run: which packets ask, and when
    a NAK is sent. */
module Acknowledging {
  import opened Messages
  import opened Psn
  import opened Requester
  import opened RequesterProofs
  import opened ResponderProofs
  import opened PacketOrder
  import opened AckProofs
  import opened Transport
  import Responder
  import Scatter

  // ----- Which packets ask for an acknowledgement -----

  /** Packet i is the end of a message, or follows 64 packets that do not ask. */
  predicate ShouldAsk(sent: seq<Packet>, i: nat)
    requires i < |sent|
  {
    sent[i].opcode.IsEnd() || (i >= 64 && forall k | i - 64 <= k < i :: !sent[k].ackReq)
  }

  /** noack_pkts counts the packets since the last that asked, and those that ask are the ones that should. */
  predicate AsksExactly(noAckPkts: nat, sent: seq<Packet>) {
    && noAckPkts <= 64 && noAckPkts <= |sent|
    && (noAckPkts < |sent| ==> sent[|sent| - noAckPkts - 1].ackReq)
    && (forall k | |sent| - noAckPkts <= k < |sent| :: !sent[k].ackReq)
    && (forall i | 0 <= i < |sent| :: sent[i].ackReq <==> ShouldAsk(sent, i))
  }

  lemma SendAsks(r: Requester)
    requires AsksExactly(r.noAckPkts, r.sent) && CanSend(r)
    ensures AsksExactly(SendStep(r).0.noAckPkts, SendStep(r).0.sent)
  {
    hide Wrap, PsnCompare, NextOpcode, NumPackets, CutFrom;
    var r', n := SendStep(r).0, |r.sent|;
    if |r'.sent| == n + 1 {
      assert r'.sent[..n] == r.sent;
      forall i | 0 <= i <= n ensures r'.sent[i].ackReq <==> ShouldAsk(r'.sent, i) {
        if i < n {
          EarlierAsks(r.sent, r'.sent, i);
        } else if n >= 64 && r.noAckPkts < 64 {
          assert r'.sent[n - r.noAckPkts - 1].ackReq;
        }
      }
    }
  }

  lemma EarlierAsks(sent: seq<Packet>, sent': seq<Packet>, i: nat)
    requires sent <= sent' && i < |sent|
    ensures ShouldAsk(sent', i) <==> ShouldAsk(sent, i)
  {
    assert forall k | 0 <= k <= i :: sent'[k] == sent[k];
  }

  lemma ApplyAsks(s: System, e: Event)
    requires Enabled(s, e) && AsksExactly(s.req.noAckPkts, s.req.sent)
    ensures AsksExactly(Apply(s, e).req.noAckPkts, Apply(s, e).req.sent)
  {
    hide AsksExactly, SendStep, HandleAck, Responder.HandleRequest;
    match e {
      case Queue(_) =>
      case PostRecv(_) =>
      case SendOne => SendAsks(s.req);
      case DeliverRequest(_) =>
      case DeliverAck(i) => AckKeepsWire(s.req, s.resp.acks[i].psn, s.resp.acks[i].syndrome);
    }
  }

  lemma {:induction false} RunAsks(s: System, events: seq<Event>)
    requires Legal(s, events) && AsksExactly(s.req.noAckPkts, s.req.sent)
    ensures AsksExactly(Run(s, events).req.noAckPkts, Run(s, events).req.sent)
    decreases |events|
  {
    hide AsksExactly, Apply, Enabled;
    if events != [] {
      ApplyAsks(s, events[0]);
      RunAsks(Apply(s, events[0]), events[1..]);
    }
  }

  /** In every run a packet asks for an acknowledgement if and only if it ends a message or none of the 64
      before it asks. */
  lemma AsksInEveryRun(opcode: Opcode, mrs: set<nat>, events: seq<Event>)
    requires Legal(Init(opcode, mrs), events)
    ensures var sent := Run(Init(opcode, mrs), events).req.sent;
      forall i | 0 <= i < |sent| :: sent[i].ackReq <==>
        sent[i].opcode.IsEnd() || (i >= 64 && forall k | i - 64 <= k < i :: !sent[k].ackReq)
  {
    RunAsks(Init(opcode, mrs), events);
    hide Run, Init;
    var r := Run(Init(opcode, mrs), events).req;
    assert forall i | 0 <= i < |r.sent| :: r.sent[i].ackReq <==> ShouldAsk(r.sent, i);
  }

  // ----- When a NAK is sent -----

  /** Packet n has been refused. */
  ghost predicate NakSent(acks: seq<Responder.Ack>, n: nat) {
    exists j :: 0 <= j < |acks| && acks[j].syndrome == NakPsnSeqError && acks[j].covers == n
  }

  /** No packet is refused twice, and none after a later one. */
  predicate NaksAscend(acks: seq<Responder.Ack>) {
    forall i, j | 0 <= i < j < |acks| && acks[i].syndrome == acks[j].syndrome == NakPsnSeqError ::
      acks[i].covers < acks[j].covers
  }

  /** The flag says whether the packet expected next has been refused. */
  ghost predicate NaksOk(s: Responder.Responder) {
    && (s.sentNak <==> NakSent(s.acks, |s.accepted|))
    && NaksAscend(s.acks) && (forall j | 0 <= j < |s.acks| :: s.acks[j].covers <= |s.accepted|)
  }

  lemma AckAddsNoNak(s: Responder.Responder, a: Responder.Ack)
    requires NaksAscend(s.acks) && (forall j | 0 <= j < |s.acks| :: s.acks[j].covers <= |s.accepted|)
    requires a.syndrome == NakPsnSeqError ==> a.covers == |s.accepted| && !NakSent(s.acks, |s.accepted|)
    ensures NaksAscend(s.acks + [a])
    ensures NakSent(s.acks + [a], |s.accepted|) <==>
      NakSent(s.acks, |s.accepted|) || (a.syndrome == NakPsnSeqError && a.covers == |s.accepted|)
  {
    var acks := s.acks + [a];
    if NakSent(s.acks, |s.accepted|) {
      var j :| 0 <= j < |s.acks| && s.acks[j].syndrome == NakPsnSeqError && s.acks[j].covers == |s.accepted|;
      assert acks[j] == s.acks[j];
    }
    if a.syndrome == NakPsnSeqError {
      assert acks[|s.acks|] == a;
    }
  }

  /** The next packet clears the flag, and nothing has refused the one after it. */
  lemma AcceptNaks(s: Responder.Responder, p: Packet)
    requires NaksOk(s)
    ensures match Responder.Accept(s, p)
      case Stopped => true
      case Took(s') => NaksOk(s')
  {
    hide Responder.Accept, Wrap;
    AcceptAcknowledges(s, p);
  }

  /** A packet beyond the expected one leaves a NAK of that one, sent now or before. */
  lemma RequestNaks(s: Responder.Responder, p: Packet)
    requires NaksOk(s)
    ensures match Responder.HandleRequest(s, p)
      case Stopped => true
      case Took(s') =>
        && NaksOk(s')
        && (PsnCompare(p.psn, s.psn) > 0 ==> NakSent(s'.acks, |s.accepted|) && s'.accepted == s.accepted)
  {
    hide Responder.Accept, Wrap, PsnCompare, NakSent, NaksAscend;
    AcceptNaks(s, p);
    var msn, n := s.msn % 0x100_0000, |s.accepted|;
    if PsnCompare(p.psn, s.psn) > 0 {
      if !s.sentNak {
        AckAddsNoNak(s, Responder.Ack(NakPsnSeqError, s.psn, msn, n));
      }
    } else if PsnCompare(p.psn, s.psn) < 0 {
      AckAddsNoNak(s, Responder.Ack(AckUnlimited, Wrap(s.ackPsn - 1), msn, n));
    }
  }

  lemma ApplyNaks(s: System, e: Event)
    requires Enabled(s, e) && NaksOk(s.resp)
    ensures NaksOk(Apply(s, e).resp)
  {
    hide NaksOk, SendStep, HandleAck, Responder.HandleRequest;
    match e {
      case Queue(_) =>
      case PostRecv(w) => PostNaks(s.resp, w);
      case SendOne =>
      case DeliverRequest(i) => RequestNaks(s.resp, s.req.sent[i]);
      case DeliverAck(_) =>
    }
  }

  lemma PostNaks(s: Responder.Responder, w: Scatter.RecvWqe)
    requires NaksOk(s)
    ensures NaksOk(Responder.PostRecv(s, w))
  {
  }

  lemma {:induction false} RunNaks(s: System, events: seq<Event>)
    requires Legal(s, events) && NaksOk(s.resp)
    ensures NaksOk(Run(s, events).resp)
    decreases |events|
  {
    hide NaksOk, Apply, Enabled;
    if events != [] {
      ApplyNaks(s, events[0]);
      RunNaks(Apply(s, events[0]), events[1..]);
    }
  }

  /** In every run the flag is set if and only if the packet expected next has been refused, and no packet is
      refused twice. */
  lemma NakFlagInEveryRun(opcode: Opcode, mrs: set<nat>, events: seq<Event>)
    requires Legal(Init(opcode, mrs), events)
    ensures var s := Run(Init(opcode, mrs), events).resp;
      && (s.sentNak <==> NakSent(s.acks, |s.accepted|))
      && NaksAscend(s.acks)
  {
    RunNaks(Init(opcode, mrs), events);
    hide Run, Init;
  }

  /** And a packet that arrives beyond the expected one finds that refused, or has it refused by its number. */
  lemma BeyondIsRefused(opcode: Opcode, mrs: set<nat>, events: seq<Event>, i: nat)
    requires Legal(Init(opcode, mrs), events) && Enabled(Run(Init(opcode, mrs), events), DeliverRequest(i))
    requires i > |Run(Init(opcode, mrs), events).resp.accepted|
    ensures var s := Run(Init(opcode, mrs), events);
      var s', n := Apply(s, DeliverRequest(i)), |s.resp.accepted|;
      && s'.status == Live && s'.resp.accepted == s.resp.accepted
      && exists j :: 0 <= j < |s'.resp.acks| && s'.resp.acks[j].syndrome == NakPsnSeqError
                     && s'.resp.acks[j].covers == n && s'.resp.acks[j].psn == Wrap(n)
  {
    RunNaks(Init(opcode, mrs), events);
    InitOrdered(opcode, mrs);
    RunOrdered(Init(opcode, mrs), events);
    hide Run, Init, Ordered, NaksOk, Wrap, PsnCompare, Legal;
    var s := Run(Init(opcode, mrs), events);
    OrderedCompares(s, i);
    RequestNaks(s.resp, s.req.sent[i]);
    DeliverRequestOrdered(s, i);
    var s' := Apply(s, DeliverRequest(i));
    var j :| 0 <= j < |s'.resp.acks| && s'.resp.acks[j].syndrome == NakPsnSeqError
             && s'.resp.acks[j].covers == |s.resp.accepted|;
    OrderedNames(s', j);
  }

  lemma OrderedNames(s: System, j: nat)
    requires Ordered(s) && j < |s.resp.acks| && s.resp.acks[j].syndrome == NakPsnSeqError
    ensures s.resp.acks[j].psn == Wrap(s.resp.acks[j].covers)
  {
    hide Wrap, Numbered;
    assert AckOk(s.resp.acks[j], |s.resp.accepted|);
  }
}
