/** The completions that the transport makes are the ones the host can report: in every run they come
    in the order, and name the requests, that smartns_poll_cq relies on. */
module EndToEnd {
  import opened Messages
  import opened RingIndex
  import opened Counters
  import opened HostQueues
  import opened ReceiverQps
  import opened Psn
  import opened RequesterProofs
  import opened ResponderProofs
  import opened Scatter
  import opened Transport
  import opened TransportTheorems
  import opened CreatedReceivers
  import Responder
  import Requester

  /** The completion entries as they are written to the host. */
  function SendEntries(cqes: seq<Requester.SendCqe>): (es: seq<Cqe>)
    ensures |es| == |cqes|
  {
    seq(|cqes|, i requires 0 <= i < |cqes| => SendDone(cqes[i].op, cqes[i].byteCount, cqes[i].wqeCounter))
  }

  function RecvEntries(cqes: seq<Responder.RecvCqe>, n: nat): (es: seq<Cqe>)
    requires n > 0
    ensures |es| == |cqes|
  {
    seq(|cqes|, i requires 0 <= i < |cqes| => RecvDone(cqes[i].byteCount, Slot(cqes[i].wqeCounter, n)))
  }

  /** The entries of the receiver are the completions its queue pair makes, which name slots. */
  lemma EntriesAreMade(cqes: seq<Responder.RecvCqe>, n: nat)
    requires n > 0
    ensures forall i | 0 <= i < |cqes| ::
      RecvEntries(cqes, n)[i] == RecvDone(WithSlots(cqes, n)[i].byteCount, WithSlots(cqes, n)[i].wqeCounter)
  {
  }

  // ----- Receives -----

  /** Completions name the receive requests one after the other. */
  predicate Consecutive(cqes: seq<Responder.RecvCqe>) { forall k | 0 <= k < |cqes| :: cqes[k].wqeCounter == k }

  lemma {:induction false} RecvsInOrder(cqes: seq<Responder.RecvCqe>, e: Ends)
    requires Consecutive(cqes) && e.recvCnt > 0 && e.recvFreed == 0 && |cqes| <= e.recvTaken
    ensures InOrder(e, RecvEntries(cqes, e.recvCnt))
    ensures EndsAfter(e, RecvEntries(cqes, e.recvCnt)) == e.(recvFreed := |cqes|)
    decreases |cqes|
  {
    hide InOrder, EndsAfter, Slot;
    if cqes == [] {
      NoneInOrder(e);
      assert RecvEntries(cqes, e.recvCnt) == [];
    } else {
      var rest, c := cqes[..|cqes| - 1], cqes[|cqes| - 1];
      RecvsInOrder(rest, e);
      var entry := RecvDone(c.byteCount, Slot(c.wqeCounter, e.recvCnt));
      InOrderGrows(e, RecvEntries(rest, e.recvCnt), entry);
      assert RecvEntries(cqes, e.recvCnt) == RecvEntries(rest, e.recvCnt) + [entry];
    }
  }

  lemma NoneInOrder(e: Ends)
    ensures InOrder(e, []) && EndsAfter(e, []) == e
  {
  }

  // ----- Sends -----

  /** The position after the last signaled request: where completions leave the host's tail. */
  function SignaledEnd(ms: seq<Message>): (k: nat)
    ensures k <= |ms|
    decreases |ms|
  {
    if ms == [] then 0 else if ms[|ms| - 1].signaled then |ms| else SignaledEnd(ms[..|ms| - 1])
  }

  /** The requests were posted at consecutive positions of one ring, each while the tail, which
      signaled requests alone move, was less than the counter space behind. */
  predicate Numbered32(ms: seq<Message>) {
    forall k | 0 <= k < |ms| :: ms[k].curPos == U32(k) && k < SignaledEnd(ms[..k]) + 0x1_0000_0000
  }

  lemma {:induction false} SendsInOrder(ms: seq<Message>, e: Ends)
    requires Numbered32(ms) && e.sendFreed == 0 && |ms| <= e.sendTaken
    ensures InOrder(e, SendEntries(CompletionsOf(ms)))
    ensures EndsAfter(e, SendEntries(CompletionsOf(ms))) == e.(sendFreed := SignaledEnd(ms))
    decreases |ms|
  {
    hide InOrder, EndsAfter, U32, TrueIndex;
    if ms == [] {
      NoneInOrder(e);
      assert SendEntries(CompletionsOf(ms)) == [];
    } else {
      var k := |ms| - 1;
      var rest, m := ms[..k], ms[k];
      assert forall j | 0 <= j < k :: rest[..j] == ms[..j];
      SendsInOrder(rest, e);
      if m.signaled {
        var entry := SendDone(m.op, |m.data|, m.curPos);
        assert m.curPos == U32(k);
        TrueIndexIs(SignaledEnd(rest), k);
        InOrderGrows(e, SendEntries(CompletionsOf(rest)), entry);
        assert SendEntries(CompletionsOf(ms)) == SendEntries(CompletionsOf(rest)) + [entry];
      } else {
        assert CompletionsOf(ms) == CompletionsOf(rest);
      }
    }
  }

  lemma Numbered32Prefix(ms: seq<Message>, k: nat)
    requires Numbered32(ms) && k <= |ms|
    ensures Numbered32(ms[..k])
  {
    hide U32, SignaledEnd;
    forall j | 0 <= j < k ensures ms[..k][j].curPos == U32(j) && j < SignaledEnd(ms[..k][..j]) + 0x1_0000_0000 {
      assert ms[..k][..j] == ms[..j];
    }
  }

  // ----- Every run -----

  /** The sender has completed the requests before its tail, in order. */
  predicate SenderInTurn(r: Requester.Requester) {
    r.tail <= |r.queue| && r.cqes == CompletionsOf(Requester.MessagesOf(r.queue)[..r.tail])
  }

  /** And the receiver those before its head. */
  predicate InTurn(s: System) { SenderInTurn(s.req) && Consecutive(s.resp.cqes) && |s.resp.cqes| == s.resp.head }

  lemma {:induction false} AckInTurn(r: Requester.Requester, psn: nat, syndrome: Requester.Syndrome)
    requires SenderInTurn(r)
    ensures match Requester.HandleAck(r, psn, syndrome)
      case Running(r') => SenderInTurn(r')
      case Halted(r', _) => SenderInTurn(r')
    decreases |r.queue| - r.tail
  {
    hide Wrap, PsnCompare, CompletionsOf;
    if r.tail < |r.queue| {
      CompleteInTurn(r);
      AckInTurn(Requester.Complete(r), psn, syndrome);
    }
  }

  lemma CompleteInTurn(r: Requester.Requester)
    requires SenderInTurn(r) && r.tail < |r.queue|
    ensures SenderInTurn(Requester.Complete(r))
  {
    hide PsnCompare, Wrap;
    var ms := Requester.MessagesOf(r.queue);
    assert ms[..r.tail + 1][..r.tail] == ms[..r.tail];
  }

  lemma RequestInTurn(s: Responder.Responder, p: Packet)
    requires Consecutive(s.cqes) && |s.cqes| == s.head
    ensures match Responder.HandleRequest(s, p)
      case Stopped => true
      case Took(s') => Consecutive(s'.cqes) && |s'.cqes| == s'.head
  {
    hide PsnCompare, Wrap, ScatterPayload;
  }

  lemma SendKeepsTail(r: Requester.Requester)
    requires CanSend(r)
    ensures Requester.SendStep(r).0.tail == r.tail && Requester.SendStep(r).0.cqes == r.cqes
  {
    hide Wrap, PsnCompare, Requester.NextOpcode, Requester.MakePacket, NumPackets;
  }

  lemma ApplyInTurn(s: System, e: Event)
    requires InTurn(s) && Enabled(s, e)
    ensures InTurn(Apply(s, e))
  {
    hide Requester.SendStep, Requester.HandleAck, Responder.HandleRequest, CompletionsOf, Consecutive;
    ApplyKeepsMessages(s, e);
    match e {
      case Queue(m) => assert (MessagesIn(s) + [m])[..s.req.tail] == MessagesIn(s)[..s.req.tail];
      case PostRecv(_) =>
      case SendOne => SendKeepsTail(s.req);
      case DeliverRequest(i) => RequestInTurn(s.resp, s.req.sent[i]);
      case DeliverAck(i) => AckInTurn(s.req, s.resp.acks[i].psn, s.resp.acks[i].syndrome);
    }
  }

  lemma {:induction false} RunInTurn(s: System, events: seq<Event>)
    requires InTurn(s) && Legal(s, events)
    ensures InTurn(Run(s, events))
    decreases |events|
  {
    hide InTurn, Apply, Enabled;
    if events != [] {
      ApplyInTurn(s, events[0]);
      RunInTurn(Apply(s, events[0]), events[1..]);
    }
  }

  lemma InitInTurn(opcode: Opcode, mrs: set<nat>)
    ensures InTurn(Init(opcode, mrs))
  {
    assert MessagesIn(Init(opcode, mrs)) == [];
  }

  /** In every run, whatever the opcode field, all that the sender has put on its completion ring completes
      outstanding requests in order, and so does all that the receiver has put on its own. */
  lemma CompletionsReportable(opcode: Opcode, mrs: set<nat>, events: seq<Event>, sends: Ends, recvs: Ends)
    requires Legal(Init(opcode, mrs), events)
    requires Numbered32(MessagesIn(Run(Init(opcode, mrs), events)))
    requires sends.sendFreed == 0 && |Run(Init(opcode, mrs), events).req.queue| <= sends.sendTaken
    requires recvs.recvFreed == 0 && recvs.recvCnt > 0 && Run(Init(opcode, mrs), events).resp.head <= recvs.recvTaken
    ensures InOrder(sends, SendEntries(Run(Init(opcode, mrs), events).req.cqes))
    ensures InOrder(recvs, RecvEntries(Run(Init(opcode, mrs), events).resp.cqes, recvs.recvCnt))
  {
    InitInTurn(opcode, mrs);
    RunInTurn(Init(opcode, mrs), events);
    hide Run, Init, Legal, InOrder, Numbered32, CompletionsOf, EndsAfter, Consecutive;
    var s := Run(Init(opcode, mrs), events);
    Numbered32Prefix(MessagesIn(s), s.req.tail);
    SendsInOrder(MessagesIn(s)[..s.req.tail], sends);
    RecvsInOrder(s.resp.cqes, recvs);
  }

  // ----- What the host is told -----

  /** The positions of the signaled requests, in order. */
  function SignaledAt(ms: seq<Message>): (ks: seq<nat>)
    ensures |ks| == |CompletionsOf(ms)| && forall i | 0 <= i < |ks| :: ks[i] < |ms|
    decreases |ms|
  {
    if ms == [] then [] else SignaledAt(ms[..|ms| - 1]) + if ms[|ms| - 1].signaled then [|ms| - 1] else []
  }

  /** The positions of the SENDs, in order. */
  function SendsAt(ms: seq<Message>): (ks: seq<nat>)
    ensures |ks| == NumSends(ms) && forall i | 0 <= i < |ks| :: ks[i] < |ms|
    decreases |ms|
  {
    if ms == [] then [] else SendsAt(ms[..|ms| - 1]) + if ms[|ms| - 1].op == Send then [|ms| - 1] else []
  }

  /** The completion of the send request m, number k of its ring. */
  predicate TellsSend(wc: Wc, m: Message, k: nat, cnt: nat, ids: seq<nat>) {
    && k < |ids|
    && wc.opcode == (match m.op case Send => WcSend case RdmaWrite => WcRdmaWrite) && wc.byteLen == |m.data|
    && (cnt <= 0x1_0000 ==> wc.wrId == ids[k])
  }

  /** The completion of receive request number i, which took the SEND m. */
  predicate TellsRecv(wc: Wc, m: Message, i: nat, cnt: nat, ids: seq<nat>) {
    i < |ids| && wc.opcode == WcRecv && wc.byteLen == |m.data| && (cnt <= 0x1_0000 ==> wc.wrId == ids[i])
  }

  lemma {:induction false} ReportsLast(wcs: seq<Wc>, e: Ends, cqes: seq<Cqe>, c: Cqe, sendIds: seq<nat>,
                                       recvIds: seq<nat>)
    requires ReportsAll(wcs, e, cqes + [c], sendIds, recvIds)
    ensures |wcs| == |cqes| + 1
    ensures ReportsAll(wcs[..|cqes|], e, cqes, sendIds, recvIds)
    ensures Reports(wcs[|cqes|], EndsAfter(e, cqes), c, sendIds, recvIds)
    decreases |cqes|
  {
    hide Reports, After;
    if cqes == [] {
      assert (cqes + [c])[1..] == [];
    } else {
      assert (cqes + [c])[1..] == cqes[1..] + [c];
      ReportsLast(wcs[1..], After(e, cqes[0]), cqes[1..], c, sendIds, recvIds);
      assert wcs[1..][..|cqes| - 1] == wcs[..|cqes|][1..];
    }
  }

  /** The first n completions reported of what the sender puts on its ring are those of the first n signaled
      requests. */
  lemma {:induction false} SendsTold(ms: seq<Message>, e: Ends, n: nat, wcs: seq<Wc>, sendIds: seq<nat>,
                                     recvIds: seq<nat>)
    requires Numbered32(ms) && e.sendFreed == 0 && |ms| <= e.sendTaken && n <= |CompletionsOf(ms)|
    requires ReportsAll(wcs, e, SendEntries(CompletionsOf(ms))[..n], sendIds, recvIds)
    ensures |wcs| == n
    ensures forall i | 0 <= i < n ::
      TellsSend(wcs[i], ms[SignaledAt(ms)[i]], SignaledAt(ms)[i], e.sendCnt, sendIds)
    decreases |ms|
  {
    hide ReportsAll, InOrder, EndsAfter, Reports, TellsSend, U32, TrueIndex, Numbered32;
    NothingTold(wcs, e, SendEntries(CompletionsOf(ms))[..n], sendIds, recvIds);
    if ms != [] {
      var k := |ms| - 1;
      var rest, m := ms[..k], ms[k];
      var all, before := SendEntries(CompletionsOf(ms)), SendEntries(CompletionsOf(rest));
      Numbered32Prefix(ms, k);
      if n <= |before| {
        assert all[..n] == before[..n];
        SendsTold(rest, e, n, wcs, sendIds, recvIds);
      } else {
        var c := SendDone(m.op, |m.data|, m.curPos);
        LastEntry(ms);
        assert all[..n] == before + [c];
        assert before[..n - 1] == before;
        ReportsLast(wcs, e, before, c, sendIds, recvIds);
        SendsTold(rest, e, n - 1, wcs[..n - 1], sendIds, recvIds);
        SendsInOrder(rest, e);
        LastTold(ms, wcs[n - 1], e, sendIds, recvIds);
      }
    }
  }

  lemma NothingTold(wcs: seq<Wc>, e: Ends, cqes: seq<Cqe>, sendIds: seq<nat>, recvIds: seq<nat>)
    requires ReportsAll(wcs, e, cqes, sendIds, recvIds)
    ensures |wcs| == |cqes|
  {
  }

  /** The entry of the last request is its own. */
  lemma LastEntry(ms: seq<Message>)
    requires ms != [] && ms[|ms| - 1].signaled
    ensures var m := ms[|ms| - 1];
      SendEntries(CompletionsOf(ms))
        == SendEntries(CompletionsOf(ms[..|ms| - 1])) + [SendDone(m.op, |m.data|, m.curPos)]
  {
  }

  lemma LastTold(ms: seq<Message>, wc: Wc, e: Ends, sendIds: seq<nat>, recvIds: seq<nat>)
    requires ms != [] && Numbered32(ms)
    requires var m := ms[|ms| - 1];
      Reports(wc, e.(sendFreed := SignaledEnd(ms[..|ms| - 1])), SendDone(m.op, |m.data|, m.curPos), sendIds, recvIds)
    ensures TellsSend(wc, ms[|ms| - 1], |ms| - 1, e.sendCnt, sendIds)
  {
    hide U32, TrueIndex, SignaledEnd;
    var k := |ms| - 1;
    assert ms[k].curPos == U32(k);
    TrueIndexIs(SignaledEnd(ms[..k]), k);
  }

  /** And those of what the receiver puts on its ring are of the first n SENDs. */
  lemma {:induction false} RecvsTold(ms: seq<Message>, e: Ends, n: nat, wcs: seq<Wc>, sendIds: seq<nat>,
                                     recvIds: seq<nat>)
    requires e.recvCnt > 0 && e.recvFreed == 0 && NumSends(ms) <= e.recvTaken && n <= |RecvCompletionsOf(ms)|
    requires ReportsAll(wcs, e, RecvEntries(RecvCompletionsOf(ms), e.recvCnt)[..n], sendIds, recvIds)
    ensures |wcs| == n <= |SendsAt(ms)|
    ensures forall i | 0 <= i < n :: TellsRecv(wcs[i], ms[SendsAt(ms)[i]], i, e.recvCnt, recvIds)
    decreases |ms|
  {
    hide ReportsAll, InOrder, EndsAfter, Slot, TellsRecv, RecvCompletionsOf, RecvEntries, NumSends, SendsAt;
    var all := RecvEntries(RecvCompletionsOf(ms), e.recvCnt);
    NothingTold(wcs, e, all[..n], sendIds, recvIds);
    RecvsCounted(ms);
    if n > 0 {
      LastRecvEntry(ms, e.recvCnt);
      var k := |ms| - 1;
      var rest, m := ms[..k], ms[k];
      RecvsCounted(rest);
      var before := RecvEntries(RecvCompletionsOf(rest), e.recvCnt);
      if n <= |before| {
        assert all[..n] == before[..n];
        RecvsTold(rest, e, n, wcs, sendIds, recvIds);
      } else {
        var c := RecvDone(|m.data|, Slot(NumSends(rest), e.recvCnt));
        assert all[..n] == before + [c] && before[..n - 1] == before;
        ReportsLast(wcs, e, before, c, sendIds, recvIds);
        RecvsTold(rest, e, n - 1, wcs[..n - 1], sendIds, recvIds);
        RecvsInOrder(RecvCompletionsOf(rest), e);
        LastRecvTold(wcs[n - 1], m, e, NumSends(rest), c, sendIds, recvIds);
      }
    }
  }

  /** The last message adds its own entry if it is a SEND, and none otherwise. */
  lemma LastRecvEntry(ms: seq<Message>, cnt: nat)
    requires cnt > 0
    ensures ms == [] ==> RecvEntries(RecvCompletionsOf(ms), cnt) == []
    ensures ms != [] ==>
      var rest, m := ms[..|ms| - 1], ms[|ms| - 1];
      && RecvEntries(RecvCompletionsOf(ms), cnt) == RecvEntries(RecvCompletionsOf(rest), cnt)
           + (if m.op == Send then [RecvDone(|m.data|, Slot(NumSends(rest), cnt))] else [])
      && NumSends(ms) == NumSends(rest) + (if m.op == Send then 1 else 0)
      && SendsAt(ms) == SendsAt(rest) + (if m.op == Send then [|ms| - 1] else [])
  {
    hide Slot;
    if ms != [] {
      var rest := ms[..|ms| - 1];
      assert ms[|ms| - 1].op != Send ==> RecvCompletionsOf(ms) == RecvCompletionsOf(rest);
    }
  }

  lemma LastRecvTold(wc: Wc, m: Message, e: Ends, i: nat, c: Cqe, sendIds: seq<nat>, recvIds: seq<nat>)
    requires Reports(wc, e.(recvFreed := i), c, sendIds, recvIds) && c.RecvDone? && c.byteCount == |m.data|
    ensures TellsRecv(wc, m, i, e.recvCnt, recvIds)
  {
  }

  lemma {:induction false} RecvsCounted(ms: seq<Message>)
    ensures |RecvCompletionsOf(ms)| == NumSends(ms) && Consecutive(RecvCompletionsOf(ms))
    decreases |ms|
  {
    if ms != [] {
      RecvsCounted(ms[..|ms| - 1]);
    }
  }

  /** In every run, whatever the opcode field, the host that polls n of the sender's completions is told of the
      first n signaled requests, in order, each with its kind, its length and its wr_id. */
  lemma SenderHostIsTold(opcode: Opcode, mrs: set<nat>, events: seq<Event>, e: Ends, n: nat, wcs: seq<Wc>,
                         sendIds: seq<nat>, recvIds: seq<nat>)
    requires Legal(Init(opcode, mrs), events) && Numbered32(QueuedBy(events))
    requires e.sendFreed == 0 && |QueuedBy(events)| <= e.sendTaken
    requires n <= |Run(Init(opcode, mrs), events).req.cqes|
    requires ReportsAll(wcs, e, SendEntries(Run(Init(opcode, mrs), events).req.cqes)[..n], sendIds, recvIds)
    ensures var ms, ks := QueuedBy(events), SignaledAt(QueuedBy(events));
      && |wcs| == n <= |ks|
      && forall i | 0 <= i < n :: TellsSend(wcs[i], ms[ks[i]], ks[i], e.sendCnt, sendIds)
  {
    hide Run, Init, Legal, Numbered32, InTurn, ReportsAll, TellsSend, QueuedBy, PostedBy, SignaledAt, MessagesIn;
    InitInTurn(opcode, mrs);
    RunInTurn(Init(opcode, mrs), events);
    RunRecords(Init(opcode, mrs), events);
    NothingYet(opcode, mrs);
    assert MessagesIn(Run(Init(opcode, mrs), events)) == QueuedBy(events);
    InTurnTells(Run(Init(opcode, mrs), events), e, n, wcs, sendIds, recvIds);
  }

  lemma InTurnTells(s: System, e: Ends, n: nat, wcs: seq<Wc>, sendIds: seq<nat>, recvIds: seq<nat>)
    requires InTurn(s) && Numbered32(MessagesIn(s)) && e.sendFreed == 0 && |MessagesIn(s)| <= e.sendTaken
    requires n <= |s.req.cqes| && ReportsAll(wcs, e, SendEntries(s.req.cqes)[..n], sendIds, recvIds)
    ensures var ms, ks := MessagesIn(s), SignaledAt(MessagesIn(s));
      && |wcs| == n <= |ks|
      && forall i | 0 <= i < n :: TellsSend(wcs[i], ms[ks[i]], ks[i], e.sendCnt, sendIds)
  {
    hide Numbered32, CompletionsOf, Consecutive, ReportsAll, TellsSend, SignaledAt, SendEntries;
    var ms := MessagesIn(s);
    Numbered32Prefix(ms, s.req.tail);
    SendsTold(ms[..s.req.tail], e, n, wcs, sendIds, recvIds);
    SignaledPrefix(ms, s.req.tail);
  }

  lemma {:induction false} SignaledPrefix(ms: seq<Message>, k: nat)
    requires k <= |ms|
    ensures SignaledAt(ms[..k]) <= SignaledAt(ms)
    decreases |ms|
  {
    if k < |ms| {
      assert ms[..|ms| - 1][..k] == ms[..k];
      SignaledPrefix(ms[..|ms| - 1], k);
    } else {
      assert ms[..k] == ms;
    }
  }

  lemma {:induction false} SendsPrefix(ms: seq<Message>, k: nat)
    requires k <= |ms|
    ensures SendsAt(ms[..k]) <= SendsAt(ms)
    decreases |ms|
  {
    if k < |ms| {
      assert ms[..|ms| - 1][..k] == ms[..k];
      SendsPrefix(ms[..|ms| - 1], k);
    } else {
      assert ms[..k] == ms;
    }
  }

  /** In every run of a created queue pair the host that polls n of the receiver's completions is told of the
      first n SENDs queued at the other end, in order, each with its length, on the receive requests in the order
      they were posted. */
  lemma ReceiverHostIsTold(mrs: set<nat>, events: seq<Event>, e: Ends, n: nat, wcs: seq<Wc>, sendIds: seq<nat>,
                           recvIds: seq<nat>)
    requires Legal(Init(SendFirst, mrs), events)
    requires e.recvFreed == 0 && e.recvCnt > 0 && |PostedBy(events)| <= e.recvTaken
    requires n <= |Run(Init(SendFirst, mrs), events).resp.cqes|
    requires ReportsAll(wcs, e, RecvEntries(Run(Init(SendFirst, mrs), events).resp.cqes, e.recvCnt)[..n], sendIds,
                        recvIds)
    ensures var ms, ks := QueuedBy(events), SendsAt(QueuedBy(events));
      && |wcs| == n <= |ks|
      && forall i | 0 <= i < n :: TellsRecv(wcs[i], ms[ks[i]], i, e.recvCnt, recvIds)
  {
    ReceiverIsRight(mrs, events);
    hide Run, Init, Legal, ReportsAll, TellsRecv, QueuedBy, PostedBy, SendsAt, RecvCompletionsOf, NumSends, EffectsOf,
         MessageEffect, Flat;
    var s := Run(Init(SendFirst, mrs), events);
    var ms := QueuedBy(events);
    RecvsTold(ms[..s.done], e, n, wcs, sendIds, recvIds);
    SendsPrefix(ms, s.done);
  }
}
