/** What every step of the sending side keeps. */
module RequesterProofs {
  import opened Messages
  import opened Psn
  import opened Requester

  function FragmentsOf(ps: seq<Packet>): (fs: seq<Fragment>)
    ensures |fs| == |ps|
    ensures forall i | 0 <= i < |fs| :: fs[i] == FragmentOf(ps[i])
  {
    seq(|ps|, i requires 0 <= i < |ps| => FragmentOf(ps[i]))
  }

  /** The completions of the signaled requests among ms, in order. */
  function CompletionsOf(ms: seq<Message>): seq<SendCqe>
    decreases |ms|
  {
    if ms == [] then []
    else
      var m := ms[|ms| - 1];
      CompletionsOf(ms[..|ms| - 1]) + if m.signaled then [SendCqe(|m.data|, m.op, m.curPos)] else []
  }

  predicate AllSendable(ms: seq<Message>) { forall i | 0 <= i < |ms| :: Sendable(ms[i]) }

  /** How many packets of the request under the index have been emitted. */
  function PartSent(queue: seq<SendWqe>, index: nat): nat {
    if index < |queue| then queue[index].pktNum else 0
  }

  /** Request k, whose successor starts at packet number end, has been emitted whole. */
  predicate SentWhole(w: SendWqe, end: nat) {
    && w.state == Pending && w.offset == |w.msg.data|
    && w.firstPsn == Wrap(end - NumPackets(w.msg)) && w.lastPsn == Wrap(end - 1)
  }

  /** The request has been emitted up to packet w.pktNum. */
  predicate SentInPart(w: SendWqe, end: nat) {
    && w.pktNum < NumPackets(w.msg)
    && w.offset == Offset(w.pktNum) < |w.msg.data|
    && (if w.pktNum == 0 then w == Fresh(w.msg)
        else w.state == Processing && w.firstPsn == Wrap(end - NumPackets(w.msg)) && w.lastPsn == Wrap(end - 1))
  }

  /** Before the index everything is emitted, after it nothing is. */
  predicate QueueOk(queue: seq<SendWqe>, tail: nat, index: nat) {
    var ms := MessagesOf(queue);
    && AllSendable(ms)
    && tail <= index <= |queue|
    && (forall k | 0 <= k < index :: SentWhole(queue[k], Start(ms, k + 1)))
    && (index < |queue| ==> SentInPart(queue[index], Start(ms, index + 1)))
    && (forall k | index < k < |queue| :: queue[k] == Fresh(queue[k].msg))
  }

  /** The fragments of the messages before index, and the first part fragments of the next. */
  function Expected(ms: seq<Message>, index: nat, part: nat): seq<Fragment>
    requires index <= |ms|
    requires part <= if index < |ms| then NumPackets(ms[index]) else 0
  {
    AllFragments(ms[..index]) + if index < |ms| then Fragments(ms[index], part) else []
  }

  predicate Numbered(sent: seq<Packet>) { forall i | 0 <= i < |sent| :: sent[i].psn == Wrap(i) }

  /** The wire carries the fragments of the messages, in order, numbered from zero. */
  predicate WireOk(ms: seq<Message>, index: nat, part: nat, sent: seq<Packet>, psn: nat) {
    && index <= |ms| && part <= (if index < |ms| then NumPackets(ms[index]) else 0)
    && |sent| == Start(ms, index) + part
    && psn == Wrap(|sent|)
    && Numbered(sent)
    && FragmentsOf(sent) == Expected(ms, index, part)
  }

  /** The last opcode says whether a message is unfinished; before the first packet it need only not
      claim to continue the first message. */
  predicate OpcodeOk(queue: seq<SendWqe>, index: nat, opcode: Opcode) {
    if PartSent(queue, index) == 0 then
      && (index < |queue| ==> !opcode.Continues(queue[index].msg.op))
      && (index > 0 ==> !opcode.Continues(Send) && !opcode.Continues(RdmaWrite))
    else opcode == OpcodeAt(queue[index].msg, PartSent(queue, index) - 1)
  }

  /** The counter counts the packets since the last one that asked for an acknowledgement. */
  predicate AckBitsOk(noAckPkts: nat, sent: seq<Packet>) {
    && noAckPkts <= 64 && noAckPkts <= |sent|
    && (noAckPkts < |sent| ==> sent[|sent| - noAckPkts - 1].ackReq)
    && (forall i | 0 <= i < |sent| && sent[i].opcode.IsEnd() :: sent[i].ackReq)
  }

  /** Among packets i .. i + 64 one asks for an acknowledgement. */
  ghost predicate AsksWithin(sent: seq<Packet>, i: nat)
    requires i + 65 <= |sent|
  {
    exists k :: i <= k < i + 65 && sent[k].ackReq
  }

  ghost predicate AsksOften(sent: seq<Packet>) {
    forall i: nat | i + 65 <= |sent| :: AsksWithin(sent, i)
  }

  predicate WindowOk(compPsn: nat, acked: nat, emitted: nat) {
    compPsn == Wrap(acked) && acked <= emitted <= acked + 129
  }

  /** The requests before the tail are those whose last packet is acknowledged. */
  predicate TailExact(ms: seq<Message>, tail: nat, acked: nat) {
    && tail <= |ms|
    && Start(ms, tail) <= acked
    && (tail < |ms| ==> acked < Start(ms, tail + 1))
  }

  /** What holds even after a halt. */
  ghost predicate CoreInv(r: Requester) {
    var ms := MessagesOf(r.queue);
    && QueueOk(r.queue, r.tail, r.index)
    && WireOk(ms, r.index, PartSent(r.queue, r.index), r.sent, r.psn)
    && OpcodeOk(r.queue, r.index, r.opcode)
    && AckBitsOk(r.noAckPkts, r.sent)
    && AsksOften(r.sent)
    && WindowOk(r.compPsn, r.acked, |r.sent|)
    && r.cqes == CompletionsOf(ms[..r.tail])
  }

  ghost predicate Inv(r: Requester) {
    CoreInv(r) && TailExact(MessagesOf(r.queue), r.tail, r.acked)
  }

  lemma PacketsBound(m: Message)
    requires Sendable(m)
    ensures 1 <= NumPackets(m) <= 0x4_0000
  {
  }

  lemma StartNext(ms: seq<Message>, k: nat)
    requires k < |ms|
    ensures Start(ms, k + 1) == Start(ms, k) + NumPackets(ms[k])
  {
  }

  lemma EveryStart(ms: seq<Message>, index: nat)
    requires AllSendable(ms) && index <= |ms|
    ensures index < |ms| ==> Start(ms, index) + NumPackets(ms[index]) <= Start(ms, |ms|)
  {
    hide Start, NumPackets;
    if index < |ms| {
      StartNext(ms, index);
      StartMonotone(ms, index + 1, |ms|);
    }
  }

  /** No more is emitted or acknowledged than the messages hold. */
  lemma AckedWithin(r: Requester)
    requires CoreInv(r)
    ensures r.acked <= |r.sent| <= Start(MessagesOf(r.queue), |r.queue|)
  {
    hide AckBitsOk, AsksOften, CompletionsOf, OpcodeOk, Numbered, Expected, Start, NumPackets, SentWhole, SentInPart,
         Wrap, AllSendable;
    var ms := MessagesOf(r.queue);
    EveryStart(ms, r.index);
    if r.index == |r.queue| {
      assert |r.sent| == Start(ms, r.index);
    }
  }

  // ----- Creation and queueing -----

  /** With nothing queued, any opcode field is safe. */
  lemma CreateInv(opcode: Opcode)
    ensures Inv(Create(opcode))
  {
    hide NumPackets, Fragments, SentInPart, SentWhole, Sendable, OpcodeAt, FragmentsOf, MessagesOf;
    var r := Create(opcode);
    assert MessagesOf(r.queue) == [] && FragmentsOf(r.sent) == [];
    assert Expected([], 0, 0) == [];
  }

  lemma EnqueueStarts(queue: seq<SendWqe>, m: Message)
    ensures var ms, ms' := MessagesOf(queue), MessagesOf(queue + [Fresh(m)]);
      && ms' == ms + [m]
      && (forall k | 0 <= k <= |ms| :: Start(ms', k) == Start(ms, k) && ms'[..k] == ms[..k])
  {
    var ms, ms' := MessagesOf(queue), MessagesOf(queue + [Fresh(m)]);
    assert ms' == ms + [m];
    forall k | 0 <= k <= |ms| ensures Start(ms', k) == Start(ms, k) && ms'[..k] == ms[..k] {
      StartPrefix(ms, m, k);
    }
  }

  lemma EnqueueQueueOk(queue: seq<SendWqe>, tail: nat, index: nat, m: Message)
    requires QueueOk(queue, tail, index) && Sendable(m)
    ensures QueueOk(queue + [Fresh(m)], tail, index)
  {
    FreshSentInPart(m);
    hide Start, SentWhole, SentInPart;
    EnqueueStarts(queue, m);
    var queue' := queue + [Fresh(m)];
    forall k | 0 <= k < index ensures SentWhole(queue'[k], Start(MessagesOf(queue'), k + 1)) {
      assert SentWhole(queue[k], Start(MessagesOf(queue), k + 1));
    }
  }

  lemma FreshSentInPart(m: Message)
    requires Sendable(m)
    ensures forall end: nat :: SentInPart(Fresh(m), end)
  {
  }

  lemma EnqueueWireOk(ms: seq<Message>, m: Message, index: nat, part: nat, sent: seq<Packet>, psn: nat)
    requires WireOk(ms, index, part, sent, psn)
    ensures WireOk(ms + [m], index, part, sent, psn)
  {
    StartPrefix(ms, m, index);
    hide Start, Wrap, NumPackets, AllFragments;
    assert (ms + [m])[..index] == ms[..index];
    assert Fragments(m, 0) == [];
  }

  /** m is not the first message, or the opcode field does not claim that it has begun. */
  predicate Joins(r: Requester, m: Message) { r.queue == [] ==> !r.opcode.Continues(m.op) }

  lemma EnqueueCore(r: Requester, m: Message)
    requires CoreInv(r) && Sendable(m)
    ensures CoreInv(Enqueue(r, m)) <==> Joins(r, m)
    ensures MessagesOf(Enqueue(r, m).queue) == MessagesOf(r.queue) + [m]
  {
    var ms, tail := MessagesOf(r.queue), r.tail;
    EnqueueStarts(r.queue, m);
    EnqueueQueueOk(r.queue, tail, r.index, m);
    EnqueueWireOk(ms, m, r.index, PartSent(r.queue, r.index), r.sent, r.psn);
    EnqueueOpcodeOk(r, m);
    TailWithin(r.queue, tail, r.index);
    assert (ms + [m])[..tail] == ms[..tail];
    assert PartSent(r.queue + [Fresh(m)], r.index) == PartSent(r.queue, r.index);
    hide QueueOk, WireOk, AckBitsOk, AsksOften, WindowOk, TailExact, Start, OpcodeOk, CompletionsOf, PartSent,
         MessagesOf;
  }

  lemma TailWithin(queue: seq<SendWqe>, tail: nat, index: nat)
    requires QueueOk(queue, tail, index)
    ensures tail <= index <= |queue|
  {
  }

  lemma EnqueueOpcodeOk(r: Requester, m: Message)
    requires OpcodeOk(r.queue, r.index, r.opcode) && r.index <= |r.queue|
    ensures OpcodeOk(r.queue + [Fresh(m)], r.index, r.opcode) <==> Joins(r, m)
  {
  }

  /** Queueing keeps the invariant exactly when the opcode field does not claim that the first message
      has begun. */
  lemma EnqueueInv(r: Requester, m: Message)
    requires Inv(r) && Sendable(m)
    ensures Inv(Enqueue(r, m)) <==> Joins(r, m)
    ensures MessagesOf(Enqueue(r, m).queue) == MessagesOf(r.queue) + [m]
  {
    hide CoreInv, TailExact, Joins, MessagesOf;
    EnqueueCore(r, m);
    AckedWithin(r);
    EnqueueTailExact(MessagesOf(r.queue), m, r.tail, r.acked);
    assert Inv(Enqueue(r, m)) <==> CoreInv(Enqueue(r, m));
  }

  lemma EnqueueTailExact(ms: seq<Message>, m: Message, tail: nat, acked: nat)
    requires TailExact(ms, tail, acked) && Sendable(m) && acked <= Start(ms, |ms|)
    ensures TailExact(ms + [m], tail, acked)
  {
    hide NumPackets;
    PacketsBound(m);
    StartPrefix(ms, m, tail);
    if tail < |ms| {
      StartPrefix(ms, m, tail + 1);
    } else {
      StartNext(ms + [m], tail);
    }
  }

  // ----- Emitting a packet -----

  lemma NextOpcodeIsRight(w: SendWqe, opcode: Opcode)
    requires Sendable(w.msg) && w.pktNum < NumPackets(w.msg) && w.offset == Offset(w.pktNum)
    requires if w.pktNum == 0 then !opcode.Continues(w.msg.op) else opcode == OpcodeAt(w.msg, w.pktNum - 1)
    ensures NextOpcode(w, opcode) == OpcodeAt(w.msg, w.pktNum)
    ensures NextOpcode(w, opcode).IsEnd() <==> w.pktNum + 1 == NumPackets(w.msg)
    ensures NextOpcode(w, opcode).IsStart() <==> w.pktNum == 0
    ensures NextOpcode(w, opcode).HasReth() <==> w.pktNum == 0 && w.msg.op == RdmaWrite
    ensures NextOpcode(w, opcode).IsEnd() ==>
      !NextOpcode(w, opcode).Continues(Send) && !NextOpcode(w, opcode).Continues(RdmaWrite)
  {
  }

  function PayloadOf(w: SendWqe): nat
    requires w.offset <= |w.msg.data|
  {
    if |w.msg.data| - w.offset >= 8192 then 8192 else |w.msg.data| - w.offset
  }

  /** The fields of the step, one by one. */
  lemma EmittedFields(r: Requester)
    requires r.index < |r.queue| && r.queue[r.index].offset <= |r.queue[r.index].msg.data|
    ensures var r', w := EmitPacket(r), r.queue[r.index];
      var op, payload := NextOpcode(w, r.opcode), PayloadOf(w);
      var (packet, n) := MakePacket(r, w, op, payload);
      && r'.queue == r.queue[r.index := CutFrom(w, op, payload, r.psn)] && r'.tail == r.tail
      && r'.index == (if op.IsEnd() then r.index + 1 else r.index)
      && r'.psn == Wrap(r.psn + 1) && r'.opcode == op && r'.noAckPkts == n && r'.sent == r.sent + [packet]
      && r'.compPsn == r.compPsn && r'.recvPsn == r.recvPsn && r'.cqes == r.cqes && r'.acked == r.acked
  {
    hide Wrap, NextOpcode, MakePacket, CutFrom;
  }

  predicate CanEmit(r: Requester) {
    && r.index < |r.queue|
    && QueueOk(r.queue, r.tail, r.index)
    && OpcodeOk(r.queue, r.index, r.opcode)
  }

  /** What one emitted packet is. */
  lemma EmittedFragment(r: Requester)
    requires CanEmit(r)
    ensures var w, r' := r.queue[r.index], EmitPacket(r);
      && |r'.sent| == |r.sent| + 1
      && r'.sent == r.sent + [r'.sent[|r.sent|]]
      && FragmentOf(r'.sent[|r.sent|]) == FragmentAt(w.msg, w.pktNum)
      && r'.sent[|r.sent|].psn == Wrap(r.psn)
      && r'.psn == Wrap(r.psn + 1)
      && r'.acked == r.acked && r'.compPsn == r.compPsn && r'.tail == r.tail && r'.cqes == r.cqes
  {
    var w := r.queue[r.index];
    NextOpcodeIsRight(w, r.opcode);
    SliceEndIsPrefixEnd(w.msg, w.pktNum);
    hide NextOpcode, Wrap, OpcodeAt;
  }

  /** What becomes of the request it is cut from; end is the packet number after its last. */
  lemma CutIsRight(w: SendWqe, opcode: Opcode, start: nat, psn: nat, payload: nat)
    requires Sendable(w.msg) && w.pktNum < NumPackets(w.msg) && w.offset == Offset(w.pktNum)
    requires w.pktNum > 0 ==> w.firstPsn == Wrap(start) && w.lastPsn == Wrap(start + NumPackets(w.msg) - 1)
    requires psn == Wrap(start + w.pktNum)
    requires w.offset + payload == PrefixEnd(w.msg, w.pktNum + 1)
    requires opcode.IsEnd() <==> w.pktNum + 1 == NumPackets(w.msg)
    requires opcode.IsStart() <==> w.pktNum == 0
    ensures var w' := CutFrom(w, opcode, payload, psn);
      && w'.msg == w.msg && w'.pktNum == w.pktNum + 1
      && (if w'.pktNum == NumPackets(w.msg) then SentWhole(w', start + NumPackets(w.msg))
          else SentInPart(w', start + NumPackets(w.msg)))
  {
    if w.pktNum == 0 {
      WrapAdd(start, NumPackets(w.msg) - 1);
    }
    if w.pktNum + 1 < NumPackets(w.msg) {
      SliceEndIsPrefixEnd(w.msg, w.pktNum + 1);
    }
    PacketsBound(w.msg);
    hide Wrap;
  }

  lemma EmittedRequest(r: Requester)
    requires CanEmit(r) && r.psn == Wrap(Start(MessagesOf(r.queue), r.index) + r.queue[r.index].pktNum)
    ensures var w, r', end := r.queue[r.index], EmitPacket(r), Start(MessagesOf(r.queue), r.index + 1);
      && r'.queue == r.queue[r.index := r'.queue[r.index]]
      && r'.queue[r.index].msg == w.msg
      && r'.queue[r.index].pktNum == w.pktNum + 1
      && r'.opcode == OpcodeAt(w.msg, w.pktNum)
      && (if w.pktNum + 1 == NumPackets(w.msg)
          then r'.index == r.index + 1 && SentWhole(r'.queue[r.index], end)
               && !r'.opcode.Continues(Send) && !r'.opcode.Continues(RdmaWrite)
          else r'.index == r.index && SentInPart(r'.queue[r.index], end))
  {
    var w := r.queue[r.index];
    NextOpcodeIsRight(w, r.opcode);
    SliceEndIsPrefixEnd(w.msg, w.pktNum);
    StartNext(MessagesOf(r.queue), r.index);
    PayloadIs(w);
    CutIsRight(w, NextOpcode(w, r.opcode), Start(MessagesOf(r.queue), r.index), r.psn,
               PrefixEnd(w.msg, w.pktNum + 1) - w.offset);
    hide NextOpcode, Wrap, OpcodeAt, MakePacket, CutFrom, SentWhole, Start, PrefixEnd;
  }

  lemma PayloadIs(w: SendWqe)
    requires Sendable(w.msg) && w.pktNum < NumPackets(w.msg) && w.offset == Offset(w.pktNum)
    ensures w.offset <= |w.msg.data|
    ensures PrefixEnd(w.msg, w.pktNum + 1) - w.offset
         == if |w.msg.data| - w.offset >= 8192 then 8192 else |w.msg.data| - w.offset
  {
  }

  lemma EmitQueueOk(r: Requester)
    requires CanEmit(r) && r.psn == Wrap(Start(MessagesOf(r.queue), r.index) + r.queue[r.index].pktNum)
    ensures var r' := EmitPacket(r);
      && QueueOk(r'.queue, r'.tail, r'.index)
      && OpcodeOk(r'.queue, r'.index, r'.opcode)
      && MessagesOf(r'.queue) == MessagesOf(r.queue)
      && PartSent(r'.queue, r'.index) == if r'.index == r.index then r.queue[r.index].pktNum + 1 else 0
  {
    EmittedRequest(r);
    var r', ms := EmitPacket(r), MessagesOf(r.queue);
    assert r'.tail == r.tail;
    if r.index + 1 < |r.queue| {
      FreshSentInPart(ms[r.index + 1]);
    }
    hide EmitPacket, Start, SentWhole, SentInPart, Wrap, OpcodeAt, NumPackets;
    assert MessagesOf(r'.queue) == ms;
    forall k | 0 <= k < r'.index ensures SentWhole(r'.queue[k], Start(ms, k + 1)) {
      assert k < r.index ==> SentWhole(r.queue[k], Start(ms, k + 1));
    }
  }

  lemma ExpectedNext(ms: seq<Message>, index: nat, part: nat)
    requires index < |ms| && part < NumPackets(ms[index]) && Offset(part) <= |ms[index].data|
    ensures Expected(ms, index, part + 1) == Expected(ms, index, part) + [FragmentAt(ms[index], part)]
    ensures part + 1 == NumPackets(ms[index]) ==> Expected(ms, index + 1, 0) == Expected(ms, index, part + 1)
  {
    hide AllFragments, Fragments, FragmentAt, NumPackets;
    AllFragmentsNext(ms, index);
    FragmentsNext(ms[index], part);
    var whole, first, next := AllFragments(ms[..index]), Fragments(ms[index], part), FragmentAt(ms[index], part);
    assert whole + (first + [next]) == (whole + first) + [next];
    if index + 1 < |ms| {
      NoFragments(ms[index + 1]);
    }
  }

  lemma FragmentsNext(m: Message, part: nat)
    requires part < NumPackets(m) && Offset(part) <= |m.data|
    ensures Fragments(m, part + 1) == Fragments(m, part) + [FragmentAt(m, part)]
  {
    hide FragmentAt, NumPackets, Offset;
  }

  lemma NoFragments(m: Message)
    ensures Fragments(m, 0) == []
  {
  }

  lemma WireNext(ms: seq<Message>, index: nat, part: nat, sent: seq<Packet>, psn: nat, p: Packet)
    requires WireOk(ms, index, part, sent, psn) && index < |ms| && part < NumPackets(ms[index])
    requires Offset(part) <= |ms[index].data|
    requires FragmentOf(p) == FragmentAt(ms[index], part) && p.psn == psn
    ensures WireOk(ms, index, part + 1, sent + [p], Wrap(psn + 1))
    ensures part + 1 == NumPackets(ms[index]) ==> WireOk(ms, index + 1, 0, sent + [p], Wrap(psn + 1))
  {
    hide Wrap, Start, NumPackets, Expected, FragmentAt, Offset;
    ExpectedNext(ms, index, part);
    WrapNext(|sent|);
    StartNext(ms, index);
    assert FragmentsOf(sent + [p]) == FragmentsOf(sent) + [FragmentOf(p)];
  }

  lemma AsksOftenNext(r: Requester)
    requires AckBitsOk(r.noAckPkts, r.sent) && AsksOften(r.sent)
    requires r.index < |r.queue| && r.queue[r.index].offset <= |r.queue[r.index].msg.data|
    ensures AckBitsOk(EmitPacket(r).noAckPkts, EmitPacket(r).sent) && AsksOften(EmitPacket(r).sent)
  {
    hide Wrap, NextOpcode;
    var r' := EmitPacket(r);
    var n := |r.sent|;
    forall i: nat | i + 65 <= n + 1 ensures AsksWithin(r'.sent, i) {
      if i + 65 <= n {
        assert AsksWithin(r.sent, i);
        var k :| i <= k < i + 65 && r.sent[k].ackReq;
        assert r'.sent[k].ackReq;
      } else if r'.sent[n].ackReq {
        assert i <= n < i + 65;
      } else {
        var k := n - r.noAckPkts - 1;
        assert r'.sent[k].ackReq && i <= k < i + 65;
      }
    }
  }

  lemma WindowIsOpen(compPsn: nat, acked: nat, emitted: nat, psn: nat)
    requires WindowOk(compPsn, acked, emitted) && psn == Wrap(emitted)
    ensures PsnCompare(psn, compPsn + 128) > 0 <==> emitted == acked + 129
  {
    WrapAdd(acked, 128);
    CompareIsExact(psn, compPsn + 128, emitted, acked + 128);
  }

  lemma EmitCore(r: Requester)
    requires CoreInv(r) && r.index < |r.queue| && !WindowClosed(r)
    ensures CoreInv(EmitPacket(r))
    ensures MessagesOf(EmitPacket(r).queue) == MessagesOf(r.queue)
    ensures EmitPacket(r).acked == r.acked && EmitPacket(r).tail == r.tail && r.sent <= EmitPacket(r).sent
  {
    hide EmitPacket, WindowClosed, QueueOk, WireOk, WindowOk, OpcodeOk, AckBitsOk, AsksOften, CanEmit;
    hide Wrap, Start, CompletionsOf, PsnCompare, SentWhole, SentInPart, OpcodeAt, FragmentAt, NumPackets, Offset,
         PartSent;
    EmitReady(r);
    var w, r', ms := r.queue[r.index], EmitPacket(r), MessagesOf(r.queue);
    EmittedRequest(r);
    EmittedFragment(r);
    EmitQueueOk(r);
    WireNext(ms, r.index, w.pktNum, r.sent, r.psn, r'.sent[|r.sent|]);
    AsksOftenNext(r);
  }

  /** Emitting a packet inside the window keeps the invariant. */
  lemma EmitInv(r: Requester)
    requires Inv(r) && r.index < |r.queue| && !WindowClosed(r)
    ensures Inv(EmitPacket(r))
    ensures MessagesOf(EmitPacket(r).queue) == MessagesOf(r.queue)
    ensures EmitPacket(r).acked == r.acked && r.sent <= EmitPacket(r).sent
  {
    EmitCore(r);
    hide EmitPacket, WindowClosed, CoreInv, TailExact, MessagesOf;
  }

  /** The premises of the emission lemmas, from the invariant. */
  lemma EmitReady(r: Requester)
    requires CoreInv(r) && r.index < |r.queue| && !WindowClosed(r)
    ensures CanEmit(r) && r.psn == Wrap(Start(MessagesOf(r.queue), r.index) + r.queue[r.index].pktNum)
    ensures r.psn == Wrap(r.psn)
    ensures PartSent(r.queue, r.index) == r.queue[r.index].pktNum < NumPackets(r.queue[r.index].msg)
    ensures Offset(r.queue[r.index].pktNum) == r.queue[r.index].offset < |r.queue[r.index].msg.data|
    ensures WindowOk(r.compPsn, r.acked, |r.sent| + 1)
  {
    hide AckBitsOk, AsksOften, CompletionsOf, Expected, Numbered, AllSendable, SentWhole, OpcodeOk, Wrap, Start,
         TailExact, FragmentsOf, MessagesOf, PsnCompare, Offset, NumPackets;
    WindowIsOpen(r.compPsn, r.acked, |r.sent|, r.psn);
    WrapTwice(|r.sent|);
  }

  lemma SendStepCore(r: Requester)
    requires CoreInv(r) && r.index < |r.queue|
    ensures r.queue[r.index].offset < |r.queue[r.index].msg.data|
    ensures CoreInv(SendStep(r).0)
    ensures MessagesOf(SendStep(r).0.queue) == MessagesOf(r.queue)
    ensures SendStep(r).0.acked == r.acked && SendStep(r).0.tail == r.tail && r.sent <= SendStep(r).0.sent
  {
    hide EmitPacket, WindowClosed, WireOk, OpcodeOk, AckBitsOk, AsksOften, WindowOk, Wrap, Start, CompletionsOf,
         PsnCompare;
    if !WindowClosed(r) {
      EmitCore(r);
    }
  }

  lemma SendStepInv(r: Requester)
    requires Inv(r) && r.index < |r.queue|
    ensures r.queue[r.index].offset < |r.queue[r.index].msg.data|
    ensures Inv(SendStep(r).0)
    ensures MessagesOf(SendStep(r).0.queue) == MessagesOf(r.queue)
    ensures SendStep(r).0.acked == r.acked && r.sent <= SendStep(r).0.sent
  {
    SendStepCore(r);
    hide SendStep, CoreInv, TailExact, MessagesOf;
  }
}
