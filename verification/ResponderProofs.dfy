/** What every step of the receiving side keeps, relative to the messages that are being sent. */
module ResponderProofs {
  import opened Options
  import opened Messages
  import opened Psn
  import opened Scatter
  import opened Requester
  import opened RequesterProofs
  import opened Responder

  // ----- What the receiver should produce -----

  function NumSends(ms: seq<Message>): nat
    decreases |ms|
  {
    if ms == [] then 0 else NumSends(ms[..|ms| - 1]) + if ms[|ms| - 1].op == Send then 1 else 0
  }

  /** One completion for each SEND, with its length, on the next receive request. */
  function RecvCompletionsOf(ms: seq<Message>): seq<RecvCqe>
    decreases |ms|
  {
    if ms == [] then []
    else
      var rest, m := ms[..|ms| - 1], ms[|ms| - 1];
      RecvCompletionsOf(rest) + if m.op == Send then [RecvCqe(|m.data|, NumSends(rest))] else []
  }

  /** The bytes written for the first n bytes of m: over the buffers of receive request number
      `request` for a SEND, from the remote address on for a write. */
  function MessageEffect(m: Message, posted: seq<RecvWqe>, request: nat, n: nat): seq<(nat, Byte)>
    requires n <= |m.data|
  {
    if m.op == RdmaWrite then Spread(m.remoteAddr, m.data[..n])
    else if request < |posted| then Placed(posted[request], 0, m.data[..n])
    else []
  }

  function EffectsOf(ms: seq<Message>, posted: seq<RecvWqe>): seq<(nat, Byte)>
    decreases |ms|
  {
    if ms == [] then []
    else
      var rest, m := ms[..|ms| - 1], ms[|ms| - 1];
      EffectsOf(rest, posted) + MessageEffect(m, posted, NumSends(rest), |m.data|)
  }

  // ----- The invariant -----

  /** done messages have been received whole, and part packets of the next. */
  predicate Progress(ms: seq<Message>, done: nat, part: nat) {
    && AllSendable(ms)
    && done <= |ms|
    && (if done < |ms| then part < NumPackets(ms[done]) else part == 0)
  }

  predicate PsnOk(s: Responder, ms: seq<Message>, done: nat, part: nat) {
    && done <= |ms|
    && |s.accepted| == Start(ms, done) + part
    && s.psn == s.ackPsn == Wrap(|s.accepted|)
  }

  /** An acknowledgement names the last packet accepted when it was sent, a NAK the next. */
  predicate AckOk(a: Ack, accepted: nat) {
    && a.covers <= accepted
    && (if a.syndrome == AckUnlimited then a.covers > 0 && a.psn == Wrap(a.covers - 1) else a.psn == Wrap(a.covers))
  }

  predicate AcksOk(acks: seq<Ack>, accepted: nat) {
    forall i | 0 <= i < |acks| :: AckOk(acks[i], accepted)
  }

  /** The registers of the message being received. */
  predicate RegistersOk(s: Responder, ms: seq<Message>, done: nat, part: nat)
    requires Progress(ms, done, part)
  {
    var sending := part > 0 && ms[done].op == Send;
    var writing := part > 0 && ms[done].op == RdmaWrite;
    && s.head == NumSends(ms[..done]) <= |s.posted|
    && (if sending then
          && s.head < |s.posted| && CursorOk(s.posted[s.head], s.cursor)
          && s.cursor.total == PrefixEnd(ms[done], part)
        else s.cursor == START)
    && (if writing then
          && s.hostVa == ms[done].remoteAddr && s.offset == PrefixEnd(ms[done], part)
          && s.byteCount == |ms[done].data| && s.resid == s.byteCount - s.offset
        else s.resid == 0)
  }

  /** What has been passed on is what the messages call for. */
  predicate OutputOk(s: Responder, ms: seq<Message>, done: nat, part: nat)
    requires Progress(ms, done, part)
  {
    && s.cqes == RecvCompletionsOf(ms[..done])
    && s.msn == NumSends(ms[..done])
    && (part > 0 ==> PrefixEnd(ms[done], part) <= |ms[done].data|)
    && Flat(s.dmas) == EffectsOf(ms[..done], s.posted)
                       + if part > 0 then MessageEffect(ms[done], s.posted, s.head, PrefixEnd(ms[done], part)) else []
  }

  predicate RecvInv(s: Responder, ms: seq<Message>, done: nat, part: nat) {
    && Progress(ms, done, part)
    && PsnOk(s, ms, done, part)
    && RegistersOk(s, ms, done, part)
    && OutputOk(s, ms, done, part)
    && AcksOk(s.acks, |s.accepted|)
  }

  // ----- Posting and queueing -----

  lemma {:induction false} EffectsPrefix(ms: seq<Message>, posted: seq<RecvWqe>, w: RecvWqe)
    requires NumSends(ms) <= |posted|
    ensures EffectsOf(ms, posted + [w]) == EffectsOf(ms, posted)
    decreases |ms|
  {
    if ms != [] {
      EffectsPrefix(ms[..|ms| - 1], posted, w);
    }
  }

  lemma PostRecvInv(s: Responder, w: RecvWqe, ms: seq<Message>, done: nat, part: nat)
    requires RecvInv(s, ms, done, part)
    ensures RecvInv(PostRecv(s, w), ms, done, part)
  {
    hide Wrap, Start, NumPackets, PrefixEnd, RecvCompletionsOf, AcksOk, CursorOk, Flat;
    EffectsPrefix(ms[..done], s.posted, w);
  }

  lemma EnqueueRecvInv(s: Responder, ms: seq<Message>, done: nat, part: nat, m: Message)
    requires RecvInv(s, ms, done, part) && Sendable(m)
    ensures RecvInv(s, ms + [m], done, part)
  {
    hide Wrap, Start, NumPackets, PrefixEnd, RecvCompletionsOf, AcksOk, CursorOk, Flat, NumSends, EffectsOf;
    assert (ms + [m])[..done] == ms[..done];
    StartPrefix(ms, m, done);
    PacketsBound(m);
  }

  // ----- Taking a packet -----

  lemma SendAckInv(s: Responder, syndrome: Syndrome, psn: nat, ms: seq<Message>, done: nat, part: nat)
    requires RecvInv(s, ms, done, part) && AckOk(Ack(syndrome, psn, 0, |s.accepted|), |s.accepted|)
    ensures RecvInv(SendAck(s, syndrome, psn), ms, done, part)
  {
    hide Wrap, Start, NumPackets, PrefixEnd, RecvCompletionsOf, CursorOk, Flat, NumSends, EffectsOf;
  }

  /** p is packet `part` of message `done`. */
  predicate Incoming(p: Packet, ms: seq<Message>, done: nat, part: nat) {
    && done < |ms| && part < NumPackets(ms[done]) && Offset(part) <= |ms[done].data|
    && FragmentOf(p) == FragmentAt(ms[done], part)
    && p.psn == Wrap(Start(ms, done) + part)
  }

  lemma IncomingFacts(p: Packet, ms: seq<Message>, done: nat, part: nat)
    requires Incoming(p, ms, done, part) && Sendable(ms[done])
    ensures var m := ms[done];
      && PrefixEnd(m, part) < PrefixEnd(m, part + 1) <= |m.data|
      && p.payload == m.data[PrefixEnd(m, part)..PrefixEnd(m, part + 1)] && p.payload != []
      && (p.opcode.IsEnd() <==> part + 1 == NumPackets(m))
      && (p.opcode.IsEnd() ==> PrefixEnd(m, part + 1) == |m.data|)
      && (p.opcode.IsSend() <==> m.op == Send) && (p.opcode.IsWrite() <==> m.op == RdmaWrite)
      && (p.opcode.IsComp() <==> m.op == Send && p.opcode.IsEnd())
      && (p.opcode.HasReth() <==> part == 0 && m.op == RdmaWrite)
      && (if p.opcode.HasReth() then p.reth == Some(Reth(m.remoteAddr, m.rkey, |m.data|)) else p.reth == None)
      && PrefixEnd(m, 0) == 0
  {
    SliceEndIsPrefixEnd(ms[done], part);
  }

  lemma SpreadGrows(dest: nat, data: seq<Byte>, n: nat, k: nat)
    requires n <= k <= |data|
    ensures Spread(dest, data[..k]) == Spread(dest, data[..n]) + Spread(dest + n, data[n..k])
  {
  }

  lemma PlacedGrows(w: RecvWqe, data: seq<Byte>, n: nat, k: nat)
    requires n <= k <= |data|
    ensures Placed(w, 0, data[..k]) == Placed(w, 0, data[..n]) + Placed(w, n, data[n..k])
  {
    PlacedSplits(w, 0, data[..k], n);
    assert data[..k][..n] == data[..n] && data[..k][n..] == data[n..k];
  }

  /** The bytes written for m.data[n..k]. */
  function Gain(m: Message, posted: seq<RecvWqe>, request: nat, n: nat, k: nat): seq<(nat, Byte)>
    requires n <= k <= |m.data|
  {
    if m.op == RdmaWrite then Spread(m.remoteAddr + n, m.data[n..k])
    else if request < |posted| then Placed(posted[request], n, m.data[n..k])
    else []
  }

  lemma EffectSplits(m: Message, posted: seq<RecvWqe>, request: nat, n: nat, k: nat)
    requires n <= k <= |m.data|
    ensures MessageEffect(m, posted, request, k) == MessageEffect(m, posted, request, n)
        + Gain(m, posted, request, n, k)
    ensures MessageEffect(m, posted, request, 0) == []
  {
    hide Spread, Placed;
    EmptyEffects(m.remoteAddr);
    if m.op == RdmaWrite {
      SpreadGrows(m.remoteAddr, m.data, n, k);
    } else if request < |posted| {
      PlacedGrows(posted[request], m.data, n, k);
      PlacedNothing(posted[request]);
    }
    assert m.data[..0] == [];
  }

  lemma EmptyEffects(dest: nat)
    ensures Spread(dest, []) == []
  {
  }

  /** s2 is s after the payload of packet `part` of m has been passed to the DMA engine. */
  predicate Executed(s: Responder, s2: Responder, m: Message, part: nat) {
    && s2 == s.(sentNak := false, hostVa := s2.hostVa, offset := s2.offset, byteCount := s2.byteCount,
                resid := s2.resid, cursor := s2.cursor, dmas := s2.dmas)
    && PrefixEnd(m, part) <= PrefixEnd(m, part + 1) <= |m.data|
    && (if m.op == Send then
          && s.head < |s.posted| && CursorOk(s.posted[s.head], s2.cursor)
          && s2.cursor.total == PrefixEnd(m, part + 1)
          && s2.hostVa == s.hostVa && s2.offset == s.offset && s2.byteCount == s.byteCount && s2.resid == s.resid
        else
          && s2.cursor == s.cursor && s2.hostVa == m.remoteAddr
          && s2.byteCount == |m.data| && s2.offset == PrefixEnd(m, part + 1) && s2.resid == s2.byteCount - s2.offset)
    && Flat(s2.dmas) == Flat(s.dmas) + Gain(m, s.posted, s.head, PrefixEnd(m, part), PrefixEnd(m, part + 1))
  }

  /** The receiver stops on the expected packet only for want of a receive request, of room in its
      buffers, or of the memory region a write names. */
  predicate CanTake(s: Responder, m: Message, part: nat) {
    if m.op == RdmaWrite then part > 0 || m.rkey in s.mrs
    else s.head < |s.posted| && PrefixEnd(m, part + 1) <= Capacity(s.posted[s.head])
  }

  lemma SingleFlat(dest: nat, bytes: seq<Byte>)
    ensures Flat([Dma(dest, bytes)]) == Spread(dest, bytes)
  {
    assert Flat([Dma(dest, bytes)]) == Spread(dest, bytes) + Flat([Dma(dest, bytes)][1..]);
  }

  lemma StartCursor(w: RecvWqe)
    ensures CursorOk(w, START)
  {
  }

  lemma ExecuteIsRight(s: Responder, p: Packet, ms: seq<Message>, done: nat, part: nat)
    requires RecvInv(s, ms, done, part) && Incoming(p, ms, done, part)
    ensures match StartWrite(s.(sentNak := false), p)
      case Stopped => !CanTake(s, ms[done], part)
      case Took(s1) =>
        match Execute(s1, p)
        case Stopped => !CanTake(s, ms[done], part)
        case Took(s2) => CanTake(s, ms[done], part) && Executed(s, s2, ms[done], part)
  {
    hide Wrap, Start, NumPackets, PrefixEnd, RecvCompletionsOf, EffectsOf, AcksOk, NumSends, FragmentAt, Flat,
         Capacity, CursorOk, ScatterPayload, Placed, Spread;
    IncomingFacts(p, ms, done, part);
    var m := ms[done];
    if m.op == Send {
      if s.head < |s.posted| {
        var w := s.posted[s.head];
        StartCursor(w);
        ScatterTiles(w, s.cursor, p.payload);
        if ScatterPayload(w, s.cursor, p.payload).Some? {
          FlatConcat(s.dmas, ScatterPayload(w, s.cursor, p.payload).value.1);
        }
      }
    } else {
      SingleFlat(m.remoteAddr + PrefixEnd(m, part), p.payload);
      FlatConcat(s.dmas, [Dma(m.remoteAddr + PrefixEnd(m, part), p.payload)]);
    }
  }

  /** The effects of the message so far, with those of one more packet. */
  lemma EffectGrows(s: Responder, s2: Responder, ms: seq<Message>, done: nat, part: nat)
    requires Progress(ms, done, part) && OutputOk(s, ms, done, part) && done < |ms|
    requires Executed(s, s2, ms[done], part) && PrefixEnd(ms[done], 0) == 0
    ensures Flat(s2.dmas) == EffectsOf(ms[..done], s.posted)
        + MessageEffect(ms[done], s.posted, s.head, PrefixEnd(ms[done], part + 1))
  {
    hide NumPackets, PrefixEnd, RecvCompletionsOf, EffectsOf, NumSends, Flat, CursorOk, MessageEffect, Gain;
    EffectSplits(ms[done], s.posted, s.head, PrefixEnd(ms[done], part), PrefixEnd(ms[done], part + 1));
  }

  lemma PlacedNothing(w: RecvWqe)
    ensures Placed(w, 0, []) == []
  {
  }

  lemma NextMessage(ms: seq<Message>, done: nat, posted: seq<RecvWqe>)
    requires done < |ms|
    ensures var rest, m := ms[..done], ms[done];
      && NumSends(ms[..done + 1]) == NumSends(rest) + (if m.op == Send then 1 else 0)
      && RecvCompletionsOf(ms[..done + 1]) == RecvCompletionsOf(rest)
          + (if m.op == Send then [RecvCqe(|m.data|, NumSends(rest))] else [])
      && EffectsOf(ms[..done + 1], posted) == EffectsOf(rest, posted)
          + MessageEffect(m, posted, NumSends(rest), |m.data|)
  {
    assert ms[..done + 1][..done] == ms[..done];
  }

  /** The registers and outputs after the packet, before any acknowledgement. */
  lemma AfterPacket(s: Responder, s2: Responder, p: Packet, ms: seq<Message>, done: nat, part: nat)
    requires RecvInv(s, ms, done, part) && Incoming(p, ms, done, part) && Executed(s, s2, ms[done], part)
    ensures var s3 := s2.(psn := Wrap(p.psn + 1), ackPsn := Wrap(p.psn + 1), opcode := p.opcode,
                          accepted := s2.accepted + [p]);
      var s4 := if p.opcode.IsComp() then CompleteRecv(s3) else s3;
      if p.opcode.IsEnd() then RecvInv(s4, ms, done + 1, 0) else RecvInv(s4, ms, done, part + 1)
  {
    hide Wrap, Start, NumPackets, PrefixEnd, RecvCompletionsOf, EffectsOf, NumSends, Flat, CursorOk,
         MessageEffect, FragmentAt, AcksOk, Gain;
    IncomingFacts(p, ms, done, part);
    IncomingNumber(p, ms, done, part);
    EffectGrows(s, s2, ms, done, part);
    AcksOkGrows(s.acks, |s.accepted|);
    StartNext(ms, done);
    NextMessage(ms, done, s.posted);
    if done + 1 < |ms| {
      PacketsBound(ms[done + 1]);
    }
  }

  lemma IncomingNumber(p: Packet, ms: seq<Message>, done: nat, part: nat)
    requires Incoming(p, ms, done, part)
    ensures Wrap(p.psn + 1) == Wrap(Start(ms, done) + part + 1) && part < NumPackets(ms[done])
  {
    WrapNext(Start(ms, done) + part);
  }

  lemma AcksOkGrows(acks: seq<Ack>, accepted: nat)
    requires AcksOk(acks, accepted)
    ensures AcksOk(acks, accepted + 1)
  {
  }

  /** Taking the next packet of the messages keeps the invariant; the receiver stops on it exactly
      when it cannot be taken. */
  lemma AcceptKeeps(s: Responder, p: Packet, ms: seq<Message>, done: nat, part: nat)
    requires RecvInv(s, ms, done, part) && Incoming(p, ms, done, part)
    ensures match Accept(s, p)
      case Stopped => !CanTake(s, ms[done], part)
      case Took(s') =>
        && CanTake(s, ms[done], part)
        && s'.accepted == s.accepted + [p]
        && (if p.opcode.IsEnd() then RecvInv(s', ms, done + 1, 0) else RecvInv(s', ms, done, part + 1))
  {
    hide RegistersOk, OutputOk, StartWrite, Execute, Wrap, Start, NumPackets, CanTake, RecvInv, FragmentAt, AckOk;
    ExecuteIsRight(s, p, ms, done, part);
    match StartWrite(s.(sentNak := false), p) {
      case Stopped =>
      case Took(s1) =>
        match Execute(s1, p) {
          case Stopped =>
          case Took(s2) =>
            AfterPacket(s, s2, p, ms, done, part);
            var s3 := s2.(psn := Wrap(p.psn + 1), ackPsn := Wrap(p.psn + 1), opcode := p.opcode,
                          accepted := s2.accepted + [p]);
            var s4 := if p.opcode.IsComp() then CompleteRecv(s3) else s3;
            LastNamed(s, p, ms, done, part);
            assert s4.accepted == s.accepted + [p];
            if p.opcode.IsEnd() {
              SendAckInv(s4, AckUnlimited, p.psn, ms, done + 1, 0);
            } else {
              SendAckInv(s4, AckUnlimited, p.psn, ms, done, part + 1);
            }
        }
    }
  }

  lemma LastNamed(s: Responder, p: Packet, ms: seq<Message>, done: nat, part: nat)
    requires RecvInv(s, ms, done, part) && Incoming(p, ms, done, part)
    ensures AckOk(Ack(AckUnlimited, p.psn, 0, |s.accepted| + 1), |s.accepted| + 1)
  {
  }

  /** The answer to a packet other than the next one: a NAK of the next one unless that is out already, or
      the last acknowledgement again. */
  function Answers(s: Responder, p: Packet): seq<Ack> {
    var n, msn := |s.accepted|, s.msn % 0x100_0000;
    if PsnCompare(p.psn, s.psn) < 0 then [Ack(AckUnlimited, Wrap(n - 1), msn, n)]
    else if s.sentNak then [] else [Ack(NakPsnSeqError, Wrap(n), msn, n)]
  }

  /** Every other packet leaves the messages where they are: it is answered, and nothing else changes. */
  lemma NotNextKeeps(s: Responder, p: Packet, ms: seq<Message>, done: nat, part: nat)
    requires RecvInv(s, ms, done, part) && PsnCompare(p.psn, s.psn) != 0
    requires PsnCompare(p.psn, s.psn) < 0 ==> s.accepted != []
    ensures match HandleRequest(s, p)
      case Stopped => p.opcode.NoOpcode?
      case Took(s') =>
        && RecvInv(s', ms, done, part)
        && s' == s.(acks := s.acks + Answers(s, p), sentNak := s.sentNak || PsnCompare(p.psn, s.psn) > 0)
  {
    hide RegistersOk, OutputOk, Wrap, Start, NumPackets, PsnCompare, Accept;
    var n := |s.accepted|;
    NakNames(s, ms, done, part);
    if PsnCompare(p.psn, s.psn) > 0 {
      if !s.sentNak {
        var s1 := s.(sentNak := true);
        FlagKeeps(s, ms, done, part);
        SendAckInv(s1, NakPsnSeqError, s.psn, ms, done, part);
      }
    } else {
      SendAckInv(s, AckUnlimited, Wrap(s.ackPsn - 1), ms, done, part);
    }
  }

  lemma NakNames(s: Responder, ms: seq<Message>, done: nat, part: nat)
    requires RecvInv(s, ms, done, part)
    ensures AckOk(Ack(NakPsnSeqError, s.psn, 0, |s.accepted|), |s.accepted|)
    ensures s.accepted != [] ==> AckOk(Ack(AckUnlimited, Wrap(s.ackPsn - 1), 0, |s.accepted|), |s.accepted|)
    ensures s.psn == Wrap(|s.accepted|) && Wrap(s.ackPsn - 1) == Wrap(|s.accepted| - 1)
  {
    WrapNext(|s.accepted|);
  }

  lemma FlagKeeps(s: Responder, ms: seq<Message>, done: nat, part: nat)
    requires RecvInv(s, ms, done, part)
    ensures RecvInv(s.(sentNak := true), ms, done, part)
  {
    hide Flat, EffectsOf, RecvCompletionsOf, NumSends, PrefixEnd, CursorOk, MessageEffect;
  }

  /** Taking a packet acknowledges it exactly when it asks for that, with the number of SENDs received, and
      allows a NAK again. */
  lemma AcceptAcknowledges(s: Responder, p: Packet)
    ensures match Accept(s, p)
      case Stopped => true
      case Took(s') =>
        && s'.accepted == s.accepted + [p] && s'.opcode == p.opcode && !s'.sentNak
        && s'.msn == (if p.opcode.IsComp() then s.msn + 1 else s.msn)
        && s'.acks == (if p.ackReq then s.acks + [Ack(AckUnlimited, p.psn, s'.msn % 0x100_0000, |s.accepted| + 1)]
                       else s.acks)
  {
    hide Wrap, ScatterPayload;
  }

  /** An acknowledgement of exactly the first n packets has been sent. */
  ghost predicate AckSent(acks: seq<Ack>, n: nat) {
    exists j :: 0 <= j < |acks| && acks[j].syndrome == AckUnlimited && acks[j].covers == n
  }

  /** Every accepted packet that asks for an acknowledgement has had one. */
  ghost predicate AcksSent(accepted: seq<Packet>, acks: seq<Ack>) {
    forall i | 0 <= i < |accepted| && accepted[i].ackReq :: AckSent(acks, i + 1)
  }

  lemma AcksSentGrows(s: Responder, p: Packet)
    requires AcksSent(s.accepted, s.acks)
    ensures match HandleRequest(s, p)
      case Stopped => true
      case Took(s') => AcksSent(s'.accepted, s'.acks)
  {
    hide Accept, PsnCompare, Wrap, AcksSent;
    match HandleRequest(s, p) {
      case Stopped =>
      case Took(s') =>
        if PsnCompare(p.psn, s.psn) == 0 {
          AcceptAcknowledges(s, p);
          if p.ackReq {
            var j := |s.acks|;
            assert s'.acks[j].syndrome == AckUnlimited && s'.acks[j].covers == |s.accepted| + 1;
          }
        }
        AcksSentPrefix(s.accepted, s'.accepted, s.acks, s'.acks);
    }
  }

  lemma AcksSentPrefix(accepted: seq<Packet>, accepted': seq<Packet>, acks: seq<Ack>, acks': seq<Ack>)
    requires AcksSent(accepted, acks) && acks <= acks' && accepted <= accepted' && |accepted'| <= |accepted| + 1
    requires |accepted'| > |accepted| && accepted'[|accepted|].ackReq ==> AckSent(acks', |accepted'|)
    ensures AcksSent(accepted', acks')
  {
    forall i | 0 <= i < |accepted'| && accepted'[i].ackReq ensures AckSent(acks', i + 1) {
      if i < |accepted| {
        assert accepted[i].ackReq;
        var j :| 0 <= j < |acks| && acks[j].syndrome == AckUnlimited && acks[j].covers == i + 1;
        assert acks'[j] == acks[j];
      }
    }
  }

  /** A packet adds at most one acknowledgement, a NAK only if it is beyond the expected one. */
  lemma AcksGrow(s: Responder, p: Packet)
    ensures match HandleRequest(s, p)
      case Stopped => true
      case Took(s') =>
        && s.acks <= s'.acks
        && (forall k | |s.acks| <= k < |s'.acks| && s'.acks[k].syndrome == NakPsnSeqError ::
              PsnCompare(p.psn, s.psn) > 0 && s'.acks[k].covers == |s.accepted|)
  {
    hide Wrap, PsnCompare, ScatterPayload;
  }
}
