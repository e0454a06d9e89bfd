/** The two ends of a connection as the objects that src/rxe updates in place, proved to follow the
    value-level steps. */
module Qp {
  import opened Options
  import opened Messages
  import opened Psn
  import opened RingIndex
  import opened DpuRings
  import Rings
  import Requester
  import RP = RequesterProofs

  // ----- The loop of rxe_handle_req as a function -----

  /** Every request still to be sent has room for its next packet. */
  predicate OffsetsOk(r: Requester.Requester) {
    forall k | r.index <= k < |r.queue| :: r.queue[k].offset <= |r.queue[k].msg.data|
  }

  function Left(r: Requester.Requester): nat {
    if r.index < |r.queue| && r.queue[r.index].offset <= |r.queue[r.index].msg.data|
    then |r.queue[r.index].msg.data| - r.queue[r.index].offset else 0
  }

  lemma SendStepProgress(r: Requester.Requester)
    requires OffsetsOk(r) && r.index < |r.queue|
    ensures var (r', more) := Requester.SendStep(r);
      && OffsetsOk(r') && |r'.queue| == |r.queue| && r'.tail == r.tail && r.index <= r'.index <= |r.queue|
      && (more ==> r'.index > r.index || (r'.index == r.index && Left(r') < Left(r)))
  {
    hide Wrap, PsnCompare, Requester.NextOpcode, Requester.MakePacket;
  }

  /** Sends until every request is cut up or the window closes; also counts the packets. */
  function SendLoop(r: Requester.Requester): (Requester.Requester, nat)
    requires OffsetsOk(r)
    decreases |r.queue| - r.index, Left(r)
  {
    if r.index >= |r.queue| then (r, 0)
    else
      SendStepProgress(r);
      var (r', more) := Requester.SendStep(r);
      if !more then (r, 0)
      else
        var (last, n) := SendLoop(r');
        (last, n + |r'.sent| - |r.sent|)
  }

  /** The loop keeps the invariant and stops only when nothing is left to send or the window is
      closed, so it never leaves work that it could do. */
  lemma {:induction false} SendLoopInv(r: Requester.Requester)
    requires RP.Inv(r) && OffsetsOk(r)
    ensures var (r', n) := SendLoop(r);
      RP.Inv(r') && (r'.index == |r'.queue| || Requester.WindowClosed(r')) && n == |r'.sent| - |r.sent|
    decreases |r.queue| - r.index, Left(r)
  {
    hide RP.CoreInv, RP.TailExact, Requester.EmitPacket, Requester.WindowClosed;
    IndexInQueue(r);
    if r.index < |r.queue| {
      SendStepProgress(r);
      RP.SendStepInv(r);
      var (r', more) := Requester.SendStep(r);
      if more {
        SendLoopInv(r');
      } else {
        Unblocked(r);
      }
    }
  }

  lemma IndexInQueue(r: Requester.Requester)
    requires RP.Inv(r)
    ensures r.index <= |r.queue|
  {
  }

  lemma Unblocked(r: Requester.Requester)
    requires r.index < |r.queue| && r.queue[r.index].offset <= |r.queue[r.index].msg.data|
    requires !Requester.SendStep(r).1
    ensures Requester.WindowClosed(r)
  {
  }

  lemma SendLoopStep(r: Requester.Requester)
    requires OffsetsOk(r) && r.index < |r.queue|
    ensures var (r', more) := Requester.SendStep(r);
      if more then OffsetsOk(r') && SendLoop(r) == (SendLoop(r').0, SendLoop(r').1 + |r'.sent| - |r.sent|)
      else SendLoop(r) == (r, 0)
  {
    hide Requester.SendStep;
    SendStepProgress(r);
  }

  lemma SendLoopEnd(r: Requester.Requester)
    requires OffsetsOk(r) && r.index == |r.queue|
    ensures SendLoop(r) == (r, 0)
  {
  }

  /** What the requests taken from the host ring add to the queue. */
  function EnqueueAll(r: Requester.Requester, ms: seq<Message>): (r': Requester.Requester)
    ensures |r'.queue| == |r.queue| + |ms| && r'.tail == r.tail && r'.index == r.index
    decreases |ms|
  {
    if ms == [] then r else EnqueueAll(Requester.Enqueue(r, ms[0]), ms[1..])
  }

  /** Queueing requests keeps the invariant, and they stand behind the earlier ones in order. */
  lemma {:induction false} EnqueueAllInv(r: Requester.Requester, ms: seq<Message>)
    requires RP.Inv(r) && RP.AllSendable(ms) && (ms != [] ==> RP.Joins(r, ms[0]))
    ensures RP.Inv(EnqueueAll(r, ms))
    ensures Requester.MessagesOf(EnqueueAll(r, ms).queue) == Requester.MessagesOf(r.queue) + ms
    decreases |ms|
  {
    hide RP.Inv, Sendable, Requester.Enqueue;
    if ms != [] {
      assert Sendable(ms[0]);
      RP.EnqueueInv(r, ms[0]);
      EnqueueAllInv(Requester.Enqueue(r, ms[0]), ms[1..]);
      assert ms == [ms[0]] + ms[1..];
    }
  }

  /** Every reachable requester may be given to rxe_handle_req. */
  lemma InvAllowsSending(r: Requester.Requester)
    requires RP.Inv(r)
    ensures r.tail <= r.index && OffsetsOk(r)
  {
    hide RP.WireOk, RP.TailExact, RP.AckBitsOk, RP.AsksOften, RP.WindowOk, RP.OpcodeOk, Wrap, Start,
         RP.CompletionsOf, NumPackets, Offset;
  }

  lemma EmitsOne(r: Requester.Requester)
    requires r.index < |r.queue| && r.queue[r.index].offset <= |r.queue[r.index].msg.data|
    ensures |Requester.EmitPacket(r).sent| == |r.sent| + 1
  {
    hide Requester.NextOpcode, Requester.MakePacket, Wrap;
  }

  /** dpu_send_wq and dpu_comp_info: a ring of requests with three positions in it. */
  class SenderQp {
    const ring: array<Requester.SendWqe>
    var head: nat
    var tail: nat
    var wqeIndex: nat
    var psn: nat
    var opcode: Opcode
    var noAckPkts: nat
    var compPsn: nat
    var recvPsn: nat
    var cqes: seq<Requester.SendCqe>
    var sent: seq<Packet>
    ghost var view: Requester.Requester

    /** The requests from the tail on are in the ring. */
    ghost predicate RingValid()
      reads this, ring
    {
      && ring.Length > 0
      && view.tail <= |view.queue| <= view.tail + ring.Length && view.index <= |view.queue|
      && head == Slot(|view.queue|, ring.Length)
      && tail == Slot(view.tail, ring.Length)
      && wqeIndex == Slot(view.index, ring.Length)
      && Mirrors(ring[..], view.queue, view.tail)
    }

    ghost predicate FieldsValid()
      reads this
    {
      && psn == view.psn && opcode == view.opcode && noAckPkts == view.noAckPkts
      && compPsn == view.compPsn && recvPsn == view.recvPsn && cqes == view.cqes && sent == view.sent
    }

    ghost predicate Valid()
      reads this, ring
    {
      RingValid() && FieldsValid()
    }

    constructor (wqeCnt: nat, opcode: Opcode)
      requires wqeCnt > 0
      ensures Valid() && view == Requester.Create(opcode) && fresh(ring) && ring.Length == wqeCnt
    {
      ring := new Requester.SendWqe[wqeCnt](_ => Requester.Fresh(Message(Send, [], 0, 0, 0, false)));
      head, tail, wqeIndex := 0, 0, 0;
      psn, this.opcode, noAckPkts, compPsn, recvPsn := 0, opcode, 0, 0, 0;
      cqes, sent := [], [];
      view := Requester.Create(opcode);
    }

    /** Every slot holds a request. The source never looks for this, and then takes the ring for empty. */
    ghost predicate Full()
      reads this, ring
    {
      |view.queue| == view.tail + ring.Length
    }

    /** A position is at the head exactly when it is behind the last request, or a whole ring before. */
    lemma AtHead(k: nat)
      requires RingValid() && view.tail <= k <= |view.queue|
      ensures Slot(k, ring.Length) == head <==> k == |view.queue| || k + ring.Length == |view.queue|
    {
      hide Slot, Mirrors;
      if k + ring.Length == |view.queue| {
        NextLap(k, ring.Length);
      } else if k < |view.queue| {
        SlotsApart(k, |view.queue|, ring.Length);
      }
    }

    /** is_empty holds exactly of an empty ring and of a full one. */
    lemma Emptiness()
      requires RingValid()
      ensures head == tail <==> view.tail == |view.queue| || Full()
    {
      hide Slot, Mirrors;
      AtHead(view.tail);
    }

    /** The head is a slot, which is all that queueing needs. */
    ghost predicate Shaped()
      reads this
    {
      head < ring.Length
    }

    /** The body of loop_datapath_send_wq for a request of this queue pair, which makes no test for room:
        into a full ring it writes over the oldest request. */
    method Enqueue(m: Message)
      requires Shaped()
      modifies this`head, this`view, ring
      ensures Shaped() && head == Next(old(head), ring.Length)
      ensures ring[..] == old(ring[..])[old(head) := Requester.Fresh(m)]
      ensures old(Valid() && !Full()) ==> Valid() && view == Requester.Enqueue(old(view), m)
      ensures old(Valid() && Full()) ==> ring[..] == old(ring[..])[old(tail) := Requester.Fresh(m)] && view == old(view)
    {
      hide Slot, Next, Mirrors;
      ghost var slots := ring[..];
      if Valid() {
        SlotNext(|view.queue|, ring.Length);
        AtHead(view.tail);
        if !Full() {
          MirrorsPush(slots, view.queue, view.tail, Requester.Fresh(m));
          view := Requester.Enqueue(view, m);
        }
      }
      ring[head] := Requester.Fresh(m);
      assert ring[..] == slots[head := Requester.Fresh(m)];
      NextWithin(head, ring.Length);
      head := Next(head, ring.Length);
    }

    /** init_req_packet: the packet is passed to the transmit path. */
    method InitReqPacket(wqe: Requester.SendWqe, op: Opcode, payload: nat)
      requires wqe.offset + payload <= |wqe.msg.data|
      modifies this`noAckPkts, this`sent
      ensures var (packet, n) := Requester.MakePacket(old(view), wqe, op, payload);
        old(psn == view.psn && noAckPkts == view.noAckPkts) ==> sent == old(sent) + [packet] && noAckPkts == n
    {
      var ackReq := op.IsEnd();
      if !ackReq {
        noAckPkts := noAckPkts + 1;
        ackReq := noAckPkts > Requester.MAX_PKT_PER_ACK;
      }
      if ackReq {
        noAckPkts := 0;
      }
      var reth := if op.HasReth() then Some(Reth(wqe.msg.remoteAddr, wqe.msg.rkey, |wqe.msg.data|)) else None;
      sent := sent + [Packet(op, Wrap(psn), ackReq, reth, wqe.msg.data[wqe.offset..wqe.offset + payload])];
    }

    /** The bookkeeping of rxe_handle_req in the request. */
    method CutPacket(w: Requester.SendWqe, op: Opcode, payload: nat) returns (wqe: Requester.SendWqe)
      ensures wqe == Requester.CutFrom(w, op, payload, psn)
    {
      hide Wrap;
      wqe := w.(offset := w.offset + payload, pktNum := w.pktNum + 1,
                  state := if op.IsEnd() then Requester.Pending else Requester.Processing);
      var numPkt := (|wqe.msg.data| + 8191) / 8192;
      if numPkt == 0 {
        numPkt := 1;
      }
      if op.IsStart() {
        wqe := wqe.(firstPsn := psn, lastPsn := Wrap(psn + numPkt - 1));
      }
    }

    /** The request under the index is written back. */
    method StoreWqe(wqe: Requester.SendWqe)
      requires RingValid() && view.tail <= view.index < |view.queue|
      modifies ring
      ensures Mirrors(ring[..], view.queue[view.index := wqe], view.tail)
    {
      hide Slot, Mirrors;
      ghost var slots := ring[..];
      ring[wqeIndex] := wqe;
      assert ring[..] == slots[wqeIndex := wqe];
      MirrorsUpdate(slots, view.queue, view.tail, view.index, wqe);
    }

    /** One packet of rxe_handle_req. */
    method EmitPacket()
      requires Valid() && view.tail <= view.index < |view.queue|
      requires view.queue[view.index].offset <= |view.queue[view.index].msg.data|
      modifies this, ring
      ensures Valid() && view == Requester.EmitPacket(old(view))
    {
      hide Wrap, Requester.NextOpcode, Requester.MakePacket, Requester.CutFrom, Slot, Next, Mirrors,
           Requester.EmitPacket;
      RP.EmittedFields(view);
      MirrorsAt(ring[..], view.queue, view.tail, view.index);
      SlotNext(view.index, ring.Length);
      var wqe := ring[wqeIndex];
      var op := Requester.NextOpcode(wqe, opcode);
      var payload := |wqe.msg.data| - wqe.offset;
      if payload >= 8192 {
        payload := 8192;
      }
      InitReqPacket(wqe, op, payload);
      wqe := CutPacket(wqe, op, payload);
      StoreWqe(wqe);
      psn := Wrap(psn + 1);
      opcode := op;
      if op.IsEnd() {
        wqeIndex := Next(wqeIndex, ring.Length);
      }
      view := Requester.EmitPacket(view);
    }

    predicate WindowClosed()
      reads this
    {
      PsnCompare(psn, compPsn + Requester.MAX_UNACKED_PSNS) > 0
    }

    /** rxe_handle_req; -1 takes the queue pair off the active list, as a full ring also does, with all its
        requests unsent or unacknowledged. */
    method HandleReq() returns (totalSend: int)
      requires Valid() && view.tail <= view.index && OffsetsOk(view)
      modifies this, ring
      ensures Valid()
      ensures old(view.tail == |view.queue| || Full()) ==> totalSend == -1 && view == old(view)
      ensures !old(view.tail == |view.queue| || Full()) ==> (view, totalSend) == SendLoop(old(view))
    {
      hide Requester.EmitPacket, Slot, Next, Mirrors, PsnCompare, Requester.Skips, SendLoop;
      Emptiness();
      if head == tail {
        return -1;
      }
      totalSend := 0;
      AtHead(view.index);
      while wqeIndex != head
        invariant Valid() && view.tail == old(view.tail) <= view.index && OffsetsOk(view)
        invariant |view.queue| == old(|view.queue|) < view.tail + ring.Length
        invariant wqeIndex == head <==> view.index == |view.queue|
        invariant totalSend >= 0
        invariant SendLoop(old(view)) == (SendLoop(view).0, SendLoop(view).1 + totalSend)
        decreases |view.queue| - view.index, Left(view)
      {
        SendStepProgress(view);
        SendLoopStep(view);
        EmitsOne(view);
        MirrorsAt(ring[..], view.queue, view.tail, view.index);
        var wqe := ring[wqeIndex];
        if Requester.Skips(wqe) {
          SlotNext(view.index, ring.Length);
          wqeIndex := Next(wqeIndex, ring.Length);
          view := view.(index := view.index + 1);
        } else if WindowClosed() {
          return totalSend;
        } else {
          EmitPacket();
          totalSend := totalSend + 1;
        }
        AtHead(view.index);
      }
      SendLoopEnd(view);
    }

    /** complete_send_wqe */
    method CompleteSendWqe()
      requires Valid() && view.tail < |view.queue|
      modifies this
      ensures Valid() && view == Requester.Complete(old(view))
      ensures view.tail == old(view.tail) + 1 && view.queue == old(view.queue)
    {
      hide Wrap, PsnCompare, Slot, Next, Mirrors;
      MirrorsAt(ring[..], view.queue, view.tail, view.tail);
      MirrorsDrop(ring[..], view.queue, view.tail, view.tail + 1);
      SlotNext(view.tail, ring.Length);
      var wqe := ring[tail];
      if wqe.state == Requester.Pending {
        if PsnCompare(wqe.lastPsn, recvPsn) >= 0 {
          recvPsn := Wrap(wqe.lastPsn + 1);
        }
      }
      if wqe.msg.signaled {
        cqes := cqes + [Requester.SendCqe(|wqe.msg.data|, wqe.msg.op, wqe.msg.curPos)];
      }
      tail := Next(tail, ring.Length);
      view := Requester.Complete(view);
    }

    /** The loop over one acknowledgement, which a full ring ignores; the result is the assertion that fails,
        if one does. */
    method HandleAck(ackPsn: nat, syndrome: Requester.Syndrome) returns (halted: Option<Requester.Cause>)
      requires Valid()
      modifies this
      ensures Valid()
      ensures old(Full()) ==> halted == None && view == old(view)
      ensures !old(Full()) ==>
        Requester.HandleAck(old(view), ackPsn, syndrome)
          == if halted.Some? then Requester.Halted(view, halted.value) else Requester.Running(view)
    {
      hide Wrap, PsnCompare, Requester.Complete, Slot, Next, Mirrors;
      Emptiness();
      while true
        invariant Valid() && (old(Full()) ==> view == old(view)) && (Full() ==> old(Full()))
        invariant Requester.HandleAck(view, ackPsn, syndrome) == Requester.HandleAck(old(view), ackPsn, syndrome)
        decreases |view.queue| - view.tail
      {
        Emptiness();
        var wqe := ring[tail];
        if head == tail || wqe.state == Requester.Posted {
          if head != tail {
            MirrorsAt(ring[..], view.queue, view.tail, view.tail);
          }
          return None;
        }
        MirrorsAt(ring[..], view.queue, view.tail, view.tail);
        var diff := PsnCompare(ackPsn, wqe.lastPsn);
        if diff > 0 {
          if wqe.state == Requester.Pending {
            CompleteSendWqe();
            continue;
          } else {
            return Some(Requester.NotPending);
          }
        }
        diff := PsnCompare(ackPsn, compPsn);
        if diff < 0 {
          if ackPsn == wqe.lastPsn {
            CompleteSendWqe();
          }
          return None;
        }
        if syndrome == Requester.NakPsnSeqError {
          return Some(Requester.NakReceived);
        }
        if wqe.state == Requester.Pending && wqe.lastPsn == ackPsn {
          CompleteSendWqe();
        }
        view := view.(compPsn := Wrap(ackPsn + 1), acked := view.acked + 1 + Wrap(ackPsn - view.compPsn));
        compPsn := Wrap(ackPsn + 1);
        return None;
      }
    }
  }

  /** Everything that has arrived finds a slot. */
  ghost predicate Fits(qp: SenderQp, hostRing: DpuRing<Message>)
    reads qp, hostRing
  {
    |qp.view.queue| + |hostRing.log| - hostRing.taken <= qp.view.tail + qp.ring.Length
  }

  /** The slots after the requests ms have been written from position h on, lap after lap. */
  function Written(slots: seq<Requester.SendWqe>, h: nat, ms: seq<Message>): (r: seq<Requester.SendWqe>)
    requires slots != []
    ensures |r| == |slots|
    decreases |ms|
  {
    if ms == [] then slots
    else Written(slots, h, ms[..|ms| - 1])[Slot(h + |ms| - 1, |slots|) := Requester.Fresh(ms[|ms| - 1])]
  }

  /** Of more requests than slots the last ones survive, and of fewer the rest of the slots. */
  lemma {:induction false} LastWritten(slots: seq<Requester.SendWqe>, h: nat, ms: seq<Message>, k: nat)
    requires slots != [] && k < |ms| + |slots|
    ensures k < |ms| <= k + |slots| ==> Written(slots, h, ms)[Slot(h + k, |slots|)] == Requester.Fresh(ms[k])
    ensures |ms| <= k < |slots| ==> Written(slots, h, ms)[Slot(h + k, |slots|)] == slots[Slot(h + k, |slots|)]
    decreases |ms|
  {
    hide Slot;
    if ms != [] {
      var last := |ms| - 1;
      LastWritten(slots, h, ms[..last], if k < last + |slots| then k else 0);
      if k < last {
        SlotsApartWithin(h + k, h + last, |slots|);
      } else if last < k {
        SlotsApartWithin(h + last, h + k, |slots|);
      }
    }
  }

  lemma SlotsApartWithin(i: nat, k: nat, n: nat)
    requires n > 0 && i < k
    ensures k < i + n ==> Slot(i, n) != Slot(k, n)
  {
    if k < i + n {
      SlotsApart(i, k, n);
    }
  }

  /** The loop of loop_datapath_send_wq over one host ring whose requests are all of this queue pair:
      everything that has arrived is taken, once and in order, and written into the ring in that order, over
      what it holds; if everything fits it is thereby queued. */
  method Drain(hostRing: DpuRing<Message>, qp: SenderQp)
    requires hostRing.Valid() && qp.Shaped()
    modifies hostRing`head, hostRing`ownFlag, hostRing`taken, qp`head, qp`view, qp.ring
    ensures hostRing.Valid() && hostRing.taken == |hostRing.log| && qp.Shaped()
    ensures qp.ring[..] == Written(old(qp.ring[..]), old(qp.head), hostRing.log[old(hostRing.taken)..])
    ensures qp.head == Slot(old(qp.head) + |hostRing.log| - old(hostRing.taken), qp.ring.Length)
    ensures old(qp.Valid() && Fits(qp, hostRing)) ==>
      qp.Valid() && qp.view == EnqueueAll(old(qp.view), hostRing.log[old(hostRing.taken)..])
  {
    hide Rings.Image, Slot, Next, Rings.Flag, Mirrors, EnqueueAll, SenderQp.Valid, Written;
    ghost var h, slots, from := qp.head, qp.ring[..], hostRing.taken;
    SlotOfSlot(h, qp.ring.Length);
    WrittenNext(slots, h, hostRing.log[from..], 0);
    ghost var fits := qp.Valid() && Fits(qp, hostRing);
    var wqe := hostRing.GetNextWqe();
    while wqe.Some?
      invariant hostRing.Valid() && qp.Shaped()
      invariant from <= hostRing.taken <= |hostRing.log| && qp.head == Slot(h + hostRing.taken - from, qp.ring.Length)
      invariant qp.ring[..] == Written(slots, h, hostRing.log[from..][..hostRing.taken - from])
      invariant fits ==> qp.Valid() && Fits(qp, hostRing)
      invariant wqe == if hostRing.taken < |hostRing.log| then Some(hostRing.log[hostRing.taken]) else None
      invariant fits ==>
        EnqueueAll(qp.view, hostRing.log[hostRing.taken..]) == EnqueueAll(old(qp.view),
            hostRing.log[old(hostRing.taken)..])
      decreases |hostRing.log| - hostRing.taken
    {
      ghost var rest := hostRing.log[hostRing.taken..];
      EnqueueAllStep(qp.view, rest);
      assert rest[1..] == hostRing.log[hostRing.taken + 1..];
      WrittenNext(slots, h, hostRing.log[from..], hostRing.taken - from);
      SlotNext(h + hostRing.taken - from, qp.ring.Length);
      hostRing.StepWq();
      qp.Enqueue(wqe.value);
      wqe := hostRing.GetNextWqe();
    }
    EnqueueAllStep(qp.view, hostRing.log[hostRing.taken..]);
    assert hostRing.log[from..][..hostRing.taken - from] == hostRing.log[from..];
  }

  lemma SlotOfSlot(h: nat, n: nat)
    requires h < n
    ensures Slot(h, n) == h
  {
  }

  lemma WrittenNext(slots: seq<Requester.SendWqe>, h: nat, ms: seq<Message>, k: nat)
    requires slots != [] && k <= |ms|
    ensures Written(slots, h, ms[..0]) == slots
    ensures k < |ms| ==>
      Written(slots, h, ms[..k + 1]) == Written(slots, h, ms[..k])[Slot(h + k, |slots|) := Requester.Fresh(ms[k])]
  {
    if k < |ms| {
      assert ms[..k + 1][..k] == ms[..k];
    }
    hide Slot;
  }

  lemma EnqueueAllStep(r: Requester.Requester, ms: seq<Message>)
    ensures EnqueueAll(r, ms) == if ms == [] then r else EnqueueAll(Requester.Enqueue(r, ms[0]), ms[1..])
  {
  }
}
