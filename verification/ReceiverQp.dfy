/** The receiving end of a connection as the object that src/rxe/rxe_recv.cpp and src/dpu/datapath.cpp
    update in place, proved to follow the value-level steps. */
module ReceiverQps {
  import opened Options
  import opened Messages
  import opened Psn
  import opened Scatter
  import opened RingIndex
  import opened Rings
  import opened DpuRings
  import Requester
  import Responder

  /** An acknowledgement as it is sent: without its history. */
  datatype WireAck = WireAck(syndrome: Requester.Syndrome, psn: nat, msn: nat)

  function OnWire(acks: seq<Responder.Ack>): (ws: seq<WireAck>)
    ensures |ws| == |acks|
  {
    seq(|acks|, i requires 0 <= i < |acks| => WireAck(acks[i].syndrome, acks[i].psn, acks[i].msn))
  }

  /** Completions name the slot of their receive request, in a ring of n slots. */
  function WithSlots(cqes: seq<Responder.RecvCqe>, n: nat): (cs: seq<Responder.RecvCqe>)
    requires n > 0
    ensures |cs| == |cqes|
  {
    seq(|cqes|, i requires 0 <= i < |cqes| => Responder.RecvCqe(cqes[i].byteCount, Slot(cqes[i].wqeCounter, n)))
  }

  lemma OnWireNext(acks: seq<Responder.Ack>, a: Responder.Ack)
    ensures OnWire(acks + [a]) == OnWire(acks) + [WireAck(a.syndrome, a.psn, a.msn)]
  {
  }

  lemma WithSlotsNext(cqes: seq<Responder.RecvCqe>, c: Responder.RecvCqe, n: nat)
    requires n > 0
    ensures WithSlots(cqes + [c], n) == WithSlots(cqes, n) + [Responder.RecvCqe(c.byteCount, Slot(c.wqeCounter, n))]
  {
    hide Slot;
  }

  /** dpu_recv_wq; its ring is an object of its own. */
  class ReceiverQp {
    const ring: DpuRing<RecvWqe>
    const mrs: set<nat>
    var psn: nat
    var ackPsn: nat
    var msn: nat
    var opcode: Opcode
    var sentNak: bool
    var nowSgeNum: nat
    var nowSgeOffset: nat
    var nowTotal: nat
    var hostVa: nat
    var offset: nat
    var byteCount: nat
    var resid: nat
    var dmas: seq<Dma>
    var cqes: seq<Responder.RecvCqe>
    var acks: seq<WireAck>
    ghost var view: Responder.Responder

    ghost predicate NumbersMatch()
      reads this
    {
      && psn == view.psn && ackPsn == view.ackPsn && msn == view.msn
      && opcode == view.opcode && sentNak == view.sentNak
    }

    ghost predicate WriteMatches()
      reads this
    {
      && hostVa == view.hostVa && offset == view.offset && byteCount == view.byteCount && resid == view.resid
      && mrs == view.mrs
    }

    ghost predicate CursorMatches()
      reads this
    {
      view.cursor == Cursor(nowSgeNum, nowSgeOffset, nowTotal) && dmas == view.dmas
    }

    ghost predicate RingMatches()
      reads this, ring, ring.mem
    {
      && ring.Valid() && ring.log == view.posted && ring.taken == view.head
      && cqes == WithSlots(view.cqes, ring.mem.Length)
    }

    ghost predicate Valid()
      reads this, ring, ring.mem
    {
      NumbersMatch() && WriteMatches() && CursorMatches() && RingMatches() && acks == OnWire(view.acks)
    }

    constructor (ring: DpuRing<RecvWqe>, mrs: set<nat>)
      requires ring.Valid() && ring.log == []
      ensures Valid() && view == Responder.Create(mrs) && this.ring == ring
    {
      this.ring, this.mrs := ring, mrs;
      psn, ackPsn, msn, opcode, sentNak := 0, 0, 0, SendFirst, false;
      nowSgeNum, nowSgeOffset, nowTotal := 0, 0, 0;
      hostVa, offset, byteCount, resid := 0, 0, 0, 0;
      dmas, cqes, acks := [], [], [];
      view := Responder.Create(mrs);
    }

    /** send_ack */
    method SendAck(syndrome: Requester.Syndrome, ackPsn: nat)
      requires Valid()
      modifies this`acks, this`view
      ensures Valid() && view == Responder.SendAck(old(view), syndrome, ackPsn)
      ensures acks == old(acks) + [WireAck(syndrome, ackPsn, msn % 0x100_0000)]
    {
      OnWireNext(view.acks, Responder.Ack(syndrome, ackPsn, msn % 0x100_0000, |view.accepted|));
      acks := acks + [WireAck(syndrome, ackPsn, msn % 0x100_0000)];
      view := Responder.SendAck(view, syndrome, ackPsn);
    }

    /** A receive request arrives: the DMA engine copies the next cell of the host's ring. */
    method ArriveRecv(slot: nat, cell: Cell<RecvWqe>)
      requires Valid() && |ring.log| < ring.taken + ring.mem.Length
      requires ring.mem.Length > 0 && slot == Slot(|ring.log|, ring.mem.Length)
      requires cell.own == Flag(|ring.log|, ring.mem.Length)
      modifies ring`log, ring.mem, this`view
      ensures Valid() && view == Responder.PostRecv(old(view), cell.value)
      ensures ring.mem[..] == old(ring.mem[..])[slot := cell]
    {
      hide DpuRing.Valid, Slot, Flag, OnWire, WithSlots;
      ring.Arrive(slot, cell);
      view := Responder.PostRecv(view, cell.value);
    }

    /** The loop of dma_send_payload_to_host over the entries of a receive request; false when an
        assertion fails. */
    method ScatterLoop(w: RecvWqe, payload: seq<Byte>) returns (ok: bool)
      requires |w.sges| <= w.maxSge
      requires nowSgeNum < |w.sges| ==> nowSgeOffset <= w.sges[nowSgeNum].len
      modifies this`nowSgeNum, this`nowSgeOffset, this`nowTotal, this`dmas
      ensures ok <==> ScatterPayload(w, old(Cursor(nowSgeNum, nowSgeOffset, nowTotal)), payload).Some?
      ensures ok ==>
        var (next, added) := ScatterPayload(w, old(Cursor(nowSgeNum, nowSgeOffset, nowTotal)), payload).value;
        next == Cursor(nowSgeNum, nowSgeOffset, nowTotal) && dmas == old(dmas) + added
    {
      hide ScatterPayload, Prepend;
      ghost var goal := ScatterPayload(w, Cursor(nowSgeNum, nowSgeOffset, nowTotal), payload);
      ghost var added: seq<Dma> := [];
      ghost var before := dmas;
      var bytes := payload;
      PrependNothing(goal);
      while nowSgeNum < w.maxSge
        invariant nowSgeNum < |w.sges| ==> nowSgeOffset <= w.sges[nowSgeNum].len
        invariant dmas == before + added
        invariant goal == Prepend(added, ScatterPayload(w, Cursor(nowSgeNum, nowSgeOffset, nowTotal), bytes))
        decreases w.maxSge - nowSgeNum
      {
        ScatterStep(w, Cursor(nowSgeNum, nowSgeOffset, nowTotal), bytes, added);
        if nowSgeNum >= |w.sges| {
          return false;
        }
        var sge := w.sges[nowSgeNum];
        var remain := sge.len - nowSgeOffset;
        if remain >= |bytes| {
          dmas := dmas + [Dma(sge.addr + nowSgeOffset, bytes)];
          nowTotal := nowTotal + |bytes|;
          nowSgeOffset := nowSgeOffset + |bytes|;
          if nowSgeOffset == sge.len {
            nowSgeOffset := 0;
            nowSgeNum := nowSgeNum + 1;
          }
          return true;
        }
        added := added + [Dma(sge.addr + nowSgeOffset, bytes[..remain])];
        dmas := dmas + [Dma(sge.addr + nowSgeOffset, bytes[..remain])];
        nowTotal := nowTotal + remain;
        bytes := bytes[remain..];
        nowSgeOffset := 0;
        nowSgeNum := nowSgeNum + 1;
      }
      ScatterEnd(w, Cursor(nowSgeNum, nowSgeOffset, nowTotal), bytes, added);
      ok := bytes == [];
    }

    /** dma_send_payload_to_host; false is a failed assertion. */
    method DmaSendPayload(p: Packet) returns (ok: bool)
      requires Valid() && Posted(view) && p.opcode.IsSend()
      modifies this`nowSgeNum, this`nowSgeOffset, this`nowTotal, this`dmas, this`view
      ensures ok <==> Responder.Execute(old(view), p).Took?
      ensures ok ==> Valid() && Responder.Execute(old(view), p) == Responder.Took(view) && view.head == old(view.head)
    {
      hide ScatterPayload, DpuRing.Valid, Slot, OnWire, WithSlots;
      var wqe := ring.GetNextWqe();
      if wqe == None {
        return false;
      }
      ok := ScatterLoop(wqe.value, p.payload);
      if ok {
        view := Responder.Execute(view, p).next;
      }
    }

    /** dma_write_payload_to_host */
    method DmaWritePayload(p: Packet)
      requires Valid() && p.opcode.IsWrite()
      modifies this`dmas, this`offset, this`resid, this`view
      ensures Responder.Execute(old(view), p).Took?
      ensures Valid() && Responder.Execute(old(view), p) == Responder.Took(view) && view.head == old(view.head)
    {
      hide DpuRing.Valid, Slot, OnWire, WithSlots;
      dmas := dmas + [Dma(hostVa + offset, p.payload)];
      offset := offset + |p.payload|;
      resid := (resid - |p.payload|) % 0x1_0000_0000;
      view := Responder.Execute(view, p).next;
    }

    method Execute(p: Packet) returns (ok: bool)
      requires Valid() && Posted(view)
      modifies this`nowSgeNum, this`nowSgeOffset, this`nowTotal, this`dmas, this`offset, this`resid, this`view
      ensures ok <==> Responder.Execute(old(view), p).Took?
      ensures ok ==> Valid() && Responder.Execute(old(view), p) == Responder.Took(view) && view.head == old(view.head)
    {
      if p.opcode.IsSend() {
        ok := DmaSendPayload(p);
      } else if p.opcode.IsWrite() {
        DmaWritePayload(p);
        ok := true;
      } else {
        ok := false;
      }
    }

    /** The RETH of a write; false when the region is unknown. */
    method StartWrite(p: Packet) returns (ok: bool)
      requires Valid()
      modifies this`hostVa, this`offset, this`byteCount, this`resid, this`view
      ensures ok <==> Responder.StartWrite(old(view), p).Took?
      ensures ok ==> Valid() && Responder.StartWrite(old(view), p) == Responder.Took(view)
      ensures view.posted == old(view.posted) && view.head == old(view.head) && view.cursor == old(view.cursor)
    {
      hide DpuRing.Valid, Slot, OnWire, WithSlots;
      if p.opcode.HasReth() {
        if p.reth.None? || p.reth.value.rkey !in mrs {
          return false;
        }
        var reth := p.reth.value;
        hostVa, offset, byteCount, resid := reth.va, 0, reth.len, reth.len;
        view := Responder.StartWrite(view, p).next;
      }
      ok := true;
    }

    /** The entry for the completion ring, which names the slot of the oldest receive request, and the step of
        dma_recv_cq_to_host to the next one. */
    method DmaRecvCq()
      requires RingMatches() && view.head < |view.posted|
      modifies this`cqes, ring`head, ring`ownFlag, ring`taken
      ensures ring.Valid() && ring.log == old(ring.log) && ring.taken == old(ring.taken) + 1
      ensures cqes == WithSlots(view.cqes + [Responder.RecvCqe(nowTotal, view.head)], ring.mem.Length)
      ensures cqes == old(cqes) + [Responder.RecvCqe(nowTotal, old(ring.head))]
    {
      hide Slot, DpuRing.Valid, WithSlots;
      ring.HeadSlot();
      WithSlotsNext(view.cqes, Responder.RecvCqe(nowTotal, view.head), ring.mem.Length);
      cqes := cqes + [Responder.RecvCqe(nowTotal, ring.head)];
      ring.StepWq();
    }

    /** The completion of a receive request. */
    method CompleteRecv()
      requires Valid() && view.head < |view.posted|
      modifies this`msn, this`cqes, this`nowSgeNum, this`nowSgeOffset, this`nowTotal, this`view,
        ring`head, ring`ownFlag, ring`taken
      ensures Valid() && view == Responder.CompleteRecv(old(view))
      ensures cqes == old(cqes) + [Responder.RecvCqe(old(nowTotal), old(ring.head))]
    {
      hide Slot, DpuRing.Valid, WithSlots, OnWire;
      DmaRecvCq();
      msn := msn + 1;
      nowSgeNum, nowSgeOffset, nowTotal := 0, 0, 0;
      view := Responder.CompleteRecv(view);
    }

    method ClearNak()
      requires Valid()
      modifies this`sentNak, this`view
      ensures Valid() && view == old(view).(sentNak := false)
    {
      hide DpuRing.Valid, Slot, OnWire, WithSlots;
      sentNak := false;
      view := view.(sentNak := false);
    }

    /** The expected sequence number moves past the packet. */
    method Advance(p: Packet)
      requires Valid()
      modifies this`psn, this`ackPsn, this`opcode, this`view
      ensures Valid()
      ensures view == old(view).(psn := Wrap(p.psn + 1), ackPsn := Wrap(p.psn + 1), opcode := p.opcode,
                                 accepted := old(view.accepted) + [p])
    {
      hide DpuRing.Valid, Slot, OnWire, WithSlots, Wrap;
      psn := Wrap(p.psn + 1);
      ackPsn := psn;
      opcode := p.opcode;
      view := view.(psn := psn, ackPsn := psn, opcode := opcode, accepted := view.accepted + [p]);
    }

    /** The packet with the expected sequence number. */
    method Accept(p: Packet) returns (ok: bool)
      requires Valid() && Posted(view)
      modifies this, ring`head, ring`ownFlag, ring`taken
      ensures ok <==> Responder.Accept(old(view), p).Took?
      ensures ok ==> Valid() && Responder.Accept(old(view), p) == Responder.Took(view)
    {
      hide Wrap, Responder.StartWrite, Responder.Execute, Responder.CompleteRecv, Responder.SendAck,
           ReceiverQp.Valid, ScatterPayload;
      ClearNak();
      ok := StartWrite(p);
      if !ok {
        return;
      }
      RequestThere(view, p);
      ok := Execute(p);
      if !ok {
        return;
      }
      Advance(p);
      if p.opcode.IsComp() {
        CompleteRecv();
      }
      if p.ackReq {
        SendAck(Requester.AckUnlimited, p.psn);
      }
    }

    /** One request packet of rxe_handle_recv; false is a failed assertion or an exit. */
    method HandleRequest(p: Packet) returns (ok: bool)
      requires Valid() && Posted(view)
      modifies this, ring`head, ring`ownFlag, ring`taken
      ensures ok <==> Responder.HandleRequest(old(view), p).Took?
      ensures ok ==> Valid() && Responder.HandleRequest(old(view), p) == Responder.Took(view)
    {
      hide Wrap, PsnCompare, Responder.Accept, Responder.SendAck, DpuRing.Valid, WithSlots, OnWire;
      var diff := PsnCompare(p.psn, psn);
      ok := true;
      if diff > 0 {
        if !sentNak {
          sentNak := true;
          view := view.(sentNak := true);
          SendAck(Requester.NakPsnSeqError, psn);
        }
      } else if diff < 0 {
        if p.opcode.IsSend() || p.opcode.IsWrite() {
          SendAck(Requester.AckUnlimited, Wrap(ackPsn - 1));
        } else {
          ok := false;
        }
      } else {
        ok := Accept(p);
      }
    }

    /** The loop of rxe_handle_recv over a batch of request packets. */
    method HandleBatch(packets: seq<Packet>) returns (ok: bool)
      requires Valid() && Posted(view)
      modifies this, ring`head, ring`ownFlag, ring`taken
      ensures ok <==> HandleAll(old(view), packets).Took?
      ensures ok ==> Valid() && Posted(view) && HandleAll(old(view), packets) == Responder.Took(view)
    {
      hide Responder.HandleRequest, ReceiverQp.Valid, Posted, HandleAll;
      ok := true;
      var i := 0;
      assert packets[i..] == packets;
      while i < |packets|
        invariant i <= |packets| && Valid() && Posted(view)
        invariant HandleAll(old(view), packets) == HandleAll(view, packets[i..])
      {
        HandleAllStep(view, packets[i..]);
        PostedKept(view, packets[i]);
        assert packets[i..][1..] == packets[i + 1..];
        ok := HandleRequest(packets[i]);
        if !ok {
          return;
        }
        i := i + 1;
      }
      HandleAllStep(view, packets[i..]);
    }
  }

  /** One packet after the other. */
  function HandleAll(s: Responder.Responder, packets: seq<Packet>): Responder.Reception
    decreases |packets|
  {
    if packets == [] then Responder.Took(s)
    else
      match Responder.HandleRequest(s, packets[0])
      case Stopped => Responder.Stopped
      case Took(s') => HandleAll(s', packets[1..])
  }

  lemma HandleAllStep(s: Responder.Responder, packets: seq<Packet>)
    ensures packets == [] ==> HandleAll(s, packets) == Responder.Took(s)
    ensures packets != [] ==>
      HandleAll(s, packets) == match Responder.HandleRequest(s, packets[0])
                               case Stopped => Responder.Stopped
                               case Took(s') => HandleAll(s', packets[1..])
  {
    hide Responder.HandleRequest;
  }

  /** A batch after another is the two in one. */
  lemma {:induction false} HandleAllSplits(s: Responder.Responder, a: seq<Packet>, b: seq<Packet>)
    ensures HandleAll(s, a + b) == match HandleAll(s, a)
                                   case Stopped => Responder.Stopped
                                   case Took(s') => HandleAll(s', b)
    ensures |a| == 1 ==> HandleAll(s, a) == Responder.HandleRequest(s, a[0])
    decreases |a|
  {
    hide Responder.HandleRequest;
    if a == [] {
      assert a + b == b;
    } else {
      assert (a + b)[1..] == a[1..] + b;
      match Responder.HandleRequest(s, a[0]) {
        case Stopped =>
        case Took(s') => HandleAllSplits(s', a[1..], b);
      }
    }
  }

  /** Posted requests have at most as many entries as the ring's slots, and the cursor is inside its entry. */
  predicate Posted(s: Responder.Responder) {
    && (forall i | 0 <= i < |s.posted| :: |s.posted[i].sges| <= s.posted[i].maxSge)
    && (s.head < |s.posted| && s.cursor.num < |s.posted[s.head].sges| ==>
          s.cursor.offset <= s.posted[s.head].sges[s.cursor.num].len)
  }

  lemma {:induction false} ScatterStaysInside(w: RecvWqe, c: Cursor, payload: seq<Byte>)
    requires c.num < |w.sges| ==> c.offset <= w.sges[c.num].len
    ensures ScatterPayload(w, c, payload).Some? ==>
      var next := ScatterPayload(w, c, payload).value.0;
      next.num < |w.sges| ==> next.offset <= w.sges[next.num].len
    decreases |w.sges| - c.num
  {
    if c.num < |w.sges| {
      var remain := w.sges[c.num].len - c.offset;
      if remain < |payload| {
        ScatterStaysInside(w, Cursor(c.num + 1, 0, c.total + remain), payload[remain..]);
      }
    }
  }

  lemma ExecuteStaysInside(s: Responder.Responder, p: Packet)
    requires Posted(s)
    ensures Responder.Execute(s, p).Took? ==> Posted(Responder.Execute(s, p).next)
  {
    hide ScatterPayload;
    if s.head < |s.posted| {
      ScatterStaysInside(s.posted[s.head], s.cursor, p.payload);
    }
  }

  /** Handling a packet leaves the cursor inside its entry. */
  lemma PostedKept(s: Responder.Responder, p: Packet)
    requires Posted(s)
    ensures Responder.HandleRequest(s, p).Took? ==> Posted(Responder.HandleRequest(s, p).next)
  {
    hide Wrap, PsnCompare, Responder.Execute;
    var s0 := s.(sentNak := false);
    if Responder.StartWrite(s0, p).Took? {
      ExecuteStaysInside(Responder.StartWrite(s0, p).next, p);
    }
  }

  /** Only a packet that found a receive request completes one. */
  lemma RequestThere(s: Responder.Responder, p: Packet)
    ensures Responder.Execute(s, p).Took? && p.opcode.IsComp() ==>
      var s' := Responder.Execute(s, p).next;
      s'.head < |s'.posted|
  {
    hide ScatterPayload;
  }

  /** A scatter whose first requests are dmas. */
  function Prepend(dmas: seq<Dma>, rest: Option<(Cursor, seq<Dma>)>): Option<(Cursor, seq<Dma>)> {
    match rest
    case None => None
    case Some((next, more)) => Some((next, dmas + more))
  }

  lemma PrependNothing(rest: Option<(Cursor, seq<Dma>)>)
    ensures Prepend([], rest) == rest
  {
    if rest.Some? {
      assert [] + rest.value.1 == rest.value.1;
    }
  }

  /** One iteration, behind the requests already made. */
  lemma ScatterStep(w: RecvWqe, c: Cursor, bytes: seq<Byte>, added: seq<Dma>)
    requires c.num < w.maxSge && (c.num < |w.sges| ==> c.offset <= w.sges[c.num].len)
    ensures var whole := Prepend(added, ScatterPayload(w, c, bytes));
      if c.num >= |w.sges| then whole == None
      else
        var sge, remain := w.sges[c.num], w.sges[c.num].len - c.offset;
        if remain >= |bytes| then
          whole == Some((if remain == |bytes| then Cursor(c.num + 1, 0, c.total + |bytes|)
                         else Cursor(c.num, c.offset + |bytes|, c.total + |bytes|),
                         added + [Dma(sge.addr + c.offset, bytes)]))
        else
          whole == Prepend(added + [Dma(sge.addr + c.offset, bytes[..remain])],
                           ScatterPayload(w, Cursor(c.num + 1, 0, c.total + remain), bytes[remain..]))
  {
    ScatterUnfolds(w, c, bytes);
    hide ScatterPayload, Prepend;
    if c.num >= |w.sges| {
      PrependIs(added, None);
    } else {
      var sge, remain := w.sges[c.num], w.sges[c.num].len - c.offset;
      if remain >= |bytes| {
        PrependIs(added, ScatterPayload(w, c, bytes));
      } else {
        PrependTwice(added, [Dma(sge.addr + c.offset, bytes[..remain])],
                     ScatterPayload(w, Cursor(c.num + 1, 0, c.total + remain), bytes[remain..]));
      }
    }
  }

  lemma ScatterUnfolds(w: RecvWqe, c: Cursor, bytes: seq<Byte>)
    requires c.num < w.maxSge && (c.num < |w.sges| ==> c.offset <= w.sges[c.num].len)
    ensures var whole := ScatterPayload(w, c, bytes);
      if c.num >= |w.sges| then whole == None
      else
        var sge, remain := w.sges[c.num], w.sges[c.num].len - c.offset;
        if remain >= |bytes| then
          whole == Some((if remain == |bytes| then Cursor(c.num + 1, 0, c.total + |bytes|)
                         else Cursor(c.num, c.offset + |bytes|, c.total + |bytes|),
                         [Dma(sge.addr + c.offset, bytes)]))
        else
          whole == Prepend([Dma(sge.addr + c.offset, bytes[..remain])],
                           ScatterPayload(w, Cursor(c.num + 1, 0, c.total + remain), bytes[remain..]))
  {
  }

  lemma PrependIs(dmas: seq<Dma>, rest: Option<(Cursor, seq<Dma>)>)
    ensures Prepend(dmas, rest) == if rest == None then None else Some((rest.value.0, dmas + rest.value.1))
  {
  }

  lemma PrependTwice(a: seq<Dma>, b: seq<Dma>, rest: Option<(Cursor, seq<Dma>)>)
    ensures Prepend(a, Prepend(b, rest)) == Prepend(a + b, rest)
  {
    if rest.Some? {
      assert a + (b + rest.value.1) == (a + b) + rest.value.1;
    }
  }

  lemma ScatterEnd(w: RecvWqe, c: Cursor, bytes: seq<Byte>, added: seq<Dma>)
    requires c.num >= w.maxSge >= |w.sges|
    ensures Prepend(added, ScatterPayload(w, c, bytes)) == if bytes == [] then Some((c, added)) else None
  {
    assert added + [] == added;
  }
}
