/** The receiving side of a reliable connection as values: the handling of one request packet in
    rxe_handle_recv. */
module Responder {
  import opened Messages
  import opened Psn
  import opened Scatter
  import opened Requester

  datatype RecvCqe = RecvCqe(byteCount: nat, wqeCounter: nat)

  /** An acknowledgement on the wire. covers is history: how many packets had been accepted. */
  datatype Ack = Ack(syndrome: Syndrome, psn: nat, msn: nat, covers: nat)

  /** posted holds every receive request ever posted and head is a position in it; dmas, cqes and
      acks are everything passed on so far; accepted is history, which no step reads. */
  datatype Responder = Responder(
    psn: nat, ackPsn: nat, msn: nat, opcode: Opcode, sentNak: bool,
    posted: seq<RecvWqe>, head: nat, cursor: Cursor,
    hostVa: nat, offset: nat, byteCount: nat, resid: nat,
    mrs: set<nat>,
    dmas: seq<Dma>, cqes: seq<RecvCqe>, acks: seq<Ack>,
    accepted: seq<Packet>)

  /** Stopped is an assertion or exit of the source. */
  datatype Reception = Took(next: Responder) | Stopped

  const START := Cursor(0, 0, 0)

  function Create(mrs: set<nat>): Responder {
    Responder(0, 0, 0, SendFirst, false, [], 0, START, 0, 0, 0, 0, mrs, [], [], [], [])
  }

  function PostRecv(s: Responder, w: RecvWqe): Responder {
    s.(posted := s.posted + [w])
  }

  function SendAck(s: Responder, syndrome: Syndrome, psn: nat): Responder {
    s.(acks := s.acks + [Ack(syndrome, psn, s.msn % 0x100_0000, |s.accepted|)])
  }

  /** A RETH starts a write. */
  function StartWrite(s: Responder, p: Packet): Reception {
    match p.reth
    case Some(reth) =>
      if p.opcode.HasReth() then
        if reth.rkey in s.mrs then Took(s.(hostVa := reth.va, offset := 0, byteCount := reth.len, resid := reth.len))
        else Stopped
      else Took(s)
    case None => if p.opcode.HasReth() then Stopped else Took(s)
  }

  /** dma_send_payload_to_host and dma_write_payload_to_host */
  function Execute(s: Responder, p: Packet): Reception {
    if p.opcode.IsSend() then
      if s.head >= |s.posted| then Stopped
      else
        match ScatterPayload(s.posted[s.head], s.cursor, p.payload)
        case None => Stopped
        case Some((next, dmas)) => Took(s.(cursor := next, dmas := s.dmas + dmas))
    else if p.opcode.IsWrite() then
      Took(s.(dmas := s.dmas + [Dma(s.hostVa + s.offset, p.payload)],
              offset := s.offset + |p.payload|, resid := (s.resid - |p.payload|) % 0x1_0000_0000))
    else Stopped
  }

  /** The completion of a receive request; dma_recv_cq_to_host steps to the next one. */
  function CompleteRecv(s: Responder): Responder {
    s.(msn := s.msn + 1, cqes := s.cqes + [RecvCqe(s.cursor.total, s.head)], head := s.head + 1, cursor := START)
  }

  /** The packet with the expected sequence number. */
  function Accept(s: Responder, p: Packet): Reception {
    match StartWrite(s.(sentNak := false), p)
    case Stopped => Stopped
    case Took(s1) =>
      match Execute(s1, p)
      case Stopped => Stopped
      case Took(s2) =>
        var s3 := s2.(psn := Wrap(p.psn + 1), ackPsn := Wrap(p.psn + 1), opcode := p.opcode, accepted := s2.accepted
            + [p]);
        var s4 := if p.opcode.IsComp() then CompleteRecv(s3) else s3;
        Took(if p.ackReq then SendAck(s4, AckUnlimited, p.psn) else s4)
  }

  /** One request packet of the receive loop. */
  function HandleRequest(s: Responder, p: Packet): Reception {
    var diff := PsnCompare(p.psn, s.psn);
    if diff > 0 then
      Took(if s.sentNak then s else SendAck(s.(sentNak := true), NakPsnSeqError, s.psn))
    else if diff < 0 then
      if p.opcode.IsSend() || p.opcode.IsWrite() then Took(SendAck(s, AckUnlimited, Wrap(s.ackPsn - 1))) else Stopped
    else Accept(s, p)
  }
}
