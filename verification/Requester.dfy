/** The sending side of a reliable connection as values: one iteration of the loop of rxe_handle_req,
    and the processing of one acknowledgement in rxe_handle_recv. */
module Requester {
  import opened Options
  import opened Messages
  import opened Psn

  /** dpu_send_wqe_state, less the error state. */
  datatype WqeState = Posted | Processing | Pending | Done

  datatype SendWqe = SendWqe(msg: Message, state: WqeState, firstPsn: nat, lastPsn: nat, pktNum: nat, offset: nat)

  datatype SendCqe = SendCqe(byteCount: nat, op: WrOpcode, wqeCounter: nat)

  datatype Syndrome = AckUnlimited | NakPsnSeqError

  /** queue holds every request ever queued, and tail and index are positions in it. The last two
      fields are history: the packets emitted and the number of them acknowledged, which no step reads. */
  datatype Requester = Requester(
    queue: seq<SendWqe>, tail: nat, index: nat,
    psn: nat, opcode: Opcode, noAckPkts: nat,
    compPsn: nat,
    recvPsn: nat,
    cqes: seq<SendCqe>,
    sent: seq<Packet>, acked: nat)

  /** The two failed assertions of acknowledgement processing: a request past its last packet that is not
      pending, and a NAK. */
  datatype Cause = NotPending | NakReceived

  datatype Outcome = Running(next: Requester) | Halted(last: Requester, cause: Cause)

  const MAX_PKT_PER_ACK := 64
  const MAX_UNACKED_PSNS := 128

  function Fresh(m: Message): SendWqe { SendWqe(m, Posted, 0, 0, 0, 0) }

  /** Creation, with the opcode field as given. */
  function Create(opcode: Opcode): Requester {
    Requester([], 0, 0, 0, opcode, 0, 0, 0, [], [], 0)
  }

  /** loop_datapath_send_wq: a request copied from the host ring joins the queue. */
  function Enqueue(r: Requester, m: Message): Requester {
    r.(queue := r.queue + [Fresh(m)])
  }

  /** next_opcode */
  function NextOpcode(w: SendWqe, opcode: Opcode): Opcode {
    var fits := |w.msg.data| - w.offset <= 8192;
    if w.msg.op == Send then
      if opcode.SendFirst? || opcode.SendMiddle? then (if fits then SendLast else SendMiddle)
      else if fits then SendOnly else SendFirst
    else
      if opcode.WriteFirst? || opcode.WriteMiddle? then (if fits then WriteLast else WriteMiddle)
      else if fits then WriteOnly else WriteFirst
  }

  predicate Skips(w: SendWqe) { w.state == Done || w.state == Pending || w.offset == |w.msg.data| }

  predicate WindowClosed(r: Requester) { PsnCompare(r.psn, r.compPsn + MAX_UNACKED_PSNS) > 0 }

  /** init_req_packet: the packet, and the count of packets since one asked for acknowledgement. */
  function MakePacket(r: Requester, w: SendWqe, opcode: Opcode, payload: nat): (Packet, nat)
    requires w.offset + payload <= |w.msg.data|
  {
    var ackReq := opcode.IsEnd() || r.noAckPkts + 1 > MAX_PKT_PER_ACK;
    (Packet(opcode, Wrap(r.psn), ackReq,
            if opcode.HasReth() then Some(Reth(w.msg.remoteAddr, w.msg.rkey, |w.msg.data|)) else None,
            w.msg.data[w.offset..w.offset + payload]),
     if ackReq then 0 else r.noAckPkts + 1)
  }

  /** The request a packet has been cut from. */
  function CutFrom(w: SendWqe, opcode: Opcode, payload: nat, psn: nat): SendWqe {
    var numPkt := if NumPackets(w.msg) == 0 then 1 else NumPackets(w.msg);
    w.(offset := w.offset + payload, pktNum := w.pktNum + 1,
       state := if opcode.IsEnd() then Pending else Processing,
       firstPsn := if opcode.IsStart() then psn else w.firstPsn,
       lastPsn := if opcode.IsStart() then Wrap(psn + numPkt - 1) else w.lastPsn)
  }

  /** One packet of the request under the index. */
  function EmitPacket(r: Requester): Requester
    requires r.index < |r.queue| && r.queue[r.index].offset <= |r.queue[r.index].msg.data|
  {
    var w := r.queue[r.index];
    var opcode := NextOpcode(w, r.opcode);
    var left := |w.msg.data| - w.offset;
    var payload := if left >= 8192 then 8192 else left;
    var (packet, noAckPkts) := MakePacket(r, w, opcode, payload);
    r.(queue := r.queue[r.index := CutFrom(w, opcode, payload, r.psn)],
       index := if opcode.IsEnd() then r.index + 1 else r.index,
       psn := Wrap(r.psn + 1), opcode := opcode, noAckPkts := noAckPkts,
       sent := r.sent + [packet])
  }

  /** One iteration of the loop of rxe_handle_req; the second result says whether to go on. */
  function SendStep(r: Requester): (Requester, bool)
    requires r.index < |r.queue| && r.queue[r.index].offset <= |r.queue[r.index].msg.data|
  {
    if Skips(r.queue[r.index]) then (r.(index := r.index + 1), true)
    else if WindowClosed(r) then (r, false)
    else (EmitPacket(r), true)
  }

  /** complete_send_wqe on the request at the tail. */
  function Complete(r: Requester): Requester
    requires r.tail < |r.queue|
  {
    var w := r.queue[r.tail];
    r.(recvPsn := if w.state == Pending && PsnCompare(w.lastPsn, r.recvPsn) >= 0 then Wrap(w.lastPsn + 1)
        else r.recvPsn,
       cqes := if w.msg.signaled then r.cqes + [SendCqe(|w.msg.data|, w.msg.op, w.msg.curPos)] else r.cqes,
       tail := r.tail + 1)
  }

  /** The loop over one acknowledgement. */
  function HandleAck(r: Requester, psn: nat, syndrome: Syndrome): Outcome
    decreases |r.queue| - r.tail
  {
    if r.tail >= |r.queue| || r.queue[r.tail].state == Posted then Running(r)
    else
      var w := r.queue[r.tail];
      if PsnCompare(psn, w.lastPsn) > 0 then
        if w.state == Pending then HandleAck(Complete(r), psn, syndrome) else Halted(r, NotPending)
      else if PsnCompare(psn, r.compPsn) < 0 then
        Running(if psn == w.lastPsn then Complete(r) else r)
      else if syndrome == NakPsnSeqError then Halted(r, NakReceived)
      else
        var r' := if w.state == Pending && w.lastPsn == psn then Complete(r) else r;
        Running(r'.(compPsn := Wrap(psn + 1), acked := r'.acked + 1 + Wrap(psn - r'.compPsn)))
  }

  function MessagesOf(queue: seq<SendWqe>): (ms: seq<Message>)
    ensures |ms| == |queue|
    ensures forall i | 0 <= i < |ms| :: ms[i] == queue[i].msg
  {
    seq(|queue|, i requires 0 <= i < |queue| => queue[i].msg)
  }
}
