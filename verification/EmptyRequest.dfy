/** A posted request without data: the sender steps over it, and from then on it holds up the queue. */
module EmptyRequest {
  import opened Messages
  import opened Psn
  import opened Requester
  import opened RequesterProofs
  import opened Transport

  /** What can happen to a send queue, with any acknowledgement and any message. */
  datatype Step = QueueStep(m: Message) | SendOneStep | AckStep(psn: nat, syndrome: Syndrome)

  predicate Possible(r: Requester, step: Step) { step.SendOneStep? ==> CanSend(r) }

  function Take(r: Requester, step: Step): Requester
    requires Possible(r, step)
  {
    match step
    case QueueStep(m) => Enqueue(r, m)
    case SendOneStep => SendStep(r).0
    case AckStep(psn, syndrome) =>
      match HandleAck(r, psn, syndrome)
      case Running(r') => r'
      case Halted(r', _) => r'
  }

  predicate AllPossible(r: Requester, steps: seq<Step>)
    decreases |steps|
  {
    steps == [] || (Possible(r, steps[0]) && AllPossible(Take(r, steps[0]), steps[1..]))
  }

  function TakeAll(r: Requester, steps: seq<Step>): Requester
    requires AllPossible(r, steps)
    decreases |steps|
  {
    if steps == [] then r else TakeAll(Take(r, steps[0]), steps[1..])
  }

  /** Request k has been stepped over without a packet, and is not completed. */
  predicate Stuck(r: Requester, k: nat) {
    r.tail <= k < r.index && k < |r.queue| && r.queue[k].state == Posted
  }

  /** Stepping over the next request leaves it stuck exactly when it has no data. */
  lemma StuckExactly(r: Requester)
    requires r.tail <= r.index < |r.queue| && r.queue[r.index] == Fresh(r.queue[r.index].msg)
    ensures Stuck(SendStep(r).0, r.index) <==> r.queue[r.index].msg.data == []
  {
    hide Wrap, PsnCompare, NextOpcode, NumPackets, MakePacket;
  }

  lemma {:induction false} AckStuck(r: Requester, k: nat, psn: nat, syndrome: Syndrome)
    requires Stuck(r, k)
    ensures var r' := Take(r, AckStep(psn, syndrome));
      Stuck(r', k) && r.tail <= r'.tail && r'.psn == r.psn && r'.sent == r.sent
    decreases |r.queue| - r.tail
  {
    hide Wrap, PsnCompare;
    if r.tail < k {
      AckStuck(Complete(r), k, psn, syndrome);
    }
  }

  lemma StepStuck(r: Requester, k: nat, step: Step)
    requires Stuck(r, k) && Possible(r, step)
    ensures Stuck(Take(r, step), k)
  {
    hide Wrap, PsnCompare, NextOpcode, NumPackets, MakePacket, HandleAck;
    if step.AckStep? {
      AckStuck(r, k, step.psn, step.syndrome);
    }
  }

  /** In every continuation the request is never completed, nor any after it. */
  lemma {:induction false} NeverCompleted(r: Requester, k: nat, steps: seq<Step>)
    requires Stuck(r, k) && AllPossible(r, steps)
    ensures Stuck(TakeAll(r, steps), k)
    decreases |steps|
  {
    hide Stuck, Take, Possible;
    if steps != [] {
      StepStuck(r, k, steps[0]);
      NeverCompleted(Take(r, steps[0]), k, steps[1..]);
    }
  }

  // ----- At the tail -----

  predicate Blocked(r: Requester) { Stuck(r, r.tail) }

  /** What acknowledgements could have changed. */
  predicate Frozen(r: Requester, r': Requester) {
    r'.tail == r.tail && r'.compPsn == r.compPsn && r'.acked == r.acked && r'.cqes == r.cqes && r'.recvPsn == r.recvPsn
  }

  lemma StepBlocked(r: Requester, step: Step)
    requires Blocked(r) && Possible(r, step)
    ensures Blocked(Take(r, step)) && Frozen(r, Take(r, step))
  {
    hide Wrap, PsnCompare, NextOpcode, NumPackets, MakePacket;
  }

  /** The counters of the window, which every run of the transport keeps. */
  predicate Counted(r: Requester) { r.psn == Wrap(|r.sent|) && WindowOk(r.compPsn, r.acked, |r.sent|) }

  lemma StepCounted(r: Requester, step: Step)
    requires Blocked(r) && Counted(r) && Possible(r, step)
    ensures Counted(Take(r, step))
  {
    hide Wrap, PsnCompare, NextOpcode, NumPackets, CutFrom;
    WindowIsOpen(r.compPsn, r.acked, |r.sent|, r.psn);
    WrapNext(|r.sent|);
  }

  /** Once the request is at the tail, no acknowledgement changes anything again: nothing is completed,
      the window does not move, and at most what is left of it is emitted. */
  lemma {:induction false} BlockedForever(r: Requester, steps: seq<Step>)
    requires Blocked(r) && AllPossible(r, steps)
    ensures Blocked(TakeAll(r, steps)) && Frozen(r, TakeAll(r, steps))
    ensures Counted(r) ==> |TakeAll(r, steps).sent| <= r.acked + 129
    decreases |steps|
  {
    hide Blocked, Take, Possible, Wrap;
    if steps != [] {
      StepBlocked(r, steps[0]);
      if Counted(r) {
        StepCounted(r, steps[0]);
      }
      BlockedForever(Take(r, steps[0]), steps[1..]);
    }
  }
}
