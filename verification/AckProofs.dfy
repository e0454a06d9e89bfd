/** Acknowledgement processing is exact: it completes the requests whose last packet is covered,
    in order and once each, and nothing else. */
module AckProofs {
  import opened Messages
  import opened Psn
  import opened Requester
  import opened RequesterProofs

  /** What an acknowledgement may not touch. */
  predicate SameWire(r: Requester, r': Requester) {
    r'.queue == r.queue && r'.index == r.index && r'.psn == r.psn && r'.opcode == r.opcode
    && r'.noAckPkts == r.noAckPkts && r'.sent == r.sent
  }

  lemma {:induction false} AckKeepsWire(r: Requester, psn: nat, syndrome: Syndrome)
    ensures match HandleAck(r, psn, syndrome)
      case Running(r') => SameWire(r, r')
      case Halted(r', _) => SameWire(r, r')
    decreases |r.queue| - r.tail
  {
    hide Wrap, PsnCompare;
    if r.tail < |r.queue| {
      AckKeepsWire(Complete(r), psn, syndrome);
    }
  }

  /** The request at the tail when packet t, emitted and not before it, is acknowledged. */
  lemma TailHolds(r: Requester, t: nat)
    requires CoreInv(r) && r.tail <= |r.queue|
    requires Start(MessagesOf(r.queue), r.tail) <= t < |r.sent|
    ensures r.tail <= r.index && r.tail < |r.queue|
    ensures var ms := MessagesOf(r.queue);
      && r.queue[r.tail].lastPsn == Wrap(Start(ms, r.tail + 1) - 1)
      && Start(ms, r.tail + 1) <= Start(ms, r.tail) + 0x4_0000
      && Start(ms, r.tail) < Start(ms, r.tail + 1)
      && (if r.tail < r.index then r.queue[r.tail].state == Pending
          else r.queue[r.tail].state == Processing && t < Start(ms, r.tail + 1) - 1)
  {
    hide AckBitsOk, AsksOften, CompletionsOf, Expected, Numbered, OpcodeOk, Wrap, FragmentsOf, WindowOk,
         NumPackets, Offset, Start;
    var ms := MessagesOf(r.queue);
    if r.tail < |r.queue| {
      StartNext(ms, r.tail);
      PacketsBound(ms[r.tail]);
      if r.tail < r.index {
        assert SentWhole(r.queue[r.tail], Start(ms, r.tail + 1));
      }
    }
  }

  lemma CompleteCore(r: Requester)
    requires CoreInv(r) && r.tail < r.index
    ensures CoreInv(Complete(r)) && SameWire(r, Complete(r))
    ensures Complete(r).tail == r.tail + 1 && Complete(r).acked == r.acked && Complete(r).compPsn == r.compPsn
  {
    hide WireOk, AckBitsOk, AsksOften, OpcodeOk, PsnCompare, Wrap, WindowOk, PartSent, SentWhole, SentInPart, Start;
    var ms := MessagesOf(r.queue);
    assert ms[..r.tail + 1][..r.tail] == ms[..r.tail];
  }

  lemma AckWindow(r: Requester, t: nat)
    requires CoreInv(r) && r.acked <= t < |r.sent|
    ensures PsnCompare(Wrap(t), r.compPsn) == 256 * (t - r.acked)
    ensures Wrap(Wrap(t) - r.compPsn) == t - r.acked <= 128
  {
    hide QueueOk, WireOk, AckBitsOk, AsksOften, OpcodeOk, PsnCompare, CompletionsOf;
    WrapTwice(t);
    WrapTwice(r.acked);
    CompareIsExact(Wrap(t), r.compPsn, t, r.acked);
    WrapSubtract(Wrap(t), r.compPsn, t, r.acked);
  }

  lemma WrapMeets(t: nat, n: nat)
    requires t <= n < t + 0x80_0000
    ensures Wrap(t) == Wrap(n) <==> t == n
  {
    WrapDifference(n, t);
  }

  /** The last step of the loop: the window moves, and the tail is where it should be. */
  lemma AckedInv(r: Requester, t: nat)
    requires CoreInv(r) && r.acked <= t < |r.sent| && TailExact(MessagesOf(r.queue), r.tail, t + 1)
    ensures var r' := r.(compPsn := Wrap(Wrap(t) + 1), acked := r.acked + 1 + Wrap(Wrap(t) - r.compPsn));
      Inv(r') && r'.acked == t + 1 && SameWire(r, r')
  {
    hide QueueOk, WireOk, AckBitsOk, AsksOften, OpcodeOk, PsnCompare, CompletionsOf, Wrap, TailExact;
    AckWindow(r, t);
    WrapNext(t);
  }

  lemma SameWireTwice(a: Requester, b: Requester, c: Requester)
    ensures SameWire(a, a)
    ensures SameWire(a, b) && SameWire(b, c) ==> SameWire(a, c)
  {
  }

  /** Where the loop stands after completing the request at the tail. */
  lemma NextTail(ms: seq<Message>, tail: nat, t: nat)
    requires AllSendable(ms) && tail < |ms| && Start(ms, tail) <= t
    ensures Start(ms, tail + 1) == t + 1 ==> TailExact(ms, tail + 1, t + 1)
    ensures t + 1 < Start(ms, tail + 1) ==> TailExact(ms, tail, t + 1)
    ensures t < Start(ms, tail + 1) ==> TailExact(ms, tail, t)
    ensures tail + 1 < |ms| ==> Start(ms, tail + 1) < Start(ms, tail + 2)
  {
    if tail + 1 < |ms| {
      PacketsBound(ms[tail + 1]);
    }
  }

  lemma CoreSendable(r: Requester)
    requires CoreInv(r)
    ensures AllSendable(MessagesOf(r.queue)) && r.tail <= r.index <= |r.queue|
  {
  }

  /** An acknowledgement of an emitted packet t that was not yet acknowledged moves the window to
      t + 1 and completes precisely the requests that end by t; a NAK halts after completing those
      that end before t. No other assertion of the loop fails. */
  lemma {:induction false} AckIsExact(r: Requester, t: nat, syndrome: Syndrome)
    requires CoreInv(r) && r.tail <= |r.queue|
    requires Start(MessagesOf(r.queue), r.tail) <= t && r.acked <= t < |r.sent|
    requires r.tail < |r.queue| ==> r.acked < Start(MessagesOf(r.queue), r.tail + 1)
    ensures match HandleAck(r, Wrap(t), syndrome)
      case Running(r') =>
        syndrome == AckUnlimited && Inv(r') && r'.acked == t + 1 && SameWire(r, r') && r.tail <= r'.tail
      case Halted(r', cause) =>
        && cause == NakReceived && syndrome == NakPsnSeqError && CoreInv(r') && SameWire(r, r') && r.tail <= r'.tail
        && r'.acked == r.acked && Start(MessagesOf(r'.queue), r'.tail) <= t
        && TailExact(MessagesOf(r.queue), r'.tail, t)
    decreases |r.queue| - r.tail
  {
    hide CoreInv, Inv, PsnCompare, Wrap, Complete, Start, SameWire, TailExact, AllSendable;
    var ms := MessagesOf(r.queue);
    TailHolds(r, t);
    CoreSendable(r);
    var last := Start(ms, r.tail + 1) - 1;
    WrapTwice(t);
    WrapTwice(last);
    CompareIsExact(Wrap(t), r.queue[r.tail].lastPsn, t, last);
    AckWindow(r, t);
    NextTail(ms, r.tail, t);
    var done := Complete(r);
    SameWireTwice(r, r, r);
    if t > last {
      CompleteCore(r);
      SameWireQueue(r, done);
      AckIsExact(done, t, syndrome);
      match HandleAck(done, Wrap(t), syndrome) {
        case Running(r') => SameWireTwice(r, done, r');
        case Halted(r', _) => SameWireTwice(r, done, r');
      }
    } else if syndrome == AckUnlimited {
      WrapMeets(t, last);
      if t == last {
        CompleteCore(r);
        SameWireQueue(r, done);
        AckedInv(done, t);
        SameWireTwice(r, done, done.(compPsn := Wrap(Wrap(t) + 1), acked := done.acked + 1
            + Wrap(Wrap(t) - done.compPsn)));
      } else {
        AckedInv(r, t);
      }
    }
  }

  lemma SameWireQueue(r: Requester, r': Requester)
    requires SameWire(r, r')
    ensures r'.queue == r.queue && r'.sent == r.sent && r'.index == r.index
  {
  }

  /** A stale acknowledgement or NAK, no older than 2^22 packets, changes nothing. */
  lemma StaleAckIsIgnored(r: Requester, t: nat, syndrome: Syndrome)
    requires Inv(r) && t < r.acked <= t + 0x40_0000
    ensures HandleAck(r, Wrap(t), syndrome) == Running(r)
  {
    hide WireOk, AckBitsOk, AsksOften, OpcodeOk, CompletionsOf, PsnCompare, Wrap, Start, NumPackets;
    var ms := MessagesOf(r.queue);
    WrapTwice(t);
    WrapTwice(r.acked);
    CompareIsExact(Wrap(t), r.compPsn, t, r.acked);
    if r.tail < |r.queue| && r.queue[r.tail].state != Posted {
      var last := Start(ms, r.tail + 1) - 1;
      StartNext(ms, r.tail);
      PacketsBound(ms[r.tail]);
      assert r.tail < r.index ==> SentWhole(r.queue[r.tail], Start(ms, r.tail + 1));
      assert r.queue[r.tail].lastPsn == Wrap(last);
      WrapTwice(last);
      CompareIsExact(Wrap(t), r.queue[r.tail].lastPsn, t, last);
      WrapMeets(t, last);
    }
  }
}
