/** One request through both rings: posted by the host, copied, taken and completed by the DPU, and reported
    to the host under the wr_id it was posted with. */
module RoundTrips {
  import opened Options
  import opened Messages
  import opened RingIndex
  import opened Rings
  import opened HandOff
  import opened Counters
  import opened DpuRings
  import opened HostQueues

  /** Everything asked for is copied, and everything copied is taken: all posted entries but fewer than
      a batch, in order. */
  method HandOver<W>(q: HostQueue<W>, dpu: DpuRing<Entry<W>>) returns (entries: seq<Entry<W>>)
    requires q.Valid() && q.Linked(dpu)
    modifies q`requests, q`view, dpu`log, dpu`head, dpu`ownFlag, dpu`taken, dpu.mem
    ensures q.Valid() && q.Linked(dpu)
    ensures q.view.posted == old(q.view.posted) && q.view.freed == old(q.view.freed)
    ensures |q.view.posted| < |q.view.taken| + q.batch
    ensures q.view.taken == old(q.view.taken) + entries
    ensures q.view.taken == q.view.posted[..|q.view.taken|] && |q.view.taken| <= |q.view.posted|
  {
    hide HostQueue.Matches, HandOff.Inv, DpuRing.Valid, HandOff.Copy, HandOff.Poll, U32;
    entries := [];
    while q.requests != []
      invariant q.Valid() && q.Linked(dpu)
      invariant q.view.posted == old(q.view.posted) && q.view.freed == old(q.view.freed)
      invariant q.view.taken == old(q.view.taken)
      decreases |q.requests|
    {
      QueueInv(q);
      CopyStep(q.view);
      q.CopyCell(dpu);
      QueueInv(q);
    }
    QueueInv(q);
    var entry := Taking(q, dpu);
    while entry.Some?
      invariant q.Valid() && q.Linked(dpu) && q.view.pending == []
      invariant q.view.posted == old(q.view.posted) && q.view.freed == old(q.view.freed)
      invariant q.view.taken == old(q.view.taken) + entries + (if entry.Some? then [entry.value] else [])
      invariant entry == None ==> |q.view.taken| == q.view.copied
      decreases entry.Some?, q.view.copied - |q.view.taken|
    {
      entries := entries + [entry.value];
      entry := Taking(q, dpu);
    }
    QueueInv(q);
    AllTaken(q.view);
  }

  /** One look at the ring. */
  method Taking<W>(q: HostQueue<W>, dpu: DpuRing<Entry<W>>) returns (entry: Option<Entry<W>>)
    requires q.Valid() && q.Linked(dpu)
    modifies q`view, dpu`head, dpu`ownFlag, dpu`taken
    ensures q.Valid() && q.Linked(dpu)
    ensures q.view.posted == old(q.view.posted) && q.view.freed == old(q.view.freed)
    ensures q.view.pending == old(q.view.pending) && q.view.copied == old(q.view.copied)
    ensures |q.view.taken| <= q.view.copied
    ensures q.view.taken == old(q.view.taken) + (if entry.Some? then [entry.value] else [])
    ensures entry == None ==> |q.view.taken| == q.view.copied
  {
    hide HostQueue.Matches, HandOff.Inv, DpuRing.Valid, HandOff.Poll, U32;
    QueueInv(q);
    PollIsExact(q.view);
    TakenBounds(q.view);
    entry := q.Consume(dpu);
    QueueInv(q);
    TakenBounds(q.view);
  }

  lemma QueueInv<W>(q: HostQueue<W>)
    requires q.Valid()
    ensures HandOff.Inv(q.view) && q.batch == q.view.batch && q.requests == q.view.pending && q.view.n == q.host.Length
  {
    hide HandOff.Inv;
  }

  lemma CopyStep<T>(r: Ring<T>)
    requires HandOff.Inv(r) && r.pending != []
    ensures var r' := HandOff.Copy(r);
      && r'.posted == r.posted && r'.freed == r.freed && r'.taken == r.taken && |r'.pending| < |r.pending|
      && r'.start == r.start && r'.dma == r.dma && r'.batch == r.batch
  {
    hide HandOff.Inv;
    CopiedCell(r);
  }

  lemma AllTaken<T>(r: Ring<T>)
    requires HandOff.Inv(r) && r.pending == [] && |r.taken| == r.copied
    ensures |r.posted| < |r.taken| + r.batch && r.taken == r.posted[..|r.taken|] && |r.taken| <= |r.posted|
  {
    hide Image, Flag, Slot;
  }

  // ----- The way back -----

  /** cq is the host's end of the completion ring that the DPU fills. */
  ghost predicate CqLinked<S, R>(dcq: DpuCq<Cqe>, cq: HostCq<S, R>)
    reads dcq, dcq.mem, cq, cq.mem
  {
    && dcq.mem != cq.mem && dcq.Valid() && dcq.view.n == cq.mem.Length && cq.mem[..] == dcq.view.dpu
    && dcq.view.copied <= |dcq.view.posted| && cq.log == dcq.view.posted[..dcq.view.copied]
    && cq.polled == |dcq.view.taken|
  }

  /** The DMA engine copies the next completion asked for. */
  method CopyCqe<S, R>(dcq: DpuCq<Cqe>, cq: HostCq<S, R>)
    requires cq.Valid() && CqLinked(dcq, cq) && dcq.requests != []
    requires var next := dcq.view.posted;
      dcq.view.copied < |next| ==> Completable(EndsAfter(cq.Positions(), cq.log[cq.polled..]), next[dcq.view.copied])
    modifies dcq`requests, dcq`view, cq`log, cq.mem
    ensures cq.Valid() && CqLinked(dcq, cq) && dcq.view == HandOff.Copy(old(dcq.view))
    ensures cq.log == old(cq.log) + [old(dcq.view.posted[dcq.view.copied])]
  {
    hide Image, Flag, Slot, PendingOk, InOrder, EndsAfter, Completable, HandOff.Inv, HostCq.Valid, HostCq.CqValid;
    CopyInv(dcq.view);
    CopiedCell(dcq.view);
    var slot := dcq.requests[0];
    dcq.requests := dcq.requests[1..];
    cq.Arrive(slot, dcq.mem[slot]);
    dcq.view := HandOff.Copy(dcq.view);
  }

  // ----- There and back -----

  /** A post of one request, seen from both ends. */
  method PostLinked<W>(q: HostQueue<W>, dpu: DpuRing<Entry<W>>, request: W, id: nat)
    requires q.Valid() && q.Linked(dpu) && q.view.start < q.view.freed + q.host.Length
    modifies q, q.host, q.wrid
    ensures q.Valid() && q.Linked(dpu)
    ensures q.ids == old(q.ids) + [id] && |old(q.ids)| == old(q.view.start)
    ensures q.view.freed == old(q.view.freed) && q.view.taken == old(q.view.taken)
    ensures q.view.posted == old(q.view.posted) + [Entry(request, U32(old(q.view.start)))]
    ensures |old(q.view.posted)| == old(q.view.start) && |q.view.posted| == q.view.start
  {
    hide HandOff.Inv, DpuRing.Valid, PostLoop, Image, Mirrors, U32, RingSize;
    ghost var r := q.view;
    ghost var es := Entries([request], r.start);
    QueueInv(q);
    InvLengths(r);
    PostCallIsExact(r, es);
    PostLoopKeeps(r, es);
    var ok := q.Post([request], [id]);
    QueueInv(q);
    InvLengths(q.view);
    assert es == [Entry(request, U32(r.start))];
    assert q.view.posted[..q.view.copied] == r.posted[..r.copied];
  }

  lemma InvLengths<T>(r: Ring<T>)
    requires HandOff.Inv(r)
    ensures r.start == |r.posted| && |r.taken| <= r.copied <= |r.posted| && r.batch > 0
    ensures r.freed <= |r.taken| && r.start <= r.freed + r.n
  {
  }

  /** A request is posted and taken by the DPU, with all that were posted before it. */
  method Submit<W>(q: HostQueue<W>, dpu: DpuRing<Entry<W>>, request: W, id: nat) returns (curPos: nat)
    requires q.Valid() && q.Linked(dpu) && q.batch == 1 && q.view.start < q.view.freed + q.host.Length
    modifies q, q.host, q.wrid, dpu`log, dpu`head, dpu`ownFlag, dpu`taken, dpu.mem
    ensures q.Valid() && q.Linked(dpu)
    ensures q.ids == old(q.ids) + [id] && |old(q.ids)| == old(q.view.start)
    ensures q.view.freed == old(q.view.freed) && |old(q.view.taken)| <= |q.view.taken|
    ensures q.view.start == old(q.view.start) + 1 == |q.view.taken|
    ensures curPos == U32(old(q.view.start))
  {
    hide HandOff.Inv, HostQueue.Linked, HostQueue.Valid, U32;
    ghost var k := q.view.start;
    QueueInv(q);
    InvLengths(q.view);
    PostLinked(q, dpu, request, id);
    var entries := HandOver(q, dpu);
    QueueInv(q);
    InvLengths(q.view);
    assert q.view.taken[k] == entries[|entries| - 1];
    curPos := entries[|entries| - 1].curPos;
  }

  lemma {:induction false} PostLoopKeeps<T>(r: Ring<T>, xs: seq<T>)
    requires HandOff.Inv(r)
    ensures PostLoop(r, xs).Some? ==>
      var r' := PostLoop(r, xs).value;
      && r'.taken == r.taken && r'.copied == r.copied && r'.dpu == r.dpu && r'.freed == r.freed && r'.n == r.n
      && r'.dpuSlot == r.dpuSlot && r'.dpuFlag == r.dpuFlag && r'.posted == r.posted + xs && r'.batch == r.batch
    decreases |xs|
  {
    hide HandOff.Inv, HandOff.PostOne;
    if xs != [] && r.start - r.freed < r.n {
      InvBounds(r);
      PostInv(r, xs[0]);
      PostKeeps(r, xs[0]);
      PostLoopKeeps(HandOff.PostOne(r, xs[0]), xs[1..]);
      assert xs == [xs[0]] + xs[1..];
    }
  }

  lemma PostKeeps<T>(r: Ring<T>, x: T)
    requires Shaped(r)
    ensures var r' := HandOff.PostOne(r, x);
      && r'.taken == r.taken && r'.copied == r.copied && r'.dpu == r.dpu && r'.freed == r.freed
      && r'.dpuSlot == r.dpuSlot && r'.dpuFlag == r.dpuFlag && r'.posted == r.posted + [x]
  {
    hide Flush;
    var r1 := r.(host := r.host[r.hostSlot := Cell(r.hostFlag, x)], posted := r.posted + [x], start := r.start + 1);
    FlushFields(r1);
    FlushFields(Flush(r1));
  }

  lemma FlushFields<T>(r: Ring<T>)
    requires r.n > 0
    ensures Flush(r) == r.(pending := Flush(r).pending, dma := Flush(r).dma)
  {
    hide Slot, RequestCells;
  }

  /** The ends of the completion ring when everything sent has been reported. */
  ghost predicate Settled<S, R>(dcq: DpuCq<Cqe>, cq: HostCq<S, R>)
    reads dcq, dcq.mem, cq, cq.mem
  {
    && CqLinked(dcq, cq) && dcq.requests == [] && cq.polled == |cq.log|
    && dcq.view.freed == |dcq.view.taken|
  }

  /** A completion is sent and copied to the host. */
  method SendCompletion<S, R>(dcq: DpuCq<Cqe>, cq: HostCq<S, R>, cqe: Cqe)
    requires cq.Valid() && Settled(dcq, cq) && Completable(cq.Positions(), cqe)
    modifies dcq, dcq.mem, cq`log, cq.mem
    ensures cq.Valid() && CqLinked(dcq, cq) && dcq.requests == []
    ensures cq.log == old(cq.log) + [cqe] && dcq.view.freed == |dcq.view.taken|
  {
    hide HandOff.Inv, HandOff.PostOne, HandOff.Copy, Image, Slot, Flag, PendingOk, HostQueue.Valid, Completable,
         InOrder;
    SettledRoom(dcq.view);
    PostedOne(dcq.view, cqe);
    NothingWaiting(cq.Positions(), cq.log[cq.polled..]);
    dcq.PostCqe(cqe);
    CopiedCell(dcq.view);
    CopyCqe(dcq, cq);
  }

  /** And, being the only one waiting, reported by the next poll. */
  method Report<S, R>(dcq: DpuCq<Cqe>, cq: HostCq<S, R>, cqe: Cqe) returns (wc: Wc)
    requires cq.Valid() && Settled(dcq, cq) && Completable(cq.Positions(), cqe)
    modifies dcq, dcq.mem, cq`log, cq.mem, cq`head, cq`ownFlag, cq`polled
    modifies cq.sendWq`tail, cq.sendWq`view, cq.recvWq`tail, cq.recvWq`view
    ensures cq.Valid() && Settled(dcq, cq)
    ensures Reports(wc, old(cq.Positions()), cqe, cq.sendWq.ids, cq.recvWq.ids)
    ensures cq.Positions() == After(old(cq.Positions()), cqe)
    ensures OnlyFreed(old(cq.sendWq.view), cq.sendWq.view)
  {
    hide HandOff.Inv, HandOff.Poll, Image, Slot, Flag, PendingOk, HostQueue.Valid, Completable, Reports, After,
         InOrder;
    SendCompletion(dcq, cq, cqe);
    assert cq.log[cq.polled..] == [cqe];
    var wcs := cq.Poll(1);
    wc := wcs[0];
    OneReport(wcs, old(cq.Positions()), cqe, cq.sendWq.ids, cq.recvWq.ids);
    TakenNext(dcq.view);
    dcq.Reported();
  }

  lemma SettledRoom<T>(r: Ring<T>)
    requires HandOff.Inv(r) && r.batch == 1 && r.pending == [] && r.freed == |r.taken|
    ensures r.copied == r.start == |r.posted| && r.start - r.freed == r.copied - |r.taken|
  {
    hide Image, Flag, Slot;
  }

  lemma PostedOne<T>(r: Ring<T>, x: T)
    requires HandOff.Inv(r) && r.batch == 1 && r.pending == [] && r.start - r.freed < r.n
    ensures var r' := HandOff.PostOne(r, x);
      && HandOff.Inv(r') && |r'.pending| == 1 && r'.posted == r.posted + [x] && r'.copied == r.copied == |r.posted|
      && r'.taken == r.taken && r'.freed == r.freed && r'.dpu == r.dpu && r'.n == r.n
  {
    hide Image, Flag, Slot;
    PostInv(r, x);
    PostedFields(r, x);
    PostKeeps(r, x);
    hide HandOff.PostOne;
  }

  lemma NothingWaiting(e: Ends, cqes: seq<Cqe>)
    ensures cqes == [] ==> EndsAfter(e, cqes) == e
  {
  }

  lemma OneReport(wcs: seq<Wc>, e: Ends, c: Cqe, sendIds: seq<nat>, recvIds: seq<nat>)
    requires ReportsAll(wcs, e, [c], sendIds, recvIds)
    ensures |wcs| == 1 && Reports(wcs[0], e, c, sendIds, recvIds) && EndsAfter(e, [c]) == After(e, c)
  {
    hide Reports, After;
  }

  lemma TakenNext<T>(r: Ring<T>)
    requires HandOff.Inv(r) && |r.taken| < r.copied
    ensures HandOff.Poll(r).0.taken == r.posted[..|r.taken| + 1]
    ensures var r' := HandOff.Poll(r).0; r' == r.(taken := r'.taken, dpuSlot := r'.dpuSlot, dpuFlag := r'.dpuFlag)
  {
    hide Image, Flag, Slot, PendingOk;
    PollIsExact(r);
    TakenBounds(r);
  }

  /** The two rings of a queue pair, with nothing on its way back. */
  ghost predicate Ready<S, R>(cq: HostCq<S, R>, dpu: DpuRing<Entry<S>>, dcq: DpuCq<Cqe>)
    reads cq, cq.mem, cq.sendWq, cq.sendWq.host, cq.sendWq.wrid, cq.recvWq, cq.recvWq.host, cq.recvWq.wrid
    reads dpu, dpu.mem, dcq, dcq.mem
  {
    && cq.Valid() && cq.sendWq.Linked(dpu) && cq.sendWq.batch == 1 && Settled(dcq, cq)
    && (dpu.mem as object) != (cq.recvWq.host as object)
  }

  /** A signaled request, posted when the ring has room, comes back completed under its own wr_id, and the
      ring is as empty as it can be. */
  method RoundTrip<S, R>(cq: HostCq<S, R>, dpu: DpuRing<Entry<S>>, dcq: DpuCq<Cqe>, request: S, id: nat,
                         op: WrOpcode, byteCount: nat)
    returns (wc: Wc)
    requires Ready(cq, dpu, dcq) && cq.sendWq.view.start < cq.sendWq.view.freed + cq.sendWq.host.Length
    modifies cq.sendWq, cq.sendWq.host, cq.sendWq.wrid, dpu`log, dpu`head, dpu`ownFlag, dpu`taken, dpu.mem
    modifies dcq, dcq.mem, cq`log, cq.mem, cq`head, cq`ownFlag, cq`polled, cq.recvWq`tail, cq.recvWq`view
    ensures Ready(cq, dpu, dcq)
    ensures wc.opcode == (if op == Send then WcSend else WcRdmaWrite) && wc.byteLen == byteCount
    ensures cq.sendWq.host.Length <= 0x1_0000 ==> wc.wrId == id
    ensures cq.sendWq.view.freed == cq.sendWq.view.start == old(cq.sendWq.view.start) + 1
  {
    hide HandOff.Inv, Image, Slot, Flag, PendingOk, HostQueue.Matches, InOrder, U32, TrueIndex, RingSize, Mirrors;
    ghost var k := cq.sendWq.view.start;
    ghost var before := cq.Positions();
    QueueRoom(cq.sendWq);
    var curPos := Submit(cq.sendWq, dpu, request, id);
    InOrderMore(before, cq.log[cq.polled..], |cq.sendWq.view.taken|, before.recvTaken);
    QueueRoom(cq.sendWq);
    TrueIndexIs(cq.sendWq.view.freed, k);
    wc := Report(dcq, cq, SendDone(op, byteCount, curPos));
  }

  lemma QueueRoom<W>(q: HostQueue<W>)
    requires q.Valid()
    ensures q.view.freed <= q.view.start <= q.view.freed + q.host.Length && q.host.Length <= 0x8000_0000
  {
    hide HandOff.Inv;
    InvLengths(q.view);
  }
}
