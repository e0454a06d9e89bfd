/** The host's ends of the rings as the objects that lib/smartns_dv.cpp updates in place. */
module HostQueues {
  import opened Options
  import opened Messages
  import opened RingIndex
  import opened Rings
  import opened HandOff
  import opened Counters
  import opened DpuRings

  /** A work request in the ring. Only send entries carry their position; it is cur_pos. */
  datatype Entry<W> = Entry(request: W, curPos: nat)

  function Entries<W>(requests: seq<W>, start: nat): (es: seq<Entry<W>>)
    ensures |es| == |requests|
  {
    seq(|requests|, i requires 0 <= i < |requests| => Entry(requests[i], U32(start + i)))
  }

  /** smartns_send_wq and smartns_recv_wq with their smartns_dma_wq. */
  class HostQueue<W> {
    const host: array<Cell<Entry<W>>>
    const wrid: array<nat>
    const batch: nat
    var head: nat
    var tail: nat
    var ownFlag: bool
    var startIndex: nat
    var dmaIndex: nat
    var requests: seq<nat>
    ghost var view: Ring<Entry<W>>
    ghost var ids: seq<nat>

    /** Everything but the two 32-bit counters, which a call updates at its end. */
    ghost predicate Matches()
      reads this, host, wrid
    {
      && RingSize(host.Length) && host.Length == wrid.Length == view.n
      && HandOff.Inv(view) && batch == view.batch
      && host[..] == view.host && ownFlag == view.hostFlag
      && startIndex == view.start && dmaIndex == view.dma && requests == view.pending
      && |ids| == view.start && Mirrors(wrid[..], ids, view.freed)
    }

    ghost predicate Valid()
      reads this, host, wrid
    {
      Matches() && head == U32(view.start) && tail == U32(view.freed)
    }

    constructor (n: nat, batch: nat, blank: W)
      requires RingSize(n) && BatchFits(n, batch)
      ensures Valid() && view == HandOff.Create(n, batch, Entry(blank, 0)) && ids == []
      ensures fresh(host) && fresh(wrid)
    {
      host := new Cell<Entry<W>>[n](_ => Cell(false, Entry(blank, 0)));
      wrid := new nat[n](_ => 0);
      this.batch := batch;
      head, tail, ownFlag := 0, 0, true;
      startIndex, dmaIndex, requests := 0, 0, [];
      view := HandOff.Create(n, batch, Entry(blank, 0));
      ids := [];
      new;
      CreateInv(n, batch, Entry(blank, 0));
      assert host[..] == view.host;
    }

    /** flush_dma_req */
    method FlushDmaReq()
      requires host.Length > 0
      modifies this`dmaIndex, this`requests
      ensures dmaIndex >= old(dmaIndex)
      ensures dmaIndex == if startIndex > old(dmaIndex) && startIndex - old(dmaIndex) >= batch then startIndex
          else old(dmaIndex)
      ensures requests == if dmaIndex == old(dmaIndex) then old(requests)
        else old(requests) + RequestCells(Slot(old(dmaIndex), host.Length), dmaIndex - old(dmaIndex))
    {
      if startIndex > dmaIndex && startIndex - dmaIndex >= batch {
        requests := requests + RequestCells(dmaIndex % host.Length, startIndex - dmaIndex);
        dmaIndex := startIndex;
      }
    }

    /** The steps of the ring position and of the DMA queue after an entry is written. */
    method StepRing(ind: nat) returns (next: nat)
      requires ind < host.Length && startIndex < dmaIndex + batch && dmaIndex <= startIndex
      modifies this`ownFlag, this`startIndex, this`dmaIndex, this`requests
      ensures next == Next(ind, host.Length) && ownFlag == if ind + 1 == host.Length then !old(ownFlag)
          else old(ownFlag)
      ensures startIndex == old(startIndex) + 1
      ensures if startIndex >= old(dmaIndex) + batch
        then dmaIndex == startIndex
             && requests == old(requests) + RequestCells(Slot(old(dmaIndex), host.Length), startIndex - old(dmaIndex))
        else dmaIndex == old(dmaIndex) && requests == old(requests)
    {
      hide Slot;
      next := ind + 1;
      startIndex := startIndex + 1;
      if startIndex >= dmaIndex + batch {
        FlushDmaReq();
      }
      if next == host.Length {
        FlushDmaReq();
        next := 0;
        ownFlag := !ownFlag;
      }
    }

    method WriteEntry(ind: nat, x: Entry<W>, id: nat)
      requires ind < host.Length == wrid.Length
      modifies host, wrid
      ensures host[..] == old(host[..])[ind := Cell(ownFlag, x)]
      ensures wrid[..] == old(wrid[..])[ind := id]
    {
      host[ind] := Cell(ownFlag, x);
      wrid[ind] := id;
    }

    /** One iteration of the loop of a post call. */
    method PostOne(ind: nat, request: W, id: nat, curPos: nat) returns (next: nat)
      requires Matches() && view.start - view.freed < view.n && ind == view.hostSlot
      modifies this`ownFlag, this`startIndex, this`dmaIndex, this`requests, this`view, this`ids, host, wrid
      ensures Matches() && view == HandOff.PostOne(old(view), Entry(request, curPos)) && ids == old(ids) + [id]
      ensures next == view.hostSlot
    {
      hide Image, Slot, Flag, PendingOk, Mirrors, U32, HandOff.Inv, HandOff.PostOne;
      var x := Entry(request, curPos);
      InvBounds(view);
      PostInv(view, x);
      MirrorsPush(wrid[..], ids, view.freed, id);
      PostedFields(view, x);
      WriteEntry(ind, x, id);
      next := StepRing(ind);
      ids := ids + [id];
      view := HandOff.PostOne(view, x);
    }

    /** smartns_post_send and smartns_post_recv; false is the exit on a full ring. */
    method Post(requests: seq<W>, requestIds: seq<nat>) returns (ok: bool)
      requires Valid() && |requestIds| == |requests|
      modifies this, host, wrid
      ensures ok <==> requests == [] || old(view.start) + |requests| <= old(view.freed) + host.Length
      ensures ok ==>
        && Valid() && ids == old(ids) + requestIds
        && PostLoop(old(view), Entries(requests, old(view.start))) == Some(view)
    {
      hide Image, Slot, Flag, PendingOk, Mirrors, HandOff.PostOne, U32, HandOff.Inv, PostLoop, Entries;
      InvBounds(view);
      ghost var all := Entries(requests, view.start);
      ghost var first := view;
      PostCallIsExact(view, all);
      MaskedSlot(view.start, host.Length);
      var ind := head % host.Length;
      var nreq := 0;
      assert all[nreq..] == all;
      while nreq < |requests|
        invariant nreq <= |requests| && Matches()
        invariant view.start == first.start + nreq && view.freed == first.freed && view.n == first.n
        invariant Shaped(view) && view.freed <= view.start <= view.freed + view.n && view.start < view.dma + view.batch
        invariant head == U32(first.start) && tail == U32(first.freed)
        invariant ind == view.hostSlot
        invariant ids == old(ids) + requestIds[..nreq]
        invariant PostLoop(view, all[nreq..]) == PostLoop(first, all)
      {
        FullExactly(first.start, first.freed, nreq, host.Length);
        if U32(U32(head - tail) + nreq) >= host.Length {
          PostCallIsExact(view, all[nreq..]);
          return false;
        }
        WrapSum(first.start, nreq);
        EntriesFrom(requests, first.start, nreq);
        PostLoopNext(view, all[nreq..]);
        PostedCounts(view, all[nreq]);
        ind := PostOne(ind, requests[nreq], requestIds[nreq], U32(head + nreq));
        InvBounds(view);
        nreq := nreq + 1;
      }
      PostLoopEnd(view, all[nreq..]);
      if nreq > 0 {
        WrapSum(first.start, nreq);
        head := U32(head + nreq);
        FlushDmaReq();
      }
      assert requestIds[..nreq] == requestIds;
      ok := true;
    }

    // ----- The other side of the ring -----

    /** dpu is the DPU's end of this ring. */
    ghost predicate Linked(dpu: DpuRing<Entry<W>>)
      reads this, dpu, dpu.mem
    {
      && dpu.mem != host && dpu.Valid() && dpu.mem.Length == view.n && dpu.mem[..] == view.dpu
      && view.copied <= |view.posted| && dpu.log == view.posted[..view.copied] && dpu.taken == |view.taken|
    }

    /** The DMA engine copies the next cell asked for. */
    method CopyCell(dpu: DpuRing<Entry<W>>)
      requires Valid() && Linked(dpu) && requests != []
      modifies this`requests, this`view, dpu`log, dpu.mem
      ensures Valid() && Linked(dpu) && view == HandOff.Copy(old(view))
    {
      hide Image, Slot, Flag, PendingOk, Mirrors, U32, HandOff.Inv, RingSize, DpuRing.Valid;
      InvBounds(view);
      CopyInv(view);
      CopiedCell(view);
      var slot := requests[0];
      requests := requests[1..];
      dpu.Arrive(slot, host[slot]);
      view := HandOff.Copy(view);
    }

    /** The DPU looks for the next entry and takes it. */
    method Consume(dpu: DpuRing<Entry<W>>) returns (entry: Option<Entry<W>>)
      requires Valid() && Linked(dpu)
      modifies this`view, dpu`head, dpu`ownFlag, dpu`taken
      ensures Valid() && Linked(dpu) && (view, entry) == HandOff.Poll(old(view))
    {
      hide Image, Slot, Flag, PendingOk, Mirrors, U32, HandOff.Inv, RingSize, DpuRing.Valid;
      InvBounds(view);
      PollIsExact(view);
      TakenBounds(view);
      entry := dpu.GetNextWqe();
      if entry.Some? {
        dpu.StepWq();
      }
      view := HandOff.Poll(view).0;
    }

    /** The MLX5_CQE_REQ case of smartns_poll_cq for an outstanding request: the tail moves past it
        without reaching the exit, and what the 16-bit index finds, in a ring of at most 65536 entries
        the wr_id it was posted with, is reported. */
    method CompleteSend(counter: nat) returns (id: nat)
      requires Valid() && counter < 0x1_0000_0000 && TrueIndex(view.freed, counter) < |view.taken|
      modifies this`tail, this`view
      ensures Valid() && view == old(view).(freed := TrueIndex(old(view.freed), counter) + 1)
      ensures TrueIndex(old(view.freed), counter) < |ids|
      ensures host.Length <= 0x1_0000 ==> id == ids[TrueIndex(old(view.freed), counter)]
    {
      hide Image, Flag, PendingOk, Mirrors, HandOff.Inv, U32, TailUpdate, Slot, TrueIndex, WridSlot, RingSize;
      ghost var k := TrueIndex(view.freed, counter);
      Freed(view, k + 1);
      OutstandingSend(view.freed, counter, host.Length);
      MirrorsAt(wrid[..], ids, view.freed, k);
      MirrorsDrop(wrid[..], ids, view.freed, k + 1);
      id := wrid[WridSlot(counter, host.Length)];
      var update := TailUpdate(tail, counter, host.Length);
      tail := update.value;
      view := view.(freed := k + 1);
    }

    /** The MLX5_CQE_RESP_SEND case: the counter is the ring slot of the oldest outstanding entry. */
    method CompleteRecv(slot: nat) returns (id: nat)
      requires Valid() && view.freed < |view.taken| && slot == Slot(view.freed, host.Length)
      modifies this`tail, this`view
      ensures Valid() && view == old(view).(freed := old(view.freed) + 1)
      ensures old(view.freed) < |ids| && (host.Length <= 0x1_0000 ==> id == ids[old(view.freed)])
    {
      hide Image, Flag, PendingOk, Mirrors, HandOff.Inv, U32, Slot, WridSlot, RingSize;
      Freed(view, view.freed + 1);
      OutstandingRecv(view.freed, host.Length);
      MirrorsAt(wrid[..], ids, view.freed, view.freed);
      MirrorsDrop(wrid[..], ids, view.freed, view.freed + 1);
      id := wrid[WridSlot(slot, host.Length)];
      tail := U32(tail + 1);
      view := view.(freed := view.freed + 1);
    }
  }

  /** The cell copied next, and what the copy changes. */
  lemma CopiedCell<T>(r: Ring<T>)
    requires HandOff.Inv(r) && r.pending != []
    ensures var s := r.pending[0];
      && s < r.n && s == Slot(r.copied, r.n) && r.copied < |r.posted| && r.copied < |r.taken| + r.n
      && r.host[s] == Cell(Flag(r.copied, r.n), r.posted[r.copied])
      && HandOff.Copy(r) == r.(pending := r.pending[1..], copied := r.copied + 1, dpu := r.dpu[s := r.host[s]])
      && r.posted[..r.copied] + [r.posted[r.copied]] == r.posted[..r.copied + 1]
  {
    hide Image, Flag, Slot;
    assert r.pending[0] == Slot(r.copied + 0, r.n);
    ImageAt(r.host, r.posted, r.copied);
  }

  lemma TakenBounds<T>(r: Ring<T>)
    requires HandOff.Inv(r)
    ensures |r.taken| <= r.copied <= |r.posted|
    ensures var (r', entry) := HandOff.Poll(r);
      if entry.Some? then
        r' == r.(taken := r.taken + [entry.value], dpuSlot := r'.dpuSlot, dpuFlag := r'.dpuFlag)
      else r' == r
  {
    hide Image, Flag, Slot, PendingOk;
  }

  lemma OutstandingSend(freed: nat, counter: nat, n: nat)
    requires RingSize(n) && counter < 0x1_0000_0000 && TrueIndex(freed, counter) < freed + n
    ensures WridSlot(counter, n) < n && (n <= 0x1_0000 ==> WridSlot(counter, n) == Slot(TrueIndex(freed, counter), n))
    ensures TailUpdate(U32(freed), counter, n) == Some(U32(TrueIndex(freed, counter) + 1))
  {
    hide U32, TailUpdate, TrueIndex, WridSlot;
    var k := TrueIndex(freed, counter);
    TrueIndexCounter(freed, counter);
    MaskedSlot(k, n);
    TailUpdateIsRight(freed, k, n);
    WridSlotWithin(counter, n);
  }

  lemma OutstandingRecv(freed: nat, n: nat)
    requires RingSize(n)
    ensures WridSlot(Slot(freed, n), n) < n && (n <= 0x1_0000 ==> WridSlot(Slot(freed, n), n) == Slot(freed, n))
    ensures U32(U32(freed) + 1) == U32(freed + 1)
  {
    hide U32, WridSlot;
    WridSlotWithin(Slot(freed, n), n);
    LapIs(Slot(freed, n), n, 0, Slot(freed, n));
    U32Next(freed);
    hide Slot;
  }

  lemma EntriesFrom<W>(requests: seq<W>, start: nat, k: nat)
    requires k < |requests|
    ensures var all := Entries(requests, start);
      && all[k..] != [] && all[k..][0] == all[k] == Entry(requests[k], U32(start + k))
      && all[k..][1..] == all[k + 1..]
  {
    hide U32;
  }

  lemma PostLoopNext<T>(r: Ring<T>, xs: seq<T>)
    requires Shaped(r) && xs != [] && r.start - r.freed < r.n
    ensures PostLoop(r, xs) == PostLoop(HandOff.PostOne(r, xs[0]), xs[1..])
  {
    hide HandOff.PostOne;
  }

  lemma PostLoopEnd<T>(r: Ring<T>, xs: seq<T>)
    requires Shaped(r) && xs == []
    ensures PostLoop(r, xs) == Some(r)
  {
    hide HandOff.PostOne;
  }

  lemma Freed<T>(r: Ring<T>, k: nat)
    requires HandOff.Inv(r) && r.freed <= k <= |r.taken|
    ensures HandOff.Inv(r.(freed := k)) && k <= r.start <= r.freed + r.n
  {
    hide Image, Slot, Flag, PendingOk;
  }

  /** The test for a full ring, on wrapped counters, is exact. */
  lemma FullExactly(start: nat, freed: nat, nreq: nat, n: nat)
    requires freed <= start && start + nreq <= freed + n && n <= 0x8000_0000
    ensures U32(U32(U32(start) - U32(freed)) + nreq) == start - freed + nreq
  {
    hide U32;
    Occupancy(start, freed);
    SmallStays(start - freed + nreq);
  }

  lemma SmallStays(k: nat)
    requires k < 0x1_0000_0000
    ensures U32(k) == k
  {
  }

  lemma PostedCounts<T>(r: Ring<T>, x: T)
    requires HandOff.Inv(r) && r.start - r.freed < r.n
    ensures var r' := HandOff.PostOne(r, x);
      Shaped(r') && r'.start == r.start + 1 && r'.freed == r.freed && r'.n == r.n && r'.batch == r.batch
  {
    hide Image, Slot, Flag, PendingOk;
    PostedFields(r, x);
  }

  lemma WrapSum(start: nat, nreq: nat)
    ensures U32(U32(start) + nreq) == U32(start + nreq)
  {
    assert start == start / 0x1_0000_0000 * 0x1_0000_0000 + U32(start);
  }

  // ----- Completions -----

  /** A completion entry, and the ibv_wc made from it. */
  datatype Cqe = SendDone(op: WrOpcode, byteCount: nat, counter: nat) | RecvDone(byteCount: nat, slot: nat)
  datatype WcOpcode = WcSend | WcRdmaWrite | WcRecv
  datatype Wc = Wc(opcode: WcOpcode, byteLen: nat, wrId: nat)

  /** The positions up to which requests are completed, and those up to which they may be. */
  datatype Ends = Ends(sendFreed: nat, sendTaken: nat, sendCnt: nat, recvFreed: nat, recvTaken: nat, recvCnt: nat)

  /** Completions are of outstanding requests: sends at or after the tail, receives one by one. */
  predicate Completable(e: Ends, c: Cqe) {
    match c
    case SendDone(_, _, counter) => counter < 0x1_0000_0000 && TrueIndex(e.sendFreed, counter) < e.sendTaken
    case RecvDone(_, slot) => e.recvCnt > 0 && e.recvFreed < e.recvTaken && slot == Slot(e.recvFreed, e.recvCnt)
  }

  function After(e: Ends, c: Cqe): Ends {
    match c
    case SendDone(_, _, counter) => e.(sendFreed := TrueIndex(e.sendFreed, counter) + 1)
    case RecvDone(_, _) => e.(recvFreed := e.recvFreed + 1)
  }

  predicate InOrder(e: Ends, cqes: seq<Cqe>)
    decreases |cqes|
  {
    cqes == [] || (Completable(e, cqes[0]) && InOrder(After(e, cqes[0]), cqes[1..]))
  }

  function EndsAfter(e: Ends, cqes: seq<Cqe>): Ends
    decreases |cqes|
  {
    if cqes == [] then e else EndsAfter(After(e, cqes[0]), cqes[1..])
  }

  /** The completion reported for c carries the wr_id its request was posted with, in a ring of at most
      65536 entries. */
  predicate Reports(wc: Wc, e: Ends, c: Cqe, sendIds: seq<nat>, recvIds: seq<nat>) {
    match c
    case SendDone(op, byteCount, counter) =>
      && TrueIndex(e.sendFreed, counter) < |sendIds|
      && wc.opcode == (if op == Send then WcSend else WcRdmaWrite) && wc.byteLen == byteCount
      && (e.sendCnt <= 0x1_0000 ==> wc.wrId == sendIds[TrueIndex(e.sendFreed, counter)])
    case RecvDone(byteCount, _) =>
      && e.recvFreed < |recvIds|
      && wc.opcode == WcRecv && wc.byteLen == byteCount
      && (e.recvCnt <= 0x1_0000 ==> wc.wrId == recvIds[e.recvFreed])
  }

  predicate ReportsAll(wcs: seq<Wc>, e: Ends, cqes: seq<Cqe>, sendIds: seq<nat>, recvIds: seq<nat>)
    decreases |cqes|
  {
    && |wcs| == |cqes|
    && (cqes != [] ==>
          && Reports(wcs[0], e, cqes[0], sendIds, recvIds)
          && ReportsAll(wcs[1..], After(e, cqes[0]), cqes[1..], sendIds, recvIds))
  }

  lemma {:induction false} ReportsNext(wcs: seq<Wc>, wc: Wc, e: Ends, cqes: seq<Cqe>, c: Cqe, sendIds: seq<nat>,
      recvIds: seq<nat>)
    requires ReportsAll(wcs, e, cqes, sendIds, recvIds)
    requires Reports(wc, EndsAfter(e, cqes), c, sendIds, recvIds)
    ensures ReportsAll(wcs + [wc], e, cqes + [c], sendIds, recvIds)
    ensures EndsAfter(e, cqes + [c]) == After(EndsAfter(e, cqes), c)
    decreases |cqes|
  {
    hide Reports, After;
    if cqes != [] {
      ReportsNext(wcs[1..], wc, After(e, cqes[0]), cqes[1..], c, sendIds, recvIds);
      assert (cqes + [c])[1..] == cqes[1..] + [c];
      assert (wcs + [wc])[1..] == wcs[1..] + [wc];
    }
  }

  lemma ReportsNone(e: Ends, cqes: seq<Cqe>, sendIds: seq<nat>, recvIds: seq<nat>)
    requires cqes == []
    ensures ReportsAll([], e, cqes, sendIds, recvIds) && EndsAfter(e, cqes) == e
  {
  }

  /** The entry at `to` is the first of the rest, and goes behind those before it. */
  lemma NextOf<T>(log: seq<T>, from: nat, to: nat)
    requires from <= to < |log|
    ensures log[to..] != [] && log[to..][0] == log[to] && log[to..][1..] == log[to + 1..]
    ensures log[from..to] + [log[to]] == log[from..to + 1]
  {
  }

  lemma InOrderNext(e: Ends, cqes: seq<Cqe>)
    requires InOrder(e, cqes) && cqes != []
    ensures Completable(e, cqes[0]) && InOrder(After(e, cqes[0]), cqes[1..])
  {
  }

  lemma {:induction false} InOrderGrows(e: Ends, cqes: seq<Cqe>, c: Cqe)
    requires InOrder(e, cqes) && Completable(EndsAfter(e, cqes), c)
    ensures InOrder(e, cqes + [c]) && EndsAfter(e, cqes + [c]) == After(EndsAfter(e, cqes), c)
    decreases |cqes|
  {
    hide Completable, After;
    if cqes == [] {
      assert cqes + [c] == [c] && [c][1..] == [];
    } else {
      InOrderGrows(After(e, cqes[0]), cqes[1..], c);
      assert (cqes + [c])[1..] == cqes[1..] + [c];
    }
  }

  /** More requests handed over do not disturb the completions outstanding. */
  lemma {:induction false} InOrderMore(e: Ends, cqes: seq<Cqe>, sendTaken: nat, recvTaken: nat)
    requires InOrder(e, cqes) && e.sendTaken <= sendTaken && e.recvTaken <= recvTaken
    ensures InOrder(e.(sendTaken := sendTaken, recvTaken := recvTaken), cqes)
    ensures EndsAfter(e.(sendTaken := sendTaken, recvTaken := recvTaken), cqes)
         == EndsAfter(e, cqes).(sendTaken := sendTaken, recvTaken := recvTaken)
    decreases |cqes|
  {
    hide TrueIndex, Slot;
    if cqes != [] {
      InOrderMore(After(e, cqes[0]), cqes[1..], sendTaken, recvTaken);
    }
  }

  /** Completions move where the ring is free from, and nothing else in it. */
  predicate OnlyFreed<T(==)>(r: Ring<T>, r': Ring<T>) { r' == r.(freed := r'.freed) }

  /** Two queues share no memory. */
  ghost predicate Apart<S, R>(q: HostQueue<S>, r: HostQueue<R>) {
    && (q as object) != (r as object) && (q.host as object) != (r.host as object)
    && (q.wrid as object) != (r.wrid as object)
  }

  /** smartns_cq, with the queues of the queue pair whose completions it holds. log is what the other
      side has written to it, and polled how much of that has been reported. */
  class HostCq<S, R> {
    const mem: array<Cell<Cqe>>
    const sendWq: HostQueue<S>
    const recvWq: HostQueue<R>
    var head: nat
    var ownFlag: bool
    ghost var log: seq<Cqe>
    ghost var polled: nat

    ghost function Positions(): Ends
      reads this, sendWq, recvWq
    {
      Ends(sendWq.view.freed, |sendWq.view.taken|, sendWq.host.Length, recvWq.view.freed, |recvWq.view.taken|,
          recvWq.host.Length)
    }

    /** At most a whole ring is unreported. */
    ghost predicate CqValid()
      reads this, mem
    {
      && RingSize(mem.Length) && Image(mem[..], log)
      && polled <= |log| <= polled + mem.Length
      && head == U32(polled) && ownFlag == Flag(polled, mem.Length)
    }

    ghost predicate Valid()
      reads this, mem, sendWq, sendWq.host, sendWq.wrid, recvWq, recvWq.host, recvWq.wrid
    {
      && CqValid() && sendWq.Valid() && recvWq.Valid()
      && Apart(sendWq, recvWq)
      && InOrder(Positions(), log[polled..])
    }

    constructor (n: nat, sendWq: HostQueue<S>, recvWq: HostQueue<R>)
      requires RingSize(n) && sendWq.Valid() && recvWq.Valid() && Apart(sendWq, recvWq)
      ensures Valid() && log == [] && polled == 0 && fresh(mem)
      ensures this.sendWq == sendWq && this.recvWq == recvWq
    {
      hide Image, HandOff.Inv, Mirrors, Slot, HostQueue.Matches, HostQueue.Valid;
      mem := new Cell<Cqe>[n](_ => Cell(false, RecvDone(0, 0)));
      this.sendWq, this.recvWq := sendWq, recvWq;
      head, ownFlag := 0, true;
      log, polled := [], 0;
      new;
      ImageInit(mem[..]);
    }

    /** The entry under the head, if the other side has written it. */
    method NextCqe() returns (cell: Option<Cqe>)
      requires CqValid()
      ensures cell == if polled < |log| then Some(log[polled]) else None
    {
      hide Image, Flag, Slot, U32;
      MaskedSlot(polled, mem.Length);
      Handshake(mem[..], log, polled);
      var c := mem[head % mem.Length];
      cell := if c.own == ownFlag then Some(c.value) else None;
    }

    /** The head steps to the next entry; the flag flips where head % wqe_cnt is zero. */
    method StepHead()
      requires CqValid() && polled < |log|
      modifies this`head, this`ownFlag, this`polled
      ensures CqValid() && polled == old(polled) + 1
    {
      hide Image, Flag, Slot, U32;
      NextFlag(polled, mem.Length);
      SlotNext(polled, mem.Length);
      U32Next(polled);
      MaskedSlot(polled + 1, mem.Length);
      head := U32(head + 1);
      if head % mem.Length == 0 {
        ownFlag := !ownFlag;
      }
      polled := polled + 1;
    }

    /** The DMA engine copies a cell of the DPU's ring: the next entry, for a request handed over and not
        completed by an earlier one. */
    method Arrive(slot: nat, cell: Cell<Cqe>)
      requires Valid() && |log| < polled + mem.Length
      requires mem.Length > 0 && slot == Slot(|log|, mem.Length) && cell.own == Flag(|log|, mem.Length)
      requires Completable(EndsAfter(Positions(), log[polled..]), cell.value)
      modifies this`log, mem
      ensures Valid() && log == old(log) + [cell.value] && mem[..] == old(mem[..])[slot := cell]
    {
      hide Image, Flag, Slot, InOrder, EndsAfter, Completable, HandOff.Inv, Mirrors, HostQueue.Matches, HostQueue.Valid;
      InOrderGrows(Positions(), log[polled..], cell.value);
      ImageWrite(mem[..], log, cell.value);
      ghost var cells := mem[..];
      mem[slot] := cell;
      assert mem[..] == cells[slot := cell];
      assert (log + [cell.value])[polled..] == log[polled..] + [cell.value];
      log := log + [cell.value];
    }

    /** One completion: the wr_id it reports and the step of the tail. */
    method Complete(c: Cqe) returns (wc: Wc)
      requires sendWq.Valid() && recvWq.Valid() && (sendWq as object) != (recvWq as object)
      requires Completable(Positions(), c)
      modifies sendWq`tail, sendWq`view, recvWq`tail, recvWq`view
      ensures sendWq.Valid() && recvWq.Valid()
      ensures Positions() == After(old(Positions()), c)
      ensures OnlyFreed(old(sendWq.view), sendWq.view) && OnlyFreed(old(recvWq.view), recvWq.view)
      ensures Reports(wc, old(Positions()), c, sendWq.ids, recvWq.ids)
    {
      hide HandOff.Inv, Mirrors, U32, TrueIndex, Slot;
      match c {
        case SendDone(op, byteCount, counter) =>
          var id := sendWq.CompleteSend(counter);
          wc := Wc(if op == Send then WcSend else WcRdmaWrite, byteCount, id);
        case RecvDone(byteCount, slot) =>
          var id := recvWq.CompleteRecv(slot);
          wc := Wc(WcRecv, byteCount, id);
      }
    }

    /** smartns_poll_cq: reports every entry that has arrived, up to the number asked for, once and in
        order, each with the wr_id its request was posted with. */
    method Poll(numEntries: nat) returns (wcs: seq<Wc>)
      requires Valid()
      modifies this`head, this`ownFlag, this`polled, sendWq`tail, sendWq`view, recvWq`tail, recvWq`view
      ensures Valid()
      ensures |wcs| == if numEntries < |log| - old(polled) then numEntries else |log| - old(polled)
      ensures polled == old(polled) + |wcs|
      ensures ReportsAll(wcs, old(Positions()), log[old(polled)..polled], sendWq.ids, recvWq.ids)
      ensures Positions() == EndsAfter(old(Positions()), log[old(polled)..polled])
      ensures OnlyFreed(old(sendWq.view), sendWq.view) && OnlyFreed(old(recvWq.view), recvWq.view)
    {
      hide Image, Flag, Slot, U32, Completable, After, Reports, ReportsAll, InOrder, EndsAfter, HandOff.Inv,
           Mirrors, RingSize, HostQueue.Matches, HostQueue.Valid;
      wcs := [];
      ReportsNone(Positions(), log[polled..polled], sendWq.ids, recvWq.ids);
      while |wcs| < numEntries
        invariant Valid() && |wcs| <= numEntries && polled == old(polled) + |wcs|
        invariant ReportsAll(wcs, old(Positions()), log[old(polled)..polled], sendWq.ids, recvWq.ids)
        invariant Positions() == EndsAfter(old(Positions()), log[old(polled)..polled])
        invariant OnlyFreed(old(sendWq.view), sendWq.view) && OnlyFreed(old(recvWq.view), recvWq.view)
      {
        var cqe := NextCqe();
        if cqe == None {
          break;
        }
        NextOf(log, old(polled), polled);
        InOrderNext(Positions(), log[polled..]);
        var wc := Complete(cqe.value);
        ReportsNext(wcs, wc, old(Positions()), log[old(polled)..polled], cqe.value, sendWq.ids, recvWq.ids);
        StepHead();
        wcs := wcs + [wc];
      }
    }
  }
}
