/** The hand-off of entries through a ring: the producer's post loop and batched DMA requests
    (lib/smartns_dv.cpp, lib/smartns_dv.h), the DMA engine, and the consumer's polls
    (include/smartns.h), interleaved in any order. */
module HandOff {
  import opened Options
  import opened Division
  import opened RingIndex
  import opened Rings

  /** start and dma are start_index and dma_index; pending lists the cells of the issued DMA requests
      that the engine has still to copy; freed is where completions have moved the producer's tail.
      posted, copied and taken are history; outside says that a request left the ring. */
  datatype Ring<T> = Ring(
    n: nat, batch: nat,
    host: seq<Cell<T>>, hostSlot: nat, hostFlag: bool,
    start: nat, dma: nat, pending: seq<nat>, freed: nat,
    dpu: seq<Cell<T>>, dpuSlot: nat, dpuFlag: bool,
    posted: seq<T>, copied: nat, taken: seq<T>, outside: bool)

  function Create<T>(n: nat, batch: nat, blank: T): Ring<T> {
    var cells := seq(n, _ => Cell(false, blank));
    Ring(n, batch, cells, 0, true, 0, 0, [], 0, cells, 0, true, [], 0, [], false)
  }

  function RequestCells(offset: nat, count: nat): (cells: seq<nat>)
    ensures |cells| == count && forall i | 0 <= i < count :: cells[i] == offset + i
  {
    seq(count, i requires 0 <= i < count => offset + i)
  }

  /** flush_dma_req: one request, for the cells from dma_index on. */
  function Flush<T>(r: Ring<T>): Ring<T>
    requires r.n > 0
  {
    if r.start > r.dma && r.start - r.dma >= r.batch then
      r.(pending := r.pending + RequestCells(Slot(r.dma, r.n), r.start - r.dma), dma := r.start)
    else r
  }

  /** step_dma_req */
  function StepDma<T>(r: Ring<T>): Ring<T>
    requires r.n > 0
  {
    var r' := r.(start := r.start + 1);
    if r'.start >= r'.dma + r'.batch then Flush(r') else r'
  }

  predicate Shaped<T>(r: Ring<T>) {
    |r.host| == |r.dpu| == r.n && r.hostSlot < r.n && r.dpuSlot < r.n
  }

  predicate SameSize<T>(r: Ring<T>, r': Ring<T>) { r'.n == r.n && r'.batch == r.batch }

  /** One iteration of the post loop, past the test for a full ring. */
  function PostOne<T>(r: Ring<T>, x: T): (r': Ring<T>)
    requires Shaped(r)
    ensures Shaped(r') && SameSize(r, r')
  {
    var r1 := StepDma(r.(host := r.host[r.hostSlot := Cell(r.hostFlag, x)], posted := r.posted + [x]));
    if r.hostSlot + 1 == r.n then Flush(r1).(hostSlot := 0, hostFlag := !r.hostFlag)
    else r1.(hostSlot := r.hostSlot + 1)
  }

  /** The loop of a post call; None when it finds the ring full and exits. */
  function PostLoop<T>(r: Ring<T>, xs: seq<T>): (r': Option<Ring<T>>)
    requires Shaped(r)
    decreases |xs|
  {
    if xs == [] then Some(r)
    else if r.start - r.freed >= r.n then None
    else PostLoop(PostOne(r, xs[0]), xs[1..])
  }

  /** The DMA engine copies one cell. */
  function Copy<T>(r: Ring<T>): (r': Ring<T>)
    requires Shaped(r) && r.pending != []
    ensures Shaped(r') && SameSize(r, r')
  {
    var s := r.pending[0];
    var r' := r.(pending := r.pending[1..], copied := r.copied + 1);
    if s < r.n then r'.(dpu := r.dpu[s := r.host[s]]) else r'.(outside := true)
  }

  /** get_next_wqe followed, when there is an entry, by step_wq. */
  function Poll<T>(r: Ring<T>): (p: (Ring<T>, Option<T>))
    requires Shaped(r)
    ensures Shaped(p.0) && SameSize(r, p.0)
  {
    var cell := r.dpu[r.dpuSlot];
    if cell.own != r.dpuFlag then (r, None)
    else (r.(taken := r.taken + [cell.value], dpuSlot := Next(r.dpuSlot, r.n),
             dpuFlag := if r.dpuSlot + 1 == r.n then !r.dpuFlag else r.dpuFlag),
          Some(cell.value))
  }

  // ----- Interleavings -----

  datatype Event<T> = PostEvent(x: T) | CopyEvent | PollEvent | FreeEvent(upTo: nat)

  /** The producer posts only into a ring that is not full, and entries are freed once taken. */
  predicate Enabled<T>(r: Ring<T>, e: Event<T>) {
    match e
    case PostEvent(_) => r.start - r.freed < r.n
    case CopyEvent => r.pending != []
    case PollEvent => true
    case FreeEvent(k) => r.freed <= k <= |r.taken|
  }

  function Apply<T>(r: Ring<T>, e: Event<T>): (r': Ring<T>)
    requires Shaped(r) && Enabled(r, e)
    ensures Shaped(r') && SameSize(r, r')
  {
    match e
    case PostEvent(x) => PostOne(r, x)
    case CopyEvent => Copy(r)
    case PollEvent => Poll(r).0
    case FreeEvent(k) => r.(freed := k)
  }

  predicate Legal<T>(r: Ring<T>, events: seq<Event<T>>)
    requires Shaped(r)
    decreases |events|
  {
    events == [] || (Enabled(r, events[0]) && Legal(Apply(r, events[0]), events[1..]))
  }

  function Run<T>(r: Ring<T>, events: seq<Event<T>>): (r': Ring<T>)
    requires Shaped(r) && Legal(r, events)
    ensures Shaped(r')
    decreases |events|
  {
    if events == [] then r else Run(Apply(r, events[0]), events[1..])
  }

  /** The entries posted by a run. */
  function Posts<T>(events: seq<Event<T>>): seq<T>
    decreases |events|
  {
    if events == [] then []
    else PostsOf(events[0]) + Posts(events[1..])
  }

  function PostsOf<T>(e: Event<T>): seq<T> { if e.PostEvent? then [e.x] else [] }

  // ----- What every step keeps -----

  predicate PendingOk(pending: seq<nat>, copied: nat, dma: nat, n: nat) {
    && n > 0 && |pending| == dma - copied
    && forall i | 0 <= i < |pending| :: pending[i] == Slot(copied + i, n)
  }

  /** Batches divide the ring, or are never completed. */
  predicate BatchFits(n: nat, batch: nat) { batch > 0 && (n % batch == 0 || n < batch) }

  predicate Positions<T>(r: Ring<T>) {
    && r.n > 0 && BatchFits(r.n, r.batch)
    && r.freed <= |r.taken| <= r.copied <= r.dma <= r.start == |r.posted| <= r.freed + r.n
    && r.start - r.dma < r.batch && r.dma % r.batch == 0
    && r.hostSlot == Slot(r.start, r.n) && r.hostFlag == Flag(r.start, r.n)
    && r.dpuSlot == Slot(|r.taken|, r.n) && r.dpuFlag == Flag(|r.taken|, r.n)
    && !r.outside
  }

  ghost predicate Inv<T>(r: Ring<T>) {
    && Shaped(r) && Positions(r)
    && PendingOk(r.pending, r.copied, r.dma, r.n)
    && Image(r.host, r.posted)
    && Image(r.dpu, r.posted[..r.copied])
    && r.taken == r.posted[..|r.taken|]
  }

  lemma CreateInv<T>(n: nat, batch: nat, blank: T)
    requires n > 0 && BatchFits(n, batch)
    ensures Inv(Create(n, batch, blank))
  {
    hide Image;
    var r := Create(n, batch, blank);
    ImageInit(r.host);
    assert r.posted[..0] == r.posted;
  }

  /** A batch of cells does not run over the end of the ring. */
  lemma BatchInside(dma: nat, n: nat, batch: nat, i: nat)
    requires n > 0 && i < batch && n % batch == 0 && dma % batch == 0
    ensures Slot(dma, n) + batch <= n && Slot(dma + i, n) == Slot(dma, n) + i
  {
    var q := dma / n;
    BatchesLeft(dma, n, batch);
    assert dma + i == q * n + (dma % n + i);
    LapIs(dma + i, n, q, dma % n + i);
  }

  lemma BatchesLeft(dma: nat, n: nat, batch: nat)
    requires n > 0 && batch > 0 && n % batch == 0 && dma % batch == 0
    ensures dma % n + batch <= n
  {
    var a, m, q := dma / batch, n / batch, dma / n;
    var b := a - q * m;
    assert dma % n == b * batch by {
      assert dma == a * batch && n == m * batch && dma == q * n + dma % n;
      assert q * n == q * m * batch;
    }
    if m < b {
      MultipleStep(m, b, batch);
    } else if b < m {
      MultipleStep(b, m, batch);
    }
  }

  /** A flush issues exactly one full batch, whose cells are the next ones and lie inside the ring. */
  lemma FlushPending<T>(r: Ring<T>)
    requires r.n > 0 && BatchFits(r.n, r.batch) && r.dma % r.batch == 0 && r.start <= r.dma + r.n
    requires r.copied <= r.dma <= r.start <= r.dma + r.batch && PendingOk(r.pending, r.copied, r.dma, r.n)
    ensures var r' := Flush(r);
      && PendingOk(r'.pending, r'.copied, r'.dma, r'.n)
      && r' == r.(pending := r'.pending, dma := r'.dma)
      && r'.dma % r.batch == 0
      && r.dma <= r'.dma <= r'.start < r'.dma + r.batch
  {
    hide Slot;
    var r' := Flush(r);
    forall i | 0 <= i < |r'.pending| ensures r'.pending[i] == Slot(r.copied + i, r.n) {
      if i >= |r.pending| {
        var j := i - |r.pending|;
        assert r.copied + i == r.dma + j;
        BatchInside(r.dma, r.n, r.batch, j);
      }
    }
    if r'.dma != r.dma {
      NextBatch(r.dma, r.batch);
    }
  }

  lemma NextBatch(dma: nat, batch: nat)
    requires batch > 0 && dma % batch == 0
    ensures (dma + batch) % batch == 0
  {
    assert dma + batch == (dma / batch + 1) * batch;
    LapIs(dma + batch, batch, dma / batch + 1, 0);
    hide Slot;
  }

  /** The flush at the end of the ring and the one at the end of a call find nothing to do. */
  lemma FlushIsIdle<T>(r: Ring<T>)
    requires r.n > 0 && r.start < r.dma + r.batch
    ensures Flush(r) == r
  {
  }

  /** The ring with the entry written, before any flush. */
  function Written<T>(r: Ring<T>, x: T): Ring<T>
    requires Shaped(r)
  {
    r.(host := r.host[r.hostSlot := Cell(r.hostFlag, x)], posted := r.posted + [x], start := r.start + 1)
  }

  lemma PostFlushesOnce<T>(r: Ring<T>, x: T)
    requires Inv(r) && r.start - r.freed < r.n
    ensures var r0 := Flush(Written(r, x));
      PostOne(r, x) == r0.(hostSlot := Next(r.hostSlot, r.n),
                           hostFlag := if r.hostSlot + 1 == r.n then !r.hostFlag else r.hostFlag)
    ensures Flush(Written(r, x)).posted == r.posted + [x]
  {
    var r0 := Written(r, x);
    FlushPending(r0);
    FlushIsIdle(Flush(r0));
    hide Flush, Image, Slot, Flag, PendingOk;
    if r0.start < r0.dma + r0.batch {
      FlushIsIdle(r0);
    }
  }

  lemma PostInv<T>(r: Ring<T>, x: T)
    requires Inv(r) && r.start - r.freed < r.n
    ensures Inv(PostOne(r, x))
    ensures PostOne(r, x).posted == r.posted + [x] && PostOne(r, x).freed == r.freed && PostOne(r, x).start == r.start
        + 1
  {
    PostFlushesOnce(r, x);
    FlushPending(Written(r, x));
    hide Flush, Image, Slot, Flag, PendingOk, PostOne;
    ImageWrite(r.host, r.posted, x);
    SlotNext(r.start, r.n);
    NextFlag(r.start, r.n);
    assert (r.posted + [x])[..r.copied] == r.posted[..r.copied];
    assert (r.posted + [x])[..|r.taken|] == r.posted[..|r.taken|];
  }

  lemma PostedFields<T>(r: Ring<T>, x: T)
    requires Inv(r) && r.start - r.freed < r.n
    ensures var r' := PostOne(r, x);
      && r.hostSlot < |r.host| && r.batch > 0
      && r'.host == r.host[r.hostSlot := Cell(r.hostFlag, x)]
      && r'.hostSlot == Next(r.hostSlot, r.n)
      && r'.hostFlag == (if r.hostSlot + 1 == r.n then !r.hostFlag else r.hostFlag)
      && r'.start == r.start + 1 && r'.freed == r.freed && r'.n == r.n && r'.batch == r.batch
      && (if r'.start >= r.dma + r.batch
          then r'.dma == r'.start && r'.pending == r.pending + RequestCells(Slot(r.dma, r.n), r'.start - r.dma)
          else r'.dma == r.dma && r'.pending == r.pending)
  {
    hide Image, Slot, Flag, PendingOk;
  }

  lemma InvBounds<T>(r: Ring<T>)
    requires Inv(r)
    ensures Shaped(r) && r.hostSlot == Slot(r.start, r.n) && r.freed <= r.start <= r.freed + r.n && r.dma <= r.start
        && r.start < r.dma + r.batch
  {
  }

  lemma CopyInv<T>(r: Ring<T>)
    requires Inv(r) && r.pending != []
    ensures Inv(Copy(r))
  {
    hide Image, Flag, Slot;
    ImageCopy(r.host, r.dpu, r.posted, r.copied);
    assert r.pending[0] == Slot(r.copied + 0, r.n);
    var r' := Copy(r);
    forall i | 0 <= i < |r'.pending| ensures r'.pending[i] == Slot(r'.copied + i, r.n) {
      assert r.pending[i + 1] == Slot(r.copied + (i + 1), r.n);
    }
  }

  /** A poll finds an entry exactly when one has been copied and not yet taken, and it is the oldest. */
  lemma PollIsExact<T>(r: Ring<T>)
    requires Inv(r)
    ensures Inv(Poll(r).0)
    ensures Poll(r).1 == if |r.taken| < r.copied then Some(r.posted[|r.taken|]) else None
    ensures Poll(r).1.None? ==> Poll(r).0 == r
  {
    hide Image, Flag, Slot, PendingOk;
    Handshake(r.dpu, r.posted[..r.copied], |r.taken|);
    SlotNext(|r.taken|, r.n);
    NextFlag(|r.taken|, r.n);
    if |r.taken| < r.copied {
      assert r.taken + [r.posted[|r.taken|]] == r.posted[..|r.taken| + 1];
    }
  }

  lemma ApplyInv<T>(r: Ring<T>, e: Event<T>)
    requires Inv(r) && Enabled(r, e)
    ensures Inv(Apply(r, e))
  {
    hide Poll, Copy, PostOne, Image, PendingOk;
    match e {
      case PostEvent(x) => PostInv(r, x);
      case CopyEvent => CopyInv(r);
      case PollEvent => PollIsExact(r);
      case FreeEvent(_) =>
    }
  }

  lemma {:induction false} RunInv<T>(r: Ring<T>, events: seq<Event<T>>)
    requires Inv(r) && Legal(r, events)
    ensures Inv(Run(r, events))
    decreases |events|
  {
    hide Positions, PendingOk, Image, Apply, Enabled;
    if events != [] {
      ApplyInv(r, events[0]);
      RunInv(Apply(r, events[0]), events[1..]);
    }
  }

  predicate Fifo<T(==)>(r: Ring<T>, posts: seq<T>) {
    && Shaped(r) && !r.outside
    && |r.taken| <= r.copied <= |posts| <= |r.taken| + r.n
    && r.taken == posts[..|r.taken|]
    && Poll(r).1 == (if |r.taken| < r.copied then Some(posts[|r.taken|]) else None)
    && (r.pending == [] ==> |posts| - r.copied < r.batch)
  }

  /** In every interleaving the consumer takes exactly the posted entries, once and in order; the
      next poll finds the oldest entry not taken as soon as it is copied; no request leaves the ring;
      and fewer than a batch of entries are never asked to be copied. */
  lemma RingIsFifo<T>(n: nat, batch: nat, blank: T, events: seq<Event<T>>)
    requires n > 0 && BatchFits(n, batch)
    requires Legal(Create(n, batch, blank), events)
    ensures Fifo(Run(Create(n, batch, blank), events), Posts(events))
  {
    CreateInv(n, batch, blank);
    hide Inv, Fifo, Run, Legal;
    RunInv(Create(n, batch, blank), events);
    RunPosts(Create(n, batch, blank), events);
    InvIsFifo(Run(Create(n, batch, blank), events));
  }

  lemma InvIsFifo<T>(r: Ring<T>)
    requires Inv(r)
    ensures Fifo(r, r.posted)
  {
    hide Image, Poll, Flag, Slot;
    PollIsExact(r);
  }

  lemma ApplyPosts<T>(r: Ring<T>, e: Event<T>)
    requires Shaped(r) && Enabled(r, e)
    ensures Apply(r, e).posted == r.posted + PostsOf(e)
  {
  }

  lemma {:induction false} RunPosts<T>(r: Ring<T>, events: seq<Event<T>>)
    requires Shaped(r) && Legal(r, events)
    ensures SameSize(r, Run(r, events)) && Run(r, events).posted == r.posted + Posts(events)
    decreases |events|
  {
    hide Apply, Enabled, PostsOf;
    if events != [] {
      ApplyPosts(r, events[0]);
      RunPosts(Apply(r, events[0]), events[1..]);
    }
  }

  // ----- A post call -----

  /** A call succeeds exactly when all its entries fit; it then leaves them posted in order. */
  lemma {:induction false} PostCallIsExact<T>(r: Ring<T>, xs: seq<T>)
    requires Inv(r)
    ensures PostLoop(r, xs).Some? <==> xs == [] || r.start + |xs| <= r.freed + r.n
    ensures PostLoop(r, xs).Some? ==>
      var r' := PostLoop(r, xs).value;
      Inv(r') && r'.posted == r.posted + xs && Flush(r') == r'
    decreases |xs|
  {
    hide PostOne, Image, Slot, Flag, PendingOk, Flush;
    if xs == [] {
      FlushIsIdle(r);
    } else if r.start - r.freed < r.n {
      PostInv(r, xs[0]);
      PostCallIsExact(PostOne(r, xs[0]), xs[1..]);
      assert xs == [xs[0]] + xs[1..];
    }
  }

  // ----- Rings smaller than a batch -----

  predicate Stalled<T>(r: Ring<T>) {
    && r.n < r.batch && r.start <= r.freed + r.n && r.freed == r.dma == 0 && r.pending == [] && r.taken == []
    && (r.n > 0 && Shaped(r) ==> !r.dpu[r.dpuSlot].own && r.dpuFlag)
  }

  /** A ring of fewer cells than a batch never hands anything over: it fills up and stays full. */
  lemma {:induction false} SmallRingStalls<T>(r: Ring<T>, events: seq<Event<T>>)
    requires Shaped(r) && Stalled(r) && Legal(r, events)
    ensures Stalled(Run(r, events))
    decreases |events|
  {
    if events != [] {
      SmallRingStalls(Apply(r, events[0]), events[1..]);
    }
  }

  /** So a receive ring of one or two entries, with batches of four, never reaches the other side. */
  lemma TinyRing<T>(n: nat, batch: nat, blank: T, events: seq<Event<T>>)
    requires 0 < n < batch && Legal(Create(n, batch, blank), events)
    ensures var r := Run(Create(n, batch, blank), events);
      r.taken == [] && r.dma == 0 && Poll(r).1 == None
  {
    hide Run, Legal;
    SmallRingStalls(Create(n, batch, blank), events);
    RunPosts(Create(n, batch, blank), events);
  }
}
