/** custom_allocator (utils/allocator.cpp): first fit with alignment, and coalescing frees. */
module Allocator {
  import opened Options
  import opened Division
  import opened FreeList

  function U64(k: int): (u: nat)
    ensures u < 0x1_0000_0000_0000_0000
  {
    k % 0x1_0000_0000_0000_0000
  }

  /** An alignment that divides the address space, as every power of two does. */
  predicate Alignment(a: nat) { 0 < a && 0x1_0000_0000_0000_0000 % a == 0 }

  /** alignPointer; for a power of two, clearing the low bits takes off the remainder. */
  function AlignUp(addr: nat, a: nat): nat
    requires a > 0
  {
    var t := U64(addr + a - 1);
    t - t % a
  }

  function Padding(addr: nat, a: nat): nat
    requires a > 0
  {
    U64(AlignUp(addr, a) - addr)
  }

  /** totalSize, as size_t arithmetic has it. */
  function TotalSize(b: Block, bytes: nat, a: nat): nat
    requires a > 0
  {
    U64(bytes + Padding(b.addr, a))
  }

  /** free and live are m_freeList and m_allocMap; dropped is history: the padding given up so far, and what
      was allocated under an address whose entry has been written over. */
  datatype Heap = Heap(base: nat, size: nat, free: seq<Block>, live: map<nat, nat>, dropped: seq<Block>)

  function Create(base: nat, size: nat): Heap { Heap(base, size, [Block(base, size)], map[], []) }

  function FirstFit(l: seq<Block>, from: nat, bytes: nat, a: nat): (i: nat)
    requires a > 0 && from <= |l|
    ensures from <= i <= |l|
    decreases |l| - from
  {
    if from == |l| || l[from].size >= TotalSize(l[from], bytes, a) then from else FirstFit(l, from + 1, bytes, a)
  }

  /** The block under the iterator gives up its first total bytes. */
  function Take(l: seq<Block>, i: nat, total: nat): seq<Block>
    requires i < |l| && total <= l[i].size
  {
    if l[i].size > total then l[i := Block(l[i].addr + total, l[i].size - total)] else l[..i] + l[i + 1..]
  }

  /** What the map knew under p. */
  function Forgotten(live: map<nat, nat>, p: nat): Block { Block(p, if p in live then live[p] else 0) }

  function Alloc(h: Heap, bytes: nat, a: nat): (Heap, Option<nat>)
    requires a > 0
  {
    var i := FirstFit(h.free, 0, bytes, a);
    if i == |h.free| then (h, None)
    else
      FitFits(h.free, 0, bytes, a);
      var b := h.free[i];
      var p := AlignUp(b.addr, a);
      (h.(free := Take(h.free, i, TotalSize(b, bytes, a)), live := h.live[p := bytes],
          dropped := h.dropped + [Forgotten(h.live, p)] + [Block(b.addr, Padding(b.addr, a))]),
       Some(p))
  }

  function Free(h: Heap, p: nat): Heap {
    if p in h.live then h.(live := h.live - {p}, free := Merge(h.free + [Block(p, h.live[p])])) else h
  }

  lemma {:induction false} FitFits(l: seq<Block>, from: nat, bytes: nat, a: nat)
    requires a > 0 && from <= |l|
    ensures var i := FirstFit(l, from, bytes, a);
      && (i < |l| ==> l[i].size >= TotalSize(l[i], bytes, a))
      && (forall j | from <= j < i :: l[j].size < TotalSize(l[j], bytes, a))
    decreases |l| - from
  {
    if from < |l| && l[from].size < TotalSize(l[from], bytes, a) {
      FitFits(l, from + 1, bytes, a);
    }
  }

  // ----- The invariant -----

  predicate LiveAt(live: map<nat, nat>, x: int) { exists p :: p in live && p <= x < p + live[p] }

  predicate LiveApart(live: map<nat, nat>) {
    forall p, q | p in live && q in live && p < q :: live[p] == 0 || live[q] == 0 || p + live[p] <= q
  }

  /** No allocation is empty. */
  predicate Positive(live: map<nat, nat>) { forall p | p in live :: live[p] > 0 }

  /** Each byte of the memory is free, live or dropped, and only one of these. */
  predicate OneOwner(h: Heap, x: int) {
    var inside := h.base <= x < h.base + h.size;
    if Covers(h.free, x) then inside && !LiveAt(h.live, x) && !Covers(h.dropped, x)
    else if LiveAt(h.live, x) then inside && !Covers(h.dropped, x)
    else Covers(h.dropped, x) <==> inside
  }

  ghost function LiveTotal(live: map<nat, nat>): nat
    decreases |live|
  {
    if live == map[] then 0
    else
      var p :| p in live;
      live[p] + LiveTotal(live - {p})
  }

  ghost predicate OwnersOk(h: Heap) { forall x: int :: OneOwner(h, x) }

  /** What every history keeps. */
  ghost predicate Safe(h: Heap) {
    && Apart(h.free) && Within(h.free, h.base, h.base + h.size)
    && LiveApart(h.live) && (forall p | p in h.live :: h.base <= p && p + h.live[p] <= h.base + h.size)
    && OwnersOk(h)
    && Total(h.free) + LiveTotal(h.live) + Total(h.dropped) == h.size
  }

  /** What histories without empty allocations keep besides. */
  predicate Tidy(h: Heap) { Canonical(h.free) && Positive(h.live) }

  lemma CreateSafe(base: nat, size: nat)
    ensures Safe(Create(base, size)) && (size > 0 ==> Tidy(Create(base, size)))
  {
    var h := Create(base, size);
    forall x: int ensures OneOwner(h, x) {
      CoversConcat([], h.free, x);
    }
    assert h.free[..0] == [];
  }

  lemma {:induction false} LiveTotalWithout(live: map<nat, nat>, p: nat)
    requires p in live
    ensures LiveTotal(live) == live[p] + LiveTotal(live - {p})
    decreases |live|
  {
    var q :| q in live && LiveTotal(live) == live[q] + LiveTotal(live - {q});
    if p != q {
      LiveTotalWithout(live - {q}, p);
      LiveTotalWithout(live - {p}, q);
      assert live - {q} - {p} == live - {p} - {q};
    }
  }

  lemma LiveTotalWith(live: map<nat, nat>, p: nat, bytes: nat)
    requires p !in live
    ensures LiveTotal(live[p := bytes]) == LiveTotal(live) + bytes
  {
    LiveTotalWithout(live[p := bytes], p);
    assert live[p := bytes] - {p} == live;
  }

  // ----- Alignment -----

  /** The request and the end of the memory leave room for the arithmetic of size_t. */
  predicate Fits64(h: Heap, bytes: nat, a: nat) {
    bytes + a <= 0x1_0000_0000_0000_0000 && h.base + h.size + a <= 0x1_0000_0000_0000_0000
  }

  /** Below the end of the address space, the aligned address is the first multiple from addr on. */
  lemma AlignUpIsFirst(addr: nat, a: nat)
    requires a > 0 && addr + a <= 0x1_0000_0000_0000_0000
    ensures addr <= AlignUp(addr, a) < addr + a && AlignUp(addr, a) % a == 0
    ensures Padding(addr, a) == AlignUp(addr, a) - addr
    ensures forall p | addr <= p && p % a == 0 :: AlignUp(addr, a) <= p
  {
    var t := addr + a - 1;
    hide U64;
    NoWrap(t);
    FloorIs(t, a);
    NoWrap(t - t % a - addr);
    forall p | addr <= p && p % a == 0 ensures AlignUp(addr, a) <= p {
      if p < AlignUp(addr, a) {
        MultiplesApart(AlignUp(addr, a), p, a);
      }
    }
  }

  lemma FloorIs(t: nat, a: nat)
    requires a > 0
    ensures t - a < t - t % a <= t && (t - t % a) % a == 0
  {
    assert t - t % a == t / a * a;
    MultipleOf(t / a, a);
  }

  lemma NoWrap(k: nat)
    requires k < 0x1_0000_0000_0000_0000
    ensures U64(k) == k
  {
  }

  // ----- Allocating -----

  lemma TakeIsRight(l: seq<Block>, i: nat, total: nat, from: nat, end: nat)
    requires Apart(l) && Within(l, from, end) && i < |l| && total <= l[i].size
    ensures Apart(Take(l, i, total)) && Within(Take(l, i, total), from, end)
    ensures Total(Take(l, i, total)) + total == Total(l)
    ensures forall x: int :: Covers(Take(l, i, total), x) <==> Covers(l, x) && !(l[i].addr <= x < l[i].addr + total)
  {
    TakeTotal(l, i, total);
    TakeApart(l, i, total, from, end);
    hide Apart, Within, Take, Total, Covers;
    forall x: int ensures Covers(Take(l, i, total), x) <==> Covers(l, x) && !(l[i].addr <= x < l[i].addr + total) {
      TakeCovers(l, i, total, x);
    }
  }

  lemma TakeApart(l: seq<Block>, i: nat, total: nat, from: nat, end: nat)
    requires Apart(l) && Within(l, from, end) && i < |l| && total <= l[i].size
    ensures Apart(Take(l, i, total)) && Within(Take(l, i, total), from, end)
  {
    var t := Take(l, i, total);
    forall j, k | 0 <= j < k < |t| ensures Off(t[j], t[k]) {
      if l[i].size > total {
        assert Off(l[j], l[k]);
      } else {
        var j', k' := if j < i then j else j + 1, if k < i then k else k + 1;
        assert t[j] == l[j'] && t[k] == l[k'];
      }
    }
  }

  lemma TakeCanonical(l: seq<Block>, i: nat, total: nat)
    requires Canonical(l) && i < |l| && total <= l[i].size
    ensures Canonical(Take(l, i, total))
  {
  }

  /** The block the first bytes are taken from, in its place. */
  lemma TakeSplits(l: seq<Block>, i: nat, total: nat)
    requires i < |l| && total <= l[i].size
    ensures l == l[..i] + ([l[i]] + l[i + 1..])
    ensures Take(l, i, total) ==
      l[..i] + ((if l[i].size > total then [Block(l[i].addr + total, l[i].size - total)] else []) + l[i + 1..])
  {
  }

  lemma TakeTotal(l: seq<Block>, i: nat, total: nat)
    requires i < |l| && total <= l[i].size
    ensures Total(Take(l, i, total)) + total == Total(l)
  {
    TakeSplits(l, i, total);
    var rest := if l[i].size > total then [Block(l[i].addr + total, l[i].size - total)] else [];
    TotalConcat(l[..i], [l[i]] + l[i + 1..]);
    TotalConcat([l[i]], l[i + 1..]);
    TotalConcat(l[..i], rest + l[i + 1..]);
    TotalConcat(rest, l[i + 1..]);
    assert [l[i]][..0] == [] && (rest != [] ==> rest[..0] == []);
  }

  lemma TakeCovers(l: seq<Block>, i: nat, total: nat, x: int)
    requires Apart(l) && i < |l| && total <= l[i].size
    ensures Covers(Take(l, i, total), x) <==> Covers(l, x) && !(l[i].addr <= x < l[i].addr + total)
  {
    TakeSplits(l, i, total);
    var rest := if l[i].size > total then [Block(l[i].addr + total, l[i].size - total)] else [];
    CoversConcat(l[..i], [l[i]] + l[i + 1..], x);
    CoversConcat([l[i]], l[i + 1..], x);
    CoversConcat([], [l[i]], x);
    CoversConcat(l[..i], rest + l[i + 1..], x);
    CoversConcat(rest, l[i + 1..], x);
    CoversConcat([], rest, x);
    if l[i].Has(x) {
      AloneThere(l, i, x);
    }
    hide Take, Apart;
  }

  /** No other block has a byte of block i. */
  lemma AloneThere(l: seq<Block>, i: nat, x: int)
    requires Apart(l) && i < |l| && l[i].Has(x)
    ensures !Covers(l[..i], x) && !Covers(l[i + 1..], x)
  {
    var before, behind := l[..i], l[i + 1..];
    forall j | 0 <= j < |before| ensures !before[j].Has(x) {
      assert Off(l[j], l[i]);
    }
    forall j | 0 <= j < |behind| ensures !behind[j].Has(x) {
      assert Off(l[i], l[i + 1 + j]);
    }
  }

  /** The chosen block, its padding, and the sum without wrap. */
  lemma ChosenBlock(h: Heap, bytes: nat, a: nat)
    requires Alignment(a) && Fits64(h, bytes, a) && Within(h.free, h.base, h.base + h.size)
    ensures var i := FirstFit(h.free, 0, bytes, a);
      i < |h.free| ==>
        var b := h.free[i];
        && b.addr <= AlignUp(b.addr, a) == b.addr + Padding(b.addr, a)
        && AlignUp(b.addr, a) % a == 0
        && TotalSize(b, bytes, a) == bytes + Padding(b.addr, a) <= b.size
        && h.base <= b.addr && b.End() <= h.base + h.size
  {
    var i := FirstFit(h.free, 0, bytes, a);
    if i < |h.free| {
      hide AlignUp, Padding, FirstFit;
      FitFits(h.free, 0, bytes, a);
      AlignUpIsFirst(h.free[i].addr, a);
      NoWrap(bytes + Padding(h.free[i].addr, a));
    }
  }

  lemma LiveAtWith(live: map<nat, nat>, p: nat, bytes: nat, x: int)
    requires p !in live
    ensures LiveAt(live[p := bytes], x) <==> LiveAt(live, x) || p <= x < p + bytes
  {
    var live' := live[p := bytes];
    if LiveAt(live, x) {
      var q :| q in live && q <= x < q + live[q];
      assert q in live' && live'[q] == live[q];
    }
    if p <= x < p + bytes {
      assert p in live' && live'[p] == bytes;
    }
  }

  /** A stretch of free bytes is apart from everything allocated. */
  lemma FreeIsApart(h: Heap, p: nat, bytes: nat)
    requires OwnersOk(h) && LiveApart(h.live) && p !in h.live
    requires forall x: int | p <= x < p + bytes :: Covers(h.free, x)
    ensures LiveApart(h.live[p := bytes])
  {
    forall q | q in h.live && q != p ensures bytes == 0 || h.live[q] == 0 || q + h.live[q] <= p || p + bytes <= q {
      var x := if p <= q then q else p;
      assert OneOwner(h, x);
      assert q <= x < q + h.live[q] ==> LiveAt(h.live, x);
      assert p <= x < p + bytes ==> Covers(h.free, x);
    }
  }

  lemma NotLive(h: Heap, p: nat, bytes: nat)
    requires OwnersOk(h) && bytes > 0 && forall x: int | p <= x < p + bytes :: Covers(h.free, x)
    ensures p in h.live ==> h.live[p] == 0
  {
    assert OneOwner(h, p);
    assert p in h.live && h.live[p] > 0 ==> LiveAt(h.live, p);
  }

  /** The entry under p is written over: what it held is dropped. */
  function Forget(h: Heap, p: nat): Heap {
    h.(live := h.live - {p}, dropped := h.dropped + [Forgotten(h.live, p)])
  }

  lemma ForgetSafe(h: Heap, p: nat)
    requires Safe(h)
    ensures Safe(Forget(h, p))
  {
    hide Apart, Within, Total, Covers, LiveTotal, OneOwner, LiveAt;
    var h' := Forget(h, p);
    TotalConcat(h.dropped, [Forgotten(h.live, p)]);
    OneBlock(Forgotten(h.live, p));
    if p in h.live {
      LiveTotalWithout(h.live, p);
    } else {
      assert h'.live == h.live;
    }
    forall x: int ensures OneOwner(h', x) {
      assert OneOwner(h, x);
      OwnerForgets(h, p, x);
    }
  }

  lemma OwnerForgets(h: Heap, p: nat, x: int)
    requires OneOwner(h, x) && LiveApart(h.live)
    ensures OneOwner(Forget(h, p), x)
  {
    hide Covers;
    var b := Forgotten(h.live, p);
    CoversConcat(h.dropped, [b], x);
    if p in h.live {
      LiveAtWith(h.live - {p}, p, h.live[p], x);
      assert (h.live - {p})[p := h.live[p]] == h.live;
      if p <= x < p + h.live[p] {
        ApartFromRest(h.live, p, x);
      }
    } else {
      assert h.live - {p} == h.live;
    }
  }

  lemma ApartFromRest(live: map<nat, nat>, p: nat, x: int)
    requires LiveApart(live) && p in live && p <= x < p + live[p]
    ensures !LiveAt(live - {p}, x)
  {
    var rest := live - {p};
    forall q | q in rest ensures !(q <= x < q + rest[q]) {
      assert q in live && rest[q] == live[q];
    }
  }

  /** What a successful request is given: aligned bytes that were free, inside the memory, and known
      under their address. */
  predicate Granted(h: Heap, bytes: nat, a: nat, h': Heap, p: nat)
    requires a > 0
  {
    && p % a == 0 && h.base <= p && p + bytes <= h.base + h.size
    && h'.live == h.live[p := bytes]
    && h'.base == h.base && h'.size == h.size
  }

  /** Every allocation, of any number of bytes, keeps the memory safe; those of at least a byte also keep
      it tidy, and write over no one. */
  lemma AllocKeeps(h: Heap, bytes: nat, a: nat)
    requires Safe(h) && Alignment(a) && Fits64(h, bytes, a)
    ensures Safe(Alloc(h, bytes, a).0)
    ensures bytes > 0 && Tidy(h) ==> Tidy(Alloc(h, bytes, a).0)
    ensures match Alloc(h, bytes, a)
            case (h', None) => h' == h
            case (h', Some(p)) =>
              && Granted(h, bytes, a, h', p) && (forall x: int | p <= x < p + bytes :: Covers(h.free, x))
              && (bytes > 0 && Tidy(h) ==> p !in h.live)
  {
    hide Apart, Within, Canonical, Total, Covers, Fits64, LiveTotal, Alloc, Take, LiveApart, LiveAt, OwnersOk,
         Forgotten,
         Positive;
    AllocIs(h, bytes, a);
    if Alloc(h, bytes, a).1.Some? {
      var i, pad := FirstFit(h.free, 0, bytes, a), Padding(h.free[FirstFit(h.free, 0, bytes, a)].addr, a);
      hide FirstFit, Padding;
      var b := h.free[i];
      BlockCovers(h.free, i);
      ForgetSafe(h, b.addr + pad);
      GrantSafe(Forget(h, b.addr + pad), i, pad, bytes);
      assert (h.live - {b.addr + pad})[b.addr + pad := bytes] == h.live[b.addr + pad := bytes];
      if bytes > 0 && Tidy(h) {
        NotLive(h, b.addr + pad, bytes);
        TidyGrant(h, i, pad, bytes);
      }
    }
  }

  lemma TidyGrant(h: Heap, i: nat, pad: nat, bytes: nat)
    requires Tidy(h) && bytes > 0 && i < |h.free| && bytes + pad <= h.free[i].size
    ensures Canonical(Take(h.free, i, bytes + pad)) && Positive(h.live[h.free[i].addr + pad := bytes])
    ensures h.free[i].addr + pad in h.live ==> h.live[h.free[i].addr + pad] > 0
  {
    TakeCanonical(h.free, i, bytes + pad);
    hide Canonical, Take;
  }

  /** The chosen block gives up its first bytes to an address not in the map. */
  lemma GrantSafe(h: Heap, i: nat, pad: nat, bytes: nat)
    requires Safe(h) && i < |h.free| && bytes + pad <= h.free[i].size && h.free[i].addr + pad !in h.live
    ensures var b := h.free[i];
      Safe(h.(free := Take(h.free, i, bytes + pad), live := h.live[b.addr + pad := bytes],
              dropped := h.dropped + [Block(b.addr, pad)]))
  {
    hide Apart, Total, Covers, LiveTotal, Take, LiveApart, LiveAt, OneOwner;
    var b := h.free[i];
    var h' := h.(free := Take(h.free, i, bytes + pad), live := h.live[b.addr + pad := bytes],
                 dropped := h.dropped + [Block(b.addr, pad)]);
    TakeIsRight(h.free, i, bytes + pad, h.base, h.base + h.size);
    BlockCovers(h.free, i);
    FreeIsApart(h, b.addr + pad, bytes);
    LiveTotalWith(h.live, b.addr + pad, bytes);
    TotalConcat(h.dropped, [Block(b.addr, pad)]);
    OneBlock(Block(b.addr, pad));
    OwnersMove(h, h', b, b.addr + pad, bytes);
  }

  /** The result of an allocation in plain arithmetic. */
  lemma AllocIs(h: Heap, bytes: nat, a: nat)
    requires Alignment(a) && Fits64(h, bytes, a) && Within(h.free, h.base, h.base + h.size)
    ensures Alloc(h, bytes, a).1 == None ==> Alloc(h, bytes, a).0 == h
    ensures Alloc(h, bytes, a).1.Some? ==>
      var i := FirstFit(h.free, 0, bytes, a);
      && i < |h.free|
      && var b, pad := h.free[i], Padding(h.free[i].addr, a);
      && bytes + pad <= b.size && h.base <= b.addr && b.End() <= h.base + h.size && (b.addr + pad) % a == 0
      && Alloc(h, bytes, a) == (h.(free := Take(h.free, i, bytes + pad), live := h.live[b.addr + pad := bytes],
                                   dropped := Forget(h, b.addr + pad).dropped + [Block(b.addr, pad)]),
                                Some(b.addr + pad))
  {
    hide U64, Within, Covers, Fits64, FirstFit, Take, AlignUp, Padding, TotalSize, Forgotten, Alloc;
    ChosenBlock(h, bytes, a);
    AllocUnfolds(h, bytes, a);
  }

  lemma AllocUnfolds(h: Heap, bytes: nat, a: nat)
    requires a > 0
    ensures var i := FirstFit(h.free, 0, bytes, a);
      if i == |h.free| then Alloc(h, bytes, a) == (h, None)
      else
        var b, p := h.free[i], AlignUp(h.free[i].addr, a);
        && TotalSize(b, bytes, a) <= b.size
        && Alloc(h, bytes, a) == (h.(free := Take(h.free, i, TotalSize(b, bytes, a)), live := h.live[p := bytes],
                                     dropped := Forget(h, p).dropped + [Block(b.addr, Padding(b.addr, a))]),
                                  Some(p))
  {
    hide FirstFit, Take, AlignUp, Padding, TotalSize, Forgotten;
    FitFits(h.free, 0, bytes, a);
  }

  lemma BlockCovers(l: seq<Block>, i: nat)
    requires i < |l|
    ensures forall x: int | l[i].addr <= x < l[i].End() :: Covers(l, x)
  {
    forall x: int | l[i].addr <= x < l[i].End() ensures Covers(l, x) {
      assert l[i].Has(x);
    }
  }

  lemma OwnersMove(h: Heap, h': Heap, b: Block, p: nat, bytes: nat)
    requires OwnersOk(h) && h'.base == h.base && h'.size == h.size
    requires b.addr <= p && forall x: int | b.addr <= x < p + bytes :: Covers(h.free, x)
    requires forall x: int :: Covers(h'.free, x) <==> Covers(h.free, x) && !(b.addr <= x < p + bytes)
    requires p !in h.live && h'.live == h.live[p := bytes]
    requires h'.dropped == h.dropped + [Block(b.addr, p - b.addr)]
    ensures OwnersOk(h')
  {
    hide Covers, LiveAt, OneOwner;
    forall x: int ensures OneOwner(h', x) {
      assert OneOwner(h, x);
      OwnerMoves(h, h', b, p, bytes, x);
    }
  }

  /** A byte changes hands only inside the stretch taken. */
  lemma OwnerMoves(h: Heap, h': Heap, b: Block, p: nat, bytes: nat, x: int)
    requires OneOwner(h, x) && h'.base == h.base && h'.size == h.size
    requires b.addr <= p && (b.addr <= x < p + bytes ==> Covers(h.free, x))
    requires Covers(h'.free, x) <==> Covers(h.free, x) && !(b.addr <= x < p + bytes)
    requires p !in h.live && h'.live == h.live[p := bytes]
    requires h'.dropped == h.dropped + [Block(b.addr, p - b.addr)]
    ensures OneOwner(h', x)
  {
    LiveAtWith(h.live, p, bytes, x);
    CoversConcat(h.dropped, [Block(b.addr, p - b.addr)], x);
    hide Covers, LiveAt;
  }

  /** Some aligned stretch of that many bytes is free. */
  ghost predicate Available(h: Heap, bytes: nat, a: nat)
    requires a > 0
  {
    exists p: nat :: p % a == 0 && StretchFree(h.free, p, bytes)
  }

  ghost predicate StretchFree(l: seq<Block>, p: nat, bytes: nat) { forall x: int | p <= x < p + bytes :: Covers(l, x) }

  /** The block has room for that many bytes from an aligned address on. */
  ghost predicate Holds(b: Block, bytes: nat, a: nat)
    requires a > 0
  {
    exists p: nat :: p % a == 0 && Inside(b, p, bytes)
  }

  predicate Inside(b: Block, p: nat, bytes: nat) { b.addr <= p && p + bytes <= b.End() }

  /** Every request fails exactly when no one block has room for it; for at least a byte and a list in
      canonical form, exactly when no aligned stretch of that many bytes is free. */
  lemma AllocFailsExactly(h: Heap, bytes: nat, a: nat)
    requires Safe(h) && Alignment(a) && Fits64(h, bytes, a)
    ensures Alloc(h, bytes, a).1 == None <==> !exists i :: 0 <= i < |h.free| && Holds(h.free[i], bytes, a)
    ensures bytes > 0 && Canonical(h.free) ==> (Alloc(h, bytes, a).1 == None <==> !Available(h, bytes, a))
  {
    hide OwnersOk, LiveApart, LiveTotal, Total, TotalSize, Padding, AlignUp, Covers, Apart, Alloc, Holds, Within,
         Canonical, FirstFit;
    AllocIs(h, bytes, a);
    AllocUnfolds(h, bytes, a);
    forall i | 0 <= i < |h.free| && Holds(h.free[i], bytes, a) ensures Alloc(h, bytes, a).1.Some? {
      HoldsFits(h, i, bytes, a);
      FitFits(h.free, 0, bytes, a);
    }
    if Alloc(h, bytes, a).1.Some? {
      var b := h.free[FirstFit(h.free, 0, bytes, a)];
      RoomHolds(b, b.addr + Padding(b.addr, a), bytes, a);
      GrantedIsAvailable(h, bytes, a);
    }
    if bytes > 0 && Canonical(h.free) && Available(h, bytes, a) {
      var p: nat :| p % a == 0 && StretchFree(h.free, p, bytes);
      var i := StretchInBlock(h.free, p, p + bytes);
      RoomHolds(h.free[i], p, bytes, a);
    }
  }

  /** It is the first block with room that gives it, at its first aligned address. */
  lemma AllocIsFirst(h: Heap, bytes: nat, a: nat)
    requires Safe(h) && Alignment(a) && Fits64(h, bytes, a) && Alloc(h, bytes, a).1.Some?
    ensures var i, p := FirstFit(h.free, 0, bytes, a), Alloc(h, bytes, a).1.value;
      && i < |h.free| && Inside(h.free[i], p, bytes) && p % a == 0
      && (forall q | h.free[i].addr <= q && q % a == 0 :: p <= q)
      && (forall j | 0 <= j < i :: !Holds(h.free[j], bytes, a))
  {
    hide OwnersOk, LiveApart, LiveTotal, Total, TotalSize, Padding, AlignUp, Covers, Apart, Alloc, Holds, Within,
         FirstFit;
    AllocUnfolds(h, bytes, a);
    ChosenBlock(h, bytes, a);
    var i := FirstFit(h.free, 0, bytes, a);
    BlockBelow(h, i, a);
    AlignUpIsFirst(h.free[i].addr, a);
    FitFits(h.free, 0, bytes, a);
    forall j | 0 <= j < i ensures !Holds(h.free[j], bytes, a) {
      if Holds(h.free[j], bytes, a) {
        HoldsFits(h, j, bytes, a);
      }
    }
  }

  lemma BlockBelow(h: Heap, i: nat, a: nat)
    requires Within(h.free, h.base, h.base + h.size) && i < |h.free| && Fits64(h, 0, a)
    ensures h.free[i].addr + a <= 0x1_0000_0000_0000_0000
  {
  }

  lemma RoomHolds(b: Block, p: nat, bytes: nat, a: nat)
    requires a > 0 && p % a == 0 && b.addr <= p && p + bytes <= b.End()
    ensures Holds(b, bytes, a)
  {
    assert Inside(b, p, bytes);
  }

  lemma GrantedIsAvailable(h: Heap, bytes: nat, a: nat)
    requires Safe(h) && Alignment(a) && Fits64(h, bytes, a) && Alloc(h, bytes, a).1.Some?
    ensures Available(h, bytes, a)
  {
    AllocKeeps(h, bytes, a);
    hide Safe, Alloc, Covers;
    assert StretchFree(h.free, Alloc(h, bytes, a).1.value, bytes);
  }

  lemma HoldsFits(h: Heap, i: nat, bytes: nat, a: nat)
    requires Within(h.free, h.base, h.base + h.size) && Alignment(a) && Fits64(h, bytes, a) && i < |h.free|
    requires Holds(h.free[i], bytes, a)
    ensures h.free[i].size >= TotalSize(h.free[i], bytes, a)
  {
    var p: nat :| p % a == 0 && Inside(h.free[i], p, bytes);
    AlignUpIsFirst(h.free[i].addr, a);
    hide AlignUp, Padding;
  }

  // ----- Freeing -----

  /** Giving back what is live makes exactly its bytes free; anything else changes nothing. */
  lemma FreeKeeps(h: Heap, p: nat)
    requires Safe(h)
    ensures Safe(Free(h, p))
    ensures p !in h.live ==> Free(h, p) == h
    ensures p in h.live ==>
      && Free(h, p).live == h.live - {p}
      && forall x: int :: Covers(Free(h, p).free, x) <==> Covers(h.free, x) || p <= x < p + h.live[p]
  {
    hide Apart, Within, Total, Covers, LiveTotal, OneOwner, Merge, LiveAt;
    if p in h.live {
      var b := Block(p, h.live[p]);
      LiveIsOff(h, p);
      MergeAddsAny(h.free, b, h.base, h.base + h.size);
      LiveTotalWithout(h.live, p);
      forall x: int ensures OneOwner(Free(h, p), x) {
        assert OneOwner(h, x);
        OwnerReturns(h, Free(h, p), p, x);
      }
    }
  }

  lemma LiveIsOff(h: Heap, p: nat)
    requires Safe(h) && p in h.live
    ensures forall i | 0 <= i < |h.free| :: Off(h.free[i], Block(p, h.live[p]))
  {
    hide LiveTotal, Total, Apart, Within, LiveApart;
    forall i | 0 <= i < |h.free| ensures Off(h.free[i], Block(p, h.live[p])) {
      var x := if p <= h.free[i].addr then h.free[i].addr else p;
      assert OneOwner(h, x);
      assert h.free[i].Has(x) ==> Covers(h.free, x);
      assert p <= x < p + h.live[p] ==> LiveAt(h.live, x);
    }
  }

  lemma OwnerReturns(h: Heap, h': Heap, p: nat, x: int)
    requires OneOwner(h, x) && LiveApart(h.live) && p in h.live
    requires h'.base == h.base && h'.size == h.size && h'.live == h.live - {p} && h'.dropped == h.dropped
    requires Covers(h'.free, x) <==> Covers(h.free, x) || p <= x < p + h.live[p]
    ensures OneOwner(h', x)
  {
    hide Covers;
    LiveAtWith(h'.live, p, h.live[p], x);
    assert h'.live[p := h.live[p]] == h.live;
    if p <= x < p + h.live[p] {
      ApartFromRest(h.live, p, x);
    }
  }

  /** Freeing keeps the canonical form, except that an empty allocation given back stays in the list as
      an empty block unless a free block ends where it is. */
  lemma FreeIsTidyExactly(h: Heap, p: nat)
    requires Safe(h) && Canonical(h.free)
    ensures Canonical(Free(h, p).free) <==>
      (p in h.live && h.live[p] == 0 ==> exists i :: 0 <= i < |h.free| && h.free[i].End() == p)
    ensures Tidy(h) ==> Tidy(Free(h, p))
  {
    hide Total, LiveTotal, OwnersOk, Within, Merge;
    if p in h.live {
      if h.live[p] == 0 {
        EmptyBlockStays(h.free, p);
      } else {
        LiveIsOff(h, p);
        MergeAdds(h.free, Block(p, h.live[p]));
      }
    }
  }

  /** Freeing at once what was allocated makes the same bytes free again exactly when there was no padding. It
      restores a canonical list exactly when besides the allocation was not empty, and the map exactly when the
      address was not in it. */
  lemma FreeUndoesAlloc(h: Heap, bytes: nat, a: nat)
    requires Safe(h) && Alignment(a) && Fits64(h, bytes, a) && Alloc(h, bytes, a).1.Some?
    ensures var (h', p) := Alloc(h, bytes, a);
      var pad := Padding(h.free[FirstFit(h.free, 0, bytes, a)].addr, a);
      && (SameBytes(Free(h', p.value).free, h.free) <==> pad == 0)
      && (Tidy(h) ==> (Free(h', p.value).free == h.free <==> pad == 0 && bytes > 0))
      && (Free(h', p.value).live == h.live <==> p.value !in h.live)
      && (Tidy(h) && bytes > 0 ==> p.value !in h.live)
  {
    hide Safe, Take, Total, TotalSize, AlignUp, Fits64, Merge, FirstFit, Padding, Covers, Canonical, Positive,
         Alloc, Free;
    var (h', op) := Alloc(h, bytes, a);
    AllocKeeps(h, bytes, a);
    FreeKeeps(h', op.value);
    assert h'.live - {op.value} == h.live - {op.value};
    AllocCovers(h, bytes, a);
    var b := h.free[FirstFit(h.free, 0, bytes, a)];
    var h'' := Free(h', op.value);
    if Padding(b.addr, a) > 0 {
      assert Covers(h.free, b.addr);
      assert !Covers(h''.free, b.addr);
    } else if Tidy(h) {
      if bytes > 0 {
        FreeTidy(h', op.value);
        CanonicalIsUnique(h''.free, h.free);
      } else {
        EmptyIsNotUndone(h, a);
      }
    }
  }

  /** An empty allocation without padding leaves the list as it is, and no block ends where one begins. */
  lemma EmptyIsNotUndone(h: Heap, a: nat)
    requires Safe(h) && Tidy(h) && Alignment(a) && Fits64(h, 0, a) && Alloc(h, 0, a).1.Some?
    requires Padding(h.free[FirstFit(h.free, 0, 0, a)].addr, a) == 0
    ensures Free(Alloc(h, 0, a).0, Alloc(h, 0, a).1.value).free != h.free
  {
    hide Total, LiveTotal, OwnersOk, TotalSize, AlignUp, Fits64, Merge, FirstFit, Padding, Covers, Positive, Alloc,
         Free, LiveApart, Apart;
    AllocIs(h, 0, a);
    AllocKeeps(h, 0, a);
    var i := FirstFit(h.free, 0, 0, a);
    var b := h.free[i];
    assert Take(h.free, i, 0) == h.free;
    hide Take, Within;
    FreeIsTidyExactly(Alloc(h, 0, a).0, b.addr);
    forall j | 0 <= j < |h.free| ensures h.free[j].End() != b.addr {
      assert j < i ==> h.free[j].End() < h.free[i].addr;
      assert i < j ==> h.free[i].End() < h.free[j].addr;
    }
  }

  /** Which bytes an allocation takes off the free list: its own and its padding. */
  lemma AllocCovers(h: Heap, bytes: nat, a: nat)
    requires Safe(h) && Alignment(a) && Fits64(h, bytes, a) && Alloc(h, bytes, a).1.Some?
    ensures FirstFit(h.free, 0, bytes, a) < |h.free|
    ensures var (h', p) := Alloc(h, bytes, a);
      var b := h.free[FirstFit(h.free, 0, bytes, a)];
      && p.value == b.addr + Padding(b.addr, a)
      && (forall x: int :: Covers(h'.free, x) <==> Covers(h.free, x) && !(b.addr <= x < p.value + bytes))
      && (forall x: int | b.addr <= x < p.value + bytes :: Covers(h.free, x))
  {
    hide Apart, Within, Take, Total, TotalSize, AlignUp, FirstFit, Padding, Covers, OwnersOk, LiveApart, LiveTotal,
         Alloc,
         Forget;
    AllocIs(h, bytes, a);
    var i := FirstFit(h.free, 0, bytes, a);
    TakeIsRight(h.free, i, bytes + Padding(h.free[i].addr, a), h.base, h.base + h.size);
    BlockCovers(h.free, i);
  }

  /** With everything freed and nothing dropped, the memory is one block again. */
  lemma AllFreed(h: Heap)
    requires Safe(h) && Tidy(h) && h.live == map[] && Total(h.dropped) == 0 && h.size > 0
    ensures h.free == [Block(h.base, h.size)]
  {
    var whole := [Block(h.base, h.size)];
    forall x: int ensures Covers(h.free, x) <==> Covers(whole, x) {
      assert OneOwner(h, x);
      NothingDropped(h.dropped, x);
      assert Covers(whole, x) <==> whole[0].Has(x);
    }
    CanonicalIsUnique(h.free, whole);
  }

  lemma {:induction false} NothingDropped(l: seq<Block>, x: int)
    requires Total(l) == 0
    ensures !Covers(l, x)
    decreases |l|
  {
    if l != [] {
      NothingDropped(l[..|l| - 1], x);
      assert l == l[..|l| - 1] + [l[|l| - 1]];
      CoversConcat(l[..|l| - 1], [l[|l| - 1]], x);
    }
  }

  // ----- Every history -----

  datatype Request = AllocRequest(bytes: nat, a: nat) | FreeRequest(p: nat)

  /** Allocations ask for a power of two as alignment, without overflowing size_t. */
  predicate Proper(end: nat, r: Request) {
    r.AllocRequest? ==>
      && Alignment(r.a)
      && r.bytes + r.a <= 0x1_0000_0000_0000_0000 && end + r.a <= 0x1_0000_0000_0000_0000
  }

  predicate Nonempty(r: Request) { r.AllocRequest? ==> r.bytes > 0 }

  function Serve(h: Heap, r: Request): (h': Heap)
    requires Proper(h.base + h.size, r)
    ensures h'.base == h.base && h'.size == h.size
  {
    match r
    case AllocRequest(bytes, a) => Alloc(h, bytes, a).0
    case FreeRequest(p) => Free(h, p)
  }

  function ServeAll(h: Heap, rs: seq<Request>): (h': Heap)
    requires forall i | 0 <= i < |rs| :: Proper(h.base + h.size, rs[i])
    ensures h'.base == h.base && h'.size == h.size
    decreases |rs|
  {
    if rs == [] then h
    else
      var init := rs[..|rs| - 1];
      Serve(ServeAll(h, init), rs[|rs| - 1])
  }

  lemma {:induction false} ServeAllSafe(h: Heap, rs: seq<Request>)
    requires Safe(h) && forall i | 0 <= i < |rs| :: Proper(h.base + h.size, rs[i])
    ensures Safe(ServeAll(h, rs))
    ensures Tidy(h) && (forall i | 0 <= i < |rs| :: Nonempty(rs[i])) ==> Tidy(ServeAll(h, rs))
    decreases |rs|
  {
    hide Safe, Tidy, Alloc, Free, Alignment;
    if rs != [] {
      var init := rs[..|rs| - 1];
      ServeAllSafe(h, init);
      var h1 := ServeAll(h, init);
      match rs[|rs| - 1] {
        case AllocRequest(bytes, a) => AllocKeeps(h1, bytes, a);
        case FreeRequest(p) => FreeTidy(h1, p);
      }
      assert forall i | 0 <= i < |init| :: init[i] == rs[i];
    }
  }

  lemma FreeTidy(h: Heap, p: nat)
    requires Safe(h)
    ensures Safe(Free(h, p)) && (Tidy(h) ==> Tidy(Free(h, p)))
  {
    hide Safe, Free;
    FreeKeeps(h, p);
    if Tidy(h) {
      FreeIsTidyExactly(h, p);
    }
  }

  /** After any history, every byte is free, live or dropped and only one of these, and every size is
      accounted for. Without empty allocations the free list is in canonical form besides; with nothing
      live and nothing dropped it is then the initial block. */
  lemma HistoryIsSafe(base: nat, size: nat, rs: seq<Request>)
    requires forall i | 0 <= i < |rs| :: Proper(base + size, rs[i])
    ensures var h := ServeAll(Create(base, size), rs);
      && LiveApart(h.live) && Apart(h.free) && OwnersOk(h)
      && Total(h.free) + LiveTotal(h.live) + Total(h.dropped) == size
      && (size > 0 && (forall i | 0 <= i < |rs| :: Nonempty(rs[i])) ==>
            && Canonical(h.free)
            && (h.live == map[] && Total(h.dropped) == 0 ==> h.free == [Block(base, size)]))
  {
    CreateSafe(base, size);
    ServeAllSafe(Create(base, size), rs);
    hide Serve, Canonical, LiveApart, OwnersOk, Total, LiveTotal, ServeAll, Apart, Within, Positive;
    var h := ServeAll(Create(base, size), rs);
    if Tidy(h) && h.live == map[] && Total(h.dropped) == 0 && size > 0 {
      AllFreed(h);
    }
  }

  // ----- Where an empty allocation leaves its mark -----

  /** An empty allocation of a fresh memory, given back, stays in the free list as an empty block. */
  lemma EmptyBlockExample()
    ensures !Canonical(Free(Alloc(Create(0, 64), 0, 64).0, 0).free)
  {
    ExampleZero();
    hide AlignUp, Padding, TotalSize, Sort, MergeSorted, U64;
    var h := Alloc(Create(0, 64), 0, 64).0;
    assert FirstFit([Block(0, 64)], 0, 0, 64) == 0;
    assert h.free == [Block(0, 64)] && 0 in h.live && h.live[0] == 0;
    EmptyBlockStays(h.free, 0);
  }

  lemma ExampleZero()
    ensures AlignUp(0, 64) == 0 && Padding(0, 64) == 0 && TotalSize(Block(0, 64), 0, 64) == 0
  {
    hide U64;
    NoWrap(63);
    NoWrap(0);
  }

  /** An allocation takes over the entry of a live block exactly when it is empty, its padding uses up the
      block it is taken from, and the live block is the one behind that. */
  lemma EmptyTakesOver(h: Heap, bytes: nat, a: nat)
    requires Safe(h) && Alignment(a) && Fits64(h, bytes, a) && Alloc(h, bytes, a).1.Some?
    ensures var p, b := Alloc(h, bytes, a).1.value, h.free[FirstFit(h.free, 0, bytes, a)];
      p in h.live && h.live[p] > 0 <==>
        bytes == 0 && Padding(b.addr, a) == b.size && b.End() in h.live && h.live[b.End()] > 0
  {
    hide Apart, Total, LiveTotal, LiveApart, Covers, Alloc, Padding, FirstFit, Fits64, Take;
    AllocIs(h, bytes, a);
    var i := FirstFit(h.free, 0, bytes, a);
    var b, p := h.free[i], Alloc(h, bytes, a).1.value;
    BlockCovers(h.free, i);
    if p in h.live && h.live[p] > 0 {
      assert LiveAt(h.live, p);
      assert OneOwner(h, p);
    }
  }

  /** An allocation from the only block. */
  lemma AllocFromOne(h: Heap, b: Block, bytes: nat, a: nat)
    requires a > 0 && h.free == [b] && TotalSize(b, bytes, a) <= b.size
    ensures var total, p := TotalSize(b, bytes, a), AlignUp(b.addr, a);
      Alloc(h, bytes, a) ==
        (h.(free := if b.size > total then [Block(b.addr + total, b.size - total)] else [],
            live := h.live[p := bytes],
            dropped := h.dropped + [Forgotten(h.live, p)] + [Block(b.addr, Padding(b.addr, a))]),
         Some(p))
  {
    hide AlignUp, Padding, TotalSize, Forgotten;
    assert FirstFit(h.free, 0, bytes, a) == 0;
    AllocUnfolds(h, bytes, a);
    var total := TotalSize(b, bytes, a);
    assert Take([b], 0, total) == if b.size > total then [Block(b.addr + total, b.size - total)] else [];
  }

  /** It happens: what the block of 64 bytes held can no longer be given back. */
  lemma TakeOverExample() returns (h0: Heap, h1: Heap, h2: Heap, h: Heap)
    ensures h0 == Create(1, 127) && h1 == Alloc(h0, 63, 1).0 && h2 == Alloc(h1, 64, 64).0 && h == Free(h2, 1)
    ensures h.live == map[64 := 64]
    ensures Alloc(h, 0, 64).1 == Some(64) && Alloc(h, 0, 64).0.live == map[64 := 0]
    ensures Block(64, 64) in Alloc(h, 0, 64).0.dropped
  {
    hide AlignUp, Padding, TotalSize, U64, Merge, Alloc, Forgotten;
    h0 := Create(1, 127);
    AlignedStays(Block(1, 127), 63, 1);
    AllocFromOne(h0, Block(1, 127), 63, 1);
    h1 := Alloc(h0, 63, 1).0;
    AlignedStays(Block(64, 64), 64, 64);
    AllocFromOne(h1, Block(64, 64), 64, 64);
    h2 := Alloc(h1, 64, 64).0;
    assert h2.live - {1} == map[64 := 64];
    MergeOne(Block(1, 63));
    h := Free(h2, 1);
    TakesOver(h);
  }

  lemma TakesOver(h: Heap)
    requires h.free == [Block(1, 63)] && h.live == map[64 := 64]
    ensures Alloc(h, 0, 64).1 == Some(64) && Alloc(h, 0, 64).0.live == map[64 := 0]
    ensures Block(64, 64) in Alloc(h, 0, 64).0.dropped
  {
    ExamplePadding();
    PaddingOnly();
    hide AlignUp, Padding, TotalSize, Alloc;
    AllocFromOne(h, Block(1, 63), 0, 64);
    assert Forgotten(h.live, 64) == Block(64, 64);
  }

  lemma MergeOne(b: Block)
    ensures Merge([] + [b]) == [b]
  {
    assert [] + [b] == [b] && [b][..0] == [];
  }

  /** At an aligned address nothing is lost. */
  lemma AlignedStays(b: Block, bytes: nat, a: nat)
    requires a > 0 && b.addr % a == 0 && b.addr + a <= 0x1_0000_0000_0000_0000 && bytes < 0x1_0000_0000_0000_0000
    ensures AlignUp(b.addr, a) == b.addr && Padding(b.addr, a) == 0 && TotalSize(b, bytes, a) == bytes
  {
    AlignUpIsFirst(b.addr, a);
    hide AlignUp, Padding, U64;
    NoWrap(bytes);
  }

  lemma PaddingOnly()
    ensures TotalSize(Block(1, 63), 0, 64) == 63
  {
    ExamplePadding();
    hide U64, AlignUp, Padding;
    NoWrap(63);
  }

  // ----- Where size_t overflows -----

  /** What is handed out lies inside the memory exactly when size and padding do not overflow. */
  lemma OverflowEscapes(h: Heap, bytes: nat, a: nat)
    requires Safe(h) && Alignment(a) && h.base + h.size + a <= 0x1_0000_0000_0000_0000
    requires bytes < 0x1_0000_0000_0000_0000 && Alloc(h, bytes, a).1.Some?
    ensures var b := h.free[FirstFit(h.free, 0, bytes, a)];
      Alloc(h, bytes, a).1.value + bytes <= h.base + h.size <==> bytes + Padding(b.addr, a) < 0x1_0000_0000_0000_0000
  {
    hide Apart, Covers, OwnersOk, LiveApart, LiveTotal, Total, AlignUp, Padding, FirstFit, Take, Forgotten;
    var i := FirstFit(h.free, 0, bytes, a);
    FitFits(h.free, 0, bytes, a);
    AlignUpIsFirst(h.free[i].addr, a);
  }

  lemma ExamplePadding()
    ensures AlignUp(1, 64) == 64 && Padding(1, 64) == 63
  {
    hide U64;
    NoWrap(64);
    NoWrap(63);
  }

  lemma ExampleSize()
    ensures TotalSize(Block(1, 100), 0xFFFF_FFFF_FFFF_FFFF, 64) == 62
  {
    hide AlignUp, Padding, U64;
    ExamplePadding();
    ExampleWrap();
  }

  lemma ExampleWrap()
    ensures U64(0xFFFF_FFFF_FFFF_FFFF + 63) == 62
  {
    QuotientIs(0xFFFF_FFFF_FFFF_FFFF + 63, 0x1_0000_0000_0000_0000, 1, 62);
  }

  /** So a request of nearly all of the address space succeeds on a memory of a hundred bytes. */
  lemma OverflowExample()
    ensures Alloc(Create(1, 100), 0xFFFF_FFFF_FFFF_FFFF, 64).1 == Some(64)
  {
    hide AlignUp, Padding, TotalSize, U64, Take;
    ExamplePadding();
    ExampleSize();
    assert FirstFit([Block(1, 100)], 0, 0xFFFF_FFFF_FFFF_FFFF, 64) == 0;
  }
}
