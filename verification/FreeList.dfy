/** The free list of custom_allocator (utils/allocator.cpp): sorting, merging, and the form both give it. */
module FreeList {
  datatype Block = Block(addr: nat, size: nat)
  {
    function End(): nat { addr + size }
    predicate Has(x: int) { addr <= x < addr + size }
  }

  predicate Covers(l: seq<Block>, x: int) { exists i :: 0 <= i < |l| && l[i].Has(x) }

  /** In address order, without overlap. */
  predicate Ordered(l: seq<Block>) {
    && (forall i | 0 <= i < |l| :: l[i].size > 0)
    && (forall i, j | 0 <= i < j < |l| :: l[i].End() <= l[j].addr)
  }

  /** And no block touches the next. */
  predicate Canonical(l: seq<Block>) {
    && (forall i | 0 <= i < |l| :: l[i].size > 0)
    && (forall i, j | 0 <= i < j < |l| :: l[i].End() < l[j].addr)
  }

  /** Two blocks have no byte in common. */
  predicate Off(a: Block, b: Block) { a.size == 0 || b.size == 0 || a.End() <= b.addr || b.End() <= a.addr }

  /** In any order, possibly with empty blocks, but without overlap. */
  predicate Apart(l: seq<Block>) { forall i, j | 0 <= i < j < |l| :: Off(l[i], l[j]) }

  predicate Within(l: seq<Block>, from: nat, end: nat) {
    forall i | 0 <= i < |l| :: from <= l[i].addr && l[i].End() <= end
  }

  function Total(l: seq<Block>): nat
    decreases |l|
  {
    if l == [] then 0 else Total(l[..|l| - 1]) + l[|l| - 1].size
  }

  // ----- std::list::sort by address -----

  function Insert(l: seq<Block>, b: Block): (r: seq<Block>)
    ensures |r| == |l| + 1
    decreases |l|
  {
    if l == [] then [b]
    else if b.addr < l[|l| - 1].addr then Insert(l[..|l| - 1], b) + [l[|l| - 1]]
    else l + [b]
  }

  function Sort(l: seq<Block>): (r: seq<Block>)
    ensures |r| == |l|
    decreases |l|
  {
    if l == [] then [] else Insert(Sort(l[..|l| - 1]), l[|l| - 1])
  }

  lemma {:induction false} InsertContents(l: seq<Block>, b: Block)
    ensures multiset(Insert(l, b)) == multiset(l) + multiset{b}
    decreases |l|
  {
    if l != [] && b.addr < l[|l| - 1].addr {
      InsertContents(l[..|l| - 1], b);
      assert l == l[..|l| - 1] + [l[|l| - 1]];
    }
  }

  lemma {:induction false} InsertSorts(l: seq<Block>, b: Block)
    requires forall i, j | 0 <= i < j < |l| :: l[i].addr <= l[j].addr
    ensures forall i, j | 0 <= i < j <= |l| :: Insert(l, b)[i].addr <= Insert(l, b)[j].addr
    ensures forall i | 0 <= i <= |l| :: Insert(l, b)[i] == b || Insert(l, b)[i] in l
    decreases |l|
  {
    if l != [] && b.addr < l[|l| - 1].addr {
      InsertSorts(l[..|l| - 1], b);
    }
  }

  /** The sort yields a permutation in address order. */
  lemma {:induction false} SortIsSort(l: seq<Block>)
    ensures multiset(Sort(l)) == multiset(l)
    ensures forall i, j | 0 <= i < j < |l| :: Sort(l)[i].addr <= Sort(l)[j].addr
    decreases |l|
  {
    hide Insert;
    if l != [] {
      var init, b := l[..|l| - 1], l[|l| - 1];
      SortIsSort(init);
      InsertContents(Sort(init), b);
      InsertSorts(Sort(init), b);
      assert l == init + [b];
    }
  }

  lemma {:induction false} SortOfSorted(l: seq<Block>)
    requires forall i, j | 0 <= i < j < |l| :: l[i].addr <= l[j].addr
    ensures Sort(l) == l
    decreases |l|
  {
    if l != [] {
      SortOfSorted(l[..|l| - 1]);
      assert l == l[..|l| - 1] + [l[|l| - 1]];
      if |l| > 1 {
        assert l[..|l| - 1][|l| - 2] == l[|l| - 2];
      }
    }
  }

  // ----- mergeFreeBlocks -----

  function MergeSorted(l: seq<Block>): seq<Block>
    decreases |l|
  {
    if |l| < 2 then l
    else if l[0].End() == l[1].addr then MergeSorted([Block(l[0].addr, l[0].size + l[1].size)] + l[2..])
    else [l[0]] + MergeSorted(l[1..])
  }

  lemma MergeEmpty(l: seq<Block>)
    requires l == []
    ensures MergeSorted(l) == []
  {
  }

  lemma MergeStep(l: seq<Block>)
    requires l != []
    ensures if |l| > 1 && l[0].addr + l[0].size == l[1].addr
      then MergeSorted(l) == MergeSorted([Block(l[0].addr, l[0].size + l[1].size)] + l[2..])
      else MergeSorted(l) == [l[0]] + MergeSorted(l[1..])
  {
    if |l| == 1 {
      assert l == [l[0]] && l[1..] == [];
    }
  }

  function Merge(l: seq<Block>): seq<Block> { MergeSorted(Sort(l)) }

  ghost predicate SameBytes(l: seq<Block>, r: seq<Block>) { forall x: int :: Covers(l, x) <==> Covers(r, x) }

  lemma CoversFirst(l: seq<Block>, x: int)
    requires l != []
    ensures Covers(l, x) <==> l[0].Has(x) || Covers(l[1..], x)
  {
    if Covers(l, x) && !l[0].Has(x) {
      var i :| 0 <= i < |l| && l[i].Has(x);
      assert l[1..][i - 1].Has(x);
    }
    if Covers(l[1..], x) {
      var i :| 0 <= i < |l[1..]| && l[1..][i].Has(x);
      assert l[i + 1].Has(x);
    }
  }

  lemma JoinKeeps(l: seq<Block>, x: int)
    requires |l| >= 2 && l[0].End() == l[1].addr
    ensures Covers([Block(l[0].addr, l[0].size + l[1].size)] + l[2..], x) <==> Covers(l, x)
  {
    var joined := [Block(l[0].addr, l[0].size + l[1].size)] + l[2..];
    CoversFirst(l, x);
    CoversFirst(l[1..], x);
    CoversFirst(joined, x);
    assert joined[1..] == l[2..] == l[1..][1..];
  }

  /** Merging keeps the bytes of the list, and leaves no two blocks that touch. */
  lemma {:induction false} MergeSortedIsRight(l: seq<Block>)
    requires Ordered(l)
    ensures Canonical(MergeSorted(l)) && SameBytes(MergeSorted(l), l)
    ensures l != [] ==> MergeSorted(l) != [] && MergeSorted(l)[0].addr == l[0].addr
    decreases |l|
  {
    if |l| < 2 {
    } else if l[0].End() == l[1].addr {
      var joined := [Block(l[0].addr, l[0].size + l[1].size)] + l[2..];
      MergeSortedIsRight(joined);
      forall x: int ensures Covers(MergeSorted(l), x) <==> Covers(l, x) {
        JoinKeeps(l, x);
        assert Covers(MergeSorted(joined), x) <==> Covers(joined, x);
      }
    } else {
      MergeSortedIsRight(l[1..]);
      var rest := MergeSorted(l[1..]);
      forall x: int ensures Covers(MergeSorted(l), x) <==> Covers(l, x) {
        CoversFirst(l, x);
        CoversFirst([l[0]] + rest, x);
        assert ([l[0]] + rest)[1..] == rest;
        assert Covers(rest, x) <==> Covers(l[1..], x);
      }
      assert rest[0].addr == l[1].addr;
    }
  }

  lemma FirstBytes(l: seq<Block>)
    requires Canonical(l) && l != []
    ensures Covers(l, l[0].addr) && !Covers(l, l[0].End())
    ensures forall x: int | x < l[0].addr :: !Covers(l, x)
    ensures forall x: int | l[0].addr <= x < l[0].End() :: Covers(l, x)
  {
    assert l[0].Has(l[0].addr);
    forall x: int | l[0].addr <= x < l[0].End() ensures Covers(l, x) {
      assert l[0].Has(x);
    }
  }

  /** The canonical form is determined by the set of free bytes. */
  lemma {:induction false} CanonicalIsUnique(l: seq<Block>, r: seq<Block>)
    requires Canonical(l) && Canonical(r) && SameBytes(l, r)
    ensures l == r
    decreases |l|
  {
    if l == [] {
      if r != [] {
        FirstBytes(r);
      }
    } else {
      FirstBytes(l);
      assert Covers(r, l[0].addr);
      FirstBytes(r);
      assert Covers(l, r[0].addr);
      assert l[0].addr == r[0].addr;
      assert !Covers(r, l[0].End()) && !Covers(l, r[0].End());
      assert l[0] == r[0];
      forall x: int ensures Covers(l[1..], x) <==> Covers(r[1..], x) {
        CoversFirst(l, x);
        CoversFirst(r, x);
        assert Covers(l, x) <==> Covers(r, x);
        LaterBlocks(l, x);
        LaterBlocks(r, x);
      }
      CanonicalIsUnique(l[1..], r[1..]);
      assert l == [l[0]] + l[1..] && r == [r[0]] + r[1..];
    }
  }

  lemma LaterBlocks(l: seq<Block>, x: int)
    requires Canonical(l) && l != []
    ensures l[0].Has(x) ==> !Covers(l[1..], x)
  {
  }

  /** A stretch of free bytes lies in one block. */
  lemma StretchInBlock(l: seq<Block>, from: int, to: int) returns (i: nat)
    requires Canonical(l) && from < to
    requires forall x: int | from <= x < to :: Covers(l, x)
    ensures i < |l| && l[i].addr <= from && to <= l[i].End()

  {
    assert Covers(l, from);
    i :| 0 <= i < |l| && l[i].Has(from);
    GapAfter(l, i);
  }

  lemma GapAfter(l: seq<Block>, i: nat)
    requires Canonical(l) && i < |l|
    ensures !Covers(l, l[i].End())
  {
    forall j | 0 <= j < |l| ensures !l[j].Has(l[i].End()) {
      if j < i {
        assert l[j].End() < l[i].addr;
      } else if i < j {
        assert l[i].End() < l[j].addr;
      }
    }
  }

  // ----- Sizes -----

  lemma {:induction false} TotalConcat(l: seq<Block>, r: seq<Block>)
    ensures Total(l + r) == Total(l) + Total(r)
    decreases |r|
  {
    if r == [] {
      assert l + r == l;
    } else {
      assert (l + r)[..|l + r| - 1] == l + r[..|r| - 1];
      TotalConcat(l, r[..|r| - 1]);
    }
  }

  lemma {:induction false} InsertTotal(l: seq<Block>, b: Block)
    ensures Total(Insert(l, b)) == Total(l) + b.size
    decreases |l|
  {
    if l == [] {
      assert Insert(l, b) == l + [b];
    } else if b.addr < l[|l| - 1].addr {
      InsertTotal(l[..|l| - 1], b);
      assert Insert(l, b)[..|l|] == Insert(l[..|l| - 1], b);
    } else {
      assert (l + [b])[..|l|] == l;
    }
  }

  lemma {:induction false} SortTotal(l: seq<Block>)
    ensures Total(Sort(l)) == Total(l)
    decreases |l|
  {
    if l != [] {
      SortTotal(l[..|l| - 1]);
      InsertTotal(Sort(l[..|l| - 1]), l[|l| - 1]);
    }
  }

  lemma TotalFirst(l: seq<Block>)
    requires l != []
    ensures Total(l) == l[0].size + Total(l[1..])
  {
    TotalConcat([l[0]], l[1..]);
    assert [l[0]] + l[1..] == l;
    assert [l[0]][..0] == [];
  }

  /** Merging neither loses nor gains bytes, whatever the list. */
  lemma {:induction false} MergeTotal(l: seq<Block>)
    ensures Total(MergeSorted(l)) == Total(l)
    decreases |l|
  {
    hide Total;
    if |l| >= 2 {
      TotalFirst(l);
      if l[0].End() == l[1].addr {
        var joined := [Block(l[0].addr, l[0].size + l[1].size)] + l[2..];
        MergeTotal(joined);
        TotalFirst(joined);
        TotalFirst(l[1..]);
        assert joined[1..] == l[2..] == l[1..][1..];
      } else {
        MergeTotal(l[1..]);
        TotalFirst(MergeSorted(l));
        assert MergeSorted(l)[1..] == MergeSorted(l[1..]);
      }
    }
  }

  // ----- A block comes back -----

  /** Adding a block disjoint from a canonical list and merging yields the canonical list of the
      bytes of both. */
  lemma MergeAdds(l: seq<Block>, b: Block)
    requires Canonical(l) && b.size > 0
    requires forall i | 0 <= i < |l| :: l[i].End() <= b.addr || b.End() <= l[i].addr
    ensures Canonical(Merge(l + [b])) && Total(Merge(l + [b])) == Total(l) + b.size
    ensures forall x: int :: Covers(Merge(l + [b]), x) <==> Covers(l, x) || b.Has(x)
  {
    assert (l + [b])[..|l|] == l;
    SortOfSorted(l);
    assert Sort(l + [b]) == Insert(l, b);
    InsertOrdered(l, b);
    InsertCovers(l, b);
    InsertTotal(l, b);
    MergeTotal(Insert(l, b));
    MergeSortedIsRight(Insert(l, b));
  }

  lemma {:induction false} InsertOrdered(l: seq<Block>, b: Block)
    requires Ordered(l) && b.size > 0
    requires forall i | 0 <= i < |l| :: l[i].End() <= b.addr || b.End() <= l[i].addr
    ensures Ordered(Insert(l, b))
    ensures forall i | 0 <= i <= |l| :: Insert(l, b)[i] == b || Insert(l, b)[i] in l
    decreases |l|
  {
    if l != [] && b.addr < l[|l| - 1].addr {
      var last := l[|l| - 1];
      InsertOrdered(l[..|l| - 1], b);
      var init := Insert(l[..|l| - 1], b);
      hide Insert;
      assert b.End() <= last.addr;
      assert forall i | 0 <= i < |init| :: init[i].End() <= last.addr;
    }
  }

  lemma {:induction false} InsertCovers(l: seq<Block>, b: Block)
    ensures forall x: int :: Covers(Insert(l, b), x) <==> Covers(l, x) || b.Has(x)
    decreases |l|
  {
    forall x: int ensures Covers(Insert(l, b), x) <==> Covers(l, x) || b.Has(x) {
      if l == [] {
        CoversConcat([], [b], x);
        assert [] + [b] == [b];
      } else if b.addr < l[|l| - 1].addr {
        InsertCovers(l[..|l| - 1], b);
        CoversConcat(Insert(l[..|l| - 1], b), [l[|l| - 1]], x);
        CoversConcat(l[..|l| - 1], [l[|l| - 1]], x);
        assert l == l[..|l| - 1] + [l[|l| - 1]];
      } else {
        CoversConcat(l, [b], x);
      }
    }
  }

  lemma CoversConcat(l: seq<Block>, r: seq<Block>, x: int)
    ensures Covers(l + r, x) <==> Covers(l, x) || Covers(r, x)
    ensures |r| == 1 ==> (Covers(r, x) <==> r[0].Has(x))
  {
    if Covers(l, x) {
      var i :| 0 <= i < |l| && l[i].Has(x);
      assert (l + r)[i].Has(x);
    }
    if Covers(r, x) {
      var i :| 0 <= i < |r| && r[i].Has(x);
      assert (l + r)[|l| + i].Has(x);
    }
  }

  // ----- Lists with empty blocks -----

  lemma OffMeansNoByte(a: Block, b: Block)
    ensures Off(a, b) <==> forall x: int :: !(a.Has(x) && b.Has(x))
  {
    if !Off(a, b) {
      var x := if a.addr <= b.addr then b.addr else a.addr;
      assert a.Has(x) && b.Has(x);
    }
  }

  lemma {:induction false} InsertApart(l: seq<Block>, b: Block)
    requires Apart(l) && forall i | 0 <= i < |l| :: Off(l[i], b)
    ensures Apart(Insert(l, b))
    ensures forall i | 0 <= i <= |l| :: Insert(l, b)[i] == b || Insert(l, b)[i] in l
    decreases |l|
  {
    if l != [] && b.addr < l[|l| - 1].addr {
      var last := l[|l| - 1];
      InsertApart(l[..|l| - 1], b);
      var init := Insert(l[..|l| - 1], b);
      hide Insert;
      assert forall i | 0 <= i < |init| :: Off(init[i], last);
    }
  }

  lemma {:induction false} SortApart(l: seq<Block>)
    requires Apart(l)
    ensures Apart(Sort(l))
    ensures forall i | 0 <= i < |l| :: Sort(l)[i] in l
    decreases |l|
  {
    hide Insert;
    if l != [] {
      var init, b := l[..|l| - 1], l[|l| - 1];
      SortApart(init);
      assert forall i | 0 <= i < |init| :: Off(Sort(init)[i], b);
      InsertApart(Sort(init), b);
    }
  }

  lemma {:induction false} SortCovers(l: seq<Block>)
    ensures SameBytes(Sort(l), l)
    decreases |l|
  {
    hide Insert, Covers;
    if l != [] {
      var init, b := l[..|l| - 1], l[|l| - 1];
      SortCovers(init);
      InsertCovers(Sort(init), b);
      forall x: int ensures Covers(Sort(l), x) <==> Covers(l, x) {
        CoversConcat(init, [b], x);
        assert l == init + [b];
        assert Covers(Sort(init), x) <==> Covers(init, x);
      }
    }
  }

  lemma {:induction false} MergeCovers(l: seq<Block>)
    ensures SameBytes(MergeSorted(l), l)
    decreases |l|
  {
    hide Covers;
    if |l| < 2 {
    } else if l[0].End() == l[1].addr {
      var joined := [Block(l[0].addr, l[0].size + l[1].size)] + l[2..];
      MergeCovers(joined);
      forall x: int ensures Covers(MergeSorted(l), x) <==> Covers(l, x) {
        JoinKeeps(l, x);
        assert Covers(MergeSorted(joined), x) <==> Covers(joined, x);
      }
    } else {
      MergeCovers(l[1..]);
      var rest := MergeSorted(l[1..]);
      forall x: int ensures Covers(MergeSorted(l), x) <==> Covers(l, x) {
        CoversFirst(l, x);
        CoversFirst([l[0]] + rest, x);
        assert ([l[0]] + rest)[1..] == rest;
        assert Covers(rest, x) <==> Covers(l[1..], x);
      }
    }
  }

  lemma JoinApart(l: seq<Block>)
    requires |l| >= 2 && Apart(l) && l[0].End() == l[1].addr
    ensures Apart([Block(l[0].addr, l[0].size + l[1].size)] + l[2..])
  {
    var joined := [Block(l[0].addr, l[0].size + l[1].size)] + l[2..];
    forall i, j | 0 <= i < j < |joined| ensures Off(joined[i], joined[j]) {
      assert joined[j] == l[j + 1];
      if i > 0 {
        assert joined[i] == l[i + 1];
      } else {
        assert Off(l[0], l[j + 1]) && Off(l[1], l[j + 1]);
      }
    }
  }

  lemma {:induction false} MergeApart(l: seq<Block>, from: nat, end: nat)
    requires Apart(l) && Within(l, from, end)
    ensures Apart(MergeSorted(l)) && Within(MergeSorted(l), from, end)
    decreases |l|
  {
    hide Off, Covers;
    if |l| < 2 {
    } else if l[0].End() == l[1].addr {
      JoinApart(l);
      MergeApart([Block(l[0].addr, l[0].size + l[1].size)] + l[2..], from, end);
    } else {
      MergeApart(l[1..], from, end);
      MergeCovers(l[1..]);
      var rest := MergeSorted(l[1..]);
      forall j | 0 <= j < |rest| ensures Off(l[0], rest[j]) {
        FirstOff(l, rest, j);
      }
    }
  }

  /** A block without a byte of l[1..] has none of anything that covers the same bytes. */
  lemma FirstOff(l: seq<Block>, rest: seq<Block>, j: nat)
    requires l != [] && Apart(l) && SameBytes(rest, l[1..]) && j < |rest|
    ensures Off(l[0], rest[j])
  {
    OffMeansNoByte(l[0], rest[j]);
    hide Off;
    if !Off(l[0], rest[j]) {
      var x: int :| l[0].Has(x) && rest[j].Has(x);
      assert Covers(rest, x);
      var k :| 0 <= k < |l[1..]| && l[1..][k].Has(x);
      assert Off(l[0], l[k + 1]);
      OffMeansNoByte(l[0], l[k + 1]);
    }
  }

  /** Adding any block without a byte of the list, empty or not, and merging. */
  lemma MergeAddsAny(l: seq<Block>, b: Block, from: nat, end: nat)
    requires Apart(l) && Within(l, from, end) && from <= b.addr && b.End() <= end
    requires forall i | 0 <= i < |l| :: Off(l[i], b)
    ensures Apart(Merge(l + [b])) && Within(Merge(l + [b]), from, end) && Total(Merge(l + [b])) == Total(l) + b.size
    ensures forall x: int :: Covers(Merge(l + [b]), x) <==> Covers(l, x) || b.Has(x)
  {
    var all := l + [b];
    var sorted := Sort(all);
    hide Off, Covers, Sort, MergeSorted, Total;
    SortApart(all);
    SortCovers(all);
    SortTotal(all);
    TotalConcat(l, [b]);
    OneBlock(b);
    MergeApart(sorted, from, end);
    MergeCovers(sorted);
    MergeTotal(sorted);
    forall x: int ensures Covers(Merge(all), x) <==> Covers(l, x) || b.Has(x) {
      CoversConcat(l, [b], x);
      assert Covers(MergeSorted(sorted), x) <==> Covers(sorted, x);
      assert Covers(sorted, x) <==> Covers(all, x);
    }
  }

  lemma OneBlock(b: Block)
    ensures Total([b]) == b.size
  {
    assert [b][..0] == [];
  }

  // ----- An empty block comes back -----

  /** Nothing touches its successor. */
  predicate Loose(l: seq<Block>) { forall i | 0 <= i < |l| - 1 :: l[i].End() != l[i + 1].addr }

  lemma {:induction false} MergeLoose(l: seq<Block>)
    requires Loose(l)
    ensures MergeSorted(l) == l
    decreases |l|
  {
    if |l| >= 2 {
      MergeLoose(l[1..]);
      assert l == [l[0]] + l[1..];
    }
  }

  /** The blocks before k begin at or before p, the others after it. */
  predicate Divides(l: seq<Block>, k: nat, p: nat) {
    k <= |l| && (forall i | 0 <= i < k :: l[i].addr <= p) && (forall i | k <= i < |l| :: p < l[i].addr)
  }

  /** A block is put behind those that begin at or before it. */
  lemma {:induction false} InsertPlace(l: seq<Block>, b: Block) returns (k: nat)
    requires Canonical(l)
    ensures Divides(l, k, b.addr) && Insert(l, b) == l[..k] + [b] + l[k..]
    decreases |l|
  {
    k := |l|;
    if l != [] && b.addr < l[|l| - 1].addr {
      var init, last := l[..|l| - 1], l[|l| - 1];
      k := InsertPlace(init, b);
      DividesWithin(init, k, b.addr);
      DividesLonger(l, k, b.addr);
      hide Divides, Canonical;
      AroundLast(l, b, k);
    } else {
      assert l[..k] + [b] + l[k..] == l + [b];
    }
  }

  lemma DividesLonger(l: seq<Block>, k: nat, p: nat)
    requires l != [] && Divides(l[..|l| - 1], k, p) && p < l[|l| - 1].addr
    ensures Divides(l, k, p)
  {
    var init := l[..|l| - 1];
    assert forall j | 0 <= j < |init| :: init[j] == l[j];
  }

  lemma AroundLast(l: seq<Block>, b: Block, k: nat)
    requires l != [] && k < |l|
    ensures var init := l[..|l| - 1];
      init[..k] + [b] + init[k..] + [l[|l| - 1]] == l[..k] + [b] + l[k..]
  {
    var init := l[..|l| - 1];
    assert init[..k] == l[..k] && init[k..] + [l[|l| - 1]] == l[k..];
  }

  lemma {:induction false} AbsorbEmpty(l: seq<Block>, k: nat)
    requires Canonical(l) && 0 < k <= |l|
    ensures MergeSorted(l[..k] + [Block(l[k - 1].End(), 0)] + l[k..]) == l
    decreases k
  {
    hide MergeSorted;
    var b := Block(l[k - 1].End(), 0);
    var all := l[..k] + [b] + l[k..];
    MergeStep(all);
    if k == 1 {
      assert all[2..] == l[1..];
      assert [Block(l[0].addr, l[0].size + 0)] + l[1..] == l;
      CanonicalIsLoose(l);
      MergeLoose(l);
    } else {
      var rest := l[1..];
      assert all[1] == l[1] && l[0].End() < l[1].addr;
      AbsorbEmpty(rest, k - 1);
      assert all[1..] == rest[..k - 1] + [b] + rest[k - 1..];
      assert l == [l[0]] + rest;
    }
  }

  lemma CanonicalIsLoose(l: seq<Block>)
    requires Canonical(l)
    ensures Loose(l)
  {
  }

  lemma OnlyBefore(l: seq<Block>, k: nat, p: nat)
    requires Canonical(l) && Divides(l, k, p)
    ensures (exists i :: 0 <= i < |l| && l[i].End() == p) <==> k > 0 && l[k - 1].End() == p
  {
    forall i | 0 <= i < |l| && i != k - 1 ensures l[i].End() != p {
      if i < k - 1 {
        assert l[i].End() < l[k - 1].addr;
      }
    }
  }

  lemma LooseAround(l: seq<Block>, k: nat, p: nat)
    requires Canonical(l) && Divides(l, k, p) && !(k > 0 && l[k - 1].End() == p)
    ensures Loose(l[..k] + [Block(p, 0)] + l[k..])
  {
    var all := l[..k] + [Block(p, 0)] + l[k..];
    forall i | 0 <= i < |all| - 1 ensures all[i].End() != all[i + 1].addr {
      if i < k - 1 {
        assert all[i] == l[i] && all[i + 1] == l[i + 1];
      } else if i > k {
        assert all[i] == l[i - 1] && all[i + 1] == l[i];
      }
    }
  }

  /** An empty block is absorbed exactly when a free block ends where it is; otherwise it stays in the
      list, which is then not in canonical form. */
  lemma EmptyBlockStays(l: seq<Block>, p: nat)
    requires Canonical(l)
    ensures Canonical(Merge(l + [Block(p, 0)])) <==> exists i :: 0 <= i < |l| && l[i].End() == p
    ensures Canonical(Merge(l + [Block(p, 0)])) ==> Merge(l + [Block(p, 0)]) == l
  {
    var b := Block(p, 0);
    assert (l + [b])[..|l|] == l;
    SortOfSorted(l);
    assert Sort(l + [b]) == Insert(l, b);
    hide Sort, Insert, MergeSorted, Divides;
    var k := InsertPlace(l, b);
    DividesWithin(l, k, p);
    OnlyBefore(l, k, p);
    if k > 0 && l[k - 1].End() == p {
      AbsorbEmpty(l, k);
    } else {
      LooseAround(l, k, p);
      MergeLoose(l[..k] + [b] + l[k..]);
      NotCanonical(l[..k] + [b] + l[k..], k);
    }
  }

  lemma DividesWithin(l: seq<Block>, k: nat, p: nat)
    requires Divides(l, k, p)
    ensures k <= |l|
  {
  }

  lemma NotCanonical(l: seq<Block>, k: nat)
    requires k < |l| && l[k].size == 0
    ensures !Canonical(l)
  {
  }
}
