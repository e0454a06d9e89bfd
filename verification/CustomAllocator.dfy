/** custom_allocator as the object that its methods update in place. */
module CustomAllocators {
  import opened Options
  import opened FreeList
  import A = Allocator

  class CustomAllocator {
    const base: nat
    const size: nat
    var freeList: seq<Block>
    var allocMap: map<nat, nat>
    ghost var dropped: seq<Block>

    ghost function View(): A.Heap
      reads this
    {
      A.Heap(base, size, freeList, allocMap, dropped)
    }

    constructor (base: nat, size: nat)
      ensures View() == A.Create(base, size)
    {
      this.base, this.size := base, size;
      freeList, allocMap, dropped := [Block(base, size)], map[], [];
    }

    /** None is the null pointer. */
    method Alloc(bytes: nat, alignment: nat) returns (result: Option<nat>)
      requires alignment > 0
      modifies this
      ensures (View(), result) == A.Alloc(old(View()), bytes, alignment)
    {
      hide A.U64, A.AlignUp;
      A.FitFits(freeList, 0, bytes, alignment);
      var i := 0;
      while i < |freeList|
        invariant i <= |freeList| && View() == old(View())
        invariant A.FirstFit(freeList, 0, bytes, alignment) == A.FirstFit(freeList, i, bytes, alignment)
      {
        var alignedPtr := A.AlignUp(freeList[i].addr, alignment);
        var padding := A.U64(alignedPtr - freeList[i].addr);
        var totalSize := A.U64(bytes + padding);
        if freeList[i].size >= totalSize {
          dropped := dropped + [A.Forgotten(allocMap, alignedPtr)] + [Block(freeList[i].addr, padding)];
          if freeList[i].size > totalSize {
            freeList := freeList[i := Block(freeList[i].addr + totalSize, freeList[i].size - totalSize)];
          } else {
            freeList := freeList[..i] + freeList[i + 1..];
          }
          allocMap := allocMap[alignedPtr := bytes];
          return Some(alignedPtr);
        }
        i := i + 1;
      }
      result := None;
    }

    /** Only an address in the map is freed. */
    method Free(p: nat)
      modifies this
      ensures View() == A.Free(old(View()), p)
    {
      hide Merge;
      if p in allocMap {
        var size := allocMap[p];
        allocMap := allocMap - {p};
        freeList := freeList + [Block(p, size)];
        MergeFreeBlocks();
      }
    }

    method MergeFreeBlocks()
      modifies this`freeList
      ensures freeList == Merge(old(freeList))
    {
      hide Sort, MergeSorted;
      freeList := Sort(freeList);
      var i := 0;
      assert freeList[..i] + MergeSorted(freeList[i..]) == MergeSorted(freeList) by {
        assert freeList[i..] == freeList;
      }
      while i < |freeList|
        invariant i <= |freeList|
        invariant freeList[..i] + MergeSorted(freeList[i..]) == Merge(old(freeList))
        decreases |freeList| - i
      {
        ghost var done, rest := freeList[..i], freeList[i..];
        MergeStep(rest);
        if i + 1 < |freeList| && freeList[i].addr + freeList[i].size == freeList[i + 1].addr {
          freeList := freeList[..i] + [Block(freeList[i].addr, freeList[i].size + freeList[i + 1].size)]
              + freeList[i + 2..];
          assert freeList[..i] == done;
          assert freeList[i..] == [Block(rest[0].addr, rest[0].size + rest[1].size)] + rest[2..];
        } else {
          i := i + 1;
          assert freeList[..i] == done + [rest[0]];
          assert freeList[i..] == rest[1..];
          assert done + ([rest[0]] + MergeSorted(rest[1..])) == (done + [rest[0]]) + MergeSorted(rest[1..]);
        }
      }
      MergeEmpty(freeList[i..]);
    }
  }
}
