/** The DPU's ends of the rings (include/smartns.h): it is told nothing, and finds new entries by
    their owner bits alone. */
module DpuRings {
  import opened Options
  import opened RingIndex
  import opened Rings
  import opened HandOff

  /** dpu_datapath_send_wq, and the ring part of dpu_recv_wq. log is what has been copied into the
      memory so far, taken how much of it has been consumed. */
  class DpuRing<T> {
    const mem: array<Cell<T>>
    var head: nat
    var ownFlag: bool
    ghost var log: seq<T>
    ghost var taken: nat

    ghost predicate Valid()
      reads this, mem
    {
      && Image(mem[..], log)
      && taken <= |log| <= taken + mem.Length
      && head == Slot(taken, mem.Length) && ownFlag == Flag(taken, mem.Length)
    }

    constructor (n: nat, blank: T)
      requires n > 0
      ensures Valid() && log == [] && taken == 0 && mem.Length == n && fresh(mem)
    {
      mem := new Cell<T>[n](_ => Cell(false, blank));
      head, ownFlag := 0, true;
      log, taken := [], 0;
      new;
      ImageInit(mem[..]);
    }

    lemma HeadSlot()
      requires Valid()
      ensures mem.Length > 0 && head == Slot(taken, mem.Length) && taken <= |log|
    {
    }

    /** get_next_wqe: the oldest entry not consumed, exactly when there is one. */
    method GetNextWqe() returns (wqe: Option<T>)
      requires Valid()
      ensures wqe == if taken < |log| then Some(log[taken]) else None
    {
      hide Image, Flag, Slot;
      Handshake(mem[..], log, taken);
      var cell := mem[head];
      wqe := if cell.own != ownFlag then None else Some(cell.value);
    }

    /** step_wq */
    method StepWq()
      requires Valid() && taken < |log|
      modifies this`head, this`ownFlag, this`taken
      ensures Valid() && taken == old(taken) + 1
    {
      hide Image, Flag, Slot;
      NextFlag(taken, mem.Length);
      SlotNext(taken, mem.Length);
      head := head + 1;
      if head == mem.Length {
        head := 0;
        ownFlag := !ownFlag;
      }
      taken := taken + 1;
    }

    /** The DMA engine copies a cell: the next entry, as the other side wrote it. */
    method Arrive(slot: nat, cell: Cell<T>)
      requires Valid() && |log| < taken + mem.Length
      requires mem.Length > 0 && slot == Slot(|log|, mem.Length) && cell.own == Flag(|log|, mem.Length)
      modifies this`log, mem
      ensures Valid() && log == old(log) + [cell.value] && mem[..] == old(mem[..])[slot := cell]
    {
      hide Image, Flag, Slot;
      ImageWrite(mem[..], log, cell.value);
      ghost var cells := mem[..];
      mem[slot] := cell;
      assert mem[..] == cells[slot := cell];
      log := log + [cell.value];
    }
  }

  /** dpu_cq: the ring in which the DPU is the producer. It asks for each entry to be copied at once,
      and never looks whether the ring is full. */
  class DpuCq<T> {
    const mem: array<Cell<T>>
    var head: nat
    var ownFlag: bool
    var requests: seq<nat>
    ghost var view: Ring<T>

    ghost predicate Valid()
      reads this, mem
    {
      && HandOff.Inv(view) && view.batch == 1
      && mem[..] == view.host && head == view.hostSlot && ownFlag == view.hostFlag && requests == view.pending
    }

    constructor (n: nat, blank: T)
      requires n > 0
      ensures Valid() && view == HandOff.Create(n, 1, blank) && fresh(mem)
    {
      hide Image, Flag, Slot;
      mem := new Cell<T>[n](_ => Cell(false, blank));
      head, ownFlag, requests := 0, true, [];
      view := HandOff.Create(n, 1, blank);
      new;
      CreateInv(n, 1, blank);
      assert mem[..] == view.host;
    }

    /** get_next_cqe, filled in; post_send_recv_cqe; step_cq. The other side must have polled all but
        wqe_cnt - 1 of the entries. */
    method PostCqe(x: T)
      requires Valid() && view.start - view.freed < view.n
      modifies this, mem
      ensures Valid() && view == HandOff.PostOne(old(view), x)
    {
      hide Image, Flag, Slot, PendingOk, HandOff.PostOne, HandOff.Inv;
      InvBounds(view);
      PostInv(view, x);
      PostedFields(view, x);
      ghost var cells := mem[..];
      mem[head] := Cell(ownFlag, x);
      assert mem[..] == cells[head := Cell(ownFlag, x)];
      requests := requests + [head];
      head := head + 1;
      if head == mem.Length {
        head := 0;
        ownFlag := !ownFlag;
      }
      view := HandOff.PostOne(view, x);
    }

    /** The host has reported the oldest entry copied, which frees its cell. */
    ghost method Reported()
      requires Valid() && |view.taken| < view.copied
      modifies this`view
      ensures Valid() && view == HandOff.Poll(old(view)).0.(freed := |old(view.taken)| + 1)
      ensures |view.taken| == |old(view.taken)| + 1
    {
      hide Image, Flag, Slot, PendingOk;
      PollIsExact(view);
      view := HandOff.Poll(view).0;
      view := view.(freed := |view.taken|);
    }
  }
}
