/** Scattering payloads into the buffers of a receive work request
    (dma_send_payload_to_host of src/dpu/datapath.cpp). */
module Scatter {
  import opened Options
  import opened Messages

  datatype Sge = Sge(addr: nat, len: nat)

  /** A posted receive request; a list shorter than maxSge ends in an entry with lkey 100. */
  datatype RecvWqe = RecvWqe(sges: seq<Sge>, maxSge: nat)

  /** now_sge_num, now_sge_offset and now_total_dma_byte. */
  datatype Cursor = Cursor(num: nat, offset: nat, total: nat)

  /** One request passed to the DMA engine. */
  datatype Dma = Dma(dest: nat, bytes: seq<Byte>)

  /** The loop of the source; None when one of its assertions fails. */
  function ScatterPayload(w: RecvWqe, c: Cursor, payload: seq<Byte>): Option<(Cursor, seq<Dma>)>
    decreases |w.sges| - c.num
  {
    if c.num >= |w.sges| then
      if payload == [] && c.num >= w.maxSge then Some((c, [])) else None
    else
      var sge := w.sges[c.num];
      var remain := sge.len - c.offset;
      if remain >= |payload| then
        var end := c.offset + |payload|;
        var next := if end == sge.len then Cursor(c.num + 1, 0, c.total + |payload|)
                    else Cursor(c.num, end, c.total + |payload|);
        Some((next, [Dma(sge.addr + c.offset, payload)]))
      else if remain < 0 then None
      else
        match ScatterPayload(w, Cursor(c.num + 1, 0, c.total + remain), payload[remain..])
        case None => None
        case Some((next, dmas)) => Some((next, [Dma(sge.addr + c.offset, payload[..remain])] + dmas))
  }

  // ----- What the requests write, byte by byte -----

  /** Consecutive bytes from an address on. */
  function Spread(dest: nat, bytes: seq<Byte>): seq<(nat, Byte)> {
    seq(|bytes|, i requires 0 <= i < |bytes| => (dest + i, bytes[i]))
  }

  function Flat(dmas: seq<Dma>): seq<(nat, Byte)>
    decreases |dmas|
  {
    if dmas == [] then [] else Spread(dmas[0].dest, dmas[0].bytes) + Flat(dmas[1..])
  }

  /** The bytes held by the first k entries. */
  function Reached(sges: seq<Sge>, k: nat): nat
    requires k <= |sges|
    decreases k
  {
    if k == 0 then 0 else Reached(sges, k - 1) + sges[k - 1].len
  }

  function Capacity(w: RecvWqe): nat { Reached(w.sges, |w.sges|) }

  /** The address of byte i of the buffers from entry k on, taken as one stretch. */
  function PlaceFrom(sges: seq<Sge>, k: nat, i: nat): nat
    decreases |sges| - k
  {
    if k >= |sges| then 0
    else if i < sges[k].len then sges[k].addr + i
    else PlaceFrom(sges, k + 1, i - sges[k].len)
  }

  function Place(w: RecvWqe, i: nat): nat { PlaceFrom(w.sges, 0, i) }

  /** The bytes payload, in order, at positions from `from` on of the buffers. */
  function Placed(w: RecvWqe, from: nat, payload: seq<Byte>): seq<(nat, Byte)> {
    seq(|payload|, i requires 0 <= i < |payload| => (Place(w, from + i), payload[i]))
  }

  /** The total counts the bytes of the entries before the cursor and the offset into its own. */
  predicate CursorOk(w: RecvWqe, c: Cursor) {
    && c.num <= |w.sges|
    && (if c.num < |w.sges| then c.offset <= w.sges[c.num].len else c.offset == 0)
    && c.total == Reached(w.sges, c.num) + c.offset
  }

  lemma {:induction false} ReachedMonotone(sges: seq<Sge>, j: nat, k: nat)
    requires j <= k <= |sges|
    ensures Reached(sges, j) <= Reached(sges, k)
    decreases k
  {
    if j < k {
      ReachedMonotone(sges, j, k - 1);
    }
  }

  lemma {:induction false} PlaceSkips(sges: seq<Sge>, k: nat, i: nat)
    requires k <= |sges|
    ensures PlaceFrom(sges, 0, Reached(sges, k) + i) == PlaceFrom(sges, k, i)
    decreases k
  {
    if k > 0 {
      PlaceSkips(sges, k - 1, sges[k - 1].len + i);
    }
  }

  /** Inside the entry under the cursor, positions are consecutive addresses. */
  lemma PlacedInEntry(w: RecvWqe, c: Cursor, payload: seq<Byte>)
    requires CursorOk(w, c) && c.num < |w.sges| && c.offset + |payload| <= w.sges[c.num].len
    ensures Placed(w, c.total, payload) == Spread(w.sges[c.num].addr + c.offset, payload)
  {
    var placed, spread := Placed(w, c.total, payload), Spread(w.sges[c.num].addr + c.offset, payload);
    forall i | 0 <= i < |payload|
      ensures placed[i] == spread[i]
    {
      PlaceSkips(w.sges, c.num, c.offset + i);
      assert c.total + i == Reached(w.sges, c.num) + (c.offset + i);
      assert Place(w, c.total + i) == PlaceFrom(w.sges, c.num, c.offset + i);
      assert spread[i] == (w.sges[c.num].addr + c.offset + i, payload[i]);
    }
  }

  lemma PlacedSplits(w: RecvWqe, from: nat, payload: seq<Byte>, k: nat)
    requires k <= |payload|
    ensures Placed(w, from, payload) == Placed(w, from, payload[..k]) + Placed(w, from + k, payload[k..])
  {
  }

  /** The requests tile the payload, in order, over the next stretch of the buffers, without gap
      or overlap; the cursor's account is kept; and the assertions hold exactly when it fits. */
  lemma {:induction false} ScatterTiles(w: RecvWqe, c: Cursor, payload: seq<Byte>)
    requires CursorOk(w, c) && payload != []
    ensures ScatterPayload(w, c, payload).Some? <==> c.total + |payload| <= Capacity(w)
    ensures ScatterPayload(w, c, payload).Some? ==>
      var (next, dmas) := ScatterPayload(w, c, payload).value;
      && CursorOk(w, next)
      && next.total == c.total + |payload|
      && Flat(dmas) == Placed(w, c.total, payload)
    decreases |w.sges| - c.num
  {
    if c.num < |w.sges| {
      var sge := w.sges[c.num];
      var remain := sge.len - c.offset;
      ReachedMonotone(w.sges, c.num + 1, |w.sges|);
      if remain >= |payload| {
        PlacedInEntry(w, c, payload);
        assert Flat([Dma(sge.addr + c.offset, payload)]) == Spread(sge.addr + c.offset, payload) + Flat([]);
      } else {
        var rest := Cursor(c.num + 1, 0, c.total + remain);
        ScatterTiles(w, rest, payload[remain..]);
        PlacedInEntry(w, c, payload[..remain]);
        PlacedSplits(w, c.total, payload, remain);
        if ScatterPayload(w, rest, payload[remain..]).Some? {
          var (next, dmas) := ScatterPayload(w, rest, payload[remain..]).value;
          var all := [Dma(sge.addr + c.offset, payload[..remain])] + dmas;
          assert all[1..] == dmas;
        }
      }
    }
  }

  /** A payload without bytes writes nothing; it is refused only behind the last entry of a list shorter than its
      ring allows. */
  lemma EmptyPayload(w: RecvWqe, c: Cursor)
    requires CursorOk(w, c) && |w.sges| <= w.maxSge
    ensures ScatterPayload(w, c, []) == None <==> c.num == |w.sges| < w.maxSge
    ensures ScatterPayload(w, c, []).Some? ==>
      var (next, dmas) := ScatterPayload(w, c, []).value;
      CursorOk(w, next) && next.total == c.total && Flat(dmas) == []
  {
    if c.num < |w.sges| {
      assert [Dma(w.sges[c.num].addr + c.offset, [])][1..] == [];
    }
  }

  /** Where the part of entry k under the cursor begins. */
  function EntryFrom(c: Cursor, k: nat): nat { if k == c.num then c.offset else 0 }

  /** Request j is for entry c.num + j, from where the cursor stands in it, and all but the last fill theirs. */
  predicate FollowEntries(w: RecvWqe, c: Cursor, dmas: seq<Dma>) {
    && 0 < |dmas| && c.num + |dmas| <= |w.sges|
    && (forall j | 0 <= j < |dmas| :: dmas[j].dest == w.sges[c.num + j].addr + EntryFrom(c, c.num + j))
    && (forall j | 0 <= j < |dmas| - 1 :: EntryFrom(c, c.num + j) + |dmas[j].bytes| == w.sges[c.num + j].len)
  }

  /** The cursor after them: past the last entry if and only if that is filled too. */
  function CursorBehind(w: RecvWqe, c: Cursor, dmas: seq<Dma>, total: nat): Cursor
    requires FollowEntries(w, c, dmas)
  {
    var last := c.num + |dmas| - 1;
    var end := EntryFrom(c, last) + |dmas[|dmas| - 1].bytes|;
    if end == w.sges[last].len then Cursor(last + 1, 0, total) else Cursor(last, end, total)
  }

  /** There is one request for each entry from the cursor on. */
  lemma {:induction false} OneRequestPerEntry(w: RecvWqe, c: Cursor, payload: seq<Byte>)
    requires CursorOk(w, c) && payload != [] && ScatterPayload(w, c, payload).Some?
    ensures var (next, dmas) := ScatterPayload(w, c, payload).value;
      FollowEntries(w, c, dmas) && next == CursorBehind(w, c, dmas, c.total + |payload|)
    decreases |w.sges| - c.num
  {
    var sge := w.sges[c.num];
    var remain := sge.len - c.offset;
    if remain < |payload| {
      var rest := Cursor(c.num + 1, 0, c.total + remain);
      OneRequestPerEntry(w, rest, payload[remain..]);
      var (_, later) := ScatterPayload(w, rest, payload[remain..]).value;
      hide ScatterPayload, Reached;
      FollowOneMore(w, c, rest, payload[..remain], later, c.total + |payload|);
    }
  }

  lemma FollowOneMore(w: RecvWqe, c: Cursor, rest: Cursor, bytes: seq<Byte>, later: seq<Dma>, total: nat)
    requires c.num < |w.sges| && rest.num == c.num + 1 && rest.offset == 0 && FollowEntries(w, rest, later)
    requires c.offset + |bytes| == w.sges[c.num].len
    ensures var dmas := [Dma(w.sges[c.num].addr + c.offset, bytes)] + later;
      FollowEntries(w, c, dmas) && CursorBehind(w, c, dmas, total) == CursorBehind(w, rest, later, total)
  {
    var dmas := [Dma(w.sges[c.num].addr + c.offset, bytes)] + later;
    forall j | 0 <= j < |dmas|
      ensures dmas[j].dest == w.sges[c.num + j].addr + EntryFrom(c, c.num + j)
      ensures j < |dmas| - 1 ==> EntryFrom(c, c.num + j) + |dmas[j].bytes| == w.sges[c.num + j].len
    {
      if j > 0 {
        assert dmas[j] == later[j - 1] && w.sges[c.num + j] == w.sges[rest.num + (j - 1)];
        assert EntryFrom(rest, rest.num + (j - 1)) == EntryFrom(c, c.num + j) == 0;
      }
    }
  }

  lemma {:induction false} FlatConcat(a: seq<Dma>, b: seq<Dma>)
    ensures Flat(a + b) == Flat(a) + Flat(b)
    decreases |a|
  {
    if a == [] {
      assert a + b == b;
    } else {
      assert (a + b)[1..] == a[1..] + b;
      FlatConcat(a[1..], b);
    }
  }
}
