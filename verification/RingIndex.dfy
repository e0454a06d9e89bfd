/** Rings: entry k of an endless sequence lives in slot k % n. */
module RingIndex {
  import opened Division

  function Slot(k: int, n: nat): (s: nat)
    requires n > 0
    ensures s < n
  {
    k % n
  }

  /** The slot after s, as every step function of the source computes it. */
  function Next(s: nat, n: nat): nat {
    if s + 1 == n then 0 else s + 1
  }

  lemma NextWithin(s: nat, n: nat)
    requires s < n
    ensures Next(s, n) < n
  {
  }

  lemma LapIs(k: int, n: nat, q: int, s: nat)
    requires s < n && k == q * n + s
    ensures Slot(k, n) == s && k / n == q
  {
    QuotientIs(k, n, q, s);
  }

  /** Stepping over the end of the ring begins the next lap. */
  lemma SlotNext(k: int, n: nat)
    requires n > 0
    ensures Slot(k + 1, n) == Next(Slot(k, n), n)
    ensures (k + 1) / n == if Next(Slot(k, n), n) == 0 then k / n + 1 else k / n
  {
    var q, s := k / n, k % n;
    assert k == q * n + s;
    if s + 1 == n {
      assert (q + 1) * n == q * n + n;
      LapIs(k + 1, n, q + 1, 0);
    } else {
      LapIs(k + 1, n, q, s + 1);
    }
  }

  /** Fewer than n apart, positions have different slots; n apart, the same slot one lap later. */
  lemma SlotsApart(j: int, k: int, n: nat)
    requires j < k < j + n
    ensures Slot(j, n) != Slot(k, n)
  {
    if Slot(j, n) == Slot(k, n) {
      if j / n < k / n {
        MultipleStep(j / n, k / n, n);
      } else if k / n < j / n {
        MultipleStep(k / n, j / n, n);
      }
    }
  }

  lemma NextLap(k: int, n: nat)
    requires n > 0
    ensures Slot(k + n, n) == Slot(k, n) && (k + n) / n == k / n + 1
  {
    assert (k / n + 1) * n == k / n * n + n;
    LapIs(k + n, n, k / n + 1, k % n);
  }

  /** Every entry from `from` on is in its slot. */
  ghost predicate Mirrors<T>(slots: seq<T>, entries: seq<T>, from: nat) {
    && 0 < |slots| && |entries| <= from + |slots|
    && forall k | from <= k < |entries| :: slots[Slot(k, |slots|)] == entries[k]
  }

  lemma MirrorsPush<T>(slots: seq<T>, entries: seq<T>, from: nat, x: T)
    requires Mirrors(slots, entries, from) && from <= |entries| < from + |slots|
    ensures Mirrors(slots[Slot(|entries|, |slots|) := x], entries + [x], from)
  {
    hide Slot;
    var n := |slots|;
    var slots', entries' := slots[Slot(|entries|, n) := x], entries + [x];
    forall k | from <= k < |entries'| ensures slots'[Slot(k, n)] == entries'[k] {
      if k < |entries| {
        SlotsApart(k, |entries|, n);
      }
    }
  }

  lemma MirrorsUpdate<T>(slots: seq<T>, entries: seq<T>, from: nat, j: nat, x: T)
    requires Mirrors(slots, entries, from) && from <= j < |entries|
    ensures Mirrors(slots[Slot(j, |slots|) := x], entries[j := x], from)
  {
    hide Slot;
    var n := |slots|;
    var slots', entries' := slots[Slot(j, n) := x], entries[j := x];
    forall k | from <= k < |entries'| ensures slots'[Slot(k, n)] == entries'[k] {
      if k < j {
        SlotsApart(k, j, n);
      } else if j < k {
        SlotsApart(j, k, n);
      }
    }
  }

  lemma MirrorsDrop<T>(slots: seq<T>, entries: seq<T>, from: nat, from': nat)
    requires Mirrors(slots, entries, from) && from <= from'
    ensures Mirrors(slots, entries, from')
  {
    hide Slot;
  }

  lemma MirrorsAt<T>(slots: seq<T>, entries: seq<T>, from: nat, k: nat)
    requires Mirrors(slots, entries, from) && from <= k < |entries|
    ensures slots[Slot(k, |slots|)] == entries[k]
  {
    hide Slot;
  }
}
