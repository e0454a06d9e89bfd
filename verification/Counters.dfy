/** 32-bit ring counters and the arithmetic the host does on them (lib/smartns_dv.cpp). */
module Counters {
  import opened Options
  import opened RingIndex

  function U32(k: int): (u: nat)
    ensures u < 0x1_0000_0000
  {
    k % 0x1_0000_0000
  }

  /** A ring size that divides the counter space, as every power of two up to 2^32 does. */
  predicate RingSize(n: nat) { 0 < n <= 0x8000_0000 && 0x1_0000_0000 % n == 0 }

  /** Masking a wrapped counter gives the slot of the unwrapped one. */
  lemma MaskedSlot(k: nat, n: nat)
    requires RingSize(n)
    ensures U32(k) % n == Slot(k, n)
  {
    var laps, rest := k / 0x1_0000_0000, U32(k);
    var m := 0x1_0000_0000 / n;
    assert 0x1_0000_0000 == m * n;
    assert k == laps * 0x1_0000_0000 + rest;
    assert laps * 0x1_0000_0000 == (laps * m) * n;
    assert rest == rest / n * n + rest % n;
    assert (laps * m + rest / n) * n == (laps * m) * n + rest / n * n;
    LapIs(k, n, laps * m + rest / n, rest % n);
  }

  /** head - tail is the true occupancy however often either has wrapped. */
  lemma Occupancy(head: nat, tail: nat)
    requires tail <= head < tail + 0x1_0000_0000
    ensures U32(U32(head) - U32(tail)) == head - tail
  {
    var a, b := head / 0x1_0000_0000, tail / 0x1_0000_0000;
    assert U32(head) - U32(tail) == head - tail - (a - b) * 0x1_0000_0000;
  }

  lemma U32Next(k: int)
    ensures U32(U32(k) + 1) == U32(k + 1)
  {
  }

  /** The position from `from` on that a 32-bit counter names. */
  function TrueIndex(from: nat, counter: nat): (k: nat)
    ensures from <= k < from + 0x1_0000_0000
  {
    from + U32(counter - from)
  }

  lemma TrueIndexIs(from: nat, k: nat)
    requires from <= k < from + 0x1_0000_0000
    ensures TrueIndex(from, U32(k)) == k
  {
    var a := k / 0x1_0000_0000;
    assert U32(k) - from == (k - from) - a * 0x1_0000_0000;
  }

  lemma TrueIndexCounter(from: nat, counter: nat)
    requires counter < 0x1_0000_0000
    ensures U32(TrueIndex(from, counter)) == counter
  {
  }

  /** The new tail after the completion of the request with this counter; None is the exit. */
  function TailUpdate(tail: nat, counter: nat, n: nat): Option<nat> {
    if tail > counter then
      if counter < n && tail >= 0xFFFF_FFFF - n then Some(U32(counter + 1)) else None
    else Some(U32(counter + 1))
  }

  /** For a completion of an outstanding request the exit is not reached, across any wrap. */
  lemma TailUpdateIsRight(tail: nat, k: nat, n: nat)
    requires tail <= k < tail + n && n <= 0x8000_0000
    ensures TailUpdate(U32(tail), U32(k), n) == Some(U32(k + 1))
  {
    var a, b := k / 0x1_0000_0000, tail / 0x1_0000_0000;
    assert a == b || a == b + 1;
  }

  /** A completion that comes late, behind the tail but within a ring of it, exits exactly when the
      counters have not wrapped between them; when they have, the tail silently moves back to it. */
  lemma LateCompletion(tail: nat, k: nat, n: nat)
    requires k < tail <= k + n && 3 * n < 0x1_0000_0000
    ensures TailUpdate(U32(tail), U32(k), n) == None <==> k / 0x1_0000_0000 == tail / 0x1_0000_0000
    ensures k / 0x1_0000_0000 != tail / 0x1_0000_0000 ==>
      TailUpdate(U32(tail), U32(k), n) == Some(U32(k + 1)) && k + 1 <= tail
  {
    var a, b := k / 0x1_0000_0000, tail / 0x1_0000_0000;
    assert a == b || b == a + 1;
  }

  /** The 16-bit index into wrid. */
  function WridSlot(counter: nat, n: nat): nat
    requires n > 0
  {
    counter % n % 0x1_0000
  }

  lemma WridSlotWithin(counter: nat, n: nat)
    requires n > 0
    ensures WridSlot(counter, n) < n && (n <= 0x1_0000 ==> WridSlot(counter, n) == counter % n)
  {
    var slot := counter % n;
    assert slot < n;
    assert slot % 0x1_0000 <= slot;
  }

  /** The truncation is harmless exactly for rings of at most 65536 entries. */
  lemma WridSlotIsExact(n: nat)
    requires RingSize(n)
    ensures (forall counter: nat | counter < 0x1_0000_0000 :: WridSlot(counter, n) == counter % n) <==> n <= 0x1_0000
  {
    if n > 0x1_0000 {
      assert WridSlot(0x1_0000, n) == 0;
      assert 0x1_0000 % n == 0x1_0000;
    } else {
      forall counter: nat | counter < 0x1_0000_0000 ensures WridSlot(counter, n) == counter % n {
        assert counter % n < 0x1_0000;
      }
    }
  }
}
