/** Rings shared by a producer and a consumer that never see each other's positions: every cell has an
    owner bit, and a DMA engine copies cells from the producer's memory to the consumer's. */
module Rings {
  import opened RingIndex

  datatype Cell<T> = Cell(own: bool, value: T)

  /** The owner bit of entry k: set on the first lap, flipped on every later one. A cell not written
      yet holds, as calloc leaves it, the bit of the lap before the first. */
  function Flag(k: int, n: nat): bool
    requires n > 0
  {
    (k / n) % 2 == 0
  }

  /** The memory holds the last n entries of log, each with its bit. */
  ghost predicate Image<T>(mem: seq<Cell<T>>, log: seq<T>) {
    && |mem| > 0
    && (forall k: int | |log| - |mem| <= k < |log| :: InCell(mem, log, k))
  }

  predicate InCell<T(==)>(mem: seq<Cell<T>>, log: seq<T>, k: int)
    requires |mem| > 0 && k < |log|
  {
    var c := mem[Slot(k, |mem|)];
    c.own == Flag(k, |mem|) && (0 <= k ==> c.value == log[k])
  }

  lemma NextFlag(k: int, n: nat)
    requires n > 0
    ensures Flag(k + n, n) == !Flag(k, n)
    ensures Flag(k + 1, n) == if Next(Slot(k, n), n) == 0 then !Flag(k, n) else Flag(k, n)
  {
    NextLap(k, n);
    SlotNext(k, n);
  }

  lemma ImageInit<T>(mem: seq<Cell<T>>)
    requires |mem| > 0 && forall s | 0 <= s < |mem| :: !mem[s].own
    ensures Image(mem, [])
  {
    forall k: int | -|mem| <= k < 0 ensures InCell(mem, [], k) {
      assert k == -1 * |mem| + (k + |mem|);
      LapIs(k, |mem|, -1, k + |mem|);
    }
  }

  lemma ImageWrite<T>(mem: seq<Cell<T>>, log: seq<T>, x: T)
    requires Image(mem, log)
    ensures Image(mem[Slot(|log|, |mem|) := Cell(Flag(|log|, |mem|), x)], log + [x])
  {
    hide Slot, Flag;
    var n := |mem|;
    var mem', log' := mem[Slot(|log|, n) := Cell(Flag(|log|, n), x)], log + [x];
    forall k: int | |log'| - n <= k < |log'| ensures InCell(mem', log', k) {
      if k < |log| {
        assert InCell(mem, log, k);
        SlotsApart(k, |log|, n);
      }
    }
  }

  /** Copying one cell extends the copy by one entry. */
  lemma ImageCopy<T>(host: seq<Cell<T>>, dpu: seq<Cell<T>>, log: seq<T>, c: nat)
    requires Image(host, log) && c < |log| <= c + |host| && |host| == |dpu|
    requires Image(dpu, log[..c])
    ensures Image(dpu[Slot(c, |dpu|) := host[Slot(c, |dpu|)]], log[..c + 1])
  {
    hide Slot, Flag, Image;
    ImageAt(host, log, c);
    ImageWrite(dpu, log[..c], log[c]);
    assert log[..c] + [log[c]] == log[..c + 1];
    assert host[Slot(c, |dpu|)] == Cell(Flag(c, |dpu|), log[c]);
  }

  lemma ImageAt<T>(mem: seq<Cell<T>>, log: seq<T>, k: nat)
    requires Image(mem, log) && |log| - |mem| <= k < |log|
    ensures mem[Slot(k, |mem|)] == Cell(Flag(k, |mem|), log[k])
  {
    hide Slot, Flag;
    assert InCell(mem, log, k);
  }

  /** What a consumer that has taken c entries sees in its next cell: the entry c of the latest lap.
      It takes the cell to be new exactly when an even number of laps lie between. */
  lemma PollSees<T>(mem: seq<Cell<T>>, log: seq<T>, c: nat)
    requires Image(mem, log) && c <= |log|
    ensures var laps := (|log| - 1 - c) / |mem|;
      && (mem[Slot(c, |mem|)].own == Flag(c, |mem|) <==> laps % 2 == 0)
      && (c < |log| ==> 0 <= laps && c + laps * |mem| < |log|
                        && mem[Slot(c, |mem|)].value == log[c + laps * |mem|])
  {
    var n := |mem|;
    var laps := (|log| - 1 - c) / n;
    LastLap(|log| - 1 - c, n);
    SlotLater(c, laps, n);
    hide Slot, Flag;
    assert InCell(mem, log, c + laps * n);
  }

  /** The last position at most d that is a whole number of laps on. */
  lemma LastLap(d: int, n: nat)
    requires n > 0 && -1 <= d
    ensures d - n < d / n * n <= d
    ensures 0 <= d ==> 0 <= d / n && 0 <= d / n * n
  {
    assert d == d / n * n + d % n;
  }

  lemma SlotLater(c: nat, laps: int, n: nat)
    requires n > 0
    ensures Slot(c + laps * n, n) == Slot(c, n)
    ensures Flag(c + laps * n, n) == Flag(c, n) <==> laps % 2 == 0
  {
    assert (c / n + laps) * n == c / n * n + laps * n;
    assert 0 <= c % n < n && c == c / n * n + c % n;
    LapIs(c + laps * n, n, c / n + laps, c % n);
  }

  /** The handshake is exact while at most a lap is outstanding: the bit matches if and only if the
      entry has arrived, and the cell then holds that entry. */
  lemma Handshake<T>(mem: seq<Cell<T>>, log: seq<T>, c: nat)
    requires Image(mem, log) && c <= |log| <= c + |mem|
    ensures mem[Slot(c, |mem|)].own == Flag(c, |mem|) <==> c < |log|
    ensures c < |log| ==> mem[Slot(c, |mem|)].value == log[c]
  {
    hide Slot, Flag, Image;
    PollSees(mem, log, c);
    var d := |log| - 1 - c;
    if d >= 0 {
      assert d == 0 * |mem| + d;
      LapIs(d, |mem|, 0, d);
    } else {
      assert d == -1 * |mem| + (d + |mem|);
      LapIs(d, |mem|, -1, d + |mem|);
    }
  }
}
