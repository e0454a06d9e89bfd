/** The CRC-32 routines of utils/Crc32.cpp as loops over the data, each proved to compute Crc. */
module Crc32Routines {
  import opened Options
  import opened Word
  import opened Crc32
  import opened Crc32Tables

  /** crc32_bitwise */
  method Bitwise(data: seq<bv8>, previous: bv32) returns (result: bv32)
    ensures result == Crc(data, previous)
  {
    hide Xor, Not, Widen, ShiftBit;
    var crc := Not(previous);
    var current := 0;
    while current < |data|
      invariant 0 <= current <= |data|
      invariant Update(crc, data[current..]) == Update(Not(previous), data)
    {
      UpdateByte(crc, data, current);
      crc := Xor(crc, Widen(data[current]));
      ghost var whole := Steps(crc, 8);
      for j := 0 to 8
        invariant Steps(crc, 8 - j) == whole
      {
        crc := ShiftBit(crc);
      }
      current := current + 1;
    }
    return Not(crc);
  }

  /** crc32_halfbyte */
  method HalfByte(data: seq<bv8>, previous: bv32) returns (result: bv32)
    ensures result == Crc(data, previous)
  {
    hide Xor, Not, Widen, Steps, HalfByteStep;
    var crc := Not(previous);
    var current := 0;
    while current < |data|
      invariant 0 <= current <= |data|
      invariant Update(crc, data[current..]) == Update(Not(previous), data)
    {
      UpdateByte(crc, data, current);
      HalfByteStepIsSteps(crc, data[current]);
      crc := HalfByteStep(crc, data[current]);
      current := current + 1;
    }
    return Not(crc);
  }

  /** crc32_1byte_tableless */
  method Tableless(data: seq<bv8>, previous: bv32) returns (result: bv32)
    ensures result == Crc(data, previous)
  {
    hide Xor, Not, Widen, Steps, TablelessStep;
    var crc := Not(previous);
    var current := 0;
    while current < |data|
      invariant 0 <= current <= |data|
      invariant Update(crc, data[current..]) == Update(Not(previous), data)
    {
      UpdateByte(crc, data, current);
      TablelessStepIsSteps(crc, data[current]);
      crc := TablelessStep(crc, data[current]);
      current := current + 1;
    }
    return Not(crc);
  }

  /** crc32_1byte_tableless2 */
  method Tableless2(data: seq<bv8>, previous: bv32) returns (result: bv32)
    ensures result == Crc(data, previous)
  {
    hide Xor, Not, Widen, Steps, MaskedStep;
    var crc := Not(previous);
    var current := 0;
    while current < |data|
      invariant 0 <= current <= |data|
      invariant Update(crc, data[current..]) == Update(Not(previous), data)
    {
      UpdateByte(crc, data, current);
      MaskedStepIsSteps(crc, data[current]);
      crc := MaskedStep(crc, data[current]);
      current := current + 1;
    }
    return Not(crc);
  }

  /** The standard algorithm over data[start..], with which every slicing routine ends. */
  method RemainingBytes(data: seq<bv8>, start: nat, register: bv32) returns (crc: bv32)
    requires start <= |data|
    ensures crc == Update(register, data[start..])
  {
    hide Xor, Widen, Steps, ByteStep;
    crc := register;
    var current := start;
    while current < |data|
      invariant start <= current <= |data|
      invariant Update(crc, data[current..]) == Update(register, data[start..])
    {
      UpdateByte(crc, data, current);
      ByteStepIsSteps(crc, data[current]);
      crc := ByteStep(crc, data[current]);
      current := current + 1;
    }
  }

  /** crc32_1byte */
  method OneByte(data: seq<bv8>, previous: bv32) returns (result: bv32)
    ensures result == Crc(data, previous)
  {
    hide Not, Update;
    assert data[0..] == data;
    var crc := RemainingBytes(data, 0, Not(previous));
    return Not(crc);
  }

  function LoadAt(data: seq<bv8>, i: nat): bv32
    requires i + 4 <= |data|
  {
    Load(data[i], data[i + 1], data[i + 2], data[i + 3])
  }

  /** The slicing-by-8 and slicing-by-16 expressions: the last word uses the lowest slices. */
  function Slice8(one: bv32, two: bv32): bv32 {
    SliceOnto(Slice(0, two), 4, one)
  }

  function Slice16(one: bv32, two: bv32, three: bv32, four: bv32): bv32 {
    SliceOnto(SliceOnto(SliceOnto(Slice(0, four), 4, three), 8, two), 12, one)
  }

  /** A word after m bits takes part in the register as if it were read at once. */
  lemma NextWord(crc: bv32, word: bv32, m: nat)
    ensures Steps(Xor(Steps(crc, m), word), 32) == Xor(Steps(crc, m + 32), Steps(word, 32))
  {
    hide *;
    StepsLinear(Steps(crc, m), word, 32);
    StepsAdd(crc, m, 32);
  }

  lemma Slice8IsUpdate(crc: bv32, data: seq<bv8>, i: nat)
    requires i + 8 <= |data|
    ensures Update(crc, data[i..])
         == Update(Slice8(Xor(LoadAt(data, i), crc), LoadAt(data, i + 4)), data[i + 8..])
  {
    hide Xor, Steps, Update, Load, Slice, SliceOnto;
    var one, two := Xor(LoadAt(data, i), crc), LoadAt(data, i + 4);
    XorComm(LoadAt(data, i), crc);
    UpdateWord(crc, data, i);
    UpdateWord(Steps(one, 32), data, i + 4);
    NextWord(one, two, 32);
    SliceIsSteps(0, two);
    SliceOntoIsSteps(Slice(0, two), 4, one);
    XorComm(Steps(one, 64), Steps(two, 32));
  }

  lemma Slice16IsSteps(one: bv32, two: bv32, three: bv32, four: bv32)
    ensures Slice16(one, two, three, four)
         == Steps(Xor(Steps(Xor(Steps(Xor(Steps(one, 32), two), 32), three), 32), four), 32)
  {
    hide Xor, Steps, Slice, SliceOnto;
    var s1, s2, s3, s4 := Steps(one, 128), Steps(two, 96), Steps(three, 64), Steps(four, 32);
    SliceIsSteps(0, four);
    SliceOntoIsSteps(s4, 4, three);
    SliceOntoIsSteps(Xor(s4, s3), 8, two);
    SliceOntoIsSteps(Xor(Xor(s4, s3), s2), 12, one);
    NextWord(one, two, 32);
    var r2 := Xor(Steps(one, 64), Steps(two, 32));
    StepsLinear(Steps(one, 64), Steps(two, 32), 32);
    StepsAdd(one, 64, 32);
    StepsAdd(two, 32, 32);
    StepsLinear(r2, three, 32);
    var r3 := Xor(Xor(Steps(one, 96), Steps(two, 64)), Steps(three, 32));
    assert Steps(Xor(r2, three), 32) == r3;
    StepsLinear(r3, four, 32);
    StepsLinear(Xor(Steps(one, 96), Steps(two, 64)), Steps(three, 32), 32);
    StepsLinear(Steps(one, 96), Steps(two, 64), 32);
    StepsAdd(one, 96, 32);
    StepsAdd(two, 64, 32);
    StepsAdd(three, 32, 32);
    assert Steps(Xor(r3, four), 32) == Xor(Xor(Xor(s1, s2), s3), s4);
    XorComm(s1, s2);
    XorSwap(s2, s1, s3);
    XorComm(s2, s3);
    XorSwap(Xor(s3, s2), s1, s4);
    XorComm(Xor(s3, s2), s4);
    XorAssoc(s4, s3, s2);
  }

  lemma Slice16IsUpdate(crc: bv32, data: seq<bv8>, i: nat)
    requires i + 16 <= |data|
    ensures Update(crc, data[i..])
         == Update(Slice16(Xor(LoadAt(data, i), crc), LoadAt(data, i + 4), LoadAt(data, i + 8), LoadAt(data, i + 12)),
             data[i + 16..])
  {
    hide Xor, Steps, Update, Load, Slice16;
    var one, two := Xor(LoadAt(data, i), crc), LoadAt(data, i + 4);
    var three, four := LoadAt(data, i + 8), LoadAt(data, i + 12);
    XorComm(LoadAt(data, i), crc);
    var c1 := Steps(one, 32);
    var c2 := Steps(Xor(c1, two), 32);
    var c3 := Steps(Xor(c2, three), 32);
    UpdateWord(crc, data, i);
    UpdateWord(c1, data, i + 4);
    UpdateWord(c2, data, i + 8);
    UpdateWord(c3, data, i + 12);
    Slice16IsSteps(one, two, three, four);
  }

  /** crc32_4bytes */
  method FourBytes(data: seq<bv8>, previous: bv32) returns (result: bv32)
    ensures result == Crc(data, previous)
  {
    hide Xor, Not, Steps, Update, Slice, Load;
    var crc := Not(previous);
    var current, length := 0, |data|;
    assert data[0..] == data;
    while length >= 4
      invariant 0 <= current <= |data| && length == |data| - current
      invariant Update(crc, data[current..]) == Update(Not(previous), data)
    {
      var one := Xor(LoadAt(data, current), crc);
      XorComm(LoadAt(data, current), crc);
      UpdateWord(crc, data, current);
      SliceIsSteps(0, one);
      crc := Slice(0, one);
      current, length := current + 4, length - 4;
    }
    crc := RemainingBytes(data, current, crc);
    return Not(crc);
  }

  /** crc32_8bytes */
  method EightBytes(data: seq<bv8>, previous: bv32) returns (result: bv32)
    ensures result == Crc(data, previous)
  {
    hide Xor, Not, Steps, Update, Slice8, Load;
    var crc := Not(previous);
    var current, length := 0, |data|;
    assert data[0..] == data;
    while length >= 8
      invariant 0 <= current <= |data| && length == |data| - current
      invariant Update(crc, data[current..]) == Update(Not(previous), data)
    {
      Slice8IsUpdate(crc, data, current);
      crc := Slice8(Xor(LoadAt(data, current), crc), LoadAt(data, current + 4));
      current, length := current + 8, length - 8;
    }
    crc := RemainingBytes(data, current, crc);
    return Not(crc);
  }

  /** crc32_4x8bytes: slicing-by-8 with the inner loop repeated four times. */
  method FourTimesEightBytes(data: seq<bv8>, previous: bv32) returns (result: bv32)
    ensures result == Crc(data, previous)
  {
    hide Xor, Not, Steps, Update, Slice8, Load;
    var crc := Not(previous);
    var current, length := 0, |data|;
    assert data[0..] == data;
    while length >= 32
      invariant 0 <= current <= |data| && length == |data| - current
      invariant Update(crc, data[current..]) == Update(Not(previous), data)
    {
      for unrolling := 0 to 4
        invariant current + length == |data| + 8 * unrolling && length >= 32
        invariant Update(crc, data[current..]) == Update(Not(previous), data)
      {
        Slice8IsUpdate(crc, data, current);
        crc := Slice8(Xor(LoadAt(data, current), crc), LoadAt(data, current + 4));
        current := current + 8;
      }
      length := length - 32;
    }
    crc := RemainingBytes(data, current, crc);
    return Not(crc);
  }

  /** The unrolled slicing-by-16 block that crc32_16bytes and its prefetching form share. */
  method SixtyFourBytes(data: seq<bv8>, start: nat, register: bv32) returns (crc: bv32)
    requires start + 64 <= |data|
    ensures Update(crc, data[start + 64..]) == Update(register, data[start..])
  {
    hide Xor, Steps, Update, Slice16, Load;
    crc := register;
    for unrolling := 0 to 4
      invariant Update(crc, data[start + 16 * unrolling..]) == Update(register, data[start..])
    {
      var current := start + 16 * unrolling;
      Slice16IsUpdate(crc, data, current);
      crc := Slice16(Xor(LoadAt(data, current), crc), LoadAt(data, current + 4), LoadAt(data, current + 8),
          LoadAt(data, current + 12));
    }
  }

  /** crc32_16bytes */
  method SixteenBytes(data: seq<bv8>, previous: bv32) returns (result: bv32)
    ensures result == Crc(data, previous)
  {
    hide Not, Update;
    var crc := Not(previous);
    var current, length := 0, |data|;
    assert data[0..] == data;
    while length >= 64
      invariant 0 <= current <= |data| && length == |data| - current
      invariant Update(crc, data[current..]) == Update(Not(previous), data)
    {
      crc := SixtyFourBytes(data, current, crc);
      current, length := current + 64, length - 64;
    }
    crc := RemainingBytes(data, current, crc);
    return Not(crc);
  }

  /** BytesAtOnce + prefetchAhead as a size_t. */
  function PrefetchBound(prefetchAhead: nat): nat {
    (64 + prefetchAhead) % 0x1_0000_0000_0000_0000
  }

  /** Whether the prefetching loop stays inside the data: the sum does not wrap to less than a
      block, or the odd bytes at the end are too few to start another round. */
  predicate PrefetchSafe(length: nat, prefetchAhead: nat) {
    PrefetchBound(prefetchAhead) >= 64 || length % 64 < PrefetchBound(prefetchAhead)
  }

  /** crc32_16bytes_prefetch; None when length would wrap and the loop read past the data. */
  method SixteenBytesPrefetch(data: seq<bv8>, previous: bv32, prefetchAhead: nat) returns (result: Option<bv32>)
    ensures result == if PrefetchSafe(|data|, prefetchAhead) then Some(Crc(data, previous)) else None
  {
    hide Not, Update;
    var crc := Not(previous);
    var current, length := 0, |data|;
    assert data[0..] == data;
    while length >= PrefetchBound(prefetchAhead)
      invariant 0 <= current <= |data| && length == |data| - current && length % 64 == |data| % 64
      invariant Update(crc, data[current..]) == Update(Not(previous), data)
    {
      if length < 64 {
        return None;
      }
      crc := SixtyFourBytes(data, current, crc);
      current, length := current + 64, length - 64;
    }
    crc := RemainingBytes(data, current, crc);
    return Some(Not(crc));
  }
}
