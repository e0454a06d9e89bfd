/** The step functions of the table-driven and tableless routines of utils/Crc32.cpp, each proved
    equal to the same number of single-bit steps of the register. */
module Crc32Tables {
  import opened Word
  import opened Crc32

  // ----- A register step splits at a byte or nibble boundary -----

  function Drop(a: bv32, n: nat): bv32
    decreases n
  {
    if n == 0 then a else Drop(Half(a), n - 1)
  }

  predicate LowZeros(a: bv32, n: nat)
    decreases n
  {
    n == 0 || (!Odd(a) && LowZeros(Half(a), n - 1))
  }

  /** Zero bits leave the register without feedback. */
  lemma {:induction false} ShiftOut(a: bv32, n: nat)
    requires LowZeros(a, n)
    ensures Steps(a, n) == Drop(a, n)
    decreases n
  {
    hide ShiftBit, Half, Odd;
    if n > 0 {
      EvenBits(a);
      ShiftOut(Half(a), n - 1);
    }
  }

  lemma LowZerosBits(y: bv32)
    ensures LowZeros(y << 8, 8)
  {
  }

  lemma DropBits(y: bv32)
    ensures Drop(y << 8, 8) == Shr8(y << 8)
  {
  }

  lemma ShiftOutByte(y: bv32)
    requires Shr8(Shl8(y)) == y
    ensures Steps(Shl8(y), 8) == y
  {
    hide *;
    ShlBits(y);
    LowZerosBits(y);
    DropBits(y);
    ShiftOut(y << 8, 8);
  }

  /** Bytes that have not reached the bottom of the register only move down. */
  lemma Peel(x: bv32, y: bv32, m: nat)
    requires Shr8(Shl8(y)) == y
    ensures Steps(Xor(x, Shl8(y)), 8 + m) == Steps(Xor(Steps(x, 8), y), m)
  {
    hide *;
    StepsAdd(Xor(x, Shl8(y)), 8, m);
    StepsLinear(x, Shl8(y), 8);
    ShiftOutByte(y);
  }

  lemma StepsSplit(a: bv32, m: nat)
    ensures Steps(a, 8 + m) == Xor(Steps(Byte0(a), 8 + m), Steps(Shr8(a), m))
  {
    hide *;
    SplitLow(a);
    Peel(Byte0(a), Shr8(a), m);
    StepsLinear(Steps(Byte0(a), 8), Shr8(a), m);
    StepsAdd(Byte0(a), 8, m);
  }

  // ----- The lookup table and the standard algorithm -----

  /** The step of the table generator, a multiplication by the outgoing bit. */
  function GeneratorBit(crc: bv32): bv32 { (crc >> 1) ^ ((crc & 1) * 0xEDB88320) }

  function GeneratorBits(crc: bv32, n: nat): bv32
    decreases n
  {
    if n == 0 then crc else GeneratorBits(GeneratorBit(crc), n - 1)
  }

  /** Crc32Lookup[slice][i], by the recurrence documented above the table. */
  function Lookup(slice: nat, i: bv32): bv32
    decreases slice
  {
    if slice == 0 then GeneratorBits(i, 8)
    else Xor(Shr8(Lookup(slice - 1, i)), Lookup(0, Byte0(Lookup(slice - 1, i))))
  }

  lemma GeneratorBitBits(crc: bv32)
    ensures GeneratorBit(crc) == ShiftBit(crc)
  {
    assert (crc & 1) * 0xEDB88320 == (0 - (crc & 1)) & 0xEDB88320;
  }

  lemma {:induction false} GeneratorIsSteps(crc: bv32, n: nat)
    ensures GeneratorBits(crc, n) == Steps(crc, n)
    decreases n
  {
    hide GeneratorBit, ShiftBit;
    if n > 0 {
      GeneratorBitBits(crc);
      GeneratorIsSteps(ShiftBit(crc), n - 1);
    }
  }

  /** Entry i of slice s is byte i pushed through s + 1 bytes of zeros. */
  lemma {:induction false} LookupIsSteps(slice: nat, i: bv32)
    ensures Lookup(slice, i) == Steps(i, 8 * slice + 8)
    decreases slice
  {
    hide Xor, Shr8, Byte0, Steps, GeneratorBits;
    if slice == 0 {
      GeneratorIsSteps(i, 8);
    } else {
      var p := Steps(i, 8 * slice);
      LookupIsSteps(slice - 1, i);
      LookupIsSteps(0, Byte0(p));
      StepsSplit(p, 0);
      StepsNone(Shr8(p));
      XorComm(Shr8(p), Steps(Byte0(p), 8));
      StepsAdd(i, 8 * slice, 8);
    }
  }

  /** (crc >> 8) ^ Crc32Lookup[0][(crc & 0xFF) ^ b] */
  function ByteStep(crc: bv32, b: bv8): bv32 {
    Xor(Shr8(crc), Lookup(0, Xor(Byte0(crc), Widen(b))))
  }

  lemma WidenBits(b: bv8)
    ensures Widen(b) == b as bv32
  {
  }

  lemma AddByteBits(crc: bv32, b: bv8)
    ensures Byte0(crc ^ (b as bv32)) == Xor(crc & 0xFF, b as bv32)
    ensures Shr8(crc ^ (b as bv32)) == crc >> 8
  {
  }

  lemma Byte0Bits(a: bv32)
    ensures Byte0(a) == a & 0xFF
  {
  }

  lemma ByteStepIsSteps(crc: bv32, b: bv8)
    ensures ByteStep(crc, b) == Steps(Xor(crc, Widen(b)), 8)
  {
    hide Xor, Shr8, Byte0, Steps, Lookup, Widen;
    var x := Xor(crc, Widen(b));
    XorBits(crc, b as bv32);
    WidenBits(b);
    AddByteBits(crc, b);
    Byte0Bits(crc);
    ShrBits(crc);
    LookupIsSteps(0, Byte0(x));
    StepsSplit(x, 0);
    StepsNone(Shr8(x));
    XorComm(Shr8(x), Steps(Byte0(x), 8));
  }

  // ----- Half bytes -----

  /** The sixteen words of Crc32Lookup16. */
  function Lookup16(i: bv32): bv32 {
    if i == 0 then 0x00000000 else if i == 1 then 0x1DB71064
    else if i == 2 then 0x3B6E20C8 else if i == 3 then 0x26D930AC
    else if i == 4 then 0x76DC4190 else if i == 5 then 0x6B6B51F4
    else if i == 6 then 0x4DB26158 else if i == 7 then 0x5005713C
    else if i == 8 then 0xEDB88320 else if i == 9 then 0xF00F9344
    else if i == 10 then 0xD6D6A3E8 else if i == 11 then 0xCB61B38C
    else if i == 12 then 0x9B64C2B0 else if i == 13 then 0x86D3D2D4
    else if i == 14 then 0xA00AE278 else 0xBDBDF21C
  }

  function Nibble0(a: bv32): bv32 { a & 0xF }
  function Shr4(a: bv32): bv32 { a >> 4 }

  function HalfByteStep(crc: bv32, b: bv8): bv32 {
    var first := Xor(Lookup16(Nibble0(Xor(crc, Widen(b)))), Shr4(crc));
    Xor(Lookup16(Nibble0(Xor(first, Shr4(Widen(b))))), Shr4(first))
  }

  lemma NibbleCases(i: bv32)
    ensures var n := Nibble0(i);
      || n == 0 || n == 1 || n == 2 || n == 3 || n == 4 || n == 5 || n == 6 || n == 7
      || n == 8 || n == 9 || n == 10 || n == 11 || n == 12 || n == 13 || n == 14 || n == 15
  {
  }

  lemma Lookup16IsSteps(i: bv32)
    ensures Lookup16(Nibble0(i)) == Steps(Nibble0(i), 4)
  {
    NibbleCases(i);
    hide Nibble0;
  }

  lemma SplitNibbleBits(a: bv32)
    ensures a == Xor(Nibble0(a), (a >> 4) << 4) && Drop((a >> 4) << 4, 4) == Shr4(a)
  {
  }

  lemma LowNibbleZeroBits(a: bv32)
    ensures LowZeros(a << 4, 4)
  {
  }

  lemma Shr4Bits(a: bv32)
    ensures Shr4(a) == a >> 4
  {
  }

  lemma NibbleStep(a: bv32)
    ensures Steps(a, 4) == Xor(Lookup16(Nibble0(a)), Shr4(a))
  {
    hide *;
    SplitNibbleBits(a);
    StepsLinear(Nibble0(a), (a >> 4) << 4, 4);
    LowNibbleZeroBits(a >> 4);
    ShiftOut((a >> 4) << 4, 4);
    Lookup16IsSteps(a);
  }

  lemma Shr4XorBits(a: bv32, b: bv32)
    ensures Shr4(a ^ b) == Xor(a >> 4, b >> 4)
  {
  }

  lemma Shr4Linear(a: bv32, b: bv32)
    ensures Shr4(Xor(a, b)) == Xor(Shr4(a), Shr4(b))
  {
    hide *;
    XorBits(a, b);
    Shr4XorBits(a, b);
    Shr4Bits(a);
    Shr4Bits(b);
  }

  lemma HighNibbleBits(b: bv8)
    ensures Shr4(Shr4(Widen(b))) == 0
  {
  }

  lemma HalfByteStepIsSteps(crc: bv32, b: bv8)
    ensures HalfByteStep(crc, b) == Steps(Xor(crc, Widen(b)), 8)
  {
    hide Xor, Shr4, Nibble0, Steps, Lookup16, Widen;
    var x := Xor(crc, Widen(b));
    var first := Xor(Lookup16(Nibble0(x)), Shr4(crc));
    var high := Shr4(Widen(b));
    Shr4Linear(crc, Widen(b));
    NibbleStep(x);
    XorAssoc(Lookup16(Nibble0(x)), Shr4(crc), high);
    Shr4Linear(first, high);
    HighNibbleBits(b);
    XorZero(Shr4(first));
    NibbleStep(Xor(first, high));
    StepsAdd(x, 4, 4);
  }

  // ----- Without tables -----

  /** crc32_1byte_tableless: the feedback of a byte as sums of shifts. */
  function TablelessFeedback(s: bv32): bv32 {
    var low := (s ^ (s << 6)) & 0xFF;
    var a := low * ((1 << 23) + (1 << 14) + (1 << 2));
    (low * ((1 << 24) + (1 << 16) + (1 << 8))) ^ a ^ (a >> 1)
    ^ (low * ((1 << 20) + (1 << 12))) ^ (low << 19) ^ (low << 17) ^ (low >> 2)
  }

  function TablelessStep(crc: bv32, b: bv8): bv32 {
    Xor(Shr8(crc), TablelessFeedback(Xor(Byte0(crc), Widen(b))))
  }

  lemma EightSteps(s: bv32)
    ensures Steps(s, 8)
         == ShiftBit(ShiftBit(ShiftBit(ShiftBit(ShiftBit(ShiftBit(ShiftBit(ShiftBit(s))))))))
  {
    hide ShiftBit;
  }

  lemma TablelessBits(s: bv32)
    requires s & 0xFF == s
    ensures TablelessFeedback(s)
         == ShiftBit(ShiftBit(ShiftBit(ShiftBit(ShiftBit(ShiftBit(ShiftBit(ShiftBit(s))))))))
  {
  }

  lemma TablelessStepIsSteps(crc: bv32, b: bv8)
    ensures TablelessStep(crc, b) == Steps(Xor(crc, Widen(b)), 8)
  {
    hide Xor, Shr8, Byte0, Steps, ShiftBit, Lookup, Widen, TablelessFeedback;
    var s := Xor(Byte0(crc), Widen(b));
    ByteXorBits(crc, b);
    XorBits(crc & 0xFF, b as bv32);
    WidenBits(b);
    Byte0Bits(crc);
    EightSteps(s);
    TablelessBits(s);
    LookupIsSteps(0, s);
    ByteStepIsSteps(crc, b);
  }

  lemma ByteXorBits(crc: bv32, b: bv8)
    ensures ((crc & 0xFF) ^ (b as bv32)) & 0xFF == (crc & 0xFF) ^ (b as bv32)
  {
  }

  /** x >> 31 of a signed word: all ones when the sign bit is set. */
  function SignFill(x: bv32): bv32 {
    if x & 0x8000_0000 != 0 then 0xFFFF_FFFF else 0
  }

  /** crc32_1byte_tableless2: one masked copy of the polynomial for each bit of the byte. */
  function MaskedFeedback(crc: bv32): bv32 {
    var p: bv32 := 0xEDB88320;
    (SignFill(crc << 31) & ((p >> 7) ^ (p >> 1))) ^ (SignFill(crc << 30) & ((p >> 6) ^ p))
    ^ (SignFill(crc << 29) & (p >> 5)) ^ (SignFill(crc << 28) & (p >> 4))
    ^ (SignFill(crc << 27) & (p >> 3)) ^ (SignFill(crc << 26) & (p >> 2))
    ^ (SignFill(crc << 25) & (p >> 1)) ^ (SignFill(crc << 24) & p)
  }

  function MaskedStep(crc: bv32, b: bv8): bv32 {
    var x := Xor(crc, Widen(b));
    Xor(Shr8(x), MaskedFeedback(x))
  }

  lemma MaskedByteBits(s: bv32)
    requires s & 0xFF == s
    ensures MaskedFeedback(s)
         == ShiftBit(ShiftBit(ShiftBit(ShiftBit(ShiftBit(ShiftBit(ShiftBit(ShiftBit(s))))))))
  {
  }

  lemma MaskedLowBits(x: bv32)
    ensures MaskedFeedback(x) == MaskedFeedback(x & 0xFF) && Byte0(x) == x & 0xFF && (x & 0xFF) & 0xFF == x & 0xFF
  {
  }

  lemma MaskedStepIsSteps(crc: bv32, b: bv8)
    ensures MaskedStep(crc, b) == Steps(Xor(crc, Widen(b)), 8)
  {
    hide Xor, Shr8, Byte0, Steps, ShiftBit, Widen, MaskedFeedback;
    var x := Xor(crc, Widen(b));
    MaskedLowBits(x);
    MaskedByteBits(Byte0(x));
    EightSteps(Byte0(x));
    StepsSplit(x, 0);
    StepsNone(Shr8(x));
    XorComm(Shr8(x), Steps(Byte0(x), 8));
  }

  // ----- Slicing -----

  /** A 32-bit little-endian load, and its upper three and two bytes. */
  function Load(b0: bv8, b1: bv8, b2: bv8, b3: bv8): bv32 {
    (b0 as bv32) | ((b1 as bv32) << 8) | ((b2 as bv32) << 16) | ((b3 as bv32) << 24)
  }

  function Load3(b1: bv8, b2: bv8, b3: bv8): bv32 {
    (b1 as bv32) | ((b2 as bv32) << 8) | ((b3 as bv32) << 16)
  }

  function Load2(b2: bv8, b3: bv8): bv32 {
    (b2 as bv32) | ((b3 as bv32) << 8)
  }

  /** Four lookups for one word, in slices k .. k + 3. */
  function Slice(k: nat, w: bv32): bv32 {
    Xor(Xor(Xor(Lookup(k, Byte3(w)), Lookup(k + 1, Byte2(w))), Lookup(k + 2, Byte1(w))), Lookup(k + 3, Byte0(w)))
  }

  /** The same four lookups folded onto those of later words. */
  function SliceOnto(acc: bv32, k: nat, w: bv32): bv32 {
    Xor(Xor(Xor(Xor(acc, Lookup(k, Byte3(w))), Lookup(k + 1, Byte2(w))), Lookup(k + 2, Byte1(w))),
        Lookup(k + 3, Byte0(w)))
  }

  lemma SliceIsSteps(k: nat, w: bv32)
    ensures Slice(k, w) == Steps(w, 8 * k + 32)
  {
    hide Xor, Shr8, Byte0, Byte1, Byte2, Byte3, Steps, Lookup;
    var n := 8 * k;
    var s0, s1, s2, s3 := Steps(Byte0(w), n + 32), Steps(Byte1(w), n + 24), Steps(Byte2(w), n + 16),
        Steps(Byte3(w), n + 8);
    LookupIsSteps(k + 3, Byte0(w));
    LookupIsSteps(k + 2, Byte1(w));
    LookupIsSteps(k + 1, Byte2(w));
    LookupIsSteps(k, Byte3(w));
    BytesOfShr(w);
    BytesOfShr(Shr8(w));
    BytesOfShr(Shr8(Shr8(w)));
    TopByte(w);
    StepsSplit(w, n + 24);
    StepsSplit(Shr8(w), n + 16);
    StepsSplit(Shr8(Shr8(w)), n + 8);
    assert Steps(w, n + 32) == Xor(s0, Xor(s1, Xor(s2, s3)));
    XorComm(s2, s3);
    XorComm(s1, Xor(s3, s2));
    XorComm(s0, Xor(Xor(s3, s2), s1));
  }

  lemma SliceOntoIsSteps(acc: bv32, k: nat, w: bv32)
    ensures SliceOnto(acc, k, w) == Xor(acc, Steps(w, 8 * k + 32))
  {
    hide Xor, Byte0, Byte1, Byte2, Byte3, Steps, Lookup;
    var a, b, c, d := Lookup(k, Byte3(w)), Lookup(k + 1, Byte2(w)), Lookup(k + 2, Byte1(w)), Lookup(k + 3, Byte0(w));
    SliceIsSteps(k, w);
    XorAssoc(acc, a, b);
    XorAssoc(acc, Xor(a, b), c);
    XorAssoc(acc, Xor(Xor(a, b), c), d);
  }

  lemma LoadBits(b0: bv8, b1: bv8, b2: bv8, b3: bv8)
    ensures var t: bv32 := (b1 as bv32) | ((b2 as bv32) << 8) | ((b3 as bv32) << 16);
      Load(b0, b1, b2, b3) == Xor(b0 as bv32, t << 8) && Load3(b1, b2, b3) == t && Shr8(t << 8) == t
  {
  }

  lemma Load3Bits(b1: bv8, b2: bv8, b3: bv8)
    ensures var t: bv32 := (b2 as bv32) | ((b3 as bv32) << 8);
      Load3(b1, b2, b3) == Xor(b1 as bv32, t << 8) && Load2(b2, b3) == t && Shr8(t << 8) == t
  {
  }

  lemma Load2Bits(b2: bv8, b3: bv8)
    ensures Load2(b2, b3) == Xor(b2 as bv32, (b3 as bv32) << 8)
    ensures Shr8((b3 as bv32) << 8) == b3 as bv32
  {
  }

  lemma LoadStep(b0: bv8, b1: bv8, b2: bv8, b3: bv8)
    ensures Load(b0, b1, b2, b3) == Xor(Widen(b0), Shl8(Load3(b1, b2, b3)))
    ensures Shr8(Shl8(Load3(b1, b2, b3))) == Load3(b1, b2, b3)
  {
    hide *;
    WidenBits(b0);
    LoadBits(b0, b1, b2, b3);
    ShlBits((b1 as bv32) | ((b2 as bv32) << 8) | ((b3 as bv32) << 16));
  }

  lemma Load3Step(b1: bv8, b2: bv8, b3: bv8)
    ensures Load3(b1, b2, b3) == Xor(Widen(b1), Shl8(Load2(b2, b3)))
    ensures Shr8(Shl8(Load2(b2, b3))) == Load2(b2, b3)
  {
    hide *;
    WidenBits(b1);
    Load3Bits(b1, b2, b3);
    ShlBits((b2 as bv32) | ((b3 as bv32) << 8));
  }

  lemma Load2Step(b2: bv8, b3: bv8)
    ensures Load2(b2, b3) == Xor(Widen(b2), Shl8(Widen(b3)))
    ensures Shr8(Shl8(Widen(b3))) == Widen(b3)
  {
    hide *;
    WidenBits(b2);
    WidenBits(b3);
    Load2Bits(b2, b3);
    ShlBits(b3 as bv32);
  }

  lemma UpdateByte(crc: bv32, data: seq<bv8>, i: nat)
    requires i < |data|
    ensures Update(crc, data[i..]) == Update(Steps(Xor(crc, Widen(data[i])), 8), data[i + 1..])
  {
    hide Xor, Steps, Widen;
    assert data[i..][1..] == data[i + 1..];
  }

  /** Four bytes at once: the register takes a whole word and moves 32 steps. */
  lemma UpdateWord(crc: bv32, data: seq<bv8>, i: nat)
    requires i + 4 <= |data|
    ensures Update(crc, data[i..])
         == Update(Steps(Xor(crc, Load(data[i], data[i + 1], data[i + 2], data[i + 3])), 32), data[i + 4..])
  {
    hide *;
    var w0, w1, w2, w3 := Widen(data[i]), Widen(data[i + 1]), Widen(data[i + 2]), Widen(data[i + 3]);
    var t1, t2 := Load3(data[i + 1], data[i + 2], data[i + 3]), Load2(data[i + 2], data[i + 3]);
    LoadStep(data[i], data[i + 1], data[i + 2], data[i + 3]);
    Load3Step(data[i + 1], data[i + 2], data[i + 3]);
    Load2Step(data[i + 2], data[i + 3]);
    var s1 := Steps(Xor(crc, w0), 8);
    var s2 := Steps(Xor(s1, w1), 8);
    var s3 := Steps(Xor(s2, w2), 8);
    UpdateByte(crc, data, i);
    UpdateByte(s1, data, i + 1);
    UpdateByte(s2, data, i + 2);
    UpdateByte(s3, data, i + 3);
    XorAssoc(crc, w0, Shl8(t1));
    Peel(Xor(crc, w0), t1, 24);
    XorAssoc(s1, w1, Shl8(t2));
    Peel(Xor(s1, w1), t2, 16);
    XorAssoc(s2, w2, Shl8(w3));
    Peel(Xor(s2, w2), w3, 8);
  }
}
