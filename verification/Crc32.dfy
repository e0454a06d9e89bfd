/** The CRC-32 register (section 8 of RFC 1952) and its algebra over GF(2): the definitions that
    every routine of utils/Crc32.cpp is measured against. */
module Crc32 {
  import opened Word

  /** One step of the shift register: the polynomial is applied, without a branch, when the
      outgoing bit is set. */
  function ShiftBit(crc: bv32): bv32 {
    (crc >> 1) ^ ((0 - (crc & 1)) & 0xEDB88320)
  }

  /** The register after n zero bits. */
  function Steps(crc: bv32, n: nat): bv32
    decreases n
  {
    if n == 0 then crc else Steps(ShiftBit(crc), n - 1)
  }

  function Widen(b: bv8): bv32 { b as bv32 }

  /** The register after the bytes of data. */
  function Update(crc: bv32, data: seq<bv8>): bv32
    decreases |data|
  {
    if data == [] then crc else Update(Steps(Xor(crc, Widen(data[0])), 8), data[1..])
  }

  /** The checksum of data, continuing that of earlier bytes (0 when there are none). */
  function Crc(data: seq<bv8>, previous: bv32): bv32 {
    Not(Update(Not(previous), data))
  }

  // ----- An independent definition: a register fed one message bit at a time -----

  /** One message bit: the polynomial is applied when it differs from the outgoing bit. */
  function FeedBit(crc: bv32, bit: bv32): bv32 {
    if Odd(Xor(crc, bit)) then Xor(Half(crc), 0xEDB88320) else Half(crc)
  }

  /** Feeds the lowest n bits of b, lowest first. */
  function FeedBits(crc: bv32, b: bv32, n: nat): bv32
    decreases n
  {
    if n == 0 then crc else FeedBits(FeedBit(crc, b), Half(b), n - 1)
  }

  function BitSerial(crc: bv32, data: seq<bv8>): bv32
    decreases |data|
  {
    if data == [] then crc else BitSerial(FeedBits(crc, Widen(data[0]), 8), data[1..])
  }

  function Unfed(b: bv32, n: nat): bv32
    decreases n
  {
    if n == 0 then b else Unfed(Half(b), n - 1)
  }

  lemma EvenBits(a: bv32)
    requires !Odd(a)
    ensures ShiftBit(a) == Half(a)
  {
  }

  lemma OddBits(a: bv32)
    requires Odd(a)
    ensures ShiftBit(a) == Xor(a >> 1, 0xEDB88320) && Half(a) == a >> 1
  {
  }

  lemma FeedBitIsShift(crc: bv32, b: bv32)
    ensures ShiftBit(Xor(crc, b)) == Xor(FeedBit(crc, b), Half(b))
  {
    hide Xor, ShiftBit, Half, Odd;
    var x := Xor(crc, b);
    HalfLinear(crc, b);
    if Odd(x) {
      OddBits(x);
      XorSwap(Half(crc), Half(b), 0xEDB88320);
    } else {
      EvenBits(x);
    }
  }

  lemma {:induction false} FeedBitsIsSteps(crc: bv32, b: bv32, n: nat)
    ensures Steps(Xor(crc, b), n) == Xor(FeedBits(crc, b, n), Unfed(b, n))
    decreases n
  {
    hide Xor, ShiftBit, FeedBit, Half;
    if n > 0 {
      FeedBitIsShift(crc, b);
      FeedBitsIsSteps(FeedBit(crc, b), Half(b), n - 1);
    }
  }

  lemma UnfedByte(b: bv8)
    ensures Unfed(b as bv32, 8) == 0 && Widen(b) == b as bv32
  {
  }

  /** Exclusive-or of a whole byte followed by eight shifts is the bit-serial register. */
  lemma {:induction false} UpdateIsBitSerial(crc: bv32, data: seq<bv8>)
    ensures Update(crc, data) == BitSerial(crc, data)
    decreases |data|
  {
    hide Steps, Xor, FeedBits, Unfed, Widen;
    if data != [] {
      var b := Widen(data[0]);
      FeedBitsIsSteps(crc, b, 8);
      UnfedByte(data[0]);
      XorZero(FeedBits(crc, b, 8));
      UpdateIsBitSerial(FeedBits(crc, b, 8), data[1..]);
    }
  }

  // ----- Algebra of the register -----

  lemma ShiftXorBits(a: bv32, b: bv32)
    ensures ShiftBit(a ^ b) == Xor((a >> 1) ^ ((0 - (a & 1)) & 0xEDB88320), (b >> 1) ^ ((0 - (b & 1)) & 0xEDB88320))
  {
  }

  lemma ShiftBits(a: bv32)
    ensures ShiftBit(a) == (a >> 1) ^ ((0 - (a & 1)) & 0xEDB88320)
  {
  }

  lemma ShiftBitLinear(a: bv32, b: bv32)
    ensures ShiftBit(Xor(a, b)) == Xor(ShiftBit(a), ShiftBit(b))
  {
    hide *;
    XorBits(a, b);
    ShiftXorBits(a, b);
    ShiftBits(a);
    ShiftBits(b);
  }

  lemma {:induction false} StepsLinear(a: bv32, b: bv32, n: nat)
    ensures Steps(Xor(a, b), n) == Xor(Steps(a, n), Steps(b, n))
    decreases n
  {
    hide Xor, ShiftBit;
    if n > 0 {
      ShiftBitLinear(a, b);
      StepsLinear(ShiftBit(a), ShiftBit(b), n - 1);
    }
  }

  lemma {:induction false} StepsAdd(crc: bv32, m: nat, n: nat)
    ensures Steps(crc, m + n) == Steps(Steps(crc, m), n)
    decreases m
  {
    hide Xor, ShiftBit;
    if m > 0 {
      StepsAdd(ShiftBit(crc), m - 1, n);
    }
  }

  lemma {:induction false} UpdateConcat(crc: bv32, a: seq<bv8>, b: seq<bv8>)
    ensures Update(crc, a + b) == Update(Update(crc, a), b)
    decreases |a|
  {
    hide Xor, Steps, Widen;
    if a == [] {
      assert a + b == b;
    } else {
      assert (a + b)[1..] == a[1..] + b;
      UpdateConcat(Steps(Xor(crc, Widen(a[0])), 8), a[1..], b);
    }
  }

  /** Chaining through previousCrc32 gives the checksum of the concatenation. */
  lemma CrcChains(a: seq<bv8>, b: seq<bv8>, previous: bv32)
    ensures Crc(b, Crc(a, previous)) == Crc(a + b, previous)
  {
    hide Not, Update;
    NotTwice(Update(Not(previous), a));
    UpdateConcat(Not(previous), a, b);
  }

  /** A difference in the register travels through data as it would through zeros. */
  lemma {:induction false} UpdateDifference(crc: bv32, d: bv32, data: seq<bv8>)
    ensures Update(Xor(crc, d), data) == Xor(Update(crc, data), Steps(d, 8 * |data|))
    decreases |data|
  {
    hide Xor, Steps, Widen;
    if data == [] {
      StepsNone(d);
    } else {
      var b := Widen(data[0]);
      XorSwap(crc, d, b);
      StepsLinear(Xor(crc, b), d, 8);
      StepsAdd(d, 8, 8 * |data[1..]|);
      UpdateDifference(Steps(Xor(crc, b), 8), Steps(d, 8), data[1..]);
    }
  }

  lemma StepsNone(crc: bv32)
    ensures Steps(crc, 0) == crc
  {
  }

  /** What crc32_combine has to compute: the first checksum pushed through |b| zero bytes,
      corrected by the second. */
  lemma CrcOfConcat(a: seq<bv8>, b: seq<bv8>, previous: bv32)
    ensures Crc(a + b, previous) == Xor(Steps(Crc(a, previous), 8 * |b|), Crc(b, 0))
  {
    hide Xor, Steps, Update, Not;
    var first := Crc(a, previous);
    CrcChains(a, b, previous);
    NotIsXor(first);
    NotZero();
    UpdateDifference(Not(0), first, b);
    NotXor(Update(Not(0), b), Steps(first, 8 * |b|));
    XorComm(Not(Update(Not(0), b)), Steps(first, 8 * |b|));
  }

  lemma NotZero()
    ensures Not(0) == 0xFFFF_FFFF
  {
  }
}
