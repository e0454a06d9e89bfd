/** crc32_combine of utils/Crc32.cpp: appending zero bytes to a checksum by repeated squaring of a
    32 x 32 matrix over GF(2). A matrix is an array of 32 columns, column i being its image of the
    word whose only set bit is bit i. */
module Crc32Combine {
  import opened Word
  import opened Crc32

  function Double(a: bv32): bv32 { a << 1 }

  /** The word whose only set bit is bit i (zero from bit 32 on). */
  function Bit(i: nat): bv32
    decreases i
  {
    if i == 0 then 1 else Double(Bit(i - 1))
  }

  /** vec moved up j bits. */
  function Raised(vec: bv32, j: nat): bv32
    decreases j
  {
    if j == 0 then vec else Raised(Double(vec), j - 1)
  }

  /** The columns from j on, summed where the bits of vec, lowest first, are set. */
  function TimesFrom(m: seq<bv32>, vec: bv32, j: nat): bv32
    requires |m| == 32
    decreases 32 - j
  {
    if j >= 32 then 0
    else Xor(if Odd(vec) then m[j] else 0, TimesFrom(m, Half(vec), j + 1))
  }

  /** m is the operator that moves the register through n zero bits. */
  ghost predicate IsOperator(m: seq<bv32>, n: nat) {
    |m| == 32 && forall i | 0 <= i < 32 :: m[i] == Steps(Bit(i), n)
  }

  // ----- Matrix times vector is the operator applied -----

  lemma SplitOddBits(vec: bv32)
    ensures vec == Xor(if Odd(vec) then 1 else 0, Double(Half(vec)))
  {
  }

  lemma DoubleBits(a: bv32, b: bv32)
    ensures Double(a ^ b) == Xor(a << 1, b << 1) && Double(a) == a << 1
  {
  }

  lemma DoubleLinear(a: bv32, b: bv32)
    ensures Double(Xor(a, b)) == Xor(Double(a), Double(b))
  {
    hide *;
    XorBits(a, b);
    DoubleBits(a, b);
    DoubleBits(b, a);
  }

  lemma {:induction false} RaisedLinear(a: bv32, b: bv32, j: nat)
    ensures Raised(Xor(a, b), j) == Xor(Raised(a, j), Raised(b, j))
    decreases j
  {
    hide Xor, Double;
    if j > 0 {
      DoubleLinear(a, b);
      RaisedLinear(Double(a), Double(b), j - 1);
    }
  }

  lemma {:induction false} RaisedDouble(a: bv32, j: nat)
    ensures Raised(Double(a), j) == Double(Raised(a, j))
    decreases j
  {
    hide Double;
    if j > 0 {
      RaisedDouble(Double(a), j - 1);
    }
  }

  lemma {:induction false} RaisedOne(j: nat)
    ensures Raised(1, j) == Bit(j)
    decreases j
  {
    hide Double;
    if j > 0 {
      RaisedDouble(1, j - 1);
      RaisedOne(j - 1);
    }
  }

  lemma {:induction false} RaisedZero(j: nat)
    ensures Raised(0, j) == 0
    decreases j
  {
    if j > 0 {
      assert Double(0) == 0;
      hide Double;
      RaisedZero(j - 1);
    }
  }

  lemma {:induction false} RaisedAdd(vec: bv32, j: nat, k: nat)
    ensures Raised(vec, j + k) == Raised(Raised(vec, j), k)
    decreases j
  {
    hide Double;
    if j > 0 {
      RaisedAdd(Double(vec), j - 1, k);
    }
  }

  lemma RaisedByteBits(vec: bv32)
    ensures Raised(vec, 8) == Shl8(vec)
  {
  }

  lemma FourBytesBits(vec: bv32)
    ensures Shl8(Shl8(Shl8(Shl8(vec)))) == 0
  {
  }

  /** No bit is left after 32 places. */
  lemma RaisedOut(vec: bv32)
    ensures Raised(vec, 32) == 0
  {
    hide *;
    RaisedAdd(vec, 8, 24);
    RaisedByteBits(vec);
    RaisedAdd(Shl8(vec), 8, 16);
    RaisedByteBits(Shl8(vec));
    RaisedAdd(Shl8(Shl8(vec)), 8, 8);
    RaisedByteBits(Shl8(Shl8(vec)));
    RaisedByteBits(Shl8(Shl8(Shl8(vec))));
    FourBytesBits(vec);
  }

  lemma {:induction false} StepsZero(n: nat)
    ensures Steps(0, n) == 0
    decreases n
  {
    if n > 0 {
      assert ShiftBit(0) == 0;
      hide ShiftBit;
      StepsZero(n - 1);
    }
  }

  lemma {:induction false} TimesApplies(m: seq<bv32>, n: nat, vec: bv32, j: nat)
    requires IsOperator(m, n) && j <= 32
    ensures TimesFrom(m, vec, j) == Steps(Raised(vec, j), n)
    decreases 32 - j
  {
    hide Xor, Steps, Double, Half, Odd, Bit;
    StepsZero(n);
    if j == 32 {
      RaisedOut(vec);
    } else {
      var low: bv32 := if Odd(vec) then 1 else 0;
      SplitOddBits(vec);
      RaisedLinear(low, Double(Half(vec)), j);
      StepsLinear(Raised(low, j), Raised(Double(Half(vec)), j), n);
      RaisedOne(j);
      RaisedZero(j);
      TimesApplies(m, n, Half(vec), j + 1);
    }
  }

  lemma {:induction false} TimesNothing(m: seq<bv32>, j: nat)
    requires |m| == 32
    ensures TimesFrom(m, 0, j) == 0
    decreases 32 - j
  {
    if j < 32 {
      assert Half(0) == 0 && !Odd(0) && Xor(0, 0) == 0;
      hide Half, Odd, Xor;
      TimesNothing(m, j + 1);
    }
  }

  // ----- The routine -----

  function NextMask(mask: bv32): bv32 { (mask << 1) | 1 }

  /** The lowest k bits. */
  function LowMask(k: nat): bv32
    decreases k
  {
    if k == 0 then 0 else NextMask(LowMask(k - 1))
  }

  predicate Within(vec: bv32, mask: bv32) { vec & !mask == 0 }

  /** Only the lowest k bits of vec may be set. */
  predicate Fits(vec: bv32, k: nat) { Within(vec, LowMask(k)) }

  lemma LowMask32()
    ensures LowMask(31) == 0x7FFF_FFFF && LowMask(32) == 0xFFFF_FFFF
  {
    assert LowMask(8) == 0xFF;
    assert LowMask(16) == 0xFFFF;
    assert LowMask(24) == 0xFF_FFFF;
  }

  lemma WithinBits(vec: bv32, mask: bv32)
    requires Within(vec, NextMask(mask))
    ensures Within(Half(vec), mask)
  {
  }

  lemma FitsWord(vec: bv32)
    ensures Fits(vec, 32)
  {
    LowMask32();
  }

  lemma FitsHalf(vec: bv32, k: nat)
    requires Fits(vec, k)
    ensures if k == 0 then vec == 0 else Fits(Half(vec), k - 1)
  {
    if k > 0 {
      hide Within, NextMask, Half;
      WithinBits(vec, LowMask(k - 1));
    }
  }

  lemma TimesStep(m: seq<bv32>, vec: bv32, j: nat, sum: bv32)
    requires |m| == 32 && j < 32
    ensures Xor(sum, TimesFrom(m, vec, j))
         == Xor(if Odd(vec) then Xor(sum, m[j]) else sum, TimesFrom(m, Half(vec), j + 1))
  {
    hide Xor, Half, Odd;
    XorZero(sum);
    XorAssoc(sum, if Odd(vec) then m[j] else 0, TimesFrom(m, Half(vec), j + 1));
  }

  /** The inner loop of the source, gf2_matrix_times: it stops when no bit is left. */
  method Times(m: array<bv32>, vector: bv32) returns (sum: bv32)
    requires m.Length == 32
    ensures sum == TimesFrom(m[..], vector, 0)
  {
    hide Xor, Half, Odd, Fits, TimesFrom;
    var vec := vector;
    sum := 0;
    var j := 0;
    XorZero(TimesFrom(m[..], vector, 0));
    FitsWord(vec);
    while vec != 0
      invariant 0 <= j <= 32 && Fits(vec, 32 - j)
      invariant Xor(sum, TimesFrom(m[..], vec, j)) == TimesFrom(m[..], vector, 0)
      decreases 32 - j
    {
      FitsHalf(vec, 32 - j);
      TimesStep(m[..], vec, j, sum);
      if Odd(vec) {
        sum := Xor(sum, m[j]);
      }
      j, vec := j + 1, Half(vec);
    }
    TimesNothing(m[..], j);
    XorZero(sum);
  }

  lemma SquareColumn(m: seq<bv32>, n: nat, i: nat)
    requires IsOperator(m, n) && i < 32
    ensures TimesFrom(m, m[i], 0) == Steps(Bit(i), 2 * n)
  {
    hide Xor, Steps, Bit;
    TimesApplies(m, n, m[i], 0);
    StepsAdd(Bit(i), n, n);
  }

  /** gf2_matrix_square: composing an operator with itself doubles its zeros. */
  method Square(a: array<bv32>, b: array<bv32>, ghost n: nat)
    requires a.Length == 32 && b.Length == 32 && a != b
    requires IsOperator(b[..], n)
    modifies a
    ensures IsOperator(a[..], 2 * n)
    ensures b[..] == old(b[..])
  {
    hide Xor, Steps, Bit, TimesFrom;
    for i := 0 to 32
      invariant b[..] == old(b[..])
      invariant forall k | 0 <= k < i :: a[k] == Steps(Bit(k), 2 * n)
    {
      var column := Times(b, b[i]);
      SquareColumn(b[..], n, i);
      a[i] := column;
    }
  }

  lemma {:induction false} HalfOfBit(i: nat)
    requires 0 < i < 32
    ensures !Odd(Bit(i)) && Half(Bit(i)) == Bit(i - 1)
  {
    BitFits(i - 1, 31);
    hide Fits, LowMask, Odd, Half, Double;
    EvenDoubleBits(Bit(i - 1));
  }

  lemma EvenDoubleBits(a: bv32)
    requires Fits(a, 31)
    ensures !Odd(Double(a)) && Half(Double(a)) == a
  {
    LowMask32();
  }

  lemma {:induction false} BitFits(i: nat, k: nat)
    requires i < k
    ensures Fits(Bit(i), k)
    decreases i
  {
    hide Within, NextMask, Double;
    if i == 0 {
      OneFitsBits(LowMask(k - 1));
    } else {
      BitFits(i - 1, k - 1);
      DoubleFitsBits(Bit(i - 1), LowMask(k - 1));
    }
  }

  lemma OneFitsBits(mask: bv32)
    ensures Within(1, NextMask(mask))
  {
  }

  lemma DoubleFitsBits(a: bv32, mask: bv32)
    requires Within(a, mask)
    ensures Within(Double(a), NextMask(mask))
  {
  }

  lemma OneBitColumn(i: nat)
    requires i < 32
    ensures Steps(Bit(i), 1) == if i == 0 then 0xEDB88320 else Bit(i - 1)
  {
    if i == 0 {
      assert ShiftBit(1) == 0xEDB88320;
    } else {
      HalfOfBit(i);
      hide Odd, Half, ShiftBit, Bit;
      EvenBits(Bit(i));
    }
  }

  /** What is left to do when the lowest bit of lengthB has been handled. */
  lemma HalveLength(crc: bv32, m: nat, length: nat)
    requires length > 0
    ensures Steps(crc, m * length)
         == Steps(if length % 2 == 1 then Steps(crc, m) else crc, (2 * m) * (length / 2))
  {
    hide ShiftBit;
    var half := length / 2;
    assert (2 * m) * half == m * (2 * half);
    if length % 2 == 1 {
      assert length == 2 * half + 1;
      assert m * length == m + m * (2 * half);
      StepsAdd(crc, m, m * (2 * half));
    } else {
      assert length == 2 * half;
    }
  }

  /** The operator for one zero bit. */
  method OneZeroBit(odd: array<bv32>)
    requires odd.Length == 32
    modifies odd
    ensures IsOperator(odd[..], 1)
  {
    hide Steps, Bit;
    odd[0] := 0xEDB88320;
    OneBitColumn(0);
    for i := 1 to 32
      invariant forall k | 0 <= k < i :: odd[k] == Steps(Bit(k), 1)
    {
      odd[i] := Bit(i - 1);
      OneBitColumn(i);
    }
  }

  /** crc32_combine */
  method Combine(crcA: bv32, crcB: bv32, lengthB: nat) returns (combined: bv32)
    ensures combined == if lengthB == 0 then crcA else Xor(Steps(crcA, 8 * lengthB), crcB)
  {
    hide Xor, Steps, TimesFrom, IsOperator;
    if lengthB == 0 {
      return crcA;
    }
    var odd, even := new bv32[32], new bv32[32];
    OneZeroBit(odd);
    Square(even, odd, 1);
    Square(odd, even, 2);
    var a, b := even, odd;
    var crc, length := crcA, lengthB;
    ghost var half := 4;
    while length > 0
      invariant a != b && {a, b} == {even, odd}
      invariant IsOperator(b[..], half)
      invariant Steps(crc, (2 * half) * length) == Steps(crcA, 8 * lengthB)
      decreases length
    {
      Square(a, b, half);
      HalveLength(crc, 2 * half, length);
      if length % 2 == 1 {
        TimesApplies(a[..], 2 * half, crc, 0);
        crc := Times(a, crc);
      }
      a, b := b, a;
      length, half := length / 2, 2 * half;
    }
    StepsNone(crc);
    return Xor(crc, crcB);
  }

  /** The promise of the header: combining the checksums of a and b gives that of a followed by b. */
  method CombineChecksums(a: seq<bv8>, b: seq<bv8>) returns (combined: bv32)
    ensures combined == Crc(a + b, 0)
  {
    hide Xor, Steps, Not, Update;
    combined := Combine(Crc(a, 0), Crc(b, 0), |b|);
    CrcOfConcat(a, b, 0);
    if b == [] {
      assert a + b == a;
    }
  }
}
