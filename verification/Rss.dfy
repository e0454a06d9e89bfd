/** The Toeplitz hash of calculate_soft_rss (src/raw_packet/raw_packet.cpp). */
module Rss {
  import opened Word

  /** The 32 bits of the 64-bit string a:b that start 31 - i bits from its top: what the hash adds for
      bit i of an input word, bit 31 being the first. */
  function Window(a: bv32, b: bv32, i: bv6): bv32 {
    if i < 32 then ((((((a as bv64) << 32) | (b as bv64)) << ((31 - i) as bv7)) >> 32) & 0xFFFF_FFFF) as bv32 else 0
  }

  /** The same as the source computes it. */
  function CodeWindow(a: bv32, b: bv32, i: bv6): bv32
    requires i < 32
  {
    (a << (31 - i)) | ((((b as bv64) >> ((i + 1) as bv7)) & 0xFFFF_FFFF) as bv32)
  }

  lemma WindowBits(a: bv32, b: bv32, i: bv6)
    requires i < 32
    ensures CodeWindow(a, b, i) == Window(a, b, i)
  {
  }

  function Pick(bit: bool, w: bv32): bv32 { if bit then w else 0 }

  /** The bit-by-bit hash of one word, from bit i of it on; bits holds the bits left. */
  function HashWord(bits: bv32, a: bv32, b: bv32, i: bv6): bv32
    decreases bits
  {
    if bits == 0 then 0
    else
      HalfShrinksBits(bits);
      Xor(Pick(Odd(bits), Window(a, b, i)), HashWord(Half(bits), a, b, i + 1))
  }

  lemma HalfShrinksBits(bits: bv32)
    ensures Half(0) == 0 && !Odd(0)
    ensures bits != 0 ==> Half(bits) < bits
  {
  }

  /** The hash of a tuple of words under a key of one word more. */
  function Hash(words: seq<bv32>, key: seq<bv32>): bv32
    requires |words| < |key|
    decreases |words|
  {
    if words == [] then 0
    else
      var n := |words| - 1;
      Xor(Hash(words[..n], key), HashWord(words[n], key[n], key[n + 1], 0))
  }

  // ----- Linearity -----

  lemma HashWordStep(bits: bv32, a: bv32, b: bv32, i: bv6)
    ensures HashWord(bits, a, b, i) == Xor(Pick(Odd(bits), Window(a, b, i)), HashWord(Half(bits), a, b, i + 1))
  {
    hide Half, Odd, Window, Xor;
    HalfShrinksBits(bits);
    XorZero(0);
  }

  lemma PickLinear(p: bv32, q: bv32, w: bv32)
    ensures Pick(Odd(Xor(p, q)), w) == Xor(Pick(Odd(p), w), Pick(Odd(q), w))
  {
    OddXorBits(p, q);
    XorZero(w);
    XorZero(0);
    hide Odd, Xor;
  }

  lemma OddXorBits(p: bv32, q: bv32)
    ensures Odd(Xor(p, q)) <==> Odd(p) != Odd(q)
  {
  }

  lemma {:induction false} HashWordLinear(p: bv32, q: bv32, a: bv32, b: bv32, i: bv6)
    ensures HashWord(Xor(p, q), a, b, i) == Xor(HashWord(p, a, b, i), HashWord(q, a, b, i))
    decreases p, q
  {
    hide HashWord, Half, Odd, Window, Pick, Xor;
    if p == 0 {
      XorZero(q);
      HashWordZero(a, b, i);
      XorZero(HashWord(q, a, b, i));
    } else {
      HalfShrinksBits(p);
      HashWordStep(p, a, b, i);
      HashWordStep(q, a, b, i);
      HashWordStep(Xor(p, q), a, b, i);
      HalfLinear(p, q);
      PickLinear(p, q, Window(a, b, i));
      HashWordLinear(Half(p), Half(q), a, b, i + 1);
      XorMiddle(Pick(Odd(p), Window(a, b, i)), Pick(Odd(q), Window(a, b, i)),
                HashWord(Half(p), a, b, i + 1), HashWord(Half(q), a, b, i + 1));
    }
  }

  lemma HashWordZero(a: bv32, b: bv32, i: bv6)
    ensures HashWord(0, a, b, i) == 0
  {
  }

  /** The words of two tuples combined. */
  function XorAll(p: seq<bv32>, q: seq<bv32>): (r: seq<bv32>)
    requires |p| == |q|
    ensures |r| == |p| && forall i | 0 <= i < |p| :: r[i] == Xor(p[i], q[i])
  {
    seq(|p|, i requires 0 <= i < |p| => Xor(p[i], q[i]))
  }

  /** The hash is linear over exclusive or. */
  lemma {:induction false} HashLinear(p: seq<bv32>, q: seq<bv32>, key: seq<bv32>)
    requires |p| == |q| < |key|
    ensures Hash(XorAll(p, q), key) == Xor(Hash(p, key), Hash(q, key))
    decreases |p|
  {
    hide HashWord, Xor;
    if p == [] {
      XorZero(0);
    } else {
      var n := |p| - 1;
      HashLinear(p[..n], q[..n], key);
      assert XorAll(p, q)[..n] == XorAll(p[..n], q[..n]);
      HashWordLinear(p[n], q[n], key[n], key[n + 1], 0);
      XorMiddle(Hash(p[..n], key), Hash(q[..n], key),
                HashWord(p[n], key[n], key[n + 1], 0), HashWord(q[n], key[n], key[n + 1], 0));
    }
  }

  // ----- The loop over the set bits -----

  /** The number of zero bits below the lowest one. */
  function Ctz(bits: bv32): bv6
    decreases bits
  {
    if bits == 0 || Odd(bits) then 0
    else
      HalfShrinksBits(bits);
      Ctz(Half(bits)) + 1
  }

  /** bits & (bits - 1) */
  function ClearLowest(bits: bv32): bv32 { bits & (bits - 1) }

  lemma ClearBits(bits: bv32)
    requires bits != 0
    ensures ClearLowest(bits) < bits
    ensures !Odd(ClearLowest(bits))
    ensures Odd(bits) ==> Half(ClearLowest(bits)) == Half(bits)
    ensures !Odd(bits) ==> Half(bits) != 0 && Half(ClearLowest(bits)) == ClearLowest(Half(bits))
  {
  }

  predicate BitSet(bits: bv32, c: bv6) { c < 32 && (bits >> c) & 1 == 1 }

  lemma ShiftBits(x: bv32, c: bv6)
    requires c < 31
    ensures ((x >> 1) >> c) == x >> (c + 1)
  {
  }

  lemma LastShiftBits(x: bv32)
    ensures (x >> 1) >> 31 == 0
  {
  }

  lemma HalfBits(x: bv32)
    ensures Half(x) == x >> 1
    ensures Odd(x) <==> (x >> 0) & 1 == 1
  {
  }

  lemma LowestBitSet(x: bv32)
    requires Odd(x)
    ensures BitSet(x, 0)
  {
    hide Half, Odd;
    HalfBits(x);
  }

  lemma BitSetStep(bits: bv32, c: bv6)
    requires BitSet(Half(bits), c)
    ensures BitSet(bits, c + 1)
  {
    hide Half;
    HalfBits(bits);
    if c < 31 {
      ShiftBits(bits, c);
    } else {
      LastShiftBits(bits);
    }
  }

  lemma CtzStep(bits: bv32)
    requires bits != 0
    ensures Ctz(bits) == if Odd(bits) then 0 else Ctz(Half(bits)) + 1
  {
    hide Odd, Half;
  }

  lemma {:induction false} CtzIsSet(bits: bv32)
    requires bits != 0
    ensures BitSet(bits, Ctz(bits))
    decreases bits
  {
    hide Half, Odd, Ctz, ClearLowest, BitSet;
    CtzStep(bits);
    if Odd(bits) {
      LowestBitSet(bits);
    } else {
      ClearBits(bits);
      HalfShrinksBits(bits);
      CtzIsSet(Half(bits));
      BitSetStep(bits, Ctz(Half(bits)));
    }
  }

  /** Skipping to the lowest set bit adds the same as going bit by bit. */
  lemma {:induction false} LowestBit(bits: bv32, a: bv32, b: bv32, i: bv6)
    requires bits != 0
    ensures HashWord(bits, a, b, i) == Xor(Window(a, b, i + Ctz(bits)), HashWord(ClearLowest(bits), a, b, i))
    decreases bits
  {
    hide HashWord, Half, Odd, Window, Xor, ClearLowest, Ctz;
    ClearBits(bits);
    HalfShrinksBits(bits);
    CtzStep(bits);
    HashWordStep(bits, a, b, i);
    HashWordStep(ClearLowest(bits), a, b, i);
    XorZero(HashWord(Half(ClearLowest(bits)), a, b, i + 1));
    if Odd(bits) {
      PlusZero(i);
    } else {
      LowestBit(Half(bits), a, b, i + 1);
      XorZero(HashWord(Half(bits), a, b, i + 1));
      PlusOne(i, Ctz(Half(bits)));
    }
  }

  lemma PlusZero(i: bv6)
    ensures i + 0 == i && 0 + i == i
  {
  }

  lemma PlusOne(i: bv6, c: bv6)
    ensures i + (c + 1) == i + 1 + c
  {
  }

  /** calculate_soft_rss, on the words of the tuple and those of the key in network order. */
  method SoftRss(words: seq<bv32>, key: seq<bv32>) returns (ret: bv32)
    requires |words| < |key|
    ensures ret == Hash(words, key)
  {
    hide HashWord, Window, CodeWindow, Xor, ClearLowest, BitSet;
    ret := 0;
    var j := 0;
    while j < |words|
      invariant j <= |words| && ret == Hash(words[..j], key)
    {
      var bits := words[j];
      ghost var before := ret;
      XorZero(ret);
      while bits != 0
        invariant Xor(ret, HashWord(bits, key[j], key[j + 1], 0))
            == Xor(before, HashWord(words[j], key[j], key[j + 1], 0))
        decreases bits
      {
        var i := Ctz(bits);
        CtzIsSet(bits);
        LowestBit(bits, key[j], key[j + 1], 0);
        PlusZero(i);
        CtzBound(bits);
        WindowBits(key[j], key[j + 1], i);
        XorAssoc(ret, Window(key[j], key[j + 1], i), HashWord(ClearLowest(bits), key[j], key[j + 1], 0));
        ret := Xor(ret, CodeWindow(key[j], key[j + 1], i));
        ClearBits(bits);
        bits := ClearLowest(bits);
      }
      HashWordZero(key[j], key[j + 1], 0);
      XorZero(ret);
      assert words[..j + 1][..j] == words[..j];
      j := j + 1;
    }
    assert words[..j] == words;
  }

  lemma CtzBound(bits: bv32)
    requires BitSet(bits, Ctz(bits))
    ensures Ctz(bits) < 32
  {
    hide Ctz;
  }

  // ----- Which key bits an input bit contributes -----

  /** Bit p of a word, counted from its top. */
  predicate BitFromTop(w: bv32, p: bv7) { p < 32 && (w >> ((31 - p) as bv6)) & 1 == 1 }

  /** Bit p of two words, one after the other, counted from the top of the first. */
  predicate BitOfPair(a: bv32, b: bv32, p: bv7) { if p < 32 then BitFromTop(a, p) else BitFromTop(b, p - 32) }

  /** The pair moved up one bit. */
  function FirstUp(a: bv32, b: bv32): bv32 { (a << 1) | (b >> 31) }
  function SecondUp(b: bv32): bv32 { b << 1 }

  lemma TopWindowBits(a: bv32, b: bv32)
    ensures Window(a, b, 31) == a
  {
  }

  lemma WindowUpBits(a: bv32, b: bv32, i: bv6)
    requires i < 31
    ensures Window(a, b, i) == Window(FirstUp(a, b), SecondUp(b), i + 1)
  {
  }

  lemma FirstUpBits(a: bv32, b: bv32, p: bv7)
    requires p < 31
    ensures BitFromTop(FirstUp(a, b), p) <==> BitFromTop(a, p + 1)
  {
  }

  lemma CarriedUpBits(a: bv32, b: bv32)
    ensures BitFromTop(FirstUp(a, b), 31) <==> BitFromTop(b, 0)
  {
  }

  lemma SecondUpBits(b: bv32, p: bv7)
    requires p < 31
    ensures BitFromTop(SecondUp(b), p) <==> BitFromTop(b, p + 1)
  {
  }

  lemma PairIndexBits(p: bv7)
    requires p < 63
    ensures p < 31 ==> p + 1 < 32
    ensures p >= 32 ==> p - 32 < 31 && p - 32 + 1 == p + 1 - 32 && p + 1 >= 32
  {
  }

  lemma PairUp(a: bv32, b: bv32, p: bv7)
    requires p < 63
    ensures BitOfPair(FirstUp(a, b), SecondUp(b), p) <==> BitOfPair(a, b, p + 1)
  {
    PairIndexBits(p);
    hide BitFromTop, FirstUp, SecondUp;
    if p < 31 {
      FirstUpBits(a, b, p);
    } else if p < 32 {
      CarriedUpBits(a, b);
    } else {
      SecondUpBits(b, p - 32);
    }
  }

  lemma LowIndexBits(i: bv6, t: bv7)
    requires i < 32 && t < 32
    ensures (31 - i) as bv7 + t < 63 && (i == 31 ==> (31 - i) as bv7 + t == t)
    ensures i < 31 ==> (31 - (i + 1)) as bv7 + t + 1 == (31 - i) as bv7 + t && (31 - (i + 1)) as bv7 + t < 62
  {
  }

  lemma FirstOfPair(a: bv32, b: bv32, p: bv7)
    requires p < 32
    ensures BitOfPair(a, b, p) <==> BitFromTop(a, p)
  {
    hide BitFromTop;
  }

  lemma {:induction false} WindowBit(a: bv32, b: bv32, i: bv6, t: bv7)
    requires i < 32 && t < 32
    ensures BitFromTop(Window(a, b, i), t) <==> BitOfPair(a, b, (31 - i) as bv7 + t)
    decreases 31 - i
  {
    hide Window, BitFromTop, BitOfPair, FirstUp, SecondUp;
    LowIndexBits(i, t);
    if i == 31 {
      TopWindowBits(a, b);
      FirstOfPair(a, b, t);
    } else {
      WindowUpBits(a, b, i);
      WindowBit(FirstUp(a, b), SecondUp(b), i + 1, t);
      PairUp(a, b, (31 - (i + 1)) as bv7 + t);
    }
  }

  predicate IsOneBit(w: bv32, i: bv6) { i < 32 && w == 1 << i }

  lemma OneBitBits(w: bv32, i: bv6, c: bv6)
    requires IsOneBit(w, i) && BitSet(w, c)
    ensures c == i && ClearLowest(w) == 0
  {
  }

  lemma OneBitIsSet(w: bv32, i: bv6)
    requires IsOneBit(w, i)
    ensures w != 0
  {
  }

  lemma HashOneBit(w: bv32, i: bv6, a: bv32, b: bv32)
    requires IsOneBit(w, i)
    ensures HashWord(w, a, b, 0) == Window(a, b, i)
  {
    hide HashWord, Window, Xor, ClearLowest, BitSet, Ctz, IsOneBit;
    OneBitIsSet(w, i);
    CtzIsSet(w);
    OneBitBits(w, i, Ctz(w));
    LowestBit(w, a, b, 0);
    PlusZero(i);
    HashWordZero(a, b, 0);
    XorZero(Window(a, b, i));
  }

  predicate OnlyWord(words: seq<bv32>, j: nat) {
    j < |words| && forall k | 0 <= k < |words| && k != j :: words[k] == 0
  }

  lemma {:induction false} HashOfNothing(words: seq<bv32>, key: seq<bv32>)
    requires |words| < |key| && forall k | 0 <= k < |words| :: words[k] == 0
    ensures Hash(words, key) == 0
    decreases |words|
  {
    hide HashWord, Xor;
    if words != [] {
      var n := |words| - 1;
      HashOfNothing(words[..n], key);
      HashWordZero(key[n], key[n + 1], 0);
      XorZero(0);
    }
  }

  lemma {:induction false} HashOnlyWord(words: seq<bv32>, key: seq<bv32>, j: nat)
    requires |words| < |key| && OnlyWord(words, j)
    ensures Hash(words, key) == HashWord(words[j], key[j], key[j + 1], 0)
    decreases |words|
  {
    hide HashWord, Xor;
    var n := |words| - 1;
    if j == n {
      HashOfNothing(words[..n], key);
    } else {
      HashOnlyWord(words[..n], key, j);
      HashWordZero(key[n], key[n + 1], 0);
    }
    XorZero(HashWord(words[j], key[j], key[j + 1], 0));
  }

  /** An input of the single bit 31 - i of word j, counted from the top, hashes to the 32 bits of the key that
      begin at that bit: bit t of the hash is bit 31 - i + t of words j and j + 1 of the key. With HashLinear
      this is the whole hash. */
  lemma OneBitContributes(words: seq<bv32>, key: seq<bv32>, j: nat, i: bv6, t: bv7)
    requires |words| < |key| && OnlyWord(words, j) && IsOneBit(words[j], i) && t < 32
    ensures BitFromTop(Hash(words, key), t) <==> BitOfPair(key[j], key[j + 1], (31 - i) as bv7 + t)
  {
    hide HashWord, Window, BitFromTop, BitOfPair, Hash;
    HashOnlyWord(words, key, j);
    HashOneBit(words[j], i, key[j], key[j + 1]);
    hide IsOneBit;
    WindowBit(key[j], key[j + 1], i, t);
  }

  // ----- Symmetry -----

  /** The two ports of a tuple share a word. */
  function SwapHalves(w: bv32): bv32 { (w << 16) | (w >> 16) }

  /** A key word that repeats every 16 bits, as those of RSS_KEY do. */
  predicate Periodic(k: bv32) { SwapHalves(k) == k }

  lemma PeriodBits(k: bv32, i: bv6)
    requires Periodic(k) && i < 16
    ensures Window(k, k, i + 16) == Window(k, k, i)
  {
  }

  lemma FitsBits(h: bv32, i: bv6)
    requires i <= 16 && h >> (16 - i) == 0
    ensures h != 0 ==> i < 16 && (h >> 1) >> (16 - (i + 1)) == 0
  {
  }

  lemma HalfOnly(h: bv32)
    ensures Half(h) == h >> 1
  {
  }

  lemma {:induction false} HashWordPeriod(h: bv32, k: bv32, i: bv6)
    requires Periodic(k) && i <= 16 && h >> (16 - i) == 0
    ensures HashWord(h, k, k, i + 16) == HashWord(h, k, k, i)
    decreases h
  {
    hide HashWord, Window, Half, Odd, Periodic, Xor;
    if h == 0 {
      HashWordZero(k, k, i);
      HashWordZero(k, k, i + 16);
    } else {
      HalfShrinksBits(h);
      HalfOnly(h);
      FitsBits(h, i);
      PeriodBits(k, i);
      HashWordStep(h, k, k, i);
      HashWordStep(h, k, k, i + 16);
      HashWordPeriod(Half(h), k, i + 1);
      PlusSixteen(i);
    }
  }

  lemma PlusSixteen(i: bv6)
    ensures i + 1 + 16 == i + 16 + 1
  {
  }

  lemma ShiftUpBits(x: bv32, n: bv6)
    requires 1 <= n <= 16 && x & 0xFFFF == x
    ensures (x << n) >> 1 == x << (n - 1) && ((x << n) >> 0) & 1 != 1
  {
  }

  lemma ShiftUp(x: bv32, n: bv6)
    requires 1 <= n <= 16 && x & 0xFFFF == x
    ensures Half(x << n) == x << (n - 1) && !Odd(x << n)
  {
    hide Half, Odd;
    ShiftUpBits(x, n);
    HalfBits(x << n);
  }

  lemma {:induction false} HashWordUp(x: bv32, n: bv6, k: bv32, i: bv6)
    requires n <= 16 && x & 0xFFFF == x
    ensures HashWord(x << n, k, k, i) == HashWord(x, k, k, i + n)
    decreases n
  {
    hide HashWord, Window, Half, Odd, Xor;
    if n == 0 {
      UpByZero(x, i);
    } else {
      ShiftUp(x, n);
      HashWordStep(x << n, k, k, i);
      XorZero(HashWord(Half(x << n), k, k, i + 1));
      HashWordUp(x, n - 1, k, i + 1);
      UpByOne(i, n);
    }
  }

  lemma UpByZero(x: bv32, i: bv6)
    ensures x << 0 == x && i + 0 == i
  {
  }

  lemma UpByOne(i: bv6, n: bv6)
    ensures i + 1 + (n - 1) == i + n
  {
  }

  predicate InLowHalf(h: bv32) { h & 0xFFFF == h && h >> 16 == 0 }

  predicate IsUp(up: bv32, h: bv32) { up == h << 16 }

  /** A word from its halves, and the word with the halves exchanged. */
  lemma Halves(w: bv32) returns (low: bv32, high: bv32, lowUp: bv32, highUp: bv32)
    ensures w == Xor(low, highUp) && SwapHalves(w) == Xor(high, lowUp)
    ensures InLowHalf(low) && InLowHalf(high) && IsUp(lowUp, low) && IsUp(highUp, high)
  {
    hide *;
    low, high, lowUp, highUp := w & 0xFFFF, w >> 16, (w & 0xFFFF) << 16, (w >> 16) << 16;
    JoinBits(w);
    CrossBits(w);
    LowHalfBits(w);
    UpBits(low);
    UpBits(high);
  }

  lemma JoinBits(w: bv32)
    ensures w == Xor(w & 0xFFFF, (w >> 16) << 16)
  {
  }

  lemma CrossBits(w: bv32)
    ensures SwapHalves(w) == Xor(w >> 16, (w & 0xFFFF) << 16)
  {
  }

  lemma LowHalfBits(w: bv32)
    ensures InLowHalf(w & 0xFFFF) && InLowHalf(w >> 16)
  {
  }

  lemma UpBits(h: bv32)
    ensures IsUp(h << 16, h)
  {
  }

  /** Half a word contributes alike in either half. */
  lemma HashHalf(h: bv32, up: bv32, k: bv32)
    requires Periodic(k) && InLowHalf(h) && IsUp(up, h)
    ensures HashWord(up, k, k, 0) == HashWord(h, k, k, 0)
  {
    hide HashWord, Periodic;
    HashWordUp(h, 16, k, 0);
    HashWordPeriod(h, k, 0);
  }

  lemma SwapKeepsHash(w: bv32, k: bv32)
    requires Periodic(k)
    ensures HashWord(SwapHalves(w), k, k, 0) == HashWord(w, k, k, 0)
  {
    hide *;
    var low, high, lowUp, highUp := Halves(w);
    HashHalf(low, lowUp, k);
    HashHalf(high, highUp, k);
    HashWordLinear(low, highUp, k, k, 0);
    HashWordLinear(high, lowUp, k, k, 0);
    XorComm(HashWord(low, k, k, 0), HashWord(high, k, k, 0));
  }

  /** A key whose first four words are all k. */
  predicate StartsWith(key: seq<bv32>, k: bv32) {
    |key| >= 4 && key[0] == k && key[1] == k && key[2] == k && key[3] == k
  }

  lemma HashOfThree(a: bv32, b: bv32, c: bv32, key: seq<bv32>, k: bv32)
    requires StartsWith(key, k)
    ensures Hash([a, b, c], key) == Xor(Xor(HashWord(a, k, k, 0), HashWord(b, k, k, 0)), HashWord(c, k, k, 0))
  {
    hide HashWord, Xor;
    assert [a, b, c][..2] == [a, b] && [a, b][..1] == [a] && [a][..0] == [];
    assert Hash([], key) == 0;
    assert Hash([a], key) == Xor(0, HashWord(a, k, k, 0));
    XorZero(HashWord(a, k, k, 0));
    assert Hash([a, b], key) == Xor(Hash([a], key), HashWord(b, k, k, 0));
  }

  /** Both directions of a flow hash alike: swapping source and destination, addresses and ports,
      does not change the hash under a key that repeats every 16 bits. */
  lemma HashIsSymmetric(src: bv32, dst: bv32, ports: bv32, key: seq<bv32>, k: bv32)
    requires StartsWith(key, k) && Periodic(k)
    ensures Hash([dst, src, SwapHalves(ports)], key) == Hash([src, dst, ports], key)
  {
    hide Hash, HashWord, Xor, Periodic, SwapHalves;
    HashOfThree(src, dst, ports, key, k);
    HashOfThree(dst, src, SwapHalves(ports), key, k);
    SwapKeepsHash(ports, k);
    XorComm(HashWord(src, k, k, 0), HashWord(dst, k, k, 0));
  }

  // ----- The key of the repository -----

  /** Four bytes as htonl finds them: the first is the highest. */
  function NetworkWord(a: bv8, b: bv8, c: bv8, d: bv8): bv32 {
    (a as bv32 << 24) | (b as bv32 << 16) | (c as bv32 << 8) | (d as bv32)
  }

  /** The bits of a network word are those of its bytes, in order, the highest first. */
  lemma NetworkWordBits(a: bv8, b: bv8, c: bv8, d: bv8, t: bv7)
    requires t < 8
    ensures BitFromTop(NetworkWord(a, b, c, d), t) <==> (a >> ((7 - t) as bv4)) & 1 == 1
    ensures BitFromTop(NetworkWord(a, b, c, d), t + 8) <==> (b >> ((7 - t) as bv4)) & 1 == 1
    ensures BitFromTop(NetworkWord(a, b, c, d), t + 16) <==> (c >> ((7 - t) as bv4)) & 1 == 1
    ensures BitFromTop(NetworkWord(a, b, c, d), t + 24) <==> (d >> ((7 - t) as bv4)) & 1 == 1
  {
  }

  /** The words of a key in network order. */
  function KeyWords(key: seq<bv8>): (words: seq<bv32>)
    requires |key| % 4 == 0
    ensures |words| == |key| / 4
    ensures forall j | 0 <= j < |words| :: words[j] == NetworkWord(key[4 * j], key[4 * j + 1], key[4 * j + 2],
        key[4 * j + 3])
  {
    seq(|key| / 4, j requires 0 <= j < |key| / 4 =>
      NetworkWord(key[4 * j], key[4 * j + 1], key[4 * j + 2], key[4 * j + 3]))
  }

  /** Each of the four rows of RSS_KEY. */
  const KEY_ROW: seq<bv8> := [0x6D, 0x5A, 0x6D, 0x5A, 0x6D, 0x5A, 0x6D, 0x5A, 0x6D, 0x5A]

  const RSS_KEY: seq<bv8> := KEY_ROW + KEY_ROW + KEY_ROW + KEY_ROW

  lemma KeyByte(i: nat)
    requires i < 16
    ensures |RSS_KEY| == 40 && RSS_KEY[i] == if i % 2 == 0 then 0x6D else 0x5A
  {
    var j := if i < 10 then i else i - 10;
    assert RSS_KEY[i] == KEY_ROW[j];
    assert j == 0 || j == 1 || j == 2 || j == 3 || j == 4 || j == 5 || j == 6 || j == 7 || j == 8 || j == 9;
  }

  lemma KeyWordBits()
    ensures NetworkWord(0x6D, 0x5A, 0x6D, 0x5A) == 0x6D5A6D5A && Periodic(0x6D5A6D5A)
  {
  }

  lemma KeyWordAt(j: nat)
    requires j < 4
    ensures |RSS_KEY| == 40 && |KeyWords(RSS_KEY)| == 10 && KeyWords(RSS_KEY)[j] == NetworkWord(0x6D, 0x5A, 0x6D, 0x5A)
  {
    hide NetworkWord;
    KeyByte(4 * j);
    KeyByte(4 * j + 1);
    KeyByte(4 * j + 2);
    KeyByte(4 * j + 3);
  }

  lemma RssKeyWords()
    ensures |RSS_KEY| == 40 && |KeyWords(RSS_KEY)| == 10 && StartsWith(KeyWords(RSS_KEY), 0x6D5A6D5A)
  {
    hide NetworkWord, Periodic, KeyWords;
    KeyWordBits();
    KeyWordAt(0);
    KeyWordAt(1);
    KeyWordAt(2);
    KeyWordAt(3);
  }

  /** Under the repository's key both directions of every flow hash alike. */
  lemma RssKeyIsSymmetric(src: bv32, dst: bv32, ports: bv32)
    ensures |RSS_KEY| == 40
    ensures Hash([dst, src, SwapHalves(ports)], KeyWords(RSS_KEY)) == Hash([src, dst, ports], KeyWords(RSS_KEY))
  {
    hide Hash, NetworkWord, Periodic, StartsWith, KeyWords, SwapHalves;
    KeyWordBits();
    RssKeyWords();
    HashIsSymmetric(src, dst, ports, KeyWords(RSS_KEY), 0x6D5A6D5A);
  }
}
