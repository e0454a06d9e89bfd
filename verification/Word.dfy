/** 32-bit words under exclusive or, with the shifts that the checksum code applies to them.

    A lemma whose name ends in Bits is a fact about bits and sees the definitions; every other
    lemma, here and in the checksum modules, hides them and composes facts already proved. */
module Word {
  function Xor(a: bv32, b: bv32): bv32 { a ^ b }

  function Not(a: bv32): bv32 { !a }

  /** Bits 0..7, 8..15, 16..23 and 24..31. */
  function Byte0(a: bv32): bv32 { a & 0xFF }
  function Byte1(a: bv32): bv32 { (a >> 8) & 0xFF }
  function Byte2(a: bv32): bv32 { (a >> 16) & 0xFF }
  function Byte3(a: bv32): bv32 { (a >> 24) & 0xFF }

  function Shr8(a: bv32): bv32 { a >> 8 }
  function Shl8(a: bv32): bv32 { a << 8 }

  function Half(a: bv32): bv32 { a >> 1 }

  predicate Odd(a: bv32) { a & 1 == 1 }

  predicate IsByte(a: bv32) { a & 0xFF == a }

  lemma XorBits(a: bv32, b: bv32)
    ensures Xor(a, b) == a ^ b
  {
  }

  lemma XorComm(a: bv32, b: bv32)
    ensures Xor(a, b) == Xor(b, a)
  {
  }

  lemma XorAssocBits(a: bv32, b: bv32, c: bv32)
    ensures Xor(a ^ b, c) == Xor(a, b ^ c)
  {
  }

  lemma XorAssoc(a: bv32, b: bv32, c: bv32)
    ensures Xor(Xor(a, b), c) == Xor(a, Xor(b, c))
  {
    hide *;
    XorBits(a, b);
    XorBits(b, c);
    XorAssocBits(a, b, c);
  }

  lemma XorSwap(a: bv32, b: bv32, c: bv32)
    ensures Xor(Xor(a, b), c) == Xor(Xor(a, c), b)
  {
    hide *;
    XorAssoc(a, b, c);
    XorAssoc(a, c, b);
    XorComm(b, c);
  }

  lemma XorMiddle(a: bv32, b: bv32, c: bv32, d: bv32)
    ensures Xor(Xor(a, b), Xor(c, d)) == Xor(Xor(a, c), Xor(b, d))
  {
    hide *;
    XorAssoc(Xor(a, b), c, d);
    XorSwap(a, b, c);
    XorAssoc(Xor(a, c), b, d);
  }

  lemma XorZero(a: bv32)
    ensures Xor(a, 0) == a && Xor(0, a) == a && Xor(a, a) == 0
  {
  }

  lemma NotTwice(a: bv32)
    ensures Not(Not(a)) == a
  {
  }

  lemma NotIsXor(a: bv32)
    ensures Not(a) == Xor(0xFFFF_FFFF, a)
  {
  }

  lemma NotXor(a: bv32, b: bv32)
    ensures Not(Xor(a, b)) == Xor(Not(a), b)
  {
    hide *;
    NotIsXor(Xor(a, b));
    NotIsXor(a);
    XorAssoc(0xFFFF_FFFF, a, b);
  }

  lemma ShrBits(a: bv32)
    ensures Shr8(a) == a >> 8
  {
  }

  lemma ShlBits(a: bv32)
    ensures Shl8(a) == a << 8
  {
  }

  lemma SplitBits(a: bv32)
    ensures a == Xor(Byte0(a), (a >> 8) << 8) && Shr8((a >> 8) << 8) == a >> 8
    ensures IsByte(a & 0xFF) && Byte0(a) == a & 0xFF
  {
  }

  /** A word is its low byte plus the other three moved up. */
  lemma SplitLow(a: bv32)
    ensures a == Xor(Byte0(a), Shl8(Shr8(a))) && IsByte(Byte0(a))
    ensures Shr8(Shl8(Shr8(a))) == Shr8(a)
  {
    hide *;
    ShrBits(a);
    ShlBits(a >> 8);
    SplitBits(a);
  }

  lemma Byte1Bits(a: bv32)
    ensures Byte0(a >> 8) == Byte1(a)
  {
  }

  lemma Byte2Bits(a: bv32)
    ensures Byte1(a >> 8) == Byte2(a)
  {
  }

  lemma Byte3Bits(a: bv32)
    ensures Byte2(a >> 8) == Byte3(a)
  {
  }

  lemma TopByteBits(a: bv32)
    ensures Shr8(Shr8(a >> 8)) == Byte3(a)
  {
  }

  /** Moving a word down one byte renames its bytes. */
  lemma BytesOfShr(a: bv32)
    ensures Byte0(Shr8(a)) == Byte1(a)
    ensures Byte1(Shr8(a)) == Byte2(a)
    ensures Byte2(Shr8(a)) == Byte3(a)
  {
    hide *;
    ShrBits(a);
    Byte1Bits(a);
    Byte2Bits(a);
    Byte3Bits(a);
  }

  lemma TopByte(a: bv32)
    ensures Shr8(Shr8(Shr8(a))) == Byte3(a)
  {
    hide *;
    ShrBits(a);
    TopByteBits(a);
  }

  lemma HalfXorBits(a: bv32, b: bv32)
    ensures Half(a ^ b) == Xor(a >> 1, b >> 1) && Half(a) == a >> 1
  {
  }

  lemma HalfLinear(a: bv32, b: bv32)
    ensures Half(Xor(a, b)) == Xor(Half(a), Half(b))
  {
    hide *;
    XorBits(a, b);
    HalfXorBits(a, b);
    HalfXorBits(b, a);
  }
}
