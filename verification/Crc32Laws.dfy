/** What the checksum is, apart from any routine: the bit-serial register between two complements, and the
    residue that every checksummed message leaves. */
module Crc32Laws {
  import opened Word
  import opened Crc32
  import opened Crc32Tables

  /** The register starts as all ones, or as the complement of the checksum so far, and is complemented at
      the end. */
  lemma CrcIsBitSerial(data: seq<bv8>, previous: bv32)
    ensures Crc(data, previous) == Xor(0xFFFF_FFFF, BitSerial(Xor(0xFFFF_FFFF, previous), data))
    ensures Crc(data, 0) == Xor(0xFFFF_FFFF, BitSerial(0xFFFF_FFFF, data))
  {
    hide Xor, Update, BitSerial, Not;
    NotIsXor(previous);
    NotZero();
    UpdateIsBitSerial(Not(previous), data);
    UpdateIsBitSerial(Not(0), data);
    NotIsXor(Update(Not(previous), data));
    NotIsXor(Update(Not(0), data));
  }

  function Narrow(a: bv32): bv8 { (a & 0xFF) as bv8 }

  /** The four bytes of a checksum, lowest first, as it is appended to a message. */
  function Appended(crc: bv32): (bytes: seq<bv8>)
    ensures |bytes| == 4
  {
    [Narrow(crc), Narrow(crc >> 8), Narrow(crc >> 16), Narrow(crc >> 24)]
  }

  lemma LoadBits(crc: bv32)
    ensures Load(Narrow(crc), Narrow(crc >> 8), Narrow(crc >> 16), Narrow(crc >> 24)) == crc
  {
  }

  lemma AppendedBits(crc: bv32)
    ensures Appended(crc) == [Narrow(crc), Narrow(crc >> 8), Narrow(crc >> 16), Narrow(crc >> 24)]
  {
    hide Narrow;
  }

  lemma LoadAppended(crc: bv32)
    ensures var d := Appended(crc); Load(d[0], d[1], d[2], d[3]) == crc
  {
    hide *;
    AppendedBits(crc);
    LoadBits(crc);
  }

  lemma XorWithNot(a: bv32)
    ensures Xor(a, Not(a)) == 0xFFFF_FFFF
  {
  }

  lemma FirstByteBits()
    ensures Steps(0xFFFF_FFFF, 8) == 0x2DFD_1072
  {
  }

  lemma SecondByteBits()
    ensures Steps(0x2DFD_1072, 8) == 0xBE26_ED00
  {
  }

  lemma ThirdByteBits()
    ensures Steps(0xBE26_ED00, 8) == 0x00BE_26ED
  {
  }

  lemma FourthByteBits()
    ensures Steps(0x00BE_26ED, 8) == 0xDEBB_20E3 && Not(0xDEBB_20E3) == 0x2144_DF1C
  {
  }

  /** Every message followed by its checksum has the same checksum. */
  lemma Residue(data: seq<bv8>, previous: bv32)
    ensures Crc(data + Appended(Crc(data, previous)), previous) == 0x2144_DF1C
  {
    hide Xor, Update, Steps, Not, Load, Appended;
    var r := Update(Not(previous), data);
    var tail := Appended(Crc(data, previous));
    UpdateConcat(Not(previous), data, tail);
    UpdateWord(r, tail, 0);
    assert tail[0..] == tail && tail[0 + 4..] == [];
    LoadAppended(Crc(data, previous));
    XorWithNot(r);
    NothingLeft(Steps(0xFFFF_FFFF, 32));
    OnesThroughWord();
  }

  lemma NothingLeft(crc: bv32)
    ensures Update(crc, []) == crc
  {
  }

  lemma OnesThroughWord()
    ensures Not(Steps(0xFFFF_FFFF, 32)) == 0x2144_DF1C
  {
    hide Steps, Not;
    FirstByteBits();
    SecondByteBits();
    ThirdByteBits();
    FourthByteBits();
    StepsAdd(0xFFFF_FFFF, 8, 24);
    StepsAdd(0x2DFD_1072, 8, 16);
    StepsAdd(0xBE26_ED00, 8, 8);
  }
}
