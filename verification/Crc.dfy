/** The nibble-table checksums of src/ayla/crc8.c, crc16.c and crc32.c. */
module Crc {
  import opened Options
  import opened CrcTheory
  import opened CrcCode

  // ---------------------------------------------------------------- tables and update steps

  /** crc8_table. */
  function Table8(n: bv8): bv8
  {
    if n == 0 then 0x00 else if n == 1 then 0x07 else if n == 2 then 0x0e else if n == 3 then 0x09
    else if n == 4 then 0x1c else if n == 5 then 0x1b else if n == 6 then 0x12 else if n == 7 then 0x15
    else if n == 8 then 0x38 else if n == 9 then 0x3f else if n == 10 then 0x36 else if n == 11 then 0x31
    else if n == 12 then 0x24 else if n == 13 then 0x23 else if n == 14 then 0x2a else 0x2d
  }

  /** crc16_table. */
  function Table16(n: bv16): bv16
  {
    if n == 0 then 0x0000 else if n == 1 then 0x1021 else if n == 2 then 0x2042 else if n == 3 then 0x3063
    else if n == 4 then 0x4084 else if n == 5 then 0x50a5 else if n == 6 then 0x60c6 else if n == 7 then 0x70e7
    else if n == 8 then 0x8108 else if n == 9 then 0x9129 else if n == 10 then 0xa14a else if n == 11 then 0xb16b
    else if n == 12 then 0xc18c else if n == 13 then 0xd1ad else if n == 14 then 0xe1ce else 0xf1ef
  }

  /** crc32_table. */
  function Table32(n: bv32): bv32
  {
    if n == 0 then 0 else if n == 1 then 0x1db71064 else if n == 2 then 0x3b6e20c8 else if n == 3 then 0x26d930ac
    else if n == 4 then 0x76dc4190 else if n == 5 then 0x6b6b51f4 else if n == 6 then 0x4db26158
    else if n == 7 then 0x5005713c else if n == 8 then 0xedb88320 else if n == 9 then 0xf00f9344
    else if n == 10 then 0xd6d6a3e8 else if n == 11 then 0xcb61b38c else if n == 12 then 0x9b64c2b0
    else if n == 13 then 0x86d3d2d4 else if n == 14 then 0xa00ae278 else 0xbdbdf21c
  }

  function Nibble8(crc: bv8): bv8 { (crc << 4) ^ Table8(crc >> 4) }
  function Nibble16(crc: bv16): bv16 { (crc << 4) ^ Table16(crc >> 12) }
  function Nibble32(crc: bv32): bv32 { (crc >> 4) ^ Table32(crc & 0xf) }

  function Up16(b: Byte): bv16 { (b as bv16) << 8 }
  function Widen32(b: Byte): bv32 { b as bv32 }

  /** One turn of the loops: take in one byte. */
  function Step8(crc: bv8, b: Byte): bv8 { Nibble8(Nibble8(crc ^ b)) }
  function Step16(crc: bv16, b: Byte): bv16 { Nibble16(Nibble16(crc ^ Up16(b))) }
  function Step32(crc: bv32, b: Byte): bv32 { Nibble32(Nibble32(crc ^ Widen32(b))) }

  // ---------------------------------------------------------------- width 8

  /** One bit of polynomial division. */
  function Bit8(c: bv8): bv8 { if c & 0x80 != 0 then (c << 1) ^ 0x07 else c << 1 }

  /** The coefficients a register holds, highest first, from the one under mask `m` on. */
  function Msb8(c: bv8, m: bv8, n: nat): (r: Bits)
    ensures |r| == n
    decreases n
  {
    if n == 0 then [] else [c & m != 0] + Msb8(c, m >> 1, n - 1)
  }

  /** `m` is a single bit, `n` places away from the lowest coefficient. */
  predicate Place8(m: bv8, n: nat)
    decreases n
  {
    m != 0 && m & (m - 1) == 0 && (if n == 0 then m == 0x01 else m != 0x01 && Place8(m >> 1, n - 1))
  }

  function Reg8(c: bv8): (r: Bits)
    ensures |r| == 8
  {
    Msb8(c, 0x80, 8)
  }

  function Gen8(): (g: Bits) ensures |g| == 8 { Reg8(0x07) }

  lemma XorBit8(c: bv8, d: bv8, m: bv8)
    requires m != 0 && m & (m - 1) == 0
    ensures ((c ^ d) & m != 0) == ((c & m != 0) != (d & m != 0))
  {
  }

  lemma XorJoin8(c: bv8, d: bv8, e: bv8, m: bv8, n: nat)
    requires n > 0 && (e & m != 0) == ((c & m != 0) != (d & m != 0))
    requires n > 1 ==> Msb8(e, m >> 1, n - 1) == Xor(Msb8(c, m >> 1, n - 1), Msb8(d, m >> 1, n - 1))
    ensures Msb8(e, m, n) == Xor(Msb8(c, m, n), Msb8(d, m, n))
  {
    XorFirst(c & m != 0, d & m != 0, Msb8(c, m >> 1, n - 1), Msb8(d, m >> 1, n - 1));
  }

  lemma {:induction false} XorBits8(c: bv8, d: bv8, m: bv8, n: nat)
    requires n > 0 && Place8(m, n - 1)
    ensures Msb8(c ^ d, m, n) == Xor(Msb8(c, m, n), Msb8(d, m, n))
    decreases n
  {
    XorBit8(c, d, m);
    if n > 1 {
      XorBits8(c, d, m >> 1, n - 1);
    }
    XorJoin8(c, d, c ^ d, m, n);
  }

  lemma {:induction false} ShiftedBits8(c: bv8, m: bv8, n: nat)
    requires Place8(m, n)
    ensures Msb8(c << 1, m, n + 1) == Msb8(c, m >> 1, n) + [false]
    decreases n
  {
    if n > 0 {
      assert ((c << 1) & m != 0) == (c & (m >> 1) != 0) by { ShiftedBit8(c, m); }
      ShiftedBits8(c, m >> 1, n - 1);
    }
  }

  lemma ShiftedBit8(c: bv8, m: bv8)
    requires m != 0 && m & (m - 1) == 0 && m != 0x01
    ensures ((c << 1) & m != 0) == (c & (m >> 1) != 0)
  {
  }

  lemma FirstPlace8()
    ensures Place8(0x80, 7)
  {
    assert Place8(0x1, 0) && Place8(0x2, 1) && Place8(0x4, 2) && Place8(0x8, 3);
    assert Place8(0x10, 4) && Place8(0x20, 5) && Place8(0x40, 6);
  }

  lemma {:induction false} LastBit8(c: bv8, m: bv8, n: nat)
    requires Place8(m, n)
    ensures Msb8(c, m, n + 1)[n] == (c & 0x01 != 0)
    decreases n
  {
    if n > 0 {
      LastBit8(c, m >> 1, n - 1);
    }
  }

  /** The generator ends in a set coefficient. */
  lemma GenEnds8()
    ensures |Gen8()| == 8 && Gen8()[7]
  {
    FirstPlace8();
    LastBit8(0x07, 0x80, 7);
  }

  lemma BitIsShift8(c: bv8)
    ensures Reg8(Bit8(c)) == Shift(Reg8(c), Gen8())
  {
    FirstPlace8();
    ShiftedBits8(c, 0x80, 7);
    XorBits8(c << 1, 0x07, 0x80, 8);
    assert Reg8(c) == [c & 0x80 != 0] + Msb8(c, 0x80 >> 1, 7);
    assert Reg8(c)[1..] == Msb8(c, 0x80 >> 1, 7);
  }

  function Bits8(c: bv8, n: nat): bv8
    decreases n
  {
    if n == 0 then c else Bits8(Bit8(c), n - 1)
  }

  lemma {:induction false} BitsAreShifts8(c: bv8, n: nat)
    ensures Reg8(Bits8(c, n)) == Shifts(Reg8(c), n, Gen8())
    decreases n
  {
    hide Bit8, Reg8, Gen8, Shift;
    if n > 0 {
      BitIsShift8(c);
      BitsAreShifts8(Bit8(c), n - 1);
    }
  }

  /** The bits from mask `m` on, `n + 1` of them. */
  function Cover8(m: bv8, n: nat): bv8
    decreases n
  {
    if n == 0 then m else m | Cover8(m >> 1, n - 1)
  }

  lemma {:induction false} NoBits8(c: bv8, m: bv8, n: nat)
    requires Msb8(c, m, n + 1) == Zeros(n + 1)
    ensures c & Cover8(m, n) == 0
    decreases n
  {
    assert Zeros(n + 1)[1..] == Zeros(n);
    assert Msb8(c, m, n + 1)[1..] == Msb8(c, m >> 1, n);
    assert !Msb8(c, m, n + 1)[0];
    if n > 0 {
      NoBits8(c, m >> 1, n - 1);
    }
  }

  function Xor8(c: bv8, d: bv8): bv8 { c ^ d }

  lemma RegXor8(c: bv8, d: bv8)
    ensures Reg8(Xor8(c, d)) == Xor(Reg8(c), Reg8(d))
  {
    FirstPlace8();
    XorBits8(c, d, 0x80, 8);
  }

  lemma CoverAll8()
    ensures Cover8(0x80, 7) == 0xff
  {
    assert Cover8(0x1, 0) == 0x1 && Cover8(0x2, 1) == 0x3 && Cover8(0x4, 2) == 0x7 && Cover8(0x8, 3) == 0xf;
    assert Cover8(0x10, 4) == 0x1f && Cover8(0x20, 5) == 0x3f && Cover8(0x40, 6) == 0x7f;
  }

  lemma RegInjective8(c: bv8, d: bv8)
    requires Reg8(c) == Reg8(d)
    ensures c == d
  {
    hide Msb8, Cover8, Xor8;
    RegXor8(c, d);
    assert Xor(Reg8(c), Reg8(d)) == Zeros(8);
    NoBits8(Xor8(c, d), 0x80, 7);
    CoverAll8();
    XorZero8(c, d);
  }

  lemma XorZero8(c: bv8, d: bv8)
    ensures Xor8(c, d) & 0xff == 0 ==> c == d
  {
  }

  lemma FourBits8(c: bv8)
    ensures Bits8(c, 4) == Bit8(Bit8(Bit8(Bit8(c))))
  {
    hide Bit8;
    assert Bits8(Bit8(c), 3) == Bits8(Bit8(Bit8(c)), 2);
    assert Bits8(Bit8(Bit8(c)), 2) == Bits8(Bit8(Bit8(Bit8(c))), 1);
    assert Bits8(Bit8(Bit8(Bit8(c))), 1) == Bits8(Bit8(Bit8(Bit8(Bit8(c)))), 0);
  }

  lemma NibbleIsFour8(c: bv8)
    ensures Nibble8(c) == Bit8(Bit8(Bit8(Bit8(c))))
  {
  }

  /** The table folds four bits of division into one look-up. */
  lemma NibbleIsFourBits8(c: bv8)
    ensures Nibble8(c) == Bits8(c, 4)
  {
    hide Bit8, Nibble8, Bits8;
    FourBits8(c);
    NibbleIsFour8(c);
  }

  lemma {:induction false} BitsAdd8(c: bv8, m: nat, n: nat)
    ensures Bits8(c, m + n) == Bits8(Bits8(c, m), n)
    decreases m
  {
    if m > 0 {
      BitsAdd8(Bit8(c), m - 1, n);
    }
  }

  lemma StepIsEightBits8(c: bv8, b: Byte)
    ensures Step8(c, b) == Bits8(c ^ b, 8)
  {
    hide Bits8, Nibble8;
    var x := c ^ b;
    NibbleIsFourBits8(x);
    NibbleIsFourBits8(Nibble8(x));
    BitsAdd8(x, 4, 4);
  }

  lemma ByteInRegister8(b: Byte)
    ensures Reg8(b) == ByteMsb(b) + Zeros(0)
  {
  }

  lemma StepFeedsByte8(c: bv8, b: Byte)
    ensures Reg8(Step8(c, b)) == FeedAll(Reg8(c), ByteMsb(b), Gen8())
  {
    hide FeedAll, Shifts, Bits8, Step8, Reg8, ByteMsb;
    var x := b;
    StepIsEightBits8(c, b);
    BitsAreShifts8(c ^ x, 8);
    RegXor8(c, x);
    ByteInRegister8(b);
    RegLength8(c);
    Preload(Reg8(c), ByteMsb(b), Gen8());
  }

  lemma RegLength8(c: bv8)
    ensures |Reg8(c)| == |Gen8()| == 8
  {
  }

  /** crc8 as a checksum loop. */
  function Code8(): Code<bv8>
  {
    Code(Gen8(), (c: bv8) => Reg8(c),
         (b: Byte) => ByteMsb(b),
         (c: bv8, b: Byte) => Step8(c, b), (c: bv8, d: bv8) => Xor8(c, d))
  }

  /** Main result: the nibble-table step of crc8 is eight steps of bitwise polynomial division. */
  lemma Faithful8()
    ensures Faithful(Code8())
  {
    hide Reg8, ByteMsb, Step8, FeedAll, Gen8;
    GenEnds8();
    forall c: bv8
      ensures |Reg8(c)| == |Gen8()|
    {
      RegLength8(c);
    }
    forall c: bv8, d: bv8
      ensures Reg8(Xor8(c, d)) == Xor(Reg8(c), Reg8(d))
    {
      RegXor8(c, d);
    }
    forall c: bv8, d: bv8
      ensures Reg8(c) == Reg8(d) ==> c == d
    {
      if Reg8(c) == Reg8(d) {
        RegInjective8(c, d);
      }
    }
    forall c: bv8, b: Byte
      ensures Reg8(Step8(c, b)) == FeedAll(Reg8(c), ByteMsb(b), Gen8())
    {
      StepFeedsByte8(c, b);
    }
    forall a: Byte, b: Byte
      ensures ByteMsb(a ^ b) == Xor(ByteMsb(a), ByteMsb(b))
      ensures ByteMsb(a) == ByteMsb(b) ==> a == b
    {
      ByteMsbFacts(a, b);
    }
  }

  /** What crc8 computes, by polynomial division, and what it tells apart: messages that differ only
      within one byte, wherever those lie. */
  lemma Crc8Means(init: bv8, m: seq<Byte>, n: seq<Byte>, at: nat)
    ensures Reg8(Crc(Code8(), init, m)) ==
            Remainder(XorPrefix(MsgBits(Code8(), m) + Zeros(8), Reg8(init)), Gen8())
    ensures BytesWithin(m, n, at, 1) ==> (Crc(Code8(), init, m) == Crc(Code8(), init, n) <==> m == n)
  {
    hide Reg8, Gen8, Crc, MsgBits, Remainder, Faithful, BytesWithin;
    Faithful8();
    CrcIsDivision(Code8(), init, m);
    if BytesWithin(m, n, at, 1) {
      CrcTellsApart(Code8(), init, m, n, at, 1);
    }
  }

  /** crc8. */
  method ComputeCrc8(buf: array<Byte>, len: nat, init: bv8) returns (crc: bv8)
    requires len <= buf.Length
    ensures crc == Crc(Code8(), init, buf[..len])
  {
    hide Step8;
    crc := init;
    var i := 0;
    while i < len
      invariant i <= len && Crc(Code8(), crc, buf[i..len]) == Crc(Code8(), init, buf[..len])
    {
      assert buf[i..len][1..] == buf[i + 1..len];
      crc := Step8(crc, buf[i]);
      i := i + 1;
    }
  }

  // ---------------------------------------------------------------- bytes as bits

  /** A byte, highest bit first. */
  function ByteMsb(b: Byte): (r: Bits)
    ensures |r| == 8
  {
    Msb8(b, 0x80, 8)
  }

  lemma ByteMsbFacts(a: Byte, b: Byte)
    ensures ByteMsb(a ^ b) == Xor(ByteMsb(a), ByteMsb(b))
    ensures ByteMsb(a) == ByteMsb(b) ==> a == b
  {
    hide Msb8;
    RegXor8(a, b);
    if ByteMsb(a) == ByteMsb(b) {
      RegInjective8(a, b);
    }
  }

  function Lsb8(b: Byte, m: bv8, n: nat): (r: Bits)
    ensures |r| == n
    decreases n
  {
    if n == 0 then [] else [b & m != 0] + Lsb8(b, m << 1, n - 1)
  }

  /** A byte, lowest bit first. */
  function ByteLsb(b: Byte): (r: Bits)
    ensures |r| == 8
  {
    Lsb8(b, 0x01, 8)
  }

  predicate LowPlace8(m: bv8, n: nat)
    decreases n
  {
    m != 0 && m & (m - 1) == 0 && (if n == 0 then m == 0x80 else m != 0x80 && LowPlace8(m << 1, n - 1))
  }

  lemma FirstLowPlace8()
    ensures LowPlace8(0x01, 7)
  {
    assert LowPlace8(0x80, 0) && LowPlace8(0x40, 1) && LowPlace8(0x20, 2) && LowPlace8(0x10, 3);
    assert LowPlace8(0x08, 4) && LowPlace8(0x04, 5) && LowPlace8(0x02, 6);
  }

  lemma LsbXorJoin8(c: bv8, d: bv8, e: bv8, m: bv8, n: nat)
    requires n > 0 && (e & m != 0) == ((c & m != 0) != (d & m != 0))
    requires n > 1 ==> Lsb8(e, m << 1, n - 1) == Xor(Lsb8(c, m << 1, n - 1), Lsb8(d, m << 1, n - 1))
    ensures Lsb8(e, m, n) == Xor(Lsb8(c, m, n), Lsb8(d, m, n))
  {
    XorFirst(c & m != 0, d & m != 0, Lsb8(c, m << 1, n - 1), Lsb8(d, m << 1, n - 1));
  }

  lemma {:induction false} LsbXorBits8(c: bv8, d: bv8, m: bv8, n: nat)
    requires n > 0 && LowPlace8(m, n - 1)
    ensures Lsb8(c ^ d, m, n) == Xor(Lsb8(c, m, n), Lsb8(d, m, n))
    decreases n
  {
    XorBit8(c, d, m);
    if n > 1 {
      LsbXorBits8(c, d, m << 1, n - 1);
    }
    LsbXorJoin8(c, d, c ^ d, m, n);
  }

  function LowCover8(m: bv8, n: nat): bv8
    decreases n
  {
    if n == 0 then m else m | LowCover8(m << 1, n - 1)
  }

  lemma {:induction false} LsbNoBits8(c: bv8, m: bv8, n: nat)
    requires Lsb8(c, m, n + 1) == Zeros(n + 1)
    ensures c & LowCover8(m, n) == 0
    decreases n
  {
    assert Zeros(n + 1)[1..] == Zeros(n);
    assert Lsb8(c, m, n + 1)[1..] == Lsb8(c, m << 1, n);
    assert !Lsb8(c, m, n + 1)[0];
    if n > 0 {
      LsbNoBits8(c, m << 1, n - 1);
    }
  }

  lemma LowCoverAll8()
    ensures LowCover8(0x01, 7) == 0xff
  {
    assert LowCover8(0x80, 0) == 0x80 && LowCover8(0x40, 1) == 0xc0 && LowCover8(0x20, 2) == 0xe0;
    assert LowCover8(0x10, 3) == 0xf0 && LowCover8(0x08, 4) == 0xf8 && LowCover8(0x04, 5) == 0xfc;
    assert LowCover8(0x02, 6) == 0xfe;
  }

  lemma ByteLsbFacts(a: Byte, b: Byte)
    ensures ByteLsb(a ^ b) == Xor(ByteLsb(a), ByteLsb(b))
    ensures ByteLsb(a) == ByteLsb(b) ==> a == b
  {
    hide Lsb8, LowCover8, LowPlace8;
    FirstLowPlace8();
    LsbXorBits8(a, b, 0x01, 8);
    if ByteLsb(a) == ByteLsb(b) {
      assert Xor(ByteLsb(a), ByteLsb(b)) == Zeros(8);
      LsbNoBits8(a ^ b, 0x01, 7);
      LowCoverAll8();
      XorZero8(a, b);
    }
  }

  // ---------------------------------------------------------------- width 16

  /** One bit of polynomial division. */
  function Bit16(c: bv16): bv16 { if c & 0x8000 != 0 then (c << 1) ^ 0x1021 else c << 1 }

  /** The coefficients a register holds, highest first, from the one under mask `m` on. */
  function Msb16(c: bv16, m: bv16, n: nat): (r: Bits)
    ensures |r| == n
    decreases n
  {
    if n == 0 then [] else [c & m != 0] + Msb16(c, m >> 1, n - 1)
  }

  /** `m` is a single bit, `n` places away from the lowest coefficient. */
  predicate Place16(m: bv16, n: nat)
    decreases n
  {
    m != 0 && m & (m - 1) == 0 && (if n == 0 then m == 0x0001 else m != 0x0001 && Place16(m >> 1, n - 1))
  }

  function Reg16(c: bv16): (r: Bits)
    ensures |r| == 16
  {
    Msb16(c, 0x8000, 16)
  }

  function Gen16(): (g: Bits) ensures |g| == 16 { Reg16(0x1021) }

  lemma XorBit16(c: bv16, d: bv16, m: bv16)
    requires m != 0 && m & (m - 1) == 0
    ensures ((c ^ d) & m != 0) == ((c & m != 0) != (d & m != 0))
  {
  }

  lemma XorJoin16(c: bv16, d: bv16, e: bv16, m: bv16, n: nat)
    requires n > 0 && (e & m != 0) == ((c & m != 0) != (d & m != 0))
    requires n > 1 ==> Msb16(e, m >> 1, n - 1) == Xor(Msb16(c, m >> 1, n - 1), Msb16(d, m >> 1, n - 1))
    ensures Msb16(e, m, n) == Xor(Msb16(c, m, n), Msb16(d, m, n))
  {
    XorFirst(c & m != 0, d & m != 0, Msb16(c, m >> 1, n - 1), Msb16(d, m >> 1, n - 1));
  }

  lemma {:induction false} XorBits16(c: bv16, d: bv16, m: bv16, n: nat)
    requires n > 0 && Place16(m, n - 1)
    ensures Msb16(c ^ d, m, n) == Xor(Msb16(c, m, n), Msb16(d, m, n))
    decreases n
  {
    XorBit16(c, d, m);
    if n > 1 {
      XorBits16(c, d, m >> 1, n - 1);
    }
    XorJoin16(c, d, c ^ d, m, n);
  }

  lemma {:induction false} ShiftedBits16(c: bv16, m: bv16, n: nat)
    requires Place16(m, n)
    ensures Msb16(c << 1, m, n + 1) == Msb16(c, m >> 1, n) + [false]
    decreases n
  {
    if n > 0 {
      assert ((c << 1) & m != 0) == (c & (m >> 1) != 0) by { ShiftedBit16(c, m); }
      ShiftedBits16(c, m >> 1, n - 1);
    }
  }

  lemma ShiftedBit16(c: bv16, m: bv16)
    requires m != 0 && m & (m - 1) == 0 && m != 0x0001
    ensures ((c << 1) & m != 0) == (c & (m >> 1) != 0)
  {
  }

  lemma FirstPlace16()
    ensures Place16(0x8000, 15)
  {
    assert Place16(0x1, 0) && Place16(0x2, 1) && Place16(0x4, 2) && Place16(0x8, 3);
    assert Place16(0x10, 4) && Place16(0x20, 5) && Place16(0x40, 6) && Place16(0x80, 7);
    assert Place16(0x100, 8) && Place16(0x200, 9) && Place16(0x400, 10) && Place16(0x800, 11);
    assert Place16(0x1000, 12) && Place16(0x2000, 13) && Place16(0x4000, 14);
  }

  lemma {:induction false} LastBit16(c: bv16, m: bv16, n: nat)
    requires Place16(m, n)
    ensures Msb16(c, m, n + 1)[n] == (c & 0x0001 != 0)
    decreases n
  {
    if n > 0 {
      LastBit16(c, m >> 1, n - 1);
    }
  }

  /** The generator ends in a set coefficient. */
  lemma GenEnds16()
    ensures |Gen16()| == 16 && Gen16()[15]
  {
    FirstPlace16();
    LastBit16(0x1021, 0x8000, 15);
  }

  lemma BitIsShift16(c: bv16)
    ensures Reg16(Bit16(c)) == Shift(Reg16(c), Gen16())
  {
    FirstPlace16();
    ShiftedBits16(c, 0x8000, 15);
    XorBits16(c << 1, 0x1021, 0x8000, 16);
    assert Reg16(c) == [c & 0x8000 != 0] + Msb16(c, 0x8000 >> 1, 15);
    assert Reg16(c)[1..] == Msb16(c, 0x8000 >> 1, 15);
  }

  function Bits16(c: bv16, n: nat): bv16
    decreases n
  {
    if n == 0 then c else Bits16(Bit16(c), n - 1)
  }

  lemma {:induction false} BitsAreShifts16(c: bv16, n: nat)
    ensures Reg16(Bits16(c, n)) == Shifts(Reg16(c), n, Gen16())
    decreases n
  {
    hide Bit16, Reg16, Gen16, Shift;
    if n > 0 {
      BitIsShift16(c);
      BitsAreShifts16(Bit16(c), n - 1);
    }
  }

  /** The bits from mask `m` on, `n + 1` of them. */
  function Cover16(m: bv16, n: nat): bv16
    decreases n
  {
    if n == 0 then m else m | Cover16(m >> 1, n - 1)
  }

  lemma {:induction false} NoBits16(c: bv16, m: bv16, n: nat)
    requires Msb16(c, m, n + 1) == Zeros(n + 1)
    ensures c & Cover16(m, n) == 0
    decreases n
  {
    assert Zeros(n + 1)[1..] == Zeros(n);
    assert Msb16(c, m, n + 1)[1..] == Msb16(c, m >> 1, n);
    assert !Msb16(c, m, n + 1)[0];
    if n > 0 {
      NoBits16(c, m >> 1, n - 1);
    }
  }

  function Xor16(c: bv16, d: bv16): bv16 { c ^ d }

  lemma RegXor16(c: bv16, d: bv16)
    ensures Reg16(Xor16(c, d)) == Xor(Reg16(c), Reg16(d))
  {
    FirstPlace16();
    XorBits16(c, d, 0x8000, 16);
  }

  lemma CoverAll16()
    ensures Cover16(0x8000, 15) == 0xffff
  {
    assert Cover16(0x1, 0) == 0x1 && Cover16(0x2, 1) == 0x3 && Cover16(0x4, 2) == 0x7 && Cover16(0x8, 3) == 0xf;
    assert Cover16(0x10, 4) == 0x1f && Cover16(0x20, 5) == 0x3f && Cover16(0x40, 6) == 0x7f && Cover16(0x80, 7) == 0xff;
    assert Cover16(0x100, 8) == 0x1ff && Cover16(0x200, 9) == 0x3ff;
    assert Cover16(0x400, 10) == 0x7ff && Cover16(0x800, 11) == 0xfff;
    assert Cover16(0x1000, 12) == 0x1fff && Cover16(0x2000, 13) == 0x3fff && Cover16(0x4000, 14) == 0x7fff;
  }

  lemma RegInjective16(c: bv16, d: bv16)
    requires Reg16(c) == Reg16(d)
    ensures c == d
  {
    hide Msb16, Cover16, Xor16;
    RegXor16(c, d);
    assert Xor(Reg16(c), Reg16(d)) == Zeros(16);
    NoBits16(Xor16(c, d), 0x8000, 15);
    CoverAll16();
    XorZero16(c, d);
  }

  lemma XorZero16(c: bv16, d: bv16)
    ensures Xor16(c, d) & 0xffff == 0 ==> c == d
  {
  }

  lemma FourBits16(c: bv16)
    ensures Bits16(c, 4) == Bit16(Bit16(Bit16(Bit16(c))))
  {
    hide Bit16;
    assert Bits16(Bit16(c), 3) == Bits16(Bit16(Bit16(c)), 2);
    assert Bits16(Bit16(Bit16(c)), 2) == Bits16(Bit16(Bit16(Bit16(c))), 1);
    assert Bits16(Bit16(Bit16(Bit16(c))), 1) == Bits16(Bit16(Bit16(Bit16(Bit16(c)))), 0);
  }

  lemma FourLow16(c: bv16)
    ensures Bit16(Bit16(Bit16(Bit16(c & 0x0fff)))) == c << 4
  {
  }

  lemma FourHigh16(c: bv16)
    ensures Bit16(Bit16(Bit16(Bit16(c & 0xf000)))) == Table16(c >> 12)
  {
  }

  lemma BitsLinear16(c: bv16, d: bv16, n: nat)
    ensures Bits16(Xor16(c, d), n) == Xor16(Bits16(c, n), Bits16(d, n))
  {
    hide Bits16, Reg16, Shifts, Xor16;
    BitsAreShifts16(c, n);
    BitsAreShifts16(d, n);
    BitsAreShifts16(Xor16(c, d), n);
    RegXor16(c, d);
    RegXor16(Bits16(c, n), Bits16(d, n));
    ShiftsLinear(Reg16(c), Reg16(d), n, Gen16());
    RegInjective16(Bits16(Xor16(c, d), n), Xor16(Bits16(c, n), Bits16(d, n)));
  }

  function Low16(c: bv16): bv16 { c & 0x0fff }
  function High16(c: bv16): bv16 { c & 0xf000 }
  function Top16(c: bv16): bv16 { c >> 12 }
  function Left16(c: bv16): bv16 { c << 4 }

  lemma SplitNibble16(c: bv16)
    ensures Xor16(Low16(c), High16(c)) == c
    ensures Nibble16(c) == Xor16(Left16(c), Table16(Top16(c)))
  {
  }

  lemma LowPart16(c: bv16)
    ensures Bits16(Low16(c), 4) == Left16(c)
  {
    hide Bits16, Bit16;
    FourBits16(c & 0x0fff);
    FourLow16(c);
  }

  lemma HighPart16(c: bv16)
    ensures Bits16(High16(c), 4) == Table16(Top16(c))
  {
    hide Bits16, Bit16, Table16;
    FourBits16(c & 0xf000);
    FourHigh16(c);
  }

  /** The table folds four bits of division into one look-up. */
  lemma NibbleIsFourBits16(c: bv16)
    ensures Nibble16(c) == Bits16(c, 4)
  {
    hide Bits16, Table16, Nibble16, Low16, High16, Top16, Left16, Xor16;
    SplitNibble16(c);
    LowPart16(c);
    HighPart16(c);
    BitsLinear16(Low16(c), High16(c), 4);
  }

  lemma {:induction false} BitsAdd16(c: bv16, m: nat, n: nat)
    ensures Bits16(c, m + n) == Bits16(Bits16(c, m), n)
    decreases m
  {
    if m > 0 {
      BitsAdd16(Bit16(c), m - 1, n);
    }
  }

  lemma StepIsEightBits16(c: bv16, b: Byte)
    ensures Step16(c, b) == Bits16(c ^ Up16(b), 8)
  {
    hide Bits16, Nibble16;
    var x := c ^ Up16(b);
    NibbleIsFourBits16(x);
    NibbleIsFourBits16(Nibble16(x));
    BitsAdd16(x, 4, 4);
  }

  lemma {:induction false} NoLowBits16(x: bv16, m: bv16, n: nat)
    requires x & 0xff == 0 && m <= 0x80
    ensures Msb16(x, m, n) == Zeros(n)
    decreases n
  {
    if n > 0 {
      NoLowBits16(x, m >> 1, n - 1);
    }
  }

  lemma WidenBit16(b: Byte, m: bv8)
    ensures (Up16(b) & Up16(m) != 0) == (b & m != 0)
    ensures m & 1 == 0 ==> Up16(m) >> 1 == Up16(m >> 1)
    ensures Up16(b) & 0xff == 0
    ensures m == 1 ==> Up16(m) >> 1 == 0x80
    ensures m == 0x80 ==> Up16(m) == 0x8000
  {
  }

  lemma SingleBitEven8(m: bv8)
    requires m != 0 && m & (m - 1) == 0 && m != 1
    ensures m & 1 == 0
  {
  }

  lemma PlaceStep8(m: bv8, n: nat)
    requires Place8(m, n)
    ensures if n == 0 then m == 1 else m & 1 == 0 && Place8(m >> 1, n - 1)
  {
    if n > 0 {
      SingleBitEven8(m);
    }
  }

  lemma HighByteLast16(b: Byte, m: bv8)
    requires Place8(m, 0)
    ensures Msb16(Up16(b), Up16(m), 9) == Msb8(b, m, 1) + Zeros(8)
  {
    hide Up16, Place8;
    PlaceStep8(m, 0);
    WidenBit16(b, m);
    NoLowBits16(Up16(b), 0x80, 8);
    assert Msb8(b, m >> 1, 0) == [];
  }

  lemma HighByteNext16(b: Byte, m: bv8, n: nat)
    requires Place8(m, n) && n > 0
    requires Msb16(Up16(b), Up16(m >> 1), n + 8) == Msb8(b, m >> 1, n) + Zeros(8)
    ensures Msb16(Up16(b), Up16(m), n + 9) == Msb8(b, m, n + 1) + Zeros(8)
  {
    hide Up16, Place8;
    PlaceStep8(m, n);
    WidenBit16(b, m);
  }

  lemma {:induction false} HighByte16(b: Byte, m: bv8, n: nat)
    requires Place8(m, n)
    ensures Msb16(Up16(b), Up16(m), n + 9) == Msb8(b, m, n + 1) + Zeros(8)
    decreases n
  {
    hide Up16, Place8, Msb16, Msb8;
    if n == 0 {
      HighByteLast16(b, m);
    } else {
      PlaceStep8(m, n);
      HighByte16(b, m >> 1, n - 1);
      HighByteNext16(b, m, n);
    }
  }

  lemma ByteInRegister16(b: Byte)
    ensures Reg16(Up16(b)) == ByteMsb(b) + Zeros(8)
  {
    hide Msb16, Msb8, Place8, Up16;
    FirstPlace8();
    HighByte16(b, 0x80, 7);
    WidenBit16(b, 0x80);
  }

  lemma StepFeedsByte16(c: bv16, b: Byte)
    ensures Reg16(Step16(c, b)) == FeedAll(Reg16(c), ByteMsb(b), Gen16())
  {
    hide FeedAll, Shifts, Bits16, Step16, Reg16, ByteMsb, Up16;
    var x := Up16(b);
    StepIsEightBits16(c, b);
    BitsAreShifts16(c ^ x, 8);
    RegXor16(c, x);
    ByteInRegister16(b);
    RegLength16(c);
    Preload(Reg16(c), ByteMsb(b), Gen16());
  }

  lemma RegLength16(c: bv16)
    ensures |Reg16(c)| == |Gen16()| == 16
  {
  }

  /** crc16 as a checksum loop. */
  function Code16(): Code<bv16>
  {
    Code(Gen16(), (c: bv16) => Reg16(c),
         (b: Byte) => ByteMsb(b),
         (c: bv16, b: Byte) => Step16(c, b), (c: bv16, d: bv16) => Xor16(c, d))
  }

  /** Main result: the nibble-table step of crc16 is eight steps of bitwise polynomial division. */
  lemma Faithful16()
    ensures Faithful(Code16())
  {
    hide Reg16, ByteMsb, Step16, FeedAll, Gen16;
    GenEnds16();
    forall c: bv16
      ensures |Reg16(c)| == |Gen16()|
    {
      RegLength16(c);
    }
    forall c: bv16, d: bv16
      ensures Reg16(Xor16(c, d)) == Xor(Reg16(c), Reg16(d))
    {
      RegXor16(c, d);
    }
    forall c: bv16, d: bv16
      ensures Reg16(c) == Reg16(d) ==> c == d
    {
      if Reg16(c) == Reg16(d) {
        RegInjective16(c, d);
      }
    }
    forall c: bv16, b: Byte
      ensures Reg16(Step16(c, b)) == FeedAll(Reg16(c), ByteMsb(b), Gen16())
    {
      StepFeedsByte16(c, b);
    }
    forall a: Byte, b: Byte
      ensures ByteMsb(a ^ b) == Xor(ByteMsb(a), ByteMsb(b))
      ensures ByteMsb(a) == ByteMsb(b) ==> a == b
    {
      ByteMsbFacts(a, b);
    }
  }

  /** What crc16 computes, by polynomial division, and what it tells apart: messages that differ only
      within two consecutive bytes, wherever those lie. */
  lemma Crc16Means(init: bv16, m: seq<Byte>, n: seq<Byte>, at: nat)
    ensures Reg16(Crc(Code16(), init, m)) ==
            Remainder(XorPrefix(MsgBits(Code16(), m) + Zeros(16), Reg16(init)), Gen16())
    ensures BytesWithin(m, n, at, 2) ==> (Crc(Code16(), init, m) == Crc(Code16(), init, n) <==> m == n)
  {
    hide Reg16, Gen16, Crc, MsgBits, Remainder, Faithful, BytesWithin;
    Faithful16();
    CrcIsDivision(Code16(), init, m);
    if BytesWithin(m, n, at, 2) {
      CrcTellsApart(Code16(), init, m, n, at, 2);
    }
  }

  /** crc16. */
  method ComputeCrc16(buf: array<Byte>, len: nat, init: bv16) returns (crc: bv16)
    requires len <= buf.Length
    ensures crc == Crc(Code16(), init, buf[..len])
  {
    hide Step16;
    crc := init;
    var i := 0;
    while i < len
      invariant i <= len && Crc(Code16(), crc, buf[i..len]) == Crc(Code16(), init, buf[..len])
    {
      assert buf[i..len][1..] == buf[i + 1..len];
      crc := Step16(crc, buf[i]);
      i := i + 1;
    }
  }

  // ---------------------------------------------------------------- width 32

  /** One bit of polynomial division. */
  function Bit32(c: bv32): bv32 { if c & 0x00000001 != 0 then (c >> 1) ^ 0xedb88320 else c >> 1 }

  /** The coefficients a register holds, highest first, from the one under mask `m` on. */
  function Lsb32(c: bv32, m: bv32, n: nat): (r: Bits)
    ensures |r| == n
    decreases n
  {
    if n == 0 then [] else [c & m != 0] + Lsb32(c, m << 1, n - 1)
  }

  /** `m` is a single bit, `n` places away from the lowest coefficient. */
  predicate Place32(m: bv32, n: nat)
    decreases n
  {
    m != 0 && m & (m - 1) == 0 && (if n == 0 then m == 0x80000000 else m != 0x80000000 && Place32(m << 1, n - 1))
  }

  function Reg32(c: bv32): (r: Bits)
    ensures |r| == 32
  {
    Lsb32(c, 0x00000001, 32)
  }

  function Gen32(): (g: Bits) ensures |g| == 32 { Reg32(0xedb88320) }

  lemma XorBit32(c: bv32, d: bv32, m: bv32)
    requires m != 0 && m & (m - 1) == 0
    ensures ((c ^ d) & m != 0) == ((c & m != 0) != (d & m != 0))
  {
  }

  lemma XorJoin32(c: bv32, d: bv32, e: bv32, m: bv32, n: nat)
    requires n > 0 && (e & m != 0) == ((c & m != 0) != (d & m != 0))
    requires n > 1 ==> Lsb32(e, m << 1, n - 1) == Xor(Lsb32(c, m << 1, n - 1), Lsb32(d, m << 1, n - 1))
    ensures Lsb32(e, m, n) == Xor(Lsb32(c, m, n), Lsb32(d, m, n))
  {
    XorFirst(c & m != 0, d & m != 0, Lsb32(c, m << 1, n - 1), Lsb32(d, m << 1, n - 1));
  }

  lemma {:induction false} XorBits32(c: bv32, d: bv32, m: bv32, n: nat)
    requires n > 0 && Place32(m, n - 1)
    ensures Lsb32(c ^ d, m, n) == Xor(Lsb32(c, m, n), Lsb32(d, m, n))
    decreases n
  {
    XorBit32(c, d, m);
    if n > 1 {
      XorBits32(c, d, m << 1, n - 1);
    }
    XorJoin32(c, d, c ^ d, m, n);
  }

  lemma {:induction false} ShiftedBits32(c: bv32, m: bv32, n: nat)
    requires Place32(m, n)
    ensures Lsb32(c >> 1, m, n + 1) == Lsb32(c, m << 1, n) + [false]
    decreases n
  {
    if n > 0 {
      assert ((c >> 1) & m != 0) == (c & (m << 1) != 0) by { ShiftedBit32(c, m); }
      ShiftedBits32(c, m << 1, n - 1);
    }
  }

  lemma ShiftedBit32(c: bv32, m: bv32)
    requires m != 0 && m & (m - 1) == 0 && m != 0x80000000
    ensures ((c >> 1) & m != 0) == (c & (m << 1) != 0)
  {
  }

  lemma FirstPlace32()
    ensures Place32(0x00000001, 31)
  {
    assert Place32(0x80000000, 0) && Place32(0x40000000, 1) && Place32(0x20000000, 2) && Place32(0x10000000, 3);
    assert Place32(0x8000000, 4) && Place32(0x4000000, 5) && Place32(0x2000000, 6) && Place32(0x1000000, 7);
    assert Place32(0x800000, 8) && Place32(0x400000, 9) && Place32(0x200000, 10) && Place32(0x100000, 11);
    assert Place32(0x80000, 12) && Place32(0x40000, 13) && Place32(0x20000, 14) && Place32(0x10000, 15);
    assert Place32(0x8000, 16) && Place32(0x4000, 17) && Place32(0x2000, 18) && Place32(0x1000, 19);
    assert Place32(0x800, 20) && Place32(0x400, 21) && Place32(0x200, 22) && Place32(0x100, 23);
    assert Place32(0x80, 24) && Place32(0x40, 25) && Place32(0x20, 26) && Place32(0x10, 27);
    assert Place32(0x8, 28) && Place32(0x4, 29) && Place32(0x2, 30);
  }

  lemma {:induction false} LastBit32(c: bv32, m: bv32, n: nat)
    requires Place32(m, n)
    ensures Lsb32(c, m, n + 1)[n] == (c & 0x80000000 != 0)
    decreases n
  {
    if n > 0 {
      LastBit32(c, m << 1, n - 1);
    }
  }

  /** The generator ends in a set coefficient. */
  lemma GenEnds32()
    ensures |Gen32()| == 32 && Gen32()[31]
  {
    FirstPlace32();
    LastBit32(0xedb88320, 0x00000001, 31);
  }

  lemma BitIsShift32(c: bv32)
    ensures Reg32(Bit32(c)) == Shift(Reg32(c), Gen32())
  {
    FirstPlace32();
    ShiftedBits32(c, 0x00000001, 31);
    XorBits32(c >> 1, 0xedb88320, 0x00000001, 32);
    assert Reg32(c) == [c & 0x00000001 != 0] + Lsb32(c, 0x00000001 << 1, 31);
    assert Reg32(c)[1..] == Lsb32(c, 0x00000001 << 1, 31);
  }

  function Bits32(c: bv32, n: nat): bv32
    decreases n
  {
    if n == 0 then c else Bits32(Bit32(c), n - 1)
  }

  lemma {:induction false} BitsAreShifts32(c: bv32, n: nat)
    ensures Reg32(Bits32(c, n)) == Shifts(Reg32(c), n, Gen32())
    decreases n
  {
    hide Bit32, Reg32, Gen32, Shift;
    if n > 0 {
      BitIsShift32(c);
      BitsAreShifts32(Bit32(c), n - 1);
    }
  }

  /** The bits from mask `m` on, `n + 1` of them. */
  function Cover32(m: bv32, n: nat): bv32
    decreases n
  {
    if n == 0 then m else m | Cover32(m << 1, n - 1)
  }

  lemma {:induction false} NoBits32(c: bv32, m: bv32, n: nat)
    requires Lsb32(c, m, n + 1) == Zeros(n + 1)
    ensures c & Cover32(m, n) == 0
    decreases n
  {
    assert Zeros(n + 1)[1..] == Zeros(n);
    assert Lsb32(c, m, n + 1)[1..] == Lsb32(c, m << 1, n);
    assert !Lsb32(c, m, n + 1)[0];
    if n > 0 {
      NoBits32(c, m << 1, n - 1);
    }
  }

  function Xor32(c: bv32, d: bv32): bv32 { c ^ d }

  lemma RegXor32(c: bv32, d: bv32)
    ensures Reg32(Xor32(c, d)) == Xor(Reg32(c), Reg32(d))
  {
    FirstPlace32();
    XorBits32(c, d, 0x00000001, 32);
  }

  lemma CoverAll32()
    ensures Cover32(0x00000001, 31) == 0xffffffff
  {
    assert Cover32(0x80000000, 0) == 0x80000000 && Cover32(0x40000000, 1) == 0xc0000000;
    assert Cover32(0x20000000, 2) == 0xe0000000 && Cover32(0x10000000, 3) == 0xf0000000;
    assert Cover32(0x8000000, 4) == 0xf8000000 && Cover32(0x4000000, 5) == 0xfc000000;
    assert Cover32(0x2000000, 6) == 0xfe000000 && Cover32(0x1000000, 7) == 0xff000000;
    assert Cover32(0x800000, 8) == 0xff800000 && Cover32(0x400000, 9) == 0xffc00000;
    assert Cover32(0x200000, 10) == 0xffe00000 && Cover32(0x100000, 11) == 0xfff00000;
    assert Cover32(0x80000, 12) == 0xfff80000 && Cover32(0x40000, 13) == 0xfffc0000;
    assert Cover32(0x20000, 14) == 0xfffe0000 && Cover32(0x10000, 15) == 0xffff0000;
    assert Cover32(0x8000, 16) == 0xffff8000 && Cover32(0x4000, 17) == 0xffffc000;
    assert Cover32(0x2000, 18) == 0xffffe000 && Cover32(0x1000, 19) == 0xfffff000;
    assert Cover32(0x800, 20) == 0xfffff800 && Cover32(0x400, 21) == 0xfffffc00;
    assert Cover32(0x200, 22) == 0xfffffe00 && Cover32(0x100, 23) == 0xffffff00;
    assert Cover32(0x80, 24) == 0xffffff80 && Cover32(0x40, 25) == 0xffffffc0;
    assert Cover32(0x20, 26) == 0xffffffe0 && Cover32(0x10, 27) == 0xfffffff0;
    assert Cover32(0x8, 28) == 0xfffffff8 && Cover32(0x4, 29) == 0xfffffffc && Cover32(0x2, 30) == 0xfffffffe;
  }

  lemma RegInjective32(c: bv32, d: bv32)
    requires Reg32(c) == Reg32(d)
    ensures c == d
  {
    hide Lsb32, Cover32, Xor32;
    RegXor32(c, d);
    assert Xor(Reg32(c), Reg32(d)) == Zeros(32);
    NoBits32(Xor32(c, d), 0x00000001, 31);
    CoverAll32();
    XorZero32(c, d);
  }

  lemma XorZero32(c: bv32, d: bv32)
    ensures Xor32(c, d) & 0xffffffff == 0 ==> c == d
  {
  }

  lemma FourBits32(c: bv32)
    ensures Bits32(c, 4) == Bit32(Bit32(Bit32(Bit32(c))))
  {
    hide Bit32;
    assert Bits32(Bit32(c), 3) == Bits32(Bit32(Bit32(c)), 2);
    assert Bits32(Bit32(Bit32(c)), 2) == Bits32(Bit32(Bit32(Bit32(c))), 1);
    assert Bits32(Bit32(Bit32(Bit32(c))), 1) == Bits32(Bit32(Bit32(Bit32(Bit32(c)))), 0);
  }

  lemma FourHigh32(c: bv32)
    ensures Bit32(Bit32(Bit32(Bit32(c & 0xfffffff0)))) == c >> 4
  {
  }

  lemma FourLow32(c: bv32)
    ensures Bit32(Bit32(Bit32(Bit32(c & 0xf)))) == Table32(c & 0xf)
  {
  }

  lemma BitsLinear32(c: bv32, d: bv32, n: nat)
    ensures Bits32(Xor32(c, d), n) == Xor32(Bits32(c, n), Bits32(d, n))
  {
    hide Bits32, Reg32, Shifts, Xor32;
    BitsAreShifts32(c, n);
    BitsAreShifts32(d, n);
    BitsAreShifts32(Xor32(c, d), n);
    RegXor32(c, d);
    RegXor32(Bits32(c, n), Bits32(d, n));
    ShiftsLinear(Reg32(c), Reg32(d), n, Gen32());
    RegInjective32(Bits32(Xor32(c, d), n), Xor32(Bits32(c, n), Bits32(d, n)));
  }

  function High32(c: bv32): bv32 { c & 0xfffffff0 }
  function Low32(c: bv32): bv32 { c & 0xf }
  function Right32(c: bv32): bv32 { c >> 4 }

  lemma SplitNibble32(c: bv32)
    ensures Nibble32(c) == Xor32(Right32(c), Table32(Low32(c)))
  {
    hide Table32, Xor32, Right32, Low32;
    PartsOf32(c);
    XorMeans32(c >> 4, Table32(c & 0xf));
  }

  lemma PartsOf32(c: bv32)
    ensures Right32(c) == c >> 4 && Low32(c) == c & 0xf
  {
  }

  lemma XorMeans32(c: bv32, d: bv32)
    ensures Xor32(c, d) == c ^ d
  {
  }

  lemma HalvesMeet32(c: bv32)
    ensures Xor32(High32(c), Low32(c)) == c
  {
  }

  lemma HighPart32(c: bv32)
    ensures Bits32(High32(c), 4) == Right32(c)
  {
    hide Bits32, Bit32;
    FourBits32(c & 0xfffffff0);
    FourHigh32(c);
  }

  lemma LowPart32(c: bv32)
    ensures Bits32(Low32(c), 4) == Table32(Low32(c))
  {
    hide Bits32, Bit32, Table32;
    FourBits32(c & 0xf);
    FourLow32(c);
  }

  /** The table folds four bits of division into one look-up. */
  lemma NibbleIsFourBits32(c: bv32)
    ensures Nibble32(c) == Bits32(c, 4)
  {
    hide Bits32, Table32, Nibble32, High32, Low32, Right32, Xor32;
    SplitNibble32(c);
    HalvesMeet32(c);
    HighPart32(c);
    LowPart32(c);
    BitsLinear32(High32(c), Low32(c), 4);
  }

  lemma {:induction false} BitsAdd32(c: bv32, m: nat, n: nat)
    ensures Bits32(c, m + n) == Bits32(Bits32(c, m), n)
    decreases m
  {
    if m > 0 {
      BitsAdd32(Bit32(c), m - 1, n);
    }
  }

  lemma StepIsEightBits32(c: bv32, b: Byte)
    ensures Step32(c, b) == Bits32(c ^ Widen32(b), 8)
  {
    hide Bits32, Nibble32;
    var x := c ^ Widen32(b);
    NibbleIsFourBits32(x);
    NibbleIsFourBits32(Nibble32(x));
    BitsAdd32(x, 4, 4);
  }

  lemma {:induction false} NoHighBits32(x: bv32, m: bv32, n: nat)
    requires x <= 0xff && m & 0xff == 0
    ensures Lsb32(x, m, n) == Zeros(n)
    decreases n
  {
    if n > 0 {
      NoHighBits32(x, m << 1, n - 1);
    }
  }

  lemma WidenBit32(b: Byte, m: bv8)
    ensures (Widen32(b) & Widen32(m) != 0) == (b & m != 0)
    ensures m < 0x80 ==> Widen32(m) << 1 == Widen32(m << 1)
    ensures m == 0x80 ==> Widen32(m) << 1 == 0x100
    ensures m == 1 ==> Widen32(m) == 1
    ensures Widen32(b) <= 0xff
  {
  }

  lemma {:induction false} LowByte32(b: Byte, m: bv8, n: nat)
    requires LowPlace8(m, n)
    ensures Lsb32(Widen32(b), Widen32(m), n + 25) == Lsb8(b, m, n + 1) + Zeros(24)
    decreases n
  {
    WidenBit32(b, m);
    hide Widen32;
    if n == 0 {
      NoHighBits32(Widen32(b), 0x100, 24);
      assert Lsb8(b, m << 1, 0) == [];
    } else {
      SingleBitLow8(m);
      LowByte32(b, m << 1, n - 1);
    }
  }

  lemma SingleBitLow8(m: bv8)
    requires m != 0 && m & (m - 1) == 0 && m != 0x80
    ensures m < 0x80
  {
  }

  lemma ByteInRegister32(b: Byte)
    ensures Reg32(Widen32(b)) == ByteLsb(b) + Zeros(24)
  {
    hide Lsb32, Lsb8, LowPlace8, Widen32;
    FirstLowPlace8();
    LowByte32(b, 0x01, 7);
    WidenBit32(b, 0x01);
  }

  lemma StepFeedsByte32(c: bv32, b: Byte)
    ensures Reg32(Step32(c, b)) == FeedAll(Reg32(c), ByteLsb(b), Gen32())
  {
    hide FeedAll, Shifts, Bits32, Step32, Reg32, ByteLsb, Widen32;
    var x := Widen32(b);
    StepIsEightBits32(c, b);
    BitsAreShifts32(c ^ x, 8);
    RegXor32(c, x);
    ByteInRegister32(b);
    RegLength32(c);
    Preload(Reg32(c), ByteLsb(b), Gen32());
  }

  lemma RegLength32(c: bv32)
    ensures |Reg32(c)| == |Gen32()| == 32
  {
  }

  /** crc32 as a checksum loop. */
  function Code32(): Code<bv32>
  {
    Code(Gen32(), (c: bv32) => Reg32(c),
         (b: Byte) => ByteLsb(b),
         (c: bv32, b: Byte) => Step32(c, b), (c: bv32, d: bv32) => Xor32(c, d))
  }

  /** Main result: the nibble-table step of crc32 is eight steps of bitwise polynomial division. */
  lemma Faithful32()
    ensures Faithful(Code32())
  {
    hide Reg32, ByteLsb, Step32, FeedAll, Gen32;
    GenEnds32();
    forall c: bv32
      ensures |Reg32(c)| == |Gen32()|
    {
      RegLength32(c);
    }
    forall c: bv32, d: bv32
      ensures Reg32(Xor32(c, d)) == Xor(Reg32(c), Reg32(d))
    {
      RegXor32(c, d);
    }
    forall c: bv32, d: bv32
      ensures Reg32(c) == Reg32(d) ==> c == d
    {
      if Reg32(c) == Reg32(d) {
        RegInjective32(c, d);
      }
    }
    forall c: bv32, b: Byte
      ensures Reg32(Step32(c, b)) == FeedAll(Reg32(c), ByteLsb(b), Gen32())
    {
      StepFeedsByte32(c, b);
    }
    forall a: Byte, b: Byte
      ensures ByteLsb(a ^ b) == Xor(ByteLsb(a), ByteLsb(b))
      ensures ByteLsb(a) == ByteLsb(b) ==> a == b
    {
      ByteLsbFacts(a, b);
    }
  }

  /** What crc32 computes, by polynomial division, and what it tells apart: messages that differ only
      within four consecutive bytes, wherever those lie. */
  lemma Crc32Means(init: bv32, m: seq<Byte>, n: seq<Byte>, at: nat)
    ensures Reg32(Crc(Code32(), init, m)) ==
            Remainder(XorPrefix(MsgBits(Code32(), m) + Zeros(32), Reg32(init)), Gen32())
    ensures BytesWithin(m, n, at, 4) ==> (Crc(Code32(), init, m) == Crc(Code32(), init, n) <==> m == n)
  {
    hide Reg32, Gen32, Crc, MsgBits, Remainder, Faithful, BytesWithin;
    Faithful32();
    CrcIsDivision(Code32(), init, m);
    if BytesWithin(m, n, at, 4) {
      CrcTellsApart(Code32(), init, m, n, at, 4);
    }
  }

  /** crc32. */
  method ComputeCrc32(buf: array<Byte>, len: nat, init: bv32) returns (crc: bv32)
    requires len <= buf.Length
    ensures crc == Crc(Code32(), init, buf[..len])
  {
    hide Step32;
    crc := init;
    var i := 0;
    while i < len
      invariant i <= len && Crc(Code32(), crc, buf[i..len]) == Crc(Code32(), init, buf[..len])
    {
      assert buf[i..len][1..] == buf[i + 1..len];
      crc := Step32(crc, buf[i]);
      i := i + 1;
    }
  }

  // ---------------------------------------------------------------- the generators

  /** The checksum of a message with a single one, at its end, is the generator. */
  lemma GeneratorsShow()
    ensures Crc(Code8(), 0, [0x01]) == 0x07
    ensures Crc(Code16(), 0, [0x01]) == 0x1021
    ensures Crc(Code32(), 0, [0x80]) == 0xedb88320
  {
    hide Step8, Step16, Step32, Reg8, Reg16, Reg32, Gen8, Gen16, Gen32;
    assert [0x01 as Byte][1..] == [] && [0x80 as Byte][1..] == [];
    OneStep8();
    OneStep16();
    OneStep32();
  }

  lemma OneStep8()
    ensures Step8(0, 0x01) == 0x07
  {
  }

  lemma OneStep16()
    ensures Step16(0, 0x01) == 0x1021
  {
  }

  lemma OneStep32()
    ensures Step32(0, 0x80) == 0xedb88320
  {
  }
}
