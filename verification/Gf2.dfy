/** Registers of 32 coefficients over GF(2), and schoolbook division by the generator polynomial
    x^32 + x^26 + x^23 + ... + 1 of ISO/IEC 13818-1, Annex A. */
module Gf2 {

  // The register operations have names so that the proofs below can be carried out in equalities
  // between registers rather than bit by bit.

  function Xor(a: bv32, b: bv32): bv32 { a ^ b }

  function Shl1(a: bv32): bv32 { a << 1 }

  function Shl8(a: bv32): bv32 { a << 8 }

  /** The byte at the top of the register, a byte put there, and what lies below. */
  function Top(r: bv32): bv8 { (r >> 24) as bv8 }

  function AtTop(b: bv8): bv32 { (b as bv32) << 24 }

  function Low(r: bv32): bv32 { r & 0xFF_FFFF }

  // ---- the reference: long division over GF(2)

  predicate Msb(r: bv32) { r & 0x8000_0000 != 0 }

  /** Multiplies the remainder by x: when a 1 leaves at the top, the divisor 0x1_04C1_1DB7 is
      subtracted. */
  function Double(r: bv32): bv32 {
    (r << 1) ^ (if Msb(r) then 0x04C1_1DB7 else 0)
  }

  /** Brings down the next bit of the dividend. */
  function BringDown(r: bv32, bit: bv32): bv32 {
    Xor(Double(r), bit & 1)
  }

  function BringDownByte(r: bv32, b: bv8): bv32 {
    var w := b as bv32;
    var r4 := BringDown(BringDown(BringDown(BringDown(r, w >> 7), w >> 6), w >> 5), w >> 4);
    BringDown(BringDown(BringDown(BringDown(r4, w >> 3), w >> 2), w >> 1), w)
  }

  function LongDivision(r: bv32, dividend: seq<bv8>): bv32
    decreases |dividend|
  {
    if dividend == [] then r else LongDivision(BringDownByte(r, dividend[0]), dividend[1..])
  }

  function Pack(a: bv8, b: bv8, c: bv8, d: bv8): bv32 {
    ((a as bv32) << 24) | ((b as bv32) << 16) | ((c as bv32) << 8) | (d as bv32)
  }

  function Word(s: seq<bv8>): bv32
    requires |s| >= 4
  {
    Pack(s[0], s[1], s[2], s[3])
  }

  const ZEROS: seq<bv8> := [0, 0, 0, 0]

  /** The remainder of the message times x^32, its first 32 bits complemented beforehand. */
  function Remainder(msg: seq<bv8>): bv32 {
    var dividend := msg + ZEROS;
    LongDivision(Xor(0xFFFF_FFFF, Word(dividend)), dividend[4..])
  }

  // ---- arithmetic of the remainder register

  lemma XorLaws(a: bv32, b: bv32, c: bv32)
    ensures Xor(a, b) == Xor(b, a)
    ensures Xor(Xor(a, b), c) == Xor(a, Xor(b, c))
  {
  }

  lemma XorZero(a: bv32)
    ensures Xor(a, 0) == a && Xor(0, a) == a && Xor(a, a) == 0
  {
  }

  lemma XorSwap(a: bv32, b: bv32, c: bv32, d: bv32)
    ensures Xor(Xor(a, b), Xor(c, d)) == Xor(Xor(a, c), Xor(b, d))
  {
    XorLaws(a, b, Xor(c, d));
    XorLaws(b, c, d);
    XorLaws(c, b, d);
    XorLaws(a, c, Xor(b, d));
  }

  lemma XorCancel(a: bv32, b: bv32, c: bv32)
    requires Xor(a, c) == Xor(b, c)
    ensures a == b
  {
    XorLaws(a, c, c);
    XorLaws(b, c, c);
    XorZero(a);
    XorZero(b);
    XorZero(c);
  }

  function Overflow(r: bv32): bv32 { if Msb(r) then 0x04C1_1DB7 else 0 }

  lemma DoubleParts(r: bv32)
    ensures Double(r) == Xor(Shl1(r), Overflow(r))
  {
    if Msb(r) {} else {}
  }

  lemma MsbLinear(x: bv32, y: bv32)
    ensures Msb(Xor(x, y)) == (Msb(x) != Msb(y))
  {
  }

  lemma OverflowLinear(x: bv32, y: bv32)
    ensures Overflow(Xor(x, y)) == Xor(Overflow(x), Overflow(y))
  {
    MsbLinear(x, y);
    if Msb(x) && Msb(y) {
      XorZero(0x04C1_1DB7);
      assert !Msb(Xor(x, y));
    } else if Msb(x) || Msb(y) {
      XorZero(0x04C1_1DB7);
      assert Msb(Xor(x, y));
    } else {
      XorZero(0);
    }
  }

  lemma ShlLinear(x: bv32, y: bv32)
    ensures Shl1(Xor(x, y)) == Xor(Shl1(x), Shl1(y))
  {
  }

  lemma DoubleLinear(x: bv32, y: bv32)
    ensures Double(Xor(x, y)) == Xor(Double(x), Double(y))
  {
    DoubleParts(x);
    DoubleParts(y);
    DoubleParts(Xor(x, y));
    OverflowLinear(x, y);
    ShlLinear(x, y);
    XorSwap(Shl1(x), Shl1(y), Overflow(x), Overflow(y));
  }

  lemma DoubleZero(x: bv32)
    requires Double(x) == 0
    ensures x == 0
  {
  }

  lemma DoubleInjective(x: bv32, y: bv32)
    requires Double(x) == Double(y)
    ensures x == y
  {
    DoubleLinear(x, y);
    XorZero(Double(x));
    DoubleZero(Xor(x, y));
    XorZero(y);
    XorCancel(x, y, y);
  }

  function Shift(r: bv32, n: nat): bv32 {
    if n == 0 then r else Double(Shift(r, n - 1))
  }

  lemma {:induction false} ShiftLinear(x: bv32, y: bv32, n: nat)
    ensures Shift(Xor(x, y), n) == Xor(Shift(x, n), Shift(y, n))
  {
    if n == 0 {
    } else {
      ShiftLinear(x, y, n - 1);
      DoubleLinear(Shift(x, n - 1), Shift(y, n - 1));
    }
  }

  lemma {:induction false} ShiftInjective(x: bv32, y: bv32, n: nat)
    requires Shift(x, n) == Shift(y, n)
    ensures x == y
  {
    if n == 0 {
    } else {
      DoubleInjective(Shift(x, n - 1), Shift(y, n - 1));
      ShiftInjective(x, y, n - 1);
    }
  }

  lemma {:induction false} ShiftAdd(x: bv32, m: nat, n: nat)
    ensures Shift(Shift(x, m), n) == Shift(x, m + n)
  {
    if n == 0 {
    } else {
      ShiftAdd(x, m, n - 1);
    }
  }

  function EightDoubles(r: bv32): bv32 {
    Double(Double(Double(Double(Double(Double(Double(Double(r))))))))
  }

  lemma {:induction false} ShiftEight(r: bv32)
    ensures Shift(r, 8) == EightDoubles(r)
  {
    assert Shift(r, 1) == Double(r);
    assert Shift(r, 2) == Double(Shift(r, 1));
    assert Shift(r, 3) == Double(Shift(r, 2));
    assert Shift(r, 4) == Double(Shift(r, 3));
    assert Shift(r, 5) == Double(Shift(r, 4));
    assert Shift(r, 6) == Double(Shift(r, 5));
    assert Shift(r, 7) == Double(Shift(r, 6));
  }

  lemma EightDoublesSmall(r: bv32)
    requires r < 0x100_0000
    ensures EightDoubles(r) == Shl8(r)
  {
  }

  /** Below 2^24 nothing leaves the register, so eight doublings are a plain shift. */
  lemma {:induction false} ShiftSmall(r: bv32)
    requires r < 0x100_0000
    ensures Shift(r, 8) == Shl8(r)
  {
    EightDoublesSmall(r);
    ShiftEight(r);
  }

  lemma SplitTop(r: bv32, b: bv8)
    ensures Xor(r, AtTop(b)) == Xor(AtTop(Top(r) ^ b), Low(r))
    ensures Shl8(Low(r)) == Shl8(r)
    ensures Low(r) < 0x100_0000
  {
  }

  // ---- bytes in the register

  lemma PackParts(a: bv8, b: bv8, c: bv8, d: bv8, e: bv8)
    ensures Pack(a, b, c, d) == Xor(AtTop(a), Pack(0, b, c, d))
    ensures Pack(0, b, c, d) < 0x100_0000
    ensures Pack(b, c, d, e) == Xor(Shl8(Pack(0, b, c, d)), e as bv32)
  {
  }

  /** The four CRC bytes in the order in which the muxer writes them behind a section. */
  function CrcBytes(r: bv32): (s: seq<bv8>)
    ensures |s| == 4
  {
    [Top(r), ((r >> 16) & 0xff) as bv8, ((r >> 8) & 0xff) as bv8, (r & 0xff) as bv8]
  }

  lemma PackUnpack(r: bv32)
    ensures Word(CrcBytes(r)) == r
  {
  }

  lemma UnpackPack(s: seq<bv8>)
    requires |s| == 4
    ensures CrcBytes(Word(s)) == s
  {
  }

  lemma {:induction false} ShiftZero(n: nat)
    ensures Shift(0, n) == 0
  {
    if n == 0 {
    } else {
      ShiftZero(n - 1);
    }
  }

  lemma BringDownSplit(x: bv32, y: bv32, bit: bv32)
    ensures BringDown(Xor(x, y), bit) == Xor(Double(x), BringDown(y, bit))
  {
    DoubleLinear(x, y);
    XorLaws(Double(x), Double(y), bit & 1);
  }

  lemma BringDownIntoZero(b: bv8)
    ensures BringDownByte(0, b) == b as bv32
  {
  }

  lemma {:induction false} BringDownByteIsShift(r: bv32, b: bv8)
    ensures BringDownByte(r, b) == Xor(Shift(r, 8), b as bv32)
  {
    var w := b as bv32;
    var r1 := Double(r);
    var r2 := Double(r1);
    var r3 := Double(r2);
    var r4 := Double(r3);
    var r5 := Double(r4);
    var r6 := Double(r5);
    var r7 := Double(r6);
    var z1 := BringDown(0, w >> 7);
    var z2 := BringDown(z1, w >> 6);
    var z3 := BringDown(z2, w >> 5);
    var z4 := BringDown(z3, w >> 4);
    var z5 := BringDown(z4, w >> 3);
    var z6 := BringDown(z5, w >> 2);
    var z7 := BringDown(z6, w >> 1);
    XorZero(r);
    BringDownSplit(r, 0, w >> 7);
    BringDownSplit(r1, z1, w >> 6);
    BringDownSplit(r2, z2, w >> 5);
    BringDownSplit(r3, z3, w >> 4);
    BringDownSplit(r4, z4, w >> 3);
    BringDownSplit(r5, z5, w >> 2);
    BringDownSplit(r6, z6, w >> 1);
    BringDownSplit(r7, z7, w);
    BringDownIntoZero(b);
    ShiftEight(r);
  }
}
