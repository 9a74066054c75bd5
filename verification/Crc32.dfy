/** The CRC of MPEG-2 PSI sections (container/ts/crc32.go; ISO/IEC 13818-1, Annex A).

    The program walks a 256-entry table.  The reference it is proved against is schoolbook division
    of the message polynomial by x^32 + ... + 1, one bit at a time. */
module Crc32 {
  import opened Bits
  import opened Gf2

  /** The 256 entries of the table, sixteen to a row. */
  const CRC_TABLE: seq<seq<bv32>> := [
    [0x00000000, 0x04c11db7, 0x09823b6e, 0x0d4326d9, 0x130476dc, 0x17c56b6b, 0x1a864db2, 0x1e475005,
     0x2608edb8, 0x22c9f00f, 0x2f8ad6d6, 0x2b4bcb61, 0x350c9b64, 0x31cd86d3, 0x3c8ea00a, 0x384fbdbd],
    [0x4c11db70, 0x48d0c6c7, 0x4593e01e, 0x4152fda9, 0x5f15adac, 0x5bd4b01b, 0x569796c2, 0x52568b75,
     0x6a1936c8, 0x6ed82b7f, 0x639b0da6, 0x675a1011, 0x791d4014, 0x7ddc5da3, 0x709f7b7a, 0x745e66cd],
    [0x9823b6e0, 0x9ce2ab57, 0x91a18d8e, 0x95609039, 0x8b27c03c, 0x8fe6dd8b, 0x82a5fb52, 0x8664e6e5,
     0xbe2b5b58, 0xbaea46ef, 0xb7a96036, 0xb3687d81, 0xad2f2d84, 0xa9ee3033, 0xa4ad16ea, 0xa06c0b5d],
    [0xd4326d90, 0xd0f37027, 0xddb056fe, 0xd9714b49, 0xc7361b4c, 0xc3f706fb, 0xceb42022, 0xca753d95,
     0xf23a8028, 0xf6fb9d9f, 0xfbb8bb46, 0xff79a6f1, 0xe13ef6f4, 0xe5ffeb43, 0xe8bccd9a, 0xec7dd02d],
    [0x34867077, 0x30476dc0, 0x3d044b19, 0x39c556ae, 0x278206ab, 0x23431b1c, 0x2e003dc5, 0x2ac12072,
     0x128e9dcf, 0x164f8078, 0x1b0ca6a1, 0x1fcdbb16, 0x018aeb13, 0x054bf6a4, 0x0808d07d, 0x0cc9cdca],
    [0x7897ab07, 0x7c56b6b0, 0x71159069, 0x75d48dde, 0x6b93dddb, 0x6f52c06c, 0x6211e6b5, 0x66d0fb02,
     0x5e9f46bf, 0x5a5e5b08, 0x571d7dd1, 0x53dc6066, 0x4d9b3063, 0x495a2dd4, 0x44190b0d, 0x40d816ba],
    [0xaca5c697, 0xa864db20, 0xa527fdf9, 0xa1e6e04e, 0xbfa1b04b, 0xbb60adfc, 0xb6238b25, 0xb2e29692,
     0x8aad2b2f, 0x8e6c3698, 0x832f1041, 0x87ee0df6, 0x99a95df3, 0x9d684044, 0x902b669d, 0x94ea7b2a],
    [0xe0b41de7, 0xe4750050, 0xe9362689, 0xedf73b3e, 0xf3b06b3b, 0xf771768c, 0xfa325055, 0xfef34de2,
     0xc6bcf05f, 0xc27dede8, 0xcf3ecb31, 0xcbffd686, 0xd5b88683, 0xd1799b34, 0xdc3abded, 0xd8fba05a],
    [0x690ce0ee, 0x6dcdfd59, 0x608edb80, 0x644fc637, 0x7a089632, 0x7ec98b85, 0x738aad5c, 0x774bb0eb,
     0x4f040d56, 0x4bc510e1, 0x46863638, 0x42472b8f, 0x5c007b8a, 0x58c1663d, 0x558240e4, 0x51435d53],
    [0x251d3b9e, 0x21dc2629, 0x2c9f00f0, 0x285e1d47, 0x36194d42, 0x32d850f5, 0x3f9b762c, 0x3b5a6b9b,
     0x0315d626, 0x07d4cb91, 0x0a97ed48, 0x0e56f0ff, 0x1011a0fa, 0x14d0bd4d, 0x19939b94, 0x1d528623],
    [0xf12f560e, 0xf5ee4bb9, 0xf8ad6d60, 0xfc6c70d7, 0xe22b20d2, 0xe6ea3d65, 0xeba91bbc, 0xef68060b,
     0xd727bbb6, 0xd3e6a601, 0xdea580d8, 0xda649d6f, 0xc423cd6a, 0xc0e2d0dd, 0xcda1f604, 0xc960ebb3],
    [0xbd3e8d7e, 0xb9ff90c9, 0xb4bcb610, 0xb07daba7, 0xae3afba2, 0xaafbe615, 0xa7b8c0cc, 0xa379dd7b,
     0x9b3660c6, 0x9ff77d71, 0x92b45ba8, 0x9675461f, 0x8832161a, 0x8cf30bad, 0x81b02d74, 0x857130c3],
    [0x5d8a9099, 0x594b8d2e, 0x5408abf7, 0x50c9b640, 0x4e8ee645, 0x4a4ffbf2, 0x470cdd2b, 0x43cdc09c,
     0x7b827d21, 0x7f436096, 0x7200464f, 0x76c15bf8, 0x68860bfd, 0x6c47164a, 0x61043093, 0x65c52d24],
    [0x119b4be9, 0x155a565e, 0x18197087, 0x1cd86d30, 0x029f3d35, 0x065e2082, 0x0b1d065b, 0x0fdc1bec,
     0x3793a651, 0x3352bbe6, 0x3e119d3f, 0x3ad08088, 0x2497d08d, 0x2056cd3a, 0x2d15ebe3, 0x29d4f654],
    [0xc5a92679, 0xc1683bce, 0xcc2b1d17, 0xc8ea00a0, 0xd6ad50a5, 0xd26c4d12, 0xdf2f6bcb, 0xdbee767c,
     0xe3a1cbc1, 0xe760d676, 0xea23f0af, 0xeee2ed18, 0xf0a5bd1d, 0xf464a0aa, 0xf9278673, 0xfde69bc4],
    [0x89b8fd09, 0x8d79e0be, 0x803ac667, 0x84fbdbd0, 0x9abc8bd5, 0x9e7d9662, 0x933eb0bb, 0x97ffad0c,
     0xafb010b1, 0xab710d06, 0xa6322bdf, 0xa2f33668, 0xbcb4666d, 0xb8757bda, 0xb5365d03, 0xb1f740b4]
  ]

  // ---- the table-driven form

  function Entry(table: seq<seq<bv32>>, j: bv8): bv32
    requires IsTable(table)
  {
    table[j >> 4][j & 0xf]
  }

  predicate IsTable(table: seq<seq<bv32>>) {
    |table| == 16 && forall i :: 0 <= i < 16 ==> |table[i]| == 16
  }

  /** Each entry is its index, taken as a polynomial, times x^32 and reduced. */
  ghost predicate Correct(table: seq<seq<bv32>>) {
    IsTable(table) && forall j: bv8 :: Entry(table, j) == Shift(AtTop(j), 8)
  }

  /** What one byte of the message does to the register. */
  function Feed(r: bv32, b: bv8): bv32 {
    Shift(Xor(r, AtTop(b)), 8)
  }

  function Crc(r: bv32, msg: seq<bv8>): bv32
    decreases |msg|
  {
    if msg == [] then r else Crc(Feed(r, msg[0]), msg[1..])
  }

  function Bv(s: bytes): (r: seq<bv8>)
    ensures |r| == |s|
  {
    seq(|s|, i requires 0 <= i < |s| => s[i] as bv8)
  }

  method GenCrc32(src: bytes) returns (crc: bv32)
    ensures crc == Remainder(Bv(src))
    ensures crc == Crc(0xFFFF_FFFF, Bv(src))
  {
    TableIsCorrect();
    crc := Fold(CRC_TABLE, Bv(src));
    CrcIsDivision(Bv(src));
  }

  method Fold(crcTable: seq<seq<bv32>>, src: seq<bv8>) returns (crc: bv32)
    requires Correct(crcTable)
    ensures crc == Crc(0xFFFF_FFFF, src)
  {
    crc := 0xFFFF_FFFF;
    for i := 0 to |src|
      invariant Crc(crc, src[i..]) == Crc(0xFFFF_FFFF, src)
    {
      var j := Top(crc) ^ src[i];
      assert src[i..][1..] == src[i + 1..];
      TableStepIsFeed(crcTable, crc, src[i]);
      crc := Xor(Shl8(crc), Entry(crcTable, j));
    }
  }

  lemma TableQuarter0(j: bv8)
    requires IsTable(CRC_TABLE)
    requires 0x00 <= j <= 0x3f
    ensures Entry(CRC_TABLE, j) == EightDoubles(AtTop(j))
  {
  }

  lemma TableQuarter1(j: bv8)
    requires IsTable(CRC_TABLE)
    requires 0x40 <= j <= 0x7f
    ensures Entry(CRC_TABLE, j) == EightDoubles(AtTop(j))
  {
  }

  lemma TableQuarter2(j: bv8)
    requires IsTable(CRC_TABLE)
    requires 0x80 <= j <= 0xbf
    ensures Entry(CRC_TABLE, j) == EightDoubles(AtTop(j))
  {
  }

  lemma TableQuarter3(j: bv8)
    requires IsTable(CRC_TABLE)
    requires 0xc0 <= j <= 0xff
    ensures Entry(CRC_TABLE, j) == EightDoubles(AtTop(j))
  {
  }

  lemma TableIsCorrect()
    ensures Correct(CRC_TABLE)
  {
    assert IsTable(CRC_TABLE);
    forall j: bv8
      ensures Entry(CRC_TABLE, j) == Shift(AtTop(j), 8)
    {
      ShiftEight(AtTop(j));
      if j < 0x40 { TableQuarter0(j); } else if j < 0x80 { TableQuarter1(j); }
      else if j < 0xc0 { TableQuarter2(j); } else { TableQuarter3(j); }
    }
  }

  /** One table step is eight bits of division with the byte added at the top. */
  lemma TableStepIsFeed(table: seq<seq<bv32>>, r: bv32, b: bv8)
    requires Correct(table)
    ensures Xor(Shl8(r), Entry(table, Top(r) ^ b)) == Feed(r, b)
  {
    var j := Top(r) ^ b;
    SplitTop(r, b);
    ShiftLinear(AtTop(j), Low(r), 8);
    ShiftSmall(Low(r));
    assert Entry(table, j) == Shift(AtTop(j), 8);
    XorLaws(Shl8(r), Entry(table, j), 0);
  }

  /** Moving the four-byte window of the division along by one byte. */
  lemma WindowStep(r: bv32, a: bv8, b: bv8, c: bv8, d: bv8, e: bv8)
    ensures Xor(Feed(r, a), Pack(b, c, d, e)) == Xor(Shift(Xor(r, Pack(a, b, c, d)), 8), e as bv32)
  {
    var rest := Pack(0, b, c, d);
    PackParts(a, b, c, d, e);
    XorLaws(r, AtTop(a), rest);
    ShiftLinear(Xor(r, AtTop(a)), rest, 8);
    ShiftSmall(rest);
    XorLaws(Feed(r, a), Shl8(rest), e as bv32);
  }

  // ---- the results

  lemma {:induction false} CrcIsWindowDivision(r: bv32, msg: seq<bv8>)
    ensures Crc(r, msg) == LongDivision(Xor(r, Word(msg + ZEROS)), (msg + ZEROS)[4..])
    decreases |msg|
  {
    var m := msg + ZEROS;
    if msg == [] {
      assert m[4..] == [];
      assert Word(m) == 0;
      XorZero(r);
    } else {
      var next := msg[1..] + ZEROS;
      assert m[1..] == next && m[4..][1..] == next[4..];
      BringDownByteIsShift(Xor(r, Word(m)), m[4]);
      WindowStep(r, m[0], m[1], m[2], m[3], m[4]);
      CrcIsWindowDivision(Feed(r, msg[0]), msg[1..]);
    }
  }

  /** The table-driven loop computes the remainder of the long division. */
  lemma {:induction false} CrcIsDivision(msg: seq<bv8>)
    ensures Crc(0xFFFF_FFFF, msg) == Remainder(msg)
  {
    CrcIsWindowDivision(0xFFFF_FFFF, msg);
  }

  lemma {:induction false} CrcAppend(r: bv32, a: seq<bv8>, b: seq<bv8>)
    ensures Crc(r, a + b) == Crc(Crc(r, a), b)
    decreases |a|
  {
    if a == [] {
      assert a + b == b;
    } else {
      assert (a + b)[1..] == a[1..] + b;
      CrcAppend(Feed(r, a[0]), a[1..], b);
    }
  }

  lemma {:induction false} LongDivisionOfZeros(r: bv32, zeros: seq<bv8>)
    requires forall i :: 0 <= i < |zeros| ==> zeros[i] == 0
    ensures LongDivision(r, zeros) == Shift(r, 8 * |zeros|)
    decreases |zeros|
  {
    if zeros == [] {
    } else {
      BringDownByteIsShift(r, 0);
      XorZero(Shift(r, 8));
      LongDivisionOfZeros(Shift(r, 8), zeros[1..]);
      ShiftAdd(r, 8, 8 * (|zeros| - 1));
    }
  }

  /** Four bytes added to the register at once. */
  lemma {:induction false} FourBytes(r: bv32, a: seq<bv8>)
    requires |a| == 4
    ensures Crc(r, a) == Shift(Xor(r, Word(a)), 32)
  {
    CrcIsWindowDivision(r, a);
    assert (a + ZEROS)[4..] == ZEROS;
    LongDivisionOfZeros(Xor(r, Word(a)), ZEROS);
  }

  /** A receiver that runs the CRC over a section including its CRC field gets 0. */
  lemma {:induction false} Residue(msg: seq<bv8>)
    ensures Crc(0xFFFF_FFFF, msg + CrcBytes(Crc(0xFFFF_FFFF, msg))) == 0
  {
    var r := Crc(0xFFFF_FFFF, msg);
    CrcAppend(0xFFFF_FFFF, msg, CrcBytes(r));
    FourBytes(r, CrcBytes(r));
    PackUnpack(r);
    XorZero(r);
    ShiftZero(32);
  }

  lemma {:induction false} CrcInjective(r: bv32, r': bv32, s: seq<bv8>)
    requires Crc(r, s) == Crc(r', s)
    ensures r == r'
    decreases |s|
  {
    if s == [] {
    } else {
      CrcInjective(Feed(r, s[0]), Feed(r', s[0]), s[1..]);
      ShiftInjective(Xor(r, AtTop(s[0])), Xor(r', AtTop(s[0])), 8);
      XorCancel(r, r', AtTop(s[0]));
    }
  }

  lemma {:induction false} FourBytesInjective(r: bv32, a: seq<bv8>, b: seq<bv8>)
    requires |a| == |b| == 4
    requires Crc(r, a) == Crc(r, b)
    ensures a == b
  {
    FourBytes(r, a);
    FourBytes(r, b);
    ShiftInjective(Xor(r, Word(a)), Xor(r, Word(b)), 32);
    XorLaws(r, Word(a), 0);
    XorLaws(r, Word(b), 0);
    XorCancel(Word(a), Word(b), r);
    UnpackPack(a);
    UnpackPack(b);
  }

  lemma {:induction false} FewBytesInjective(r: bv32, a: seq<bv8>, b: seq<bv8>)
    requires |a| == |b| <= 4
    requires Crc(r, a) == Crc(r, b)
    ensures a == b
  {
    var pad := ZEROS[|a|..];
    CrcAppend(r, a, pad);
    CrcAppend(r, b, pad);
    FourBytesInjective(r, a + pad, b + pad);
    assert a == (a + pad)[..|a|] && b == (b + pad)[..|a|];
  }

  /** Every error confined to four consecutive bytes changes the CRC. */
  lemma {:induction false} BurstDetected(before: seq<bv8>, a: seq<bv8>, b: seq<bv8>, after: seq<bv8>)
    requires |a| == |b| <= 4
    requires a != b
    ensures Crc(0xFFFF_FFFF, before + a + after) != Crc(0xFFFF_FFFF, before + b + after)
  {
    var r := Crc(0xFFFF_FFFF, before);
    CrcAppend(0xFFFF_FFFF, before + a, after);
    CrcAppend(0xFFFF_FFFF, before + b, after);
    CrcAppend(0xFFFF_FFFF, before, a);
    CrcAppend(0xFFFF_FFFF, before, b);
    if Crc(Crc(r, a), after) == Crc(Crc(r, b), after) {
      CrcInjective(Crc(r, a), Crc(r, b), after);
      FewBytesInjective(r, a, b);
    }
  }

  // ---- the CRC field of a section

  /** The bytes byte(crc >> 24), byte(crc >> 16), byte(crc >> 8), byte(crc). */
  function CrcField(crc: bv32): (s: bytes)
    ensures |s| == 4
  {
    var b := CrcBytes(crc);
    [b[0] as int, b[1] as int, b[2] as int, b[3] as int]
  }

  lemma ByteOfBv(b: bv8)
    ensures (b as int) as bv8 == b
  {
  }

  lemma BvCrcField(crc: bv32)
    ensures Bv(CrcField(crc)) == CrcBytes(crc)
  {
    hide CrcBytes;
    var b := CrcBytes(crc);
    ByteOfBv(b[0]);
    ByteOfBv(b[1]);
    ByteOfBv(b[2]);
    ByteOfBv(b[3]);
    assert b == [b[0], b[1], b[2], b[3]];
  }

  lemma BvAppend(a: bytes, b: bytes)
    ensures Bv(a + b) == Bv(a) + Bv(b)
  {
  }
}
