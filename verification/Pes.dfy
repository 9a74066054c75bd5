/** PES packet headers (container/ts/muxer.go; ISO/IEC 13818-1, section 2.4.3.6). */
module Pes {
  import opened Bits
  import opened Av

  const VIDEO_SID: byte := 0xe0
  const AUDIO_SID: byte := 0xc0
  const TS_PACKET_LEN := 188


  // ---- time stamps

  /** A time stamp cut into 3, 15 and 15 bits, each followed by a marker bit. */
  function MarkedField(fb: nat, high: nat, middle: nat, low: nat): (s: bytes)
    ensures |s| == 5
  {
    [Byte(Or(Or(fb * 16, high * 2), 1))] + Be16(Or(middle * 2, 1)) + Be16(Or(low * 2, 1))
  }

  /** The stamp as the program brings it into range: 2^33 - 1 is subtracted, once. */
  function Reduced(ts: int): int {
    if ts > 0x1_FFFF_FFFF then ts - 0x1_FFFF_FFFF else ts
  }

  /** The five bytes of a time stamp with the four-bit prefix fb. */
  function TimeField(fb: nat, ts: int): (s: bytes)
    ensures |s| == 5
  {
    var t := Reduced(ts);
    MarkedField(fb, (t / 0x4000_0000) % 8, (t / 0x8000) % 0x8000, t % 0x8000)
  }

  /** What a receiver reads from a time stamp field. */
  function ReadTime(s: bytes): (t: nat)
    requires |s| == 5
    ensures t < TWO_33
  {
    (s[0] as int / 2) % 8 * 0x4000_0000 + De16(s[1..3]) / 2 * 0x8000 + De16(s[3..5]) / 2
  }

  /** The prefix and the three marker bits section 2.4.3.6 prescribes. */
  predicate TimeMarkers(s: bytes, prefix: nat)
    requires |s| == 5
  {
    s[0] as int / 16 == prefix && s[0] % 2 == 1 && s[2] % 2 == 1 && s[4] % 2 == 1
  }

  lemma {:induction false} MarkedBytes(v: nat)
    requires v < 0x8000
    ensures De16(Be16(Or(v * 2, 1))) / 2 == v && Be16(Or(v * 2, 1))[1] % 2 == 1
  {
    hide Or;
    OrBit(v);
    Be16Inverse(2 * v + 1);
  }

  lemma {:induction false} PrefixByte(fb: nat, high: nat)
    requires fb < 16 && high < 8
    ensures Byte(Or(Or(fb * 16, high * 2), 1)) == 16 * fb + 2 * high + 1
  {
    hide Or;
    Or4(fb, 2 * high);
    OrBit(8 * fb + high);
  }

  lemma MarkedFieldReads(fb: nat, high: nat, middle: nat, low: nat)
    requires fb < 16 && high < 8 && middle < 0x8000 && low < 0x8000
    ensures TimeMarkers(MarkedField(fb, high, middle, low), fb)
    ensures ReadTime(MarkedField(fb, high, middle, low)) == high * 0x4000_0000 + middle * 0x8000 + low
  {
    hide Or, Be16, De16, Byte;
    var s := MarkedField(fb, high, middle, low);
    PrefixByte(fb, high);
    MarkedBytes(middle);
    MarkedBytes(low);
    assert s[1..3] == Be16(Or(middle * 2, 1)) && s[3..5] == Be16(Or(low * 2, 1));
  }

  /** The stamp a receiver ends up with: exact up to 33 bits, one tick late beyond. */
  function Received(ts: int): nat {
    (if ts > 0x1_FFFF_FFFF then ts + 1 else ts) % TWO_33
  }

  lemma SplitTime(t: int)
    ensures (t / 0x4000_0000) % 8 * 0x4000_0000 + (t / 0x8000) % 0x8000 * 0x8000 + t % 0x8000 == t % TWO_33
  {
    var q := t / 0x8000;
    var r := q / 0x8000;
    assert r == t / 0x4000_0000;
    assert t == r / 8 * TWO_33 + (r % 8) * 0x4000_0000 + (q % 0x8000) * 0x8000 + t % 0x8000;
  }

  lemma ReducedIsReceived(ts: int)
    ensures Reduced(ts) % TWO_33 == Received(ts)
  {
    var t := Reduced(ts);
    if ts > 0x1_FFFF_FFFF {
      assert ts + 1 == t + TWO_33;
    }
  }

  lemma TimeFieldReads(fb: nat, ts: int)
    requires fb < 16
    ensures TimeMarkers(TimeField(fb, ts), fb)
    ensures ReadTime(TimeField(fb, ts)) == Received(ts)
  {
    hide MarkedField, ReadTime, TimeMarkers, Received, Reduced;
    var t := Reduced(ts);
    MarkedFieldReads(fb, (t / 0x4000_0000) % 8, (t / 0x8000) % 0x8000, t % 0x8000);
    SplitTime(t);
    ReducedIsReceived(ts);
  }

  /** A receiver recovers the stamp modulo 2^33 exactly when it did not exceed 33 bits. */
  lemma TimeIsExactWithin33Bits(fb: nat, ts: int)
    requires fb < 16
    ensures ReadTime(TimeField(fb, ts)) == ts % TWO_33 <==> ts <= 0x1_FFFF_FFFF
  {
    hide TimeField, ReadTime;
    TimeFieldReads(fb, ts);
  }

  // ---- the header

  predicate HasDts(p: Packet, pts: int, dts: int) {
    p.isVideo && pts != dts
  }

  function LengthField(p: Packet, optional: nat): (size: nat)
    ensures size < 0x1_0000
  {
    var size := |p.data| + optional + 3;
    if size > 0xffff then 0 else size
  }

  function HeaderBytes(p: Packet, pts: int, dts: int): (s: bytes)
    ensures |s| == if HasDts(p, pts, dts) then 19 else 14
  {
    var sid := if p.isVideo then VIDEO_SID else AUDIO_SID;
    if HasDts(p, pts, dts) then
      [0, 0, 1, sid] + Be16(LengthField(p, 10)) + [0x80, 0xc0, 10] + TimeField(3, pts) + TimeField(1, dts)
    else
      [0, 0, 1, sid] + Be16(LengthField(p, 5)) + [0x80, 0x80, 5] + TimeField(2, pts)
  }

  /** The PES packet that has to arrive. */
  function PesPacket(p: Packet, pts: int, dts: int): bytes {
    HeaderBytes(p, pts, dts) + p.data
  }

  lemma FlagBits()
    ensures Or(0x80, 0x40) == 0xc0
  {
    ShlValues(1);
    OrDisjoint(1, 64, 7);
  }

  /** The source's pesHeader: a fixed buffer and the number of bytes in use. */
  class PesHeader {
    var len: byte
    var data: array<byte>

    constructor ()
      ensures data.Length == TS_PACKET_LEN && fresh(data)
    {
      len := 0;
      data := new byte[TS_PACKET_LEN](_ => 0);
    }

    method Packet(p: Packet, pts: int, dts: int)
      requires data.Length == TS_PACKET_LEN
      modifies this`len, data
      ensures len == |HeaderBytes(p, pts, dts)|
      ensures data[..len] == HeaderBytes(p, pts, dts)
    {
      hide Or, TimeField;
      var sid: byte := AUDIO_SID;
      if p.isVideo {
        sid := VIDEO_SID;
      }
      var flag: byte := 0x80;
      var headerSize := 5;
      if p.isVideo && pts != dts {
        FlagBits();
        flag := Or(flag, 0x40);
        headerSize := headerSize + 5;
      }
      var size := |p.data| + headerSize + 3;
      if size > 0xffff {
        size := 0;
      }
      WriteFixed(sid, size, flag, headerSize);
      WriteTs(data, 9, flag / 64, pts);
      len := 14;
      if p.isVideo && pts != dts {
        WriteTs(data, 14, 1, dts);
        len := 19;
      }
    }

    method WriteFixed(sid: byte, size: nat, flag: byte, headerSize: byte)
      requires data.Length == TS_PACKET_LEN
      modifies data
      ensures data[..9] == [0, 0, 1, sid] + Be16(size) + [0x80, flag, headerSize]
    {
      data[0], data[1], data[2], data[3] := 0x00, 0x00, 0x01, sid;
      data[4], data[5] := Byte(size / 0x100), Byte(size);
      data[6], data[7], data[8] := 0x80, flag, headerSize;
    }
  }

  method WriteTs(src: array<byte>, i: nat, fb: nat, ts: int)
    requires i + 5 <= src.Length
    modifies src
    ensures src[..] == old(src[..i]) + TimeField(fb, ts) + old(src[i + 5..])
    ensures src[..i + 5] == old(src[..i]) + TimeField(fb, ts)
  {
    hide Or;
    var t := ts;
    if t > 0x1_FFFF_FFFF {
      t := t - 0x1_FFFF_FFFF;
    }
    var val := Or(Or(fb * 16, (t / 0x4000_0000) % 8 * 2), 1);
    src[i] := Byte(val);
    val := Or((t / 0x8000) % 0x8000 * 2, 1);
    src[i + 1], src[i + 2] := Byte(val / 0x100), Byte(val);
    val := Or(t % 0x8000 * 2, 1);
    src[i + 3], src[i + 4] := Byte(val / 0x100), Byte(val);
    assert src[i..i + 5] == TimeField(fb, ts);
  }

  // ---- a receiver

  datatype Parsed =
    | Malformed
    | Pes(streamId: byte, length: nat, pts: nat, dts: nat, payload: bytes)

  /** Reads a PES packet by its own flags; without a DTS field the DTS is the PTS. */
  function Parse(s: bytes): Parsed {
    if |s| < 9 || s[..3] != [0, 0, 1] || s[6] as int / 64 != 2 || |s| < 9 + s[8] as int then Malformed
    else if s[7] as int / 64 == 2 && s[8] >= 5 && TimeMarkers(s[9..14], 2) then
      Pes(s[3], De16(s[4..6]), ReadTime(s[9..14]), ReadTime(s[9..14]), s[9 + s[8] as int..])
    else if s[7] as int / 64 == 3 && s[8] >= 10 && TimeMarkers(s[9..14], 3) && TimeMarkers(s[14..19], 1) then
      Pes(s[3], De16(s[4..6]), ReadTime(s[9..14]), ReadTime(s[14..19]), s[9 + s[8] as int..])
    else Malformed
  }

  /** Everything in the PES packet comes back: the stream, both stamps and the elementary stream
      data.  The length field covers the rest of the packet, or is 0 where it would not fit. */
  lemma ParseInverts(p: Packet, pts: int, dts: int)
    requires !p.isVideo ==> pts == dts
    ensures var s := PesPacket(p, pts, dts);
            var size := if |s| - 6 > 0xffff then 0 else |s| - 6;
            Parse(s) == Pes(if p.isVideo then VIDEO_SID else AUDIO_SID, size, Received(pts), Received(dts), p.data)
  {
    hide TimeField, ReadTime, TimeMarkers, Be16, De16;
    var s := PesPacket(p, pts, dts);
    TimeFieldReads(2, pts);
    TimeFieldReads(3, pts);
    TimeFieldReads(1, dts);
    if HasDts(p, pts, dts) {
      assert s[4..6] == Be16(LengthField(p, 10)) && s[9..14] == TimeField(3, pts) && s[14..19] == TimeField(1, dts);
      Be16Inverse(LengthField(p, 10));
      assert s[19..] == p.data;
    } else {
      assert s[4..6] == Be16(LengthField(p, 5)) && s[9..14] == TimeField(2, pts);
      Be16Inverse(LengthField(p, 5));
      assert s[14..] == p.data;
    }
  }
}
