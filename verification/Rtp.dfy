/** RTP packets (rtp/packet.go:74-147, 162-275; section 5.1 of RFC 3550). */
module Rtp {
  import opened Bits
  import opened Wrappers

  const HEADER_LENGTH := 4
  const CSRC_OFFSET := 12

  datatype Header = Header(version: byte, padding: bool, extension: bool, marker: bool, payloadType: byte,
                           sequenceNumber: uint16, timestamp: uint32, ssrc: uint32, csrc: seq<uint32>,
                           profile: uint16, extPayload: bytes)

  const NO_HEADER := Header(0, false, false, false, 0, 0, 0, 0, [], 0, [])

  // ---- what is written

  function FirstByte(h: Header): byte {
    var b := Or(Byte(h.version * 0x40), Byte(|h.csrc|));
    var c := if h.padding then Or(b, 0x20) else b;
    Byte(if h.extension then Or(c, 0x10) else c)
  }

  function SecondByte(h: Header): byte {
    Byte(if h.marker then Or(h.payloadType, 0x80) else h.payloadType)
  }

  function CsrcBytes(csrc: seq<uint32>): (s: bytes)
    ensures |s| == 4 * |csrc|
  {
    if csrc == [] then [] else CsrcBytes(csrc[..|csrc| - 1]) + Be32(csrc[|csrc| - 1])
  }

  /** The extension header; the length field counts words and is cut to 16 bits. */
  function ExtensionBytes(h: Header): bytes {
    if h.extension then Be16(h.profile) + Be16(|h.extPayload| / 4) + h.extPayload else []
  }

  function Fixed(h: Header): (s: bytes)
    ensures |s| == CSRC_OFFSET
  {
    [FirstByte(h), SecondByte(h)] + Be16(h.sequenceNumber) + Be32(h.timestamp) + Be32(h.ssrc)
  }

  function HeaderBytes(h: Header): bytes {
    Fixed(h) + CsrcBytes(h.csrc) + ExtensionBytes(h)
  }

  function MarshalSize(h: Header): (n: nat)
    ensures n == |HeaderBytes(h)|
  {
    12 + |h.csrc| * 4 + if h.extension then 4 + |h.extPayload| else 0
  }

  // ---- what is read

  /** Panic: an index out of range. */
  datatype Parsed = Parsed(h: Header, offset: nat) | Error | Panic

  function ReadCsrc(s: bytes, n: nat): (r: seq<uint32>)
    requires |s| >= 4 * n
    ensures |r| == n
  {
    seq(n, i requires 0 <= i < n => De32(s[4 * i..]))
  }

  /** The fields up to the extension. */
  function Front(s: bytes, before: Header): Header
    requires |s| >= 12 && |s| >= 12 + 4 * (s[0] % 16)
  {
    Header(s[0] / 0x40, s[0] / 0x20 % 2 > 0, s[0] / 0x10 % 2 > 0, s[1] / 0x80 > 0, s[1] % 0x80,
           De16(s[2..]), De32(s[4..]), De32(s[8..]), ReadCsrc(s[12..], s[0] % 16), before.profile, before.extPayload)
  }

  /** before is what the header held: without an extension its extension fields stay. */
  function Parse(s: bytes, before: Header): (r: Parsed)
    ensures r.Parsed? ==> 12 <= r.offset <= |s|
  {
    if |s| < HEADER_LENGTH then Error
    else if |s| < CSRC_OFFSET then Panic
    else
      var at := CSRC_OFFSET + 4 * (s[0] % 16);
      if |s| < at then Error
      else
        var h := Front(s, before);
        if !h.extension then Parsed(h, at)
        else if |s| < at + 4 then Error
        else
          var size := De16(s[at + 2..]) * 4;
          if |s| < at + 4 + size then Error
          else Parsed(h.(profile := De16(s[at..]), extPayload := s[at + 4..at + 4 + size]), at + 4 + size)
  }

  // ---- the packet

  method PutUint16(buf: array<byte>, at: nat, v: nat)
    requires at + 2 <= buf.Length
    modifies buf
    ensures buf[..at + 2] == old(buf[..at]) + Be16(v)
    ensures forall i :: at + 2 <= i < buf.Length ==> buf[i] == old(buf[i])
  {
    buf[at], buf[at + 1] := Byte(v / 0x100), Byte(v);
    assert buf[..at + 2] == buf[..at] + [buf[at], buf[at + 1]];
  }

  method PutUint32(buf: array<byte>, at: nat, v: nat)
    requires at + 4 <= buf.Length
    modifies buf
    ensures buf[..at + 4] == old(buf[..at]) + Be32(v)
    ensures forall i :: at + 4 <= i < buf.Length ==> buf[i] == old(buf[i])
  {
    buf[at], buf[at + 1], buf[at + 2], buf[at + 3] :=
      Byte(v / 0x100_0000), Byte(v / 0x1_0000), Byte(v / 0x100), Byte(v);
    assert buf[..at + 4] == buf[..at] + [buf[at], buf[at + 1], buf[at + 2], buf[at + 3]];
  }

  /** io.ErrShortBuffer, which also stands for an extension that is not made of whole words. */
  datatype Written = Wrote(n: nat) | ShortBuffer

  class Packet {
    var header: Header
    var payloadOffset: nat
    var raw: bytes
    var payload: bytes

    constructor (h: Header, p: bytes)
      ensures header == h && payload == p && raw == [] && payloadOffset == 0
    {
      header, payload, raw, payloadOffset := h, p, [], 0;
    }

    /** The fields before the contributing sources. */
    method MarshalFixed(buf: array<byte>)
      requires buf.Length >= CSRC_OFFSET
      modifies buf
      ensures buf[..12] == Fixed(header)
      ensures forall i :: 12 <= i < buf.Length ==> buf[i] == old(buf[i])
    {
      hide Or, Be16, Be32;
      buf[0] := Byte(Or(Byte(header.version * 0x40), Byte(|header.csrc|)));
      OrBytes(Byte(header.version * 0x40), Byte(|header.csrc|));
      if header.padding {
        OrBytes(buf[0], 0x20);
        buf[0] := Byte(Or(buf[0], 0x20));
      }
      if header.extension {
        buf[0] := Byte(Or(buf[0], 0x10));
      }
      buf[1] := header.payloadType;
      if header.marker {
        buf[1] := Byte(Or(buf[1], 0x80));
      }
      assert buf[0] == FirstByte(header) && buf[1] == SecondByte(header);
      assert buf[..2] == [FirstByte(header), SecondByte(header)];
      PutUint16(buf, 2, header.sequenceNumber);
      PutUint32(buf, 4, header.timestamp);
      PutUint32(buf, 8, header.ssrc);
    }

    method MarshalCsrc(buf: array<byte>) returns (n: nat)
      requires buf.Length >= 12 + 4 * |header.csrc|
      modifies buf
      ensures n == 12 + 4 * |header.csrc| && buf[..n] == old(buf[..12]) + CsrcBytes(header.csrc)
      ensures forall i :: n <= i < buf.Length ==> buf[i] == old(buf[i])
    {
      hide Be32, CsrcBytes;
      n := 12;
      CsrcNone();
      for i := 0 to |header.csrc|
        invariant n == 12 + 4 * i && buf[..n] == old(buf[..12]) + CsrcBytes(header.csrc[..i])
        invariant forall j :: n <= j < buf.Length ==> buf[j] == old(buf[j])
      {
        PutUint32(buf, n, header.csrc[i]);
        CsrcNext(header.csrc, i);
        n := n + 4;
      }
      assert header.csrc[..|header.csrc|] == header.csrc;
    }

    method MarshalExtension(buf: array<byte>, at: nat) returns (n: nat)
      requires header.extension && buf.Length >= at + 4 + |header.extPayload|
      modifies buf
      ensures n == at + 4 + |header.extPayload| && buf[..n] == old(buf[..at]) + ExtensionBytes(header)
      ensures forall i :: n <= i < buf.Length ==> buf[i] == old(buf[i])
    {
      hide Be16;
      n := at;
      var extSize := |header.extPayload| / 4;
      PutUint16(buf, n, header.profile);
      PutUint16(buf, n + 2, extSize);
      n := n + 4;
      Copy(buf, n, header.extPayload);
      n := n + |header.extPayload|;
      assert buf[..n] == old(buf[..at]) + (Be16(header.profile) + Be16(extSize) + header.extPayload);
    }

    /** Where it fails, the buffer may have been written in part. */
    method MarshalHeaderTo(buf: array<byte>) returns (r: Written)
      modifies this`payloadOffset, buf
      ensures r.Wrote? <==> MarshalSize(header) <= buf.Length && (header.extension ==> |header.extPayload| % 4 == 0)
      ensures r.Wrote? ==> r.n == MarshalSize(header) && buf[..r.n] == HeaderBytes(header) &&
                           payloadOffset == 12 + 4 * |header.csrc|
      ensures r.Wrote? ==> forall i :: r.n <= i < buf.Length ==> buf[i] == old(buf[i])
    {
      hide Fixed, CsrcBytes, ExtensionBytes;
      var size := MarshalSize(header);
      if size > buf.Length {
        return ShortBuffer;
      }
      MarshalFixed(buf);
      var n := MarshalCsrc(buf);
      payloadOffset := n;
      if header.extension {
        if |header.extPayload| % 4 != 0 {
          return ShortBuffer;
        }
        n := MarshalExtension(buf, n);
      }
      NoExtension(header);
      r := Wrote(n);
    }

    method MarshalTo(buf: array<byte>) returns (r: Written)
      modifies this`payloadOffset, this`raw, buf
      ensures r.Wrote? <==> MarshalSize(header) + |payload| <= buf.Length &&
                            (header.extension ==> |header.extPayload| % 4 == 0)
      ensures r.Wrote? ==> r.n == MarshalSize(header) + |payload| && raw == payload &&
                           buf[..r.n] == HeaderBytes(header) + payload
      ensures r.Wrote? ==> forall i :: r.n <= i < buf.Length ==> buf[i] == old(buf[i])
    {
      hide HeaderBytes, MarshalSize;
      r := MarshalHeaderTo(buf);
      if r.ShortBuffer? {
        return;
      }
      var n := r.n;
      if n + |payload| > buf.Length {
        return ShortBuffer;
      }
      Copy(buf, n, payload);
      raw := payload;
      r := Wrote(n + |payload|);
    }

    /** A buffer of the size announced is never too short. */
    method Marshal() returns (r: Option<bytes>)
      modifies this`payloadOffset, this`raw
      ensures r.Some? <==> (header.extension ==> |header.extPayload| % 4 == 0)
      ensures r.Some? ==> r.value == HeaderBytes(header) + payload
    {
      hide HeaderBytes, MarshalSize;
      var buf := new byte[MarshalSize(header) + |payload|];
      var w := MarshalTo(buf);
      if w.ShortBuffer? {
        return None;
      }
      r := Some(buf[..w.n]);
    }

    /** What is left of the fields after an error is not part of this model. */
    method UnmarshalCsrc(rawPacket: bytes, n: nat) returns (csrc: seq<uint32>)
      requires |rawPacket| >= 12 + 4 * n
      ensures csrc == ReadCsrc(rawPacket[12..], n)
    {
      hide De32;
      csrc := [];
      for i := 0 to n
        invariant csrc == ReadCsrc(rawPacket[12..], i)
      {
        assert rawPacket[12 + 4 * i..] == rawPacket[12..][4 * i..];
        csrc := csrc + [De32(rawPacket[12 + 4 * i..])];
      }
    }

    method Unmarshal(rawPacket: bytes) returns (r: Parsed)
      modifies this
      ensures r == Parse(rawPacket, old(header))
      ensures r.Parsed? ==> header == r.h && payloadOffset == r.offset
      ensures r.Parsed? ==> raw == rawPacket && payload == rawPacket[r.offset..]
    {
      hide De16, De32, ReadCsrc;
      if |rawPacket| < HEADER_LENGTH {
        return Error;
      }
      header := header.(version := rawPacket[0] / 0x40, padding := rawPacket[0] / 0x20 % 2 > 0,
                        extension := rawPacket[0] / 0x10 % 2 > 0);
      var n := rawPacket[0] % 16;
      header := header.(marker := rawPacket[1] / 0x80 > 0, payloadType := rawPacket[1] % 0x80);
      if |rawPacket| < CSRC_OFFSET {
        return Panic;
      }
      header := header.(sequenceNumber := De16(rawPacket[2..]), timestamp := De32(rawPacket[4..]),
                        ssrc := De32(rawPacket[8..]));
      var currOffset := CSRC_OFFSET + 4 * n;
      if |rawPacket| < currOffset {
        return Error;
      }
      var csrc := UnmarshalCsrc(rawPacket, n);
      header := header.(csrc := csrc);
      if header.extension {
        if |rawPacket| < currOffset + 4 {
          return Error;
        }
        header := header.(profile := De16(rawPacket[currOffset..]));
        var extensionLength := De16(rawPacket[currOffset + 2..]) * 4;
        currOffset := currOffset + 4;
        if |rawPacket| < currOffset + extensionLength {
          return Error;
        }
        header := header.(extPayload := rawPacket[currOffset..currOffset + extensionLength]);
        currOffset := currOffset + |header.extPayload|;
      }
      payloadOffset := currOffset;
      payload := rawPacket[payloadOffset..];
      raw := rawPacket;
      r := Parsed(header, currOffset);
    }
  }

  lemma CsrcNone()
    ensures CsrcBytes([]) == []
  {
  }

  lemma NoExtension(h: Header)
    ensures !h.extension ==> ExtensionBytes(h) == []
  {
  }

  lemma CsrcNext(csrc: seq<uint32>, i: nat)
    requires i < |csrc|
    ensures CsrcBytes(csrc[..i + 1]) == CsrcBytes(csrc[..i]) + Be32(csrc[i])
  {
    assert csrc[..i + 1][..i] == csrc[..i];
  }

  /** The or of two bytes is a byte. */
  lemma {:induction false} OrBytes(a: byte, b: byte)
    ensures Byte(Or(a, b)) == Or(a, b)
  {
    OrBound(a, b, 8);
    assert Shl(1, 8) == 2 * Shl(1, 7);
    ShlValues(1);
  }

  lemma {:induction false} OrBound(a: nat, b: nat, k: nat)
    requires a < Shl(1, k) && b < Shl(1, k)
    ensures Or(a, b) < Shl(1, k)
    decreases k
  {
    if k == 0 {
    } else {
      OrBound(a / 2, b / 2, k - 1);
    }
  }

  // ---- the first byte

  lemma {:induction false} OrZero(a: nat)
    ensures Or(a, 0) == a && Or(0, a) == a
  {
  }

  /** Or-ing above the k lowest bits leaves those alone. */
  lemma {:induction false} OrAbove(a: nat, b: nat, c: nat, k: nat)
    requires c < Shl(1, k)
    ensures Or(Shl(a, k) + c, Shl(b, k)) == Shl(Or(a, b), k) + c
    decreases k
  {
    if k == 0 {
    } else {
      OrAbove(a, b, c / 2, k - 1);
      OrZero(Shl(b, k));
      var x, y := Shl(a, k) + c, Shl(b, k);
      assert x / 2 == Shl(a, k - 1) + c / 2 && y / 2 == Shl(b, k - 1);
      if x == 0 {
        OrZero(Shl(b, k - 1));
      } else if y == 0 {
        OrZero(Shl(a, k - 1) + c / 2);
      }
    }
  }

  lemma OrPadding(v: nat, n: nat)
    requires n < 16
    ensures Or(0x40 * v + n, 0x20) == 0x40 * v + 0x20 + n
  {
    hide Or;
    ShlValues(4 * v);
    ShlValues(2);
    ShlValues(4 * v + 2);
    ShlValues(1);
    Or2(v, 2);
    OrAbove(4 * v, 2, n, 4);
  }

  lemma OrExtension(y: nat, n: nat)
    requires n < 16
    ensures Or(0x20 * y + n, 0x10) == 0x20 * y + 0x10 + n
  {
    hide Or;
    ShlValues(2 * y);
    ShlValues(1);
    ShlValues(2 * y + 1);
    OrBit(y);
    OrAbove(2 * y, 1, n, 4);
  }

  lemma FirstByteIs(h: Header)
    requires h.version < 4 && |h.csrc| < 16
    ensures FirstByte(h) ==
        h.version * 0x40 + (if h.padding then 0x20 else 0) + (if h.extension then 0x10 else 0) + |h.csrc|
  {
    hide Or;
    var (v, n) := (h.version, |h.csrc|);
    ByteIs(v * 0x40);
    ByteIs(n);
    Or6(v, n);
    OrPadding(v, n);
    OrExtension(2 * v, n);
    OrExtension(2 * v + 1, n);
    ByteIs(v * 0x40 + (if h.padding then 0x20 else 0) + (if h.extension then 0x10 else 0) + n);
  }

  lemma SecondByteIs(h: Header)
    requires h.payloadType < 0x80
    ensures SecondByte(h) == (if h.marker then 0x80 else 0) + h.payloadType
  {
    hide Or;
    Or7(1, h.payloadType);
    ByteIs((if h.marker then 0x80 else 0) + h.payloadType);
  }

  // ---- each undoes the other

  /** The headers whose fields fit their places. */
  predicate WellFormed(h: Header) {
    h.version < 4 && h.payloadType < 0x80 && |h.csrc| < 16 &&
    if h.extension then |h.extPayload| % 4 == 0 && |h.extPayload| < 4 * 0x1_0000
    else h.profile == 0 && h.extPayload == []
  }

  lemma De16Of(s: bytes, at: nat, n: uint16)
    requires at + 2 <= |s| && s[at..at + 2] == Be16(n)
    ensures De16(s[at..]) == n
  {
    hide Be16;
    Be16Inverse(n);
    assert De16(s[at..]) == De16(s[at..at + 2]);
  }

  lemma De32Of(s: bytes, at: nat, n: uint32)
    requires at + 4 <= |s| && s[at..at + 4] == Be32(n)
    ensures De32(s[at..]) == n
  {
    hide Be32;
    Be32Inverse(n);
    assert De32(s[at..]) == De32(s[at..at + 4]);
  }

  lemma {:induction false} CsrcRead(csrc: seq<uint32>, s: bytes)
    requires |s| >= 4 * |csrc| && s[..4 * |csrc|] == CsrcBytes(csrc)
    ensures ReadCsrc(s, |csrc|) == csrc
    decreases |csrc|
  {
    hide De32, Be32;
    if csrc == [] {
    } else {
      var n := |csrc| - 1;
      assert s[..4 * n] == s[..4 * |csrc|][..4 * n];
      CsrcRead(csrc[..n], s);
      De32Of(s, 4 * n, csrc[n]);
      assert ReadCsrc(s, |csrc|) == ReadCsrc(s, n) + [De32(s[4 * n..])];
    }
  }

  lemma {:induction false} CsrcWritten(s: bytes, n: nat)
    requires |s| >= 4 * n
    ensures CsrcBytes(ReadCsrc(s, n)) == s[..4 * n]
    decreases n
  {
    hide De32, Be32;
    if n == 0 {
    } else {
      CsrcWritten(s, n - 1);
      var r := ReadCsrc(s, n);
      assert r[..n - 1] == ReadCsrc(s, n - 1);
      Word32(s, 4 * (n - 1));
      assert s[..4 * n] == s[..4 * (n - 1)] + s[4 * (n - 1)..4 * n];
    }
  }

  lemma Word32(s: bytes, at: nat)
    requires at + 4 <= |s|
    ensures Be32(De32(s[at..])) == s[at..at + 4]
  {
    hide Be32;
    DeInverse(s[at..at + 4]);
    assert De32(s[at..]) == De32(s[at..at + 4]);
  }

  lemma Word16(s: bytes, at: nat)
    requires at + 2 <= |s|
    ensures Be16(De16(s[at..])) == s[at..at + 2]
  {
    hide Be16;
    DeInverse(s[at..at + 2]);
    assert De16(s[at..]) == De16(s[at..at + 2]);
  }

  /** The first twelve bytes tell their fields. */
  lemma FixedRead(h: Header, rest: bytes)
    requires h.version < 4 && h.payloadType < 0x80 && |h.csrc| < 16
    ensures var s := Fixed(h) + rest;
            s[0] / 0x40 == h.version && (s[0] / 0x20 % 2 > 0) == h.padding && (s[0] / 0x10 % 2 > 0) == h.extension &&
            s[0] % 16 == |h.csrc| && (s[1] / 0x80 > 0) == h.marker && s[1] % 0x80 == h.payloadType &&
            De16(s[2..]) == h.sequenceNumber && De32(s[4..]) == h.timestamp && De32(s[8..]) == h.ssrc
  {
    hide De16, De32, Be16, Be32, FirstByte, SecondByte;
    FirstByteReads(h);
    SecondByteReads(h);
    var s := Fixed(h) + rest;
    assert s[0] == FirstByte(h) && s[1] == SecondByte(h);
    assert s[2..4] == Be16(h.sequenceNumber) && s[4..8] == Be32(h.timestamp) && s[8..12] == Be32(h.ssrc);
    De16Of(s, 2, h.sequenceNumber);
    De32Of(s, 4, h.timestamp);
    De32Of(s, 8, h.ssrc);
  }

  lemma FirstByteReads(h: Header)
    requires h.version < 4 && |h.csrc| < 16
    ensures var b := FirstByte(h);
            b / 0x40 == h.version && (b / 0x20 % 2 > 0) == h.padding && (b / 0x10 % 2 > 0) == h.extension &&
            b % 16 == |h.csrc|
  {
    hide FirstByte;
    FirstByteIs(h);
    BitsOf(h.version, if h.padding then 1 else 0, if h.extension then 1 else 0, |h.csrc|);
  }

  lemma BitsOf(v: nat, p: nat, x: nat, n: nat)
    requires p < 2 && x < 2 && n < 16
    ensures var b := v * 0x40 + p * 0x20 + x * 0x10 + n;
            b / 0x40 == v && b / 0x20 % 2 == p && b / 0x10 % 2 == x && b % 16 == n
  {
    var b := v * 0x40 + p * 0x20 + x * 0x10 + n;
    Unique(b, 0x40, v, p * 0x20 + x * 0x10 + n);
    Unique(b, 0x20, v * 2 + p, x * 0x10 + n);
    Unique(b, 0x10, v * 4 + p * 2 + x, n);
    Unique(v * 2 + p, 2, v, p);
    Unique(v * 4 + p * 2 + x, 2, v * 2 + p, x);
  }

  lemma SecondByteReads(h: Header)
    requires h.payloadType < 0x80
    ensures var b := SecondByte(h); (b / 0x80 > 0) == h.marker && b % 0x80 == h.payloadType
  {
    hide SecondByte;
    SecondByteIs(h);
  }

  lemma FrontRead(h: Header, rest: bytes)
    requires h.version < 4 && h.payloadType < 0x80 && |h.csrc| < 16
    ensures var s := Fixed(h) + CsrcBytes(h.csrc) + rest;
            s[0] % 16 == |h.csrc| && Front(s, NO_HEADER) == h.(profile := 0, extPayload := [])
  {
    hide De16, De32, Fixed, CsrcBytes, ReadCsrc;
    var tail := CsrcBytes(h.csrc) + rest;
    var s := Fixed(h) + CsrcBytes(h.csrc) + rest;
    assert s == Fixed(h) + tail;
    FixedRead(h, tail);
    assert s[12..] == tail && tail[..4 * |h.csrc|] == CsrcBytes(h.csrc);
    CsrcRead(h.csrc, tail);
  }

  /** The inputs that are refused, and those where an index is out of range: four to eleven bytes. */
  lemma ParseFails(s: bytes, before: Header)
    ensures Parse(s, before).Panic? <==> 4 <= |s| < 12
    ensures Parse(s, before).Error? <==>
      |s| < 4 ||
      (|s| >= 12 &&
        var at := 12 + 4 * (s[0] % 16);
        |s| < at || (s[0] / 0x10 % 2 == 1 && (|s| < at + 4 || |s| < at + 4 + 4 * De16(s[at + 2..]))))
  {
    hide De16, ReadCsrc;
  }

  /** Unmarshalling what was marshalled, with any payload behind it. */
  lemma HeaderRoundTrip(h: Header, payload: bytes)
    requires WellFormed(h)
    ensures Parse(HeaderBytes(h) + payload, NO_HEADER) == Parsed(h, MarshalSize(h))
  {
    hide De16, Fixed, CsrcBytes, ExtensionBytes, Front;
    var s := HeaderBytes(h) + payload;
    var tail := ExtensionBytes(h) + payload;
    assert s == Fixed(h) + CsrcBytes(h.csrc) + tail;
    FrontRead(h, tail);
    if h.extension {
      assert s[12 + 4 * |h.csrc|..] == tail;
      ExtensionRead(h, s, 12 + 4 * |h.csrc|, payload);
    }
  }

  lemma ExtensionRead(h: Header, s: bytes, at: nat, payload: bytes)
    requires h.extension && |h.extPayload| % 4 == 0 && |h.extPayload| < 4 * 0x1_0000
    requires at <= |s| && s[at..] == ExtensionBytes(h) + payload
    ensures |s| >= at + 4 + |h.extPayload| && De16(s[at..]) == h.profile
    ensures De16(s[at + 2..]) * 4 == |h.extPayload| && s[at + 4..at + 4 + |h.extPayload|] == h.extPayload
  {
    hide De16, Be16;
    var t := s[at..];
    assert s[at + 2..] == t[2..];
    De16Of(t, 0, h.profile);
    assert t[0..] == t;
    De16Of(t, 2, |h.extPayload| / 4);
    assert t[4..4 + |h.extPayload|] == h.extPayload;
  }

  /** A header comes back as it was exactly if it is well formed. */
  lemma RoundTripIff(h: Header, payload: bytes)
    ensures Parse(HeaderBytes(h) + payload, NO_HEADER) == Parsed(h, MarshalSize(h)) <==> WellFormed(h)
  {
    hide HeaderBytes, Parse, WellFormed, MarshalSize;
    if WellFormed(h) {
      HeaderRoundTrip(h, payload);
    } else if Parse(HeaderBytes(h) + payload, NO_HEADER).Parsed? {
      MarshalUndoesUnmarshal(HeaderBytes(h) + payload);
    }
  }

  lemma FrontWritten(s: bytes)
    requires |s| >= 12 && |s| >= 12 + 4 * (s[0] % 16)
    ensures var h := Front(s, NO_HEADER);
            h.version < 4 && h.payloadType < 0x80 && |h.csrc| == s[0] % 16 &&
            Fixed(h) + CsrcBytes(h.csrc) == s[..12 + 4 * |h.csrc|]
  {
    hide De16, De32, Fixed, CsrcBytes, ReadCsrc;
    var h := Front(s, NO_HEADER);
    var at := 12 + 4 * |h.csrc|;
    FixedWritten(s, h);
    CsrcWritten(s[12..], |h.csrc|);
    assert s[12..][..4 * |h.csrc|] == s[12..at];
    assert s[..12] + s[12..at] == s[..at];
  }

  lemma ExtensionWritten(s: bytes, at: nat, n: nat)
    requires at + 4 <= n <= |s| && n == at + 4 + De16(s[at + 2..]) * 4
    ensures Be16(De16(s[at..])) + Be16((n - at - 4) / 4) + s[at + 4..n] == s[at..n]
  {
    hide De16, Be16;
    Word16(s, at);
    Word16(s, at + 2);
    assert s[at..n] == s[at..at + 2] + s[at + 2..at + 4] + s[at + 4..n];
  }

  /** What an accepted packet consists of. */
  lemma ParsedIs(s: bytes)
    requires Parse(s, NO_HEADER).Parsed?
    ensures |s| >= 12 && |s| >= 12 + 4 * (s[0] % 16)
    ensures var (p, f, at) := (Parse(s, NO_HEADER), Front(s, NO_HEADER), 12 + 4 * (s[0] % 16));
            if f.extension then
              at + 4 <= p.offset == at + 4 + De16(s[at + 2..]) * 4 <= |s| &&
              p.h == f.(profile := De16(s[at..]), extPayload := s[at + 4..p.offset])
            else p.h == f && p.offset == at
  {
    hide De16, Front;
  }

  /** Every accepted packet is marshalled to the same bytes, and its header is well formed. */
  lemma MarshalUndoesUnmarshal(s: bytes)
    requires Parse(s, NO_HEADER).Parsed?
    ensures var (h, n) := (Parse(s, NO_HEADER).h, Parse(s, NO_HEADER).offset);
            HeaderBytes(h) == s[..n] && MarshalSize(h) == n && WellFormed(h)
  {
    hide De16, Be16, Fixed, CsrcBytes, Front, Parse;
    ParsedIs(s);
    FrontWritten(s);
    FrontFields(s);
    var (h, n, f) := (Parse(s, NO_HEADER).h, Parse(s, NO_HEADER).offset, Front(s, NO_HEADER));
    FrontKept(f, h);
    WholeWritten(s, f, h, n);
  }

  lemma WholeWritten(s: bytes, f: Header, h: Header, n: nat)
    requires var at := 12 + 4 * |f.csrc|;
             at <= |s| && Fixed(h) + CsrcBytes(h.csrc) == s[..at] &&
             if f.extension then
               at + 4 <= n <= |s| && n == at + 4 + De16(s[at + 2..]) * 4 &&
               h == f.(profile := De16(s[at..]), extPayload := s[at + 4..n])
             else h == f && n == at
    ensures HeaderBytes(h) == s[..n] && MarshalSize(h) == n
  {
    hide De16, Be16, Fixed, CsrcBytes, MarshalSize;
    var at := 12 + 4 * |f.csrc|;
    if f.extension {
      ExtensionWritten(s, at, n);
      assert s[..at] + s[at..n] == s[..n];
    } else {
      assert s[..n] + [] == s[..n];
    }
  }

  lemma FrontFields(s: bytes)
    requires |s| >= 12 && |s| >= 12 + 4 * (s[0] % 16)
    ensures Front(s, NO_HEADER).profile == 0 && Front(s, NO_HEADER).extPayload == []
  {
  }

  /** The fields up to the extension are written without looking at it. */
  lemma FrontKept(f: Header, h: Header)
    requires h == f.(profile := h.profile, extPayload := h.extPayload)
    ensures Fixed(h) == Fixed(f)
  {
  }

  lemma FixedWritten(s: bytes, h: Header)
    requires |s| >= 12 && |h.csrc| == s[0] % 16
    requires h.version == s[0] / 0x40 && h.padding == (s[0] / 0x20 % 2 > 0) && h.extension == (s[0] / 0x10 % 2 > 0)
    requires h.marker == (s[1] / 0x80 > 0) && h.payloadType == s[1] % 0x80
    requires h.sequenceNumber == De16(s[2..]) && h.timestamp == De32(s[4..]) && h.ssrc == De32(s[8..])
    ensures Fixed(h) == s[..12]
  {
    hide De16, De32, Be16, Be32, FirstByte, SecondByte;
    FirstByteIs(h);
    SecondByteIs(h);
    Word16(s, 2);
    Word32(s, 4);
    Word32(s, 8);
    FirstByteSplit(s[0]);
    assert s[..12] == [s[0], s[1]] + s[2..4] + s[4..8] + s[8..12];
  }

  lemma FirstByteSplit(b: byte)
    ensures b == b / 0x40 * 0x40 + b / 0x20 % 2 * 0x20 + b / 0x10 % 2 * 0x10 + b % 16
  {
  }
}
