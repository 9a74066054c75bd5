/** The transport stream muxer (container/ts/muxer.go). */
module TsMuxer {
  import opened Bits
  import opened Av
  import opened Pes
  import opened TsReader
  import opened TsFormat
  import opened Psi
  import opened Crc32
  import Gf2

  /** Clock ticks per millisecond. */
  const HZ := 90

  function Dts(p: Packet): nat {
    p.timeStamp * HZ
  }

  function Pts(p: Packet): int
    requires p.isVideo ==> p.header.VideoHeader?
  {
    if p.isVideo then Dts(p) + p.header.compositionTime * HZ else Dts(p)
  }

  predicate IsKey(p: Packet)
    requires p.isVideo ==> p.header.VideoHeader?
  {
    p.isVideo && p.header.isKeyFrame
  }

  function PidOf(p: Packet): nat { if p.isVideo then VIDEO_PID else AUDIO_PID }

  function PesOf(p: Packet): (s: bytes)
    requires p.isVideo ==> p.header.VideoHeader?
    ensures |s| >= |p.data| + 14
  {
    PesPacket(p, Pts(p), Dts(p))
  }

  /** Everything Mux writes for a packet when the last counter of its PID was cc. */
  function MuxBytes(p: Packet, cc: nat): bytes
    requires p.isVideo ==> p.header.VideoHeader?
  {
    Muxed(PidOf(p), IsKey(p), cc, Dts(p), PesOf(p))
  }

  function NextCounter(p: Packet, cc: nat): nat
    requires p.isVideo ==> p.header.VideoHeader?
  {
    (cc + MuxedCount(IsKey(p), |PesOf(p)|)) % 16
  }

  class Muxer {
    var videoCc: byte
    var audioCc: byte
    var patCc: byte
    var pmtCc: byte
    const pat: array<byte>
    const pmt: array<byte>
    const tsPacket: array<byte>

    ghost predicate Valid()
      reads this
    {
      videoCc < 16 && audioCc < 16 && patCc <= 16 && pmtCc <= 16 &&
      pat.Length == CELL && pmt.Length == CELL && tsPacket.Length == CELL
    }

    constructor ()
      ensures Valid() && fresh(pat) && fresh(pmt) && fresh(tsPacket)
      ensures videoCc == audioCc == patCc == pmtCc == 0
    {
      videoCc, audioCc, patCc, pmtCc := 0, 0, 0, 0;
      pat := new byte[CELL](_ => 0);
      pmt := new byte[CELL](_ => 0);
      tsPacket := new byte[CELL](_ => 0);
    }

    /** Writes the first bytes of tsPacket: the packet header and, at the start of a keyframe, an
        adaptation field with the clock reference. */
    method StartHeader(p: Packet, first: bool)
      requires Valid()
      modifies tsPacket
      ensures tsPacket[..4] == CellHeader(PidOf(p), first, false, if p.isVideo then videoCc else audioCc)
    {
      hide Or;
      var pid := PidOf(p);
      tsPacket[0] := 0x47;
      tsPacket[1] := Byte(pid / 0x100);
      if first {
        tsPacket[1] := Byte(Or(tsPacket[1], 0x40));
      }
      tsPacket[2] := Byte(pid);
      if p.isVideo {
        tsPacket[3] := Byte(Or(0x10, videoCc % 16));
      } else {
        tsPacket[3] := Byte(Or(0x10, audioCc % 16));
      }
      HeaderOrs(if p.isVideo then videoCc else audioCc);
    }

    method StartCell(p: Packet, first: bool, dts: nat) returns (i: byte)
      requires Valid()
      requires p.isVideo ==> p.header.VideoHeader?
      modifies tsPacket
      ensures i == if first && IsKey(p) then 12 else 4
      ensures tsPacket[..i] ==
              if first && IsKey(p) then KeyHead(videoCc, dts)
              else CellHeader(PidOf(p), first, false, if p.isVideo then videoCc else audioCc)
    {
      hide Or, Pcr;
      StartHeader(p, first);
      i := 4;
      if first && p.isVideo && p.header.isKeyFrame {
        HeaderOrs(videoCc);
        assert tsPacket[3] == tsPacket[..4][3];
        tsPacket[3] := Byte(Or(tsPacket[3], 0x20));
        assert tsPacket[..4] == CellHeader(VIDEO_PID, first, true, videoCc);
        tsPacket[4] := 7;
        tsPacket[5] := 0x50;
        WritePcr(tsPacket, 6, dts);
        i := 12;
      }
    }

    /** Completes the part of tsPacket in front of the payload when n bytes are left to send.
        The offsets are 8-bit numbers; dataLen is the room left for payload. */
    method FrameCell(p: Packet, first: bool, dts: nat, n: nat) returns (i: byte, dataLen: byte)
      requires Valid() && n > 0
      requires p.isVideo ==> p.header.VideoHeader?
      requires dts == Dts(p)
      modifies tsPacket
      ensures dataLen == CELL - i
      ensures var cc := if p.isVideo then videoCc else audioCc;
              tsPacket[..i] == LeadOf(p, first, cc, n)
    {
      hide CellHeader, KeyHead, Stuffing, Byte;
      i := StartCell(p, first, dts);
      if n >= ROOM {
        dataLen := ROOM;
        if first {
          dataLen := Byte(dataLen - Byte(i - 4));
        }
        RoomLeft(i);
      } else {
        StuffingOffsets(first, i, n);
        ghost var start := tsPacket[..i];
        SetAdaptationFlag(p, first, dts, i);
        var remainBytes: byte := 0;
        dataLen := Byte(n);
        if first {
          remainBytes := Byte(Byte(ROOM - dataLen) - Byte(i - 4));
        } else {
          remainBytes := Byte(ROOM - dataLen);
        }
        AdaptationBufInit(tsPacket, i, remainBytes);
        ghost var j := i;
        i := Byte(i + remainBytes);
        if j == 12 && n == 176 {
          StuffingZero();
        }
        if j == 12 && n > 176 {
          assert tsPacket[..i] == tsPacket[..12][..i];
        }
      }
    }

    /** Advances the counter of the packet's PID. */
    method NextCc(p: Packet)
      requires Valid()
      modifies this`videoCc, this`audioCc
      ensures videoCc == if p.isVideo then (old(videoCc) + 1) % 16 else old(videoCc)
      ensures audioCc == if p.isVideo then old(audioCc) else (old(audioCc) + 1) % 16
    {
      if p.isVideo {
        videoCc := Byte(videoCc + 1);
        if videoCc > 0xf {
          videoCc := 0;
        }
      } else {
        audioCc := Byte(audioCc + 1);
        if audioCc > 0xf {
          audioCc := 0;
        }
      }
    }

    /** Fills tsPacket from offset i0 with the next dataLen0 bytes of the PES packet: first what is
        left of its header, then data. */
    method FillCell(p: Packet, first: bool, header: PesHeader, i0: byte, dataLen0: byte,
                    pesHeaderLen0: byte, pesIndex0: nat, wBytes0: nat, packetBytesLen0: int)
        returns (pesHeaderLen: byte, pesIndex: nat, wBytes: nat, packetBytesLen: int)
      requires Valid() && header.data.Length == CELL && header.data != tsPacket && 0 < header.len < CELL
      requires i0 < CELL && dataLen0 == CELL - i0 && dataLen0 as int <= packetBytesLen0
      requires pesHeaderLen0 == if first then header.len else 0
      requires first ==> pesIndex0 == wBytes0 == 0 && header.len <= dataLen0
      requires packetBytesLen0 == pesHeaderLen0 as int + |p.data| - wBytes0
      modifies tsPacket
      ensures pesHeaderLen == 0
      ensures packetBytesLen == packetBytesLen0 - dataLen0 as int == |p.data| - wBytes
      ensures tsPacket[..] == old(tsPacket[..i0])
                            + (if first then header.data[..header.len] else []) + p.data[wBytes0..wBytes]
    {
      hide Byte;
      var i, dataLen := i0, dataLen0;
      pesHeaderLen, pesIndex, wBytes, packetBytesLen := pesHeaderLen0, pesIndex0, wBytes0, packetBytesLen0;
      ghost var head := header.data[..header.len];
      if first && i < CELL && pesHeaderLen > 0 {
        var tmpLen := Byte(CELL - i);
        ByteIs(CELL - i);
        if pesHeaderLen <= tmpLen {
          tmpLen := pesHeaderLen;
        }
        Copy(tsPacket, i, header.data[pesIndex..pesIndex + tmpLen as int]);
        ByteIs(i + tmpLen);
        ByteIs(dataLen - tmpLen);
        ByteIs(pesHeaderLen - tmpLen);
        i := Byte(i + tmpLen);
        packetBytesLen := packetBytesLen - tmpLen as int;
        dataLen := Byte(dataLen - tmpLen);
        pesHeaderLen := Byte(pesHeaderLen - tmpLen);
        pesIndex := pesIndex + tmpLen as int;
      }
      ghost var part := if first then head else [];
      assert tsPacket[..i] == old(tsPacket[..i0]) + part;
      if i < CELL {
        var tmpLen := Byte(CELL - i);
        ByteIs(CELL - i);
        if tmpLen <= dataLen {
          dataLen := tmpLen;
        }
        Copy(tsPacket, i, p.data[wBytes..wBytes + dataLen as int]);
        wBytes := wBytes + dataLen as int;
        packetBytesLen := packetBytesLen - dataLen as int;
      }
      assert tsPacket[..] == old(tsPacket[..i0]) + part + p.data[wBytes0..wBytes];
    }

    method Mux(p: Packet, w: Buffer)
      requires Valid()
      requires p.isVideo ==> p.header.VideoHeader?
      modifies this`videoCc, this`audioCc, tsPacket, w
      ensures Valid()
      ensures w.data == old(w.data) + MuxBytes(p, if p.isVideo then old(videoCc) else old(audioCc))
      ensures videoCc == if p.isVideo then NextCounter(p, old(videoCc)) else old(videoCc)
      ensures audioCc == if p.isVideo then old(audioCc) else NextCounter(p, old(audioCc))
    {
      hide HeaderBytes, MuxBytes, NextCounter;
      var dts := p.timeStamp * HZ;
      var pts := dts;
      if p.isVideo {
        pts := dts + p.header.compositionTime * HZ;
      }
      var header := new PesHeader();
      header.Packet(p, pts, dts);
      assert header.data[..header.len] + p.data == PesOf(p);
      SendPes(p, dts, header, w);
    }

    /** One turn of Mux's loop. */
    method SendCell(p: Packet, first: bool, dts: nat, header: PesHeader, pesHeaderLen0: byte, pesIndex0: nat,
                    wBytes0: nat, packetBytesLen0: int, w: Buffer, ghost cc0: nat, ghost sent: nat, ghost done0: bytes)
        returns (pesHeaderLen: byte, pesIndex: nat, wBytes: nat, packetBytesLen: int, ghost done: bytes,
            ghost room: nat)
      requires Valid()
      requires p.isVideo ==> p.header.VideoHeader?
      requires header.data.Length == CELL && header.data != tsPacket && 14 <= header.len <= 19
      requires dts == Dts(p) && header.data[..header.len] + p.data == PesOf(p)
      requires sent < |PesOf(p)| && packetBytesLen0 == |PesOf(p)| - sent
      requires first ==> sent == 0 && wBytes0 == 0 && pesIndex0 == 0 && pesHeaderLen0 == header.len
      requires !first ==> pesHeaderLen0 == 0 && sent == header.len as int + wBytes0
      requires Sending(p, first, cc0, if p.isVideo then videoCc else audioCc, sent, done0)
      modifies this`videoCc, this`audioCc, tsPacket, w
      ensures Valid() && header.data[..header.len] == old(header.data[..header.len])
      ensures 0 < room <= |PesOf(p)| - sent && packetBytesLen == packetBytesLen0 - room
      ensures pesHeaderLen == 0 && sent + room == header.len as int + wBytes
      ensures done0 <= done && w.data == old(w.data) + done[|done0|..]
      ensures Sending(p, false, cc0, if p.isVideo then videoCc else audioCc, sent + room, done)
      ensures p.isVideo ==> audioCc == old(audioCc)
      ensures !p.isVideo ==> videoCc == old(videoCc)
    {
      hide PesOf, Sending, MuxBytes, NextCounter, LeadOf, Dts, PidOf, IsKey;
      ghost var head, pes := header.data[..header.len], PesOf(p);
      ghost var last := if p.isVideo then videoCc else audioCc;
      NextCc(p);
      var i, dataLen := FrameCell(p, first, dts, packetBytesLen0);
      LeadFits(p, first, (last + 1) % 16, packetBytesLen0);
      MuxStep(p, first, cc0, last, sent, done0);
      ghost var lead := tsPacket[..i];
      pesHeaderLen, pesIndex, wBytes, packetBytesLen :=
        FillCell(p, first, header, i, dataLen, pesHeaderLen0, pesIndex0, wBytes0, packetBytesLen0);
      PesSlice(head, p.data, first, wBytes0, wBytes, lead);
      w.Write(tsPacket[..]);
      done := done0 + tsPacket[..];
      room := dataLen as int;
    }

    /** The loop of Mux: cuts the PES packet into transport packets. */
    method SendPes(p: Packet, dts: nat, header: PesHeader, w: Buffer)
      requires Valid()
      requires p.isVideo ==> p.header.VideoHeader?
      requires header.data.Length == CELL && header.data != tsPacket && 14 <= header.len <= 19
      requires dts == Dts(p) && header.data[..header.len] + p.data == PesOf(p)
      modifies this`videoCc, this`audioCc, tsPacket, w
      ensures Valid()
      ensures w.data == old(w.data) + MuxBytes(p, if p.isVideo then old(videoCc) else old(audioCc))
      ensures videoCc == if p.isVideo then NextCounter(p, old(videoCc)) else old(videoCc)
      ensures audioCc == if p.isVideo then old(audioCc) else NextCounter(p, old(audioCc))
    {
      hide PesOf, Sending, MuxBytes, NextCounter, LeadOf, Dts, PidOf, IsKey;
      ghost var head, pes := header.data[..header.len], PesOf(p);
      ghost var cc0 := if p.isVideo then videoCc else audioCc;
      var first := true;
      var wBytes := 0;
      var pesIndex := 0;
      var pesHeaderLen := header.len;
      var packetBytesLen := |p.data| + pesHeaderLen as int;

      ghost var sent := 0;
      ghost var done: bytes := [];
      NothingSent(p, cc0);
      while packetBytesLen > 0
        invariant Valid() && header.data[..header.len] == head
        invariant 0 <= sent <= |pes| && packetBytesLen == |pes| - sent
        invariant first ==> sent == 0 && wBytes == 0 && pesIndex == 0 && pesHeaderLen == header.len
        invariant !first ==> pesHeaderLen == 0 && sent == header.len as int + wBytes
        invariant w.data == old(w.data) + done
        invariant Sending(p, first, cc0, if p.isVideo then videoCc else audioCc, sent, done)
        invariant p.isVideo ==> audioCc == old(audioCc)
        invariant !p.isVideo ==> videoCc == old(videoCc)
        decreases packetBytesLen
      {
        ghost var room := 0;
        pesHeaderLen, pesIndex, wBytes, packetBytesLen, done, room :=
          SendCell(p, first, dts, header, pesHeaderLen, pesIndex, wBytes, packetBytesLen, w, cc0, sent, done);
        sent := sent + room;
        first := false;
      }
      AllSent(p, cc0, if p.isVideo then videoCc else audioCc, done);
    }

    method PAT() returns (r: bytes)
      requires Valid()
      modifies this`patCc, pat
      ensures Valid()
      ensures r == pat[..] == TableCell(0, TableCounter(old(patCc)), PAT_SECTION)
      ensures patCc == TableCounter(old(patCc)) + 1
    {
      hide Or, CellHeader, Byte, CrcField, Bv, Gf2.Remainder;
      if patCc > 0xf {
        patCc := 0;
      }
      TableHeaders(patCc);
      ByteIs(patCc + 1);
      var tsHeader: bytes := [0x47, 0x40, 0x00, Byte(Or(0x10, patCc % 16)), 0x00];
      patCc := Byte(patCc + 1);
      PutTable(pat, tsHeader, PAT_SECTION);
      r := pat[..];
    }

    method PMT(soundFormat: byte, hasVideo: bool) returns (r: bytes)
      requires Valid()
      modifies this`pmtCc, pmt
      ensures Valid()
      ensures r == pmt[..] == TableCell(PMT_PID, TableCounter(old(pmtCc)), PmtSection(soundFormat, hasVideo))
      ensures pmtCc == TableCounter(old(pmtCc)) + 1
    {
      hide Or, CellHeader, Byte, CrcField, Bv, Gf2.Remainder, PmtSection;
      var pmtHeader, progInfo := PmtContents(soundFormat, hasVideo);
      if pmtCc > 0xf {
        pmtCc := 0;
      }
      TableHeaders(pmtCc);
      ByteIs(pmtCc + 1);
      var tsHeader: bytes := [0x47, 0x50, 0x01, Byte(Or(0x10, pmtCc % 16)), 0x00];
      pmtCc := Byte(pmtCc + 1);
      PutTable(pmt, tsHeader, pmtHeader + progInfo);
      r := pmt[..];
    }

    method SetAdaptationFlag(p: Packet, first: bool, dts: nat, i: byte)
      requires Valid()
      requires p.isVideo ==> p.header.VideoHeader?
      requires i == if first && IsKey(p) then 12 else 4
      requires var cc := if p.isVideo then videoCc else audioCc;
               tsPacket[..i] == if first && IsKey(p) then KeyHead(cc, dts) else CellHeader(PidOf(p), first, false, cc)
      modifies tsPacket
      ensures var cc := if p.isVideo then videoCc else audioCc;
              tsPacket[..i] == if first && IsKey(p) then KeyHead(cc, dts) else CellHeader(PidOf(p), first, true, cc)
    {
      hide Or;
      var cc := if p.isVideo then videoCc else audioCc;
      assert tsPacket[3] == tsPacket[..i][3];
      HeaderOrs(cc);
      tsPacket[3] := Byte(Or(tsPacket[3], 0x20));
    }
  }

  lemma CellsStep(pid: nat, first: bool, last: nat, rest: bytes)
    requires rest != []
    ensures var cc := (last + 1) % 16;
            var lead := Lead(pid, first, cc, |rest|);
            var room := CELL - |lead|;
            room <= |rest| &&
            Cells(pid, first, last, rest) == lead + rest[..room] + Cells(pid, false, cc, rest[room..])
  {
    hide Lead;
    assert |rest| < ROOM ==> rest[|rest|..] == [];
  }

  lemma KeyStep(last: nat, dts: nat, pes: bytes)
    ensures var cc := (last + 1) % 16;
            var lead := KeyLead(cc, dts, |pes|);
            var room := CELL - |lead|;
            room <= |pes| &&
            Muxed(VIDEO_PID, true, last, dts, pes) == lead + pes[..room] + Cells(VIDEO_PID, false, cc, pes[room..])
  {
    hide KeyLead, Cells;
    assert |pes| < ROOM ==> pes[|pes|..] == [];
  }

  function LeadOf(p: Packet, first: bool, cc: nat, n: nat): (s: bytes)
    requires p.isVideo ==> p.header.VideoHeader?
  {
    if first && IsKey(p) then KeyLead(cc, Dts(p), n) else Lead(PidOf(p), first, cc, n)
  }

  lemma LeadFits(p: Packet, first: bool, cc: nat, n: nat)
    requires p.isVideo ==> p.header.VideoHeader?
    requires n > 0
    ensures var lead := LeadOf(p, first, cc, n);
            4 <= |lead| < CELL && CELL - |lead| <= n && (n >= 19 ==> CELL - |lead| >= 19) &&
            (n < 19 ==> CELL - |lead| == n)
  {
  }

  /** What Mux has achieved after sending the first bytes of the PES packet: what it wrote, together
      with what the specification writes for the rest, is the whole specified stream. */
  ghost predicate Sending(p: Packet, first: bool, cc0: nat, cc: nat, sent: nat, done: bytes)
    requires p.isVideo ==> p.header.VideoHeader?
    requires sent <= |PesOf(p)|
  {
    if first then sent == 0 && done == [] && cc == cc0
    else
      done + Cells(PidOf(p), false, cc, PesOf(p)[sent..]) == MuxBytes(p, cc0) &&
      (cc + CellCount(|PesOf(p)| - sent)) % 16 == NextCounter(p, cc0)
  }

  lemma NothingSent(p: Packet, cc0: nat)
    requires p.isVideo ==> p.header.VideoHeader?
    ensures Sending(p, true, cc0, cc0, 0, [])
  {
  }

  lemma AllSent(p: Packet, cc0: nat, cc: nat, done: bytes)
    requires p.isVideo ==> p.header.VideoHeader?
    requires cc < 16 && Sending(p, false, cc0, cc, |PesOf(p)|, done)
    ensures done == MuxBytes(p, cc0) && cc == NextCounter(p, cc0)
  {
    hide Muxed, PesPacket, MuxedCount;
    assert PesOf(p)[|PesOf(p)|..] == [];
    EmptyCells(PidOf(p), cc);
    assert done + [] == done;
  }

  lemma PesSlice(head: bytes, data: bytes, first: bool, w0: nat, w1: nat, lead: bytes)
    requires w0 <= w1 <= |data| && (first ==> w0 == 0)
    ensures var sent := if first then 0 else |head| + w0;
            lead + (head + data)[sent..|head| + w1] == lead + (if first then head else []) + data[w0..w1]
  {
    if first {
      assert (head + data)[0..|head| + w1] == head + data[0..w1];
    } else {
      assert (head + data)[|head| + w0..|head| + w1] == data[w0..w1];
    }
  }

  /** One turn of Mux's loop writes one packet of the specification. */
  lemma MuxStep(p: Packet, first: bool, cc0: nat, last: nat, sent: nat, done: bytes)
    requires p.isVideo ==> p.header.VideoHeader?
    requires sent < |PesOf(p)|
    requires Sending(p, first, cc0, last, sent, done)
    ensures var cc := (last + 1) % 16;
            var lead := LeadOf(p, first, cc, |PesOf(p)| - sent);
            var room := CELL - |lead|;
            0 <= room <= |PesOf(p)| - sent &&
            Sending(p, false, cc0, cc, sent + room, done + (lead + PesOf(p)[sent..sent + room]))
  {
    hide Lead, KeyLead, Cells, Muxed, PesPacket, CellCount, MuxedCount;
    var pes := PesOf(p);
    var rest := pes[sent..];
    var cc := (last + 1) % 16;
    var lead := LeadOf(p, first, cc, |rest|);
    var room := CELL - |lead|;
    if first && IsKey(p) {
      KeyStep(last, Dts(p), rest);
    } else {
      CellsStep(PidOf(p), first, last, rest);
    }
    assert rest[..room] == pes[sent..sent + room] && rest[room..] == pes[sent + room..];
    if first {
      assert rest == pes;
      PlainMuxed(PidOf(p), cc0, Dts(p), pes);
    }
    AppendCell(done, lead + rest[..room], Cells(PidOf(p), false, cc, rest[room..]));
    CountStep(first && IsKey(p), PidOf(p), first, cc, Dts(p), |rest|);
    AddCounts(last, CellCount(|rest| - room));
  }

  lemma AppendCell(done: bytes, cell: bytes, later: bytes)
    ensures done + cell + later == done + (cell + later)
  {
  }

  lemma CountStep(key: bool, pid: nat, first: bool, cc: nat, dts: nat, n: nat)
    requires n > 0
    ensures var room := CELL - |if key then KeyLead(cc, dts, n) else Lead(pid, first, cc, n)|;
            room <= n && MuxedCount(key, n) == 1 + CellCount(n - room)
    ensures MuxedCount(false, n) == CellCount(n)
  {
  }

  lemma {:induction false} PlainMuxed(pid: nat, cc: nat, dts: nat, pes: bytes)
    ensures Muxed(pid, false, cc, dts, pes) == Cells(pid, true, cc, pes)
  {
  }

  lemma RoomLeft(i: byte)
    requires i == 4 || i == 12
    ensures Byte(ROOM - Byte(i - 4)) == CELL - i
  {
  }

  /** The 8-bit offset arithmetic ends at the right place even where it wraps. */
  lemma StuffingOffsets(first: bool, i: byte, n: nat)
    requires 0 < n < ROOM && (i == 4 || (first && i == 12))
    ensures var remain := if first then Byte(Byte(ROOM - Byte(n)) - Byte(i - 4)) else Byte(ROOM - Byte(n));
            Byte(n) == n && Byte(i + remain) == CELL - n && (i + n <= CELL ==> remain == CELL - n - i)
  {
    hide Byte;
    ByteIs(n);
    ByteIs(ROOM - n);
    ByteIs(i - 4);
    ByteIs(CELL - n);
    if first {
      BorrowedByte(ROOM - n - (i - 4));
      WrappedSum(i, ROOM - n - (i - 4));
    } else {
      ByteIs(i + (ROOM - n));
    }
  }

  /** A difference of two bytes as a byte, and the sum that undoes it. */
  lemma BorrowedByte(d: int)
    requires -0x100 < d < 0x100
    ensures Byte(d) == if d < 0 then d + 0x100 else d
  {
  }

  lemma WrappedSum(i: byte, d: int)
    requires -0x100 < d < 0x100
    ensures Byte(i + Byte(d)) == Byte(i + d)
  {
  }

  lemma StuffingZero()
    ensures Stuffing(0) == []
  {
  }

  lemma {:induction false} HeaderOrs(cc: nat)
    requires cc < 16
    ensures Or(0x30 + cc, 0x20) == 0x30 + cc
    ensures Or(1, 0x40) == 0x41
    ensures Or(0x10, cc % 16) == 0x10 + cc
    ensures Or(0x10 + cc, 0x20) == 0x30 + cc
  {
    hide Or;
    Or6(1, 1);
    Or4(1, cc);
    Or5(1, 0x10 + cc);
    OrAgain(cc);
  }

  /** Setting a bit that is set. */
  lemma OrAgain(cc: nat)
    requires cc < 16
    ensures Or(0x30 + cc, 0x20) == 0x30 + cc
  {
    assert Or(1, 1) == 2 * Or(0, 0) + 1;
    assert Or(3, 2) == 3;
    var a := (0x30 + cc) / 2;
    var b := a / 2;
    var c := b / 2;
    assert c / 2 == 3;
    assert Or(c, 4) == 2 * Or(3, 2) + c % 2;
    assert Or(b, 8) == 2 * Or(c, 4) + b % 2;
    assert Or(a, 16) == 2 * Or(b, 8) + a % 2;
  }

  method PmtContents(soundFormat: byte, hasVideo: bool) returns (pmtHeader: bytes, progInfo: bytes)
    ensures pmtHeader + progInfo == PmtSection(soundFormat, hasVideo)
  {
    hide IsMp3;
    pmtHeader := [0x02, 0xb0, 0xff, 0x00, 0x01, 0xc1, 0x00, 0x00, 0xe1, 0x00, 0xf0, 0x00];
    var audio := if hasVideo then 5 else 0;
    if !hasVideo {
      pmtHeader := pmtHeader[9 := 0x01];
      progInfo := [0x0f, 0xe1, 0x01, 0xf0, 0x00];
    } else {
      progInfo := [0x1b, 0xe1, 0x00, 0xf0, 0x00, 0x0f, 0xe1, 0x01, 0xf0, 0x00];
    }
    pmtHeader := pmtHeader[2 := Byte(|progInfo| + 9 + 4)];
    assert pmtHeader == PmtSection(soundFormat, hasVideo)[..12];
    if soundFormat == 2 || soundFormat == 14 {
      progInfo := progInfo[audio := 0x4];
    }
    Mp3Formats(soundFormat);
    assert progInfo == PmtSection(soundFormat, hasVideo)[12..];
  }

  lemma Mp3Formats(soundFormat: byte)
    ensures IsMp3(soundFormat) <==> soundFormat == 2 || soundFormat == 14
  {
  }

  lemma {:induction false} TableHeaders(cc: nat)
    requires cc < 16
    ensures [0x47, 0x40, 0x00, Byte(Or(0x10, cc % 16)), 0x00] == CellHeader(0, true, false, cc) + [0]
    ensures [0x47, 0x50, 0x01, Byte(Or(0x10, cc % 16)), 0x00] == CellHeader(PMT_PID, true, false, cc) + [0]
  {
    hide Or;
    HeaderOrs(cc);
  }

  /** Lays out a table packet in dst: header, section, its CRC, and 0xff up to the end. */
  method PutTable(dst: array<byte>, tsHeader: bytes, section: bytes)
    requires dst.Length == CELL && |tsHeader| == 5 && |section| <= 179
    modifies dst
    ensures dst[..] == tsHeader + section + CrcField(Gf2.Remainder(Bv(section))) + Fill(179 - |section|)
  {
    hide Gf2.Remainder, Bv, CrcField;
    Copy(dst, 0, tsHeader);
    var i := |tsHeader|;
    Copy(dst, i, section);
    i := i + |section|;
    var crc32Value := GenCrc32(section);
    Copy(dst, i, CrcField(crc32Value));
    i := i + 4;
    FillFrom(dst, i);
  }

  method FillFrom(dst: array<byte>, i: nat)
    requires i <= dst.Length
    modifies dst
    ensures dst[..] == old(dst[..i]) + Fill(dst.Length - i)
  {
    for j := i to dst.Length
      invariant dst[..i] == old(dst[..i])
      invariant forall k :: i <= k < j ==> dst[k] == 0xff
    {
      dst[j] := 0xff;
    }
    assert dst[i..] == Fill(dst.Length - i);
    assert dst[..] == dst[..i] + dst[i..];
  }

  method WritePcr(b: array<byte>, i: nat, pcr: nat)
    requires i + 6 <= b.Length
    modifies b
    ensures b[..i + 6] == old(b[..i]) + Pcr(pcr)
  {
    hide Or, Byte, Pcr;
    PcrBytes(pcr);
    b[i] := Byte(pcr / 0x200_0000);
    b[i + 1] := Byte(pcr / 0x2_0000);
    b[i + 2] := Byte(pcr / 0x200);
    b[i + 3] := Byte(pcr / 2);
    b[i + 4] := Byte(Or(pcr % 2 * 0x80, 0x7e));
    b[i + 5] := 0x00;
    assert b[i..i + 6] == Pcr(pcr);
  }

  lemma {:induction false} PcrBytes(pcr: nat)
    ensures Pcr(pcr) == [Byte(pcr / 0x200_0000), Byte(pcr / 0x2_0000), Byte(pcr / 0x200), Byte(pcr / 2),
                         Byte(Or(pcr % 2 * 0x80, 0x7e)), 0]
  {
    hide Or;
    Or7(pcr % 2, 0x7e);
    assert pcr / 0x200 == pcr / 2 / 0x100;
    assert pcr / 0x2_0000 == pcr / 2 / 0x1_0000;
    assert pcr / 0x200_0000 == pcr / 2 / 0x100_0000;
  }

  /** adaptationBufInit on the part of src that begins at offset. */
  method AdaptationBufInit(src: array<byte>, offset: nat, remainBytes: byte)
    requires offset + 2 <= src.Length
    modifies src
    ensures src[..offset] == old(src[..offset])
    ensures 1 <= remainBytes && offset + remainBytes <= src.Length ==>
              src[..offset + remainBytes] == old(src[..offset]) + Stuffing(remainBytes)
  {
    src[offset] := Byte(remainBytes - 1);
    if remainBytes == 1 {
    } else {
      src[offset + 1] := 0x00;
      for i := 2 to src.Length - offset
        invariant src[..offset] == old(src[..offset])
        invariant src[offset] == Byte(remainBytes - 1) && src[offset + 1] == 0
        invariant forall k :: offset + 2 <= k < offset + i ==> src[k] == 0xff
      {
        src[offset + i] := 0xff;
      }
    }
  }

  /** The clock reference of a keyframe agrees with its decoding time stamp exactly below 2^33 ticks. */
  lemma ClockMatchesStamps(fb: nat, dts: nat)
    requires fb < 16
    ensures PcrBase(Pcr(dts)) == ReadTime(TimeField(fb, dts)) <==> dts < TWO_33
  {
    hide TimeField, ReadTime, Pcr, PcrBase;
    PcrReads(dts);
    TimeIsExactWithin33Bits(fb, dts);
  }
}
