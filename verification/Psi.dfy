/** The program tables (container/ts/muxer.go:160-255; ISO/IEC 13818-1, sections 2.4.4.3 and
    2.4.4.8), and a receiver that checks and reads them. */
module Psi {
  import opened Bits
  import opened Gf2
  import opened Crc32
  import opened TsReader
  import opened TsFormat

  const PMT_PID: nat := 0x1001

  // ---- what the muxer writes

  /** A section in a packet of its own: pointer field, section, CRC, and 0xff to the end. */
  function TableCell(pid: nat, cc: nat, section: bytes): (p: bytes)
    requires |section| <= 179
    ensures |p| == CELL
  {
    CellHeader(pid, true, false, cc) + [0] + section + CrcField(Remainder(Bv(section))) + Fill(179 - |section|)
  }

  /** The PAT lists one program, number 1, whose map is on PMT_PID. */
  const PAT_SECTION: bytes := [0x00, 0xb0, 0x0d, 0x00, 0x01, 0xc1, 0x00, 0x00, 0x00, 0x01, 0xf0, 0x01]

  predicate IsMp3(soundFormat: byte) { soundFormat == 2 || soundFormat == 14 }

  function AudioType(soundFormat: byte): byte { if IsMp3(soundFormat) then 0x04 else 0x0f }

  function PmtStreams(soundFormat: byte, hasVideo: bool): bytes {
    (if hasVideo then [0x1b, 0xe1, 0x00, 0xf0, 0x00] else []) + [AudioType(soundFormat), 0xe1, 0x01, 0xf0, 0x00]
  }

  function PmtSection(soundFormat: byte, hasVideo: bool): (s: bytes)
    ensures |s| == if hasVideo then 22 else 17
  {
    [0x02, 0xb0, if hasVideo then 23 else 18, 0x00, 0x01, 0xc1, 0x00, 0x00, 0xe1, if hasVideo then 0 else 1, 0xf0, 0x00]
    + PmtStreams(soundFormat, hasVideo)
  }

  /** The counter a table packet carries, and the one kept for the next. */
  function TableCounter(kept: nat): nat { if kept > 0xf then 0 else kept }

  // ---- what a receiver reads

  datatype Table =
    | Bad
    | Programs(map<nat, nat>)
    | Streams(pcrPid: nat, types: map<nat, byte>)

  /** A section with a correct length and CRC, without the CRC. */
  function Section(payload: bytes): (s: bytes) {
    if |payload| < 4 || payload[0] != 0 then []
    else
      var length := 3 + (payload[2] as int % 16) * 0x100 + payload[3] as int;
      if length < 12 || 1 + length > |payload| then []
      else if Crc(0xFFFF_FFFF, Bv(payload[1..1 + length])) != 0 then []
      else payload[1..1 + length - 4]
  }

  function Pid13(hi: byte, lo: byte): nat { (hi as int % 0x20) * 0x100 + lo as int }

  function ReadPrograms(s: bytes): map<nat, nat> {
    if |s| < 4 then map[] else ReadPrograms(s[4..])[s[0] as int * 0x100 + s[1] as int := Pid13(s[2], s[3])]
  }

  function ReadStreams(s: bytes): map<nat, byte>
    decreases |s|
  {
    if |s| < 5 then map[]
    else
      var skip := 5 + (s[3] as int % 16) * 0x100 + s[4] as int;
      (if skip <= |s| then ReadStreams(s[skip..]) else map[])[Pid13(s[1], s[2]) := s[0]]
  }

  function ReadTable(p: bytes): Table {
    var s := if IsCell(p) && StartsUnit(p) then Section(Payload(p)) else [];
    if |s| < 8 || s[5] % 2 == 0 then Bad
    else if s[0] == 0 then Programs(ReadPrograms(s[8..]))
    else if s[0] == 2 && |s| >= 12 && 12 + (s[10] as int % 16) * 0x100 + s[11] as int <= |s| then
      Streams(Pid13(s[8], s[9]), ReadStreams(s[12 + (s[10] as int % 16) * 0x100 + s[11] as int..]))
    else Bad
  }

  // ---- the two agree

  lemma TableCellReads(pid: nat, cc: nat, section: bytes)
    requires pid < 0x2000 && cc < 16
    requires 8 <= |section| <= 179
    requires (section[1] as int % 16) * 0x100 + section[2] as int == |section| + 1
    ensures var p := TableCell(pid, cc, section);
            IsCell(p) && StartsUnit(p) && Pid(p) == pid && Counter(p) == cc && Section(Payload(p)) == section
  {
    hide Remainder, Crc, CrcField, CellHeader;
    var crc := CrcField(Remainder(Bv(section)));
    var h := CellHeader(pid, true, false, cc);
    var p := TableCell(pid, cc, section);
    HeaderReads(pid, true, false, cc);
    HeaderStarts(pid, true, false, cc);
    assert p[..4] == h;
    assert p[0] == h[0] && p[1] == h[1] && p[2] == h[2] && p[3] == h[3];
    var payload := p[4..];
    var n := |section| + 4;
    assert payload == [0] + section + crc + Fill(179 - |section|);
    assert payload[1..1 + n] == section + crc;
    assert payload[2] == section[1] && payload[3] == section[2];
    SectionResidue(section);
    assert payload[1..1 + n - 4] == section;
  }

  lemma SectionResidue(section: bytes)
    ensures Crc(0xFFFF_FFFF, Bv(section + CrcField(Remainder(Bv(section))))) == 0
  {
    hide Remainder, Crc, Bv, CrcField;
    var c := Remainder(Bv(section));
    BvAppend(section, CrcField(c));
    BvCrcField(c);
    CrcIsDivision(Bv(section));
    Residue(Bv(section));
  }

  /** A receiver accepts the PAT and finds program 1 on the PID that carries the PMT. */
  lemma PatReads(cc: nat)
    requires cc < 16
    ensures var p := TableCell(0, cc, PAT_SECTION);
            Pid(p) == 0 && Counter(p) == cc && ReadTable(p) == Programs(map[1 := 0x1001])
  {
    hide TableCell, Section, IsCell, StartsUnit, Payload, Pid, Counter;
    TableCellReads(0, cc, PAT_SECTION);
    assert PAT_SECTION[8..] == [0x00, 0x01, 0xf0, 0x01];
    assert PAT_SECTION[8..][4..] == [];
    assert ReadPrograms([]) == map[];
  }

  /** Both tables as section 2.4.4 of ISO/IEC 13818-1 has them: their table id, stream and program number 1, version 0
      in force, and the only section there is. */
  lemma TablesSay(soundFormat: byte, hasVideo: bool)
    ensures var (a, b) := (PAT_SECTION, PmtSection(soundFormat, hasVideo));
            |a| >= 8 && |b| >= 8 && a[0] == 0 && b[0] == 2 &&
            De16(a[3..]) == 1 && De16(b[3..]) == 1 && a[5] / 2 % 32 == 0 && b[5] / 2 % 32 == 0 &&
            a[5] % 2 == 1 && b[5] % 2 == 1 && a[6] == a[7] == b[6] == b[7] == 0 && a[1] / 0x80 == b[1] / 0x80 == 1
  {
  }

  lemma StreamsRead(soundFormat: byte, hasVideo: bool)
    ensures ReadStreams(PmtStreams(soundFormat, hasVideo)) ==
      if hasVideo then map[VIDEO_PID := 0x1b, AUDIO_PID := AudioType(soundFormat)]
      else map[AUDIO_PID := AudioType(soundFormat)]
  {
    var streams := PmtStreams(soundFormat, hasVideo);
    assert ReadStreams([]) == map[];
    var audio: bytes := [AudioType(soundFormat), 0xe1, 0x01, 0xf0, 0x00];
    assert audio[5..] == [];
    assert ReadStreams(audio) == map[AUDIO_PID := AudioType(soundFormat)];
    if hasVideo {
      assert streams[5..] == audio;
    } else {
      assert streams == audio;
    }
  }

  /** The fixed part of the section. */
  lemma PmtFields(soundFormat: byte, hasVideo: bool)
    ensures var s := PmtSection(soundFormat, hasVideo);
            s[0] == 2 && s[1] as int % 16 == 0 && s[2] == |s| + 1 && s[5] == 0xc1 &&
            Pid13(s[8], s[9]) == (if hasVideo then VIDEO_PID else AUDIO_PID) &&
            s[10] as int % 16 == 0 && s[11] == 0 && s[12..] == PmtStreams(soundFormat, hasVideo)
  {
  }

  /** A receiver accepts the PMT and finds the two PIDs the muxer uses, with the clock on the video
      PID if there is video and on the audio PID otherwise. */
  lemma PmtReads(cc: nat, soundFormat: byte, hasVideo: bool)
    requires cc < 16
    ensures var p := TableCell(PMT_PID, cc, PmtSection(soundFormat, hasVideo));
            var audio: byte := if soundFormat == 2 || soundFormat == 14 then 0x04 else 0x0f;
            Pid(p) == 0x1001 && Counter(p) == cc &&
            ReadTable(p) == Streams(if hasVideo then 0x100 else 0x101,
                                    if hasVideo then map[0x100 := 0x1b, 0x101 := audio] else map[0x101 := audio])
  {
    hide TableCell, Section, IsCell, StartsUnit, Payload, Pid, Counter, PmtSection, PmtStreams, ReadStreams, Pid13;
    PmtFields(soundFormat, hasVideo);
    StreamsRead(soundFormat, hasVideo);
    TableCellReads(PMT_PID, cc, PmtSection(soundFormat, hasVideo));
  }
}
