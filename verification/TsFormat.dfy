/** The transport packets the muxer produces for one PES packet, and what a receiver makes of them
    (container/ts/muxer.go:33-158, 257-289). */
module TsFormat {
  import opened Bits
  import opened TsReader

  const VIDEO_PID: nat := 0x100
  const AUDIO_PID: nat := 0x101

  /** Bytes a packet has room for behind its four-byte header. */
  const ROOM := 184

  function CellHeader(pid: nat, first: bool, adaptation: bool, cc: nat): (s: bytes)
    ensures |s| == 4
  {
    [0x47, Byte(pid / 0x100 + (if first then 0x40 else 0)), Byte(pid),
     Byte(0x10 + cc + (if adaptation then 0x20 else 0))]
  }

  function Fill(n: nat): (s: bytes)
    ensures |s| == n
  {
    seq(n, _ => 0xff)
  }

  /** An adaptation field without any flag, n bytes long with its length byte. */
  function Stuffing(n: nat): (s: bytes)
    requires n < 0x100
    ensures |s| == n
  {
    if n == 0 then [] else if n == 1 then [0] else [n - 1, 0] + Fill(n - 2)
  }

  /** The 33-bit clock reference of an adaptation field, six reserved bits and a zero extension. */
  function Pcr(t: nat): (s: bytes)
    ensures |s| == 6
  {
    Be32(t / 2) + [t % 2 * 0x80 + 0x7e, 0]
  }

  /** What stands in a packet before n remaining bytes of a PES packet (or as many as fit).
      Few remaining bytes are pushed to the end of the packet by stuffing. */
  function Lead(pid: nat, first: bool, cc: nat, n: nat): (s: bytes)
    ensures |s| == if n >= ROOM then 4 else CELL - n
  {
    if n >= ROOM then CellHeader(pid, first, false, cc)
    else CellHeader(pid, first, true, cc) + Stuffing(ROOM - n)
  }

  function Cell(pid: nat, first: bool, cc: nat, rest: bytes): (p: bytes)
    ensures |p| == CELL
  {
    var lead := Lead(pid, first, cc, |rest|);
    lead + rest[..CELL - |lead|]
  }

  function Cells(pid: nat, first: bool, cc: nat, rest: bytes): bytes
    decreases |rest|
  {
    if rest == [] then []
    else
      var next := (cc + 1) % 16;
      Cell(pid, first, next, rest) + Cells(pid, false, next, if |rest| >= ROOM then rest[ROOM..] else [])
  }

  /** The first twelve bytes of a keyframe: header and a seven-byte adaptation field with the PCR. */
  function KeyHead(cc: nat, dts: nat): (s: bytes)
    ensures |s| == 12
  {
    CellHeader(VIDEO_PID, true, true, cc) + [7, 0x50] + Pcr(dts)
  }

  /** The same at the start of a keyframe.  Stuffing does not go inside the adaptation field but
      behind it, and between 177 and 183 bytes the 8-bit offset wraps around, so that the PES packet
      starts inside the clock reference. */
  function KeyLead(cc: nat, dts: nat, n: nat): (s: bytes)
    ensures |s| == if n >= ROOM then 12 else CELL - n
  {
    if n >= ROOM then KeyHead(cc, dts)
    else if n <= 176 then KeyHead(cc, dts) + Stuffing(176 - n)
    else KeyHead(cc, dts)[..CELL - n]
  }

  function KeyCell(cc: nat, dts: nat, pes: bytes): (p: bytes)
    ensures |p| == CELL
  {
    var lead := KeyLead(cc, dts, |pes|);
    lead + pes[..CELL - |lead|]
  }

  /** Everything the muxer writes for a PES packet when the last counter of the PID was cc. */
  function Muxed(pid: nat, key: bool, cc: nat, dts: nat, pes: bytes): bytes {
    if key then
      var next := (cc + 1) % 16;
      KeyCell(next, dts, pes) + Cells(pid, false, next, if |pes| >= ROOM then pes[176..] else [])
    else
      Cells(pid, true, cc, pes)
  }

  // ---- reading one packet

  lemma PcrReads(t: nat)
    ensures PcrBase(Pcr(t)) == t % 0x2_0000_0000
  {
    hide Be32, De32;
    Be32Inverse(t / 2);
    assert Pcr(t)[..4] == Be32(t / 2);
  }

  lemma CellReads(pid: nat, first: bool, cc: nat, rest: bytes)
    requires pid < 0x2000 && cc < 16 && rest != []
    ensures var p := Cell(pid, first, cc, rest);
            IsCell(p) && Pid(p) == pid && Counter(p) == cc && StartsUnit(p) == first &&
            Payload(p) == (if |rest| >= ROOM then rest[..ROOM] else rest)
  {
    var p := Cell(pid, first, cc, rest);
    var h := CellHeader(pid, first, |rest| < ROOM, cc);
    assert p[..4] == h;
    assert p[1] == h[1] && p[2] == h[2] && p[3] == h[3];
    HeaderReads(pid, first, |rest| < ROOM, cc);
    if |rest| < ROOM {
      assert p[4] == ROOM - |rest| - 1;
      assert p[Start(p)..] == rest;
    } else {
      assert p[4..] == rest[..ROOM];
    }
  }

  lemma HeaderReads(pid: nat, first: bool, adaptation: bool, cc: nat)
    requires pid < 0x2000 && cc < 16
    ensures var h := CellHeader(pid, first, adaptation, cc);
            (h[1] as int % 0x20) * 0x100 + h[2] as int == pid && (h[1] as int / 0x40 % 2 == 1) == first &&
            h[3] as int % 16 == cc && h[3] as int / 0x10 % 2 == 1 && (h[3] as int / 0x20 % 2 == 1) == adaptation
  {
  }

  // ---- reading a whole PES packet

  function CellCount(n: nat): nat {
    (n + ROOM - 1) / ROOM
  }

  lemma ExtendAgain(units: seq<bytes>, a: bytes, b: bytes)
    ensures Extend(units + [a], b) == units + [a + b]
    ensures Extend(Extend(units, a), b) == Extend(units, a + b)
  {
    assert (units + [a])[..|units|] == units;
    if units != [] {
      var n := |units| - 1;
      assert units[n] + a + b == units[n] + (a + b);
      assert Extend(units, a)[..n] == units[..n];
    }
  }

  lemma AddCounts(cc: nat, k: nat)
    ensures ((cc + 1) % 16 + k) % 16 == (cc + (1 + k)) % 16
  {
  }

  lemma {:induction false} CellsReceived(pid: nat, first: bool, cc: nat, rest: bytes, r: Receiver)
    requires pid < 0x2000 && r.counter == cc < 16
    requires rest != []
    ensures WholeCells(Cells(pid, first, cc, rest))
    ensures Receive(Cells(pid, first, cc, rest), pid, r)
         == Receiver(if first then r.units + [rest] else Extend(r.units, rest),
                     (cc + CellCount(|rest|)) % 16, r.continuous)
    decreases |rest|
  {
    hide IsCell, Pid, Counter, StartsUnit, Payload, Cell, Extend, CellCount;
    var next := (cc + 1) % 16;
    var p := Cell(pid, first, next, rest);
    var later := if |rest| >= ROOM then rest[ROOM..] else [];
    CellReads(pid, first, next, rest);
    ReceiveOne(p, Cells(pid, false, next, later), pid, r);
    CountOne(rest, later);
    if later != [] {
      CellsReceived(pid, false, next, later, Take(r, p, pid));
      assert rest == rest[..ROOM] + later;
      ExtendAgain(r.units, rest[..ROOM], later);
      AddCounts(cc, CellCount(|later|));
    } else {
      EmptyCells(pid, next);
      if |rest| >= ROOM {
        assert rest[..ROOM] == rest;
      }
    }
  }

  lemma CountOne(rest: bytes, later: bytes)
    requires rest != [] && later == if |rest| >= ROOM then rest[ROOM..] else []
    ensures CellCount(|rest|) == 1 + CellCount(|later|) && CellCount(0) == 0
  {
  }

  lemma {:induction false} EmptyCells(pid: nat, cc: nat)
    ensures Cells(pid, false, cc, []) == []
  {
  }

  lemma {:induction false} CellsForOthers(pid: nat, other: nat, first: bool, cc: nat, rest: bytes, r: Receiver)
    requires pid < 0x2000 && other != pid && cc < 16
    ensures Receive(Cells(pid, first, cc, rest), other, r) == r
    decreases |rest|
  {
    hide IsCell, Counter, StartsUnit, Payload, Cell, Pid;
    if rest == [] {
    } else {
      var next := (cc + 1) % 16;
      var later := if |rest| >= ROOM then rest[ROOM..] else [];
      CellReads(pid, first, next, rest);
      ReceiveOne(Cell(pid, first, next, rest), Cells(pid, false, next, later), other, r);
      CellsForOthers(pid, other, false, next, later, r);
    }
  }

  /** What a receiver takes for the payload of a keyframe's first packet. */
  function KeyPayload(pes: bytes): bytes {
    if |pes| >= ROOM then pes[..176]
    else if |pes| <= 176 then Stuffing(176 - |pes|) + pes
    else pes[|pes| - 176..]
  }

  lemma KeyCellBytes(cc: nat, dts: nat, pes: bytes)
    ensures var p := KeyCell(cc, dts, pes);
            p[..5] == CellHeader(VIDEO_PID, true, true, cc) + [7] && p[12..] == KeyPayload(pes) &&
            p[5] == if |pes| == 183 then pes[0] else 0x50
  {
    hide Stuffing, Pcr, CellHeader;
  }

  /** How a receiver reads the first packet of a keyframe.  The flags of the adaptation field are lost
      at 183 bytes, where the PES packet begins in their place; the clock reference is hit from 178 on. */
  lemma KeyCellReads(cc: nat, dts: nat, pes: bytes)
    requires cc < 16
    ensures var p := KeyCell(cc, dts, pes);
            IsCell(p) && Pid(p) == VIDEO_PID && Counter(p) == cc && StartsUnit(p) && Payload(p) == KeyPayload(pes)
    ensures |pes| != 183 ==> HasPcr(KeyCell(cc, dts, pes)) && RandomAccess(KeyCell(cc, dts, pes))
    ensures |pes| == 183 && pes[0] == 0 ==>
              !HasPcr(KeyCell(cc, dts, pes)) && !RandomAccess(KeyCell(cc, dts, pes))
  {
    hide KeyCell, KeyPayload, CellHeader;
    var p := KeyCell(cc, dts, pes);
    var h := CellHeader(VIDEO_PID, true, true, cc);
    HeaderReads(VIDEO_PID, true, true, cc);
    HeaderStarts(VIDEO_PID, true, true, cc);
    KeyCellBytes(cc, dts, pes);
    assert p[0] == p[..5][0] && p[1] == p[..5][1] && p[2] == p[..5][2] && p[3] == p[..5][3] && p[4] == p[..5][4];
  }

  lemma HeaderStarts(pid: nat, first: bool, adaptation: bool, cc: nat)
    ensures CellHeader(pid, first, adaptation, cc)[0] == 0x47
  {
  }

  /** The clock reference itself is whole up to 177 bytes: there only its extension is hit. */
  lemma KeyClockReads(cc: nat, dts: nat, pes: bytes)
    requires |pes| <= 177 || |pes| >= ROOM
    ensures PcrBase(KeyCell(cc, dts, pes)[6..12]) == dts % TWO_33
  {
    hide Stuffing, Pcr, PcrBase, CellHeader;
    var p, h := KeyCell(cc, dts, pes), KeyHead(cc, dts);
    assert p[..11] == h[..11];
    assert p[6..11] == p[..11][6..] && h[6..11] == h[..11][6..];
    assert h[6..12] == Pcr(dts) && h[6..11] == Pcr(dts)[..5];
    assert p[6..12][..5] == p[6..11];
    BaseOfFive(p[6..12], Pcr(dts));
    PcrReads(dts);
  }

  lemma BaseOfFive(s: bytes, t: bytes)
    requires |s| == |t| == 6 && s[..5] == t[..5]
    ensures PcrBase(s) == PcrBase(t)
  {
    assert s[..4] == s[..5][..4] && t[..4] == t[..5][..4];
    assert s[4] == s[..5][4];
  }

  /** The first bytes of a video PES packet: start code, stream id, and the length of the rest. */
  predicate StartsVideoPes(pes: bytes) {
    |pes| >= 14 && pes[..4] == [0, 0, 1, 0xe0] && (|pes| <= 0xffff ==> De16(pes[4..]) == |pes| - 6)
  }

  /** The times whose clock reference is unharmed, by the length of the keyframe's PES packet. */
  predicate ClockFits(dts: nat, n: nat) {
    var x := dts % TWO_33;
    match n
    case 178 => x % 2 == 0
    case 179 => x % 0x200 == 0
    case 180 => x % 0x2_0000 == 0
    case 181 => x % 0x200_0000 == 3
    case 182 => x == 960
    case 183 => false
    case _ => true
  }

  /** A receiver reads the time from a keyframe's first packet exactly then. */
  lemma KeyClockIff(cc: nat, dts: nat, pes: bytes)
    requires cc < 16 && StartsVideoPes(pes)
    ensures var p := KeyCell(cc, dts, pes);
            HasPcr(p) && PcrBase(p[6..12]) == dts % TWO_33 <==> ClockFits(dts, |pes|)
  {
    hide HasPcr, RandomAccess, PcrBase, KeyCell, ClockFits, Pcr;
    KeyCellReads(cc, dts, pes);
    assert pes[0] == pes[..4][0];
    if 178 <= |pes| <= 182 {
      HitClock(cc, dts, pes);
    } else {
      if |pes| != 183 {
        KeyClockReads(cc, dts, pes);
      }
      FitsElsewhere(dts, |pes|);
    }
  }

  lemma FitsElsewhere(dts: nat, n: nat)
    requires n < 178 || n > 182
    ensures ClockFits(dts, n) <==> n != 183
  {
  }

  /** Where the clock reference is hit, the first bytes of the PES packet are read as its last ones. */
  lemma HitClock(cc: nat, dts: nat, pes: bytes)
    requires cc < 16 && StartsVideoPes(pes) && 178 <= |pes| <= 182
    ensures PcrBase(KeyCell(cc, dts, pes)[6..12]) == dts % TWO_33 <==> ClockFits(dts, |pes|)
  {
    hide Pcr, De32, ClockFits, KeyCell;
    var s, t, k := KeyCell(cc, dts, pes)[6..12], Pcr(dts), 182 - |pes|;
    HitBytes(cc, dts, pes);
    assert pes[..6] == [0, 0, 1, 0xe0] + pes[4..6];
    if k == 0 {
      LengthHigh(pes);
    }
    PcrReads(dts);
    BaseBytes(s);
    BaseBytes(t);
    DigitsOf(t[0], t[1], t[2], t[3], t[4] / 0x80, |pes|, dts);
  }

  /** The first bytes of the clock reference that are left, and what follows them. */
  lemma HitBytes(cc: nat, dts: nat, pes: bytes)
    requires 178 <= |pes| <= 182
    ensures KeyCell(cc, dts, pes)[6..12] == Pcr(dts)[..182 - |pes|] + pes[..|pes| - 176]
  {
    hide Pcr, CellHeader;
    var (h, m) := (CellHeader(VIDEO_PID, true, true, cc) + [7, 0x50], CELL - |pes|);
    assert KeyHead(cc, dts) == h + Pcr(dts);
    assert pes[..CELL - m] == pes;
    Splice(h, Pcr(dts), pes, m);
  }

  lemma Splice(h: bytes, t: bytes, d: bytes, m: nat)
    requires |h| == 6 == |t| && 6 <= m <= 12 && |d| >= 12 - m
    ensures ((h + t)[..m] + d)[6..12] == t[..m - 6] + d[..12 - m]
  {
    var x := t[..m - 6];
    assert (h + t)[..m] == h + x;
    assert (h + x + d)[6..12] == (x + d)[..6];
    assert (x + d)[..6] == x + d[..12 - m];
  }

  lemma LengthHigh(pes: bytes)
    requires StartsVideoPes(pes) && |pes| == 182
    ensures pes[4] == 0
  {
  }

  lemma BaseBytes(s: bytes)
    requires |s| == 6
    ensures PcrBase(s) == s[0] as int * 0x200_0000 + s[1] as int * 0x2_0000 + s[2] as int * 0x200 + s[3] as int * 2
      + s[4] as int / 0x80
  {
  }

  lemma DigitsOf(a: byte, b: byte, c: byte, d: byte, e: nat, n: nat, dts: nat)
    requires e < 2 && 178 <= n <= 182
    requires dts % TWO_33 == a as int * 0x200_0000 + b as int * 0x2_0000 + c as int * 0x200 + d as int * 2 + e
    ensures ClockFits(dts, n) <==>
      match n
      case 178 => e == 0
      case 179 => d == 0 && e == 0
      case 180 => c == 0 && d == 0 && e == 0
      case 181 => b == 0 && c == 0 && d == 1 && e == 1
      case _ => a == 0 && b == 0 && c == 1 && d == 0xe0 && e == 0
  {
    var x := dts % TWO_33;
    assert x % 0x200 == d as int * 2 + e;
    assert x % 0x2_0000 == c as int * 0x200 + d as int * 2 + e;
    assert x % 0x200_0000 == b as int * 0x2_0000 + c as int * 0x200 + d as int * 2 + e;
  }

  /** The unit a receiver assembles from what the muxer wrote. */
  function ReceivedUnit(key: bool, pes: bytes): bytes {
    if key && |pes| < ROOM then KeyPayload(pes) else pes
  }

  function MuxedCount(key: bool, n: nat): nat {
    if !key then CellCount(n) else if n < ROOM then 1 else 1 + CellCount(n - 176)
  }

  /** Receiving everything written for one PES packet: one new unit, the counter advanced by the
      number of packets, nothing out of sequence. */
  lemma {:induction false} MuxedReceived(pid: nat, key: bool, cc: nat, dts: nat, pes: bytes, r: Receiver)
    requires pid < 0x2000 && r.counter == cc < 16
    requires pes != [] && (key ==> pid == VIDEO_PID)
    ensures WholeCells(Muxed(pid, key, cc, dts, pes))
    ensures Receive(Muxed(pid, key, cc, dts, pes), pid, r)
         == Receiver(r.units + [ReceivedUnit(key, pes)], (cc + MuxedCount(key, |pes|)) % 16, r.continuous)
  {
    hide Receive, WholeCells, KeyCell, KeyPayload, Cells, CellCount;
    if key {
      KeyMuxedReceived(cc, dts, pes, r);
    } else {
      CellsReceived(pid, true, cc, pes, r);
    }
  }

  lemma {:induction false} KeyMuxedReceived(cc: nat, dts: nat, pes: bytes, r: Receiver)
    requires r.counter == cc < 16
    ensures WholeCells(Muxed(VIDEO_PID, true, cc, dts, pes))
    ensures Receive(Muxed(VIDEO_PID, true, cc, dts, pes), VIDEO_PID, r)
         == Receiver(r.units + [ReceivedUnit(true, pes)], (cc + MuxedCount(true, |pes|)) % 16, r.continuous)
  {
    hide IsCell, Pid, Counter, StartsUnit, Payload, KeyCell, Cells, Extend, Stuffing;
    var next := (cc + 1) % 16;
    var later := if |pes| >= ROOM then pes[176..] else [];
    KeyCellReads(next, dts, pes);
    ReceiveOne(KeyCell(next, dts, pes), Cells(VIDEO_PID, false, next, later), VIDEO_PID, r);
    if later != [] {
      CellsReceived(VIDEO_PID, false, next, later, Take(r, KeyCell(next, dts, pes), VIDEO_PID));
      assert pes == pes[..176] + later;
      ExtendAgain(r.units, pes[..176], later);
      AddCounts(cc, CellCount(|later|));
    } else {
      EmptyCells(VIDEO_PID, next);
    }
  }

  lemma {:induction false} MuxedForOthers(pid: nat, other: nat, key: bool, cc: nat, dts: nat, pes: bytes, r: Receiver)
    requires pid < 0x2000 && other != pid && cc < 16
    requires key ==> pid == VIDEO_PID
    ensures Receive(Muxed(pid, key, cc, dts, pes), other, r) == r
  {
    hide IsCell, Pid, Counter, StartsUnit, Payload, KeyCell, Cells;
    if key {
      var next := (cc + 1) % 16;
      var later := if |pes| >= ROOM then pes[176..] else [];
      KeyCellReads(next, dts, pes);
      ReceiveOne(KeyCell(next, dts, pes), Cells(pid, false, next, later), other, r);
      CellsForOthers(pid, other, false, next, later, r);
    } else {
      CellsForOthers(pid, other, true, cc, pes, r);
    }
  }

  /** Demuxing undoes muxing for every packet but a keyframe whose PES packet is shorter than 184
      bytes and not exactly 176 bytes long. */
  lemma {:induction false} DemuxUndoesMux(pid: nat, key: bool, cc: nat, dts: nat, pes: bytes, r: Receiver)
    requires pid < 0x2000 && r.counter == cc < 16
    requires pes != [] && (key ==> pid == VIDEO_PID)
    ensures Receive(Muxed(pid, key, cc, dts, pes), pid, r).units == r.units + [pes]
       <==> (!key || |pes| >= ROOM || |pes| == 176)
  {
    hide Receive, Muxed;
    MuxedReceived(pid, key, cc, dts, pes, r);
    var u := ReceivedUnit(key, pes);
    assert (r.units + [u])[|r.units|] == u && (r.units + [pes])[|r.units|] == pes;
    if key && |pes| < ROOM {
      assert |u| == 176;
      assert Stuffing(0) + pes == pes;
    }
  }
}
