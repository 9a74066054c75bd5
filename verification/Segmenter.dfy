/** The HLS segmenter as a state machine over frames (protocol/hls/source.go:187-208, 244-276;
    status.go; align.go; audio_cache.go), and what a receiver gets from all it has published. */
module Segmenter {
  import opened Bits
  import opened Av
  import opened Pes
  import opened TsReader
  import opened TsFormat
  import opened Psi
  import opened TsMuxer
  import opened HlsCache

  const DURATION := 3000
  const CACHE_MAX_FRAMES := 6
  const SYNC_TICKS := 180

  // ---- the parts of the state

  datatype Status = Status(hasSetFirstTs: bool, firstTimestamp: int, lastTimestamp: int)

  function Update(t: Status, timestamp: uint32): Status {
    Status(true, if t.hasSetFirstTs then t.firstTimestamp else timestamp, timestamp)
  }

  function DurationMs(t: Status): int { t.lastTimestamp - t.firstTimestamp }

  datatype Align = Align(frameNum: nat, frameBase: nat)

  /** The audio clock runs on by whole frames while the time stamps stay within two milliseconds. */
  function Aligned(a: Align, dts: nat, inc: nat): (Align, nat) {
    var est := a.frameBase + a.frameNum * inc;
    var diff := if est >= dts then est - dts else dts - est;
    if diff <= SYNC_TICKS then (Align(a.frameNum + 1, a.frameBase), est) else (Align(1, dts), dts)
  }

  /** Audio frames waiting to be sent as one PES packet; pts is that of the first. */
  datatype Group = Group(frames: seq<bytes>, pts: nat)

  function Concat(parts: seq<bytes>): bytes {
    if parts == [] then [] else Concat(parts[..|parts| - 1]) + parts[|parts| - 1]
  }

  function AddFrame(g: Group, frame: bytes, pts: nat): Group {
    Group(g.frames + [frame], if g.frames == [] then pts else g.pts)
  }

  /** The packet muxAudio builds from a group. */
  function GroupPacket(g: Group): Packet {
    Packet(false, false, false, g.pts / 90 % 0x1_0000_0000, NoHeader, Concat(g.frames))
  }

  // ---- the state

  /** published and groups are the whole history; the window of three items is a part of it. */
  datatype Seg = Seg(open: bytes, started: bool, seqNum: nat,
                     videoCc: nat, audioCc: nat, patCc: nat, pmtCc: nat,
                     stat: Status, align: Align, pts: nat, dts: nat, cache: Group,
                     published: seq<Put>, groups: seq<Group>)

  const INITIAL := Seg([], false, 0, 0, 0, 0, 0, Status(false, 0, 0), Align(0, 0), 0, 0, Group([], 0), [], [])

  /** A frame is a packet the codec parser has accepted; a video frame has a video header. */
  predicate IsFrame(p: Packet) {
    p.isVideo ==> p.header.VideoHeader?
  }

  function MuxInto(s: Seg, p: Packet): Seg
    requires IsFrame(p)
  {
    if p.isVideo then s.(open := s.open + MuxBytes(p, s.videoCc), videoCc := NextCounter(p, s.videoCc))
    else s.(open := s.open + MuxBytes(p, s.audioCc), audioCc := NextCounter(p, s.audioCc))
  }

  function MuxAudio(s: Seg, limit: nat): Seg {
    if |s.cache.frames| < limit then s
    else MuxInto(s, GroupPacket(s.cache)).(cache := s.cache.(frames := []), groups := s.groups + [s.cache])
  }

  function Tables(patCc: nat, pmtCc: nat): bytes {
    TableCell(0, TableCounter(patCc), PAT_SECTION)
    + TableCell(PMT_PID, TableCounter(pmtCc), PmtSection(SOUND_AAC, true))
  }

  function WriteTables(s: Seg): Seg {
    s.(open := s.open + Tables(s.patCc, s.pmtCc),
       patCc := TableCounter(s.patCc) + 1, pmtCc := TableCounter(s.pmtCc) + 1)
  }

  function Publish(s: Seg, name: string): Seg {
    s.(open := [], seqNum := s.seqNum + 1, stat := s.stat.(hasSetFirstTs := false),
       published := s.published + [Put(name, TSItem(name, s.seqNum + 1, DurationMs(s.stat), s.open))])
  }

  /** At a keyframe: starts the first segment, or ends a segment that is long enough. */
  function Cut(s: Seg, name: string): Seg {
    if !s.started then WriteTables(s.(started := true))
    else if DurationMs(s.stat) >= DURATION then WriteTables(Publish(MuxAudio(s, 1), name))
    else s
  }

  function CalcPtsDts(s: Seg, p: Packet, inc: nat): Seg
    requires IsFrame(p)
  {
    var dts := p.timeStamp * 90;
    if p.isVideo then s.(dts := dts, pts := dts + p.header.compositionTime % 0x1_0000_0000 * 90)
    else var (a, d) := Aligned(s.align, dts, inc); s.(align := a, dts := d, pts := d)
  }

  function TsMux(s: Seg, p: Packet): Seg
    requires IsFrame(p)
  {
    if p.isVideo then MuxInto(s, p)
    else MuxAudio(s.(cache := AddFrame(s.cache, p.data, s.pts)), CACHE_MAX_FRAMES)
  }

  /** One accepted frame; inc is the length of an audio frame in ticks, name that of a segment that
      may end here. */
  datatype Event = Event(p: Packet, inc: nat, name: string)

  function Step(s: Seg, e: Event): Seg
    requires IsFrame(e.p)
  {
    var s1 := if IsKey(e.p) then Cut(s, e.name) else s;
    if !s1.started then s1
    else TsMux(CalcPtsDts(s1.(stat := Update(s1.stat, e.p.timeStamp)), e.p, e.inc), e.p)
  }

  predicate AllFrames(es: seq<Event>) {
    forall i :: 0 <= i < |es| ==> IsFrame(es[i].p)
  }

  function Run(es: seq<Event>): Seg
    requires AllFrames(es)
  {
    if es == [] then INITIAL
    else var n := |es| - 1; Step(Run(es[..n]), es[n])
  }

  // ---- what a receiver gets

  function AllData(puts: seq<Put>): bytes {
    if puts == [] then [] else AllData(puts[..|puts| - 1]) + puts[|puts| - 1].item.data
  }

  /** All published segments and the one being written, one after the other. */
  function Stream(s: Seg): bytes {
    AllData(s.published) + s.open
  }

  /** A receiver before the first packet; the tables start counting at 0, the frames at 1. */
  function Fresh(pid: nat): Receiver {
    Receiver([], if pid == VIDEO_PID || pid == AUDIO_PID then 0 else 15, true)
  }

  function Rx(s: Seg, pid: nat): Receiver {
    Receive(Stream(s), pid, Fresh(pid))
  }

  /** Whole packets, and counters without a gap that agree with those the muxer keeps. */
  ghost predicate Good(s: Seg) {
    s.videoCc < 16 && s.audioCc < 16 && s.patCc <= 16 && s.pmtCc <= 16 &&
    WholeCells(Stream(s)) &&
    Rx(s, VIDEO_PID).counter == s.videoCc && Rx(s, VIDEO_PID).continuous &&
    Rx(s, AUDIO_PID).counter == s.audioCc && Rx(s, AUDIO_PID).continuous &&
    (Rx(s, 0).counter + 1) % 16 == TableCounter(s.patCc) && Rx(s, 0).continuous &&
    (Rx(s, PMT_PID).counter + 1) % 16 == TableCounter(s.pmtCc) && Rx(s, PMT_PID).continuous
  }

  lemma {:induction false} AppendOpen(s: Seg, more: bytes, pid: nat)
    requires WholeCells(Stream(s)) && WholeCells(more)
    ensures var s' := s.(open := s.open + more);
            WholeCells(Stream(s')) && Rx(s', pid) == Receive(more, pid, Rx(s, pid))
  {
    hide Receive, WholeCells, AllData;
    var a := AllData(s.published);
    assert a + (s.open + more) == a + s.open + more;
    WholeAppend(Stream(s), more);
    ReceiveAppend(Stream(s), more, pid, Fresh(pid));
  }

  lemma MuxIntoGood(s: Seg, p: Packet)
    requires Good(s) && IsFrame(p)
    ensures Good(MuxInto(s, p))
    ensures var s' := MuxInto(s, p);
            Rx(s', PidOf(p)).units == Rx(s, PidOf(p)).units + [ReceivedUnit(IsKey(p), PesOf(p))] &&
            (!p.isVideo ==> Rx(s', VIDEO_PID).units == Rx(s, VIDEO_PID).units) &&
            (p.isVideo ==> Rx(s', AUDIO_PID).units == Rx(s, AUDIO_PID).units)
  {
    hide Rx, Stream, WholeCells, MuxedCount, ReceivedUnit, Muxed, PesOf;
    var cc := if p.isVideo then s.videoCc else s.audioCc;
    var more := MuxBytes(p, cc);
    MuxedReceived(PidOf(p), IsKey(p), cc, Dts(p), PesOf(p), Rx(s, PidOf(p)));
    AppendOpen(s, more, VIDEO_PID);
    AppendOpen(s, more, AUDIO_PID);
    AppendOpen(s, more, 0);
    AppendOpen(s, more, PMT_PID);
    var other := if p.isVideo then AUDIO_PID else VIDEO_PID;
    MuxedForOthers(PidOf(p), other, IsKey(p), cc, Dts(p), PesOf(p), Rx(s, other));
    MuxedForOthers(PidOf(p), 0, IsKey(p), cc, Dts(p), PesOf(p), Rx(s, 0));
    MuxedForOthers(PidOf(p), PMT_PID, IsKey(p), cc, Dts(p), PesOf(p), Rx(s, PMT_PID));
    SameStream(MuxInto(s, p), s.(open := s.open + more));
  }

  lemma SameStream(s: Seg, t: Seg)
    requires s.published == t.published && s.open == t.open
    ensures Stream(s) == Stream(t)
    ensures forall pid :: Rx(s, pid) == Rx(t, pid)
  {
  }

  lemma TablesGood(s: Seg)
    requires Good(s)
    ensures Good(WriteTables(s))
    ensures Rx(WriteTables(s), VIDEO_PID).units == Rx(s, VIDEO_PID).units
    ensures Rx(WriteTables(s), AUDIO_PID).units == Rx(s, AUDIO_PID).units
  {
    hide Rx, Stream, WholeCells, Receive, TableCell, PmtSection;
    var more := Tables(s.patCc, s.pmtCc);
    TablesReceived(s.patCc, s.pmtCc, 0, Rx(s, 0));
    TablesReceived(s.patCc, s.pmtCc, PMT_PID, Rx(s, PMT_PID));
    TablesReceived(s.patCc, s.pmtCc, VIDEO_PID, Rx(s, VIDEO_PID));
    TablesReceived(s.patCc, s.pmtCc, AUDIO_PID, Rx(s, AUDIO_PID));
    AppendOpen(s, more, VIDEO_PID);
    AppendOpen(s, more, AUDIO_PID);
    AppendOpen(s, more, 0);
    AppendOpen(s, more, PMT_PID);
    SameStream(WriteTables(s), s.(open := s.open + more));
  }

  lemma {:induction false} TablesReceived(patCc: nat, pmtCc: nat, pid: nat, r: Receiver)
    requires patCc <= 16 && pmtCc <= 16
    requires pid == 0 || pid == PMT_PID || pid == VIDEO_PID || pid == AUDIO_PID
    ensures WholeCells(Tables(patCc, pmtCc))
    ensures var r' := Receive(Tables(patCc, pmtCc), pid, r);
            if pid == 0 then
              r'.counter == TableCounter(patCc) &&
              r'.continuous == (r.continuous && TableCounter(patCc) == (r.counter + 1) % 16)
            else if pid == PMT_PID then
              r'.counter == TableCounter(pmtCc) &&
              r'.continuous == (r.continuous && TableCounter(pmtCc) == (r.counter + 1) % 16)
            else r' == r
  {
    hide TableCell, IsCell, Pid, Counter, StartsUnit, Payload, Section, PmtSection;
    var a := TableCell(0, TableCounter(patCc), PAT_SECTION);
    var b := TableCell(PMT_PID, TableCounter(pmtCc), PmtSection(SOUND_AAC, true));
    SectionLengths();
    TableCellReads(0, TableCounter(patCc), PAT_SECTION);
    TableCellReads(PMT_PID, TableCounter(pmtCc), PmtSection(SOUND_AAC, true));
    ReceiveOne(a, b, pid, r);
    assert b + [] == b;
    ReceiveOne(b, [], pid, Take(r, a, pid));
  }

  lemma SectionLengths()
    ensures |PAT_SECTION| == 12 && PAT_SECTION[1] == 0xb0 && PAT_SECTION[2] == 13
    ensures var s := PmtSection(SOUND_AAC, true);
            |s| == 22 && s[1] == 0xb0 && s[2] == 23
  {
  }

  lemma PublishGood(s: Seg, name: string)
    requires Good(s)
    ensures Good(Publish(s, name)) && forall pid :: Rx(Publish(s, name), pid) == Rx(s, pid)
  {
    hide Receive, WholeCells;
    var s' := Publish(s, name);
    assert s'.published[..|s.published|] == s.published;
    assert Stream(s') == Stream(s);
    assert forall pid :: Rx(s', pid) == Rx(s, pid);
  }

  function GroupUnits(groups: seq<Group>): seq<bytes> {
    if groups == [] then []
    else GroupUnits(groups[..|groups| - 1]) + [PesOf(GroupPacket(groups[|groups| - 1]))]
  }

  /** Good, and the audio units received are the groups sent. */
  ghost predicate Sound(s: Seg) {
    Good(s) && Rx(s, AUDIO_PID).units == GroupUnits(s.groups)
  }

  lemma MuxAudioSound(s: Seg, limit: nat)
    requires Sound(s)
    ensures Sound(MuxAudio(s, limit)) && Rx(MuxAudio(s, limit), VIDEO_PID).units == Rx(s, VIDEO_PID).units
  {
    hide Good, Rx, MuxInto, PesOf;
    if |s.cache.frames| >= limit {
      var p := GroupPacket(s.cache);
      var t := MuxInto(s, p);
      MuxIntoGood(s, p);
      var s' := MuxAudio(s, limit);
      assert s'.groups[..|s.groups|] == s.groups;
      GoodFrame(t, s');
    }
  }

  /** Good depends on the stream and the counters alone. */
  lemma GoodFrame(s: Seg, t: Seg)
    requires Good(s)
    requires s.published == t.published && s.open == t.open
    requires s.videoCc == t.videoCc && s.audioCc == t.audioCc && s.patCc == t.patCc && s.pmtCc == t.pmtCc
    ensures Good(t) && forall pid :: Rx(t, pid) == Rx(s, pid)
  {
    hide Receive, WholeCells, Stream;
    SameStream(s, t);
  }

  lemma CutSound(s: Seg, name: string)
    requires Sound(s)
    ensures Sound(Cut(s, name)) && Rx(Cut(s, name), VIDEO_PID).units == Rx(s, VIDEO_PID).units
  {
    hide Good, Rx, WriteTables, Publish, MuxAudio;
    if !s.started {
      var t := s.(started := true);
      GoodFrame(s, t);
      TablesGood(t);
      HistoryKept(t, name);
    } else if DurationMs(s.stat) >= DURATION {
      var t := MuxAudio(s, 1);
      MuxAudioSound(s, 1);
      PublishGood(t, name);
      TablesGood(Publish(t, name));
      HistoryKept(t, name);
      HistoryKept(Publish(t, name), name);
    }
  }

  lemma HistoryKept(s: Seg, name: string)
    ensures WriteTables(s).groups == s.groups && Publish(s, name).groups == s.groups
  {
  }

  /** One step: a frame that is accepted after the first keyframe adds its own unit, and nothing else,
      to what a receiver gets; all counters go on without a gap. */
  lemma StepSound(s: Seg, e: Event)
    requires Sound(s) && IsFrame(e.p)
    ensures var s' := Step(s, e);
            Sound(s') &&
            Rx(s', VIDEO_PID).units == Rx(s, VIDEO_PID).units +
              (if s'.started && e.p.isVideo then [ReceivedUnit(IsKey(e.p), PesOf(e.p))] else [])
  {
    hide Good, Rx, Cut, MuxInto, MuxAudio, PesOf, Aligned;
    var s1 := if IsKey(e.p) then Cut(s, e.name) else s;
    if IsKey(e.p) {
      CutSound(s, e.name);
    }
    if s1.started {
      var s2 := s1.(stat := Update(s1.stat, e.p.timeStamp));
      var s3 := CalcPtsDts(s2, e.p, e.inc);
      GoodFrame(s1, s3);
      if e.p.isVideo {
        MuxIntoGood(s3, e.p);
        MuxIntoKeeps(s3, e.p);
      } else {
        var s4 := s3.(cache := AddFrame(s3.cache, e.p.data, s3.pts));
        GoodFrame(s3, s4);
        MuxAudioSound(s4, CACHE_MAX_FRAMES);
        MuxAudioKeeps(s4, CACHE_MAX_FRAMES);
      }
    }
  }

  lemma MuxIntoKeeps(s: Seg, p: Packet)
    requires IsFrame(p)
    ensures MuxInto(s, p).(open := s.open, videoCc := s.videoCc, audioCc := s.audioCc) == s
  {
  }

  lemma MuxAudioKeeps(s: Seg, limit: nat)
    ensures MuxAudio(s, limit).(open := s.open, audioCc := s.audioCc, cache := s.cache, groups := s.groups) == s
  {
  }

  // ---- whole runs

  /** The position of the first keyframe, or the number of events. */
  function FirstKey(es: seq<Event>): (k: nat)
    requires AllFrames(es)
    ensures k <= |es|
    ensures forall i :: 0 <= i < k ==> !IsKey(es[i].p)
    ensures k < |es| ==> IsKey(es[k].p)
  {
    if es == [] then 0
    else
      var k := FirstKey(es[..|es| - 1]);
      if k == |es| - 1 && !IsKey(es[k].p) then |es| else k
  }

  function SinceKey(es: seq<Event>): (r: seq<Event>)
    requires AllFrames(es)
    ensures AllFrames(r)
  {
    es[FirstKey(es)..]
  }

  /** The PES packets of the video frames, as a receiver gets them. */
  function VideoUnits(es: seq<Event>): seq<bytes>
    requires AllFrames(es)
  {
    if es == [] then []
    else
      var p := es[|es| - 1].p;
      VideoUnits(es[..|es| - 1]) + (if p.isVideo then [ReceivedUnit(IsKey(p), PesOf(p))] else [])
  }

  function AudioFrames(es: seq<Event>): seq<bytes> {
    if es == [] then []
    else
      var p := es[|es| - 1].p;
      AudioFrames(es[..|es| - 1]) + (if p.isVideo then [] else [p.data])
  }

  function GroupedFrames(groups: seq<Group>): seq<bytes> {
    if groups == [] then [] else GroupedFrames(groups[..|groups| - 1]) + groups[|groups| - 1].frames
  }

  /** No audio frame is lost, repeated or moved: those sent in groups, then those waiting. */
  predicate AudioKept(s: Seg, frames: seq<bytes>) {
    GroupedFrames(s.groups) + s.cache.frames == frames &&
    |s.cache.frames| < CACHE_MAX_FRAMES &&
    forall i :: 0 <= i < |s.groups| ==> 1 <= |s.groups[i].frames| <= CACHE_MAX_FRAMES
  }

  lemma SinceKeyGrows(es: seq<Event>)
    requires es != [] && AllFrames(es)
    ensures var before, e := es[..|es| - 1], es[|es| - 1];
            SinceKey(es) == (if FirstKey(before) == |before| && !IsKey(e.p) then [] else SinceKey(before) + [e]) &&
            (FirstKey(before) == |before| ==> SinceKey(before) == []) &&
            (FirstKey(es) < |es| <==> FirstKey(before) < |before| || IsKey(e.p))
  {
    var before := es[..|es| - 1];
    var k := FirstKey(before);
    if k == |before| && !IsKey(es[|es| - 1].p) {
      assert FirstKey(es) == |es|;
    } else {
      assert FirstKey(es) == k;
      assert es[k..] == before[k..] + [es[|es| - 1]];
    }
  }

  lemma MuxAudioKept(s: Seg, limit: nat, frames: seq<bytes>)
    requires 1 <= limit && |s.cache.frames| <= CACHE_MAX_FRAMES
    requires GroupedFrames(s.groups) + s.cache.frames == frames
    requires forall i :: 0 <= i < |s.groups| ==> 1 <= |s.groups[i].frames| <= CACHE_MAX_FRAMES
    requires limit <= CACHE_MAX_FRAMES
    ensures AudioKept(MuxAudio(s, limit), frames)
  {
    hide MuxInto;
    if |s.cache.frames| >= limit {
      var t := MuxInto(s, GroupPacket(s.cache));
      MuxIntoKeeps(s, GroupPacket(s.cache));
      assert (s.groups + [s.cache])[..|s.groups|] == s.groups;
    }
  }

  lemma CutKept(s: Seg, name: string, frames: seq<bytes>)
    requires AudioKept(s, frames)
    ensures AudioKept(Cut(s, name), frames) && Cut(s, name).started
  {
    hide MuxAudio, Tables;
    if s.started && DurationMs(s.stat) >= DURATION {
      MuxAudioKept(s, 1, frames);
      MuxAudioKeeps(s, 1);
    }
  }

  lemma StepKept(s: Seg, e: Event, frames: seq<bytes>)
    requires AudioKept(s, frames) && IsFrame(e.p)
    ensures var s' := Step(s, e);
            s'.started == (s.started || IsKey(e.p)) &&
            AudioKept(s', if s'.started && !e.p.isVideo then frames + [e.p.data] else frames)
  {
    hide Cut, MuxInto, MuxAudio, Aligned, GroupedFrames;
    var s1 := if IsKey(e.p) then Cut(s, e.name) else s;
    if IsKey(e.p) {
      CutKept(s, e.name, frames);
    }
    if s1.started {
      var s3 := CalcPtsDts(s1.(stat := Update(s1.stat, e.p.timeStamp)), e.p, e.inc);
      assert s3.groups == s1.groups && s3.cache == s1.cache;
      if e.p.isVideo {
        MuxIntoKeeps(s3, e.p);
      } else {
        var s4 := s3.(cache := AddFrame(s3.cache, e.p.data, s3.pts));
        assert GroupedFrames(s1.groups) + (s1.cache.frames + [e.p.data]) == frames + [e.p.data];
        MuxAudioKept(s4, CACHE_MAX_FRAMES, frames + [e.p.data]);
        MuxAudioKeeps(s4, CACHE_MAX_FRAMES);
      }
    }
  }

  lemma InitialSound()
    ensures Sound(INITIAL) && AudioKept(INITIAL, []) && Rx(INITIAL, VIDEO_PID).units == []
  {
    assert Stream(INITIAL) == [];
  }

  lemma SinceKeyUnits(es: seq<Event>)
    requires es != [] && AllFrames(es)
    ensures var before, e := es[..|es| - 1], es[|es| - 1];
            var counts := FirstKey(es) < |es|;
            VideoUnits(SinceKey(es)) == VideoUnits(SinceKey(before)) +
              (if counts && e.p.isVideo then [ReceivedUnit(IsKey(e.p), PesOf(e.p))] else []) &&
            AudioFrames(SinceKey(es)) == AudioFrames(SinceKey(before)) +
              (if counts && !e.p.isVideo then [e.p.data] else [])
  {
    hide PesOf, ReceivedUnit, SinceKey, FirstKey;
    SinceKeyGrows(es);
    var before, r := es[..|es| - 1], SinceKey(es);
    if r != [] {
      assert r[..|r| - 1] == SinceKey(before) && r[|r| - 1] == es[|es| - 1];
    }
  }

  /** At any moment of any run, a receiver of everything published and of the open segment has got
      exactly the PES packets of the video frames since the first keyframe, in order, and the groups
      of audio frames sent; every counter has gone up by one from packet to packet, across cuts too;
      and the groups with the frames still waiting are the audio frames since the first keyframe. */
  lemma {:induction false} RunReceived(es: seq<Event>)
    requires AllFrames(es)
    ensures var s := Run(es);
            Sound(s) && s.started == (FirstKey(es) < |es|) &&
            Rx(s, VIDEO_PID).units == VideoUnits(SinceKey(es)) &&
            AudioKept(s, AudioFrames(SinceKey(es)))
    decreases |es|
  {
    hide Rx, Sound, AudioKept, Step, PesOf, ReceivedUnit;
    if es == [] {
      InitialSound();
    } else {
      hide SinceKey, VideoUnits, AudioFrames, FirstKey;
      var before, e := es[..|es| - 1], es[|es| - 1];
      RunReceived(before);
      SinceKeyGrows(es);
      SinceKeyUnits(es);
      StepSound(Run(before), e);
      StepKept(Run(before), e, AudioFrames(SinceKey(before)));
      assert AudioFrames(SinceKey(before)) + [] == AudioFrames(SinceKey(before));
    }
  }

  // ---- down to the elementary streams

  /** Keyframes whose PES packet survives the muxer. */
  predicate Survives(p: Packet)
    requires IsFrame(p)
  {
    !IsKey(p) || |PesOf(p)| >= ROOM || |PesOf(p)| == 176
  }

  function PesUnits(es: seq<Event>): seq<bytes>
    requires AllFrames(es)
  {
    if es == [] then []
    else
      var p := es[|es| - 1].p;
      PesUnits(es[..|es| - 1]) + (if p.isVideo then [PesOf(p)] else [])
  }

  lemma UnitSurvives(p: Packet)
    requires IsFrame(p)
    ensures ReceivedUnit(IsKey(p), PesOf(p)) == PesOf(p) <==> Survives(p)
    ensures !p.isVideo ==> Survives(p)
  {
    hide PesPacket;
    if IsKey(p) && |PesOf(p)| < ROOM {
      assert |KeyPayload(PesOf(p))| == 176;
      assert Stuffing(0) + PesOf(p) == PesOf(p);
    }
  }

  /** The video PES packets arrive unchanged exactly if every keyframe's is at least 184 bytes, or 176. */
  lemma {:induction false} AllSurvive(es: seq<Event>)
    requires AllFrames(es)
    ensures |VideoUnits(es)| == |PesUnits(es)|
    ensures VideoUnits(es) == PesUnits(es) <==> forall i :: 0 <= i < |es| ==> Survives(es[i].p)
    decreases |es|
  {
    hide PesOf, ReceivedUnit, Survives;
    if es == [] {
    } else {
      var before, p := es[..|es| - 1], es[|es| - 1].p;
      AllSurvive(before);
      UnitSurvives(p);
      if VideoUnits(es) == PesUnits(es) {
        var n := |VideoUnits(before)|;
        assert VideoUnits(es)[..n] == VideoUnits(before) && PesUnits(es)[..n] == PesUnits(before);
        if p.isVideo {
          assert VideoUnits(es)[n] == ReceivedUnit(IsKey(p), PesOf(p)) && PesUnits(es)[n] == PesOf(p);
        }
        forall i | 0 <= i < |es|
          ensures Survives(es[i].p)
        {
          if i < |before| {
            assert before[i] == es[i];
          }
        }
      }
    }
  }

  function PayloadOf(unit: bytes): bytes {
    match Parse(unit)
    case Malformed => []
    case Pes(_, _, _, _, payload) => payload
  }

  /** The elementary stream data in PES packets, one after the other. */
  function PayloadsOf(units: seq<bytes>): bytes {
    if units == [] then [] else PayloadsOf(units[..|units| - 1]) + PayloadOf(units[|units| - 1])
  }

  lemma PayloadOfPes(p: Packet)
    requires IsFrame(p)
    ensures PayloadOf(PesOf(p)) == p.data
  {
    hide Parse, Received, PesPacket;
    ParseInverts(p, Pts(p), Dts(p));
  }

  lemma {:induction false} ConcatAppend(a: seq<bytes>, b: seq<bytes>)
    ensures Concat(a + b) == Concat(a) + Concat(b)
    decreases |b|
  {
    if b == [] {
      assert a + b == a;
    } else {
      var front, last := b[..|b| - 1], b[|b| - 1];
      assert (a + b)[..|a + b| - 1] == a + front;
      ConcatAppend(a, front);
      assert Concat(a) + (Concat(front) + last) == Concat(a) + Concat(front) + last;
    }
  }

  lemma {:induction false} GroupPayloads(groups: seq<Group>)
    ensures PayloadsOf(GroupUnits(groups)) == Concat(GroupedFrames(groups))
    decreases |groups|
  {
    hide PesOf, PayloadOf;
    if groups == [] {
    } else {
      var before, g := groups[..|groups| - 1], groups[|groups| - 1];
      GroupPayloads(before);
      PayloadOfPes(GroupPacket(g));
      ConcatAppend(GroupedFrames(before), g.frames);
      var u := GroupUnits(groups);
      assert u[..|u| - 1] == GroupUnits(before);
    }
  }

  /** A receiver that also unpacks the PES packets: the audio bytes it has, followed by those still
      waiting, are the audio frames accepted since the first keyframe; and if the keyframes are long
      enough, its video packets are those of the accepted video frames. */
  lemma {:induction false} StreamDelivers(es: seq<Event>)
    requires AllFrames(es)
    ensures var s := Run(es);
            PayloadsOf(Rx(s, AUDIO_PID).units) + Concat(s.cache.frames) == Concat(AudioFrames(SinceKey(es))) &&
            (Rx(s, VIDEO_PID).units == PesUnits(SinceKey(es)) <==>
              forall i :: 0 <= i < |SinceKey(es)| ==> Survives(SinceKey(es)[i].p))
  {
    hide Rx, Good, Run, SinceKey, PesOf, Survives;
    var s := Run(es);
    RunReceived(es);
    AllSurvive(SinceKey(es));
    GroupPayloads(s.groups);
    ConcatAppend(GroupedFrames(s.groups), s.cache.frames);
  }

  // ---- the shape of a segment

  /** A segment opens with the two tables and the start of a video frame. */
  predicate Headed(d: bytes) {
    |d| >= 3 * CELL &&
    Pid(d[..CELL]) == 0 && ReadTable(d[..CELL]) == Programs(map[1 := PMT_PID]) &&
    Pid(d[CELL..2 * CELL]) == PMT_PID &&
    ReadTable(d[CELL..2 * CELL]) == Streams(VIDEO_PID, map[VIDEO_PID := 0x1b, AUDIO_PID := 0x0f]) &&
    var k := d[2 * CELL..3 * CELL];
    IsCell(k) && Pid(k) == VIDEO_PID && StartsUnit(k)
  }

  /** That start is marked as a point where a player can begin, and carries a clock reference. */
  predicate Tuned(d: bytes)
    requires |d| >= 3 * CELL
  {
    var k := d[2 * CELL..3 * CELL];
    RandomAccess(k) && HasPcr(k)
  }

  predicate Clocked(d: bytes, dts: nat)
    requires |d| >= 3 * CELL
  {
    var k := d[2 * CELL..3 * CELL];
    HasPcr(k) && PcrBase(k[6..12]) == dts % TWO_33
  }

  /** What a segment looks like that the keyframe p has opened: only a PES packet of 183 bytes takes the
      flags away, and from 178 to 182 bytes the clock is right for some times only. */
  predicate OpensWith(d: bytes, p: Packet) {
    IsFrame(p) && Headed(d) &&
    (Tuned(d) <==> |PesOf(p)| != 183) &&
    (Clocked(d, Dts(p)) <==> ClockFits(Dts(p), |PesOf(p)|))
  }

  lemma OpenerGrows(d: bytes, more: bytes, p: Packet)
    requires OpensWith(d, p)
    ensures OpensWith(d + more, p)
  {
    hide Pid, ReadTable, IsCell, StartsUnit, RandomAccess, HasPcr, PcrBase, ClockFits, PesOf;
    assert (d + more)[..CELL] == d[..CELL];
    assert (d + more)[CELL..2 * CELL] == d[CELL..2 * CELL];
    assert (d + more)[2 * CELL..3 * CELL] == d[2 * CELL..3 * CELL];
  }

  lemma PesStarts(p: Packet)
    requires IsFrame(p) && IsKey(p)
    ensures StartsVideoPes(PesOf(p))
  {
    hide TimeField, Be16, De16;
    var (pes, size) := (PesOf(p), LengthField(p, if HasDts(p, Pts(p), Dts(p)) then 10 else 5));
    assert pes[4..][..2] == Be16(size);
    De16Prefix(pes[4..]);
    Be16Inverse(size);
  }

  lemma OpensSo(patCc: nat, pmtCc: nat, p: Packet, cc: nat)
    requires patCc <= 16 && pmtCc <= 16 && cc < 16
    requires IsFrame(p) && IsKey(p)
    ensures OpensWith(Tables(patCc, pmtCc) + MuxBytes(p, cc), p)
  {
    hide TableCell, Pid, ReadTable, IsCell, StartsUnit, RandomAccess, HasPcr, KeyCell, PesOf, PmtSection, Payload,
         Cells, PcrBase, ClockFits, StartsVideoPes;
    SectionLengths();
    PatReads(TableCounter(patCc));
    PmtReads(TableCounter(pmtCc), SOUND_AAC, true);
    var next := (cc + 1) % 16;
    PesStarts(p);
    StartCode(PesOf(p));
    KeyCellReads(next, Dts(p), PesOf(p));
    KeyClockIff(next, Dts(p), PesOf(p));
    var d := Tables(patCc, pmtCc) + MuxBytes(p, cc);
    assert d[..CELL] == TableCell(0, TableCounter(patCc), PAT_SECTION);
    assert d[CELL..2 * CELL] == TableCell(PMT_PID, TableCounter(pmtCc), PmtSection(SOUND_AAC, true));
    assert d[2 * CELL..3 * CELL] == KeyCell(next, Dts(p), PesOf(p));
  }

  lemma StartCode(pes: bytes)
    requires StartsVideoPes(pes)
    ensures pes[0] == 0
  {
    assert pes[0] == pes[..4][0];
  }

  /** The frames that open a segment. */
  predicate OpensSegment(s: Seg, e: Event)
    requires IsFrame(e.p)
  {
    IsKey(e.p) && (!s.started || DurationMs(s.stat) >= DURATION)
  }

  function Openers(es: seq<Event>): seq<Packet>
    requires AllFrames(es)
  {
    if es == [] then []
    else
      var n := |es| - 1;
      Openers(es[..n]) + if OpensSegment(Run(es[..n]), es[n]) then [es[n].p] else []
  }

  /** Published segments, each with the keyframe that opened it: whole packets, at least three seconds,
      numbered from 1; if anything has started, one more keyframe has opened the segment being written. */
  predicate SegmentsFine(s: Seg, os: seq<Packet>) {
    s.seqNum == |s.published| && Numbered(s.published) && |os| == |s.published| + (if s.started then 1 else 0) &&
    forall i :: 0 <= i < |s.published| ==>
      var item := s.published[i].item;
      OpensWith(item.data, os[i]) && WholeCells(item.data) && item.duration >= DURATION
  }

  predicate OpenFine(s: Seg, os: seq<Packet>) {
    WholeCells(s.open) && s.videoCc < 16 && s.audioCc < 16 && s.patCc <= 16 && s.pmtCc <= 16 &&
    if s.started then os != [] && OpensWith(s.open, os[|os| - 1]) else s.open == []
  }

  lemma MuxOpen(s: Seg, os: seq<Packet>, p: Packet)
    requires IsFrame(p) && OpenFine(s, os) && s.started
    ensures OpenFine(MuxInto(s, p), os)
    ensures WholeCells(MuxBytes(p, if p.isVideo then s.videoCc else s.audioCc))
  {
    hide OpensWith, WholeCells, PesOf, MuxedCount, Muxed;
    var cc := if p.isVideo then s.videoCc else s.audioCc;
    MuxedReceived(PidOf(p), IsKey(p), cc, Dts(p), PesOf(p), Receiver([], cc, true));
    WholeAppend(s.open, MuxBytes(p, cc));
    OpenerGrows(s.open, MuxBytes(p, cc), os[|os| - 1]);
  }

  lemma MuxAudioOpen(s: Seg, os: seq<Packet>, limit: nat)
    requires OpenFine(s, os) && s.started
    ensures OpenFine(MuxAudio(s, limit), os)
  {
    hide MuxInto, OpensWith;
    if |s.cache.frames| >= limit {
      MuxOpen(s, os, GroupPacket(s.cache));
      MuxIntoKeeps(s, GroupPacket(s.cache));
    }
  }

  /** A keyframe's own step, when it opens a segment: tables, then the keyframe. */
  lemma OpenWithKey(s: Seg, os: seq<Packet>, p: Packet)
    requires s.open == [] && s.started && s.videoCc < 16 && s.audioCc < 16 && s.patCc <= 16 && s.pmtCc <= 16
    requires IsFrame(p) && IsKey(p)
    ensures OpenFine(MuxInto(WriteTables(s), p), os + [p])
  {
    hide OpensWith, WholeCells, PesOf, MuxedCount, Muxed, Tables;
    TablesReceived(s.patCc, s.pmtCc, 0, Fresh(0));
    OpensSo(s.patCc, s.pmtCc, p, s.videoCc);
    var t := WriteTables(s);
    assert t.open == Tables(s.patCc, s.pmtCc);
    MuxedReceived(VIDEO_PID, true, s.videoCc, Dts(p), PesOf(p), Receiver([], s.videoCc, true));
    WholeAppend(t.open, MuxBytes(p, s.videoCc));
  }

  lemma PublishFine(s: Seg, os: seq<Packet>, p: Packet, name: string)
    requires SegmentsFine(s, os) && OpenFine(s, os) && s.started && DurationMs(s.stat) >= DURATION
    ensures SegmentsFine(Publish(s, name), os + [p])
  {
    hide OpensWith, WholeCells;
  }

  lemma StepFine(s: Seg, os: seq<Packet>, e: Event)
    requires SegmentsFine(s, os) && OpenFine(s, os) && IsFrame(e.p)
    ensures var os' := os + if OpensSegment(s, e) then [e.p] else [];
            SegmentsFine(Step(s, e), os') && OpenFine(Step(s, e), os')
  {
    hide OpensWith, WholeCells, PesOf, MuxInto, MuxAudio, WriteTables, Publish, Aligned;
    if IsKey(e.p) {
      KeyStepFine(s, os, e);
    } else {
      assert os + [] == os;
      if s.started {
        var s3 := CalcPtsDts(s.(stat := Update(s.stat, e.p.timeStamp)), e.p, e.inc);
        if e.p.isVideo {
          MuxOpen(s3, os, e.p);
          MuxIntoKeeps(s3, e.p);
        } else {
          var s4 := s3.(cache := AddFrame(s3.cache, e.p.data, s3.pts));
          MuxAudioOpen(s4, os, CACHE_MAX_FRAMES);
          MuxAudioKeeps(s4, CACHE_MAX_FRAMES);
        }
      }
    }
  }

  /** The segmenter writes the same for states that differ in clocks and statistics alone. */
  lemma MuxSame(s: Seg, t: Seg, os: seq<Packet>, p: Packet)
    requires IsFrame(p)
    requires s.open == t.open && s.started == t.started
    requires s.videoCc == t.videoCc && s.audioCc == t.audioCc && s.patCc == t.patCc && s.pmtCc == t.pmtCc
    requires OpenFine(MuxInto(s, p), os)
    ensures OpenFine(MuxInto(t, p), os)
  {
    hide OpensWith, WholeCells, MuxBytes, NextCounter;
  }

  lemma KeyStepFine(s: Seg, os: seq<Packet>, e: Event)
    requires SegmentsFine(s, os) && OpenFine(s, os) && IsFrame(e.p) && IsKey(e.p)
    ensures var os' := os + if OpensSegment(s, e) then [e.p] else [];
            SegmentsFine(Step(s, e), os') && OpenFine(Step(s, e), os')
  {
    hide SegmentsFine, PesOf, MuxInto, MuxAudio, Aligned, Tables, OpensWith, WholeCells;
    var s1 := Cut(s, e.name);
    var s3 := CalcPtsDts(s1.(stat := Update(s1.stat, e.p.timeStamp)), e.p, e.inc);
    MuxIntoKeeps(s3, e.p);
    if !s.started {
      var t := s.(started := true);
      OpenWithKey(t, os, e.p);
      MuxSame(WriteTables(t), s3, os + [e.p], e.p);
      FirstOpened(s, os, e.p, Step(s, e));
    } else if DurationMs(s.stat) >= DURATION {
      var t := MuxAudio(s, 1);
      MuxAudioOpen(s, os, 1);
      MuxAudioKeeps(s, 1);
      SegmentsSame(s, t, os);
      PublishFine(t, os, e.p, e.name);
      OpenWithKey(Publish(t, e.name), os, e.p);
      MuxSame(WriteTables(Publish(t, e.name)), s3, os + [e.p], e.p);
      SegmentsSame(Publish(t, e.name), Step(s, e), os + [e.p]);
    } else {
      assert os + [] == os;
      OpenSame(s, s3, os);
      MuxOpen(s3, os, e.p);
      SegmentsSame(s, Step(s, e), os);
    }
  }

  lemma FirstOpened(s: Seg, os: seq<Packet>, p: Packet, t: Seg)
    requires SegmentsFine(s, os) && !s.started && t.started
    requires s.published == t.published && s.seqNum == t.seqNum
    ensures SegmentsFine(t, os + [p])
  {
    hide OpensWith, WholeCells;
  }

  lemma SegmentsSame(s: Seg, t: Seg, os: seq<Packet>)
    requires SegmentsFine(s, os) && s.published == t.published && s.seqNum == t.seqNum && s.started == t.started
    ensures SegmentsFine(t, os)
  {
    hide OpensWith, WholeCells;
  }

  lemma OpenSame(s: Seg, t: Seg, os: seq<Packet>)
    requires OpenFine(s, os) && s.open == t.open && s.started == t.started
    requires s.videoCc == t.videoCc && s.audioCc == t.audioCc && s.patCc == t.patCc && s.pmtCc == t.pmtCc
    ensures OpenFine(t, os)
  {
    hide OpensWith, WholeCells;
  }

  /** Every segment of every run is made of whole packets, opens with the tables and the start of the
      keyframe that opened it, is at least three seconds long and numbered in order; a player can begin
      with it, and reads the time from it, exactly if the length of that keyframe allows.  The same
      holds of the start of the segment being written. */
  lemma {:induction false} RunFine(es: seq<Event>)
    requires AllFrames(es)
    ensures SegmentsFine(Run(es), Openers(es)) && OpenFine(Run(es), Openers(es))
    decreases |es|
  {
    hide SegmentsFine, OpenFine, Step, OpensSegment;
    if es == [] {
      InitialFine();
    } else {
      var n := |es| - 1;
      RunFine(es[..n]);
      StepFine(Run(es[..n]), Openers(es[..n]), es[n]);
    }
  }

  lemma InitialFine()
    ensures SegmentsFine(INITIAL, []) && OpenFine(INITIAL, [])
  {
  }

  /** A stream that begins with a keyframe of 169 bytes cannot be tuned into. */
  lemma ShortKeyNotTuned(data: bytes, name: string)
    requires |data| == 169
    ensures var p := Packet(false, true, false, 0, VideoHeader(true, false, VIDEO_H264, 0), data);
            var d := Run([Event(p, 0, name)]).open;
            Headed(d) && !Tuned(d)
  {
    hide Headed, Tuned, Clocked, ClockFits, SegmentsFine, Run, Openers, PesOf;
    var p := Packet(false, true, false, 0, VideoHeader(true, false, VIDEO_H264, 0), data);
    RunFine([Event(p, 0, name)]);
    OpenedFirst(Event(p, 0, name));
    ShortPes(p);
  }

  lemma OpenedFirst(e: Event)
    requires IsFrame(e.p) && IsKey(e.p)
    ensures Openers([e]) == [e.p] && Run([e]).started
  {
    hide Step;
    var es := [e];
    assert es[..0] == [];
    InitialSound();
    StepKept(INITIAL, e, []);
  }

  lemma ShortPes(p: Packet)
    requires p.header.VideoHeader? && p.header.compositionTime == 0 && |p.data| == 169
    ensures |PesOf(p)| == 183
  {
  }

  // ---- the window and the playlist of a run

  /** The playlist of every run whose segment names do not come again too early: its entries are the
      newest segments, consecutive from the media sequence on, and none is longer than the target
      duration; and list and map hold the newest three after every segment exactly for such names. */
  lemma {:induction false} RunPlaylist(es: seq<Event>)
    requires AllFrames(es)
    ensures var puts := Run(es).published;
            (forall n :: 0 <= n <= |puts| ==> Holds(After(puts[..n]), Window(puts[..n]))) <==> NoNearRepeat(puts)
    ensures var puts := Run(es).published;
            NoNearRepeat(puts) ==> PlaylistFits(PlaylistOf(Listed(After(puts))), Window(puts), |puts|)
  {
    hide Run, Openers, OpenFine, OpensWith, Holds, After, Window, NoNearRepeat, PlaylistFits, PlaylistOf, Listed;
    RunFine(es);
    var puts := Run(es).published;
    NumberedDiffer(puts);
    HoldsIffNoRepeat(puts);
    if NoNearRepeat(puts) {
      PlaylistOfNumbered(puts);
    }
  }
}
