/** The HLS source: codec parsing and segmenting of one stream, packet by packet
    (protocol/hls/source.go, status.go, align.go, audio_cache.go; parser/parser.go:31-69). */
module HlsSource {
  import opened Bits
  import opened Av
  import opened TsMuxer
  import opened HlsCache
  import opened Segmenter
  import FlvTag
  import Psi
  import Aac
  import H264
  import AnnexB
  import opened TsFormat

  // ---- codec parsing

  /** What the codec parsers remember. */
  datatype Codec = Codec(config: Aac.Config, specific: bytes)

  datatype Parsed = Nothing | Frame(data: bytes)

  predicate HasHeader(p: Packet) {
    if p.isVideo then p.header.VideoHeader? else p.isMetadata || p.header.AudioHeader?
  }

  function AfterSequenceHeader(c: Codec, src: bytes): Codec {
    var r := H264.ReadSpecific(src);
    if r.err.NoError? then c.(specific := c.specific + AnnexB.Join([r.sps, r.pps])) else c
  }

  /** The elementary stream data of a packet, or nothing where it is a header or is refused. */
  function Parse(c: Codec, p: Packet): (Codec, Parsed)
    requires HasHeader(p) && !p.isMetadata
    requires Aac.IsConfig(c.config)
  {
    if p.isVideo then
      if p.header.codecID != VIDEO_H264 then (c, Nothing)
      else if p.header.isSeq then
        (AfterSequenceHeader(c, p.data),
         if p.header.isKeyFrame || !H264.ReadSpecific(p.data).err.NoError? then Nothing else Frame([]))
      else if H264.IsNaluHeader(p.data) then (c, Frame(p.data))
      else if H264.AnnexedError(p.data).NoError? then (c, Frame(H264.Annexed(c.specific, p.data)))
      else (c, Nothing)
    else if p.header.soundFormat != SOUND_AAC then (c, Nothing)
    else if p.header.aacPacketType == AAC_SEQHDR then
      (if |p.data| < 2 then c else c.(config := Aac.ReadConfig(p.data)), Nothing)
    else if p.header.aacPacketType != Aac.AAC_RAW then (c, Frame([]))
    else if |p.data| == 0 || c.config.NoConfig? then (c, Nothing)
    else (c, Frame(Aac.AdtsFrame(c.config, p.data)))
  }

  /** The length of an AAC frame in clock ticks. */
  function Ticks(config: Aac.Config): nat {
    90000 * 1024 / Aac.Rate(config)
  }

  /** One packet whose container header has been taken off. */
  function Handled(c: Codec, s: Seg, p: Packet, name: string): (Codec, Seg)
    requires HasHeader(p) && Aac.IsConfig(c.config)
  {
    if p.isMetadata then (c, s)
    else
      var (c', r) := Parse(c, p);
      match r
      case Nothing => (c', s)
      case Frame(data) => (c', Step(s, Event(p.(data := data), Ticks(c'.config), name)))
  }

  lemma HeaderFits(p: Packet)
    ensures match FlvTag.HeaderOf(p.data, p.isVideo)
            case Found(header, data) => HasHeader(p.(header := header, data := data))
            case _ => true
  {
  }

  /** One packet taken from the queue: whether the loop goes on after it. */
  function Turned(c: Codec, s: Seg, p: Packet, name: string): (Codec, Seg, bool)
    requires Aac.IsConfig(c.config)
  {
    if p.isMetadata then (c, s, true)
    else
      match FlvTag.HeaderOf(p.data, p.isVideo)
      case Found(header, data) =>
        var (c', s') := Handled(c, s, p.(header := header, data := data), name);
        (c', s', true)
      case EndOfSequence => (c, s, true)
      case _ => (c, s, false)
  }

  // ---- the small objects

  class Stat {
    var hasSetFirstTs: bool
    var firstTimestamp: int
    var lastTimestamp: int

    ghost function Abs(): Status reads this { Status(hasSetFirstTs, firstTimestamp, lastTimestamp) }

    constructor ()
      ensures Abs() == Status(false, 0, 0)
    {
      hasSetFirstTs, firstTimestamp, lastTimestamp := false, 0, 0;
    }

    method UpdateTs(timestamp: uint32)
      modifies this
      ensures Abs() == Update(old(Abs()), timestamp)
    {
      if !hasSetFirstTs {
        hasSetFirstTs := true;
        firstTimestamp := timestamp;
      }
      lastTimestamp := timestamp;
    }

    method ResetAndNew()
      modifies this
      ensures Abs() == old(Abs()).(hasSetFirstTs := false)
    {
      hasSetFirstTs := false;
    }
  }

  class Aligner {
    var frameNum: nat
    var frameBase: nat

    ghost function Abs(): Align reads this { Align(frameNum, frameBase) }

    constructor ()
      ensures Abs() == Align(0, 0)
    {
      frameNum, frameBase := 0, 0;
    }

    method AlignDts(dts: nat, inc: nat) returns (aligned: nat)
      modifies this
      ensures (Abs(), aligned) == Aligned(old(Abs()), dts, inc)
    {
      var estPts := frameBase + frameNum * inc;
      var dPts;
      if estPts >= dts {
        dPts := estPts - dts;
      } else {
        dPts := dts - estPts;
      }
      if dPts <= 2 * 90 {
        frameNum := frameNum + 1;
        return estPts;
      }
      frameNum := 1;
      frameBase := dts;
      aligned := dts;
    }
  }

  class AudioCache {
    var num: byte
    var offset: nat
    var pts: nat
    const buf: Buffer
    ghost var frames: seq<bytes>

    ghost predicate Valid()
      reads this, buf
    {
      num == |frames| && (num > 0 ==> buf.data == Concat(frames))
    }

    ghost function Abs(): Group reads this { Group(frames, pts) }

    constructor ()
      ensures Valid() && Abs() == Group([], 0) && fresh(buf)
    {
      num, offset, pts, frames := 0, 0, 0, [];
      buf := new Buffer();
    }

    method Cache(src: bytes, pts0: nat)
      requires Valid() && num < 0xff
      modifies this, buf
      ensures Valid() && Abs() == AddFrame(old(Abs()), src, pts0)
    {
      if num == 0 {
        offset := 0;
        pts := pts0;
        buf.Reset();
      }
      buf.Write(src);
      offset := offset + |src|;
      num := num + 1;
      assert (frames + [src])[..|frames|] == frames;
      frames := frames + [src];
    }

    method GetFrame() returns (pts0: nat, data: bytes)
      requires Valid() && num > 0
      modifies this
      ensures Valid() && Abs() == old(Abs()).(frames := [])
      ensures pts0 == old(pts) && data == Concat(old(frames))
    {
      num := 0;
      frames := [];
      return pts, buf.data;
    }
  }

  // ---- the source

  class Source {
    var seqNum: nat
    var btswriter: Buffer?
    var pts: nat
    var dts: nat
    const demuxer: FlvTag.Demuxer
    const bwriter: Buffer
    const muxer: Muxer
    const stat: Stat
    const align: Aligner
    const cache: AudioCache
    const tsCache: TSCacheItem
    const aac: Aac.Parser
    const h264: H264.Parser
    ghost var published: seq<Put>
    ghost var groups: seq<Group>

    /** The objects of the source; the stream parts are those the segmenter writes. */
    ghost function StreamParts(): set<object>
      reads this
    {
      {this, muxer, muxer.pat, muxer.pmt, muxer.tsPacket, stat, align, cache, cache.buf, tsCache}
      + (if btswriter == null then {} else {btswriter})
    }

    ghost function CodecParts(): set<object> {
      {bwriter, aac, aac.adtsHeader, h264, h264.pps}
    }

    ghost predicate Valid()
      reads this, muxer, stat, align, cache, cache.buf, tsCache, btswriter, bwriter, aac, h264
    {
      muxer.Valid() && cache.Valid() && aac.Valid() &&
      bwriter != h264.pps && cache.buf != bwriter && cache.buf != h264.pps &&
      btswriter != bwriter && btswriter != h264.pps && btswriter != cache.buf &&
      aac.adtsHeader != muxer.pat && aac.adtsHeader != muxer.pmt && aac.adtsHeader != muxer.tsPacket &&
      tsCache.Abs() == After(published) && |cache.frames| <= CACHE_MAX_FRAMES
    }

    ghost function Abs(): Seg
      reads this, muxer, stat, align, cache, btswriter
    {
      Seg(if btswriter == null then [] else btswriter.data, btswriter != null, seqNum,
          muxer.videoCc, muxer.audioCc, muxer.patCc, muxer.pmtCc,
          stat.Abs(), align.Abs(), pts, dts, cache.Abs(), published, groups)
    }

    ghost function CodecAbs(): Codec
      requires aac.Valid()
      reads this, aac, h264
    {
      Codec(aac.Current(), h264.specificInfo)
    }

    constructor ()
      ensures Valid() && Abs() == INITIAL && CodecAbs() == Codec(Aac.NoConfig, [])
    {
      seqNum, btswriter, pts, dts := 0, null, 0, 0;
      published, groups := [], [];
      demuxer := new FlvTag.Demuxer();
      bwriter := new Buffer();
      muxer := new Muxer();
      stat := new Stat();
      align := new Aligner();
      cache := new AudioCache();
      tsCache := new TSCacheItem();
      aac := new Aac.Parser();
      h264 := new H264.Parser();
    }

    method MuxAudioFrames(limit: byte)
      requires Valid() && btswriter != null && limit > 0
      modifies StreamParts()
      ensures Valid() && btswriter == old(btswriter)
      ensures Abs() == MuxAudio(old(Abs()), limit)
      ensures CodecAbs() == old(CodecAbs())
    {
      if cache.num < limit {
        return;
      }
      ghost var g := cache.Abs();
      var framePts, buf := cache.GetFrame();
      var p := Packet(false, false, false, framePts / 90 % 0x1_0000_0000, NoHeader, buf);
      assert p == GroupPacket(g);
      muxer.Mux(p, btswriter);
      groups := groups + [g];
    }

    method FlushAudio()
      requires Valid() && btswriter != null
      modifies StreamParts()
      ensures Valid() && btswriter == old(btswriter)
      ensures Abs() == MuxAudio(old(Abs()), 1)
      ensures CodecAbs() == old(CodecAbs())
    {
      MuxAudioFrames(1);
    }

    method WriteTablesNow()
      requires Valid() && btswriter != null
      modifies StreamParts()
      ensures Valid() && btswriter == old(btswriter)
      ensures Abs() == WriteTables(old(Abs()))
      ensures CodecAbs() == old(CodecAbs())
    {
      hide Psi.TableCell, Psi.PmtSection, Concat, After;
      var pat := muxer.PAT();
      btswriter.Write(pat);
      var pmt := muxer.PMT(SOUND_AAC, true);
      btswriter.Write(pmt);
      assert btswriter.data == old(btswriter.data) + (pat + pmt);
    }

    /** filename is made from the wall clock. */
    method CutAt(filename: string)
      requires Valid()
      modifies StreamParts()
      ensures Valid() && fresh(StreamParts() - old(StreamParts()))
      ensures Abs() == Cut(old(Abs()), filename)
      ensures CodecAbs() == old(CodecAbs())
    {
      if btswriter == null {
        btswriter := new Buffer();
        WriteTablesNow();
      } else if stat.lastTimestamp - stat.firstTimestamp >= DURATION {
        FlushAudio();
        PublishSegment(filename);
        WriteTablesNow();
      }
    }

    method PublishSegment(filename: string)
      requires Valid() && btswriter != null
      modifies StreamParts()
      ensures Valid() && btswriter == old(btswriter)
      ensures Abs() == Publish(old(Abs()), filename)
      ensures CodecAbs() == old(CodecAbs())
    {
      hide After, Concat, Set;
      seqNum := seqNum + 1;
      var item := TSItem(filename, seqNum, stat.lastTimestamp - stat.firstTimestamp, btswriter.data);
      tsCache.SetItem(filename, item);
      AfterStep(published, Put(filename, item));
      published := published + [Put(filename, item)];
      btswriter.Reset();
      stat.ResetAndNew();
    }

    method CalcStamps(p: Packet, inc: nat)
      requires Valid() && IsFrame(p)
      modifies this`pts, this`dts, align
      ensures Valid()
      ensures Abs() == CalcPtsDts(old(Abs()), p, inc)
      ensures CodecAbs() == old(CodecAbs())
    {
      dts := p.timeStamp * 90;
      if p.isVideo {
        pts := dts + p.header.compositionTime % 0x1_0000_0000 * 90;
      } else {
        dts := align.AlignDts(dts, inc);
        pts := dts;
      }
    }

    method TsMuxPacket(p: Packet)
      requires Valid() && IsFrame(p) && btswriter != null
      requires |cache.frames| < CACHE_MAX_FRAMES
      modifies StreamParts()
      ensures Valid() && btswriter == old(btswriter) && |cache.frames| < CACHE_MAX_FRAMES
      ensures Abs() == TsMux(old(Abs()), p)
      ensures CodecAbs() == old(CodecAbs())
    {
      if p.isVideo {
        muxer.Mux(p, btswriter);
      } else {
        hide Concat, After, MuxBytes;
        cache.Cache(p.data, pts);
        MuxAudioFrames(CACHE_MAX_FRAMES);
      }
    }

    /** The codec parser: dispatches on the header and writes what it produces to bwriter. */
    method CodecParse(p: Packet) returns (ok: bool)
      requires Valid() && HasHeader(p) && !p.isMetadata
      requires if p.isVideo then p.header.codecID == VIDEO_H264 else p.header.soundFormat == SOUND_AAC
      requires bwriter.data == [] || IsHeader(p)
      modifies CodecParts()
      ensures Valid() && Abs() == old(Abs())
      ensures var (c, r) := Parse(old(CodecAbs()), p);
              CodecAbs() == c && (!IsHeader(p) ==> r == if ok then Frame(bwriter.data) else Nothing)
      ensures IsHeader(p) ==> bwriter.data == old(bwriter.data)
    {
      hide Concat, After, AnnexB.Join, H264.Annexed, H264.ReadSpecific, H264.IsNaluHeader, H264.AnnexedError,
           Aac.AdtsFrame, Aac.ReadConfig, Abs;
      if p.isVideo {
        if p.header.isSeq {
          var err := h264.ParseSpecificInfo(p.data);
          return err.NoError?;
        } else if H264.IsNaluHeader(p.data) {
          bwriter.Write(p.data);
          return true;
        } else {
          var err := h264.GetAnnexbH264(p.data, bwriter);
          return err.NoError?;
        }
      } else if p.header.aacPacketType == AAC_SEQHDR {
        var err := aac.SpecificInfo(p.data);
        return err.NoError?;
      } else if p.header.aacPacketType == Aac.AAC_RAW {
        var err := aac.Adts(p.data, bwriter);
        return err.NoError?;
      }
      ok := true;
    }

    /** The codec side of parse: refuses other codecs and swallows sequence headers. */
    method ParsePacket(p: Packet) returns (r: Parsed)
      requires Valid() && HasHeader(p) && !p.isMetadata
      modifies CodecParts()
      ensures Valid() && Abs() == old(Abs())
      ensures (CodecAbs(), r) == Parse(old(CodecAbs()), p)
    {
      hide Concat, After, AnnexB.Join, H264.Annexed, H264.ReadSpecific, H264.IsNaluHeader, H264.AnnexedError,
           Aac.AdtsFrame, Aac.ReadConfig, Abs, CodecAbs;
      if p.isVideo {
        if p.header.codecID != VIDEO_H264 {
          return Nothing;
        }
        if p.header.isKeyFrame && p.header.isSeq {
          var _ := CodecParse(p);
          return Nothing;
        }
      } else {
        if p.header.soundFormat != SOUND_AAC {
          return Nothing;
        }
        if p.header.aacPacketType == AAC_SEQHDR {
          var _ := CodecParse(p);
          return Nothing;
        }
      }
      bwriter.Reset();
      var ok := CodecParse(p);
      r := if ok then Frame(bwriter.data) else Nothing;
    }

    /** parse: cuts at a keyframe that was accepted. */
    method ParseAndCut(p: Packet, filename: string) returns (r: Parsed)
      requires Valid() && HasHeader(p) && !p.isMetadata
      modifies StreamParts(), CodecParts()
      ensures Valid() && fresh(StreamParts() - old(StreamParts()))
      ensures (CodecAbs(), r) == Parse(old(CodecAbs()), p)
      ensures Abs() == if r.Frame? && IsKey(p) then Cut(old(Abs()), filename) else old(Abs())
    {
      hide Cut, Parse, Concat, After, Abs, CodecAbs, IsHeader;
      r := ParsePacket(p);
      if r.Frame? && p.isVideo && p.header.isKeyFrame {
        CutAt(filename);
      }
    }

    /** The last part of SendPacket's loop: statistics, clock, multiplexing. */
    method Feed(frame: Packet)
      requires Valid() && IsFrame(frame) && btswriter != null
      requires |cache.frames| < CACHE_MAX_FRAMES
      modifies StreamParts()
      ensures Valid() && btswriter == old(btswriter) && |cache.frames| < CACHE_MAX_FRAMES
      ensures var s := old(Abs());
              Abs() == TsMux(CalcPtsDts(s.(stat := Update(s.stat, frame.timeStamp)), frame,
                                        Ticks(old(CodecAbs()).config)), frame)
      ensures CodecAbs() == old(CodecAbs())
    {
      hide TsMux, CalcPtsDts;
      stat.UpdateTs(frame.timeStamp);
      var rate := aac.SampleRate();
      CalcStamps(frame, 90000 * 1024 / rate);
      CalcKeeps(old(Abs()).(stat := stat.Abs()), frame, 90000 * 1024 / rate);
      TsMuxPacket(frame);
    }

    /** One turn of SendPacket's loop, or false where the loop ends. */
    method Turn(p: Packet, filename: string) returns (on: bool)
      requires Valid() && |cache.frames| < CACHE_MAX_FRAMES
      modifies StreamParts(), CodecParts()
      ensures Valid() && |cache.frames| < CACHE_MAX_FRAMES
      ensures (CodecAbs(), Abs(), on) == Turned(old(CodecAbs()), old(Abs()), p, filename)
    {
      hide Handled, Concat, After, FlvTag.HeaderOf;
      if p.isMetadata {
        return true;
      }
      var r := demuxer.Demux(p.data, p.isVideo);
      match r {
        case Found(header, data) =>
          HeaderFits(p);
          Handle(p.(header := header, data := data), filename);
          on := true;
        case EndOfSequence => on := true;
        case _ => on := false;
      }
    }

    /** The rest of the turn, for a packet whose container header has been taken off. */
    method Handle(p: Packet, filename: string)
      requires Valid() && HasHeader(p)
      requires |cache.frames| < CACHE_MAX_FRAMES
      modifies StreamParts(), CodecParts()
      ensures Valid() && |cache.frames| < CACHE_MAX_FRAMES
      ensures (CodecAbs(), Abs()) == Handled(old(CodecAbs()), old(Abs()), p, filename)
    {
      hide Parse, Cut, TsMux, CalcPtsDts;
      if p.isMetadata {
        return;
      }
      var r := ParseAndCut(p, filename);
      if r.Nothing? {
        return;
      }
      CutKeepsCache(old(Abs()), filename);
      if btswriter != null {
        Feed(p.(data := r.data));
      }
    }
  }

  lemma CalcKeeps(s: Seg, p: Packet, inc: nat)
    requires IsFrame(p)
    ensures CalcPtsDts(s, p, inc).cache == s.cache
  {
  }

  lemma CutKeepsCache(s: Seg, name: string)
    ensures |Cut(s, name).cache.frames| <= |s.cache.frames|
  {
    hide MuxInto, Tables, Concat;
    if s.started && DurationMs(s.stat) >= DURATION && |s.cache.frames| >= 1 {
      MuxIntoKeeps(s, GroupPacket(s.cache));
    }
  }

  /** Sequence headers that parse keeps to itself. */
  predicate IsHeader(p: Packet)
    requires HasHeader(p) && !p.isMetadata
  {
    if p.isVideo then p.header.isKeyFrame && p.header.isSeq else p.header.aacPacketType == AAC_SEQHDR
  }

  // ---- whole runs, from packets to raw frames

  datatype Arrival = Arrival(p: Packet, name: string)

  predicate AllHaveHeaders(arrivals: seq<Arrival>) {
    forall i :: 0 <= i < |arrivals| ==> HasHeader(arrivals[i].p)
  }

  ghost predicate GoodCodec(c: Codec) { Aac.IsConfig(c.config) }

  /** The source after a sequence of packets. */
  ghost function RunPackets(arrivals: seq<Arrival>): (r: (Codec, Seg))
    requires AllHaveHeaders(arrivals)
    ensures GoodCodec(r.0)
  {
    if arrivals == [] then (Codec(Aac.NoConfig, []), INITIAL)
    else
      var n := |arrivals| - 1;
      var (c, s) := RunPackets(arrivals[..n]);
      Handled(c, s, arrivals[n].p, arrivals[n].name)
  }

  /** The frame the codec parser accepts from a packet, if it does. */
  function AcceptedOf(c: Codec, p: Packet, name: string): (es: seq<Event>)
    requires HasHeader(p) && Aac.IsConfig(c.config)
    ensures |es| <= 1 && AllFrames(es)
  {
    if p.isMetadata then []
    else
      var (c', r) := Parse(c, p);
      match r
      case Nothing => []
      case Frame(data) => [Event(p.(data := data), Ticks(c'.config), name)]
  }

  /** The frames the codec parser accepts from a sequence of packets. */
  ghost function Accepted(arrivals: seq<Arrival>): (es: seq<Event>)
    requires AllHaveHeaders(arrivals)
    ensures AllFrames(es)
  {
    if arrivals == [] then []
    else
      var n := |arrivals| - 1;
      Accepted(arrivals[..n]) + AcceptedOf(RunPackets(arrivals[..n]).0, arrivals[n].p, arrivals[n].name)
  }

  /** The source does with packets what the segmenter does with the accepted frames. */
  lemma {:induction false} RunPacketsIsRun(arrivals: seq<Arrival>)
    requires AllHaveHeaders(arrivals)
    ensures RunPackets(arrivals).1 == Run(Accepted(arrivals))
    decreases |arrivals|
  {
    hide Parse, Step;
    if arrivals == [] {
    } else {
      var before := arrivals[..|arrivals| - 1];
      RunPacketsIsRun(before);
      var es := Accepted(arrivals);
      if |es| > |Accepted(before)| {
        assert es[..|es| - 1] == Accepted(before);
      } else {
        assert es == Accepted(before);
      }
    }
  }

  // ---- from what is put into the queue

  /** The source, and whether its loop still runs, after packets as they were put into its queue. */
  ghost function RunQueued(arrivals: seq<Arrival>): (r: (Codec, Seg, bool))
    ensures GoodCodec(r.0)
  {
    if arrivals == [] then (Codec(Aac.NoConfig, []), INITIAL, true)
    else
      var n := |arrivals| - 1;
      var (c, s, on) := RunQueued(arrivals[..n]);
      if on then Turned(c, s, arrivals[n].p, arrivals[n].name) else (c, s, on)
  }

  /** A packet that does not end the loop. */
  predicate Readable(p: Packet) {
    p.isMetadata || var r := FlvTag.HeaderOf(p.data, p.isVideo); r.Found? || r.EndOfSequence?
  }

  predicate AllReadable(arrivals: seq<Arrival>) {
    forall i :: 0 <= i < |arrivals| ==> Readable(arrivals[i].p)
  }

  /** The packet without its container header, if it carries anything. */
  function Opened(a: Arrival): (r: seq<Arrival>)
    ensures AllHaveHeaders(r)
  {
    if a.p.isMetadata then []
    else
      match FlvTag.HeaderOf(a.p.data, a.p.isVideo)
      case Found(header, data) => [a.(p := a.p.(header := header, data := data))]
      case _ => []
  }

  /** The packets up to the first one that cannot be read, without their container headers. */
  function Opening(arrivals: seq<Arrival>): (r: seq<Arrival>)
    ensures AllHaveHeaders(r)
  {
    if arrivals == [] then []
    else
      var n := |arrivals| - 1;
      Opening(arrivals[..n]) + if AllReadable(arrivals[..n]) then Opened(arrivals[n]) else []
  }

  /** The loop works on the packets up to the first one that cannot be read, and runs exactly as long as
      there is none: a video packet of fewer than five bytes, an empty audio packet, or AAC of one byte. */
  lemma {:induction false} QueuedIsPackets(arrivals: seq<Arrival>)
    ensures var (c, s, on) := RunQueued(arrivals);
            (c, s) == RunPackets(Opening(arrivals)) && (on <==> AllReadable(arrivals))
    decreases |arrivals|
  {
    hide Turned, Readable, Opened, RunPackets, GoodCodec;
    if arrivals == [] {
      NoPackets();
    } else {
      var n := |arrivals| - 1;
      var before := arrivals[..n];
      QueuedIsPackets(before);
      ReadableMore(arrivals);
      if AllReadable(before) {
        OpenedMore(Opening(before), arrivals[n]);
      } else {
        assert Opening(before) + [] == Opening(before);
      }
    }
  }

  lemma NoPackets()
    ensures RunPackets([]) == (Codec(Aac.NoConfig, []), INITIAL)
  {
  }

  lemma {:induction false} ReadableMore(arrivals: seq<Arrival>)
    requires arrivals != []
    ensures AllReadable(arrivals) <==> AllReadable(arrivals[..|arrivals| - 1]) && Readable(arrivals[|arrivals| - 1].p)
  {
    hide Readable;
    var (n, before) := (|arrivals| - 1, arrivals[..|arrivals| - 1]);
    assert forall i :: 0 <= i < n ==> before[i] == arrivals[i];
  }

  lemma {:induction false} OpenedMore(opening: seq<Arrival>, a: Arrival)
    requires AllHaveHeaders(opening)
    ensures var (c, s) := RunPackets(opening);
            var (c', s', on) := Turned(c, s, a.p, a.name);
            AllHaveHeaders(opening + Opened(a)) && RunPackets(opening + Opened(a)) == (c', s') &&
            (on <==> Readable(a.p))
  {
    hide Handled, FlvTag.HeaderOf;
    HeaderFits(a.p);
    if Opened(a) == [] {
      assert opening + [] == opening;
    } else {
      assert (opening + Opened(a))[..|opening|] == opening;
    }
  }

  lemma UnreadableIff(p: Packet)
    requires !p.isMetadata
    ensures !Readable(p) <==>
      if p.isVideo then |p.data| < 5 else p.data == [] || (|p.data| == 1 && p.data[0] / 16 == SOUND_AAC)
  {
  }

  // ---- down to the raw AAC frames

  /** The raw frame of a packet, with the configuration known by then, if the packet carries one that the
      codec parser accepts. */
  function RawUnit(c: Codec, p: Packet): (us: seq<Aac.Unit>)
    requires HasHeader(p) && Aac.IsConfig(c.config)
    ensures Aac.AllConfigured(us)
  {
    if p.isVideo || p.isMetadata || p.header.soundFormat != SOUND_AAC || p.header.aacPacketType != Aac.AAC_RAW ||
       |p.data| == 0 || c.config.NoConfig? then []
    else [Aac.Unit(c.config, p.data)]
  }

  /** The raw frames that arrive from the first accepted keyframe on. */
  ghost function RawUnits(arrivals: seq<Arrival>): (us: seq<Aac.Unit>)
    requires AllHaveHeaders(arrivals)
    ensures Aac.AllConfigured(us)
  {
    if arrivals == [] then []
    else
      var n := |arrivals| - 1;
      var (c, s) := RunPackets(arrivals[..n]);
      RawUnits(arrivals[..n]) + if s.started then RawUnit(c, arrivals[n].p) else []
  }

  /** The audio bytes of a packet that the codec parser accepts. */
  function Share(c: Codec, p: Packet): bytes
    requires HasHeader(p) && Aac.IsConfig(c.config)
  {
    if p.isVideo || p.isMetadata || Parse(c, p).1.Nothing? then [] else Parse(c, p).1.data
  }

  lemma ShareIsRaw(c: Codec, p: Packet)
    requires HasHeader(p) && Aac.IsConfig(c.config)
    ensures Aac.Join(RawUnit(c, p)) == Share(c, p)
  {
    hide Aac.AdtsFrame, Aac.ReadConfig;
    var us := RawUnit(c, p);
    if us != [] {
      assert us[1..] == [];
      assert Aac.Join(us[1..]) == [];
    }
  }

  lemma ShareIsAccepted(c: Codec, p: Packet, name: string)
    requires HasHeader(p) && Aac.IsConfig(c.config)
    ensures var es := AcceptedOf(c, p, name);
            (es == [] || es[0].p.isVideo ==> Share(c, p) == []) &&
            (es != [] && !es[0].p.isVideo ==> Share(c, p) == es[0].p.data)
  {
    hide Parse;
  }

  lemma {:induction false} JoinAppend(a: seq<Aac.Unit>, b: seq<Aac.Unit>)
    requires Aac.AllConfigured(a) && Aac.AllConfigured(b)
    ensures Aac.AllConfigured(a + b) && Aac.Join(a + b) == Aac.Join(a) + Aac.Join(b)
    decreases |a|
  {
    hide Aac.AdtsFrame, Aac.IsConfig;
    if a == [] {
      assert a + b == b;
    } else {
      hide Aac.AllConfigured;
      ConfiguredParts(a, b);
      assert (a + b)[1..] == a[1..] + b;
      JoinAppend(a[1..], b);
      var first := Aac.AdtsFrame(a[0].config, a[0].raw);
      assert first + (Aac.Join(a[1..]) + Aac.Join(b)) == first + Aac.Join(a[1..]) + Aac.Join(b);
    }
  }

  lemma ConfiguredParts(a: seq<Aac.Unit>, b: seq<Aac.Unit>)
    requires Aac.AllConfigured(a) && Aac.AllConfigured(b) && a != []
    ensures Aac.AllConfigured(a[1..]) && Aac.AllConfigured(a + b)
    ensures a[0].config.Config? && Aac.IsConfig(a[0].config)
  {
  }

  lemma {:induction false} ConcatMore(frames: seq<bytes>, frame: bytes)
    ensures Concat(frames + [frame]) == Concat(frames) + frame
  {
    assert (frames + [frame])[..|frames|] == frames;
  }

  lemma {:induction false} RawMore(arrivals: seq<Arrival>)
    requires AllHaveHeaders(arrivals) && arrivals != []
    ensures var n := |arrivals| - 1;
            var (c, s) := RunPackets(arrivals[..n]);
            Aac.Join(RawUnits(arrivals)) ==
              Aac.Join(RawUnits(arrivals[..n])) + if s.started then Share(c, arrivals[n].p) else []
  {
    hide Share, RawUnit, Aac.Join, Aac.AllConfigured, RunPackets;
    var n := |arrivals| - 1;
    var (c, s) := RunPackets(arrivals[..n]);
    ShareIsRaw(c, arrivals[n].p);
    if s.started {
      JoinAppend(RawUnits(arrivals[..n]), RawUnit(c, arrivals[n].p));
    } else {
      assert RawUnits(arrivals[..n]) + [] == RawUnits(arrivals[..n]);
    }
  }

  lemma {:induction false} AcceptedMore(arrivals: seq<Arrival>)
    requires AllHaveHeaders(arrivals) && arrivals != []
    ensures var n := |arrivals| - 1;
            var (c, es) := (RunPackets(arrivals[..n]).0, Accepted(arrivals[..n]));
            Concat(AudioFrames(SinceKey(Accepted(arrivals)))) ==
              Concat(AudioFrames(SinceKey(es))) + if FirstKey(es) < |es| then Share(c, arrivals[n].p) else []
  {
    hide Share, AcceptedOf, Concat, AudioFrames, SinceKey, RunPackets, FirstKey, AllFrames;
    var n := |arrivals| - 1;
    var (c, es) := (RunPackets(arrivals[..n]).0, Accepted(arrivals[..n]));
    var more := AcceptedOf(c, arrivals[n].p, arrivals[n].name);
    ShareIsAccepted(c, arrivals[n].p, arrivals[n].name);
    if more == [] {
      assert es + more == es;
    } else {
      assert more == [more[0]];
      assert Accepted(arrivals) == es + [more[0]];
      SinceKeyMore(es, more[0]);
    }
  }

  /** The audio frames accepted since the first keyframe, one after the other, are the raw frames that
      have arrived since, each behind its ADTS header. */
  lemma {:induction false} AcceptedIsRaw(arrivals: seq<Arrival>)
    requires AllHaveHeaders(arrivals)
    ensures Concat(AudioFrames(SinceKey(Accepted(arrivals)))) == Aac.Join(RawUnits(arrivals))
    decreases |arrivals|
  {
    hide Share, Aac.Join, Concat, SinceKey, RunPackets, FirstKey, Run;
    if arrivals == [] {
      NothingArrived();
    } else {
      var before := arrivals[..|arrivals| - 1];
      AcceptedIsRaw(before);
      RunPacketsIsRun(before);
      RunReceivedStarted(Accepted(before));
      RawMore(arrivals);
      AcceptedMore(arrivals);
    }
  }

  lemma NothingArrived()
    ensures Concat(AudioFrames(SinceKey([]))) == [] && Aac.Join([]) == []
  {
  }

  lemma {:induction false} RunReceivedStarted(es: seq<Event>)
    requires AllFrames(es)
    ensures Run(es).started == (FirstKey(es) < |es|)
  {
    hide Run, Sound, AudioKept;
    RunReceived(es);
  }

  lemma {:induction false} AudioFramesMore(es: seq<Event>, e: Event)
    ensures Concat(AudioFrames(es + [e])) == Concat(AudioFrames(es)) + if e.p.isVideo then [] else e.p.data
  {
    hide Concat;
    assert (es + [e])[..|es|] == es;
    if e.p.isVideo {
      assert AudioFrames(es) + [] == AudioFrames(es);
    } else {
      ConcatMore(AudioFrames(es), e.p.data);
    }
  }

  /** One more accepted event: after the first keyframe it counts, before it only a keyframe does. */
  lemma {:induction false} SinceKeyMore(es: seq<Event>, e: Event)
    requires AllFrames(es + [e])
    ensures AllFrames(es)
    ensures Concat(AudioFrames(SinceKey(es + [e]))) ==
      Concat(AudioFrames(SinceKey(es))) + if FirstKey(es) < |es| && !e.p.isVideo then e.p.data else []
  {
    FramesOfLonger(es, e);
    hide FirstKey, SinceKey, AudioFrames, Concat;
    var all := es + [e];
    assert all[..|all| - 1] == es;
    SinceKeyGrows(all);
    AudioFramesMore(SinceKey(es), e);
  }

  lemma FramesOfLonger(es: seq<Event>, e: Event)
    requires AllFrames(es + [e])
    ensures AllFrames(es)
  {
    assert forall i :: 0 <= i < |es| ==> (es + [e])[i] == es[i];
  }

  /** Over every sequence of packets: cutting the audio a receiver has, with what still waits in the cache,
      by the ADTS length fields gives back the raw frames that have arrived since the first accepted
      keyframe, exactly if none of them is longer than 8184 bytes. */
  lemma {:induction false} AudioRecovered(arrivals: seq<Arrival>)
    requires AllHaveHeaders(arrivals)
    ensures var (s, units) := (RunPackets(arrivals).1, RawUnits(arrivals));
            Aac.Split(PayloadsOf(Rx(s, AUDIO_PID).units) + Concat(s.cache.frames)) == Aac.Raws(units) <==>
            forall i :: 0 <= i < |units| ==> |units[i].raw| <= 8184
  {
    hide Run, Rx, SinceKey, Aac.Split, Aac.Join, PesUnits, PayloadsOf, Concat, RunPackets, RawUnits, Accepted;
    RunPacketsIsRun(arrivals);
    StreamDelivers(Accepted(arrivals));
    AcceptedIsRaw(arrivals);
    Aac.SplitInvertsJoin(RawUnits(arrivals));
  }
}
