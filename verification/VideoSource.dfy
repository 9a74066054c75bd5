/** The video of the HLS source, from the packets that arrive to the pictures a receiver has
    (protocol/hls/source.go:120-276, parser/h264/parser.go:77-234). */
module VideoSource {
  import opened Bits
  import opened Av
  import opened TsReader
  import opened TsMuxer
  import opened AnnexB
  import opened Segmenter
  import opened HlsSource
  import opened Delivery
  import H264
  import Aac

  // ---- what is to come out

  /** The parameter sets of a sequence header that is accepted. */
  function SetsIn(p: Packet): seq<bytes> {
    if !p.isVideo || p.isMetadata || !p.header.VideoHeader? || p.header.codecID != 7 || !p.header.isSeq then []
    else
      var r := H264.ReadSpecific(p.data);
      if r.err.NoError? then [r.sps, r.pps] else []
  }

  /** All that have arrived, in order. */
  function ParameterSets(arrivals: seq<Arrival>): seq<bytes> {
    if arrivals == [] then []
    else var n := |arrivals| - 1; ParameterSets(arrivals[..n]) + SetsIn(arrivals[n].p)
  }

  /** The units of these types, in order. */
  function Select(nals: seq<bytes>, types: set<int>): seq<bytes> {
    if nals == [] then []
    else
      (if nals[0] != [] && nals[0][0] as int % 32 in types then [nals[0]] else []) + Select(nals[1..], types)
  }

  /** The position of the first IDR slice, or the number of units. */
  function IdrAt(nals: seq<bytes>): (k: nat)
    ensures k <= |nals|
  {
    if nals == [] || (nals[0] != [] && nals[0][0] % 32 == 5) then 0 else 1 + IdrAt(nals[1..])
  }

  /** Slices, IDR slices and supplemental information in their order, and in front of the first IDR slice the
      parameter sets that came before it, or those of the sequence headers if there were none. */
  function Picture(sets: seq<bytes>, nals: seq<bytes>): seq<bytes> {
    var k := IdrAt(nals);
    var own := Select(nals[..k], {7, 8});
    Select(nals[..k], {1, 5, 6})
      + (if k == |nals| then [] else if own == [] then sets else own)
      + Select(nals[k..], {1, 5, 6})
  }

  const DELIMITER: bytes := [0x09, 0xf0]

  /** Each unit behind a start code of four bytes. */
  function ByteStream(units: seq<bytes>): bytes {
    if units == [] then [] else [0, 0, 0, 1] + units[0] + ByteStream(units[1..])
  }

  /** What becomes of the data of a packet, if it is accepted: a byte stream is passed on, and units behind their
      lengths become a byte stream. */
  function PictureOf(sets: seq<bytes>, p: Packet): (ds: seq<bytes>)
    ensures |ds| <= 1
  {
    if !p.isVideo || p.isMetadata || !p.header.VideoHeader? || p.header.codecID != 7 then []
    else if p.header.isSeq then
      if p.header.isKeyFrame || !H264.ReadSpecific(p.data).err.NoError? then [] else [[]]
    else if |p.data| < 4 then []
    else if p.data[..4] == [0, 0, 0, 1] then [p.data]
    else
      var lengths := H264.ReadLengths(p.data);
      if lengths.err.NoError? then [ByteStream([DELIMITER] + Picture(sets, lengths.nals))] else []
  }

  /** The video packets from the first accepted keyframe on, with the data they are to carry. */
  function VideoArrived(arrivals: seq<Arrival>): (ps: seq<Packet>)
    ensures forall i :: 0 <= i < |ps| ==> ps[i].isVideo && ps[i].header.VideoHeader?
  {
    if arrivals == [] then []
    else
      var (n, before) := (|arrivals| - 1, VideoArrived(arrivals[..|arrivals| - 1]));
      var ds := PictureOf(ParameterSets(arrivals[..n]), arrivals[n].p);
      if ds != [] && (before != [] || arrivals[n].p.header.isKeyFrame) then
        before + [arrivals[n].p.(data := ds[0])]
      else before
  }

  // ---- the units

  lemma {:induction false} SelectIs(nals: seq<bytes>)
    ensures Select(nals, {1, 5, 6}) == H264.Filter(nals, H264.IsKept)
    ensures Select(nals, {7, 8}) == H264.Filter(nals, H264.IsParam)
    ensures IdrAt(nals) == H264.FirstIdr(nals)
    decreases |nals|
  {
    if nals == [] {
    } else {
      SelectIs(nals[1..]);
    }
  }

  lemma {:induction false} StreamIsJoin(units: seq<bytes>)
    ensures ByteStream(units) == Join(units)
    decreases |units|
  {
    if units == [] {
    } else {
      StreamIsJoin(units[1..]);
    }
  }

  /** What the parser writes for an access unit are the units it is to write. */
  lemma {:induction false} PictureWritten(sets: seq<bytes>, nals: seq<bytes>)
    ensures H264.OutputBytes(Join(sets), nals) == ByteStream([DELIMITER] + Picture(sets, nals))
  {
    hide ByteStream, Join, Select, IdrAt, H264.OutputBytes, H264.Filter, H264.FirstIdr;
    var k := IdrAt(nals);
    SelectIs(nals);
    SelectIs(nals[..k]);
    SelectIs(nals[k..]);
    H264.OutputIsJoin(sets, nals);
    StreamIsJoin([DELIMITER] + Picture(sets, nals));
  }

  /** A scanner gets the delimiter and those units back exactly if start codes can separate them. */
  lemma PictureScans(sets: seq<bytes>, p: Packet)
    requires PictureOf(sets, p) != [] && !p.header.isSeq && p.data[..4] != [0, 0, 0, 1]
    ensures var units := [DELIMITER] + Picture(sets, H264.ReadLengths(p.data).nals);
            Units(PictureOf(sets, p)[0]) == units <==> Separable(units)
  {
    hide Units, Separable, Picture, Join, ByteStream, H264.ReadLengths;
    StreamIsJoin([DELIMITER] + Picture(sets, H264.ReadLengths(p.data).nals));
    ScanInvertsJoin([DELIMITER] + Picture(sets, H264.ReadLengths(p.data).nals));
  }

  // ---- the codec parser

  lemma {:induction false} JoinSets(sets: seq<bytes>, more: seq<bytes>)
    ensures Join(sets + more) == Join(sets) + Join(more) && Join([]) == [] && Join(sets) + [] == Join(sets)
  {
    AnnexB.JoinAppend(sets, more);
  }

  /** One packet: the parameter sets known afterwards, and the picture that comes out. */
  lemma {:induction false} CodecStep(c: Codec, sets: seq<bytes>, p: Packet)
    requires HasHeader(p) && !p.isMetadata && Aac.IsConfig(c.config) && c.specific == Join(sets)
    ensures var (c', r) := Parse(c, p);
            c'.specific == Join(sets + SetsIn(p)) &&
            (p.isVideo ==> PictureOf(sets, p) == if r.Frame? then [r.data] else [])
  {
    hide Join, ByteStream, Picture, H264.OutputBytes, H264.ReadLengths, H264.ReadSpecific, Aac.ReadConfig,
         Aac.AdtsFrame, Aac.IsConfig;
    JoinSets(sets, SetsIn(p));
    if p.isVideo && !p.header.isSeq && |p.data| >= 4 {
      PictureWritten(sets, H264.ReadLengths(p.data).nals);
      StartCodeAt(p.data);
    }
  }

  lemma StartCodeAt(d: bytes)
    requires |d| >= 4
    ensures d[..4] == [0, 0, 0, 1] <==> H264.IsNaluHeader(d)
  {
    assert d[..4] == [d[0], d[1], d[2], d[3]];
  }

  /** The codec parser holds the parameter sets of all sequence headers that have arrived. */
  lemma {:induction false} SetsKnown(arrivals: seq<Arrival>)
    requires AllHaveHeaders(arrivals)
    ensures RunPackets(arrivals).0.specific == Join(ParameterSets(arrivals))
    decreases |arrivals|
  {
    hide Parse, Step, Join, SetsIn, Aac.IsConfig;
    if arrivals == [] {
      JoinSets([], []);
    } else {
      var n := |arrivals| - 1;
      SetsKnown(arrivals[..n]);
      var (c, p) := (RunPackets(arrivals[..n]).0, arrivals[n].p);
      if p.isMetadata {
        NoSets(p);
        assert ParameterSets(arrivals[..n]) + [] == ParameterSets(arrivals[..n]);
      } else {
        CodecStep(c, ParameterSets(arrivals[..n]), p);
      }
    }
  }

  lemma NoSets(p: Packet)
    requires p.isMetadata
    ensures SetsIn(p) == []
  {
  }

  // ---- the run

  lemma {:induction false} VideoMore(es: seq<Event>, e: Event)
    requires AllFrames(es + [e]) && IsFrame(e.p)
    ensures AllFrames(es)
    ensures var counts := e.p.isVideo && (VideoPackets(SinceKey(es)) != [] || e.p.header.isKeyFrame);
            VideoPackets(SinceKey(es + [e])) == VideoPackets(SinceKey(es)) + if counts then [e.p] else []
  {
    FramesOfLonger(es, e);
    hide FirstKey, SinceKey, VideoPackets;
    var all := es + [e];
    assert all[..|all| - 1] == es;
    SinceKeyGrows(all);
    VideoLast(SinceKey(es), e);
    StartsWithKey(es);
  }

  lemma {:induction false} VideoLast(es: seq<Event>, e: Event)
    requires AllFrames(es) && IsFrame(e.p)
    ensures VideoPackets(es + [e]) == VideoPackets(es) + if e.p.isVideo then [e.p] else []
    ensures VideoPackets([]) == [] && VideoPackets(es) + [] == VideoPackets(es)
  {
    assert (es + [e])[..|es|] == es;
  }

  lemma {:induction false} StartsWithKey(es: seq<Event>)
    requires AllFrames(es)
    ensures VideoPackets(SinceKey(es)) != [] <==> FirstKey(es) < |es|
  {
    hide FirstKey;
    var r := SinceKey(es);
    if r != [] {
      HasVideo(r);
    }
  }

  lemma {:induction false} HasVideo(es: seq<Event>)
    requires AllFrames(es) && es != [] && es[0].p.isVideo
    ensures VideoPackets(es) != []
    decreases |es|
  {
    if |es| == 1 {
      assert es[..0] == [];
    } else {
      HasVideo(es[..|es| - 1]);
    }
  }

  /** The video frames accepted since the first keyframe are the pictures that have arrived since. */
  lemma {:induction false} AcceptedVideo(arrivals: seq<Arrival>)
    requires AllHaveHeaders(arrivals)
    ensures VideoPackets(SinceKey(Accepted(arrivals))) == VideoArrived(arrivals)
    decreases |arrivals|
  {
    hide Parse, SinceKey, VideoPackets, PictureOf, RunPackets, AllFrames;
    if arrivals == [] {
      NoVideo();
    } else {
      var n := |arrivals| - 1;
      AcceptedVideo(arrivals[..n]);
      var (es, a) := (Accepted(arrivals[..n]), arrivals[n]);
      var more := AcceptedOf(RunPackets(arrivals[..n]).0, a.p, a.name);
      SharesVideo(arrivals[..n], a);
      if more == [] {
        assert es + more == es;
      } else {
        assert more == [more[0]];
        FramesWith(es, more[0]);
        VideoMore(es, more[0]);
      }
    }
  }

  lemma FramesWith(es: seq<Event>, e: Event)
    requires AllFrames(es) && AllFrames([e])
    ensures AllFrames(es + [e]) && IsFrame(e.p)
  {
    assert [e][0] == e;
  }

  lemma NoVideo()
    ensures VideoPackets(SinceKey([])) == []
  {
  }

  /** The event of one packet, if it is a video frame, carries its picture. */
  lemma {:induction false} SharesVideo(before: seq<Arrival>, a: Arrival)
    requires AllHaveHeaders(before) && HasHeader(a.p)
    ensures var (more, ds) := (AcceptedOf(RunPackets(before).0, a.p, a.name), PictureOf(ParameterSets(before), a.p));
            if a.p.isVideo then
              |more| == |ds| && (ds != [] ==> more[0].p == a.p.(data := ds[0]))
            else ds == [] && (more != [] ==> !more[0].p.isVideo)
  {
    hide Parse, PictureOf, RunPackets, Aac.IsConfig, AcceptedOf;
    SetsKnown(before);
    AcceptedIs(RunPackets(before).0, a.p, a.name);
    if !a.p.isVideo {
      NotVideo(ParameterSets(before), a.p);
    }
    if !a.p.isMetadata {
      CodecStep(RunPackets(before).0, ParameterSets(before), a.p);
    } else {
      NoPicture(ParameterSets(before), a.p);
    }
  }

  lemma AcceptedIs(c: Codec, p: Packet, name: string)
    requires HasHeader(p) && Aac.IsConfig(c.config)
    ensures var es := AcceptedOf(c, p, name);
            if p.isMetadata || Parse(c, p).1.Nothing? then es == []
            else |es| == 1 && es[0].p == p.(data := Parse(c, p).1.data)
  {
    hide Parse;
  }

  lemma NoPicture(sets: seq<bytes>, p: Packet)
    requires p.isMetadata
    ensures PictureOf(sets, p) == []
  {
  }

  lemma NotVideo(sets: seq<bytes>, p: Packet)
    requires !p.isVideo
    ensures PictureOf(sets, p) == []
  {
  }

  /** Over every sequence of packets: a receiver of the video PID has one unit for each picture that has arrived
      since the first accepted keyframe, in order, and reads from it that packet's own stamps and the delimiter,
      parameter sets and slices the picture is to have. */
  lemma {:induction false} VideoRecovered(arrivals: seq<Arrival>)
    requires AllHaveHeaders(arrivals)
    ensures var (us, ps) := (Rx(RunPackets(arrivals).1, 0x100).units, VideoArrived(arrivals));
            |us| == |ps| && forall j :: 0 <= j < |us| ==> VideoRead(us[j], ps[j])
  {
    hide Rx, Run, SinceKey, FromKey, VideoPackets, VideoRead, RunPackets, Accepted, VideoArrived;
    RunPacketsIsRun(arrivals);
    VideoPlays(Accepted(arrivals));
    SinceIsFrom(Accepted(arrivals));
    AcceptedVideo(arrivals);
  }

  /** The same for packets as they were put into the queue, up to the first one that cannot be read. */
  lemma {:induction false} QueuedVideo(arrivals: seq<Arrival>)
    ensures var (us, ps) := (Rx(RunQueued(arrivals).1, 0x100).units, VideoArrived(Opening(arrivals)));
            |us| == |ps| && forall j :: 0 <= j < |us| ==> VideoRead(us[j], ps[j])
  {
    hide Rx, VideoRead, RunPackets, RunQueued, Opening, VideoArrived;
    QueuedIsPackets(arrivals);
    VideoRecovered(Opening(arrivals));
  }
}
