/** The audio of the HLS source, from the packets that arrive to the raw frames a receiver has
    (protocol/hls/source.go:120-276, parser/aac/parser.go:50-95). */
module AudioSource {
  import opened Bits
  import opened Av
  import opened TsReader
  import opened Segmenter
  import opened HlsSource
  import VideoSource
  import Aac
  import H264
  import AnnexB

  /** The configuration after a packet: a sequence header of AAC brings one, if it has two bytes. */
  function ConfigAfter(config: Aac.Config, p: Packet): Aac.Config {
    if !p.isVideo && !p.isMetadata && p.header.AudioHeader? && p.header.soundFormat == 10 &&
       p.header.aacPacketType == 0 && |p.data| >= 2 then Aac.ReadConfig(p.data)
    else config
  }

  function KnownConfig(arrivals: seq<Arrival>): Aac.Config {
    if arrivals == [] then Aac.NoConfig
    else var n := |arrivals| - 1; ConfigAfter(KnownConfig(arrivals[..n]), arrivals[n].p)
  }

  /** The raw frames of AAC that arrive after the first accepted keyframe, each with the configuration that was
      known by then. */
  function AudioArrived(arrivals: seq<Arrival>): seq<Aac.Unit> {
    if arrivals == [] then []
    else
      var (n, before) := (|arrivals| - 1, arrivals[..|arrivals| - 1]);
      var (p, config) := (arrivals[n].p, KnownConfig(before));
      AudioArrived(before) +
        if VideoSource.VideoArrived(before) != [] && !p.isVideo && !p.isMetadata && p.header.AudioHeader? &&
           p.header.soundFormat == 10 && p.header.aacPacketType == 1 && p.data != [] && config.Config?
        then [Aac.Unit(config, p.data)] else []
  }

  lemma CodecConfig(c: Codec, p: Packet)
    requires HasHeader(p) && !p.isMetadata && Aac.IsConfig(c.config)
    ensures Parse(c, p).0.config == ConfigAfter(c.config, p)
  {
    hide Aac.ReadConfig, Aac.AdtsFrame, Aac.IsConfig, H264.ReadSpecific, H264.Annexed, H264.AnnexedError,
         H264.IsNaluHeader, AnnexB.Join;
  }

  lemma {:induction false} ConfigKnown(arrivals: seq<Arrival>)
    requires AllHaveHeaders(arrivals)
    ensures RunPackets(arrivals).0.config == KnownConfig(arrivals)
    decreases |arrivals|
  {
    hide Parse, Step, ConfigAfter, Aac.IsConfig;
    if arrivals == [] {
    } else {
      var n := |arrivals| - 1;
      ConfigKnown(arrivals[..n]);
      var (c, p) := (RunPackets(arrivals[..n]).0, arrivals[n].p);
      if p.isMetadata {
        NoConfigIn(c.config, p);
      } else {
        CodecConfig(c, p);
      }
    }
  }

  lemma NoConfigIn(config: Aac.Config, p: Packet)
    requires p.isMetadata
    ensures ConfigAfter(config, p) == config
  {
  }

  /** A segment is begun exactly if a picture has arrived since a keyframe. */
  lemma {:induction false} StartedIff(arrivals: seq<Arrival>)
    requires AllHaveHeaders(arrivals)
    ensures RunPackets(arrivals).1.started <==> VideoSource.VideoArrived(arrivals) != []
  {
    hide Run, RunPackets, Accepted, SinceKey, FirstKey, VideoSource.VideoArrived;
    RunPacketsIsRun(arrivals);
    RunReceivedStarted(Accepted(arrivals));
    VideoSource.AcceptedVideo(arrivals);
    VideoSource.StartsWithKey(Accepted(arrivals));
  }

  lemma {:induction false} UnitsAre(arrivals: seq<Arrival>)
    requires AllHaveHeaders(arrivals)
    ensures RawUnits(arrivals) == AudioArrived(arrivals)
    decreases |arrivals|
  {
    hide RunPackets, VideoSource.VideoArrived, KnownConfig, Aac.IsConfig;
    if arrivals == [] {
    } else {
      var n := |arrivals| - 1;
      UnitsAre(arrivals[..n]);
      ConfigKnown(arrivals[..n]);
      StartedIff(arrivals[..n]);
    }
  }

  /** Over every sequence of packets: cutting the audio a receiver has, with what still waits in the cache, by its
      length fields gives back the raw frames that have arrived since the first accepted keyframe, exactly if
      none of them is longer than 8184 bytes. */
  lemma {:induction false} AudioRecovered(arrivals: seq<Arrival>)
    requires AllHaveHeaders(arrivals)
    ensures var (s, units) := (RunPackets(arrivals).1, AudioArrived(arrivals));
            Aac.Split(PayloadsOf(Rx(s, 0x101).units) + Concat(s.cache.frames)) == Aac.Raws(units) <==>
            forall i :: 0 <= i < |units| ==> |units[i].raw| <= 8184
  {
    hide Rx, PayloadsOf, Concat, RunPackets, RawUnits, AudioArrived, Aac.Split, Aac.Raws;
    UnitsAre(arrivals);
    HlsSource.AudioRecovered(arrivals);
  }

  /** The clock goes on by 1024 samples for each audio frame: in ticks of 90 kHz, rounded down. */
  lemma {:induction false} FrameTicks(before: seq<Arrival>, a: Arrival)
    requires AllHaveHeaders(before) && HasHeader(a.p)
    ensures var es := AcceptedOf(RunPackets(before).0, a.p, a.name);
            es != [] && !a.p.isVideo ==> es[0].inc == 90000 * 1024 / Aac.Rate(KnownConfig(before + [a]))
  {
    hide Parse, RunPackets, ConfigAfter, Aac.IsConfig, Aac.Rate;
    ConfigKnown(before);
    assert (before + [a])[..|before|] == before;
    if !a.p.isMetadata {
      CodecConfig(RunPackets(before).0, a.p);
    }
  }
}
