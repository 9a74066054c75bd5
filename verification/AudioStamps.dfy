/** The time stamps of the audio (protocol/hls/align.go:12-29, audio_cache.go:24-40, source.go:244-276): of
    each group of frames that is sent as one packet, against the stamp its first frame arrived with. */
module AudioStamps {
  import opened Bits
  import opened Av
  import opened Pes
  import opened TsReader
  import opened TsFormat
  import opened TsMuxer
  import opened Segmenter

  function Stamps(es: seq<Event>): seq<uint32> {
    if es == [] then []
    else
      var p := es[|es| - 1].p;
      Stamps(es[..|es| - 1]) + if p.isVideo then [] else [p.timeStamp]
  }

  /** Within two milliseconds. */
  predicate Near(pts: nat, stamp: uint32) { -180 <= pts - stamp * 90 <= 180 }

  /** How many frames were sent before group j. */
  function Begin(groups: seq<Group>, j: nat): nat
    requires j <= |groups|
  {
    |GroupedFrames(groups[..j])|
  }

  /** Each group sent, and the one waiting, has a stamp near that of its first frame. */
  predicate AllNear(s: Seg, stamps: seq<uint32>) {
    |stamps| == Begin(s.groups, |s.groups|) + |s.cache.frames| &&
    (s.cache.frames != [] ==> Near(s.cache.pts, stamps[|stamps| - |s.cache.frames|])) &&
    forall j :: 0 <= j < |s.groups| ==>
      Begin(s.groups, j) < |stamps| && Near(s.groups[j].pts, stamps[Begin(s.groups, j)])
  }

  lemma AlignedNear(a: Align, stamp: uint32, inc: nat)
    ensures Near(Aligned(a, stamp * 90, inc).1, stamp)
  {
    var est := a.frameBase + a.frameNum * inc;
    assert Aligned(a, stamp * 90, inc).1 == stamp * 90 || -SYNC_TICKS <= est - stamp * 90 <= SYNC_TICKS;
  }

  /** From one audio frame to the next the clock runs on by exactly one frame while that keeps it within 180 ticks
      of the stamp, and takes over the stamp otherwise. */
  lemma ClockRunsOn(a: Align, dts: nat, next: nat, inc: nat)
    ensures var (b, d) := Aligned(a, dts, inc);
            Aligned(b, next, inc).1 == if -180 <= d + inc - next <= 180 then d + inc else next
  {
    var (b, d) := Aligned(a, dts, inc);
    NextFrame(a, inc);
    assert b.frameBase + b.frameNum * inc == d + inc;
  }

  lemma NextFrame(a: Align, inc: nat)
    ensures a.frameBase + (a.frameNum + 1) * inc == a.frameBase + a.frameNum * inc + inc
  {
  }

  lemma {:induction false} BeginMore(groups: seq<Group>, g: Group)
    ensures forall j :: 0 <= j <= |groups| ==> Begin(groups + [g], j) == Begin(groups, j)
    ensures Begin(groups + [g], |groups| + 1) == Begin(groups, |groups|) + |g.frames|
  {
    hide GroupedFrames;
    assert forall j :: 0 <= j <= |groups| ==> (groups + [g])[..j] == groups[..j];
    assert (groups + [g])[..|groups| + 1] == groups + [g] && groups[..|groups|] == groups;
    GroupedMore(groups, g);
  }

  lemma {:induction false} GroupedMore(groups: seq<Group>, g: Group)
    ensures |GroupedFrames(groups + [g])| == |GroupedFrames(groups)| + |g.frames|
  {
    assert (groups + [g])[..|groups|] == groups;
  }

  lemma FlushNear(s: Seg, limit: nat, stamps: seq<uint32>)
    requires limit > 0 && AllNear(s, stamps)
    ensures AllNear(MuxAudio(s, limit), stamps)
  {
    hide MuxInto, Begin, Near;
    if |s.cache.frames| >= limit {
      MuxIntoKeeps(s, GroupPacket(s.cache));
      BeginMore(s.groups, s.cache);
    }
  }

  lemma SameNear(s: Seg, t: Seg, stamps: seq<uint32>)
    requires AllNear(s, stamps) && s.groups == t.groups && s.cache == t.cache
    ensures AllNear(t, stamps)
  {
    hide Begin, Near;
  }

  lemma AddNear(s: Seg, stamps: seq<uint32>, frame: bytes, stamp: uint32)
    requires AllNear(s, stamps) && Near(s.pts, stamp)
    ensures AllNear(s.(cache := AddFrame(s.cache, frame, s.pts)), stamps + [stamp])
  {
    hide Begin, Near;
  }

  lemma CutNear(s: Seg, name: string, stamps: seq<uint32>)
    requires AllNear(s, stamps)
    ensures AllNear(Cut(s, name), stamps)
  {
    hide AllNear, MuxAudio, Tables;
    if s.started && DurationMs(s.stat) >= DURATION {
      FlushNear(s, 1, stamps);
      SameNear(MuxAudio(s, 1), Cut(s, name), stamps);
    } else {
      SameNear(s, Cut(s, name), stamps);
    }
  }

  lemma StepNear(s: Seg, e: Event, stamps: seq<uint32>)
    requires AllNear(s, stamps) && IsFrame(e.p)
    ensures var t := Step(s, e);
            AllNear(t, if t.started && !e.p.isVideo then stamps + [e.p.timeStamp] else stamps)
  {
    hide AllNear, Cut, MuxInto, MuxAudio, Aligned, Near;
    var s1 := if IsKey(e.p) then Cut(s, e.name) else s;
    CutNear(s, e.name, stamps);
    if s1.started {
      var s3 := CalcPtsDts(s1.(stat := Update(s1.stat, e.p.timeStamp)), e.p, e.inc);
      SameNear(s1, s3, stamps);
      if e.p.isVideo {
        MuxIntoKeeps(s3, e.p);
        SameNear(s3, MuxInto(s3, e.p), stamps);
      } else {
        AlignedNear(s1.align, e.p.timeStamp, e.inc);
        AddNear(s3, stamps, e.p.data, e.p.timeStamp);
        var s4 := s3.(cache := AddFrame(s3.cache, e.p.data, s3.pts));
        FlushNear(s4, CACHE_MAX_FRAMES, stamps + [e.p.timeStamp]);
        MuxAudioKeeps(s4, CACHE_MAX_FRAMES);
      }
    }
  }

  lemma {:induction false} StampsMore(es: seq<Event>)
    requires es != [] && AllFrames(es)
    ensures var (before, e) := (es[..|es| - 1], es[|es| - 1]);
            Stamps(SinceKey(es)) == Stamps(SinceKey(before)) +
              if FirstKey(es) < |es| && !e.p.isVideo then [e.p.timeStamp] else []
  {
    hide SinceKey, FirstKey;
    SinceKeyGrows(es);
    var (before, r) := (es[..|es| - 1], SinceKey(es));
    if r != [] {
      assert r[..|r| - 1] == SinceKey(before) && r[|r| - 1] == es[|es| - 1];
    }
  }

  /** Over every run: the stamp of each audio group is within two milliseconds of the one its first frame
      arrived with. */
  lemma {:induction false} RunNear(es: seq<Event>)
    requires AllFrames(es)
    ensures AllNear(Run(es), Stamps(SinceKey(es)))
    decreases |es|
  {
    hide AllNear, Step, Sound, AudioKept, Rx;
    if es == [] {
      NothingNear();
    } else {
      hide SinceKey, Stamps, FirstKey;
      var (before, e) := (es[..|es| - 1], es[|es| - 1]);
      RunNear(before);
      RunReceived(es);
      StampsMore(es);
      StepNear(Run(before), e, Stamps(SinceKey(before)));
      assert Stamps(SinceKey(before)) + [] == Stamps(SinceKey(before));
    }
  }

  lemma NothingNear()
    ensures AllNear(INITIAL, [])
  {
  }

  // ---- what a receiver reads

  /** The presentation time of a PES packet, or -1. */
  function PtsOf(unit: bytes): int {
    match Parse(unit)
    case Malformed => -1
    case Pes(_, _, pts, _, _) => pts
  }

  /** The presentation time read for a frame stamped at this millisecond. */
  function PtsAt(ms: nat): nat { Received(ms % 0x1_0000_0000 * 90) }

  lemma {:induction false} UnitAt(groups: seq<Group>, j: nat)
    requires j < |groups|
    ensures |GroupUnits(groups)| == |groups| && GroupUnits(groups)[j] == PesOf(GroupPacket(groups[j]))
    decreases |groups|
  {
    hide PesOf;
    var before := groups[..|groups| - 1];
    if before == [] {
    } else if j == |before| {
      UnitAt(before, 0);
    } else {
      UnitAt(before, j);
    }
  }

  lemma GroupPts(g: Group)
    ensures PtsOf(PesOf(GroupPacket(g))) == PtsAt(g.pts / 90)
  {
    hide Parse, Received, PesPacket, Concat;
    var p := GroupPacket(g);
    ParseInverts(p, Pts(p), Dts(p));
  }

  /** The time a receiver reads is that of a millisecond at most two away from the stamp. */
  predicate PlaysAt(unit: bytes, stamp: uint32) {
    exists ms: nat :: stamp - 2 <= ms <= stamp + 2 && PtsOf(unit) == PtsAt(ms)
  }

  /** Over every run a receiver plays each audio packet at most two milliseconds away from the time at which
      its first frame was stamped. */
  lemma {:induction false} AudioPlaysInTime(es: seq<Event>)
    requires AllFrames(es)
    ensures var (s, stamps) := (Run(es), Stamps(SinceKey(es)));
            var units := Rx(s, AUDIO_PID).units;
            |units| == |s.groups| &&
            forall j :: 0 <= j < |units| ==>
              Begin(s.groups, j) < |stamps| && PlaysAt(units[j], stamps[Begin(s.groups, j)])
  {
    hide Rx, Good, Run, SinceKey, Stamps, Begin, PlaysAt, GroupUnits, Near;
    RunReceived(es);
    RunNear(es);
    var (s, stamps) := (Run(es), Stamps(SinceKey(es)));
    UnitsOfGroups(s.groups);
    forall j | 0 <= j < |s.groups|
      ensures PlaysAt(GroupUnits(s.groups)[j], stamps[Begin(s.groups, j)])
    {
      UnitAt(s.groups, j);
      GroupPlays(s.groups[j], stamps[Begin(s.groups, j)]);
    }
  }

  lemma {:induction false} UnitsOfGroups(groups: seq<Group>)
    ensures |GroupUnits(groups)| == |groups|
  {
    if groups == [] {
    } else {
      UnitAt(groups, 0);
    }
  }

  lemma GroupPlays(g: Group, stamp: uint32)
    requires Near(g.pts, stamp)
    ensures PlaysAt(PesOf(GroupPacket(g)), stamp)
  {
    hide PesOf, PtsAt, PtsOf;
    GroupPts(g);
    assert stamp - 2 <= g.pts / 90 <= stamp + 2;
  }
}
