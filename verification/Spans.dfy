/** Which frames are in which segment (protocol/hls/source.go:187-276; status.go): where a run is cut, how
    long a segment is, and what a receiver gets that has that segment alone. */
module Spans {
  import opened Bits
  import opened Av
  import opened TsReader
  import opened TsFormat
  import opened TsMuxer
  import opened HlsCache
  import opened Segmenter

  function StampAt(es: seq<Event>, i: nat): uint32
    requires i < |es|
  {
    es[i].p.timeStamp
  }

  /** The positions of the keyframes that open a segment: the first keyframe, and then each whose
      predecessor is at least three seconds later than the keyframe that opened the last one. */
  function Cuts(es: seq<Event>): (c: seq<nat>)
    requires AllFrames(es)
    ensures forall i :: 0 <= i < |c| ==> c[i] < |es|
  {
    if es == [] then []
    else
      var n := |es| - 1;
      var c := Cuts(es[..n]);
      if !IsKey(es[n].p) then c
      else if c == [] || StampAt(es, n - 1) - StampAt(es, c[|c| - 1]) >= DURATION then c + [n]
      else c
  }

  /** Each cut is a keyframe later than the one before it. */
  lemma {:induction false} CutsRise(es: seq<Event>)
    requires AllFrames(es)
    ensures var c := Cuts(es);
            (forall i :: 0 <= i < |c| ==> IsKey(es[c[i]].p)) && (forall i, j :: 0 <= i < j < |c| ==> c[i] < c[j])
    decreases |es|
  {
    if es == [] {
    } else {
      var before := es[..|es| - 1];
      CutsRise(before);
      assert forall i :: 0 <= i < |Cuts(before)| ==> before[Cuts(before)[i]] == es[Cuts(before)[i]];
    }
  }

  /** Where segment i ends; the last one is still being written. */
  function End(es: seq<Event>, i: nat): (k: nat)
    requires AllFrames(es) && i < |Cuts(es)|
    ensures Cuts(es)[i] < k <= |es|
  {
    CutsRise(es);
    var c := Cuts(es);
    if i + 1 == |c| then |es| else c[i + 1]
  }

  function Span(es: seq<Event>, i: nat): (r: seq<Event>)
    requires AllFrames(es) && i < |Cuts(es)|
    ensures AllFrames(r)
  {
    es[Cuts(es)[i]..End(es, i)]
  }

  // ---- a segment alone

  const BLANK := Receiver([], 0, true)

  /** The units of a PID that a receiver gets from these packets alone. */
  function Alone(d: bytes, pid: nat): seq<bytes> { Receive(d, pid, BLANK).units }

  /** The units do not depend on the counter. */
  lemma {:induction false} UnitsOnly(d: bytes, pid: nat, r: Receiver, t: Receiver)
    requires r.units == t.units
    ensures Receive(d, pid, r).units == Receive(d, pid, t).units
    decreases |d|
  {
    hide IsCell, Pid, StartsUnit, Payload, Extend, Counter;
    if |d| < CELL {
    } else {
      UnitsOnly(d[CELL..], pid, Take(r, d[..CELL], pid), Take(t, d[..CELL], pid));
    }
  }

  lemma {:induction false} AloneAppend(d: bytes, more: bytes, pid: nat, counter: nat)
    requires WholeCells(d)
    ensures Alone(d + more, pid) == Receive(more, pid, Receiver(Alone(d, pid), counter, true)).units
  {
    hide Receive, WholeCells;
    ReceiveAppend(d, more, pid, BLANK);
    UnitsOnly(more, pid, Receive(d, pid, BLANK), Receiver(Alone(d, pid), counter, true));
  }

  lemma MuxAlone(s: Seg, p: Packet)
    requires IsFrame(p) && WholeCells(s.open) && s.videoCc < 16 && s.audioCc < 16
    ensures var t := MuxInto(s, p);
            WholeCells(t.open) && t.videoCc < 16 && t.audioCc < 16 &&
            Alone(t.open, PidOf(p)) == Alone(s.open, PidOf(p)) + [ReceivedUnit(IsKey(p), PesOf(p))] &&
            (p.isVideo ==> Alone(t.open, AUDIO_PID) == Alone(s.open, AUDIO_PID)) &&
            (!p.isVideo ==> Alone(t.open, VIDEO_PID) == Alone(s.open, VIDEO_PID))
  {
    hide Alone, WholeCells, MuxedCount, ReceivedUnit, Muxed, PesOf;
    var cc := if p.isVideo then s.videoCc else s.audioCc;
    var (more, other) := (MuxBytes(p, cc), if p.isVideo then AUDIO_PID else VIDEO_PID);
    var (mine, theirs) := (Receiver(Alone(s.open, PidOf(p)), cc, true), Receiver(Alone(s.open, other), cc, true));
    AloneAppend(s.open, more, PidOf(p), cc);
    AloneAppend(s.open, more, other, cc);
    MuxedReceived(PidOf(p), IsKey(p), cc, Dts(p), PesOf(p), mine);
    MuxedForOthers(PidOf(p), other, IsKey(p), cc, Dts(p), PesOf(p), theirs);
    WholeAppend(s.open, more);
  }

  lemma TablesAlone(s: Seg)
    requires WholeCells(s.open) && s.patCc <= 16 && s.pmtCc <= 16
    ensures var t := WriteTables(s);
            WholeCells(t.open) && t.patCc <= 16 && t.pmtCc <= 16 &&
            Alone(t.open, VIDEO_PID) == Alone(s.open, VIDEO_PID) && Alone(t.open, AUDIO_PID) == Alone(s.open, AUDIO_PID)
  {
    hide Alone, WholeCells, Tables;
    var more := Tables(s.patCc, s.pmtCc);
    AloneAppend(s.open, more, VIDEO_PID, 0);
    AloneAppend(s.open, more, AUDIO_PID, 0);
    TablesReceived(s.patCc, s.pmtCc, VIDEO_PID, Receiver(Alone(s.open, VIDEO_PID), 0, true));
    TablesReceived(s.patCc, s.pmtCc, AUDIO_PID, Receiver(Alone(s.open, AUDIO_PID), 0, true));
    WholeAppend(s.open, more);
  }

  // ---- what a segment holds

  /** The video packets a receiver gets, and the audio bytes with those still waiting, are those of the span. */
  predicate HoldsSpan(d: bytes, waiting: seq<bytes>, span: seq<Event>)
    requires AllFrames(span)
  {
    Alone(d, VIDEO_PID) == VideoUnits(span) &&
    PayloadsOf(Alone(d, AUDIO_PID)) + Concat(waiting) == Concat(AudioFrames(span))
  }

  /** The open segment: its tables and counters are in order, and it holds its span. */
  ghost predicate OpenHolds(s: Seg, span: seq<Event>)
    requires AllFrames(span)
  {
    WholeCells(s.open) && s.videoCc < 16 && s.audioCc < 16 && s.patCc <= 16 && s.pmtCc <= 16 &&
    HoldsSpan(s.open, s.cache.frames, span)
  }

  lemma {:induction false} PayloadMore(units: seq<bytes>, u: bytes)
    ensures PayloadsOf(units + [u]) == PayloadsOf(units) + PayloadOf(u)
  {
    hide PayloadOf;
    assert (units + [u])[..|units|] == units;
  }

  lemma FlushHolds(s: Seg, limit: nat, span: seq<Event>)
    requires AllFrames(span) && OpenHolds(s, span)
    ensures OpenHolds(MuxAudio(s, limit), span)
  {
    hide Alone, WholeCells, MuxInto, PayloadOf, PayloadsOf, PesOf, VideoUnits, AudioFrames;
    if |s.cache.frames| >= limit {
      var p := GroupPacket(s.cache);
      MuxAlone(s, p);
      MuxIntoKeeps(s, p);
      PayloadOfPes(p);
      PayloadMore(Alone(s.open, AUDIO_PID), PesOf(p));
      ConcatNone();
    }
  }

  lemma ConcatNone()
    ensures Concat([]) == [] && forall b: bytes :: b + [] == b
  {
  }

  lemma {:induction false} SpanMore(span: seq<Event>, e: Event)
    requires AllFrames(span) && IsFrame(e.p)
    ensures VideoUnits(span + [e]) ==
      VideoUnits(span) + if e.p.isVideo then [ReceivedUnit(IsKey(e.p), PesOf(e.p))] else []
    ensures Concat(AudioFrames(span + [e])) == Concat(AudioFrames(span)) + if e.p.isVideo then [] else e.p.data
  {
    hide PesOf, ReceivedUnit, Concat;
    assert (span + [e])[..|span|] == span;
    assert AudioFrames(span) + [] == AudioFrames(span) && Concat(AudioFrames(span)) + [] == Concat(AudioFrames(span));
    ConcatMore(AudioFrames(span), e.p.data);
  }

  lemma {:induction false} ConcatMore(parts: seq<bytes>, b: bytes)
    ensures Concat(parts + [b]) == Concat(parts) + b
  {
    assert (parts + [b])[..|parts|] == parts;
  }

  /** One frame goes into the open segment. */
  lemma FrameHolds(s: Seg, span: seq<Event>, e: Event)
    requires AllFrames(span) && OpenHolds(s, span) && IsFrame(e.p)
    ensures OpenHolds(TsMux(s, e.p), span + [e])
  {
    hide Alone, WholeCells, MuxInto, MuxAudio, PayloadsOf, PesOf, VideoUnits, AudioFrames, Concat, ReceivedUnit;
    SpanMore(span, e);
    if e.p.isVideo {
      MuxAlone(s, e.p);
      MuxIntoKeeps(s, e.p);
      assert Concat(AudioFrames(span)) + [] == Concat(AudioFrames(span));
    } else {
      var t := s.(cache := AddFrame(s.cache, e.p.data, s.pts));
      ConcatMore(s.cache.frames, e.p.data);
      assert VideoUnits(span) + [] == VideoUnits(span);
      var a := PayloadsOf(Alone(s.open, AUDIO_PID));
      assert a + (Concat(s.cache.frames) + e.p.data) == a + Concat(s.cache.frames) + e.p.data;
      FlushHolds(t, CACHE_MAX_FRAMES, span + [e]);
    }
  }

  // ---- how the audio is grouped

  /** Audio goes out six frames at a time. */
  predicate Sixes(s: Seg, span: seq<Event>) {
    |AudioFrames(span)| == 6 * |Alone(s.open, AUDIO_PID)| + |s.cache.frames| && |s.cache.frames| < 6
  }

  lemma {:induction false} AudioMore(span: seq<Event>, e: Event)
    ensures |AudioFrames(span + [e])| == |AudioFrames(span)| + if e.p.isVideo then 0 else 1
  {
    assert (span + [e])[..|span|] == span;
  }

  lemma FrameSixes(s: Seg, span: seq<Event>, e: Event)
    requires AllFrames(span) && OpenHolds(s, span) && Sixes(s, span) && IsFrame(e.p)
    ensures Sixes(TsMux(s, e.p), span + [e])
  {
    hide Alone, WholeCells, MuxInto, HoldsSpan, AudioFrames, PesOf, ReceivedUnit;
    AudioMore(span, e);
    if e.p.isVideo {
      MuxAlone(s, e.p);
      MuxIntoKeeps(s, e.p);
    } else {
      var t := s.(cache := AddFrame(s.cache, e.p.data, s.pts));
      if |t.cache.frames| == 6 {
        MuxAlone(t, GroupPacket(t.cache));
        MuxIntoKeeps(t, GroupPacket(t.cache));
      }
    }
  }

  /** What waits when a segment ends goes out as one more group. */
  lemma {:induction false} CutSixes(s: Seg, span: seq<Event>)
    requires AllFrames(span) && OpenHolds(s, span) && Sixes(s, span)
    ensures |Alone(MuxAudio(s, 1).open, AUDIO_PID)| == (|AudioFrames(span)| + 5) / 6
  {
    hide Alone, WholeCells, MuxInto, HoldsSpan, AudioFrames, PesOf, ReceivedUnit;
    if |s.cache.frames| >= 1 {
      MuxAlone(s, GroupPacket(s.cache));
      MuxIntoKeeps(s, GroupPacket(s.cache));
    }
  }

  lemma SameSixes(s: Seg, t: Seg, span: seq<Event>)
    requires Sixes(s, span) && s.open == t.open && s.cache.frames == t.cache.frames
    ensures Sixes(t, span)
  {
    hide Alone, AudioFrames;
  }

  lemma FirstSixes(s: Seg)
    requires s.open == [] && s.cache.frames == [] && s.patCc <= 16 && s.pmtCc <= 16
    ensures Sixes(WriteTables(s), [])
  {
    hide Tables;
    TablesAlone(s);
  }

  /** Clocks and statistics do not matter. */
  lemma SameHolds(s: Seg, t: Seg, span: seq<Event>)
    requires AllFrames(span) && OpenHolds(s, span)
    requires s.open == t.open && s.cache.frames == t.cache.frames
    requires s.videoCc == t.videoCc && s.audioCc == t.audioCc && s.patCc == t.patCc && s.pmtCc == t.pmtCc
    ensures OpenHolds(t, span)
  {
    hide HoldsSpan, WholeCells;
  }

  lemma NothingHeld(s: Seg)
    requires s.open == [] && s.cache.frames == []
    requires s.videoCc < 16 && s.audioCc < 16 && s.patCc <= 16 && s.pmtCc <= 16
    ensures OpenHolds(s, [])
  {
  }

  lemma TablesHold(s: Seg, span: seq<Event>)
    requires AllFrames(span) && OpenHolds(s, span)
    ensures OpenHolds(WriteTables(s), span)
  {
    hide Alone, WholeCells, Tables, PayloadsOf, VideoUnits, AudioFrames, Concat;
    TablesAlone(s);
  }

  // ---- runs

  /** The published segments are the spans between the cuts: each holds the frames of its own span and no
      others, and lasts from its keyframe to the frame before the next cut. */
  ghost predicate SpansHold(s: Seg, es: seq<Event>)
    requires AllFrames(es)
  {
    var c := Cuts(es);
    (s.started <==> c != []) && |s.published| == (if c == [] then 0 else |c| - 1) &&
    forall i :: 0 <= i < |s.published| ==> SegmentHolds(s.published[i].item, es, i)
  }

  ghost predicate SegmentHolds(item: TSItem, es: seq<Event>, i: nat)
    requires AllFrames(es) && i + 1 < |Cuts(es)|
  {
    HoldsSpan(item.data, [], Span(es, i)) &&
    |Alone(item.data, AUDIO_PID)| == (|AudioFrames(Span(es, i))| + 5) / 6 &&
    item.duration == StampAt(es, End(es, i) - 1) - StampAt(es, Cuts(es)[i])
  }

  ghost predicate LastHolds(s: Seg, es: seq<Event>)
    requires AllFrames(es)
  {
    var c := Cuts(es);
    if c == [] then
      s.open == [] && s.cache.frames == [] && s.videoCc < 16 && s.audioCc < 16 && s.patCc <= 16 && s.pmtCc <= 16 &&
      !s.stat.hasSetFirstTs
    else
      OpenHolds(s, Span(es, |c| - 1)) && Sixes(s, Span(es, |c| - 1)) &&
      s.stat == Status(true, StampAt(es, c[|c| - 1]), StampAt(es, |es| - 1))
  }

  function Accept(s: Seg, e: Event): Seg
    requires IsFrame(e.p)
  {
    TsMux(CalcPtsDts(s.(stat := Update(s.stat, e.p.timeStamp)), e.p, e.inc), e.p)
  }

  lemma AcceptHolds(s: Seg, span: seq<Event>, e: Event)
    requires AllFrames(span) && IsFrame(e.p) && OpenHolds(s, span) && Sixes(s, span)
    ensures var t := Accept(s, e);
            OpenHolds(t, span + [e]) && Sixes(t, span + [e]) && t.stat == Update(s.stat, e.p.timeStamp) &&
            t.published == s.published && t.started == s.started
  {
    hide OpenHolds, Sixes, MuxInto, MuxAudio, Aligned;
    var s3 := CalcPtsDts(s.(stat := Update(s.stat, e.p.timeStamp)), e.p, e.inc);
    SameHolds(s, s3, span);
    SameSixes(s, s3, span);
    FrameHolds(s3, span, e);
    FrameSixes(s3, span, e);
    if e.p.isVideo {
      MuxIntoKeeps(s3, e.p);
    } else {
      MuxAudioKeeps(s3.(cache := AddFrame(s3.cache, e.p.data, s3.pts)), CACHE_MAX_FRAMES);
    }
  }

  /** A frame that is no cut prolongs the last span. */
  lemma {:induction false} GrowLast(es: seq<Event>)
    requires es != [] && AllFrames(es) && Cuts(es) == Cuts(es[..|es| - 1]) != []
    ensures var (before, k) := (es[..|es| - 1], |Cuts(es)| - 1);
            Span(es, k) == Span(before, k) + [es[|es| - 1]]
  {
    hide Cuts;
    var before := es[..|es| - 1];
    var c := Cuts(es)[|Cuts(es)| - 1];
    assert es[c..] == before[c..] + [es[|es| - 1]];
  }

  /** A cut begins a span of its own. */
  lemma {:induction false} GrowCut(es: seq<Event>)
    requires es != [] && AllFrames(es) && Cuts(es) == Cuts(es[..|es| - 1]) + [|es| - 1]
    ensures Span(es, |Cuts(es)| - 1) == [es[|es| - 1]]
  {
    hide Cuts;
  }

  /** Earlier spans stay as they are. */
  lemma {:induction false} SpanStays(es: seq<Event>, i: nat)
    requires es != [] && AllFrames(es)
    requires i < |Cuts(es[..|es| - 1])| && i + 1 < |Cuts(es)|
    requires Cuts(es[..|es| - 1]) <= Cuts(es)
    requires |Cuts(es)| == |Cuts(es[..|es| - 1])| + 1 ==> Cuts(es)[|Cuts(es)| - 1] == |es| - 1
    requires |Cuts(es)| <= |Cuts(es[..|es| - 1])| + 1
    ensures Cuts(es)[i] == Cuts(es[..|es| - 1])[i] && End(es, i) == End(es[..|es| - 1], i)
    ensures Span(es, i) == Span(es[..|es| - 1], i)
  {
    hide Cuts;
    var before := es[..|es| - 1];
    var (b, c) := (Cuts(before), Cuts(es));
    assert b[i] == c[i];
    if i + 1 < |b| {
      assert b[i + 1] == c[i + 1];
    }
    assert before[c[i]..End(es, i)] == es[c[i]..End(es, i)];
  }

  lemma {:induction false} SegmentStays(es: seq<Event>, i: nat, item: TSItem)
    requires es != [] && AllFrames(es) && i + 1 < |Cuts(es[..|es| - 1])|
    requires SegmentHolds(item, es[..|es| - 1], i)
    ensures i + 1 < |Cuts(es)| && SegmentHolds(item, es, i)
  {
    hide HoldsSpan, Span, End, Alone, AudioFrames;
    CutsGrow(es);
    SpanStays(es, i);
  }

  lemma {:induction false} CutsGrow(es: seq<Event>)
    requires es != [] && AllFrames(es)
    ensures var (b, c, n) := (Cuts(es[..|es| - 1]), Cuts(es), |es| - 1); c == b || c == b + [n]
  {
  }

  /** The cut is where the segmenter cuts. */
  lemma {:induction false} CutIff(es: seq<Event>)
    requires es != [] && AllFrames(es)
    requires SpansHold(Run(es[..|es| - 1]), es[..|es| - 1]) && LastHolds(Run(es[..|es| - 1]), es[..|es| - 1])
    ensures var (before, n) := (es[..|es| - 1], |es| - 1);
            Cuts(es) == Cuts(before) + if OpensSegment(Run(before), es[n]) then [n] else []
  {
    hide OpenHolds, Sixes, SegmentHolds, Span, Run;
  }

  lemma {:induction false} StepSpans(es: seq<Event>)
    requires es != [] && AllFrames(es)
    requires SpansHold(Run(es[..|es| - 1]), es[..|es| - 1]) && LastHolds(Run(es[..|es| - 1]), es[..|es| - 1])
    ensures SpansHold(Run(es), es) && LastHolds(Run(es), es)
  {
    hide Run, Cuts, OpensSegment, SpansHold, LastHolds, Step;
    var (before, n) := (es[..|es| - 1], |es| - 1);
    CutIff(es);
    LastStep(es);
    if !OpensSegment(Run(before), es[n]) {
      assert Cuts(before) + [] == Cuts(before);
      StepOn(es);
    } else if Cuts(before) == [] {
      StepFirst(es);
    } else {
      StepCut(es);
    }
  }

  lemma {:induction false} LastStep(es: seq<Event>)
    requires es != [] && AllFrames(es)
    ensures Run(es) == Step(Run(es[..|es| - 1]), es[|es| - 1])
  {
  }

  lemma {:induction false} StepOn(es: seq<Event>)
    requires es != [] && AllFrames(es)
    requires var (before, n) := (es[..|es| - 1], |es| - 1);
             SpansHold(Run(before), before) && LastHolds(Run(before), before) &&
             !OpensSegment(Run(before), es[n]) && Cuts(es) == Cuts(before) &&
             Run(es) == Step(Run(before), es[n])
    ensures SpansHold(Run(es), es) && LastHolds(Run(es), es)
  {
    hide Run, Cuts, OpenHolds, Sixes, SegmentHolds, Alone, AudioFrames, Span, Accept, MuxAudio, WriteTables, Publish;
    var (before, n, c) := (es[..|es| - 1], |es| - 1, Cuts(es));
    var s := Run(before);
    StepAccepts(s, es[n]);
    if c != [] {
      GrowLast(es);
      AcceptHolds(s, Span(before, |c| - 1), es[n]);
      forall i | 0 <= i < |s.published|
        ensures SegmentHolds(s.published[i].item, es, i)
      {
        SegmentStays(es, i, s.published[i].item);
      }
    }
  }

  lemma StepAccepts(s: Seg, e: Event)
    requires IsFrame(e.p) && !OpensSegment(s, e)
    ensures Step(s, e) == if s.started then Accept(s, e) else s
  {
    hide MuxInto, MuxAudio, Aligned, WriteTables, Publish;
  }

  lemma {:induction false} StepFirst(es: seq<Event>)
    requires es != [] && AllFrames(es)
    requires var (before, n) := (es[..|es| - 1], |es| - 1);
             SpansHold(Run(before), before) && LastHolds(Run(before), before) && Cuts(before) == [] &&
             OpensSegment(Run(before), es[n]) && Cuts(es) == Cuts(before) + [n] &&
             Run(es) == Step(Run(before), es[n])
    ensures SpansHold(Run(es), es) && LastHolds(Run(es), es)
  {
    hide Run, Cuts, OpenHolds, Sixes, SegmentHolds, Alone, AudioFrames, Span, Accept, MuxAudio, WriteTables, Publish,
         Step;
    var (before, n) := (es[..|es| - 1], |es| - 1);
    var s := Run(before);
    var t := s.(started := true);
    FirstAccepts(s, es[n]);
    NothingHeld(t);
    FirstSixes(t);
    TablesHold(t, []);
    AcceptHolds(WriteTables(t), [], es[n]);
    GrowCut(es);
    assert [] + [es[n]] == [es[n]];
    TablesKeep(t);
  }

  lemma FirstAccepts(s: Seg, e: Event)
    requires IsFrame(e.p) && !s.started && OpensSegment(s, e)
    ensures Step(s, e) == Accept(WriteTables(s.(started := true)), e) && WriteTables(s.(started := true)).started
  {
    hide MuxInto, MuxAudio, Aligned, Tables;
  }

  lemma TablesKeep(s: Seg)
    ensures var t := WriteTables(s);
            t.stat == s.stat && t.published == s.published && t.started == s.started
  {
    hide Tables;
  }

  lemma CutAccepts(s: Seg, e: Event)
    requires IsFrame(e.p) && s.started && OpensSegment(s, e)
    ensures Step(s, e) == Accept(WriteTables(Publish(MuxAudio(s, 1), e.name)), e)
    ensures MuxAudio(s, 1).started && MuxAudio(s, 1).stat == s.stat && MuxAudio(s, 1).published == s.published
    ensures MuxAudio(s, 1).cache.frames == []
  {
    hide MuxInto, Aligned, Tables;
    MuxAudioKeeps(s, 1);
  }

  lemma {:induction false} StepCut(es: seq<Event>)
    requires es != [] && AllFrames(es)
    requires var (before, n) := (es[..|es| - 1], |es| - 1);
             SpansHold(Run(before), before) && LastHolds(Run(before), before) && Cuts(before) != [] &&
             OpensSegment(Run(before), es[n]) && Cuts(es) == Cuts(before) + [n] &&
             Run(es) == Step(Run(before), es[n])
    ensures SpansHold(Run(es), es) && LastHolds(Run(es), es)
  {
    hide Run, Cuts, OpenHolds, Sixes, SegmentHolds, Alone, AudioFrames, HoldsSpan, Span, Accept, MuxAudio,
         WriteTables, Step, OpensSegment;
    var (before, n) := (es[..|es| - 1], |es| - 1);
    var (s, k) := (Run(before), |Cuts(before)| - 1);
    var t := MuxAudio(s, 1);
    var u := Publish(t, es[n].name);
    CutAccepts(s, es[n]);
    FlushHolds(s, 1, Span(before, k));
    CutSixes(s, Span(before, k));
    Emptied(t, Span(before, k));
    NothingHeld(u);
    FirstSixes(u);
    TablesHold(u, []);
    TablesKeep(u);
    AcceptHolds(WriteTables(u), [], es[n]);
    GrowCut(es);
    assert [] + [es[n]] == [es[n]];
    forall i | 0 <= i < |u.published|
      ensures SegmentHolds(u.published[i].item, es, i)
    {
      if i < k {
        SegmentStays(es, i, s.published[i].item);
      } else {
        LastPublished(es, t, u.published[k].item);
      }
    }
  }

  lemma Emptied(t: Seg, span: seq<Event>)
    requires AllFrames(span) && OpenHolds(t, span) && t.cache.frames == []
    ensures HoldsSpan(t.open, [], span)
    ensures t.videoCc < 16 && t.audioCc < 16 && t.patCc <= 16 && t.pmtCc <= 16
  {
    hide HoldsSpan;
  }

  lemma {:induction false} LastPublished(es: seq<Event>, t: Seg, item: TSItem)
    requires es != [] && AllFrames(es) && Cuts(es[..|es| - 1]) != []
    requires Cuts(es) == Cuts(es[..|es| - 1]) + [|es| - 1]
    requires var (before, k) := (es[..|es| - 1], |Cuts(es[..|es| - 1])| - 1);
             HoldsSpan(t.open, [], Span(before, k)) &&
             |Alone(t.open, AUDIO_PID)| == (|AudioFrames(Span(before, k))| + 5) / 6 &&
             item.data == t.open && item.duration == DurationMs(t.stat) &&
             t.stat == Status(true, StampAt(before, Cuts(before)[k]), StampAt(before, |before| - 1))
    ensures var k := |Cuts(es[..|es| - 1])| - 1; SegmentHolds(item, es, k)
  {
    hide HoldsSpan, Span, Cuts, Alone, AudioFrames;
    SpanStays(es, |Cuts(es[..|es| - 1])| - 1);
  }

  /** In every run the published segments are the spans between the cuts.  Whoever has one segment alone gets
      from it the video packets and the audio bytes of the frames of its span, all of them and no others;
      and it lasts from the keyframe that opens it to the last frame before the next cut. */
  lemma {:induction false} RunSpans(es: seq<Event>)
    requires AllFrames(es)
    ensures SpansHold(Run(es), es) && LastHolds(Run(es), es)
    decreases |es|
  {
    hide SpansHold, LastHolds, Run;
    if es == [] {
      NoSpans();
    } else {
      RunSpans(es[..|es| - 1]);
      StepSpans(es);
    }
  }

  lemma {:induction false} NoSpans()
    ensures SpansHold(Run([]), []) && LastHolds(Run([]), [])
  {
  }
}
