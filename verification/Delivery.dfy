/** What a receiver makes of one packet and of a whole run, in the packet's own fields
    (container/ts/muxer.go:33-158, protocol/hls/source.go:187-276). */
module Delivery {
  import opened Bits
  import opened Av
  import opened Pes
  import opened TsReader
  import opened TsFormat
  import opened TsMuxer
  import opened Segmenter
  import opened Spans

  /** Its header: 14 bytes, and five more where presentation and decoding time differ. */
  function PesLength(p: Packet): nat
    requires p.header.VideoHeader?
  {
    |p.data| + if p.header.compositionTime == 0 then 14 else 19
  }

  /** The video packets that come through whole. */
  predicate Whole(p: Packet)
    requires p.header.VideoHeader?
  {
    !p.header.isKeyFrame || PesLength(p) >= 184 || PesLength(p) == 176
  }

  /** The number of bytes behind the length field of a PES packet, or 0 where it does not fit. */
  function LengthOf(n: nat): nat { if n - 6 > 0xffff || n < 6 then 0 else n - 6 }

  /** What is read from the unit of a video packet: stream 0xe0, both stamps in ticks of 90 to the
      millisecond, and the data; or nothing at all. */
  predicate VideoRead(unit: bytes, p: Packet)
    requires p.header.VideoHeader?
  {
    Parse(unit) ==
      if Whole(p) then
        Pes(0xe0, LengthOf(PesLength(p)), Received(p.timeStamp * 90 + p.header.compositionTime * 90),
            Received(p.timeStamp * 90), p.data)
      else Malformed
  }

  predicate AudioRead(unit: bytes, p: Packet) {
    Parse(unit) ==
      Pes(0xc0, LengthOf(|p.data| + 14), Received(p.timeStamp * 90), Received(p.timeStamp * 90), p.data)
  }

  lemma VideoPes(p: Packet)
    requires p.isVideo && p.header.VideoHeader?
    ensures |PesOf(p)| == PesLength(p)
    ensures Parse(PesOf(p)) ==
      Pes(0xe0, LengthOf(PesLength(p)), Received(p.timeStamp * 90 + p.header.compositionTime * 90),
          Received(p.timeStamp * 90), p.data)
  {
    hide Parse, Received;
    ParseInverts(p, Pts(p), Dts(p));
  }

  /** A keyframe that is hit by the stuffing cannot be parsed: it does not begin with the start code. */
  lemma HitIsMalformed(p: Packet)
    requires p.isVideo && p.header.VideoHeader? && !Whole(p)
    ensures Parse(ReceivedUnit(true, PesOf(p))) == Malformed
  {
    hide ReadTime, TimeMarkers, PesOf;
    VideoPes(p);
    PesBegins(p);
    var (pes, u) := (PesOf(p), KeyPayload(PesOf(p)));
    if |pes| < 176 {
      StuffedBegins(176 - |pes|, pes);
    } else {
      var k := |pes| - 176;
      assert u[0] == pes[k] && u[1] == pes[k + 1] && u[2] == pes[k + 2];
    }
    assert u[..3] != [0, 0, 1] by { assert u[..3] == [u[0], u[1], u[2]]; }
  }

  lemma StuffedBegins(n: nat, pes: bytes)
    requires 0 < n < 0x100 && |pes| >= 3 && pes[0] == 0 && pes[1] == 0
    ensures var u := Stuffing(n) + pes; |u| >= 3 && (u[0] != 0 || u[1] != 0 || u[2] != 1)
  {
  }

  /** The first nine bytes of a video PES packet, as far as they matter here. */
  lemma PesBegins(p: Packet)
    requires p.isVideo && p.header.VideoHeader?
    ensures var s := PesOf(p);
            |s| >= 14 && s[0] == 0 && s[1] == 0 && s[2] == 1 && s[3] == 0xe0 && s[6] == 0x80 && s[7] >= 0x80 &&
            s[8] >= 5 && (177 <= |s| <= 183 ==> s[4] == 0 && s[5] == |s| - 6)
  {
    hide TimeField;
  }

  /** What a receiver of the video PID reads from what the muxer writes for one packet. */
  lemma VideoArrives(p: Packet, cc: nat)
    requires p.isVideo && p.header.VideoHeader? && cc < 16
    ensures var units := Receive(MuxBytes(p, cc), 0x100, Receiver([], cc, true)).units;
            |units| == 1 && VideoRead(units[0], p)
  {
    hide Receive, Muxed, Parse, PesOf, ReceivedUnit, MuxedCount;
    MuxedReceived(VIDEO_PID, IsKey(p), cc, Dts(p), PesOf(p), Receiver([], cc, true));
    UnitReads(p);
  }

  lemma AudioArrives(p: Packet, cc: nat)
    requires !p.isVideo && cc < 16
    ensures var units := Receive(MuxBytes(p, cc), 0x101, Receiver([], cc, true)).units;
            |units| == 1 && AudioRead(units[0], p)
  {
    hide Receive, Muxed, Parse, PesOf, MuxedCount, Received;
    MuxedReceived(AUDIO_PID, false, cc, Dts(p), PesOf(p), Receiver([], cc, true));
    AudioPes(p);
  }

  lemma AudioPes(p: Packet)
    requires !p.isVideo
    ensures AudioRead(PesOf(p), p)
  {
    hide Parse, Received;
    ParseInverts(p, Pts(p), Dts(p));
  }

  lemma UnitReads(p: Packet)
    requires p.isVideo && p.header.VideoHeader?
    ensures VideoRead(ReceivedUnit(p.header.isKeyFrame, PesOf(p)), p)
  {
    hide Parse, PesOf, ReceivedUnit, Received;
    VideoPes(p);
    if !Whole(p) {
      HitIsMalformed(p);
    } else {
      WholeUnit(p);
    }
  }

  lemma WholeUnit(p: Packet)
    requires p.isVideo && p.header.VideoHeader? && Whole(p)
    ensures ReceivedUnit(p.header.isKeyFrame, PesOf(p)) == PesOf(p)
  {
    hide PesOf;
    VideoPes(p);
    UnitSurvives(p);
  }

  // ---- marks

  /** No packet of the stream is marked as a point where a player can begin, or carries a clock reference. */
  predicate Unmarked(s: bytes)
    decreases |s|
  {
    |s| < CELL || (!RandomAccess(s[..CELL]) && !HasPcr(s[..CELL]) && Unmarked(s[CELL..]))
  }

  lemma CellUnmarked(pid: nat, first: bool, cc: nat, rest: bytes)
    requires pid < 0x2000 && cc < 16 && rest != []
    ensures var p := Cell(pid, first, cc, rest); !RandomAccess(p) && !HasPcr(p)
  {
    hide CellHeader;
    var p := Cell(pid, first, cc, rest);
    var h := CellHeader(pid, first, |rest| < ROOM, cc);
    HeaderReads(pid, first, |rest| < ROOM, cc);
    assert p[..4] == h && p[3] == h[3];
    if |rest| < ROOM {
      StuffingUnmarked(h, ROOM - |rest|, rest);
      assert rest[..|rest|] == rest;
    }
  }

  lemma StuffingUnmarked(h: bytes, n: nat, rest: bytes)
    requires |h| == 4 && 1 <= n < 0x100 && |rest| >= 1
    ensures var p := h + Stuffing(n) + rest; |p| >= 6 && (p[4] == 0 || p[5] == 0)
  {
  }

  lemma {:induction false} CellsUnmarked(pid: nat, first: bool, cc: nat, rest: bytes)
    requires pid < 0x2000 && cc < 16
    ensures Unmarked(Cells(pid, first, cc, rest))
    decreases |rest|
  {
    hide RandomAccess, HasPcr, Cell;
    if rest == [] {
    } else {
      var next := (cc + 1) % 16;
      var later := if |rest| >= ROOM then rest[ROOM..] else [];
      CellUnmarked(pid, first, next, rest);
      CellsUnmarked(pid, false, next, later);
      var (a, b) := (Cell(pid, first, next, rest), Cells(pid, false, next, later));
      assert (a + b)[..CELL] == a && (a + b)[CELL..] == b;
    }
  }

  /** Only the first transport packet of a keyframe is marked, unless its PES packet has 183 bytes; nothing of
      any other packet is. */
  lemma {:induction false} MarksAreKeyframes(p: Packet, cc: nat)
    requires (p.isVideo ==> p.header.VideoHeader?) && cc < 16
    ensures var s := MuxBytes(p, cc);
            if p.isVideo && p.header.isKeyFrame then
              |s| >= CELL && Unmarked(s[CELL..]) &&
              (RandomAccess(s[..CELL]) <==> PesLength(p) != 183) && (HasPcr(s[..CELL]) <==> PesLength(p) != 183)
            else Unmarked(s)
  {
    hide RandomAccess, HasPcr, KeyCell, PesOf, Unmarked, Cells;
    if p.isVideo && p.header.isKeyFrame {
      var next := (cc + 1) % 16;
      var later := if |PesOf(p)| >= ROOM then PesOf(p)[176..] else [];
      VideoPes(p);
      PesBegins(p);
      KeyCellReads(next, Dts(p), PesOf(p));
      CellsUnmarked(VIDEO_PID, false, next, later);
      var (a, b) := (KeyCell(next, Dts(p), PesOf(p)), Cells(VIDEO_PID, false, next, later));
      assert (a + b)[..CELL] == a && (a + b)[CELL..] == b;
    } else {
      CellsUnmarked(PidOf(p), true, cc, PesOf(p));
    }
  }

  // ---- runs

  function VideoPackets(es: seq<Event>): (ps: seq<Packet>)
    requires AllFrames(es)
    ensures forall i :: 0 <= i < |ps| ==> ps[i].isVideo && ps[i].header.VideoHeader?
  {
    if es == [] then []
    else
      var p := es[|es| - 1].p;
      VideoPackets(es[..|es| - 1]) + if p.isVideo then [p] else []
  }

  predicate KeyAt(es: seq<Event>, i: nat)
    requires AllFrames(es) && i < |es|
  {
    es[i].p.isVideo && es[i].p.header.isKeyFrame
  }

  /** The events from the first video keyframe on. */
  function FromKey(es: seq<Event>): (r: seq<Event>)
    requires AllFrames(es)
    ensures AllFrames(r)
  {
    if es == [] || KeyAt(es, 0) then es else FromKey(es[1..])
  }

  lemma {:induction false} SinceIsFrom(es: seq<Event>)
    requires AllFrames(es)
    ensures FromKey(es) == SinceKey(es)
  {
    hide FirstKey;
    var k := FirstKey(es);
    FromFirst(es, k);
  }

  lemma {:induction false} FromFirst(es: seq<Event>, k: nat)
    requires AllFrames(es) && k <= |es|
    requires (forall i :: 0 <= i < k ==> !KeyAt(es, i)) && (k < |es| ==> KeyAt(es, k))
    ensures FromKey(es) == es[k..]
    decreases k
  {
    if k == 0 {
      assert es[0..] == es;
    } else {
      var rest := es[1..];
      assert forall i :: 0 <= i < k - 1 ==> (KeyAt(rest, i) <==> KeyAt(es, i + 1));
      FromFirst(rest, k - 1);
      assert rest[k - 1..] == es[k..];
    }
  }

  lemma {:induction false} UnitsRead(es: seq<Event>)
    requires AllFrames(es)
    ensures var (us, ps) := (VideoUnits(es), VideoPackets(es));
            |us| == |ps| && forall j :: 0 <= j < |us| ==> VideoRead(us[j], ps[j])
    decreases |es|
  {
    hide VideoRead, PesOf, ReceivedUnit;
    if es == [] {
    } else {
      var p := es[|es| - 1].p;
      UnitsRead(es[..|es| - 1]);
      if p.isVideo {
        UnitReads(p);
      }
    }
  }

  /** Over every run: a receiver of the video PID has one unit for each video packet from the first keyframe on,
      in order, and reads from it that packet's own stamps and data. */
  lemma {:induction false} VideoPlays(es: seq<Event>)
    requires AllFrames(es)
    ensures var (us, ps) := (Rx(Run(es), 0x100).units, VideoPackets(FromKey(es)));
            |us| == |ps| && forall j :: 0 <= j < |us| ==> VideoRead(us[j], ps[j])
  {
    hide Rx, Run, Sound, AudioKept, SinceKey, FromKey, VideoUnits, VideoPackets, VideoRead;
    RunReceived(es);
    SinceIsFrom(es);
    UnitsRead(SinceKey(es));
  }

  /** Nothing is written before the first video keyframe, and something from then on. */
  lemma {:induction false} NothingBeforeKey(es: seq<Event>)
    requires AllFrames(es)
    ensures var s := Run(es);
            (s.open == [] && s.published == [] <==> forall i :: 0 <= i < |es| ==> !KeyAt(es, i)) &&
            (s.started <==> exists i :: 0 <= i < |es| && KeyAt(es, i))
  {
    hide Run, Sound, AudioKept, SegmentsFine, OpensWith, WholeCells, FirstKey, Openers, Cuts, OpenHolds, SegmentHolds;
    RunReceived(es);
    RunSpans(es);
    RunFine(es);
    var k := FirstKey(es);
    if k < |es| {
      assert KeyAt(es, k);
      StartedIsWritten(Run(es), Openers(es));
    } else {
      assert forall i :: 0 <= i < |es| ==> !KeyAt(es, i);
    }
  }

  lemma StartedIsWritten(s: Seg, os: seq<Packet>)
    requires OpenFine(s, os) && s.started
    ensures s.open != []
  {
    hide WholeCells, PesOf, Tuned, Clocked;
  }

  // ---- where a run is cut

  /** Where the span that begins at c[i] ends. */
  function EndIn(es: seq<Event>, c: seq<nat>, i: nat): nat
    requires i < |c|
  {
    if i + 1 == |c| then |es| else c[i + 1]
  }

  /** A span begins with a keyframe, and none in it comes more than 3000 milliseconds after that, as far as its
      predecessor tells. */
  predicate SpanExact(es: seq<Event>, from: nat, to: nat)
    requires AllFrames(es)
  {
    from < to <= |es| && KeyAt(es, from) &&
    forall k :: from < k < to && KeyAt(es, k) ==> es[k - 1].p.timeStamp - es[from].p.timeStamp < 3000
  }

  /** The frame before cut i + 1 is at least 3000 milliseconds later than the keyframe at cut i. */
  predicate Paused(es: seq<Event>, c: seq<nat>, i: nat)
    requires i + 1 < |c|
  {
    c[i] < c[i + 1] < |es| && es[c[i + 1] - 1].p.timeStamp - es[c[i]].p.timeStamp >= 3000
  }

  /** The cuts are keyframes: the first of all, and then each first one whose predecessor is at least 3000
      milliseconds later than the last cut. */
  predicate Exact(es: seq<Event>, c: seq<nat>)
    requires AllFrames(es)
  {
    (forall i :: 0 <= i < |c| ==> SpanExact(es, c[i], EndIn(es, c, i))) &&
    (forall k :: 0 <= k < |es| && (c == [] || k < c[0]) ==> !KeyAt(es, k)) &&
    (forall i :: 0 <= i < |c| - 1 ==> Paused(es, c, i))
  }

  lemma {:induction false} SpanStaysExact(es: seq<Event>, from: nat, to: nat)
    requires es != [] && AllFrames(es) && SpanExact(es[..|es| - 1], from, to)
    ensures SpanExact(es, from, to)
  {
    var before := es[..|es| - 1];
    assert forall k :: 0 <= k < |before| ==> before[k] == es[k] && KeyAt(before, k) == KeyAt(es, k);
  }

  lemma {:induction false} SpanGrowsExact(es: seq<Event>, from: nat)
    requires es != [] && AllFrames(es) && SpanExact(es[..|es| - 1], from, |es| - 1)
    requires KeyAt(es, |es| - 1) ==> es[|es| - 2].p.timeStamp - es[from].p.timeStamp < 3000
    ensures SpanExact(es, from, |es|)
  {
    SpanStaysExact(es, from, |es| - 1);
  }

  lemma {:induction false} ExactCut(es: seq<Event>, c: seq<nat>)
    requires es != [] && AllFrames(es) && Exact(es[..|es| - 1], c) && KeyAt(es, |es| - 1)
    requires c == [] ||
      (c[|c| - 1] < |es| - 1 && es[|es| - 2].p.timeStamp - es[c[|c| - 1]].p.timeStamp >= 3000)
    ensures Exact(es, c + [|es| - 1])
  {
    hide SpanExact;
    var (before, n, d) := (es[..|es| - 1], |es| - 1, c + [|es| - 1]);
    forall i | 0 <= i < |d|
      ensures SpanExact(es, d[i], EndIn(es, d, i))
    {
      if i < |c| {
        assert EndIn(es, d, i) == EndIn(before, c, i);
        SpanStaysExact(es, c[i], EndIn(before, c, i));
      } else {
        AloneExact(es);
      }
    }
    if c != [] {
      InSpan(before, c[0], EndIn(before, c, 0));
    }
    FirstStays(es, c, d);
    forall i | 0 <= i < |d| - 1
      ensures Paused(es, d, i)
    {
      if i < |c| - 1 {
        PauseStays(es, c, d, i);
      }
    }
  }

  lemma {:induction false} AloneExact(es: seq<Event>)
    requires es != [] && AllFrames(es) && KeyAt(es, |es| - 1)
    ensures SpanExact(es, |es| - 1, |es|)
  {
  }

  lemma {:induction false} FirstStays(es: seq<Event>, c: seq<nat>, d: seq<nat>)
    requires es != [] && AllFrames(es) && c <= d && (d == c || d == c + [|es| - 1])
    requires c == [] && d == [] ==> !KeyAt(es, |es| - 1)
    requires c != [] ==> c[0] < |es| - 1
    requires var b := es[..|es| - 1]; forall k :: 0 <= k < |b| && (c == [] || k < c[0]) ==> !KeyAt(b, k)
    ensures forall k :: 0 <= k < |es| && (d == [] || k < d[0]) ==> !KeyAt(es, k)
  {
    var b := es[..|es| - 1];
    assert forall k :: 0 <= k < |b| ==> KeyAt(b, k) == KeyAt(es, k);
  }

  lemma {:induction false} PauseStays(es: seq<Event>, c: seq<nat>, d: seq<nat>, i: nat)
    requires es != [] && AllFrames(es) && c <= d && i + 1 < |c| && Paused(es[..|es| - 1], c, i)
    ensures Paused(es, d, i)
  {
  }

  lemma {:induction false} ExactSame(es: seq<Event>, c: seq<nat>)
    requires es != [] && AllFrames(es) && Exact(es[..|es| - 1], c)
    requires KeyAt(es, |es| - 1) ==>
      c != [] && c[|c| - 1] < |es| - 1 && es[|es| - 2].p.timeStamp - es[c[|c| - 1]].p.timeStamp < 3000
    ensures Exact(es, c)
  {
    hide SpanExact;
    var (before, n) := (es[..|es| - 1], |es| - 1);
    forall i | 0 <= i < |c|
      ensures SpanExact(es, c[i], EndIn(es, c, i))
    {
      if i == |c| - 1 {
        assert EndIn(before, c, i) == n;
        InSpan(before, c[i], n);
        SpanGrowsExact(es, c[i]);
      } else {
        SpanStaysExact(es, c[i], EndIn(before, c, i));
      }
    }
    if c != [] {
      InSpan(before, c[0], EndIn(before, c, 0));
    }
    FirstStays(es, c, c);
    forall i | 0 <= i < |c| - 1
      ensures Paused(es, c, i)
    {
      PauseStays(es, c, c, i);
    }
  }

  lemma InSpan(es: seq<Event>, from: nat, to: nat)
    requires AllFrames(es) && SpanExact(es, from, to)
    ensures from < to <= |es|
  {
  }

  /** The runs are cut exactly there. */
  lemma {:induction false} CutsExact(es: seq<Event>)
    requires AllFrames(es)
    ensures Exact(es, Cuts(es))
    decreases |es|
  {
    hide Exact;
    if es == [] {
      NoCuts(es);
    } else {
      var (before, n) := (es[..|es| - 1], |es| - 1);
      var c := Cuts(before);
      CutsExact(before);
      LastCut(es);
      if Cuts(es) != c {
        ExactCut(es, c);
      } else {
        ExactSame(es, c);
      }
    }
  }

  lemma {:induction false} NoCuts(es: seq<Event>)
    requires es == []
    ensures Exact(es, Cuts(es))
  {
  }

  lemma {:induction false} LastCut(es: seq<Event>)
    requires es != [] && AllFrames(es)
    ensures var (n, c) := (|es| - 1, Cuts(es[..|es| - 1]));
            (c != [] ==> c[|c| - 1] < n) &&
            var cut := KeyAt(es, n) && (c == [] || es[n - 1].p.timeStamp - es[c[|c| - 1]].p.timeStamp >= 3000);
            Cuts(es) == if cut then c + [n] else c
  {
  }

  /** The frames that open a segment are those at the cuts, and so keyframes. */
  lemma {:induction false} OpenersAreKeys(es: seq<Event>)
    requires AllFrames(es)
    ensures var (os, c) := (Openers(es), Cuts(es));
            |os| == |c| &&
            forall i :: 0 <= i < |os| ==> os[i] == es[c[i]].p && os[i].isVideo && os[i].header.isKeyFrame
    decreases |es|
  {
    hide Run, Step, SpansHold, LastHolds, OpensSegment, Cuts, Openers;
    if es == [] {
      NoOpeners(es);
    } else {
      var (before, n) := (es[..|es| - 1], |es| - 1);
      OpenersAreKeys(before);
      RunSpans(before);
      CutIff(es);
      OpensIsKey(Run(before), es[n]);
      LastOpener(es);
      assert forall i :: 0 <= i < |Cuts(before)| ==> before[Cuts(before)[i]] == es[Cuts(before)[i]];
    }
  }

  lemma {:induction false} NoOpeners(es: seq<Event>)
    requires es == []
    ensures Openers(es) == [] && Cuts(es) == []
  {
  }

  lemma {:induction false} LastOpener(es: seq<Event>)
    requires es != [] && AllFrames(es)
    ensures var (before, n) := (es[..|es| - 1], |es| - 1);
            Openers(es) == Openers(before) + if OpensSegment(Run(before), es[n]) then [es[n].p] else []
  {
    hide Run, OpensSegment;
  }

  lemma OpensIsKey(s: Seg, e: Event)
    requires IsFrame(e.p)
    ensures OpensSegment(s, e) ==> e.p.isVideo && e.p.header.isKeyFrame
  {
  }
}
