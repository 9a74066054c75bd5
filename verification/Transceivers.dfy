/** Choosing local transceivers for the media sections of an answer (webrtc/peerconnection.go:546-655). */
module Transceivers {

  datatype Kind = NoKind | Audio | Video
  datatype Direction = NoDirection | Sendrecv | Sendonly | Recvonly | Inactive

  /** A transceiver of the connection, or one made on the spot where none fits. */
  datatype Transceiver = Local(id: nat, kind: Kind, dir: Direction) | Stopped(kind: Kind)

  function DirectionOf(t: Transceiver): Direction {
    if t.Stopped? then Inactive else t.dir
  }

  // ---- one choice

  /** The directions that fit a remote one, the preferred one first. */
  function Preferred(remote: Direction): seq<Direction> {
    match remote
    case Sendrecv => [Recvonly, Sendrecv]
    case Sendonly => [Recvonly, Sendrecv]
    case Recvonly => [Sendonly, Sendrecv]
    case _ => []
  }

  predicate Matches(t: Transceiver, kind: Kind, dir: Direction) {
    t.kind == kind && DirectionOf(t) == dir
  }

  predicate Compatible(t: Transceiver, kind: Kind, remote: Direction) {
    t.kind == kind && DirectionOf(t) in Preferred(remote)
  }

  /** The first match, or -1. */
  function First(ts: seq<Transceiver>, kind: Kind, dir: Direction): (i: int)
    ensures i == -1 || (0 <= i < |ts| && Matches(ts[i], kind, dir))
    ensures forall j :: 0 <= j < |ts| && (i == -1 || j < i) ==> !Matches(ts[j], kind, dir)
  {
    if ts == [] then -1
    else
      var i := First(ts[..|ts| - 1], kind, dir);
      if i != -1 then i else if Matches(ts[|ts| - 1], kind, dir) then |ts| - 1 else -1
  }

  function Choice(ts: seq<Transceiver>, kind: Kind, remote: Direction): (i: int)
    ensures -1 <= i < |ts|
  {
    var dirs := Preferred(remote);
    if dirs == [] then -1
    else if First(ts, kind, dirs[0]) != -1 then First(ts, kind, dirs[0])
    else First(ts, kind, dirs[1])
  }

  /** Whenever there is a compatible transceiver one is chosen: the earliest of those with the preferred
      direction, or the earliest of the others where there are none of those. */
  lemma ChoiceIsBest(ts: seq<Transceiver>, kind: Kind, remote: Direction)
    ensures var i := Choice(ts, kind, remote);
            (i == -1 <==> forall j :: 0 <= j < |ts| ==> !Compatible(ts[j], kind, remote)) &&
            (i != -1 ==>
              Compatible(ts[i], kind, remote) && ts[i].Local? &&
              forall j :: 0 <= j < |ts| && Compatible(ts[j], kind, remote) ==>
                if DirectionOf(ts[i]) == DirectionOf(ts[j]) then i <= j else DirectionOf(ts[i]) == Preferred(remote)[0])
  {
    var dirs := Preferred(remote);
    assert forall t: Transceiver :: Compatible(t, kind, remote) <==>
        dirs != [] && (Matches(t, kind, dirs[0]) || Matches(t, kind, dirs[1]));
  }

  predicate Sends(d: Direction) { d == Sendrecv || d == Sendonly }

  predicate Receives(d: Direction) { d == Sendrecv || d == Recvonly }

  predicate OneWay(d: Direction) { Sends(d) != Receives(d) }

  /** A transceiver fits if it receives what the other side sends, or sends where the other side only receives;
      of those that fit one for one way only is taken before one for both, and the earliest of its sort. */
  lemma ChoiceMeans(ts: seq<Transceiver>, kind: Kind, remote: Direction)
    ensures forall t: Transceiver :: Compatible(t, kind, remote) <==>
      t.Local? && t.kind == kind && if Sends(remote) then Receives(t.dir) else Receives(remote) && Sends(t.dir)
    ensures var i := Choice(ts, kind, remote);
            (i == -1 <==> forall j :: 0 <= j < |ts| ==> !Compatible(ts[j], kind, remote)) &&
            (i != -1 ==>
              Compatible(ts[i], kind, remote) &&
              forall j :: 0 <= j < |ts| && Compatible(ts[j], kind, remote) ==>
                if OneWay(DirectionOf(ts[i])) == OneWay(DirectionOf(ts[j])) then i <= j
                else OneWay(DirectionOf(ts[i])))
  {
    hide Choice;
    ChoiceIsBest(ts, kind, remote);
  }

  function Without(ts: seq<Transceiver>, i: nat): seq<Transceiver>
    requires i < |ts|
  {
    ts[..i] + ts[i + 1..]
  }

  /** The transceiver chosen and those that are left. */
  datatype Picked = Picked(t: Transceiver, left: seq<Transceiver>)

  function Pick(ts: seq<Transceiver>, kind: Kind, remote: Direction): Picked {
    var i := Choice(ts, kind, remote);
    if i == -1 then Picked(Stopped(kind), ts) else Picked(ts[i], Without(ts, i))
  }

  /** Removes element i from the first n by moving those behind it, in place. */
  method Remove(ts: array<Transceiver>, n: nat, i: nat)
    requires i < n <= ts.Length
    modifies ts
    ensures ts[..n - 1] == old(Without(ts[..n], i))
  {
    forall k | i <= k < n - 1 {
      ts[k] := ts[k + 1];
    }
    assert ts[..i] == old(ts[..i]) && ts[i..n - 1] == old(ts[i + 1..n]);
    assert ts[..n - 1] == ts[..i] + ts[i..n - 1];
    assert old(ts[..n])[..i] == old(ts[..i]) && old(ts[..n])[i + 1..] == old(ts[i + 1..n]);
  }

  lemma {:induction false} FirstIs(ts: seq<Transceiver>, kind: Kind, dir: Direction, i: nat)
    requires i < |ts| && Matches(ts[i], kind, dir) && forall j :: 0 <= j < i ==> !Matches(ts[j], kind, dir)
    ensures First(ts, kind, dir) == i
  {
  }

  lemma {:induction false} FirstNone(ts: seq<Transceiver>, kind: Kind, dir: Direction)
    requires forall j :: 0 <= j < |ts| ==> !Matches(ts[j], kind, dir)
    ensures First(ts, kind, dir) == -1
  {
  }

  lemma {:induction false} PickIs(ts: seq<Transceiver>, kind: Kind, remote: Direction, d: nat)
    requires d <= |Preferred(remote)|
    requires forall e :: 0 <= e < d ==> First(ts, kind, Preferred(remote)[e]) == -1
    ensures d == |Preferred(remote)| ==> Pick(ts, kind, remote) == Picked(Stopped(kind), ts)
    ensures d < |Preferred(remote)| && First(ts, kind, Preferred(remote)[d]) != -1 ==>
      var i := First(ts, kind, Preferred(remote)[d]); Pick(ts, kind, remote) == Picked(ts[i], Without(ts, i))
  {
    hide First, Without;
    var dirs := Preferred(remote);
    assert |dirs| == 0 || |dirs| == 2;
  }

  method SatisfyTypeAndDirection(remoteKind: Kind, remoteDirection: Direction, ts: array<Transceiver>, n: nat)
      returns (t: Transceiver, m: nat)
    requires n <= ts.Length
    modifies ts
    ensures m <= n && Picked(t, ts[..m]) == Pick(old(ts[..n]), remoteKind, remoteDirection)
    ensures DirectionOf(t) != Inactive ==> m < n
  {
    hide First, Pick, Choice, Without;
    var dirs := Preferred(remoteDirection);
    ghost var all := ts[..n];
    for d := 0 to |dirs|
      invariant ts[..n] == all
      invariant forall e :: 0 <= e < d ==> First(all, remoteKind, dirs[e]) == -1
    {
      for i := 0 to n
        invariant ts[..n] == all
        invariant forall j :: 0 <= j < i ==> !Matches(all[j], remoteKind, dirs[d])
      {
        t := ts[i];
        if t.kind != remoteKind || dirs[d] != DirectionOf(t) {
          continue;
        }
        assert t == all[i];
        FirstIs(all, remoteKind, dirs[d], i);
        PickIs(all, remoteKind, remoteDirection, d);
        Remove(ts, n, i);
        return t, n - 1;
      }
      FirstNone(all, remoteKind, dirs[d]);
    }
    PickIs(all, remoteKind, remoteDirection, |dirs|);
    t, m := Stopped(remoteKind), n;
  }

  // ---- all media sections

  datatype Semantics = UnifiedPlan | PlanB | UnifiedPlanWithFallback

  /** A media section of the remote description. */
  datatype Media = Media(mid: string, application: bool, kind: Kind, dir: Direction)

  datatype Section = DataSection(mid: string) | MediaSection(mid: string, transceivers: seq<Transceiver>)

  function Lower(c: char): char {
    if 'A' <= c <= 'Z' then c - 'A' + 'a' else c
  }

  predicate EqualFold(s: string, t: string) {
    |s| == |t| && forall i :: 0 <= i < |s| ==> Lower(s[i]) == t[i]
  }

  /** The section names of plan-B descriptions. */
  predicate IsPlanBName(mid: string) {
    EqualFold(mid, "audio") || EqualFold(mid, "video") || EqualFold(mid, "data")
  }

  predicate IsPlanB(media: seq<Media>) {
    exists i :: 0 <= i < |media| && IsPlanBName(media[i].mid)
  }

  function AllLower(s: string): string {
    seq(|s|, i requires 0 <= i < |s| => Lower(s[i]))
  }

  /** Names that are audio, video or data once capital letters are made small. */
  lemma PlanBNames(mid: string)
    ensures IsPlanBName(mid) <==> AllLower(mid) in {"audio", "video", "data"}
    ensures AllLower("AudioVIDEOdataZ09_") == "audiovideodataz09_"
  {
    assert EqualFold(mid, "audio") <==> AllLower(mid) == "audio";
    assert EqualFold(mid, "video") <==> AllLower(mid) == "video";
    assert EqualFold(mid, "data") <==> AllLower(mid) == "data";
  }

  /** A description is plan-B as soon as one of its sections has such a name, wherever it stands. */
  lemma PlanBAnywhere(before: seq<Media>, m: Media, behind: seq<Media>)
    ensures AllLower(m.mid) == "audio" ==> IsPlanB(before + [m] + behind)
    ensures IsPlanB(before + behind) ==> IsPlanB(before + [m] + behind)
    ensures !IsPlanB([])
  {
    PlanBNames(m.mid);
    var all := before + [m] + behind;
    assert all[|before|] == m;
    assert forall i :: 0 <= i < |before| ==> all[i] == (before + behind)[i];
    assert forall i :: |before| <= i < |before| + |behind| ==> all[i + 1] == (before + behind)[i];
  }

  method DescriptionIsPlanB(media: seq<Media>) returns (planB: bool)
    ensures planB == IsPlanB(media)
  {
    hide IsPlanBName;
    for i := 0 to |media|
      invariant forall j :: 0 <= j < i ==> !IsPlanBName(media[j].mid)
    {
      if IsPlanBName(media[i].mid) {
        return true;
      }
    }
    planB := false;
  }

  datatype Filled = Filled(more: seq<Transceiver>, left: seq<Transceiver>)

  /** All that still fit, in the order in which they are chosen. */
  function Fill(ts: seq<Transceiver>, kind: Kind, remote: Direction): Filled
    decreases |ts|
  {
    var p := Pick(ts, kind, remote);
    if Choice(ts, kind, remote) == -1 then Filled([], ts)
    else var f := Fill(p.left, kind, remote); Filled([p.t] + f.more, f.left)
  }

  datatype Outcome = Answered(sections: seq<Section>, left: seq<Transceiver>) | Refused

  predicate Skipped(m: Media) { m.kind == NoKind || m.dir == NoDirection }

  function AnswerOne(ts: seq<Transceiver>, m: Media, semantics: Semantics, planB: bool): Outcome {
    if m.mid == "" then Refused
    else if m.application then Answered([DataSection(m.mid)], ts)
    else if Skipped(m) then Answered([], ts)
    else if (semantics == PlanB && !planB) || (semantics == UnifiedPlan && planB) then Refused
    else
      var p := Pick(ts, m.kind, m.dir);
      var f := if planB then Fill(p.left, m.kind, m.dir) else Filled([], p.left);
      Answered([MediaSection(m.mid, [p.t] + f.more)], f.left)
  }

  function Answer(ts: seq<Transceiver>, media: seq<Media>, semantics: Semantics, planB: bool): Outcome {
    if media == [] then Answered([], ts)
    else
      match Answer(ts, media[..|media| - 1], semantics, planB)
      case Refused => Refused
      case Answered(sections, left) =>
        match AnswerOne(left, media[|media| - 1], semantics, planB)
        case Refused => Refused
        case Answered(more, left2) => Answered(sections + more, left2)
  }

  /** The loop that fills a plan-B section: it ends because the transceiver that stands for "none" is
      the only inactive one that is ever chosen, and every other choice shortens the list. */
  method FillSection(kind: Kind, dir: Direction, ts: array<Transceiver>, n: nat, first: Transceiver)
      returns (chosen: seq<Transceiver>, m: nat)
    requires n <= ts.Length
    modifies ts
    ensures m <= n && var f := Fill(old(ts[..n]), kind, dir); chosen == [first] + f.more && ts[..m] == f.left
  {
    hide Choice, Fill;
    chosen, m := [first], n;
    ghost var got: seq<Transceiver> := [];
    PreferredActive(dir);
    while true
      invariant m <= n && chosen == [first] + got
      invariant var f := Fill(ts[..m], kind, dir);
                Fill(old(ts[..n]), kind, dir) == Filled(got + f.more, f.left)
      decreases m
    {
      ghost var before := ts[..m];
      FillStep(before, kind, dir, got);
      var t;
      t, m := SatisfyTypeAndDirection(kind, dir, ts, m);
      if DirectionOf(t) == Inactive {
        break;
      }
      assert chosen + [t] == [first] + (got + [t]);
      got := got + [t];
      chosen := chosen + [t];
    }
  }

  lemma {:induction false} FillStep(ts: seq<Transceiver>, kind: Kind, remote: Direction, got: seq<Transceiver>)
    ensures var (p, f) := (Pick(ts, kind, remote), Fill(ts, kind, remote));
            if DirectionOf(p.t) == Inactive then f == Filled([], ts) && p.left == ts && got + f.more == got
            else var g := Fill(p.left, kind, remote); f.left == g.left && got + f.more == got + [p.t] + g.more
  {
    hide Choice, Preferred, Without;
    ChoiceIsBest(ts, kind, remote);
    PreferredActive(remote);
    var p := Pick(ts, kind, remote);
    if Choice(ts, kind, remote) != -1 {
      var g := Fill(p.left, kind, remote);
      assert got + ([p.t] + g.more) == got + [p.t] + g.more;
    }
  }

  lemma PreferredActive(remote: Direction)
    ensures Inactive !in Preferred(remote)
  {
  }

  /** The list of the connection itself is copied first and not modified.  gathered says whether the
      connection has ICE parameters and candidates. */
  method AddAnswerMediaTransceivers(own: array<Transceiver>, media: seq<Media>, semantics: Semantics, gathered: bool)
      returns (r: Outcome)
    ensures r == if gathered then Answer(own[..], media, semantics, IsPlanB(media)) else Refused
  {
    hide Pick, Fill, IsPlanB;
    if !gathered {
      return Refused;
    }
    var planB := DescriptionIsPlanB(media);
    var ts := new Transceiver[own.Length](i requires 0 <= i < own.Length reads own => own[i]);
    assert ts[..own.Length] == own[..];
    var n: nat := own.Length;
    var sections := [];
    for i := 0 to |media|
      invariant n <= ts.Length && fresh(ts)
      invariant ts != own
      invariant Answer(own[..], media[..i], semantics, planB) == Answered(sections, ts[..n])
    {
      assert media[..i + 1][..i] == media[..i];
      Longer(own[..], media, i, semantics, planB);
      var m := media[i];
      if m.mid == "" {
        return Refused;
      }
      if m.application {
        sections := sections + [DataSection(m.mid)];
        continue;
      }
      if m.kind == NoKind || m.dir == NoDirection {
        assert sections + [] == sections;
        continue;
      }
      var t;
      t, n := SatisfyTypeAndDirection(m.kind, m.dir, ts, n);
      var chosen := [t];
      match semantics {
        case UnifiedPlanWithFallback =>
          if planB {
            chosen, n := FillSection(m.kind, m.dir, ts, n, t);
          }
        case PlanB =>
          if !planB {
            return Refused;
          }
          chosen, n := FillSection(m.kind, m.dir, ts, n, t);
        case UnifiedPlan =>
          if planB {
            return Refused;
          }
      }
      assert [t] + [] == [t];
      sections := sections + [MediaSection(m.mid, chosen)];
    }
    assert media[..|media|] == media;
    r := Answered(sections, ts[..n]);
  }

  lemma {:induction false} Longer(ts: seq<Transceiver>, media: seq<Media>, i: nat, semantics: Semantics, planB: bool)
    requires i < |media|
    ensures (match Answer(ts, media[..i], semantics, planB)
             case Refused => true
             case Answered(_, left) => AnswerOne(left, media[i], semantics, planB).Refused?) ==>
      Answer(ts, media, semantics, planB).Refused?
    decreases |media|
  {
    hide AnswerOne;
    var n := |media| - 1;
    if i == n {
    } else {
      Longer(ts, media[..n], i, semantics, planB);
      assert media[..n][..i] == media[..i];
    }
  }

  /** Printing a section fails only if it has no transceiver. */
  predicate Printable(s: Section) { s.MediaSection? ==> s.transceivers != [] }

  predicate AllPrintable(sections: seq<Section>) { forall i :: 0 <= i < |sections| ==> Printable(sections[i]) }

  lemma {:induction false} SectionsPrint(ts: seq<Transceiver>, media: seq<Media>, semantics: Semantics, planB: bool)
    ensures var r := Answer(ts, media, semantics, planB); r.Answered? ==> AllPrintable(r.sections)
    decreases |media|
  {
    hide AnswerOne, Printable;
    if media == [] {
    } else {
      var n := |media| - 1;
      SectionsPrint(ts, media[..n], semantics, planB);
      var before := Answer(ts, media[..n], semantics, planB);
      if before.Answered? {
        OnePrints(before.left, media[n], semantics, planB);
      }
    }
  }

  lemma OnePrints(ts: seq<Transceiver>, m: Media, semantics: Semantics, planB: bool)
    ensures var r := AnswerOne(ts, m, semantics, planB); r.Answered? ==> AllPrintable(r.sections)
  {
    hide Pick, Fill;
  }

  /** A section that cannot be answered: one without a name, or a media section of the other plan. */
  predicate Unanswerable(m: Media, semantics: Semantics, planB: bool) {
    m.mid == "" ||
    (!m.application && m.kind != NoKind && m.dir != NoDirection &&
     if planB then semantics == UnifiedPlan else semantics == PlanB)
  }

  /** An answer is refused exactly if some section cannot be answered. */
  lemma {:induction false} RefusedIff(ts: seq<Transceiver>, media: seq<Media>, semantics: Semantics, planB: bool)
    ensures Answer(ts, media, semantics, planB).Refused? <==>
      exists i :: 0 <= i < |media| && Unanswerable(media[i], semantics, planB)
    decreases |media|
  {
    hide Pick, Fill, Unanswerable;
    if media == [] {
    } else {
      var (n, front) := (|media| - 1, media[..|media| - 1]);
      RefusedIff(ts, front, semantics, planB);
      assert forall i :: 0 <= i < n ==> front[i] == media[i];
      if Answer(ts, front, semantics, planB).Answered? {
        OneRefused(Answer(ts, front, semantics, planB).left, media[n], semantics, planB);
      }
    }
  }

  lemma OneRefused(ts: seq<Transceiver>, m: Media, semantics: Semantics, planB: bool)
    ensures AnswerOne(ts, m, semantics, planB).Refused? <==> Unanswerable(m, semantics, planB)
  {
    hide Pick, Fill;
  }

  function NameOf(s: Section): string { s.mid }

  /** The names of the sections that an answer has: all but those of unknown kind or direction. */
  function Named(media: seq<Media>): seq<string> {
    if media == [] then []
    else
      var m := media[|media| - 1];
      Named(media[..|media| - 1]) +
        if m.application || (m.kind != NoKind && m.dir != NoDirection) then [m.mid] else []
  }

  function Names(sections: seq<Section>): seq<string> {
    if sections == [] then [] else Names(sections[..|sections| - 1]) + [NameOf(sections[|sections| - 1])]
  }

  predicate OneEach(sections: seq<Section>) {
    forall i :: 0 <= i < |sections| && sections[i].MediaSection? ==> |sections[i].transceivers| == 1
  }

  predicate NoneFits(left: seq<Transceiver>, m: Media) {
    forall j :: 0 <= j < |left| ==> !Compatible(left[j], m.kind, m.dir)
  }

  /** The sections of an answer are those of the offer, in their order; without plan-B each media section has
      exactly one transceiver. */
  lemma {:induction false} SectionsInOrder(ts: seq<Transceiver>, media: seq<Media>, semantics: Semantics, planB: bool)
    ensures var r := Answer(ts, media, semantics, planB);
            r.Answered? ==> Names(r.sections) == Named(media) && (!planB ==> OneEach(r.sections))
    decreases |media|
  {
    hide AnswerOne, NameOf, OneEach, Names, Named;
    if media == [] {
      NothingNamed();
    } else {
      var n := |media| - 1;
      SectionsInOrder(ts, media[..n], semantics, planB);
      var before := Answer(ts, media[..n], semantics, planB);
      if before.Answered? {
        var one := AnswerOne(before.left, media[n], semantics, planB);
        if one.Answered? {
          OneInOrder(before.left, media[n], semantics, planB);
          NamesMore(before.sections, one.sections);
          NamedMore(media);
          EachMore(before.sections, one.sections);
        }
      }
    }
  }

  lemma NothingNamed()
    ensures Names([]) == [] && Named([]) == [] && OneEach([])
  {
  }

  lemma {:induction false} NamedMore(media: seq<Media>)
    requires media != []
    ensures var m := media[|media| - 1];
            Named(media) == Named(media[..|media| - 1]) + if !m.application && Skipped(m) then [] else [m.mid]
  {
  }

  lemma {:induction false} EachMore(a: seq<Section>, b: seq<Section>)
    ensures OneEach(a) && OneEach(b) ==> OneEach(a + b)
  {
  }

  /** With plan-B none that fits is left behind a media section. */
  lemma {:induction false} NoneFitsBehind(ts: seq<Transceiver>, media: seq<Media>, semantics: Semantics)
    requires AllLocal(ts) && media != []
    ensures var (r, m) := (Answer(ts, media, semantics, true), media[|media| - 1]);
            r.Answered? && !m.application && !Skipped(m) ==> NoneFits(r.left, m)
  {
    hide AnswerOne, AllLocal, NoneFits;
    var n := |media| - 1;
    AnswerConserves(ts, media[..n], semantics, true);
    var before := Answer(ts, media[..n], semantics, true);
    if before.Answered? {
      OneFills(before.left, media[n], semantics);
    }
  }

  lemma OneFills(ts: seq<Transceiver>, m: Media, semantics: Semantics)
    requires AllLocal(ts)
    ensures var r := AnswerOne(ts, m, semantics, true);
            r.Answered? && !m.application && !Skipped(m) ==> NoneFits(r.left, m)
  {
    hide Pick, Fill, Compatible, AllLocal;
    PickConserves(ts, m.kind, m.dir);
    FillConserves(Pick(ts, m.kind, m.dir).left, m.kind, m.dir);
  }

  lemma {:induction false} NamesMore(a: seq<Section>, b: seq<Section>)
    requires |b| <= 1
    ensures Names(a + b) == Names(a) + if b == [] then [] else [NameOf(b[0])]
  {
    hide NameOf;
    if b == [] {
      assert a + b == a;
    } else {
      assert (a + b)[..|a|] == a;
    }
  }

  lemma {:induction false} OneInOrder(ts: seq<Transceiver>, m: Media, semantics: Semantics, planB: bool)
    ensures var r := AnswerOne(ts, m, semantics, planB);
            r.Answered? ==>
              |r.sections| <= 1 &&
              (r.sections == [] <==> !m.application && Skipped(m)) &&
              (r.sections != [] ==> NameOf(r.sections[0]) == m.mid) &&
              (!planB ==> OneEach(r.sections))
  {
    hide Pick, Fill;
  }


  // ---- nothing is lost and nothing is used twice

  function RealIn(ts: seq<Transceiver>): seq<Transceiver> {
    if ts == [] then [] else RealIn(ts[..|ts| - 1]) + if ts[|ts| - 1].Local? then [ts[|ts| - 1]] else []
  }

  /** The transceivers of the connection that the sections use. */
  function Used(sections: seq<Section>): seq<Transceiver> {
    if sections == [] then []
    else
      var s := sections[|sections| - 1];
      Used(sections[..|sections| - 1]) + if s.MediaSection? then RealIn(s.transceivers) else []
  }

  predicate AllLocal(ts: seq<Transceiver>) { forall i :: 0 <= i < |ts| ==> ts[i].Local? }

  lemma {:induction false} RealAppend(a: seq<Transceiver>, b: seq<Transceiver>)
    ensures RealIn(a + b) == RealIn(a) + RealIn(b)
    decreases |b|
  {
    if b == [] {
      assert a + b == a;
    } else {
      assert (a + b)[..|a + b| - 1] == a + b[..|b| - 1];
      RealAppend(a, b[..|b| - 1]);
    }
  }

  lemma RealOne(t: Transceiver)
    ensures RealIn([t]) == if t.Local? then [t] else []
  {
    assert [t][..0] == [];
  }

  lemma PickConserves(ts: seq<Transceiver>, kind: Kind, remote: Direction)
    requires AllLocal(ts)
    ensures var p := Pick(ts, kind, remote);
            AllLocal(p.left) && multiset(RealIn([p.t])) + multiset(p.left) == multiset(ts)
  {
    hide Choice, RealIn;
    var i := Choice(ts, kind, remote);
    RealOne(Pick(ts, kind, remote).t);
    if i != -1 {
      assert ts == ts[..i] + [ts[i]] + ts[i + 1..];
    }
  }

  lemma {:induction false} FillConserves(ts: seq<Transceiver>, kind: Kind, remote: Direction)
    requires AllLocal(ts)
    ensures var Filled(more, left) := Fill(ts, kind, remote);
            AllLocal(left) && multiset(RealIn(more)) + multiset(left) == multiset(ts) &&
            forall j :: 0 <= j < |left| ==> !Compatible(left[j], kind, remote)
    decreases |ts|
  {
    hide Choice, RealIn, Pick;
    ChoiceIsBest(ts, kind, remote);
    if Choice(ts, kind, remote) == -1 {
      RealNone();
    } else {
      var p := Pick(ts, kind, remote);
      PickConserves(ts, kind, remote);
      PickShortens(ts, kind, remote);
      FillConserves(p.left, kind, remote);
      RealAppend([p.t], Fill(p.left, kind, remote).more);
    }
  }

  lemma RealNone()
    ensures RealIn([]) == []
  {
  }

  lemma PickShortens(ts: seq<Transceiver>, kind: Kind, remote: Direction)
    ensures Choice(ts, kind, remote) != -1 ==> |Pick(ts, kind, remote).left| < |ts|
  {
    hide Choice;
  }

  lemma OneConserves(ts: seq<Transceiver>, m: Media, semantics: Semantics, planB: bool)
    requires AllLocal(ts)
    ensures match AnswerOne(ts, m, semantics, planB)
            case Refused => true
            case Answered(sections, left) =>
              AllLocal(left) && multiset(Used(sections)) + multiset(left) == multiset(ts)
  {
    hide Pick, Fill, RealIn;
    var r := AnswerOne(ts, m, semantics, planB);
    if r.Answered? && r.sections != [] {
      assert r.sections[..0] == [];
      if r.sections[0].MediaSection? {
        var p := Pick(ts, m.kind, m.dir);
        PickConserves(ts, m.kind, m.dir);
        if planB {
          FillConserves(p.left, m.kind, m.dir);
          RealAppend([p.t], Fill(p.left, m.kind, m.dir).more);
        } else {
          assert [p.t] + [] == [p.t];
        }
      }
    }
  }

  lemma {:induction false} UsedAppend(a: seq<Section>, b: seq<Section>)
    ensures Used(a + b) == Used(a) + Used(b)
    decreases |b|
  {
    hide RealIn;
    if b == [] {
      assert a + b == a;
    } else {
      assert (a + b)[..|a + b| - 1] == a + b[..|b| - 1];
      UsedAppend(a, b[..|b| - 1]);
    }
  }

  /** Over the whole answer the transceivers used and those left over are those of the connection. */
  lemma {:induction false} AnswerConserves(ts: seq<Transceiver>, media: seq<Media>, semantics: Semantics, planB: bool)
    requires AllLocal(ts)
    ensures match Answer(ts, media, semantics, planB)
            case Refused => true
            case Answered(sections, left) =>
              AllLocal(left) && multiset(Used(sections)) + multiset(left) == multiset(ts)
    decreases |media|
  {
    hide AnswerOne, Used;
    if media == [] {
      NothingUsed();
    } else {
      var n := |media| - 1;
      AnswerConserves(ts, media[..n], semantics, planB);
      var before := Answer(ts, media[..n], semantics, planB);
      if before.Answered? {
        OneConserves(before.left, media[n], semantics, planB);
        var r := AnswerOne(before.left, media[n], semantics, planB);
        if r.Answered? {
          UsedAppend(before.sections, r.sections);
        }
      }
    }
  }

  lemma NothingUsed()
    ensures Used([]) == []
  {
  }

  predicate AllDistinct(ts: seq<Transceiver>) {
    forall i, j :: 0 <= i < j < |ts| ==> ts[i] != ts[j]
  }

  /** So no transceiver is used in two places, or used and left over too. */
  lemma {:induction false} NoneUsedTwice(ts: seq<Transceiver>, media: seq<Media>, semantics: Semantics, planB: bool)
    requires AllLocal(ts) && AllDistinct(ts)
    ensures match Answer(ts, media, semantics, planB)
            case Refused => true
            case Answered(sections, left) => AllDistinct(Used(sections) + left)
  {
    hide Answer, Used;
    AnswerConserves(ts, media, semantics, planB);
    var r := Answer(ts, media, semantics, planB);
    if r.Answered? {
      DistinctCounts(ts);
      CountsDistinct(Used(r.sections) + r.left, multiset(ts));
    }
  }

  lemma {:induction false} DistinctCounts(ts: seq<Transceiver>)
    requires AllDistinct(ts)
    ensures forall t :: multiset(ts)[t] <= 1
    decreases |ts|
  {
    if ts == [] {
    } else {
      var n := |ts| - 1;
      DistinctCounts(ts[..n]);
      assert ts == ts[..n] + [ts[n]];
      assert ts[n] !in ts[..n];
    }
  }

  lemma CountsDistinct(ts: seq<Transceiver>, m: multiset<Transceiver>)
    requires multiset(ts) == m && forall t :: m[t] <= 1
    ensures AllDistinct(ts)
  {
    forall i, j | 0 <= i < j < |ts|
      ensures ts[i] != ts[j]
    {
      assert ts == ts[..i] + [ts[i]] + ts[i + 1..j] + [ts[j]] + ts[j + 1..];
      var others := ts[..i] + ts[i + 1..j] + ts[j + 1..];
      assert multiset(ts)[ts[i]] == multiset(others)[ts[i]] + multiset([ts[i], ts[j]])[ts[i]];
    }
  }
}
