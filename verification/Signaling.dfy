/** Offer and answer: the signalling state of one peer connection (webrtc/signalingstate.go:106-178,
    webrtc/peerconnection.go:394-480, 654-860, 1579-1596), and two of them talking to each other. */
module Signaling {

  import opened Wrappers

  datatype SdpType = Offer | Pranswer | Answer | Rollback | Unknown
  datatype State = Stable | HaveLocalOffer | HaveRemoteOffer | HaveLocalPranswer | HaveRemotePranswer | Closed
  datatype Op = SetLocal | SetRemote

  /** A session description; its text is opaque. */
  datatype Desc = Desc(kind: SdpType, sdp: string)

  // ---- the state machine of RFC 8829, section 3.2

  function Next(cur: State, op: Op, kind: SdpType): Option<State> {
    match (cur, op, kind)
    case (Stable, SetLocal, Offer) => Some(HaveLocalOffer)
    case (Stable, SetRemote, Offer) => Some(HaveRemoteOffer)
    case (HaveLocalOffer, SetRemote, Pranswer) => Some(HaveRemotePranswer)
    case (HaveRemoteOffer, SetLocal, Pranswer) => Some(HaveLocalPranswer)
    case (HaveLocalOffer, SetRemote, Answer) => Some(Stable)
    case (HaveRemotePranswer, SetRemote, Answer) => Some(Stable)
    case (HaveRemoteOffer, SetLocal, Answer) => Some(Stable)
    case (HaveLocalPranswer, SetLocal, Answer) => Some(Stable)
    case _ => None
  }

  datatype Checked = Allowed(next: State) | Invalid

  /** checkNextSignalingState */
  function CheckNext(cur: State, next: State, op: Op, kind: SdpType): (r: Checked)
    ensures r == if Next(cur, op, kind) == Some(next) then Allowed(next) else Invalid
  {
    if kind == Rollback && cur == Stable then Invalid
    else
      match cur
      case Stable =>
        if op == SetLocal && kind == Offer && next == HaveLocalOffer then Allowed(next)
        else if op == SetRemote && kind == Offer && next == HaveRemoteOffer then Allowed(next)
        else Invalid
      case HaveLocalOffer =>
        if op == SetRemote && kind == Answer && next == Stable then Allowed(next)
        else if op == SetRemote && kind == Pranswer && next == HaveRemotePranswer then Allowed(next)
        else Invalid
      case HaveRemotePranswer =>
        if op == SetRemote && kind == Answer && next == Stable then Allowed(next) else Invalid
      case HaveRemoteOffer =>
        if op == SetLocal && kind == Answer && next == Stable then Allowed(next)
        else if op == SetLocal && kind == Pranswer && next == HaveLocalPranswer then Allowed(next)
        else Invalid
      case HaveLocalPranswer =>
        if op == SetLocal && kind == Answer && next == Stable then Allowed(next) else Invalid
      case Closed => Invalid
  }

  // ---- one peer

  datatype Peer = Peer(signaling: State, isClosed: bool,
                       pendingLocal: Option<Desc>, currentLocal: Option<Desc>,
                       pendingRemote: Option<Desc>, currentRemote: Option<Desc>,
                       lastOffer: string, lastAnswer: string)

  const NEW_PEER := Peer(Stable, false, None, None, None, None, "", "")

  /** A local description must be the one created last. */
  predicate Matches(p: Peer, d: Desc) {
    (d.kind == Offer ==> d.sdp == p.lastOffer) && (d.kind == Answer || d.kind == Pranswer ==> d.sdp == p.lastAnswer)
  }

  /** An answer makes the descriptions of the exchange current; all others wait. */
  function Installed(p: Peer, d: Desc, op: Op, next: State): Peer {
    if next == Stable then
      p.(signaling := Stable, pendingLocal := None, pendingRemote := None,
         currentLocal := if op == SetLocal then Some(d) else p.pendingLocal,
         currentRemote := if op == SetRemote then Some(d) else p.pendingRemote)
    else if op == SetLocal then p.(signaling := next, pendingLocal := Some(d))
    else p.(signaling := next, pendingRemote := Some(d))
  }

  predicate Permitted(p: Peer, d: Desc, op: Op) {
    !p.isClosed && (op == SetLocal ==> Matches(p, d)) && Next(p.signaling, op, d.kind).Some?
  }

  /** A description that is not permitted changes nothing. */
  function Described(p: Peer, d: Desc, op: Op): Peer {
    if Permitted(p, d, op) then Installed(p, d, op, Next(p.signaling, op, d.kind).value) else p
  }

  /** An empty text stands for the description created last. */
  function Completed(p: Peer, d: Desc): Desc {
    if d.sdp != "" then d
    else if d.kind == Offer then d.(sdp := p.lastOffer)
    else if d.kind == Answer || d.kind == Pranswer then d.(sdp := p.lastAnswer)
    else d
  }

  predicate LocalAccepted(p: Peer, d: Desc, parses: bool) {
    (d.sdp == "" ==> d.kind == Offer || d.kind == Answer || d.kind == Pranswer) &&
    parses && Permitted(p, Completed(p, d), SetLocal)
  }

  predicate RemoteAccepted(p: Peer, d: Desc, parses: bool) {
    p.currentRemote == None && parses && Permitted(p, d, SetRemote)
  }

  function WithLocal(p: Peer, d: Desc, parses: bool): Peer {
    if LocalAccepted(p, d, parses) then Described(p, Completed(p, d), SetLocal) else p
  }

  function WithRemote(p: Peer, d: Desc, parses: bool): Peer {
    if RemoteAccepted(p, d, parses) then Described(p, d, SetRemote) else p
  }

  function Local(p: Peer): Option<Desc> {
    if p.pendingLocal.Some? then p.pendingLocal else p.currentLocal
  }

  function Remote(p: Peer): Option<Desc> {
    if p.pendingRemote.Some? then p.pendingRemote else p.currentRemote
  }

  function OfferCreated(p: Peer, sdp: string): Peer {
    if p.isClosed then p else p.(lastOffer := sdp)
  }

  function AnswerCreated(p: Peer, sdp: string): Peer {
    if Remote(p) == None || p.isClosed then p else p.(lastAnswer := sdp)
  }

  function Shut(p: Peer): Peer {
    if p.isClosed then p else p.(isClosed := true, signaling := Closed)
  }

  class PeerConnection {
    var signalingState: State
    var isClosed: bool
    var pendingLocalDescription: Option<Desc>
    var currentLocalDescription: Option<Desc>
    var pendingRemoteDescription: Option<Desc>
    var currentRemoteDescription: Option<Desc>
    var lastOffer: string
    var lastAnswer: string

    ghost function Abs(): Peer
      reads this
    {
      Peer(signalingState, isClosed, pendingLocalDescription, currentLocalDescription,
           pendingRemoteDescription, currentRemoteDescription, lastOffer, lastAnswer)
    }

    constructor ()
      ensures Abs() == NEW_PEER
    {
      signalingState, isClosed := Stable, false;
      pendingLocalDescription, currentLocalDescription := None, None;
      pendingRemoteDescription, currentRemoteDescription := None, None;
      lastOffer, lastAnswer := "", "";
    }

    method SetDescription(sd: Desc, op: Op) returns (ok: bool)
      modifies this
      ensures ok == Permitted(old(Abs()), sd, op)
      ensures Abs() == Described(old(Abs()), sd, op)
    {
      if isClosed {
        return false;
      }
      var cur := signalingState;
      var check;
      match op {
        case SetLocal =>
          match sd.kind {
            case Offer =>
              if sd.sdp != lastOffer {
                return false;
              }
              check := CheckNext(cur, HaveLocalOffer, SetLocal, sd.kind);
              if check.Allowed? {
                pendingLocalDescription := Some(sd);
              }
            case Answer =>
              if sd.sdp != lastAnswer {
                return false;
              }
              check := CheckNext(cur, Stable, SetLocal, sd.kind);
              if check.Allowed? {
                currentLocalDescription := Some(sd);
                currentRemoteDescription := pendingRemoteDescription;
                pendingRemoteDescription := None;
                pendingLocalDescription := None;
              }
            case Rollback =>
              check := CheckNext(cur, Stable, SetLocal, sd.kind);
              var waiting := pendingLocalDescription;
              if check.Allowed? {
                waiting := None;
              }
              pendingLocalDescription := waiting;
            case Pranswer =>
              if sd.sdp != lastAnswer {
                return false;
              }
              check := CheckNext(cur, HaveLocalPranswer, SetLocal, sd.kind);
              if check.Allowed? {
                pendingLocalDescription := Some(sd);
              }
            case Unknown =>
              return false;
          }
        case SetRemote =>
          match sd.kind {
            case Offer =>
              check := CheckNext(cur, HaveRemoteOffer, SetRemote, sd.kind);
              if check.Allowed? {
                pendingRemoteDescription := Some(sd);
              }
            case Answer =>
              check := CheckNext(cur, Stable, SetRemote, sd.kind);
              if check.Allowed? {
                currentRemoteDescription := Some(sd);
                currentLocalDescription := pendingLocalDescription;
                pendingRemoteDescription := None;
                pendingLocalDescription := None;
              }
            case Rollback =>
              check := CheckNext(cur, Stable, SetRemote, sd.kind);
              var waiting := pendingRemoteDescription;
              if check.Allowed? {
                waiting := None;
              }
              pendingRemoteDescription := waiting;
            case Pranswer =>
              check := CheckNext(cur, HaveRemotePranswer, SetRemote, sd.kind);
              if check.Allowed? {
                pendingRemoteDescription := Some(sd);
              }
            case Unknown =>
              return false;
          }
      }
      ok := check.Allowed?;
      if ok {
        signalingState := check.next;
      }
    }

    /** parses says whether the text of the description is well formed, trickle how candidates are gathered,
        and gathers whether that succeeds.  If it does not the description stays set. */
    method SetLocalDescription(desc: Desc, parses: bool, trickle: bool, gathers: bool) returns (ok: bool)
      modifies this
      ensures ok == (LocalAccepted(old(Abs()), desc, parses) && (gathers || (trickle && desc.kind != Answer)))
      ensures Abs() == WithLocal(old(Abs()), desc, parses)
    {
      if isClosed {
        return false;
      }
      var d := desc;
      if d.sdp == "" {
        match d.kind {
          case Answer => d := d.(sdp := lastAnswer);
          case Pranswer => d := d.(sdp := lastAnswer);
          case Offer => d := d.(sdp := lastOffer);
          case _ => return false;
        }
      }
      if !parses {
        return false;
      }
      ok := SetDescription(d, SetLocal);
      if !ok {
        return false;
      }
      if !trickle {
        return gathers;
      }
      if d.kind == Answer {
        return gathers;
      }
      ok := true;
    }

    /** usable says whether the candidates and the fingerprint in the text can be used.  If they cannot the
        description stays set. */
    method SetRemoteDescription(desc: Desc, parses: bool, usable: bool) returns (ok: bool)
      modifies this
      ensures ok == (RemoteAccepted(old(Abs()), desc, parses) && usable)
      ensures Abs() == WithRemote(old(Abs()), desc, parses)
    {
      if currentRemoteDescription != None {
        return false;
      }
      if isClosed || !parses {
        return false;
      }
      ok := SetDescription(desc, SetRemote);
      ok := ok && usable;
    }

    /** sdp is the text that was made from the transceivers. */
    method CreateOffer(sdp: string) returns (offer: Option<Desc>)
      modifies this
      ensures Abs() == OfferCreated(old(Abs()), sdp)
      ensures offer == if old(isClosed) then None else Some(Desc(Offer, sdp))
    {
      if isClosed {
        return None;
      }
      lastOffer := sdp;
      offer := Some(Desc(Offer, sdp));
    }

    method RemoteDescription() returns (d: Option<Desc>)
      ensures d == Remote(Abs())
    {
      if pendingRemoteDescription != None {
        return pendingRemoteDescription;
      }
      d := currentRemoteDescription;
    }

    method LocalDescription() returns (d: Option<Desc>)
      ensures d == Local(Abs())
    {
      if pendingLocalDescription != None {
        return pendingLocalDescription;
      }
      d := currentLocalDescription;
    }

    method CreateAnswer(sdp: string) returns (answer: Option<Desc>)
      modifies this
      ensures Abs() == AnswerCreated(old(Abs()), sdp)
      ensures answer == if Remote(old(Abs())) == None || old(isClosed) then None else Some(Desc(Answer, sdp))
    {
      var remote := RemoteDescription();
      if remote == None || isClosed {
        return None;
      }
      lastAnswer := sdp;
      answer := Some(Desc(Answer, sdp));
    }

    method Close()
      modifies this
      ensures Abs() == Shut(old(Abs()))
    {
      if isClosed {
        return;
      }
      isClosed := true;
      signalingState := Closed;
    }
  }

  // ---- what every run of one peer keeps

  predicate Is(d: Option<Desc>, kind: SdpType) { d.Some? && d.value.kind == kind }

  /** The signalling state says which descriptions wait, and of which type they are; the current ones
      are an offer and its answer, or there are none. */
  predicate Consistent(p: Peer) {
    (p.isClosed <==> p.signaling == Closed) &&
    (match p.signaling
     case Stable => p.pendingLocal == None && p.pendingRemote == None
     case HaveLocalOffer => Is(p.pendingLocal, Offer) && p.pendingRemote == None
     case HaveRemoteOffer => p.pendingLocal == None && Is(p.pendingRemote, Offer)
     case HaveLocalPranswer => Is(p.pendingLocal, Pranswer) && Is(p.pendingRemote, Offer)
     case HaveRemotePranswer => Is(p.pendingLocal, Offer) && Is(p.pendingRemote, Pranswer)
     case Closed => true) &&
    ((p.currentLocal == None && p.currentRemote == None) ||
     (Is(p.currentLocal, Offer) && Is(p.currentRemote, Answer)) ||
     (Is(p.currentLocal, Answer) && Is(p.currentRemote, Offer)))
  }

  /** Which local descriptions are accepted, in terms of those that wait: the text must be the one created last;
      an offer may not meet another description that waits, an answer needs the other side's offer, and there is
      one provisional answer at most. */
  lemma LocalIff(p: Peer, d: Desc, parses: bool)
    requires Consistent(p)
    ensures LocalAccepted(p, d, parses) <==>
      !p.isClosed && parses &&
      (d.sdp == "" || d.sdp == if d.kind == Offer then p.lastOffer else p.lastAnswer) &&
      match d.kind
      case Offer => p.pendingLocal == None && p.pendingRemote == None
      case Answer => p.pendingRemote.Some? && p.pendingRemote.value.kind == Offer
      case Pranswer => p.pendingRemote.Some? && p.pendingRemote.value.kind == Offer && p.pendingLocal == None
      case _ => false
  {
  }

  lemma RemoteIff(p: Peer, d: Desc, parses: bool)
    requires Consistent(p)
    ensures RemoteAccepted(p, d, parses) <==>
      !p.isClosed && parses && p.currentRemote == None &&
      match d.kind
      case Offer => p.pendingLocal == None && p.pendingRemote == None
      case Answer => p.pendingLocal.Some? && p.pendingLocal.value.kind == Offer
      case Pranswer => p.pendingLocal.Some? && p.pendingLocal.value.kind == Offer && p.pendingRemote == None
      case _ => false
  {
  }

  /** What an accepted description does: an answer makes itself and the offer it answers current and leaves nothing
      waiting; any other waits, and nothing else changes.  A refused one changes nothing. */
  lemma WhatIsSet(p: Peer, d: Desc, parses: bool)
    requires Consistent(p)
    ensures var (q, text) := (WithLocal(p, d, parses), if d.sdp != "" then d.sdp else
                                if d.kind == Offer then p.lastOffer else p.lastAnswer);
            if !LocalAccepted(p, d, parses) then q == p
            else if d.kind == Answer then
              q == Peer(Stable, false, None, Some(Desc(Answer, text)), None, p.pendingRemote, p.lastOffer, p.lastAnswer)
            else
              q.pendingLocal == Some(Desc(d.kind, text)) &&
              q.(pendingLocal := p.pendingLocal, signaling := p.signaling) == p
    ensures var q := WithRemote(p, d, parses);
            if !RemoteAccepted(p, d, parses) then q == p
            else if d.kind == Answer then
              q == Peer(Stable, false, None, p.pendingLocal, None, Some(d), p.lastOffer, p.lastAnswer)
            else
              q.pendingRemote == Some(d) && q.(pendingRemote := p.pendingRemote, signaling := p.signaling) == p
  {
  }

  /** The description that holds for a side is the one accepted last. */
  lemma LatestHolds(p: Peer, d: Desc, parses: bool)
    requires Consistent(p)
    ensures LocalAccepted(p, d, parses) ==>
      var h := Local(WithLocal(p, d, parses)); h.Some? && h.value.kind == d.kind && (d.sdp != "" ==> h == Some(d))
    ensures RemoteAccepted(p, d, parses) ==> Remote(WithRemote(p, d, parses)) == Some(d)
    ensures p.pendingLocal == None ==> Local(p) == p.currentLocal
    ensures p.pendingRemote == None ==> Remote(p) == p.currentRemote
  {
  }

  /** What an application does with a peer connection. */
  datatype Call =
    | NewOffer(sdp: string)
    | NewAnswer(sdp: string)
    | ToLocal(desc: Desc, parses: bool)
    | ToRemote(desc: Desc, parses: bool)
    | Shutdown

  function Called(p: Peer, c: Call): Peer {
    match c
    case NewOffer(sdp) => OfferCreated(p, sdp)
    case NewAnswer(sdp) => AnswerCreated(p, sdp)
    case ToLocal(d, parses) => WithLocal(p, d, parses)
    case ToRemote(d, parses) => WithRemote(p, d, parses)
    case Shutdown => Shut(p)
  }

  function RunPeer(calls: seq<Call>): Peer {
    if calls == [] then NEW_PEER else Called(RunPeer(calls[..|calls| - 1]), calls[|calls| - 1])
  }

  lemma CalledConsistent(p: Peer, c: Call)
    requires Consistent(p)
    ensures Consistent(Called(p, c))
  {
  }

  lemma {:induction false} RunConsistent(calls: seq<Call>)
    ensures Consistent(RunPeer(calls))
    decreases |calls|
  {
    hide Consistent, Called;
    if calls == [] {
      NewConsistent();
    } else {
      RunConsistent(calls[..|calls| - 1]);
      CalledConsistent(RunPeer(calls[..|calls| - 1]), calls[|calls| - 1]);
    }
  }

  lemma NewConsistent()
    ensures Consistent(NEW_PEER)
  {
  }

  /** Rollbacks are always refused, and a closed peer stays exactly as it is. */
  lemma RefusedForGood(p: Peer, c: Call)
    requires p.isClosed || ((c.ToLocal? || c.ToRemote?) && (c.desc.kind == Rollback || c.desc.kind == Unknown))
    ensures Called(p, c) == p
  {
  }

  /** Closed is for good, in every run. */
  lemma {:induction false} ClosedStays(calls: seq<Call>, more: seq<Call>)
    requires RunPeer(calls).isClosed
    ensures RunPeer(calls + more) == RunPeer(calls)
    decreases |more|
  {
    hide Called;
    if more == [] {
      assert calls + more == calls;
    } else {
      ClosedStays(calls, more[..|more| - 1]);
      var all := calls + more;
      assert all[..|all| - 1] == calls + more[..|more| - 1];
      RefusedForGood(RunPeer(calls), all[|all| - 1]);
    }
  }

  /** Once a remote description is current no other is ever accepted, so a second exchange cannot end. */
  lemma {:induction false} OneExchange(calls: seq<Call>, more: seq<Call>)
    requires RunPeer(calls).currentRemote.Some?
    ensures RunPeer(calls + more).currentRemote == RunPeer(calls).currentRemote
    ensures RunPeer(calls + more).currentLocal == RunPeer(calls).currentLocal
    decreases |more|
  {
    if more == [] {
      assert calls + more == calls;
    } else {
      var all := calls + more;
      var before := all[..|all| - 1];
      assert before == calls + more[..|more| - 1];
      OneExchange(calls, more[..|more| - 1]);
      RunConsistent(before);
      RunCurrent(before);
      CurrentKept(RunPeer(before), all[|all| - 1]);
    }
  }

  /** With a current remote description, a peer is stable, offering, or closed. */
  predicate Settled(p: Peer) {
    p.currentRemote.Some? ==> p.signaling == Stable || p.signaling == HaveLocalOffer || p.signaling == Closed
  }

  lemma {:induction false} RunCurrent(calls: seq<Call>)
    ensures Settled(RunPeer(calls))
    decreases |calls|
  {
    hide Called;
    if calls == [] {
    } else {
      RunConsistent(calls[..|calls| - 1]);
      RunCurrent(calls[..|calls| - 1]);
      CurrentKept(RunPeer(calls[..|calls| - 1]), calls[|calls| - 1]);
    }
  }

  lemma CurrentKept(p: Peer, c: Call)
    requires Consistent(p) && Settled(p)
    ensures Settled(Called(p, c))
    ensures p.currentRemote.Some? ==>
      Called(p, c).currentRemote == p.currentRemote && Called(p, c).currentLocal == p.currentLocal
  {
  }

  // ---- two peers, each sending its local descriptions to the other over a channel that loses nothing

  /** Once it has been closed, a connection is closed, and its descriptions are what they were then. */
  lemma {:induction false} ClosedForGood(calls: seq<Call>, more: seq<Call>)
    ensures RunPeer(calls + [Shutdown] + more) == RunPeer(calls).(isClosed := true, signaling := Closed)
  {
    hide Called;
    RunConsistent(calls);
    ShutCloses(RunPeer(calls));
    assert (calls + [Shutdown])[..|calls|] == calls;
    ClosedStays(calls + [Shutdown], more);
  }

  lemma ShutCloses(p: Peer)
    requires Consistent(p)
    ensures Called(p, Shutdown) == p.(isClosed := true, signaling := Closed)
  {
  }

  /** ab holds what a has sent and b has not taken yet. */
  datatype Pair = Pair(a: Peer, b: Peer, ab: seq<Desc>, ba: seq<Desc>)

  const START := Pair(NEW_PEER, NEW_PEER, [], [])

  /** What one side does next.  A local description that is accepted is sent; Take hands the oldest
      description that has arrived to SetRemoteDescription. */
  datatype Move = Create(sdp: string) | Reply(sdp: string) | Send(desc: Desc, parses: bool) | Take | Leave

  function MoveA(s: Pair, m: Move): Pair {
    match m
    case Create(sdp) => s.(a := OfferCreated(s.a, sdp))
    case Reply(sdp) => s.(a := AnswerCreated(s.a, sdp))
    case Send(d, parses) =>
      if LocalAccepted(s.a, d, parses) then s.(a := WithLocal(s.a, d, parses), ab := s.ab + [Completed(s.a, d)]) else s
    case Take => if s.ba == [] then s else s.(a := WithRemote(s.a, s.ba[0], true), ba := s.ba[1..])
    case Leave => s.(a := Shut(s.a))
  }

  function Flip(s: Pair): Pair { Pair(s.b, s.a, s.ba, s.ab) }

  datatype Turn = Turn(byA: bool, move: Move)

  function Played(s: Pair, t: Turn): Pair {
    if t.byA then MoveA(s, t.move) else Flip(MoveA(Flip(s), t.move))
  }

  function Play(turns: seq<Turn>): Pair {
    if turns == [] then START else Played(Play(turns[..|turns| - 1]), turns[|turns| - 1])
  }

  predicate Fresh(p: Peer) { p.currentLocal == None && p.currentRemote == None }

  predicate AllOffers(ds: seq<Desc>) { forall i :: 0 <= i < |ds| ==> ds[i].kind == Offer }

  // The phases of a negotiation; where the sides differ, a is the one that offered.

  predicate Idle(s: Pair) {
    s.a.signaling == Stable && s.b.signaling == Stable && Fresh(s.a) && Fresh(s.b) && s.ab == [] && s.ba == []
  }

  predicate Offered(s: Pair) {
    s.a.signaling == HaveLocalOffer && s.b.signaling == Stable && Fresh(s.a) && Fresh(s.b) &&
    s.a.pendingLocal.Some? && s.ab == [s.a.pendingLocal.value] && s.ba == []
  }

  /** Both have offered: each refuses the other's offer, and nothing can be taken back. */
  predicate Glare(s: Pair) {
    s.a.signaling == HaveLocalOffer && s.b.signaling == HaveLocalOffer && Fresh(s.a) && Fresh(s.b) &&
    AllOffers(s.ab) && AllOffers(s.ba)
  }

  /** b has the offer; what it has answered and a has not taken is on its way. */
  predicate Answering(s: Pair) {
    (s.a.signaling == HaveLocalOffer || s.a.signaling == HaveRemotePranswer) && Fresh(s.a) &&
    s.a.pendingLocal.Some? && s.ab == [] &&
    var early := s.a.signaling == HaveLocalOffer;
    if s.b.signaling == HaveRemoteOffer then
      Fresh(s.b) && s.b.pendingRemote == s.a.pendingLocal && early && s.ba == []
    else if s.b.signaling == HaveLocalPranswer then
      Fresh(s.b) && s.b.pendingRemote == s.a.pendingLocal && s.b.pendingLocal.Some? &&
      s.ba == if early then [s.b.pendingLocal.value] else []
    else
      Renewing(s.b) && s.b.currentRemote == s.a.pendingLocal &&
      (AnswerFirst(s.ba, s.b.currentLocal) ||
       (early && s.ba != [] && s.ba[0].kind == Pranswer && AnswerFirst(s.ba[1..], s.b.currentLocal)))
  }

  predicate Renewing(p: Peer) {
    (p.signaling == Stable || p.signaling == HaveLocalOffer) && p.currentLocal.Some? && p.currentRemote.Some?
  }

  /** The answer, and later offers behind it. */
  predicate AnswerFirst(ds: seq<Desc>, answer: Option<Desc>) {
    ds != [] && Some(ds[0]) == answer && ds[0].kind == Answer && AllOffers(ds[1..])
  }

  predicate Agreed(s: Pair) {
    Renewing(s.a) && Renewing(s.b) && s.a.currentLocal == s.b.currentRemote && s.a.currentRemote == s.b.currentLocal
  }

  predicate InPhase(s: Pair) {
    Idle(s) || Offered(s) || Offered(Flip(s)) || Glare(s) || Answering(s) || Answering(Flip(s)) || Agreed(s)
  }

  predicate Open(s: Pair) { !s.a.isClosed && !s.b.isClosed }

  ghost predicate Sound(s: Pair) {
    Consistent(s.a) && Consistent(s.b) && (Open(s) ==> InPhase(s))
  }

  /** One side moves, whatever the phase and whichever of the two offered. */
  lemma MoveSound(s: Pair, m: Move)
    requires Sound(s)
    ensures Sound(MoveA(s, m))
  {
    hide Consistent, InPhase;
    MoveConsistent(s, m);
    if Open(MoveA(s, m)) {
      MoveOpen(s, m);
      if Idle(s) || Agreed(s) || Glare(s) {
        MoveSymmetric(s, m);
      } else if Offered(s) || Answering(s) {
        MoveOfferer(s, m);
      } else {
        ElseFlipped(s);
        MoveAnswerer(s, m);
      }
    }
  }

  lemma ElseFlipped(s: Pair)
    requires InPhase(s) && !(Idle(s) || Agreed(s) || Glare(s) || Offered(s) || Answering(s))
    ensures Offered(Flip(s)) || Answering(Flip(s))
  {
  }

  lemma MoveOpen(s: Pair, m: Move)
    requires Open(MoveA(s, m))
    ensures Open(s) && m != Leave
  {
  }

  lemma MoveConsistent(s: Pair, m: Move)
    requires Consistent(s.a) && Consistent(s.b)
    ensures Consistent(MoveA(s, m).a) && Consistent(MoveA(s, m).b)
  {
    hide Consistent;
    match m
    case Create(sdp) => CalledConsistent(s.a, NewOffer(sdp));
    case Reply(sdp) => CalledConsistent(s.a, NewAnswer(sdp));
    case Send(d, parses) => CalledConsistent(s.a, ToLocal(d, parses));
    case Take =>
      if s.ba != [] {
        CalledConsistent(s.a, ToRemote(s.ba[0], true));
      }
    case Leave => CalledConsistent(s.a, Shutdown);
  }

  lemma MoveSymmetric(s: Pair, m: Move)
    requires Consistent(s.a) && Consistent(s.b) && Open(s) && m != Leave
    requires Idle(s) || Agreed(s) || Glare(s)
    ensures InPhase(MoveA(s, m))
  {
  }

  lemma MoveOfferer(s: Pair, m: Move)
    requires Consistent(s.a) && Consistent(s.b) && Open(s) && m != Leave
    requires Offered(s) || Answering(s)
    ensures InPhase(MoveA(s, m))
  {
  }

  lemma MoveAnswerer(s: Pair, m: Move)
    requires Consistent(s.a) && Consistent(s.b) && Open(s) && m != Leave
    requires Offered(Flip(s)) || Answering(Flip(s))
    ensures InPhase(MoveA(s, m))
  {
  }

  lemma FlipSound(s: Pair)
    requires Sound(s)
    ensures Sound(Flip(s)) && Flip(Flip(s)) == s
  {
    hide Consistent;
  }

  /** In every run of two peers, whoever moves when: if both are stable, either nothing has been agreed
      by either, or each one's current local description is the other's current remote description. */
  lemma {:induction false} StableMeansAgreed(turns: seq<Turn>)
    ensures Sound(Play(turns))
    ensures var s := Play(turns);
            s.a.signaling == Stable && s.b.signaling == Stable ==>
              s.a.currentLocal == s.b.currentRemote && s.a.currentRemote == s.b.currentLocal
    decreases |turns|
  {
    hide Consistent, Played, MoveA;
    if turns == [] {
      NewConsistent();
    } else {
      StableMeansAgreed(turns[..|turns| - 1]);
      PlayedSound(Play(turns[..|turns| - 1]), turns[|turns| - 1]);
      StableAgreed(Play(turns));
    }
  }

  lemma PlayedSound(s: Pair, t: Turn)
    requires Sound(s)
    ensures Sound(Played(s, t))
  {
    hide Sound, MoveA;
    FlipSound(s);
    if t.byA {
      MoveSound(s, t.move);
    } else {
      MoveSound(Flip(s), t.move);
      FlipSound(MoveA(Flip(s), t.move));
    }
  }

  lemma StableAgreed(s: Pair)
    requires Sound(s)
    ensures s.a.signaling == Stable && s.b.signaling == Stable ==>
      s.a.currentLocal == s.b.currentRemote && s.a.currentRemote == s.b.currentLocal
  {
  }

  /** Crossed offers, on sides that may have been closed since. */
  predicate Crossed(s: Pair) {
    (s.a.isClosed || (s.a.signaling == HaveLocalOffer && Fresh(s.a))) &&
    (s.b.isClosed || (s.b.signaling == HaveLocalOffer && Fresh(s.b))) &&
    AllOffers(s.ab) && AllOffers(s.ba)
  }

  lemma CrossedStays(s: Pair, t: Turn)
    requires Crossed(s)
    ensures Crossed(Played(s, t))
  {
  }

  /** Two crossing offers are never resolved: however the peers go on, each that is not closed keeps
      offering, and nothing is ever agreed. */
  lemma {:induction false} GlareForever(turns: seq<Turn>, more: seq<Turn>)
    requires Glare(Play(turns))
    ensures Crossed(Play(turns + more))
    decreases |more|
  {
    hide Played;
    if more == [] {
      assert turns + more == turns;
    } else {
      GlareForever(turns, more[..|more| - 1]);
      var all := turns + more;
      assert all[..|all| - 1] == turns + more[..|more| - 1];
      CrossedStays(Play(all[..|all| - 1]), all[|all| - 1]);
    }
  }

  // ---- an exchange that is not crossed can always be completed

  function PlayOn(s: Pair, turns: seq<Turn>): Pair
    decreases |turns|
  {
    if turns == [] then s else PlayOn(Played(s, turns[0]), turns[1..])
  }

  function Mirrored(turns: seq<Turn>): (r: seq<Turn>)
    ensures |r| == |turns|
  {
    seq(|turns|, i requires 0 <= i < |turns| => Turn(!turns[i].byA, turns[i].move))
  }

  lemma {:induction false} PlayMirrored(s: Pair, turns: seq<Turn>)
    ensures PlayOn(Flip(s), Mirrored(turns)) == Flip(PlayOn(s, turns))
    decreases |turns|
  {
    hide MoveA;
    if turns == [] {
    } else {
      PlayMirrored(Played(s, turns[0]), turns[1..]);
      assert Mirrored(turns)[1..] == Mirrored(turns[1..]);
      assert Played(Flip(s), Mirrored(turns)[0]) == Flip(Played(s, turns[0]));
    }
  }

  lemma {:induction false} PlayLonger(turns: seq<Turn>, more: seq<Turn>)
    ensures Play(turns + more) == PlayOn(Play(turns), more)
    decreases |more|
  {
    hide Played;
    if more == [] {
      assert turns + more == turns;
    } else {
      assert turns + more == turns + [more[0]] + more[1..];
      PlayLonger(turns + [more[0]], more[1..]);
      assert (turns + [more[0]])[..|turns|] == turns;
    }
  }

  /** How far the exchange that a began is from its end. */
  function Distance(s: Pair): nat {
    if s.b.signaling == Stable && Fresh(s.b) then 3
    else if s.b.signaling == HaveRemoteOffer || s.b.signaling == HaveLocalPranswer then 2
    else if s.ba != [] && s.ba[0].kind == Pranswer then 1
    else 0
  }

  const REPLY := "answer"
  const PROPOSAL := "offer"

  lemma OffererStarts(s: Pair)
    requires Consistent(s.a) && Consistent(s.b) && Open(s) && Idle(s)
    ensures var t := Played(Played(s, Turn(true, Create(PROPOSAL))), Turn(true, Send(Desc(Offer, PROPOSAL), true)));
            Open(t) && Offered(t)
  {
  }

  lemma AnswererTakes(s: Pair)
    requires Consistent(s.a) && Consistent(s.b) && Open(s) && Offered(s)
    ensures var t := Played(s, Turn(false, Take)); Open(t) && Answering(t) && Distance(t) == 2
  {
  }

  lemma AnswererReplies(s: Pair)
    requires Consistent(s.a) && Consistent(s.b) && Open(s) && Answering(s) && Distance(s) == 2
    ensures var t := Played(Played(s, Turn(false, Reply(REPLY))), Turn(false, Send(Desc(Answer, REPLY), true)));
            Open(t) && Answering(t) && Distance(t) < 2
  {
  }

  lemma OffererTakes(s: Pair)
    requires Consistent(s.a) && Consistent(s.b) && Open(s) && Answering(s) && Distance(s) < 2
    ensures var t := Played(s, Turn(true, Take));
            Open(t) && if Distance(s) == 0 then Agreed(t) else Answering(t) && Distance(t) == 0
  {
  }

  lemma {:induction false} CompletesFrom(s: Pair) returns (more: seq<Turn>)
    requires Sound(s) && Open(s) && (Idle(s) || Offered(s) || Answering(s))
    ensures Open(PlayOn(s, more)) && Agreed(PlayOn(s, more))
    decreases Idle(s), Distance(s)
  {
    hide Consistent, Played, Agreed, Answering, Distance;
    var next: seq<Turn>;
    if Idle(s) {
      OffererStarts(s);
      next := [Turn(true, Create(PROPOSAL)), Turn(true, Send(Desc(Offer, PROPOSAL), true))];
    } else if Offered(s) {
      AnswererTakes(s);
      next := [Turn(false, Take)];
    } else if Distance(s) == 2 {
      AnswererReplies(s);
      next := [Turn(false, Reply(REPLY)), Turn(false, Send(Desc(Answer, REPLY), true))];
    } else {
      AnsweringNear(s);
      OffererTakes(s);
      next := [Turn(true, Take)];
    }
    TwoMoves(s, next);
    var t := PlayOn(s, next);
    if Agreed(t) {
      more := next;
    } else {
      StillSound(s, next);
      OfferedFar(s);
      NotIdle(t);
      var rest := CompletesFrom(t);
      more := next + rest;
      PlayParts(s, next, rest);
    }
  }

  lemma AnsweringNear(s: Pair)
    requires Consistent(s.b) && Answering(s) && Distance(s) != 2
    ensures Distance(s) < 2
  {
  }

  lemma NotIdle(s: Pair)
    requires Offered(s) || Answering(s)
    ensures !Idle(s)
  {
  }

  lemma OfferedFar(s: Pair)
    ensures Offered(s) ==> Distance(s) == 3
  {
  }

  lemma {:induction false} TwoMoves(s: Pair, turns: seq<Turn>)
    ensures |turns| == 1 ==> PlayOn(s, turns) == Played(s, turns[0])
    ensures |turns| == 2 ==> PlayOn(s, turns) == Played(Played(s, turns[0]), turns[1])
    decreases |turns|
  {
    hide Played;
    if |turns| == 1 {
      assert turns[1..] == [];
    } else if |turns| == 2 {
      TwoMoves(Played(s, turns[0]), turns[1..]);
    }
  }

  lemma {:induction false} StillSound(s: Pair, turns: seq<Turn>)
    requires Sound(s)
    ensures Sound(PlayOn(s, turns))
    decreases |turns|
  {
    hide Sound, Played;
    if turns == [] {
    } else {
      PlayedSound(s, turns[0]);
      StillSound(Played(s, turns[0]), turns[1..]);
    }
  }

  lemma {:induction false} PlayParts(s: Pair, first: seq<Turn>, rest: seq<Turn>)
    ensures PlayOn(s, first + rest) == PlayOn(PlayOn(s, first), rest)
    decreases |first|
  {
    hide Played;
    if first == [] {
      assert first + rest == rest;
    } else {
      assert (first + rest)[1..] == first[1..] + rest;
      PlayParts(Played(s, first[0]), first[1..], rest);
    }
  }

  /** In every run in which the offers have not crossed and neither side is closed, some continuation ends
      with both sides agreed. */
  lemma CanComplete(turns: seq<Turn>) returns (more: seq<Turn>)
    requires Open(Play(turns)) && !Glare(Play(turns))
    ensures Open(Play(turns + more)) && Agreed(Play(turns + more))
  {
    hide Consistent, Played, Idle, Glare, Offered, Answering, Agreed;
    StableMeansAgreed(turns);
    var s := Play(turns);
    if Agreed(s) {
      more := [];
      assert turns + more == turns;
    } else if Idle(s) || Offered(s) || Answering(s) {
      more := CompletesFrom(s);
      PlayLonger(turns, more);
    } else {
      FlipSound(s);
      var mirrored := CompletesFrom(Flip(s));
      more := Mirrored(mirrored);
      PlayMirrored(Flip(s), mirrored);
      PlayLonger(turns, more);
      AgreedFlips(PlayOn(Flip(s), mirrored));
    }
  }

  /** Two open sides can still come to an agreement exactly if their offers have not crossed. */
  lemma {:induction false} CompletableIff(turns: seq<Turn>)
    requires Open(Play(turns))
    ensures (exists more :: Open(Play(turns + more)) && Agreed(Play(turns + more))) <==> !Glare(Play(turns))
  {
    hide Play, Glare;
    if Glare(Play(turns)) {
      forall more: seq<Turn>
        ensures !(Open(Play(turns + more)) && Agreed(Play(turns + more)))
      {
        GlareForever(turns, more);
      }
    } else {
      var more := CanComplete(turns);
    }
  }

  lemma AgreedFlips(s: Pair)
    ensures Agreed(s) ==> Agreed(Flip(s))
  {
  }
}
