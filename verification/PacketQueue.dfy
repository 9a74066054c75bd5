/** The bounded queue between a publisher and an RTMP player (protocol/rtmp/rtmp.go:232-284): the drop
    policy run alone, and run against a consumer that may take packets at any moment.  The channel
    stays open and there is one producer. */
module PacketQueue {
  import opened Av

  const MAX_QUEUE := 1024
  const DROP_AT := 1000
  const DROP_COUNT := 940

  /** Demuxers never mark a packet as both. */
  predicate OneKind(p: Packet) { !(p.isAudio && p.isVideo) }

  predicate AllOneKind(ps: seq<Packet>) { forall i :: 0 <= i < |ps| ==> OneKind(ps[i]) }

  /** Audio, sequence headers and keyframes are put back when packets are dropped. */
  predicate Protected(p: Packet) {
    p.isAudio || (p.isVideo && p.header.VideoHeader? && (p.header.isSeq || p.header.isKeyFrame))
  }

  function Kept(ps: seq<Packet>): seq<Packet> {
    if ps == [] then []
    else Kept(ps[..|ps| - 1]) + if Protected(ps[|ps| - 1]) then [ps[|ps| - 1]] else []
  }

  // ---- the drop policy without a consumer

  /** One turn of the loop, with the two branches that drop a packet without looking at it. */
  function DropOne(q: seq<Packet>): seq<Packet>
    requires q != []
  {
    var (p, rest) := (q[0], q[1..]);
    if p.isAudio then if |rest| > MAX_QUEUE - 2 then rest[1..] else rest + [p]
    else if p.isVideo then
      var r := if Protected(p) then rest + [p] else rest;
      if |r| > MAX_QUEUE - 10 then r[1..] else r
    else rest
  }

  /** n turns, or as many as the queue lasts. */
  function DropMany(q: seq<Packet>, n: nat): seq<Packet>
  {
    if n == 0 then q
    else
      var r := DropMany(q, n - 1);
      if r == [] then [] else DropOne(r)
  }

  class VirWriter {
    var packetQueue: seq<Packet>

    ghost predicate Valid()
      reads this
    {
      |packetQueue| <= DROP_AT && AllOneKind(packetQueue)
    }

    constructor ()
      ensures Valid() && packetQueue == []
    {
      packetQueue := [];
    }

    method Receive() returns (p: Packet)
      requires packetQueue != []
      modifies this
      ensures p == old(packetQueue)[0] && packetQueue == old(packetQueue)[1..]
    {
      p := packetQueue[0];
      packetQueue := packetQueue[1..];
    }

    method Send(p: Packet)
      requires |packetQueue| < MAX_QUEUE
      modifies this
      ensures packetQueue == old(packetQueue) + [p]
    {
      packetQueue := packetQueue + [p];
    }

    method DropPacket()
      requires DROP_AT <= |packetQueue| <= MAX_QUEUE && AllOneKind(packetQueue)
      modifies this
      ensures packetQueue == DropMany(old(packetQueue), DROP_COUNT)
    {
      hide Protected;
      for i := 0 to MAX_QUEUE - 84
        invariant packetQueue == DropMany(old(packetQueue), i)
        invariant DROP_AT - i <= |packetQueue| <= MAX_QUEUE && AllOneKind(packetQueue)
      {
        var tmpPkt := Receive();
        if tmpPkt.isAudio {
          if |packetQueue| > MAX_QUEUE - 2 {
            var _ := Receive();
          } else {
            Send(tmpPkt);
          }
        }
        if tmpPkt.isVideo {
          if Protected(tmpPkt) {
            Send(tmpPkt);
          }
          if |packetQueue| > MAX_QUEUE - 10 {
            var _ := Receive();
          }
        }
      }
    }

    /** A packet that arrives while the queue is full is itself dropped. */
    method Write(p: Packet)
      requires Valid() && OneKind(p)
      modifies this
      ensures Valid()
      ensures var q := old(packetQueue);
              packetQueue == if |q| < 1000 then q + [p] else q[940..] + Kept(q[..940])
    {
      if |packetQueue| >= MAX_QUEUE - 24 {
        DropIs(packetQueue, DROP_COUNT);
        KeptFewer(packetQueue[..DROP_COUNT]);
        KeptOneKind(packetQueue[..DROP_COUNT]);
        DropPacket();
      } else {
        Send(p);
      }
    }
  }

  /** In a queue of at most 1000 nothing is dropped unseen: n turns take n packets off the front and put
      those that are protected back behind the others, in order. */
  lemma {:induction false} DropIs(q: seq<Packet>, n: nat)
    requires n <= |q| <= DROP_AT && AllOneKind(q)
    ensures DropMany(q, n) == q[n..] + Kept(q[..n])
    decreases n
  {
    hide Protected, DropOne, OneKind;
    if n == 0 {
      assert q[0..] + Kept(q[..0]) == q;
    } else {
      DropIs(q, n - 1);
      OneMoreTurn(q, n);
    }
  }

  lemma OneMoreTurn(q: seq<Packet>, n: nat)
    requires 0 < n <= |q| <= DROP_AT && AllOneKind(q)
    ensures DropOne(q[n - 1..] + Kept(q[..n - 1])) == q[n..] + Kept(q[..n])
  {
    hide Protected, DropOne, OneKind;
    KeptFewer(q[..n - 1]);
    var r := q[n - 1..] + Kept(q[..n - 1]);
    assert r[0] == q[n - 1] && r[1..] == q[n..] + Kept(q[..n - 1]);
    assert q[..n][..n - 1] == q[..n - 1];
    RotateOne(r);
  }

  lemma RotateOne(q: seq<Packet>)
    requires 0 < |q| <= DROP_AT && OneKind(q[0])
    ensures DropOne(q) == q[1..] + if Protected(q[0]) then [q[0]] else []
  {
    hide Protected;
    PlainKept(q[0]);
  }

  lemma PlainKept(p: Packet)
    ensures p.isAudio ==> Protected(p)
    ensures !p.isAudio && !p.isVideo ==> !Protected(p)
  {
  }

  lemma {:induction false} KeptFewer(ps: seq<Packet>)
    ensures |Kept(ps)| <= |ps|
    decreases |ps|
  {
    hide Protected;
    if ps == [] {
    } else {
      KeptFewer(ps[..|ps| - 1]);
    }
  }

  lemma {:induction false} KeptOneKind(ps: seq<Packet>)
    requires AllOneKind(ps)
    ensures AllOneKind(Kept(ps))
    decreases |ps|
  {
    hide Protected;
    if ps == [] {
    } else {
      KeptOneKind(ps[..|ps| - 1]);
      assert OneKind(ps[|ps| - 1]);
    }
  }

  // ---- producer and consumer, one channel operation at a time

  /** Where the producer stands: between writes; about to send a new packet; about to receive for the
      given turn of the drop loop; holding a packet; about to put it back; past its video packet; about
      to drop one unseen. */
  datatype Pc =
    | Ready
    | Sending(p: Packet)
    | Taking(turn: nat)
    | Holding(turn: nat, held: Packet)
    | PuttingBack(turn: nat, held: Packet)
    | Checking(turn: nat)
    | DroppingBlind(turn: nat)

  /** accepted are the packets ever sent into the queue by Write, taken those the consumer has got. */
  datatype State = State(queue: seq<Packet>, pc: Pc, accepted: seq<Packet>, taken: seq<Packet>)

  const START := State([], Ready, [], [])

  datatype Action = Offer(p: Packet) | Produce | Consume

  /** The producer's next channel operation, or none if it would block. */
  predicate CanProduce(s: State) {
    match s.pc
    case Ready => false
    case Sending(_) => |s.queue| < MAX_QUEUE
    case Taking(turn) => turn == DROP_COUNT || s.queue != []
    case Holding(_, _) => true
    case PuttingBack(_, _) => |s.queue| < MAX_QUEUE
    case Checking(_) => true
    case DroppingBlind(_) => s.queue != []
  }

  function Produced(s: State): State
    requires CanProduce(s)
  {
    match s.pc
    case Sending(p) => s.(queue := s.queue + [p], pc := Ready, accepted := s.accepted + [p])
    case Taking(turn) =>
      if turn == DROP_COUNT then s.(pc := Ready) else s.(queue := s.queue[1..], pc := Holding(turn, s.queue[0]))
    case Holding(turn, p) =>
      if p.isAudio then s.(pc := if |s.queue| > MAX_QUEUE - 2 then DroppingBlind(turn) else PuttingBack(turn, p))
      else if p.isVideo then s.(pc := if Protected(p) then PuttingBack(turn, p) else Checking(turn))
      else s.(pc := Taking(turn + 1))
    case PuttingBack(turn, p) =>
      s.(queue := s.queue + [p], pc := if p.isVideo then Checking(turn) else Taking(turn + 1))
    case Checking(turn) => s.(pc := if |s.queue| > MAX_QUEUE - 10 then DroppingBlind(turn) else Taking(turn + 1))
    case DroppingBlind(turn) => s.(queue := s.queue[1..], pc := Taking(turn + 1))
  }

  /** Actions that are not possible change nothing. */
  function Act(s: State, a: Action): State {
    match a
    case Offer(p) =>
      if s.pc != Ready then s
      else s.(pc := if |s.queue| >= DROP_AT then Taking(0) else Sending(p))
    case Produce => if CanProduce(s) then Produced(s) else s
    case Consume =>
      if s.queue == [] then s else s.(queue := s.queue[1..], taken := s.taken + [s.queue[0]])
  }

  function Run(actions: seq<Action>): State {
    if actions == [] then START else Act(Run(actions[..|actions| - 1]), actions[|actions| - 1])
  }

  predicate OffersOneKind(actions: seq<Action>) {
    forall i :: 0 <= i < |actions| && actions[i].Offer? ==> OneKind(actions[i].p)
  }

  function Held(pc: Pc): seq<Packet> {
    if pc.Holding? || pc.PuttingBack? then [pc.held] else []
  }

  /** The queue leaves room for what the producer holds, so no send can block, and it is never near the
      lengths at which packets are dropped unseen. */
  predicate Roomy(s: State) {
    |s.queue| + |Held(s.pc)| <= DROP_AT && (s.pc.Sending? ==> |s.queue| < DROP_AT) &&
    !s.pc.DroppingBlind? && AllOneKind(s.queue) && AllOneKind(Held(s.pc)) &&
    (s.pc.Sending? ==> OneKind(s.pc.p)) && (s.pc.PuttingBack? ==> Protected(s.pc.held)) &&
    (s.pc.Taking? ==> s.pc.turn <= DROP_COUNT) &&
    (s.pc.Holding? || s.pc.PuttingBack? || s.pc.Checking? ==> s.pc.turn < DROP_COUNT)
  }

  /** Of the protected packets accepted, each is in the queue, in the producer's hand, or has been taken
      by the consumer, as often as it was accepted. */
  predicate Conserved(s: State) {
    multiset(Kept(s.accepted)) == multiset(Kept(s.taken)) + multiset(Kept(s.queue)) + multiset(Kept(Held(s.pc)))
  }

  lemma ActRoomy(s: State, a: Action)
    requires Roomy(s) && (a.Offer? ==> OneKind(a.p))
    ensures Roomy(Act(s, a))
  {
    hide Protected;
    if a == Produce && CanProduce(s) && s.pc.Holding? {
      PlainKept(s.pc.held);
    }
  }

  lemma {:induction false} KeptAppend(ps: seq<Packet>, p: Packet)
    ensures Kept(ps + [p]) == Kept(ps) + if Protected(p) then [p] else []
  {
    assert (ps + [p])[..|ps|] == ps;
  }

  lemma {:induction false} KeptFirst(ps: seq<Packet>)
    requires ps != []
    ensures multiset(Kept(ps)) == multiset(if Protected(ps[0]) then [ps[0]] else []) + multiset(Kept(ps[1..]))
    decreases |ps|
  {
    hide Protected;
    var n := |ps| - 1;
    if n == 0 {
      assert ps[..0] == [] && ps[1..] == [];
    } else {
      KeptFirst(ps[..n]);
      assert ps[..n][1..] == ps[1..][..n - 1] && ps[1..][n - 1] == ps[n];
    }
  }

  lemma KeptOne(p: Packet)
    ensures Kept([p]) == (if Protected(p) then [p] else []) && Kept([]) == []
  {
    assert [p][..0] == [];
  }

  lemma ActConserved(s: State, a: Action)
    requires Roomy(s) && Conserved(s)
    ensures Conserved(Act(s, a))
  {
    hide Protected, Kept;
    match a
    case Offer(_) => KeptNone();
    case Consume =>
      if s.queue != [] {
        KeptFirst(s.queue);
        KeptAppend(s.taken, s.queue[0]);
      }
    case Produce =>
      if CanProduce(s) {
        ProduceConserved(s);
      }
  }

  lemma ProduceConserved(s: State)
    requires Roomy(s) && Conserved(s) && CanProduce(s)
    ensures Conserved(Produced(s))
  {
    hide Protected, Kept;
    match s.pc
    case Sending(p) => SendConserves(s, p);
    case Taking(turn) =>
      if turn < DROP_COUNT {
        TakeConserves(s, turn);
      }
    case Holding(_, p) => HoldConserves(s, p);
    case PuttingBack(turn, p) => BackConserves(s, turn, p);
    case Checking(_) =>
  }

  lemma TakeConserves(s: State, turn: nat)
    requires Conserved(s) && s.pc == Taking(turn) && s.queue != []
    ensures Conserved(s.(queue := s.queue[1..], pc := Holding(turn, s.queue[0])))
  {
    hide Protected, Kept;
    KeptNone();
    KeptFirst(s.queue);
    KeptOne(s.queue[0]);
  }

  lemma BackConserves(s: State, turn: nat, p: Packet)
    requires Conserved(s) && s.pc == PuttingBack(turn, p)
    ensures Conserved(s.(queue := s.queue + [p], pc := if p.isVideo then Checking(turn) else Taking(turn + 1)))
  {
    hide Protected, Kept;
    KeptNone();
    KeptOne(p);
    KeptAppend(s.queue, p);
  }

  lemma SendConserves(s: State, p: Packet)
    requires Conserved(s) && s.pc == Sending(p)
    ensures Conserved(s.(queue := s.queue + [p], pc := Ready, accepted := s.accepted + [p]))
  {
    hide Protected, Kept;
    KeptNone();
    KeptAppend(s.queue, p);
    KeptAppend(s.accepted, p);
  }

  lemma HoldConserves(s: State, p: Packet)
    requires Roomy(s) && Conserved(s) && s.pc.Holding? && s.pc.held == p
    ensures Conserved(Produced(s))
  {
    hide Protected, Kept, Roomy;
    KeptNone();
    KeptOne(p);
    PlainKept(p);
    FarFromFull(s);
  }

  lemma FarFromFull(s: State)
    requires Roomy(s) && s.pc.Holding?
    ensures |s.queue| < DROP_AT
  {
  }

  lemma KeptNone()
    ensures Kept([]) == []
  {
  }

  /** In every interleaving: the queue never exceeds 1000, no send blocks, no packet is dropped unseen,
      and no audio packet, keyframe or sequence header that was queued is lost. */
  lemma {:induction false} RunConserves(actions: seq<Action>)
    requires OffersOneKind(actions)
    ensures var s := Run(actions);
            Roomy(s) && Conserved(s) &&
            ((s.pc.Sending? || s.pc.PuttingBack?) ==> CanProduce(s))
    decreases |actions|
  {
    hide Roomy, Conserved, Act;
    if actions == [] {
      StartConserved();
    } else {
      var before := actions[..|actions| - 1];
      RunConserves(before);
      ActRoomy(Run(before), actions[|actions| - 1]);
      ActConserved(Run(before), actions[|actions| - 1]);
    }
    RoomyMoves(Run(actions));
  }

  lemma StartConserved()
    ensures Roomy(START) && Conserved(START)
  {
  }

  lemma RoomyMoves(s: State)
    requires Roomy(s)
    ensures (s.pc.Sending? || s.pc.PuttingBack?) ==> CanProduce(s)
    ensures !CanProduce(s) ==> s.pc == Ready || Stuck(s)
  {
  }

  // ---- in the fields of a packet

  /** How often a packet is kept of those it came with: audio and the keyframes and sequence headers of video
      each time, any other packet never. */
  lemma {:induction false} KeptByFields(ps: seq<Packet>, p: Packet)
    ensures multiset(Kept(ps))[p] ==
      if p.isAudio || (p.isVideo && p.header.VideoHeader? && (p.header.isKeyFrame || p.header.isSeq))
      then multiset(ps)[p] else 0
    decreases |ps|
  {
    if ps == [] {
    } else {
      var n := |ps| - 1;
      KeptByFields(ps[..n], p);
      assert ps == ps[..n] + [ps[n]];
    }
  }

  /** In every interleaving each audio packet, and each video packet that is a keyframe or a sequence header, is in
      the queue, in the producer's hand or taken, as often as it was accepted. */
  lemma {:induction false} NothingNeededIsLost(actions: seq<Action>, p: Packet)
    requires OffersOneKind(actions)
    requires p.isAudio || (p.isVideo && p.header.VideoHeader? && (p.header.isKeyFrame || p.header.isSeq))
    ensures var s := Run(actions);
            multiset(s.accepted)[p] == multiset(s.taken)[p] + multiset(s.queue)[p] + multiset(Held(s.pc))[p] &&
            |s.queue| <= 1000
  {
    hide Run, Kept;
    RunConserves(actions);
    var s := Run(actions);
    KeptByFields(s.accepted, p);
    KeptByFields(s.taken, p);
    KeptByFields(s.queue, p);
    KeptByFields(Held(s.pc), p);
    ConservedOne(s, p);
  }

  lemma ConservedOne(s: State, p: Packet)
    requires Conserved(s)
    ensures multiset(Kept(s.accepted))[p] ==
      multiset(Kept(s.taken))[p] + multiset(Kept(s.queue))[p] + multiset(Kept(Held(s.pc)))[p]
  {
    hide Kept;
  }

  /** No packet is there more often than it was accepted. */
  lemma {:induction false} NothingIsAdded(actions: seq<Action>, p: Packet)
    ensures var s := Run(actions);
            There(s)[p] <= multiset(s.accepted)[p]
    decreases |actions|
  {
    hide Act;
    if actions == [] {
    } else {
      var n := |actions| - 1;
      NothingIsAdded(actions[..n], p);
      ActAddsNothing(Run(actions[..n]), actions[n], p);
    }
  }

  function There(s: State): multiset<Packet> { multiset(s.taken) + multiset(s.queue) + multiset(Held(s.pc)) }

  lemma ActAddsNothing(s: State, a: Action, p: Packet)
    requires There(s)[p] <= multiset(s.accepted)[p]
    ensures There(Act(s, a))[p] <= multiset(Act(s, a).accepted)[p]
  {
    hide Protected;
    match a
    case Offer(_) =>
    case Consume =>
      if s.queue != [] {
        FirstOut(s.queue);
      }
    case Produce =>
      if CanProduce(s) {
        ProduceAddsNothing(s, p);
      }
  }

  lemma ProduceAddsNothing(s: State, p: Packet)
    requires CanProduce(s) && There(s)[p] <= multiset(s.accepted)[p]
    ensures There(Produced(s))[p] <= multiset(Produced(s).accepted)[p]
  {
    hide Protected, There;
    match s.pc
    case Sending(_) => SendThere(s);
    case Taking(_) => TakeThere(s);
    case Holding(_, _) => HoldThere(s);
    case PuttingBack(_, _) => BackThere(s);
    case Checking(_) => CheckThere(s);
    case DroppingBlind(_) => BlindThere(s);
  }

  lemma SendThere(s: State)
    requires s.pc.Sending? && CanProduce(s)
    ensures There(Produced(s)) == There(s) + multiset{s.pc.p}
    ensures multiset(Produced(s).accepted) == multiset(s.accepted) + multiset{s.pc.p}
  {
  }

  lemma TakeThere(s: State)
    requires s.pc.Taking? && CanProduce(s)
    ensures There(Produced(s)) == There(s) && Produced(s).accepted == s.accepted
  {
    if s.pc.turn != DROP_COUNT {
      FirstOut(s.queue);
    }
  }

  lemma HoldThere(s: State)
    requires s.pc.Holding? && CanProduce(s)
    ensures There(Produced(s)) <= There(s) && Produced(s).accepted == s.accepted
  {
    hide Protected;
  }

  lemma BackThere(s: State)
    requires s.pc.PuttingBack? && CanProduce(s)
    ensures There(Produced(s)) == There(s) && Produced(s).accepted == s.accepted
  {
  }

  lemma CheckThere(s: State)
    requires s.pc.Checking? && CanProduce(s)
    ensures There(Produced(s)) == There(s) && Produced(s).accepted == s.accepted
  {
  }

  lemma BlindThere(s: State)
    requires s.pc.DroppingBlind? && CanProduce(s)
    ensures There(Produced(s)) <= There(s) && Produced(s).accepted == s.accepted
  {
    FirstOut(s.queue);
  }

  lemma FirstOut(q: seq<Packet>)
    requires q != []
    ensures multiset(q) == multiset{q[0]} + multiset(q[1..])
  {
    assert q == [q[0]] + q[1..];
  }

  /** A write that finds the queue full, without a consumer: behind the last 60 packets come those of the first
      940 that are audio, keyframes or sequence headers, and no others. */
  lemma {:induction false} RearByFields(q: seq<Packet>, p: Packet)
    requires |q| == 1000 && AllOneKind(q)
    ensures var r := DropMany(q, 940);
            |r| >= 60 && r[..60] == q[940..] &&
            multiset(r[60..])[p] ==
              if p.isAudio || (p.isVideo && p.header.VideoHeader? && (p.header.isKeyFrame || p.header.isSeq))
              then multiset(q[..940])[p] else 0
  {
    hide DropMany, Kept;
    DropIs(q, 940);
    KeptByFields(q[..940], p);
  }

  // ---- what can go wrong

  /** The consumer has emptied the queue while packets are being dropped. */
  predicate Stuck(s: State) {
    s.queue == [] && s.pc.Taking? && s.pc.turn < DROP_COUNT
  }

  lemma StuckStays(s: State, a: Action)
    requires Stuck(s)
    ensures Act(s, a) == s
  {
  }

  /** Then neither side ever moves again, whatever is offered: the producer waits for a packet that only
      it could send. */
  lemma {:induction false} StuckForever(actions: seq<Action>, more: seq<Action>)
    requires Stuck(Run(actions))
    ensures Run(actions + more) == Run(actions)
    decreases |more|
  {
    hide Act, Stuck;
    if more == [] {
      assert actions + more == actions;
    } else {
      StuckForever(actions, more[..|more| - 1]);
      var all := actions + more;
      assert all[..|all| - 1] == actions + more[..|more| - 1];
      StuckStays(Run(actions), all[|all| - 1]);
    }
  }

  /** The producer stops for good exactly there. */
  lemma {:induction false} StuckIff(actions: seq<Action>)
    requires OffersOneKind(actions)
    ensures var s := Run(actions);
            s.pc != Ready && !CanProduce(s) <==> Stuck(s)
  {
    hide Roomy, Conserved;
    RunConserves(actions);
    RoomyMoves(Run(actions));
  }

  function Fill(p: Packet, n: nat): (r: seq<Action>)
    ensures |r| == 2 * n
  {
    if n == 0 then [] else Fill(p, n - 1) + [Offer(p), Produce]
  }

  function Drain(n: nat): (r: seq<Action>)
    ensures |r| == n
  {
    seq(n, _ => Consume)
  }

  lemma {:induction false} RunAppend(actions: seq<Action>, a: Action)
    ensures Run(actions + [a]) == Act(Run(actions), a)
  {
    assert (actions + [a])[..|actions|] == actions;
  }

  lemma {:induction false} Filled(p: Packet, n: nat)
    requires n <= DROP_AT
    ensures Run(Fill(p, n)).pc == Ready && |Run(Fill(p, n)).queue| == n && Run(Fill(p, n)).taken == []
    ensures forall i :: 0 <= i < n ==> Run(Fill(p, n)).queue[i] == p
    decreases n
  {
    hide Run;
    if n == 0 {
      EmptyRun();
    } else {
      Filled(p, n - 1);
      var before := Fill(p, n - 1);
      RunAppend(before, Offer(p));
      RunAppend(before + [Offer(p)], Produce);
      assert before + [Offer(p), Produce] == before + [Offer(p)] + [Produce];
    }
  }

  lemma EmptyRun()
    ensures Run([]) == START
  {
  }

  lemma {:induction false} Drained(actions: seq<Action>, n: nat)
    requires n <= |Run(actions).queue|
    ensures Run(actions + Drain(n)).pc == Run(actions).pc
    ensures Run(actions + Drain(n)).queue == Run(actions).queue[n..]
    decreases n
  {
    hide Run;
    if n == 0 {
      assert actions + Drain(0) == actions;
    } else {
      Drained(actions, n - 1);
      RunAppend(actions + Drain(n - 1), Consume);
      assert actions + Drain(n) == actions + Drain(n - 1) + [Consume];
    }
  }

  /** It does happen: a queue filled to 1000, one more packet offered, and a consumer that takes them all
      before the first turn of the drop loop. */
  lemma {:induction false} StuckReached(p: Packet)
    ensures Stuck(Run(Fill(p, DROP_AT) + [Offer(p)] + Drain(DROP_AT)))
  {
    hide Run;
    Filled(p, DROP_AT);
    RunAppend(Fill(p, DROP_AT), Offer(p));
    Drained(Fill(p, DROP_AT) + [Offer(p)], DROP_AT);
  }

  // ---- how much a consumer may take

  /** A lower bound for the packets still there when a turn of the drop loop begins or goes on, if the
      consumer has taken so many since the drop began. */
  predicate Enough(s: State, consumed: int) {
    match s.pc
    case Ready => true
    case Sending(_) => true
    case Taking(turn) => |s.queue| >= DROP_AT - turn - consumed
    case Holding(turn, _) => |s.queue| + 1 >= DROP_AT - turn - consumed
    case PuttingBack(turn, _) => |s.queue| + 1 >= DROP_AT - turn - consumed
    case Checking(turn) => |s.queue| + 1 >= DROP_AT - turn - consumed
    case DroppingBlind(_) => true
  }

  lemma ActEnough(s: State, a: Action, start: nat)
    requires Roomy(s) && start <= |s.taken| && Enough(s, |s.taken| - start)
    ensures |Act(s, a).taken| >= |s.taken| && Enough(Act(s, a), |Act(s, a).taken| - start)
  {
    hide Protected, AllOneKind;
  }

  lemma {:induction false} RunEnough(before: seq<Action>, more: seq<Action>)
    requires OffersOneKind(before + more) && Run(before).pc == Ready
    ensures var (s, t) := (Run(before), Run(before + more));
            |s.taken| <= |t.taken| && Enough(t, |t.taken| - |s.taken|)
    decreases |more|
  {
    hide Act, Roomy, Conserved;
    if more == [] {
      assert before + more == before;
    } else {
      var all := before + more;
      var shorter := all[..|all| - 1];
      assert shorter == before + more[..|more| - 1];
      assert forall i :: 0 <= i < |shorter| ==> shorter[i] == all[i];
      RunEnough(before, more[..|more| - 1]);
      RunConserves(shorter);
      ActEnough(Run(shorter), all[|all| - 1], |Run(before).taken|);
    }
  }

  /** From any moment between two writes on, whatever happens, the producer does not get stuck before the
      consumer has taken 61 packets. */
  lemma {:induction false} SixtyAreSafe(before: seq<Action>, more: seq<Action>)
    requires OffersOneKind(before + more) && Run(before).pc == Ready
    requires |Run(before + more).taken| <= |Run(before).taken| + 60
    ensures !Stuck(Run(before + more))
  {
    hide Run;
    RunEnough(before, more);
  }

  /** With 61 it can: a queue of 1000 packets that are not protected, one more offered, 939 turns of the
      drop loop, and then a consumer that takes the 61 that are left. */
  lemma SixtyOneCanStop(p: Packet) returns (before: seq<Action>, more: seq<Action>)
    requires OneKind(p) && !Protected(p)
    ensures OffersOneKind(before + more) && Run(before).pc == Ready
    ensures |Run(before + more).taken| == |Run(before).taken| + 61
    ensures Stuck(Run(before + more))
  {
    hide Run, Steps;
    before := Fill(p, DROP_AT);
    Filled(p, DROP_AT);
    RunAppend(before, Offer(p));
    var s := Run(before + [Offer(p)]);
    assert AllOneKind(s.queue);
    var n := AloneDrops(s, DROP_COUNT - 1);
    KeptOfCopies(s.queue[..DROP_COUNT - 1], p);
    RunSteps(before + [Offer(p)], n);
    var turns := before + [Offer(p)] + Repeat(n);
    Drained(turns, 61);
    DrainTakes(turns, 61);
    more := [Offer(p)] + Repeat(n) + Drain(61);
    assert before + more == turns + Drain(61);
    FillOffers(p, DROP_AT);
  }

  lemma {:induction false} KeptOfCopies(ps: seq<Packet>, p: Packet)
    requires !Protected(p) && forall i :: 0 <= i < |ps| ==> ps[i] == p
    ensures Kept(ps) == []
    decreases |ps|
  {
    hide Protected;
    if ps == [] {
    } else {
      KeptOfCopies(ps[..|ps| - 1], p);
    }
  }

  function Repeat(n: nat): (r: seq<Action>)
    ensures |r| == n
  {
    seq(n, _ => Produce)
  }

  lemma {:induction false} RunSteps(actions: seq<Action>, n: nat)
    ensures Run(actions + Repeat(n)) == Steps(Run(actions), n)
    decreases n
  {
    hide Run, Act;
    if n == 0 {
      assert actions + Repeat(0) == actions;
    } else {
      RunSteps(actions, n - 1);
      RunAppend(actions + Repeat(n - 1), Produce);
      assert actions + Repeat(n) == actions + Repeat(n - 1) + [Produce];
    }
  }

  lemma {:induction false} DrainTakes(actions: seq<Action>, n: nat)
    requires n <= |Run(actions).queue|
    ensures |Run(actions + Drain(n)).taken| == |Run(actions).taken| + n
    decreases n
  {
    hide Run;
    if n == 0 {
      assert actions + Drain(0) == actions;
    } else {
      DrainTakes(actions, n - 1);
      Drained(actions, n - 1);
      RunAppend(actions + Drain(n - 1), Consume);
      assert actions + Drain(n) == actions + Drain(n - 1) + [Consume];
    }
  }

  lemma {:induction false} FillOffers(p: Packet, n: nat)
    ensures forall i :: 0 <= i < 2 * n && Fill(p, n)[i].Offer? ==> Fill(p, n)[i].p == p
    decreases n
  {
    if n == 0 {
    } else {
      FillOffers(p, n - 1);
    }
  }

  // ---- the two views agree

  function Steps(s: State, n: nat): State {
    if n == 0 then s else Act(Steps(s, n - 1), Produce)
  }

  /** The producer's steps of one turn, with no consumer between them. */
  function TurnSteps(p: Packet): nat {
    if p.isAudio then 3 else if p.isVideo then (if Protected(p) then 4 else 3) else 2
  }

  lemma TakeStep(s: State, turn: nat)
    requires s.pc == Taking(turn) && turn < DROP_COUNT && s.queue != []
    ensures Act(s, Produce) == s.(queue := s.queue[1..], pc := Holding(turn, s.queue[0]))
  {
  }

  lemma HoldStep(s: State, turn: nat, p: Packet)
    requires s.pc == Holding(turn, p) && |s.queue| < DROP_AT
    ensures Act(s, Produce) == s.(pc :=
      if Protected(p) then PuttingBack(turn, p) else if p.isVideo then Checking(turn) else Taking(turn + 1))
  {
  }

  lemma BackStep(s: State, turn: nat, p: Packet)
    requires s.pc == PuttingBack(turn, p) && |s.queue| < DROP_AT
    ensures Act(s, Produce) ==
      s.(queue := s.queue + [p], pc := if p.isVideo then Checking(turn) else Taking(turn + 1))
  {
  }

  lemma CheckStep(s: State, turn: nat)
    requires s.pc == Checking(turn) && |s.queue| <= DROP_AT
    ensures Act(s, Produce) == s.(pc := Taking(turn + 1))
  {
  }

  /** Left alone, the producer's steps of one turn do what the loop body does. */
  lemma {:induction false} TurnIsDropOne(s: State, turn: nat)
    requires s.pc == Taking(turn) && turn < DROP_COUNT && s.queue != []
    requires |s.queue| <= DROP_AT && OneKind(s.queue[0])
    ensures Steps(s, TurnSteps(s.queue[0])) == s.(queue := DropOne(s.queue), pc := Taking(turn + 1))
  {
    hide Protected, Act;
    var p := s.queue[0];
    PlainKept(p);
    var s1 := s.(queue := s.queue[1..], pc := Holding(turn, p));
    TakeStep(s, turn);
    assert Steps(s, 1) == Act(Steps(s, 0), Produce);
    HoldStep(s1, turn, p);
    assert Steps(s, 2) == Act(Steps(s, 1), Produce);
    var s2 := Act(s1, Produce);
    assert Steps(s, 3) == Act(Steps(s, 2), Produce);
    assert Steps(s, 4) == Act(Steps(s, 3), Produce);
    if Protected(p) {
      BackStep(s2, turn, p);
      if p.isVideo {
        CheckStep(Act(s2, Produce), turn);
      }
    } else if p.isVideo {
      CheckStep(s2, turn);
    }
  }

  lemma {:induction false} StepsAppend(s: State, m: nat, n: nat)
    ensures Steps(s, m + n) == Steps(Steps(s, m), n)
    decreases n
  {
    hide Act;
    if n == 0 {
    } else {
      StepsAppend(s, m, n - 1);
    }
  }

  /** Left alone, k turns of the producer leave what the method leaves. */
  lemma {:induction false} AloneDrops(s: State, k: nat) returns (n: nat)
    requires s.pc == Taking(0) && k <= DROP_COUNT && |s.queue| == DROP_AT && AllOneKind(s.queue)
    ensures Steps(s, n) == s.(queue := s.queue[k..] + Kept(s.queue[..k]), pc := Taking(k))
    decreases k
  {
    hide Protected, Act, DropOne, Steps;
    if k == 0 {
      n := 0;
      assert s.queue[0..] + [] == s.queue;
      NoSteps(s);
    } else {
      n := AloneDrops(s, k - 1);
      var r := Steps(s, n);
      KeptFewer(s.queue[..k - 1]);
      KeptOneKind(s.queue[..k - 1]);
      assert r.queue[0] == s.queue[k - 1];
      assert OneKind(s.queue[k - 1]);
      TurnIsDropOne(r, k - 1);
      StepsAppend(s, n, TurnSteps(r.queue[0]));
      DropIs(s.queue, k - 1);
      DropIs(s.queue, k);
      n := n + TurnSteps(r.queue[0]);
    }
  }

  lemma {:induction false} NoSteps(s: State)
    ensures Steps(s, 0) == s
  {
  }
}
