/** The order in which the packets that are never dropped reach the consumer (protocol/rtmp/rtmp.go:232-288). */
module PacketOrder {
  import opened Av
  import opened PacketQueue

  /** The protected packets in the order in which the consumer would get them if it took all that are queued
      now and the producer then put back what it holds. */
  function Line(s: State): seq<Packet> {
    Kept(s.taken) + Kept(s.queue) + Kept(Held(s.pc))
  }

  /** A consumer that has taken what it has, and takes all that is queued now, gets the protected packets in
      the order in which they were written. */
  predicate InOrder(s: State) {
    Kept(s.taken) + Kept(s.queue) <= Kept(s.accepted)
  }

  /** The drop loop takes a protected packet from the front of the queue, to put it back behind another one. */
  predicate Passes(s: State, a: Action) {
    a == Produce && s.pc.Taking? && s.pc.turn < DROP_COUNT && s.queue != [] && Protected(s.queue[0]) &&
    exists k :: 1 <= k < |s.queue| && Protected(s.queue[k]) && s.queue[k] != s.queue[0]
  }

  lemma {:induction false} KeptFront(ps: seq<Packet>)
    requires ps != []
    ensures Kept(ps) == (if Protected(ps[0]) then [ps[0]] else []) + Kept(ps[1..])
    decreases |ps|
  {
    hide Protected, Kept;
    var n := |ps| - 1;
    if n == 0 {
      assert ps == [ps[0]] && ps[1..] == [];
      KeptOne(ps[0]);
    } else {
      KeptFront(ps[..n]);
      KeptAppend(ps[..n], ps[n]);
      KeptAppend(ps[1..n], ps[n]);
      assert ps == ps[..n] + [ps[n]] && ps[1..] == ps[1..n] + [ps[n]] && ps[..n][1..] == ps[1..n];
      Regroup(if Protected(ps[0]) then [ps[0]] else [], Kept(ps[1..n]), if Protected(ps[n]) then [ps[n]] else []);
    }
  }

  lemma {:induction false} KeptFrom(ps: seq<Packet>, p: Packet)
    ensures p in Kept(ps) <==> p in ps && Protected(p)
    decreases |ps|
  {
    hide Protected;
    if ps == [] {
    } else {
      KeptFrom(ps[..|ps| - 1], p);
    }
  }

  /** Moving the first element of a list behind the others changes the list exactly if one of them differs. */
  lemma {:induction false} Rotation(x: Packet, rest: seq<Packet>)
    ensures rest <= [x] + rest <==> forall y :: y in rest ==> y == x
    ensures (forall y :: y in rest ==> y == x) ==> rest + [x] == [x] + rest
  {
    if rest <= [x] + rest {
      forall i | 0 <= i < |rest|
        ensures rest[i] == x
      {
        AllFirst(x, rest, i);
      }
    }
    if forall y :: y in rest ==> y == x {
      AllSame(x, rest);
    }
  }

  lemma AllSame(x: Packet, rest: seq<Packet>)
    requires forall y :: y in rest ==> y == x
    ensures rest + [x] == [x] + rest && rest <= [x] + rest
  {
    assert forall i :: 0 <= i < |rest| ==> rest[i] in rest;
    var (a, b) := (rest + [x], [x] + rest);
    assert forall i :: 0 <= i < |a| ==> a[i] == x && b[i] == x;
    assert a == b && a[..|rest|] == rest;
  }

  lemma {:induction false} AllFirst(x: Packet, rest: seq<Packet>, i: nat)
    requires rest <= [x] + rest && i < |rest|
    ensures rest[i] == x
  {
    assert rest[i] == ([x] + rest)[i];
    if i == 0 {
    } else {
      AllFirst(x, rest, i - 1);
    }
  }

  /** What Passes means for the list of protected packets. */
  lemma PassesIff(s: State)
    requires s.pc.Taking? && s.pc.turn < DROP_COUNT && s.queue != [] && Protected(s.queue[0])
    ensures Passes(s, Produce) <==> exists y :: y in Kept(s.queue[1..]) && y != s.queue[0]
  {
    hide Protected;
    var rest := s.queue[1..];
    forall k | 1 <= k < |s.queue| && Protected(s.queue[k]) && s.queue[k] != s.queue[0]
      ensures exists y :: y in Kept(rest) && y != s.queue[0]
    {
      assert rest[k - 1] == s.queue[k];
      KeptFrom(rest, s.queue[k]);
    }
    forall y | y in Kept(rest) && y != s.queue[0]
      ensures Passes(s, Produce)
    {
      KeptFrom(rest, y);
      var k :| 0 <= k < |rest| && rest[k] == y;
      assert s.queue[k + 1] == y;
    }
  }

  lemma TakeInOrder(s: State)
    requires s.pc.Taking? && s.pc.turn < DROP_COUNT && s.queue != [] && Line(s) == Kept(s.accepted)
    ensures var t := Act(s, Produce);
            if Passes(s, Produce) then !InOrder(t) else Line(t) == Kept(t.accepted)
  {
    hide Protected, Kept, Passes;
    var (x, rest) := (s.queue[0], s.queue[1..]);
    KeptNone();
    KeptOne(x);
    KeptFront(s.queue);
    if Protected(x) {
      PassesIff(s);
      Rotation(x, Kept(rest));
      var front := Kept(s.taken);
      assert Kept(s.accepted) == front + ([x] + Kept(rest));
      SamePrefix(front, Kept(rest), [x] + Kept(rest));
      if !Passes(s, Produce) {
        assert front + Kept(rest) + [x] == front + (Kept(rest) + [x]);
      }
    } else {
      NotPassing(s);
    }
  }

  lemma NotPassing(s: State)
    requires s.queue != [] && !Protected(s.queue[0])
    ensures !Passes(s, Produce)
  {
  }

  lemma SamePrefix(front: seq<Packet>, a: seq<Packet>, b: seq<Packet>)
    ensures front + a <= front + b <==> a <= b
  {
    assert a == (front + a)[|front|..] && b == (front + b)[|front|..];
    if front + a <= front + b {
      assert b[..|a|] == (front + b)[|front|..|front| + |a|];
      assert (front + b)[..|front| + |a|] == front + a;
    }
    if a <= b {
      assert b == a + b[|a|..];
      assert front + b == front + a + b[|a|..];
    }
  }

  /** Every other action keeps the order. */
  lemma ActInOrder(s: State, a: Action)
    requires Roomy(s) && Line(s) == Kept(s.accepted)
    ensures var t := Act(s, a);
            if Passes(s, a) then !InOrder(t) else Line(t) == Kept(t.accepted)
  {
    hide Protected, Kept, Passes, Roomy, InOrder;
    OtherActions(s, a);
    KeptNone();
    match a
    case Offer(_) =>
    case Consume =>
      if s.queue != [] {
        KeptFront(s.queue);
        KeptAppend(s.taken, s.queue[0]);
        Regroup(Kept(s.taken), if Protected(s.queue[0]) then [s.queue[0]] else [], Kept(s.queue[1..]));
      }
    case Produce =>
      if CanProduce(s) {
        match s.pc
        case Sending(p) =>
          KeptAppend(s.queue, p);
          KeptAppend(s.accepted, p);
          Regroup(Kept(s.taken), Kept(s.queue), if Protected(p) then [p] else []);
        case Taking(turn) =>
          if turn < DROP_COUNT {
            TakeInOrder(s);
          }
        case Holding(_, p) => HoldInOrder(s, p);
        case PuttingBack(_, p) =>
          KeptAppend(s.queue, p);
          KeptOne(p);
          Regroup(Kept(s.taken), Kept(s.queue), if Protected(p) then [p] else []);
        case Checking(_) => NeverBlind(s);
      }
  }

  lemma OtherActions(s: State, a: Action)
    requires Roomy(s)
    ensures Passes(s, a) ==> a == Produce && s.pc.Taking? && s.pc.turn < DROP_COUNT && s.queue != []
    ensures !s.pc.DroppingBlind? && (s.pc.Taking? ==> s.pc.turn <= DROP_COUNT)
  {
  }

  lemma Regroup(a: seq<Packet>, b: seq<Packet>, c: seq<Packet>)
    ensures a + (b + c) == a + b + c && a + b + [] == a + b && a + b + c + [] == a + b + c
  {
  }

  lemma HoldInOrder(s: State, p: Packet)
    requires Roomy(s) && s.pc.Holding? && s.pc.held == p
    ensures Line(Act(s, Produce)) == Line(s) && Act(s, Produce).accepted == s.accepted
  {
    hide Protected, Kept, Roomy;
    KeptNone();
    KeptOne(p);
    PlainKept(p);
    FarFromFull(s);
  }

  lemma NeverBlind(s: State)
    requires Roomy(s)
    ensures |s.queue| <= DROP_AT
  {
  }

  ghost predicate AlwaysInOrder(actions: seq<Action>) {
    forall n :: 0 <= n <= |actions| ==> InOrder(Run(actions[..n]))
  }

  ghost predicate NonePasses(actions: seq<Action>) {
    forall n :: 0 <= n < |actions| ==> !Passes(Run(actions[..n]), actions[n])
  }

  /** In every interleaving: the consumer can always get the protected packets in the order in which they were
      written, exactly as long as the drop loop has not taken one from the front of the queue while a
      different one was behind it. */
  lemma {:induction false} OrderIff(actions: seq<Action>)
    requires OffersOneKind(actions)
    ensures AlwaysInOrder(actions) <==> NonePasses(actions)
    ensures NonePasses(actions) ==> Line(Run(actions)) == Kept(Run(actions).accepted)
    decreases |actions|
  {
    hide Line, InOrder, Passes, Act, Run, AlwaysInOrder, NonePasses;
    if actions == [] {
      StartInOrder();
    } else {
      var n := |actions| - 1;
      var before := actions[..n];
      OrderIff(before);
      OneMore(actions);
      RunConserves(before);
      LastAct(actions);
      if NonePasses(before) {
        ActInOrder(Run(before), actions[n]);
        LineInOrder(Run(actions));
      }
    }
  }

  lemma {:induction false} OneMore(actions: seq<Action>)
    requires actions != []
    ensures var (n, before) := (|actions| - 1, actions[..|actions| - 1]);
            (AlwaysInOrder(actions) <==> AlwaysInOrder(before) && InOrder(Run(actions))) &&
            (NonePasses(actions) <==> NonePasses(before) && !Passes(Run(before), actions[n]))
  {
    hide InOrder, Passes, Run;
    var n := |actions| - 1;
    var before := actions[..n];
    assert actions[..n + 1] == actions;
    assert forall k :: 0 <= k <= n ==> before[..k] == actions[..k];
    assert forall k :: 0 <= k < n ==> before[k] == actions[k];
    if AlwaysInOrder(actions) {
      assert InOrder(Run(actions[..n + 1]));
      assert forall k :: 0 <= k <= n ==> InOrder(Run(actions[..k]));
    }
    if NonePasses(actions) {
      assert !Passes(Run(actions[..n]), actions[n]);
    }
  }

  lemma {:induction false} LastAct(actions: seq<Action>)
    requires actions != []
    ensures Run(actions) == Act(Run(actions[..|actions| - 1]), actions[|actions| - 1])
  {
  }

  lemma LineInOrder(s: State)
    ensures Line(s) == Kept(s.accepted) ==> InOrder(s)
  {
    hide Kept;
  }

  lemma StartInOrder()
    ensures AlwaysInOrder([]) && NonePasses([]) && Line(Run([])) == Kept(Run([]).accepted)
  {
  }

  // ---- a queue that is never full, and one that is

  /** No write finds the queue full. */
  ghost predicate FindsRoom(actions: seq<Action>) {
    forall n :: 0 <= n < |actions| && actions[n].Offer? && Run(actions[..n]).pc == Ready ==>
      |Run(actions[..n]).queue| < DROP_AT
  }

  /** Then all packets are delivered, in the order in which they were written. */
  lemma {:induction false} RoomKeepsAll(actions: seq<Action>)
    requires FindsRoom(actions)
    ensures var s := Run(actions); s.taken + s.queue == s.accepted && (s.pc.Ready? || s.pc.Sending?)
    ensures NonePasses(actions)
    decreases |actions|
  {
    hide Act, Run, Protected;
    if actions == [] {
      StartInOrder();
      EmptyRun();
    } else {
      var n := |actions| - 1;
      var before := actions[..n];
      assert forall k :: 0 <= k < n ==> before[..k] == actions[..k] && before[k] == actions[k];
      RoomKeepsAll(before);
      LastAct(actions);
      PlainAct(Run(before), actions[n]);
    }
  }

  lemma PlainAct(s: State, a: Action)
    requires s.taken + s.queue == s.accepted && (s.pc.Ready? || s.pc.Sending?)
    requires a.Offer? && s.pc == Ready ==> |s.queue| < DROP_AT
    ensures var t := Act(s, a); t.taken + t.queue == t.accepted && (t.pc.Ready? || t.pc.Sending?)
    ensures !Passes(s, a)
  {
  }

  function Copies(q: Packet, n: nat): (r: seq<Packet>)
    ensures |r| == n && forall i :: 0 <= i < n ==> r[i] == q
  {
    seq(n, _ => q)
  }

  lemma {:induction false} FilledBehind(before: seq<Action>, q: Packet, n: nat)
    requires Run(before).pc == Ready && |Run(before).queue| + n <= DROP_AT
    ensures Run(before + Fill(q, n)) ==
      Run(before).(queue := Run(before).queue + Copies(q, n), accepted := Run(before).accepted + Copies(q, n))
    decreases n
  {
    hide Run;
    if n == 0 {
      assert before + Fill(q, 0) == before;
      assert Run(before).queue + [] == Run(before).queue;
    } else {
      FilledBehind(before, q, n - 1);
      var all := before + Fill(q, n - 1);
      RunAppend(all, Offer(q));
      RunAppend(all + [Offer(q)], Produce);
      assert before + Fill(q, n) == all + [Offer(q)] + [Produce];
      assert Copies(q, n) == Copies(q, n - 1) + [q];
    }
  }

  /** For any two different protected packets: the first one, 999 times the other, and one more write make
      the first one come last. */
  lemma {:induction false} OvertakenOnce(p: Packet, q: Packet)
    requires Protected(p) && Protected(q) && p != q
    ensures !InOrder(Run(Fill(p, 1) + Fill(q, DROP_AT - 1) + [Offer(q), Produce]))
  {
    hide Run, Protected, Passes, InOrder, Line;
    EmptyRun();
    FilledBehind([], p, 1);
    assert [] + Fill(p, 1) == Fill(p, 1);
    FilledBehind(Fill(p, 1), q, DROP_AT - 1);
    var all := Fill(p, 1) + Fill(q, DROP_AT - 1);
    RunAppend(all, Offer(q));
    RunAppend(all + [Offer(q)], Produce);
    assert all + [Offer(q), Produce] == all + [Offer(q)] + [Produce];
    var s := Run(all + [Offer(q)]);
    assert s == State([p] + Copies(q, DROP_AT - 1), Taking(0), [p] + Copies(q, DROP_AT - 1), []);
    AllQueued(s);
    PassesNow(s);
    TakeInOrder(s);
  }

  lemma {:induction false} AllQueued(s: State)
    requires s.taken == [] && s.queue == s.accepted && Held(s.pc) == []
    ensures Line(s) == Kept(s.accepted)
  {
    hide Kept;
    KeptNone();
  }

  lemma PassesNow(s: State)
    requires s.pc == Taking(0) && |s.queue| >= 2 && Protected(s.queue[0]) && Protected(s.queue[1])
    requires s.queue[0] != s.queue[1]
    ensures Passes(s, Produce)
  {
  }
}
