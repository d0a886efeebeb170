/** What the invariant means for clients: accounting, order, routing, survival, and when responses get lost. */
module RpcGuarantees {
  import opened Wrappers
  import opened Protocol
  import opened RpcSystem

  // ----- runs

  lemma {:induction false} RunConcat(s: State, a: seq<Action>, b: seq<Action>)
    requires CanRun(s, a) && CanRun(Run(s, a), b)
    ensures CanRun(s, a + b) && Run(s, a + b) == Run(Run(s, a), b)
    decreases |a|
  {
    hide Apply;
    if a == [] {
      assert a + b == b;
    } else {
      assert (a + b)[1..] == a[1..] + b;
      RunConcat(Apply(s, a[0]), a[1..], b);
    }
  }

  lemma RunOne(s: State, a: Action)
    requires Enabled(s, a)
    ensures CanRun(s, [a]) && Run(s, [a]) == Apply(s, a)
  {
  }

  ghost predicate Reachable(s: State) {
    exists actions :: CanRun(INIT, actions) && Run(INIT, actions) == s
  }

  lemma ReachableIsGood(s: State)
    requires Reachable(s)
    ensures Invariant(s)
  {
    var actions :| CanRun(INIT, actions) && Run(INIT, actions) == s;
    InitIsGood();
    RunKeepsInvariant(INIT, actions);
  }

  // ----- accounting and order

  /**
   In every reachable state, accepted request number i is in exactly one place: it left the queue and has one fate, or
   it is still queued behind those accepted before it.
   */
  lemma EachRequestIsInOnePlace(s: State, i: nat)
    requires Reachable(s) && i < |s.accepted|
    ensures |s.accepted| == |s.finished| + |s.clientEmu|
    ensures i < |s.finished| ==> s.finished[i].0 == s.accepted[i] && GoodFate(s.accepted[i], s.finished[i].1)
    ensures i >= |s.finished| ==> s.clientEmu[i - |s.finished|] == s.accepted[i]
    ensures i < |s.finished| ==> !s.finished[i].1.Silent?
    ensures i < |s.finished| && !s.finished[i].1.Drained? ==>
              (s.finished[i].1.Fatal? <==> Oversized(s.accepted[i].packet))
    ensures i < |s.finished| && s.finished[i].1.Fatal? ==> s.terminated && i == |s.finished| - 1
  {
    ReachableIsGood(s);
  }

  /** The position, in what pick collects, of what it selects from the request finished at i. */
  function PlaceOf<T>(fs: seq<(ClientRequest, Fate)>, pick: (ClientRequest, Fate) -> seq<T>, i: nat): nat
    requires i <= |fs|
  {
    |Collect(fs[..i], pick)|
  }

  lemma {:induction false} CollectedAt<T>(fs: seq<(ClientRequest, Fate)>, pick: (ClientRequest, Fate) -> seq<T>, i: nat)
    requires i < |fs| && |pick(fs[i].0, fs[i].1)| == 1
    ensures PlaceOf(fs, pick, i) < |Collect(fs, pick)|
    ensures Collect(fs, pick)[PlaceOf(fs, pick, i)] == pick(fs[i].0, fs[i].1)[0]
    ensures PlaceOf(fs, pick, i + 1) == PlaceOf(fs, pick, i) + 1
    decreases |fs|
  {
    var n := |fs| - 1;
    assert fs[..i + 1][..i] == fs[..i];
    if i < n {
      CollectedAt(fs[..n], pick, i);
      assert fs[..n][..i] == fs[..i];
    } else {
      assert fs[..i + 1] == fs;
    }
  }

  lemma {:induction false} PlacesGrow<T>(fs: seq<(ClientRequest, Fate)>, pick: (ClientRequest, Fate) -> seq<T>,
                                         i: nat, j: nat)
    requires i <= j <= |fs|
    ensures PlaceOf(fs, pick, i) <= PlaceOf(fs, pick, j)
    decreases j
  {
    if i < j {
      PlacesGrow(fs, pick, i, j - 1);
      assert fs[..j][..j - 1] == fs[..j - 1];
    }
  }

  /** Everything collected was selected from one of the requests. */
  lemma {:induction false} CollectedFrom<T>(fs: seq<(ClientRequest, Fate)>, pick: (ClientRequest, Fate) -> seq<T>,
                                            p: nat) returns (i: nat)
    requires forall r, f :: |pick(r, f)| <= 1
    requires p < |Collect(fs, pick)|
    ensures i < |fs| && pick(fs[i].0, fs[i].1) == [Collect(fs, pick)[p]] && PlaceOf(fs, pick, i) == p
    decreases |fs|
  {
    var n := |fs| - 1;
    if p < |Collect(fs[..n], pick)| {
      i := CollectedFrom(fs[..n], pick, p);
      assert fs[..n][..i] == fs[..i];
    } else {
      i := n;
    }
  }

  /** The answer to an answered request is among the responses, with its client id, packet id and kind. */
  lemma AnswerIsResponse(s: State, i: nat)
    requires Reachable(s) && i < |s.finished| && s.finished[i].1.Answered?
    ensures var all := s.sent + s.emuClient; var p := PlaceOf(s.finished, AnswerIn, i);
            && i < |s.accepted| && p < |all|
            && all[p] == s.finished[i].1.response && Answering(s.accepted[i], all[p])
  {
    ReachableIsGood(s);
    CollectedAt(s.finished, AnswerIn, i);
    EachRequestIsInOnePlace(s, i);
  }

  /** Responses come out in the order in which their requests were accepted. */
  lemma ResponsesFollowAcceptance(s: State, i: nat, j: nat)
    requires Reachable(s) && i < j < |s.finished|
    requires s.finished[i].1.Answered? && s.finished[j].1.Answered?
    ensures var all := s.sent + s.emuClient;
            var p, q := PlaceOf(s.finished, AnswerIn, i), PlaceOf(s.finished, AnswerIn, j);
            && j < |s.accepted| && p < q < |all|
            && Answering(s.accepted[i], all[p]) && Answering(s.accepted[j], all[q])
  {
    AnswerIsResponse(s, i);
    AnswerIsResponse(s, j);
    CollectedAt(s.finished, AnswerIn, i);
    PlacesGrow(s.finished, AnswerIn, i + 1, j);
  }

  /** Every response sent or waiting is the answer to exactly one accepted request. */
  lemma ResponseHasRequest(s: State, p: nat) returns (i: nat)
    requires Reachable(s) && p < |s.sent + s.emuClient|
    ensures i < |s.finished| && i < |s.accepted| && s.finished[i].1.Answered?
    ensures PlaceOf(s.finished, AnswerIn, i) == p && Answering(s.accepted[i], (s.sent + s.emuClient)[p])
    ensures forall j :: 0 <= j < |s.finished| && s.finished[j].1.Answered? && j != i ==>
              PlaceOf(s.finished, AnswerIn, j) != p
  {
    ReachableIsGood(s);
    i := CollectedFrom(s.finished, AnswerIn, p);
    EachRequestIsInOnePlace(s, i);
    forall j | 0 <= j < |s.finished| && s.finished[j].1.Answered? && j != i
      ensures PlaceOf(s.finished, AnswerIn, j) != p
    {
      if j < i { ResponsesFollowAcceptance(s, j, i); }
      if i < j { ResponsesFollowAcceptance(s, i, j); }
    }
  }

  /** A memory write that was handled, answered or not, is made with its own address and data. */
  lemma HandledWriteIsMade(s: State, i: nat)
    requires Reachable(s) && i < |s.finished|
    ensures i < |s.accepted|
    ensures !s.finished[i].1.Drained? && s.accepted[i].packet.MemoryWrite? ==>
              var p := PlaceOf(s.finished, WriteIn, i);
              p < |s.writes| && s.writes[p] == Write(s.accepted[i].packet.address, s.accepted[i].packet.data)
  {
    ReachableIsGood(s);
    EachRequestIsInOnePlace(s, i);
    if !s.finished[i].1.Drained? && s.accepted[i].packet.MemoryWrite? {
      CollectedAt(s.finished, WriteIn, i);
    }
  }

  /** Every write made comes from one handled request; later writes come from later requests. */
  lemma WritesFollowAcceptance(s: State, p: nat, q: nat) returns (i: nat, j: nat)
    requires Reachable(s) && p < q < |s.writes|
    ensures i < j < |s.finished| && j < |s.accepted|
    ensures WriteOf(s.accepted[i].packet) == [s.writes[p]] && WriteOf(s.accepted[j].packet) == [s.writes[q]]
    ensures !s.finished[i].1.Drained? && !s.finished[j].1.Drained?
  {
    ReachableIsGood(s);
    i := CollectedFrom(s.finished, WriteIn, p);
    j := CollectedFrom(s.finished, WriteIn, q);
    EachRequestIsInOnePlace(s, i);
    EachRequestIsInOnePlace(s, j);
    if j <= i { PlacesGrow(s.finished, WriteIn, j, i); }
  }

  // ----- routing

  /** Every delivered response went to the session that pushed its request. */
  ghost predicate RoutedRight(s: State) {
    forall i :: 0 <= i < |s.delivered| ==> s.delivered[i].0 == s.delivered[i].1.session
  }

  ghost predicate AlwaysRoutedRight(accepts: nat) {
    forall s :: Reachable(s) && s.listener.accepts <= accepts ==> RoutedRight(s)
  }

  lemma IdsAreDistinct(j: nat, k: nat)
    requires IdOf(j) == IdOf(k) && j < WIDTH && k < WIDTH
    ensures j == k
  {
  }

  lemma FewAcceptsRouteRight(s: State)
    requires Reachable(s) && s.listener.accepts <= WIDTH
    ensures RoutedRight(s)
  {
    ReachableIsGood(s);
    forall i | 0 <= i < |s.delivered|
      ensures s.delivered[i].0 == s.delivered[i].1.session
    {
      var d := s.delivered[i];
      assert GoodDelivery(s, d);
      var k :| 0 <= k < |s.sent| && s.sent[k] == d.1;
      assert (s.sent + s.emuClient)[k] == d.1;
      assert GoodResponse(s.listener, d.1);
      IdsAreDistinct(d.0, d.1.session);
    }
  }

  /**
   Sending hands the oldest waiting response to the last session k that got the id of the session that asked, if k is
   alive, and to nobody otherwise; it changes nothing else. That is the session that asked exactly when at most 2^32 - 1
   sessions were accepted after it.
   */
  lemma SendReachesLatestSession(s: State) returns (k: nat)
    requires Reachable(s) && !s.terminated && s.emuClient != []
    ensures var r := s.emuClient[0];
            && r.session <= k < s.listener.accepts <= k + WIDTH && IdOf(k) == r.client == IdOf(r.session)
            && (k == r.session <==> s.listener.accepts <= r.session + WIDTH)
            && Apply(s, Send) == s.(sent := s.sent + [r], emuClient := s.emuClient[1..],
                                    delivered := s.delivered + if k in s.listener.alive then [(k, r)] else [])
  {
    ReachableIsGood(s);
    var r := s.emuClient[0];
    assert (s.sent + s.emuClient)[|s.sent|] == r;
    assert GoodResponse(s.listener, r);
    k := LatestWithId(r.session, s.listener.accepts);
    assert Filed(s.listener, k);
  }

  lemma LatestWithId(session: nat, accepts: nat) returns (k: nat)
    requires session < accepts
    ensures session <= k < accepts <= k + WIDTH && IdOf(k) == IdOf(session)
    ensures k == session <==> accepts <= session + WIDTH
  {
    k := accepts - 1 - (accepts - 1 - session) % WIDTH;
  }

  /**
   While ids are unique, sending hands the oldest waiting response to the session that pushed its request if that
   session is still alive, and to nobody otherwise.
   */
  lemma SendReachesItsSession(s: State)
    requires Reachable(s) && !s.terminated && s.listener.accepts <= WIDTH && s.emuClient != []
    ensures var r := s.emuClient[0]; var s' := Apply(s, Send);
            && s'.sent == s.sent + [r]
            && s'.delivered == s.delivered + if r.session in s.listener.alive then [(r.session, r)] else []
  {
    var k := SendReachesLatestSession(s);
  }

  /**
   A message from a live session that parses is accepted, under that session's id, exactly when fewer than 1024 accepted
   requests are waiting, and is otherwise dropped without a trace; one that does not parse ends the process.
   */
  lemma ReceiveAccepts(s: State, k: nat, m: Message)
    requires Reachable(s) && !s.terminated && k in s.listener.alive
    ensures var s' := Apply(s, Receive(k, m)); var p := DeserializeRequest(m);
            && (p.Err? ==> s' == s.(terminated := true))
            && (p.Ok? && |s.accepted| - |s.finished| == CAPACITY ==> s' == s)
            && (p.Ok? && |s.accepted| - |s.finished| < CAPACITY ==>
                  && s'.accepted == s.accepted + [ClientRequest(IdOf(k), p.request, k)]
                  && GoodRequest(s'.listener, s'.accepted[|s.accepted|])
                  && s' == s.(accepted := s'.accepted, clientEmu := s.clientEmu + [s'.accepted[|s.accepted|]]))
    ensures |s.accepted| - |s.finished| <= CAPACITY
  {
    ReachableIsGood(s);
    OnlyMemoryPackets(m);
  }

  // ----- survival

  predicate Parses(a: Action) {
    a.Receive? ==> DeserializeRequest(a.m).Ok?
  }

  lemma NothingFollows(s: State, actions: seq<Action>)
    requires s.terminated && CanRun(s, actions)
    ensures actions == []
  {
  }

  /** A message that does not parse is the last thing that happens in a run. */
  lemma {:induction false} TerminationIsFinal(s: State, actions: seq<Action>, i: nat)
    requires CanRun(s, actions) && i < |actions| && !Parses(actions[i])
    ensures i == |actions| - 1 && Run(s, actions).terminated
    decreases i
  {
    var s1 := Apply(s, actions[0]);
    if i == 0 {
      NothingFollows(s1, actions[1..]);
    } else {
      TerminationIsFinal(s1, actions[1..], i - 1);
    }
  }

  /** Request number k was handled, not discarded. */
  predicate Handled(s: State, k: nat) {
    k < |s.finished| && !s.finished[k].1.Drained?
  }

  /** Only two things terminate the process: the last message does not parse, or the last handled request threw. */
  lemma {:induction false} WhatTerminates(s: State, actions: seq<Action>)
    requires !s.terminated && CanRun(s, actions) && Run(s, actions).terminated
    ensures var s' := Run(s, actions); var n := |actions| - 1; var k := |s'.finished| - 1;
            || (n >= 0 && !Parses(actions[n]))
            || (k >= |s.finished| && s'.finished[k].1.Fatal? && Oversized(s'.finished[k].0.packet))
    ensures |Run(s, actions).finished| >= |s.finished|
    decreases |actions|
  {
    var s1 := Apply(s, actions[0]);
    if s1.terminated {
      NothingFollows(s1, actions[1..]);
    } else {
      WhatTerminates(s1, actions[1..]);
    }
  }

  /** The process survives a run exactly when every message received parses and no read that is handled is oversized. */
  lemma SurvivesExactly(s: State, actions: seq<Action>)
    requires Invariant(s) && !s.terminated && CanRun(s, actions)
    ensures var s' := Run(s, actions);
            !s'.terminated <==>
              && (forall i :: 0 <= i < |actions| ==> Parses(actions[i]))
              && (forall k :: |s.finished| <= k && Handled(s', k) ==> !Oversized(s'.finished[k].0.packet))
  {
    hide Apply, CanRun, Run, Parses;
    var s' := Run(s, actions);
    RunKeepsInvariant(s, actions);
    if s'.terminated {
      WhatTerminates(s, actions);
      var k := |s'.finished| - 1;
      assert k >= |s.finished| && s'.finished[k].1.Fatal? ==> Handled(s', k);
    } else {
      forall i | 0 <= i < |actions|
        ensures Parses(actions[i])
      {
        if !Parses(actions[i]) { TerminationIsFinal(s, actions, i); }
      }
      forall k | |s.finished| <= k && Handled(s', k)
        ensures !Oversized(s'.finished[k].0.packet)
      {
        assert GoodFate(s'.finished[k].0, s'.finished[k].1);
      }
    }
  }

  // ----- which messages are safe

  /** The message parses, and a read asks for at most as many bytes as a vector can have. */
  predicate Modest(m: Message) {
    var p := DeserializeRequest(m);
    p.Ok? && !Oversized(p.request)
  }

  predicate Receives(actions: seq<Action>, allowed: Message -> bool) {
    forall i :: 0 <= i < |actions| && actions[i].Receive? ==> allowed(actions[i].m)
  }

  ghost predicate AlwaysSurvives(allowed: Message -> bool) {
    forall actions :: CanRun(INIT, actions) && Receives(actions, allowed) ==> !Run(INIT, actions).terminated
  }

  predicate NoneOversized(rs: seq<ClientRequest>) {
    forall i :: 0 <= i < |rs| ==> !Oversized(rs[i].packet)
  }

  lemma ModestStepSurvives(s: State, a: Action)
    requires NoneOversized(s.clientEmu) && Enabled(s, a)
    requires a.Receive? ==> Modest(a.m)
    ensures !Apply(s, a).terminated && NoneOversized(Apply(s, a).clientEmu)
  {
  }

  lemma {:induction false} ModestRunSurvives(s: State, actions: seq<Action>)
    requires !s.terminated && NoneOversized(s.clientEmu) && CanRun(s, actions)
    requires Receives(actions, Modest)
    ensures !Run(s, actions).terminated
    decreases |actions|
  {
    hide Apply, Enabled, NoneOversized, Modest;
    if actions != [] {
      ModestStepSurvives(s, actions[0]);
      assert forall i :: 0 <= i < |actions[1..]| ==> actions[1..][i] == actions[i + 1];
      ModestRunSurvives(Apply(s, actions[0]), actions[1..]);
    }
  }

  /** One client and one immodest message are enough: it does not parse, or is handled. */
  lemma TerminatedRun(m: Message) returns (actions: seq<Action>)
    requires !Modest(m)
    ensures CanRun(INIT, actions) && Run(INIT, actions).terminated
    ensures forall i :: 0 <= i < |actions| && actions[i].Receive? ==> actions[i].m == m
    ensures Run(INIT, actions).listener.accepts == 1
  {
    var s1 := Apply(INIT, Accept);
    var s2 := Apply(s1, Receive(0, m));
    RunOne(INIT, Accept);
    RunOne(s1, Receive(0, m));
    RunConcat(INIT, [Accept], [Receive(0, m)]);
    actions := [Accept] + [Receive(0, m)];
    if !s2.terminated {
      var zero: nat -> u8 := _ => 0;
      RunOne(s2, Handle(zero));
      RunConcat(INIT, actions, [Handle(zero)]);
      actions := actions + [Handle(zero)];
    }
  }

  /**
   The server survives every run in which it receives messages of a given set only, exactly when each of them parses and
   is no oversized read.
   */
  lemma SafeMessages(allowed: Message -> bool)
    ensures AlwaysSurvives(allowed) <==> forall m :: allowed(m) ==> Modest(m)
  {
    if m :| allowed(m) && !Modest(m) {
      var actions := TerminatedRun(m);
      assert Receives(actions, allowed);
    } else {
      forall actions | CanRun(INIT, actions) && Receives(actions, allowed)
        ensures !Run(INIT, actions).terminated
      {
        ModestRunSurvives(INIT, actions);
      }
    }
  }

  /** A message without a method, and a well-formed read of 2^64 - 1 bytes, are not safe. */
  lemma UnsafeMessages(id: u32, address: nat)
    ensures !Modest(WriteMessage(id, address, []).(methodName := None))
    ensures var m := ReadMessage(id, address, 0xFFFF_FFFF_FFFF_FFFF); DeserializeRequest(m).Ok? && !Modest(m)
    ensures forall length: nat :: Modest(ReadMessage(id, address, length)) <==> length <= MAX_VECTOR
  {
  }

  function Accepts(n: nat): seq<Action> {
    seq(n, _ => Accept)
  }

  /** n accepts leave the last session reachable under its id, and everything but the listener alone. */
  lemma {:induction false} ManyAccepts(s: State, n: nat)
    requires !s.terminated && s.listener.nextClientId == IdOf(s.listener.accepts)
    ensures CanRun(s, Accepts(n))
    ensures var s' := Run(s, Accepts(n)); var last := s.listener.accepts + n - 1;
            && s' == s.(listener := s'.listener)
            && s'.listener.accepts == last + 1
            && s'.listener.nextClientId == IdOf(s'.listener.accepts)
            && (n > 0 ==> Target(s'.listener, IdOf(last)) == Some(last))
    decreases n
  {
    if n > 0 {
      NextId(s.listener.accepts);
      assert Accepts(n)[1..] == Accepts(n - 1);
      ManyAccepts(Apply(s, Accept), n - 1);
    }
  }

  /** One more accept than there are ids: session 2^32 takes over id 0 while session 0 waits for its answer. */
  lemma MisroutedRun() returns (s: State)
    ensures Reachable(s) && s.listener.accepts == WIDTH + 1 && !RoutedRight(s)
  {
    var before, s2 := OneRequestWaiting();
    ManyAccepts(s2, WIDTH);
    var s3 := Run(s2, Accepts(WIDTH));
    RunConcat(INIT, before, Accepts(WIDTH));
    var zero: nat -> u8 := _ => 0;
    TakenOver(s3, zero);
    s := Run(s3, [Handle(zero), Send]);
    RunConcat(INIT, before + Accepts(WIDTH), [Handle(zero), Send]);
  }

  lemma OneRequestWaiting() returns (actions: seq<Action>, s: State)
    ensures CanRun(INIT, actions) && s == Run(INIT, actions)
    ensures !s.terminated && s.listener.accepts == 1 && s.listener.nextClientId == IdOf(1)
    ensures s.clientEmu == [ClientRequest(0, MemoryWrite(1, 0, []), 0)] && s.emuClient == [] && s.delivered == []
  {
    var m := WriteMessage(1, 0, []);
    WriteMessageIsPadded(1, 0, []);
    var s1 := Apply(INIT, Accept);
    RunOne(INIT, Accept);
    RunOne(s1, Receive(0, m));
    RunConcat(INIT, [Accept], [Receive(0, m)]);
    actions, s := [Accept] + [Receive(0, m)], Apply(s1, Receive(0, m));
  }

  lemma TakenOver(s: State, memory: nat -> u8)
    requires s.clientEmu == [ClientRequest(0, MemoryWrite(1, 0, []), 0)] && s.emuClient == [] && s.delivered == []
    requires !s.terminated && s.listener.accepts == WIDTH + 1 && Target(s.listener, 0) == Some(WIDTH)
    ensures CanRun(s, [Handle(memory), Send])
    ensures var s' := Run(s, [Handle(memory), Send]);
            s'.listener.accepts == WIDTH + 1 && !RoutedRight(s')
  {
    var s1 := Apply(s, Handle(memory));
    var response := ClientResponse(0, WriteDone(1), 0);
    assert s1.emuClient == [response];
    RunOne(s, Handle(memory));
    RunOne(s1, Send);
    RunConcat(s, [Handle(memory)], [Send]);
    assert [Handle(memory)] + [Send] == [Handle(memory), Send];
    var s2 := Apply(s1, Send);
    assert s2.delivered == [(WIDTH, response)];
    assert s2.delivered[0].0 != s2.delivered[0].1.session;
  }

  /** Responses always reach the right session exactly when at most 2^32 sessions are ever accepted. */
  lemma RoutingNeedsDistinctIds(accepts: nat)
    ensures AlwaysRoutedRight(accepts) <==> accepts <= WIDTH
  {
    if accepts <= WIDTH {
      forall s | Reachable(s) && s.listener.accepts <= accepts
        ensures RoutedRight(s)
      {
        FewAcceptsRouteRight(s);
      }
    } else {
      var s := MisroutedRun();
    }
  }

  // ----- lost responses

  function CountHandles(actions: seq<Action>): nat {
    if actions == [] then 0 else (if actions[0].Handle? then 1 else 0) + CountHandles(actions[1..])
  }

  /** The number of responses dropped because the response queue was full. */
  function CountLost(fs: seq<(ClientRequest, Fate)>): nat {
    |Collect(fs, LostIn)|
  }

  function LostIn(r: ClientRequest, f: Fate): seq<ClientResponse> {
    if f.Lost? then [f.response] else []
  }

  /** The number of requests whose handling threw: one at the end, or none. */
  function CountFatal(fs: seq<(ClientRequest, Fate)>): nat {
    |Collect(fs, FatalIn)|
  }

  function FatalIn(r: ClientRequest, f: Fate): seq<ClientRequest> {
    if f.Fatal? then [r] else []
  }

  lemma {:induction false} NoneFatal(fs: seq<(ClientRequest, Fate)>)
    requires forall i :: 0 <= i < |fs| ==> !fs[i].1.Fatal?
    ensures CountFatal(fs) == 0
    decreases |fs|
  {
    if fs != [] { NoneFatal(fs[..|fs| - 1]); }
  }

  lemma FatalOnlyLast(s: State)
    requires Invariant(s)
    ensures CountFatal(s.finished) <= 1
    ensures CountFatal(s.finished) == 1 ==> s.terminated
  {
    var n := |s.finished| - 1;
    if n >= 0 && s.finished[n].1.Fatal? {
      NoneFatal(s.finished[..n]);
    } else {
      NoneFatal(s.finished);
    }
  }

  /** The number of requests that are handled in a run and do not throw. */
  ghost function Completed(s: State, actions: seq<Action>): int
    requires CanRun(s, actions)
  {
    CountHandles(actions) - (CountFatal(Run(s, actions).finished) - CountFatal(s.finished))
  }

  /** The request loop of the server thread, interleaved with the other threads: no responses are sent meanwhile. */
  predicate InRequestLoop(actions: seq<Action>) {
    forall i :: 0 <= i < |actions| ==> !actions[i].Send?
  }

  predicate NothingArrives(actions: seq<Action>) {
    forall i :: 0 <= i < |actions| ==> !actions[i].Receive?
  }

  lemma StepInRequestLoop(s: State, a: Action)
    requires Invariant(s) && Enabled(s, a) && !a.Send?
    ensures var s' := Apply(s, a);
            var answers := a.Handle? && !Oversized(s.clientEmu[0].packet);
            && (answers ==> |s'.emuClient| == Min(|s.emuClient| + 1, CAPACITY))
            && (answers ==> CountLost(s'.finished)
                            == CountLost(s.finished) + if |s.emuClient| == CAPACITY then 1 else 0)
            && (!answers ==> s'.emuClient == s.emuClient && CountLost(s'.finished) == CountLost(s.finished))
            && CountFatal(s'.finished) == CountFatal(s.finished) + (if a.Handle? && !answers then 1 else 0)
            && (s'.terminated ==> a.Receive? || CountFatal(s'.finished) == CountFatal(s.finished) + 1)
            && (a.Handle? ==> |s'.clientEmu| == |s.clientEmu| - 1)
            && (!a.Receive? ==> |s'.clientEmu| <= |s.clientEmu|)
  {
    match a
    case Handle(memory) =>
      HandleInRequestLoop(s, memory);
    case Drain(n) =>
      CollectDrained(s.finished, s.clientEmu[..n], LostIn);
      CollectDrained(s.finished, s.clientEmu[..n], FatalIn);
    case _ =>
  }

  lemma HandleInRequestLoop(s: State, memory: nat -> u8)
    requires Invariant(s) && s.clientEmu != []
    ensures var s' := HandleOne(s, memory); var r := s.clientEmu[0];
            && (s'.terminated <==> s.terminated || Oversized(r.packet))
            && s'.clientEmu == s.clientEmu[1..]
            && |s'.emuClient| == (if Oversized(r.packet) then |s.emuClient| else Min(|s.emuClient| + 1, CAPACITY))
            && CountLost(s'.finished)
               == CountLost(s.finished) + (if |s.emuClient| == CAPACITY && !Oversized(r.packet) then 1 else 0)
            && CountFatal(s'.finished) == CountFatal(s.finished) + if Oversized(r.packet) then 1 else 0
  {
    hide Collect, Oversized;
    assert s.accepted[|s.finished|] == s.clientEmu[0];
    assert GoodRequest(s.listener, s.clientEmu[0]);
    var s' := HandleOne(s, memory);
    var f := s'.finished[|s.finished|];
    assert s'.finished == s.finished + [f];
    CollectAppend(s.finished, f, LostIn);
    CollectAppend(s.finished, f, FatalIn);
  }

  /**
   Over a stretch of the request loop, under any interleaving, every request that is handled without an exception is
   answered into the response queue until that is full; the rest is lost, one response per request beyond the capacity.
   */
  lemma {:induction false} LostInRequestLoop(s: State, actions: seq<Action>)
    requires Invariant(s) && CanRun(s, actions) && InRequestLoop(actions)
    ensures CountLost(Run(s, actions).finished)
            == CountLost(s.finished) + Max(0, |s.emuClient| + Completed(s, actions) - CAPACITY)
    ensures Completed(s, actions) >= 0
    ensures NothingArrives(actions) ==> CountHandles(actions) <= |s.clientEmu|
    decreases |actions|
  {
    hide Apply, Invariant, CountLost, CountFatal;
    InvariantBoundsQueues(s);
    if actions != [] {
      var s1 := Apply(s, actions[0]);
      StepKeepsInvariant(s, actions[0]);
      StepInRequestLoop(s, actions[0]);
      InvariantBoundsQueues(s1);
      LostInRequestLoop(s1, actions[1..]);
    }
  }

  /** At most one handled request is not completed: one that throws. */
  lemma CompletedHandles(s: State, actions: seq<Action>)
    requires Invariant(s) && CanRun(s, actions)
    ensures CountHandles(actions) - 1 <= Completed(s, actions) <= CountHandles(actions)
    ensures !Run(s, actions).terminated ==> Completed(s, actions) == CountHandles(actions)
  {
    hide Apply, Invariant, CountFatal, CountHandles;
    RunKeepsInvariant(s, actions);
    FatalOnlyLast(s);
    FatalOnlyLast(Run(s, actions));
  }

  lemma InvariantBoundsQueues(s: State)
    requires Invariant(s)
    ensures |s.clientEmu| <= CAPACITY && |s.emuClient| <= CAPACITY
  {
  }

  /**
   A pass whose first loop has emptied the response queue loses responses exactly when it completes more requests than
   the queue holds, which takes requests that arrive during the pass.
   */
  lemma PassLosesResponses(s: State, actions: seq<Action>)
    requires Invariant(s) && s.emuClient == []
    requires CanRun(s, actions) && InRequestLoop(actions)
    ensures CountLost(Run(s, actions).finished) > CountLost(s.finished) <==> Completed(s, actions) > CAPACITY
    ensures NothingArrives(actions) ==> CountLost(Run(s, actions).finished) == CountLost(s.finished)
  {
    hide Apply, CanRun, Run, Invariant, CountLost, CountHandles, Completed;
    InvariantBoundsQueues(s);
    LostInRequestLoop(s, actions);
    CompletedHandles(s, actions);
  }

  /** n requests from session 0, each handled as it arrives. */
  function Rounds(m: Message, memory: nat -> u8, n: nat): seq<Action> {
    if n == 0 then [] else [Receive(0, m), Handle(memory)] + Rounds(m, memory, n - 1)
  }

  lemma {:induction false} RoundsRun(s: State, m: Message, memory: nat -> u8, n: nat)
    requires Invariant(s) && !s.terminated && 0 in s.listener.alive && s.clientEmu == []
    requires Modest(m)
    ensures CanRun(s, Rounds(m, memory, n)) && InRequestLoop(Rounds(m, memory, n))
    ensures CountHandles(Rounds(m, memory, n)) == n && !Run(s, Rounds(m, memory, n)).terminated
    decreases n
  {
    hide Apply, Enabled, Invariant, Modest;
    if n > 0 {
      var s1, s2 := OneRound(s, m, memory);
      var rest := Rounds(m, memory, n - 1);
      RoundsRun(s2, m, memory, n - 1);
      RoundsUnfold(m, memory, rest, Rounds(m, memory, n), s, s1, s2);
    }
  }

  lemma OneRound(s: State, m: Message, memory: nat -> u8) returns (s1: State, s2: State)
    requires Invariant(s) && !s.terminated && 0 in s.listener.alive && s.clientEmu == []
    requires Modest(m)
    ensures Enabled(s, Receive(0, m)) && s1 == Apply(s, Receive(0, m))
    ensures Enabled(s1, Handle(memory)) && s2 == Apply(s1, Handle(memory))
    ensures Invariant(s2) && !s2.terminated && 0 in s2.listener.alive && s2.clientEmu == []
  {
    hide Invariant, DeserializeRequest;
    s1 := Apply(s, Receive(0, m));
    StepKeepsInvariant(s, Receive(0, m));
    s2 := Apply(s1, Handle(memory));
    StepKeepsInvariant(s1, Handle(memory));
  }

  lemma RoundsUnfold(m: Message, memory: nat -> u8, rest: seq<Action>, all: seq<Action>, s: State, s1: State, s2: State)
    requires all == [Receive(0, m), Handle(memory)] + rest && InRequestLoop(rest)
    requires Enabled(s, Receive(0, m)) && s1 == Apply(s, Receive(0, m))
    requires Enabled(s1, Handle(memory)) && s2 == Apply(s1, Handle(memory)) && CanRun(s2, rest)
    ensures CanRun(s, all) && InRequestLoop(all) && CountHandles(all) == CountHandles(rest) + 1
    ensures Run(s, all) == Run(s2, rest)
  {
    hide Apply, Enabled;
    assert all[0] == Receive(0, m) && all[1..] == [Handle(memory)] + rest;
    assert all[1..][0] == Handle(memory) && all[1..][1..] == rest;
  }

  /** A pass, from a reachable state with an empty response queue, that loses a response. */
  lemma LossyPass() returns (s: State, actions: seq<Action>)
    ensures Reachable(s) && s.emuClient == []
    ensures CanRun(s, actions) && InRequestLoop(actions) && Reachable(Run(s, actions))
    ensures CountLost(Run(s, actions).finished) == 1 && CountLost(s.finished) == 0
  {
    var m := WriteMessage(1, 0, []);
    WriteMessageIsPadded(1, 0, []);
    var zero: nat -> u8 := _ => 0;
    s, actions := Apply(INIT, Accept), Rounds(m, zero, CAPACITY + 1);
    RunOne(INIT, Accept);
    ReachableIsGood(s);
    RoundsRun(s, m, zero, CAPACITY + 1);
    LostInRequestLoop(s, actions);
    CompletedHandles(s, actions);
    RunConcat(INIT, [Accept], actions);
  }
}
