/**
 The listener of `rpc_server.cpp` and the engine of `emurpc.cpp`, with their fields and loops. Every method refines the
 actions of the transition system; the queues are atomic and bounded, and `callbacks` is empty.
 */
module RpcServer {
  import opened Wrappers
  import opened Protocol
  import S = RpcSystem
  import opened RpcSystem
  import opened RpcGuarantees
  import opened RpcHistories

  /** Class `Listener`. A session object is known by its number; `alive` holds those some shared pointer still owns. */
  class Sessions {
    var nextClientId: u32
    var sessions: map<u32, Option<nat>>
    var accepts: nat
    var alive: set<nat>

    ghost function State(): S.Listener
      reads this
    {
      S.Listener(accepts, nextClientId, sessions, alive)
    }

    constructor ()
      ensures State() == S.INIT.listener
    {
      nextClientId, sessions, accepts, alive := 0, map[], 0, {};
    }

    /** `Listener::OnAccept`: makes a session, files it under the next id, and increments the id as a 32-bit number. */
    method OnAccept(failed: bool)
      modifies this
      ensures State() == if failed then old(State()) else S.OnAccept(old(State()))
      ensures !failed ==> alive == old(alive) + {old(accepts)} && accepts == old(accepts) + 1
      ensures !failed ==> sessions == old(sessions)[old(nextClientId) := Some(old(accepts))]
      ensures !failed ==> nextClientId == (old(nextClientId) + 1) % 0x1_0000_0000
    {
      if !failed {
        var session := accepts;
        accepts, alive := accepts + 1, alive + {session};
        sessions := sessions[nextClientId := Some(session)];
        nextClientId := (nextClientId + 1) % WIDTH;
      }
    }

    /** `Listener::Send` up to the hand-over: the session that gets the packet, if its weak pointer can be locked. */
    method Send(clientId: u32) returns (target: Option<nat>)
      modifies this
      ensures State() == Lookup(old(State()), clientId)
      ensures alive == old(alive) && accepts == old(accepts) && nextClientId == old(nextClientId)
      ensures sessions == if clientId in old(sessions) then old(sessions) else old(sessions)[clientId := None]
      ensures target == Target(State(), clientId)
      ensures target.Some? <==> exists k :: k in alive && sessions[clientId] == Some(k)
      ensures target.Some? ==> sessions[clientId] == target && target.value in alive
    {
      if clientId !in sessions { sessions := sessions[clientId := None]; }
      var pointer := sessions[clientId];
      target := if pointer.Some? && pointer.value in alive then pointer else None;
    }
  }

  /** Class `EmuRPC::Impl`, with the push of `Session::OnRead` into its request queue. */
  class Engine {
    const listener: Sessions
    var clientEmu: seq<ClientRequest>
    var emuClient: seq<ClientResponse>
    ghost var accepted: seq<ClientRequest>
    ghost var finished: seq<(ClientRequest, Fate)>
    ghost var sent: seq<ClientResponse>
    ghost var delivered: seq<(nat, ClientResponse)>
    ghost var writes: seq<Write>
    ghost var terminated: bool

    ghost function State(): S.State
      reads this, listener
    {
      S.State(listener.State(), clientEmu, emuClient, accepted, finished, sent, delivered, writes, terminated)
    }

    constructor ()
      ensures fresh(listener) && State() == S.INIT
    {
      listener := new Sessions();
      clientEmu, emuClient := [], [];
      accepted, finished, sent, delivered, writes, terminated := [], [], [], [], [], false;
    }

    /** `Session::OnRead` of a live session. Nobody catches its exception, so throwing it ends the process. */
    method OnRead(session: nat, bytesTransferred: nat, m: Message) returns (thrown: bool)
      modifies this
      ensures thrown <==> bytesTransferred != 0 && DeserializeRequest(m).Err?
      ensures thrown ==> terminated
      ensures State() == if bytesTransferred == 0 then old(State()) else S.OnRead(old(State()), session, m)
    {
      if bytesTransferred == 0 { return false; }
      var parsed := DeserializeRequest(m);
      thrown := parsed.Err?;
      match parsed
      case Err(_) => terminated := true;
      case Ok(request) =>
        if |clientEmu| < CAPACITY {
          var r := ClientRequest(IdOf(session), request, session);
          clientEmu := clientEmu + [r];
          accepted := accepted + [r];
        }
    }

    /** The first loop of `ProcessEvents`: send every response that is waiting. */
    method SendResponses()
      requires !terminated
      modifies this, listener
      ensures emuClient == [] && !terminated
      ensures ghost var sends := Repeat(Send, |old(emuClient)|);
              CanRun(old(State()), sends) && State() == Run(old(State()), sends)
    {
      hide Apply, CanRun, Run;
      ghost var s, n := State(), |emuClient|;
      EmptyRun(s);
      while emuClient != []
        invariant |emuClient| <= n && !terminated
        invariant CanRun(s, Repeat(Send, n - |emuClient|))
        invariant State() == Run(s, Repeat(Send, n - |emuClient|))
        decreases |emuClient|
      {
        ghost var before := State();
        OneMore(s, Send, n - |emuClient|);
        var res := emuClient[0];
        emuClient := emuClient[1..];
        sent := sent + [res];
        var target := listener.Send(res.client);
        match target {
          case Some(k) => delivered := delivered + [(k, res)];
          case None =>
        }
        SendApplied(before, State());
      }
    }

    /**
     `HandleRequest`, pushing at most one response; a full queue refuses it. The vector for an oversized read throws,
     which ends the process.
     */
    method HandleRequest(r: ClientRequest, memory: nat -> u8) returns (thrown: bool)
      modifies this
      ensures clientEmu == old(clientEmu) && accepted == old(accepted)
      ensures sent == old(sent) && delivered == old(delivered)
      ensures thrown <==> Oversized(r.packet)
      ensures writes == old(writes) + WriteOf(r.packet) && terminated == (old(terminated) || thrown)
      ensures State() == HandleOne(old(State()).(clientEmu := [r] + clientEmu), memory)
      ensures r.packet.Other? ==> emuClient == old(emuClient) && writes == old(writes)
      ensures r.packet.MemoryRead? && !thrown && |old(emuClient)| < CAPACITY ==>
                && |emuClient| == |old(emuClient)| + 1
                && ReadFrom(r.packet, emuClient[|old(emuClient)|], memory)
    {
      assert ([r] + clientEmu)[1..] == clientEmu;
      var response: Option<Response> := None;
      match r.packet {
        case MemoryRead(id, address, length) =>
          if length > MAX_VECTOR {
            finished, terminated := finished + [(r, Fatal)], true;
            return true;
          }
          var data := ReadMemory(address, length, memory);
          response := Some(ReadResult(id, data));
        case MemoryWrite(id, address, data) =>
          writes := writes + [Write(address, data)];
          response := Some(WriteDone(id));
        case Other(_) =>
      }
      match response {
        case None =>
          finished := finished + [(r, Silent)];
        case Some(p) =>
          var a := ClientResponse(r.client, p, r.session);
          if |emuClient| < CAPACITY {
            emuClient := emuClient + [a];
            finished := finished + [(r, Answered(a))];
          } else {
            finished := finished + [(r, Lost(a))];
          }
      }
      return false;
    }

    /**
     The second loop of `ProcessEvents`: handle every request that is waiting, up to the first oversized read;
     memories(k) is what call k reads, n the number of calls.
     */
    method HandleRequests(memories: nat -> (nat -> u8)) returns (thrown: bool, ghost n: nat)
      requires !terminated
      modifies this
      ensures thrown == terminated && n <= |old(clientEmu)| && clientEmu == old(clientEmu)[n..]
      ensures HandledUpTo(old(clientEmu), thrown, n)
      ensures CanRun(old(State()), Handles(memories, n))
      ensures State() == Run(old(State()), Handles(memories, n))
    {
      hide Apply, CanRun, Run, Oversized;
      ghost var s := State();
      EmptyRun(s);
      assert Handles(memories, 0) == [];
      var k := 0;
      while clientEmu != []
        invariant 0 <= k <= |s.clientEmu| && clientEmu == s.clientEmu[k..] && !terminated
        invariant NoneOversized(s.clientEmu[..k])
        invariant CanRun(s, Handles(memories, k))
        invariant State() == Run(s, Handles(memories, k))
        decreases |clientEmu|
      {
        ghost var before := State();
        OneMoreHandle(s, memories, k);
        var req := clientEmu[0];
        clientEmu := clientEmu[1..];
        assert before == State().(clientEmu := [req] + clientEmu);
        thrown := HandleRequest(req, memories(k));
        HandleApplied(before, memories(k), State());
        k := k + 1;
        assert s.clientEmu[..k][..k - 1] == s.clientEmu[..k - 1] && s.clientEmu[k - 1] == req;
        if thrown { return true, k; }
      }
      assert s.clientEmu[..k] == s.clientEmu;
      return false, k;
    }

    /**
     One pass of `ProcessEvents` during which nothing else runs: all waiting responses are sent, the waiting requests
     are handled in order, up to the first oversized read, and no response is lost.
     */
    method ProcessPass(memories: nat -> (nat -> u8)) returns (thrown: bool, ghost n: nat)
      requires Invariant(State()) && !terminated
      modifies this, listener
      ensures Invariant(State()) && thrown == terminated
      ensures n <= |old(clientEmu)| && clientEmu == old(clientEmu)[n..]
      ensures HandledUpTo(old(clientEmu), thrown, n)
      ensures sent == old(sent + emuClient)
      ensures accepted == old(accepted) && Requests(finished) + clientEmu == accepted
      ensures CountLost(finished) == CountLost(old(finished))
      ensures |emuClient| == if thrown then n - 1 else n
    {
      hide Apply, CanRun, Run, Invariant, HandledUpTo, CountLost;
      ghost var s0 := State();
      SendResponses();
      ghost var s1 := State();
      ghost var sends := Repeat(Send, |s0.emuClient|);
      RunKeepsInvariant(s0, sends);
      SendsOnly(s0, |s0.emuClient|);
      thrown, n := HandleRequests(memories);
      RunKeepsInvariant(s1, Handles(memories, n));
      HandlesOnly(s1, memories, n);
      AcceptedAreAll(State());
    }

    /** `HandleTiming` without callbacks and not blocked: consume_all discards every waiting request. */
    method HandleTiming()
      requires !terminated
      modifies this
      ensures clientEmu == []
      ensures State() == Apply(old(State()), Drain(|old(clientEmu)|))
    {
      ghost var drained := DrainedAll(clientEmu);
      assert clientEmu[..|clientEmu|] == clientEmu;
      clientEmu := [];
      finished := finished + drained;
    }
  }

  /** The memory_read callback fills a vector of the given length. */
  method ReadMemory(address: nat, length: nat, memory: nat -> u8) returns (data: seq<u8>)
    ensures data == seq(length, i requires 0 <= i < length => memory(address + i))
  {
    data := [];
    var i := 0;
    while i < length
      invariant 0 <= i <= length && |data| == i
      invariant forall j :: 0 <= j < i ==> data[j] == memory(address + j)
    {
      data := data + [memory(address + i)];
      i := i + 1;
    }
  }

  // ----- runs of one kind of action

  function Repeat(a: Action, n: nat): seq<Action> {
    seq(n, _ => a)
  }

  function Handles(memories: nat -> (nat -> u8), n: nat): seq<Action> {
    seq(n, i requires 0 <= i < n => Handle(memories(i)))
  }

  lemma EmptyRun(s: S.State)
    ensures CanRun(s, Repeat(Send, 0)) && Run(s, Repeat(Send, 0)) == s
    ensures CanRun(s, []) && Run(s, []) == s
  {
  }

  lemma OneMore(s: S.State, a: Action, n: nat)
    requires CanRun(s, Repeat(a, n)) && Enabled(Run(s, Repeat(a, n)), a)
    ensures CanRun(s, Repeat(a, n + 1))
    ensures Run(s, Repeat(a, n + 1)) == Apply(Run(s, Repeat(a, n)), a)
  {
    var s' := Run(s, Repeat(a, n));
    RunOne(s', a);
    RunConcat(s, Repeat(a, n), [a]);
    assert Repeat(a, n + 1) == Repeat(a, n) + [a];
  }

  lemma OneMoreHandle(s: S.State, memories: nat -> (nat -> u8), n: nat)
    requires CanRun(s, Handles(memories, n)) && Enabled(Run(s, Handles(memories, n)), Handle(memories(n)))
    ensures CanRun(s, Handles(memories, n + 1))
    ensures Run(s, Handles(memories, n + 1)) == Apply(Run(s, Handles(memories, n)), Handle(memories(n)))
  {
    var s' := Run(s, Handles(memories, n));
    RunOne(s', Handle(memories(n)));
    RunConcat(s, Handles(memories, n), [Handle(memories(n))]);
    assert Handles(memories, n + 1) == Handles(memories, n) + [Handle(memories(n))];
  }

  lemma SendApplied(s: S.State, s': S.State)
    requires !s.terminated && s.emuClient != [] && s' == SendOne(s)
    ensures s' == Apply(s, Send)
  {
  }

  lemma HandleApplied(s: S.State, memory: nat -> u8, s': S.State)
    requires !s.terminated && s.clientEmu != [] && s' == HandleOne(s, memory)
    ensures s' == Apply(s, Handle(memory))
  {
  }

  /** Sends move responses and leave requests alone. */
  lemma {:induction false} SendsOnly(s: S.State, n: nat)
    requires CanRun(s, Repeat(Send, n)) && n <= |s.emuClient|
    ensures var s' := Run(s, Repeat(Send, n));
            && s'.clientEmu == s.clientEmu && s'.accepted == s.accepted && s'.finished == s.finished
            && s'.sent + s'.emuClient == s.sent + s.emuClient && |s'.emuClient| == |s.emuClient| - n
    decreases n
  {
    if n > 0 {
      hide Apply;
      assert Repeat(Send, n)[1..] == Repeat(Send, n - 1);
      var s1 := Apply(s, Send);
      OneSend(s);
      SendsOnly(s1, n - 1);
    }
  }

  lemma OneSend(s: S.State)
    requires Enabled(s, Send)
    ensures var s' := Apply(s, Send);
            && s'.clientEmu == s.clientEmu && s'.accepted == s.accepted && s'.finished == s.finished
            && s'.sent + s'.emuClient == s.sent + s.emuClient && |s'.emuClient| == |s.emuClient| - 1
  {
  }

  /** The first n requests were handled: all there were, or those up to the first oversized read. */
  ghost predicate HandledUpTo(rs: seq<ClientRequest>, thrown: bool, n: nat) {
    && n <= |rs|
    && (!thrown ==> n == |rs| && NoneOversized(rs))
    && (thrown ==> n > 0 && Oversized(rs[n - 1].packet) && NoneOversized(rs[..n - 1]))
  }

  /** Handles that do not throw answer into an empty response queue, one response each, and send nothing. */
  lemma HandlesOnly(s: S.State, memories: nat -> (nat -> u8), n: nat)
    requires Invariant(s) && !s.terminated && s.emuClient == [] && n <= |s.clientEmu|
    requires CanRun(s, Handles(memories, n))
    ensures var s' := Run(s, Handles(memories, n));
            && s'.accepted == s.accepted && s'.sent == s.sent
            && CountLost(s'.finished) == CountLost(s.finished)
            && |s'.emuClient| == if s'.terminated then n - 1 else n
  {
    InvariantBoundsQueues(s);
    HandlesFrom(s, Handles(memories, n));
  }

  lemma {:induction false} HandlesFrom(s: S.State, actions: seq<Action>)
    requires Invariant(s) && !s.terminated && CanRun(s, actions) && |s.emuClient| + |actions| <= CAPACITY
    requires forall i :: 0 <= i < |actions| ==> actions[i].Handle?
    ensures var s' := Run(s, actions);
            && s'.accepted == s.accepted && s'.sent == s.sent
            && CountLost(s'.finished) == CountLost(s.finished)
            && |s'.emuClient| == |s.emuClient| + |actions| - if s'.terminated then 1 else 0
    decreases |actions|
  {
    hide Invariant, CountLost, HandleOne;
    if actions != [] {
      StepKeepsInvariant(s, actions[0]);
      OneHandle(s, actions[0]);
      var s1 := Apply(s, actions[0]);
      if s1.terminated {
        NothingFollows(s1, actions[1..]);
      } else {
        HandlesFrom(s1, actions[1..]);
      }
    }
  }

  lemma OneHandle(s: S.State, a: Action)
    requires Invariant(s) && Enabled(s, a) && a.Handle? && |s.emuClient| < CAPACITY
    ensures var s' := Apply(s, a);
            && s'.accepted == s.accepted && s'.sent == s.sent
            && CountLost(s'.finished) == CountLost(s.finished)
            && |s'.emuClient| == if s'.terminated then |s.emuClient| else |s.emuClient| + 1
  {
    hide Invariant, CountLost;
    HandleInRequestLoop(s, a.memory);
  }

  lemma AcceptedAreAll(s: S.State)
    requires Invariant(s)
    ensures Requests(s.finished) + s.clientEmu == s.accepted
  {
  }
}
