/** What a whole run leaves behind: which sessions are alive, what left the request queue, and what reads answered. */
module RpcHistories {
  import opened Wrappers
  import opened Protocol
  import opened RpcSystem
  import opened RpcGuarantees

  // ----- sessions

  function CountAccepts(actions: seq<Action>): nat {
    if actions == [] then 0 else (if actions[0].Accept? then 1 else 0) + CountAccepts(actions[1..])
  }

  lemma StepSessions(s: State, a: Action)
    requires Enabled(s, a)
    ensures var l, l' := s.listener, Apply(s, a).listener;
            && l'.accepts == l.accepts + (if a.Accept? then 1 else 0)
            && forall k :: k in l'.alive <==> (k in l.alive || (a.Accept? && k == l.accepts)) && a != Close(k)
  {
  }

  lemma {:induction false} AliveFrom(s: State, actions: seq<Action>, k: nat)
    requires CanRun(s, actions) && forall j :: j in s.listener.alive ==> j < s.listener.accepts
    ensures var n := s.listener.accepts;
            k in Run(s, actions).listener.alive <==>
              (k in s.listener.alive || n <= k < n + CountAccepts(actions)) && Close(k) !in actions
    ensures Run(s, actions).listener.accepts == s.listener.accepts + CountAccepts(actions)
    decreases |actions|
  {
    hide Apply;
    if actions != [] {
      StepSessions(s, actions[0]);
      AliveFrom(Apply(s, actions[0]), actions[1..], k);
      assert Close(k) in actions <==> actions[0] == Close(k) || Close(k) in actions[1..];
    }
  }

  /**
   Session k is alive after a run exactly when at least k + 1 sessions have been accepted in it and session k has not
   been closed. (Only a living session can be closed, so the close comes after the accept.)
   */
  lemma AliveExactly(actions: seq<Action>, k: nat)
    requires CanRun(INIT, actions)
    ensures k in Run(INIT, actions).listener.alive <==> k < CountAccepts(actions) && Close(k) !in actions
    ensures Run(INIT, actions).listener.accepts == CountAccepts(actions)
  {
    AliveFrom(INIT, actions, k);
  }

  // ----- what leaves the request queue

  function SumDrains(actions: seq<Action>): nat {
    if actions == [] then 0
    else (match actions[0] case Drain(n) => n case _ => 0) + SumDrains(actions[1..])
  }

  function CountDrained(fs: seq<(ClientRequest, Fate)>): nat {
    |Collect(fs, DrainedIn)|
  }

  function DrainedIn(r: ClientRequest, f: Fate): seq<ClientRequest> {
    if f.Drained? then [r] else []
  }

  lemma {:induction false} AllDrained(fs: seq<(ClientRequest, Fate)>, rs: seq<ClientRequest>)
    ensures CountDrained(fs + DrainedAll(rs)) == CountDrained(fs) + |rs|
    decreases |rs|
  {
    if rs == [] {
      assert fs + DrainedAll(rs) == fs;
    } else {
      var n := |rs| - 1;
      AllDrained(fs, rs[..n]);
      CollectAppend(fs + DrainedAll(rs[..n]), (rs[n], Drained), DrainedIn);
      DrainedAppend(fs, rs);
    }
  }

  lemma StepFinishes(s: State, a: Action)
    requires Enabled(s, a)
    ensures var fs, fs' := s.finished, Apply(s, a).finished;
            && fs <= fs'
            && |fs'| == |fs| + (match a case Handle(_) => 1 case Drain(n) => n case _ => 0)
            && CountDrained(fs') == CountDrained(fs) + (if a.Drain? then a.n else 0)
  {
    hide CountDrained;
    match a
    case Handle(memory) =>
      var f := Apply(s, a).finished[|s.finished|];
      HandledIsNotDrained(s.finished, f);
    case Drain(n) => AllDrained(s.finished, s.clientEmu[..n]);
    case _ =>
  }

  lemma HandledIsNotDrained(fs: seq<(ClientRequest, Fate)>, f: (ClientRequest, Fate))
    requires !f.1.Drained?
    ensures CountDrained(fs + [f]) == CountDrained(fs)
  {
    CollectAppend(fs, f, DrainedIn);
  }

  /** Each handling takes one request off the queue and each drain as many as it says; only these are discarded. */
  lemma {:induction false} DeparturesAdd(s: State, actions: seq<Action>)
    requires CanRun(s, actions)
    ensures var s' := Run(s, actions);
            && s.finished <= s'.finished
            && |s'.finished| == |s.finished| + CountHandles(actions) + SumDrains(actions)
            && CountDrained(s'.finished) == CountDrained(s.finished) + SumDrains(actions)
    decreases |actions|
  {
    hide Apply, CountDrained;
    if actions != [] {
      StepFinishes(s, actions[0]);
      DeparturesAdd(Apply(s, actions[0]), actions[1..]);
    }
  }

  // ----- what reads answer

  /** The response holds the bytes of memory from the address of the read on, as many as it asks for. */
  predicate ReadFrom(p: Request, a: ClientResponse, memory: nat -> u8) {
    && p.MemoryRead? && a.packet.ReadResult?
    && |a.packet.result| == p.length
    && forall i :: 0 <= i < p.length ==> a.packet.result[i] == memory(p.address + i)
  }

  /** Handling a read that a vector can hold appends its answer to the responses, if there is room. */
  lemma HandledReadAnswers(s: State, memory: nat -> u8)
    requires Enabled(s, Handle(memory)) && s.clientEmu[0].packet.MemoryRead?
    requires s.clientEmu[0].packet.length <= MAX_VECTOR && |s.emuClient| < CAPACITY
    ensures var r, s' := s.clientEmu[0], Apply(s, Handle(memory)); var n := |s.emuClient|;
            && s'.clientEmu == s.clientEmu[1..] && !s'.terminated
            && |s'.emuClient| == n + 1 && s'.emuClient[..n] == s.emuClient
            && s'.emuClient[n].client == r.client && s'.emuClient[n].packet.id == r.packet.id
            && ReadFrom(r.packet, s'.emuClient[n], memory)
  {
  }

  /** Handling a write makes it, with the address and data it asks for, and appends its answer if there is room. */
  lemma HandledWriteAnswers(s: State, memory: nat -> u8)
    requires Enabled(s, Handle(memory)) && s.clientEmu[0].packet.MemoryWrite?
    ensures var r, s' := s.clientEmu[0], Apply(s, Handle(memory));
            && s'.clientEmu == s.clientEmu[1..] && !s'.terminated
            && s'.writes == s.writes + [Write(r.packet.address, r.packet.data)]
            && s'.emuClient == s.emuClient + if |s.emuClient| < CAPACITY
                                             then [ClientResponse(r.client, WriteDone(r.packet.id), r.session)]
                                             else []
  {
  }

  /** A request of any other kind is taken off the queue, and nothing else happens. */
  lemma HandledOtherIsSilent(s: State, memory: nat -> u8)
    requires Enabled(s, Handle(memory)) && s.clientEmu[0].packet.Other?
    ensures Apply(s, Handle(memory))
            == s.(clientEmu := s.clientEmu[1..], finished := s.finished + [(s.clientEmu[0], Silent)])
  {
    assert s.writes + [] == s.writes;
  }

  lemma StepReads(s: State, memory: nat -> u8)
    requires Enabled(s, Handle(memory))
    ensures var (r, f) := Apply(s, Handle(memory)).finished[|s.finished|];
            r.packet.MemoryRead? && (f.Answered? || f.Lost?) ==> ReadFrom(r.packet, f.response, memory)
  {
  }

  /**
   Over a whole run, the answer to a read, sent, waiting or lost, holds what the memory contained when the request was
   handled; action i of the run is the one that did.
   */
  lemma {:induction false} AnswersReadMemory(s: State, actions: seq<Action>, k: nat) returns (i: nat)
    requires CanRun(s, actions) && |s.finished| <= k < |Run(s, actions).finished|
    requires var (r, f) := Run(s, actions).finished[k]; r.packet.MemoryRead? && (f.Answered? || f.Lost?)
    ensures var (r, f) := Run(s, actions).finished[k];
            i < |actions| && actions[i].Handle? && ReadFrom(r.packet, f.response, actions[i].memory)
    ensures CanRun(s, actions[..i]) && |Run(s, actions[..i]).finished| == k
    decreases |actions|
  {
    hide Apply, ReadFrom;
    var s1, rest := Apply(s, actions[0]), actions[1..];
    StepFinishes(s, actions[0]);
    DeparturesAdd(s1, rest);
    if k < |s1.finished| {
      assert Run(s, actions).finished[k] == s1.finished[k];
      DrainsAnswerNothing(s, actions[0], k);
      StepReads(s, actions[0].memory);
      i := 0;
    } else {
      var j := AnswersReadMemory(s1, rest, k);
      i := j + 1;
      assert actions[..i][1..] == rest[..j];
    }
  }

  lemma DrainsAnswerNothing(s: State, a: Action, k: nat)
    requires Enabled(s, a) && |s.finished| <= k < |Apply(s, a).finished|
    requires !Apply(s, a).finished[k].1.Drained?
    ensures a.Handle?
  {
  }
}
