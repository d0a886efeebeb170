/**
 EmuRPC as a transition system. Each action is one atomic step of one of the three threads: the network thread accepts
 sessions and pushes their requests, the server thread sends responses and handles requests, and the emulator thread
 drains the request queue at a timing point.
 */
module RpcSystem {
  import opened Wrappers
  import opened Protocol

  const CAPACITY := 1024
  const WIDTH := 0x1_0000_0000
  // max_size() of a vector of bytes
  const MAX_VECTOR := 0x7FFF_FFFF_FFFF_FFFF

  /** A queued request with its client id; `session` is history: the number of the session that pushed it. */
  datatype ClientRequest = ClientRequest(client: u32, packet: Request, session: nat)
  datatype ClientResponse = ClientResponse(client: u32, packet: Response, session: nat)

  /** The listener: sessions are numbered in the order of their acceptance and known by a weak pointer. */
  datatype Listener = Listener(accepts: nat, nextClientId: u32, sessions: map<u32, Option<nat>>, alive: set<nat>)

  /** What became of a request that left the queue. */
  datatype Fate =
    | Answered(response: ClientResponse)
    | Lost(response: ClientResponse)      // the response queue was full
    | Silent                              // handled, but of a kind that has no response
    | Drained
    | Fatal                               // handling it threw, which ended the process

  datatype State = State(
    listener: Listener,
    clientEmu: seq<ClientRequest>,
    emuClient: seq<ClientResponse>,
    // history
    accepted: seq<ClientRequest>,
    finished: seq<(ClientRequest, Fate)>,
    sent: seq<ClientResponse>,
    delivered: seq<(nat, ClientResponse)>,
    writes: seq<Write>,
    // the process has been terminated by an exception that nobody catches
    terminated: bool)

  /** A call of the memory_write callback. */
  datatype Write = Write(address: nat, data: seq<nat>)

  const INIT := State(Listener(0, 0, map[], {}), [], [], [], [], [], [], [], false)

  datatype Action =
    | Accept                               // Listener::OnAccept
    | Close(session: nat)                  // the last owner of a session goes away
    | Receive(session: nat, m: Message)    // Session::OnRead
    | Send                                 // one turn of the first loop of ProcessEvents
    | Handle(memory: nat -> u8)            // one turn of the second loop of ProcessEvents
    | Drain(n: nat)                        // consume_all in HandleTiming

  // ----- the steps

  function OnAccept(l: Listener): Listener {
    Listener(l.accepts + 1, (l.nextClientId + 1) % WIDTH, l.sessions[l.nextClientId := Some(l.accepts)],
             l.alive + {l.accepts})
  }

  /** The id a session got when it was accepted. */
  function IdOf(session: nat): u32 {
    session % WIDTH
  }

  /** A full queue refuses, and nobody looks at the result of push. */
  function Push(s: State, r: ClientRequest): State {
    if |s.clientEmu| < CAPACITY then s.(clientEmu := s.clientEmu + [r], accepted := s.accepted + [r]) else s
  }

  /** The exception for a message that does not parse leaves OnRead and the network thread, which ends the process. */
  function OnRead(s: State, session: nat, m: Message): State {
    match DeserializeRequest(m)
    case Ok(request) => Push(s, ClientRequest(IdOf(session), request, session))
    case Err(_) => s.(terminated := true)
  }

  /** The lookup `sessions[client_id]`, which inserts an empty pointer for an unknown id. */
  function Lookup(l: Listener, id: u32): Listener {
    if id in l.sessions then l else l.(sessions := l.sessions[id := None])
  }

  /** The live session behind an id. */
  function Target(l: Listener, id: u32): Option<nat> {
    if id in l.sessions && l.sessions[id].Some? && l.sessions[id].value in l.alive then l.sessions[id] else None
  }

  function SendOne(s: State): State
    requires s.emuClient != []
  {
    var r := s.emuClient[0];
    var l := Lookup(s.listener, r.client);
    s.(listener := l, emuClient := s.emuClient[1..], sent := s.sent + [r],
       delivered := match Target(l, r.client)
                    case Some(k) => s.delivered + [(k, r)]
                    case None => s.delivered)
  }

  /** `HandleRequest`: the response, given the memory the read callback sees. */
  function ResponseTo(p: Request, memory: nat -> u8): Option<Response> {
    match p
    case MemoryRead(id, address, length) =>
      Some(ReadResult(id, seq(length, i requires 0 <= i < length => memory(address + i))))
    case MemoryWrite(id, _, _) => Some(WriteDone(id))
    case Other(_) => None
  }

  /** The write `HandleRequest` makes, if any. */
  function WriteOf(p: Request): seq<Write> {
    match p
    case MemoryWrite(_, address, data) => [Write(address, data)]
    case _ => []
  }

  /** A read of more bytes than a vector can have: its constructor throws std::length_error. */
  predicate Oversized(p: Request) {
    p.MemoryRead? && p.length > MAX_VECTOR
  }

  /** Nobody catches an exception that leaves `HandleRequest` and the server thread, which ends the process. */
  function HandleOne(s: State, memory: nat -> u8): State
    requires s.clientEmu != []
  {
    var r := s.clientEmu[0];
    var popped := s.(clientEmu := s.clientEmu[1..], writes := s.writes + WriteOf(r.packet));
    if Oversized(r.packet) then popped.(finished := s.finished + [(r, Fatal)], terminated := true)
    else
      match ResponseTo(r.packet, memory)
      case None => popped.(finished := s.finished + [(r, Silent)])
      case Some(p) =>
        var response := ClientResponse(r.client, p, r.session);
        if |s.emuClient| < CAPACITY then
          popped.(emuClient := s.emuClient + [response], finished := s.finished + [(r, Answered(response))])
        else
          popped.(finished := s.finished + [(r, Lost(response))])
  }

  function DrainedAll(rs: seq<ClientRequest>): seq<(ClientRequest, Fate)> {
    seq(|rs|, i requires 0 <= i < |rs| => (rs[i], Drained))
  }

  /** Nothing happens any more once the process has been terminated. */
  predicate Enabled(s: State, a: Action) {
    !s.terminated && match a
    case Accept => true
    case Close(k) => k in s.listener.alive
    case Receive(k, _) => k in s.listener.alive
    case Send => s.emuClient != []
    case Handle(_) => s.clientEmu != []
    case Drain(n) => n <= |s.clientEmu|
  }

  function Apply(s: State, a: Action): State
    requires Enabled(s, a)
  {
    match a
    case Accept => s.(listener := OnAccept(s.listener))
    case Close(k) => s.(listener := s.listener.(alive := s.listener.alive - {k}))
    case Receive(k, m) => OnRead(s, k, m)
    case Send => SendOne(s)
    case Handle(memory) => HandleOne(s, memory)
    case Drain(n) => s.(clientEmu := s.clientEmu[n..], finished := s.finished + DrainedAll(s.clientEmu[..n]))
  }

  ghost predicate CanRun(s: State, actions: seq<Action>)
    decreases |actions|
  {
    actions == [] || (Enabled(s, actions[0]) && CanRun(Apply(s, actions[0]), actions[1..]))
  }

  ghost function Run(s: State, actions: seq<Action>): State
    requires CanRun(s, actions)
    decreases |actions|
  {
    if actions == [] then s else Run(Apply(s, actions[0]), actions[1..])
  }

  // ----- the invariant

  function Requests(fs: seq<(ClientRequest, Fate)>): seq<ClientRequest> {
    seq(|fs|, i requires 0 <= i < |fs| => fs[i].0)
  }

  /** What pick selects from the requests that left the queue, in their order. */
  function Collect<T>(fs: seq<(ClientRequest, Fate)>, pick: (ClientRequest, Fate) -> seq<T>): seq<T> {
    if fs == [] then []
    else
      var n := |fs| - 1;
      Collect(fs[..n], pick) + pick(fs[n].0, fs[n].1)
  }

  /** The responses that entered the response queue. */
  function Answers(fs: seq<(ClientRequest, Fate)>): seq<ClientResponse> {
    Collect(fs, AnswerIn)
  }

  function AnswerIn(r: ClientRequest, f: Fate): seq<ClientResponse> {
    if f.Answered? then [f.response] else []
  }

  /** The writes made for the requests that were handled, whether or not their response was lost. */
  function Writes(fs: seq<(ClientRequest, Fate)>): seq<Write> {
    Collect(fs, WriteIn)
  }

  function WriteIn(r: ClientRequest, f: Fate): seq<Write> {
    if f.Drained? then [] else WriteOf(r.packet)
  }

  /** A response carries the client id, the packet id and the kind of the request it answers. */
  predicate Answering(r: ClientRequest, a: ClientResponse) {
    && a.client == r.client && a.session == r.session && a.packet.id == r.packet.id
    && match r.packet {
         case MemoryRead(_, _, length) => a.packet.ReadResult? && |a.packet.result| == length
         case MemoryWrite(_, _, _) => a.packet.WriteDone?
         case Other(_) => false
       }
  }

  predicate GoodFate(r: ClientRequest, f: Fate) {
    match f
    case Answered(a) => Answering(r, a) && !Oversized(r.packet)
    case Lost(a) => Answering(r, a) && !Oversized(r.packet)
    case Silent => r.packet.Other?
    case Drained => true
    case Fatal => Oversized(r.packet)
  }

  predicate GoodListener(l: Listener) {
    && l.nextClientId == IdOf(l.accepts)
    && (forall id :: id in l.sessions && l.sessions[id].Some? ==>
          IdOf(l.sessions[id].value) == id && l.sessions[id].value < l.accepts)
    && (forall k :: k in l.alive ==> k < l.accepts)
    && (forall k :: 0 <= k < l.accepts && l.accepts <= k + WIDTH ==> Filed(l, k))
  }

  /** An id leads to the last session that got it. */
  predicate Filed(l: Listener, k: nat) {
    IdOf(k) in l.sessions && l.sessions[IdOf(k)] == Some(k)
  }

  /** The request was pushed by a session accepted so far, under that session's id, and is a memory packet. */
  predicate GoodRequest(l: Listener, r: ClientRequest) {
    r.session < l.accepts && r.client == IdOf(r.session) && !r.packet.Other?
  }

  predicate GoodResponse(l: Listener, r: ClientResponse) {
    r.session < l.accepts && r.client == IdOf(r.session)
  }

  predicate Invariant(s: State) {
    && GoodListener(s.listener)
    && |s.clientEmu| <= CAPACITY && |s.emuClient| <= CAPACITY
    // every accepted request is in one place: among those that left the queue, or in the queue
    && s.accepted == Requests(s.finished) + s.clientEmu
    && (forall i :: 0 <= i < |s.finished| ==> GoodFate(s.finished[i].0, s.finished[i].1))
    && (forall i :: 0 <= i < |s.finished| && s.finished[i].1.Fatal? ==> s.terminated && i == |s.finished| - 1)
    // responses leave in the order in which their requests were accepted
    && Answers(s.finished) == s.sent + s.emuClient
    // and so are the writes
    && Writes(s.finished) == s.writes
    && (forall i :: 0 <= i < |s.accepted| ==> GoodRequest(s.listener, s.accepted[i]))
    && (forall i :: 0 <= i < |s.sent + s.emuClient| ==> GoodResponse(s.listener, (s.sent + s.emuClient)[i]))
    // a delivery goes to a session that had the id of the session that asked
    && (forall i :: 0 <= i < |s.delivered| ==> GoodDelivery(s, s.delivered[i]))
  }

  predicate GoodDelivery(s: State, d: (nat, ClientResponse)) {
    d.1 in s.sent && d.0 < s.listener.accepts && IdOf(d.0) == d.1.client
  }

  // ----- every step keeps the invariant

  lemma RequestsConcat(a: seq<(ClientRequest, Fate)>, b: seq<(ClientRequest, Fate)>)
    ensures Requests(a + b) == Requests(a) + Requests(b)
  {
  }

  lemma CollectAppend<T>(fs: seq<(ClientRequest, Fate)>, f: (ClientRequest, Fate),
                         pick: (ClientRequest, Fate) -> seq<T>)
    ensures Collect(fs + [f], pick) == Collect(fs, pick) + pick(f.0, f.1)
  {
    assert (fs + [f])[..|fs|] == fs;
  }

  lemma DrainedAppend(fs: seq<(ClientRequest, Fate)>, rs: seq<ClientRequest>)
    requires rs != []
    ensures var n := |rs| - 1;
            fs + DrainedAll(rs) == fs + DrainedAll(rs[..n]) + [(rs[n], Drained)]
  {
  }

  lemma {:induction false} CollectDrained<T>(fs: seq<(ClientRequest, Fate)>, rs: seq<ClientRequest>,
                                             pick: (ClientRequest, Fate) -> seq<T>)
    requires forall r :: pick(r, Drained) == []
    ensures Collect(fs + DrainedAll(rs), pick) == Collect(fs, pick)
    decreases |rs|
  {
    if rs == [] {
      assert fs + DrainedAll(rs) == fs;
    } else {
      var n := |rs| - 1;
      CollectDrained(fs, rs[..n], pick);
      CollectAppend(fs + DrainedAll(rs[..n]), (rs[n], Drained), pick);
      DrainedAppend(fs, rs);
    }
  }

  lemma NextId(k: nat)
    ensures (IdOf(k) + 1) % WIDTH == IdOf(k + 1)
  {
  }

  lemma NearIdsDiffer(j: nat, k: nat)
    requires j < k < j + WIDTH
    ensures IdOf(j) != IdOf(k)
  {
  }

  lemma AcceptKeepsListener(l: Listener)
    requires GoodListener(l)
    ensures GoodListener(OnAccept(l))
  {
    NextId(l.accepts);
    var l' := OnAccept(l);
    forall k | 0 <= k < l'.accepts && l'.accepts <= k + WIDTH
      ensures Filed(l', k)
    {
      if k < l.accepts {
        assert Filed(l, k);
        NearIdsDiffer(k, l.accepts);
      }
    }
  }

  lemma LookupKeepsListener(l: Listener, id: u32)
    requires GoodListener(l)
    ensures GoodListener(Lookup(l, id))
  {
    var l' := Lookup(l, id);
    forall k | 0 <= k < l'.accepts && l'.accepts <= k + WIDTH
      ensures Filed(l', k)
    {
      assert Filed(l, k);
    }
  }

  lemma CloseKeepsInvariant(s: State, k: nat)
    requires Invariant(s) && !s.terminated && k in s.listener.alive
    ensures Invariant(Apply(s, Close(k)))
  {
    var s' := Apply(s, Close(k));
    forall j | 0 <= j < s'.listener.accepts && s'.listener.accepts <= j + WIDTH
      ensures Filed(s'.listener, j)
    {
      assert Filed(s.listener, j);
    }
  }

  lemma AcceptKeepsInvariant(s: State)
    requires Invariant(s) && !s.terminated
    ensures Invariant(Apply(s, Accept))
  {
    hide GoodListener;
    AcceptKeepsListener(s.listener);
  }

  lemma ReceiveKeepsInvariant(s: State, k: nat, m: Message)
    requires Invariant(s) && !s.terminated && k in s.listener.alive
    ensures Invariant(Apply(s, Receive(k, m)))
  {
    OnlyMemoryPackets(m);
    var s' := Apply(s, Receive(k, m));
    if s'.accepted != s.accepted {
      assert s'.accepted == Requests(s.finished) + s'.clientEmu;
    }
  }

  lemma SendKeepsInvariant(s: State)
    requires Invariant(s) && !s.terminated && s.emuClient != []
    ensures Invariant(Apply(s, Send))
  {
    var s' := Apply(s, Send);
    var r := s.emuClient[0];
    LookupKeepsListener(s.listener, r.client);
    assert s'.sent + s'.emuClient == s.sent + s.emuClient;
    assert (s.sent + s.emuClient)[|s.sent|] == r;
    forall i | 0 <= i < |s'.delivered|
      ensures GoodDelivery(s', s'.delivered[i])
    {
      if i < |s.delivered| { assert GoodDelivery(s, s.delivered[i]); }
    }
  }

  lemma HandleKeepsInvariant(s: State, memory: nat -> u8)
    requires Invariant(s) && !s.terminated && s.clientEmu != []
    ensures Invariant(Apply(s, Handle(memory)))
  {
    hide Answers, Writes, GoodListener, GoodDelivery, Oversized;
    var s' := Apply(s, Handle(memory));
    var r := s.clientEmu[0];
    assert s.accepted[|s.finished|] == r;
    var f := s'.finished[|s.finished|];
    assert s'.finished == s.finished + [f];
    RequestsConcat(s.finished, [f]);
    HandleAnswers(s, s', f);
    assert s'.accepted == Requests(s'.finished) + s'.clientEmu;
    DeliveriesKept(s, s');
    assert GoodRequest(s.listener, r);
    var before, after := s.sent + s.emuClient, s'.sent + s'.emuClient;
    assert after == before || after == before + [f.1.response];
  }

  lemma HandleAnswers(s: State, s': State, f: (ClientRequest, Fate))
    requires Answers(s.finished) == s.sent + s.emuClient && s'.sent == s.sent
    requires s'.finished == s.finished + [f]
    requires s'.emuClient == s.emuClient + AnswerIn(f.0, f.1)
    requires Writes(s.finished) == s.writes && s'.writes == s.writes + WriteIn(f.0, f.1)
    ensures Answers(s'.finished) == s'.sent + s'.emuClient
    ensures Writes(s'.finished) == s'.writes
  {
    hide Collect;
    CollectAppend(s.finished, f, AnswerIn);
    CollectAppend(s.finished, f, WriteIn);
  }

  lemma DeliveriesKept(s: State, s': State)
    requires s'.sent == s.sent && s'.listener == s.listener && s'.delivered == s.delivered
    requires forall i :: 0 <= i < |s.delivered| ==> GoodDelivery(s, s.delivered[i])
    ensures forall i :: 0 <= i < |s'.delivered| ==> GoodDelivery(s', s'.delivered[i])
  {
  }

  lemma DrainKeepsInvariant(s: State, n: nat)
    requires Invariant(s) && !s.terminated && n <= |s.clientEmu|
    ensures Invariant(Apply(s, Drain(n)))
  {
    hide Collect, GoodListener, GoodDelivery;
    var s' := Apply(s, Drain(n));
    var drained := s.clientEmu[..n];
    RequestsConcat(s.finished, DrainedAll(drained));
    CollectDrained(s.finished, drained, AnswerIn);
    CollectDrained(s.finished, drained, WriteIn);
    assert Requests(DrainedAll(drained)) == drained;
    assert s'.accepted == Requests(s'.finished) + s'.clientEmu;
    DeliveriesKept(s, s');
  }

  lemma StepKeepsInvariant(s: State, a: Action)
    requires Invariant(s) && Enabled(s, a)
    ensures Invariant(Apply(s, a))
  {
    match a
    case Accept => AcceptKeepsInvariant(s);
    case Close(k) => CloseKeepsInvariant(s, k);
    case Receive(k, m) => ReceiveKeepsInvariant(s, k, m);
    case Send => SendKeepsInvariant(s);
    case Handle(memory) => HandleKeepsInvariant(s, memory);
    case Drain(n) => DrainKeepsInvariant(s, n);
  }

  /** Over every interleaving. */
  lemma {:induction false} RunKeepsInvariant(s: State, actions: seq<Action>)
    requires Invariant(s) && CanRun(s, actions)
    ensures Invariant(Run(s, actions))
    ensures Run(s, actions).listener.accepts >= s.listener.accepts
    decreases |actions|
  {
    hide Apply, Invariant;
    if actions != [] {
      StepKeepsInvariant(s, actions[0]);
      AcceptsGrow(s, actions[0]);
      RunKeepsInvariant(Apply(s, actions[0]), actions[1..]);
    }
  }

  lemma AcceptsGrow(s: State, a: Action)
    requires Enabled(s, a)
    ensures Apply(s, a).listener.accepts == s.listener.accepts + if a.Accept? then 1 else 0
  {
  }

  lemma InitIsGood()
    ensures Invariant(INIT)
  {
  }
}
