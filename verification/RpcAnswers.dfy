/** What the system can always still do: the counterpart of the safety theorems of RpcSystem.
    From every state that a run can reach, an executed call whose client still waits for it and
    whose connection is up gets its own response; a new call can be made, executed with its own
    arguments and answered; and a cancellation reaches the request it is meant for. */
module RpcAnswers {
  import opened Results
  import opened Streams
  import opened Server
  import opened RpcSystem
  import C = Client

  // ----- One result per call -----

  ghost predicate Begun(s: State, k: RequestKey) {
    k in s.server.requests && s.server.requests[k].progress != Queued
  }

  /** No two entries of the request table are executions of the same call. */
  ghost predicate OneEntry(s: State) {
    forall k, k' :: Begun(s, k) && Begun(s, k') && CallOf(s, k) == CallOf(s, k') ==> k == k'
  }

  ghost predicate Unfinished(s: State, call: Call) {
    forall x :: x in s.finished ==> x.0.call != call
  }

  /** A call that is being executed has no result yet. */
  ghost predicate RunningUnfinished(s: State) {
    forall k :: k in s.server.requests && s.server.requests[k].progress == Running ==> Unfinished(s, CallOf(s, k))
  }

  ghost predicate OneResult(s: State) {
    forall x, y :: x in s.finished && y in s.finished && x.0.call == y.0.call ==> x == y
  }

  /** Every request a client registered is one it made. */
  ghost predicate RegisteredMade(s: State) {
    forall c, id :: c in s.clients && id in s.clients[c].Registered() ==> (c, id) in s.payloads
  }

  ghost predicate ResultsOk(s: State) {
    OneEntry(s) && RunningUnfinished(s) && OneResult(s) && RegisteredMade(s)
  }

  /** Whatever was begun or running in s' already was in s. */
  ghost predicate NothingBegins(s: State, s': State) {
    && (forall k :: Begun(s', k) ==> Begun(s, k))
    && (forall k :: Begun(s', k) && s'.server.requests[k].progress == Running ==> s.server.requests[k].progress == Running)
  }

  lemma SameCall(s: State, s': State, k: RequestKey)
    requires RequestsOk(s) && SameClients(s, s') && k in s.server.requests
    ensures CallOf(s', k) == CallOf(s, k)
  {
    OneRequest(s, k);
  }

  lemma EntriesStay(s: State, s': State)
    requires RequestsOk(s) && SameClients(s, s') && NothingBegins(s, s') && s'.finished == s.finished
    requires OneEntry(s) && RunningUnfinished(s) && OneResult(s)
    ensures OneEntry(s') && RunningUnfinished(s') && OneResult(s')
  {
    hide RequestsOk, SameClients, CallOf;
    forall k, k' | Begun(s', k) && Begun(s', k') && CallOf(s', k) == CallOf(s', k') ensures k == k' {
      SameCall(s, s', k);
      SameCall(s, s', k');
    }
    forall k | k in s'.server.requests && s'.server.requests[k].progress == Running
      ensures Unfinished(s', CallOf(s', k)) {
      assert Begun(s', k);
      SameCall(s, s', k);
      assert Unfinished(s, CallOf(s, k));
    }
  }

  /** A packet that the server takes changes the request table and the stages only, and there it
      begins and removes nothing. */
  lemma HandledKeeps(s: State, key: Key, c: ClientId, p: Packet)
    ensures var h := Handled(s, key, c, p);
      && h == s.(server := h.server, stages := h.stages)
      && h.server.connections == s.server.connections
      && (forall k :: k in s.server.requests ==>
            k in h.server.requests && h.server.requests[k].progress == s.server.requests[k].progress
            && h.server.requests[k].payload == s.server.requests[k].payload
            && (s.server.requests[k].cancelled ==> h.server.requests[k].cancelled))
      && (forall k :: k in h.server.requests && k !in s.server.requests ==> h.server.requests[k].progress == Queued)
  {
    match p
    case Invoke(id, payload) =>
      QueueKeeps(s.server, (key, id), payload);
    case Cancel(id) =>
      CancelKeeps(s.server, (key, id));
  }

  lemma QueueKeeps(sv: ServerState, k: RequestKey, payload: seq<byte>)
    ensures var sv' := sv.QueueRequest(k, payload);
      && sv'.connections == sv.connections
      && (forall j :: j in sv.requests ==> j in sv'.requests && sv'.requests[j] == sv.requests[j])
      && (forall j :: j in sv'.requests && j !in sv.requests ==> sv'.requests[j].progress == Queued)
  {
  }

  lemma CancelKeeps(sv: ServerState, k: RequestKey)
    ensures var sv' := sv.CancelRequest(k);
      && sv'.connections == sv.connections && sv'.requests.Keys == sv.requests.Keys
      && (forall j :: j in sv.requests ==>
            sv'.requests[j].progress == sv.requests[j].progress && sv'.requests[j].payload == sv.requests[j].payload
            && (sv.requests[j].cancelled ==> sv'.requests[j].cancelled))
  {
  }

  lemma AcceptClients(s: State, conn: ConnId, key: Key)
    requires KeysOk(s) && WrappersOk(s) && Enabled(s, Accept(conn, key))
    ensures SameClients(s, Next(s, Accept(conn, key)))
  {
    AcceptKey(s, key);
  }

  lemma ReceiveClients(s: State, key: Key)
    requires Enabled(s, ServerReceive(key))
    ensures SameClients(s, Next(s, ServerReceive(key)))
  {
    hide Handled;
    var conn := s.server.connections[key].conn;
    var co := s.conns[conn];
    HandledKeeps(s.(conns := s.conns[conn := co.(up := co.up[1..])]), key, co.client, co.up[0]);
  }

  lemma LinkClients(s: State, step: Step)
    requires Enabled(s, step)
    requires step.Connect? || step.SendInvoke? || step.SendCancel? || step.Receive? || step.Cut? || step.ServerSend?
    ensures SameClients(s, Next(s, step)) && Next(s, step).server.requests == s.server.requests
    ensures Next(s, step).finished == s.finished
  {
    hide C.After;
  }

  lemma OtherClients(s: State, step: Step)
    requires Enabled(s, step)
    requires step.NewClient? || step.NewCall? || step.Local? || step.SendNothing? || step.Start? || step.Complete?
      || step.Deliver? || step.RemoveRequest? || step.RemoveConnection?
    ensures SameClients(s, Next(s, step))
  {
    hide C.After, ServerState.Deliver, ServerState.Progressed;
    assert Next(s, step).conns == s.conns && Next(s, step).owners == s.owners;
  }

  /** Connections keep their clients, and keys their connections. */
  lemma StepClients(s: State, step: Step)
    requires KeysOk(s) && WrappersOk(s) && Enabled(s, step)
    ensures SameClients(s, Next(s, step))
  {
    hide Enabled, Next, KeysOk, WrappersOk, SameClients;
    if step.Accept? {
      AcceptClients(s, step.conn, step.key);
    } else if step.ServerReceive? {
      ReceiveClients(s, step.key);
    } else if step.Connect? || step.SendInvoke? || step.SendCancel? || step.Receive? || step.Cut? || step.ServerSend? {
      LinkClients(s, step);
    } else {
      OtherClients(s, step);
    }
  }

  lemma ReceiveBegins(s: State, key: Key)
    requires Enabled(s, ServerReceive(key))
    ensures NothingBegins(s, Next(s, ServerReceive(key))) && Next(s, ServerReceive(key)).finished == s.finished
  {
    hide Handled;
    var conn := s.server.connections[key].conn;
    var co := s.conns[conn];
    HandledKeeps(s.(conns := s.conns[conn := co.(up := co.up[1..])]), key, co.client, co.up[0]);
  }

  lemma DeliverBegins(s: State, k: RequestKey)
    requires Enabled(s, Deliver(k))
    ensures NothingBegins(s, Next(s, Deliver(k))) && Next(s, Deliver(k)).finished == s.finished
  {
  }

  lemma OtherBegins(s: State, step: Step)
    requires Enabled(s, step)
    requires step.NewClient? || step.NewCall? || step.Local? || step.SendNothing? || step.Accept? || step.RemoveRequest?
      || step.RemoveConnection?
    ensures NothingBegins(s, Next(s, step)) && Next(s, step).finished == s.finished
  {
    hide C.After, IsNextKey;
  }

  /** Steps other than the start and the end of an execution. */
  lemma StepBegins(s: State, step: Step)
    requires Enabled(s, step) && !step.Start? && !step.Complete?
    ensures NothingBegins(s, Next(s, step)) && Next(s, step).finished == s.finished
  {
    hide Enabled, Next;
    if step.ServerReceive? {
      ReceiveBegins(s, step.key);
    } else if step.Deliver? {
      DeliverBegins(s, step.k);
    } else if step.Connect? || step.SendInvoke? || step.SendCancel? || step.Receive? || step.Cut? || step.ServerSend? {
      LinkClients(s, step);
    } else {
      OtherBegins(s, step);
    }
  }

  lemma StartResults(s: State, k: RequestKey)
    requires Invariant(s) && ResultsOk(s) && Enabled(s, Start(k))
    ensures OneEntry(Next(s, Start(k))) && RunningUnfinished(Next(s, Start(k))) && OneResult(Next(s, Start(k)))
  {
    hide ClientsOk, CallsOk, ConnsOk, RequestsOk, WrappersOk, KeysOk, RegisteredMade, CallOf;
    var s' := Next(s, Start(k));
    var call := CallOf(s, k);
    OneRequest(s, k);
    assert At(s, call, AtServer(k.0));
    forall j ensures CallOf(s', j) == CallOf(s, j) {
      SameOwners(s, s', j);
    }
    forall j | Begun(s, j) ensures CallOf(s, j) != call {
      OneRequest(s, j);
      assert At(s, CallOf(s, j), Started);
    }
    forall x | x in s.finished ensures x.0.call != call {
      var i :| 0 <= i < |s.started| && s.started[i] == x.0;
      assert At(s, s.started[i].call, Started);
    }
    forall j | j in s'.server.requests && s'.server.requests[j].progress == Running && j != k
      ensures Unfinished(s', CallOf(s', j)) {
      assert Unfinished(s, CallOf(s, j));
    }
  }

  lemma SameOwners(s: State, s': State, k: RequestKey)
    requires s'.owners == s.owners && s'.conns == s.conns
    ensures CallOf(s', k) == CallOf(s, k)
  {
  }

  lemma CompleteResults(s: State, k: RequestKey, response: seq<byte>)
    requires Invariant(s) && ResultsOk(s) && Enabled(s, Complete(k, response))
    ensures var s' := Next(s, Complete(k, response)); OneEntry(s') && RunningUnfinished(s') && OneResult(s')
  {
    hide Invariant, RegisteredMade, CallOf;
    var s' := Next(s, Complete(k, response));
    forall j ensures CallOf(s', j) == CallOf(s, j) {
      SameOwners(s, s', j);
    }
    assert Begun(s, k) && Unfinished(s, CallOf(s, k));
    forall j | j in s'.server.requests && s'.server.requests[j].progress == Running
      ensures Unfinished(s', CallOf(s', j)) {
      assert Begun(s, j) && Unfinished(s, CallOf(s, j));
      assert CallOf(s, j) != CallOf(s, k);
    }
  }

  lemma RegisteredAfter(cs: C.ClientState, e: C.Event)
    ensures C.After(cs, e).Registered() <= cs.Registered() + (if e.Register? then {e.id} else {})
  {
  }

  lemma ReceiveRegisters(s: State, conn: ConnId)
    requires RegisteredMade(s) && Enabled(s, Receive(conn))
    ensures RegisteredMade(Next(s, Receive(conn)))
  {
    hide C.After, C.ClientState.Registered;
    var co := s.conns[conn];
    RegisteredAfter(s.clients[co.client], C.SetResponse(co.down[0].id, co.down[0].data));
  }

  lemma LocalRegisters(s: State, c: ClientId, e: C.Event)
    requires RegisteredMade(s) && Enabled(s, Local(c, e))
    ensures RegisteredMade(Next(s, Local(c, e)))
  {
    hide C.After;
    RegisteredAfter(s.clients[c], e);
  }

  lemma MadeRegisters(s: State, step: Step)
    requires RegisteredMade(s) && Enabled(s, step) && (step.NewCall? || step.NewClient?)
    ensures RegisteredMade(Next(s, step))
  {
    hide C.ClientState.Registered;
    NothingRegistered();
    if step.NewCall? {
      NewCallRegisters(s, step.c, step.payload);
    }
  }

  lemma OtherRegisters(s: State, step: Step)
    requires Enabled(s, step) && !step.Receive? && !step.Local? && !step.NewCall? && !step.NewClient?
    ensures Next(s, step).clients == s.clients && Next(s, step).payloads == s.payloads
  {
    hide Handled, CallOf, ServerState.Deliver, ServerState.Progressed, IsNextKey;
    if step.ServerReceive? {
      var conn := s.server.connections[step.key].conn;
      var co := s.conns[conn];
      HandledKeeps(s.(conns := s.conns[conn := co.(up := co.up[1..])]), step.key, co.client, co.up[0]);
    }
  }

  lemma StepRegisters(s: State, step: Step)
    requires RegisteredMade(s) && Enabled(s, step)
    ensures RegisteredMade(Next(s, step))
  {
    hide Enabled, Next;
    if step.Receive? {
      ReceiveRegisters(s, step.conn);
    } else if step.Local? {
      LocalRegisters(s, step.c, step.e);
    } else if step.NewCall? || step.NewClient? {
      MadeRegisters(s, step);
    } else {
      OtherRegisters(s, step);
    }
  }

  lemma NothingRegistered()
    ensures C.NewClient.Registered() == {}
  {
  }

  lemma NewCallRegisters(s: State, c: ClientId, payload: seq<byte>)
    requires c in s.clients
    ensures s.clients[c].Advanced().Registered() == s.clients[c].Registered()
  {
  }

  lemma NextKeepsResults(s: State, step: Step)
    requires Invariant(s) && ResultsOk(s) && Enabled(s, step)
    ensures ResultsOk(Next(s, step))
  {
    hide Enabled, Next, OneEntry, RunningUnfinished, OneResult, RegisteredMade, SameClients, NothingBegins,
      ClientsOk, CallsOk, ConnsOk, RequestsOk, WrappersOk, KeysOk, StartedOk, FinishedOk;
    StepRegisters(s, step);
    match step {
      case Start(k) => StartResults(s, k);
      case Complete(k, response) => CompleteResults(s, k, response);
      case _ =>
        StepClients(s, step);
        StepBegins(s, step);
        EntriesStay(s, Next(s, step));
    }
  }

  lemma {:induction false} RunKeepsResults(s: State, steps: seq<Step>)
    requires Invariant(s) && ResultsOk(s)
    ensures Run(s, steps).Some? ==> Invariant(Run(s, steps).value) && ResultsOk(Run(s, steps).value)
    decreases |steps|
  {
    hide Invariant, ResultsOk, Enabled, Next;
    if steps != [] && Enabled(s, steps[0]) {
      NextKeepsInvariant(s, steps[0]);
      NextKeepsResults(s, steps[0]);
      RunKeepsResults(Next(s, steps[0]), steps[1..]);
    }
  }

  /** Every state that a run reaches. */
  lemma ReachableResults(s0: State, steps: seq<Step>)
    requires Initial(s0) && Run(s0, steps).Some?
    ensures Invariant(Run(s0, steps).value) && ResultsOk(Run(s0, steps).value)
  {
    hide Run;
    InitialInvariant(s0);
    assert ResultsOk(s0);
    RunKeepsResults(s0, steps);
  }

  // ----- Runs that go all the way -----

  function Repeat(step: Step, n: nat): (steps: seq<Step>)
    ensures |steps| == n
  {
    if n == 0 then [] else [step] + Repeat(step, n - 1)
  }

  /** One more step, and then the rest. */
  lemma RunFirst(s: State, step: Step, rest: seq<Step>)
    requires Enabled(s, step)
    ensures Run(s, [step] + rest) == Run(Next(s, step), rest)
  {
    hide Enabled, Next;
    assert ([step] + rest)[1..] == rest;
  }

  lemma RunNone(s: State)
    ensures Run(s, []) == Some(s)
  {
  }

  /** All that the steps send are these packets and these responses; and no connection breaks. */
  ghost predicate SendsOnly(s: State, steps: seq<Step>, packets: set<Packet>, replies: set<Reply>)
    decreases |steps|
  {
    steps != [] && Enabled(s, steps[0]) ==>
      SendsOf(s, steps[0], packets, replies) && SendsOnly(Next(s, steps[0]), steps[1..], packets, replies)
  }

  ghost predicate SendsOf(s: State, step: Step, packets: set<Packet>, replies: set<Reply>)
    requires Enabled(s, step)
  {
    match step
    case SendInvoke(c, id, _) => Invoke(id, s.payloads[(c, id)]) in packets
    case SendCancel(_, id, _) => Cancel(id) in packets
    case ServerSend(key, works) => works ==> s.server.connections[key].responses[0] in replies
    case Cut(_, _, _) => false
    case _ => true
  }

  lemma SendsFirst(s: State, step: Step, rest: seq<Step>, packets: set<Packet>, replies: set<Reply>)
    requires Enabled(s, step) && SendsOf(s, step, packets, replies) && SendsOnly(Next(s, step), rest, packets, replies)
    ensures SendsOnly(s, [step] + rest, packets, replies)
  {
    hide Enabled, Next, SendsOf;
    assert ([step] + rest)[1..] == rest;
  }

  lemma {:induction false} SendsThen(s: State, a: seq<Step>, b: seq<Step>, packets: set<Packet>, replies: set<Reply>)
    requires Run(s, a).Some? && SendsOnly(s, a, packets, replies) && SendsOnly(Run(s, a).value, b, packets, replies)
    ensures SendsOnly(s, a + b, packets, replies)
    decreases |a|
  {
    hide Enabled, Next, SendsOf;
    if a == [] {
      assert a + b == b;
    } else {
      assert (a + b)[0] == a[0] && (a + b)[1..] == a[1..] + b;
      SendsThen(Next(s, a[0]), a[1..], b, packets, replies);
    }
  }

  /** Reading sends nothing. */
  lemma {:induction false} ReadsSendNothing(s: State, step: Step, n: nat, packets: set<Packet>, replies: set<Reply>)
    requires step.ServerReceive? || step.Receive?
    ensures SendsOnly(s, Repeat(step, n), packets, replies)
    decreases n
  {
    hide Enabled, Next;
    if n > 0 && Enabled(s, step) {
      ReadsSendNothing(Next(s, step), step, n - 1, packets, replies);
      SendsFirst(s, step, Repeat(step, n - 1), packets, replies);
    }
  }

  function Waiting(s: State, key: Key): set<Reply>
    requires key in s.server.connections
  {
    set i | 0 <= i < |s.server.connections[key].responses| :: s.server.connections[key].responses[i]
  }

  /** All responses that wait at the server are on their way. */
  function AllSent(s: State, key: Key): State
    requires key in s.server.connections && s.server.connections[key].conn in s.conns
  {
    var w := s.server.connections[key];
    var co := s.conns[w.conn];
    s.(server := s.server.(connections := s.server.connections[key := w.(responses := [])]),
       conns := s.conns[w.conn := co.(down := co.down + w.responses)])
  }

  lemma SendsOne(s: State, key: Key)
    requires key in s.server.connections && s.server.connections[key].conn in s.conns
    requires s.server.connections[key].responses != []
    ensures Enabled(s, ServerSend(key, true))
    ensures var s', w := Next(s, ServerSend(key, true)), s.server.connections[key];
      && key in s'.server.connections && s'.server.connections[key] == w.(responses := w.responses[1..])
      && w.conn in s'.conns && AllSent(s', key) == AllSent(s, key) && w.responses[0] in Waiting(s, key)
      && Waiting(s', key) <= Waiting(s, key)
  {
    var w := s.server.connections[key];
    assert s.conns[w.conn].down + w.responses == (s.conns[w.conn].down + [w.responses[0]]) + w.responses[1..];
  }

  lemma NoneSent(s: State, key: Key)
    requires key in s.server.connections && s.server.connections[key].conn in s.conns
    requires s.server.connections[key].responses == []
    ensures AllSent(s, key) == s
  {
    var w := s.server.connections[key];
    var co := s.conns[w.conn];
    assert s.server.connections[key := w] == s.server.connections;
    assert co.down + [] == co.down && s.conns[w.conn := co] == s.conns;
  }

  lemma {:induction false} SendsAll(s: State, key: Key, packets: set<Packet>, replies: set<Reply>)
    requires key in s.server.connections && s.server.connections[key].conn in s.conns
    requires Waiting(s, key) <= replies
    ensures var sends := Repeat(ServerSend(key, true), |s.server.connections[key].responses|);
      Run(s, sends) == Some(AllSent(s, key)) && SendsOnly(s, sends, packets, replies)
    decreases |s.server.connections[key].responses|
  {
    hide Enabled, Next, AllSent;
    var w := s.server.connections[key];
    if w.responses == [] {
      NoneSent(s, key);
      RunNone(s);
    } else {
      SendsOne(s, key);
      SendsAll(Next(s, ServerSend(key, true)), key, packets, replies);
      RunFirst(s, ServerSend(key, true), Repeat(ServerSend(key, true), |w.responses| - 1));
      SendsFirst(s, ServerSend(key, true), Repeat(ServerSend(key, true), |w.responses| - 1), packets, replies);
    }
  }

  /** The client waits for this response, or has it. */
  ghost predicate Awaits(s: State, conn: ConnId, id: C.RequestId, response: seq<byte>) {
    && conn in s.conns && s.conns[conn].client in s.clients
    && var cs, down := s.clients[s.conns[conn].client], s.conns[conn].down;
    && cs.Consistent()
    && (forall i :: 0 <= i < |down| && down[i].id == id ==> down[i].data == response)
    && (Holds(cs, id, response) || (id in cs.pending && exists i :: 0 <= i < |down| && down[i].id == id))
  }

  ghost predicate Holds(cs: C.ClientState, id: C.RequestId, response: seq<byte>) {
    id in cs.outcomes && cs.outcomes[id] == Ok(response)
  }

  lemma HoldsMeans(cs: C.ClientState, id: C.RequestId, response: seq<byte>)
    requires Holds(cs, id, response)
    ensures id in cs.outcomes && cs.outcomes[id] == Ok(response)
  {
  }

  lemma ReceivesOne(s: State, conn: ConnId, id: C.RequestId, response: seq<byte>)
    requires Awaits(s, conn, id, response) && s.conns[conn].down != []
    ensures Enabled(s, Receive(conn))
    ensures var s' := Next(s, Receive(conn));
      Awaits(s', conn, id, response) && s' == s.(clients := s'.clients, conns := s'.conns)
      && s'.conns[conn] == s.conns[conn].(down := s.conns[conn].down[1..])
  {
    hide Holds, C.ClientState.Consistent, C.After, C.ClientState.Registered;
    var s', co := Next(s, Receive(conn)), s.conns[conn];
    var cs, reply := s.clients[co.client], co.down[0];
    ResponseResolves(cs, reply, id, response);
    assert forall i :: 0 <= i < |co.down| - 1 ==> co.down[1..][i] == co.down[i + 1];
    if id in s'.clients[co.client].pending {
      var i :| 0 <= i < |co.down| && co.down[i].id == id;
      assert i > 0 && s'.conns[conn].down[i - 1].id == id;
    }
  }

  lemma ResponseResolves(cs: C.ClientState, reply: Reply, id: C.RequestId, response: seq<byte>)
    requires cs.Consistent() && (reply.id == id ==> reply.data == response)
    requires id in cs.pending || Holds(cs, id, response)
    ensures var cs' := C.After(cs, C.SetResponse(reply.id, reply.data));
      cs'.Consistent() && ((id in cs'.pending && id in cs.pending && reply.id != id) || Holds(cs', id, response))
      && (Holds(cs', id, response) ==> id !in cs'.pending) && (Holds(cs, id, response) ==> id !in cs.pending)
  {
  }

  lemma {:induction false} ReceivesAll(s: State, conn: ConnId, id: C.RequestId, response: seq<byte>)
    requires Awaits(s, conn, id, response)
    ensures var r := Run(s, Repeat(Receive(conn), |s.conns[conn].down|));
      && r.Some? && r.value.started == s.started && r.value.payloads == s.payloads
      && s.conns[conn].client in r.value.clients && Holds(r.value.clients[s.conns[conn].client], id, response)
    decreases |s.conns[conn].down|
  {
    hide Enabled, Next;
    if s.conns[conn].down == [] {
      RunNone(s);
    } else {
      ReceivesOne(s, conn, id, response);
      var s' := Next(s, Receive(conn));
      ReceivesAll(s', conn, id, response);
      RunFirst(s, Receive(conn), Repeat(Receive(conn), |s.conns[conn].down| - 1));
    }
  }

  /** In every state a run reaches: an executed call, whose client still waits for it and whose
      connection is still up at the server, gets the response of its own execution, once the
      server has delivered and sent it and the client has read what is on the connection. */
  lemma AnswerArrives(s: State, k: RequestKey, packets: set<Packet>, replies: set<Reply>) returns (steps: seq<Step>)
    requires Invariant(s) && ResultsOk(s)
    requires k in s.server.requests && s.server.requests[k].progress.Done? && k.0 in s.server.connections
    requires var (c, id) := CallOf(s, k); c in s.clients && id in s.clients[c].pending
    ensures var r := Run(s, steps);
      && r.Some? && r.value.started == s.started && r.value.payloads == s.payloads
      && var (c, id) := CallOf(s, k);
         c in r.value.clients && id in r.value.clients[c].outcomes
         && r.value.clients[c].outcomes[id] == Ok(s.server.requests[k].progress.response)
    ensures Waiting(s, k.0) <= replies && Reply(k.1, s.server.requests[k].progress.response) in replies ==>
      SendsOnly(s, steps, packets, replies)
  {
    hide Enabled, Next, Run, Invariant, ResultsOk, Holds, SendsOnly, SendsOf, Waiting;
    var conn, response := s.server.connections[k.0].conn, s.server.requests[k].progress.response;
    Delivers(s, k);
    var s1 := Next(s, Deliver(k));
    NextKeepsInvariant(s, Deliver(k));
    NextKeepsResults(s, Deliver(k));
    var all := replies + Waiting(s1, k.0);
    SendsAll(s1, k.0, packets, all);
    var sends := Repeat(ServerSend(k.0, true), |s1.server.connections[k.0].responses|);
    RunKeepsResults(s1, sends);
    var s2 := AllSent(s1, k.0);
    WaitsForOwn(s, s2, k);
    ReceivesAll(s2, conn, k.1, response);
    HoldsMeans(Run(s2, Repeat(Receive(conn), |s2.conns[conn].down|)).value.clients[s2.conns[conn].client], k.1, response);
    var receives := Repeat(Receive(conn), |s2.conns[conn].down|);
    RpcSystem.RunThen(s1, sends, receives);
    RunFirst(s, Deliver(k), sends + receives);
    steps := [Deliver(k)] + (sends + receives);
    ReadsSendNothing(s2, Receive(conn), |s2.conns[conn].down|, packets, all);
    SendsThen(s1, sends, receives, packets, all);
    DeliverSendsNothing(s, k, packets, all);
    SendsFirst(s, Deliver(k), sends + receives, packets, all);
    if Waiting(s, k.0) <= replies && Reply(k.1, response) in replies {
      assert all == replies;
    }
  }

  lemma DeliverSendsNothing(s: State, k: RequestKey, packets: set<Packet>, replies: set<Reply>)
    requires Enabled(s, Deliver(k))
    ensures SendsOf(s, Deliver(k), packets, replies)
  {
  }

  lemma Delivers(s: State, k: RequestKey)
    requires Invariant(s) && k in s.server.requests && s.server.requests[k].progress.Done?
    requires k.0 in s.server.connections
    ensures Enabled(s, Deliver(k))
    ensures var s', w := Next(s, Deliver(k)), s.server.connections[k.0];
      && w.conn in s.conns && s'.clients == s.clients && s'.conns == s.conns && s'.finished == s.finished
      && s'.payloads == s.payloads && s'.started == s.started
      && k.0 in s'.server.connections && s'.server.connections[k.0].conn == w.conn
      && s'.server.connections[k.0].responses == w.responses + [Reply(k.1, s.server.requests[k].progress.response)]
      && CallOf(s, k) == (s.conns[w.conn].client, k.1)
      && Answered(s, CallOf(s, k), s.server.requests[k].progress.response)
      && Waiting(s', k.0) <= Waiting(s, k.0) + {Reply(k.1, s.server.requests[k].progress.response)}
  {
    hide ClientsOk, CallsOk, ConnsOk, KeysOk, StartedOk, FinishedOk, Answered;
    OneRequest(s, k);
    OneWrapper(s, k.0);
  }

  /** Whatever is on the connection under the id of the call is its one result. */
  lemma WaitsForOwn(s: State, s2: State, k: RequestKey)
    requires Invariant(s2) && ResultsOk(s2) && k in s.server.requests && s.server.requests[k].progress.Done?
    requires k.0 in s.server.connections && s.server.connections[k.0].conn in s.conns
    requires var conn := s.server.connections[k.0].conn;
      && conn in s2.conns && s2.conns[conn].client == s.conns[conn].client
      && s2.conns[conn].down != []
      && s2.conns[conn].down[|s2.conns[conn].down| - 1] == Reply(k.1, s.server.requests[k].progress.response)
      && s2.clients == s.clients && s2.payloads == s.payloads && s2.finished == s.finished
      && CallOf(s, k) == (s.conns[conn].client, k.1)
      && s.conns[conn].client in s.clients && k.1 in s.clients[s.conns[conn].client].pending
      && Answered(s, CallOf(s, k), s.server.requests[k].progress.response)
    ensures Awaits(s2, s.server.connections[k.0].conn, k.1, s.server.requests[k].progress.response)
  {
    hide CallsOk, RequestsOk, WrappersOk, KeysOk, StartedOk, FinishedOk, CallOf, UpOk, OneEntry, RunningUnfinished,
      RegisteredMade;
    var conn, response := s.server.connections[k.0].conn, s.server.requests[k].progress.response;
    OneConn(s2, conn);
    var c, down := s2.conns[conn].client, s2.conns[conn].down;
    assert ClientOk(s2, c);
    forall i | 0 <= i < |down| && down[i].id == k.1 ensures down[i].data == response {
      assert Answered(s2, (c, down[i].id), down[i].data);
    }
  }

  // ----- Requests and cancellations on their way up -----

  /** The server took `n` packets from a connection: requests it knew stay, and nothing else changes. */
  ghost predicate Took(s: State, s': State, key: Key, n: nat) {
    && key in s.server.connections && s.server.connections[key].conn in s.conns
    && var conn := s.server.connections[key].conn;
    && n <= |s.conns[conn].up|
    && s' == s.(server := s'.server, stages := s'.stages,
                conns := s.conns[conn := s.conns[conn].(up := s.conns[conn].up[n..])])
    && s'.server.connections == s.server.connections
    && forall k :: k in s.server.requests ==>
         k in s'.server.requests && s'.server.requests[k].progress == s.server.requests[k].progress
         && s'.server.requests[k].payload == s.server.requests[k].payload
         && (s.server.requests[k].cancelled ==> s'.server.requests[k].cancelled)
  }

  lemma TakesOne(s: State, key: Key)
    requires key in s.server.connections && s.server.connections[key].conn in s.conns
    requires s.conns[s.server.connections[key].conn].up != []
    ensures Enabled(s, ServerReceive(key)) && Took(s, Next(s, ServerReceive(key)), key, 1)
  {
    hide Handled;
    var conn := s.server.connections[key].conn;
    var co := s.conns[conn];
    HandledKeeps(s.(conns := s.conns[conn := co.(up := co.up[1..])]), key, co.client, co.up[0]);
  }

  lemma TookMore(s: State, s1: State, s2: State, key: Key, n: nat)
    requires Took(s, s1, key, 1) && Took(s1, s2, key, n)
    ensures Took(s, s2, key, n + 1)
  {
    var up := s.conns[s.server.connections[key].conn].up;
    assert up[1..][n..] == up[n + 1..];
  }

  lemma TookNone(s: State, key: Key)
    requires key in s.server.connections && s.server.connections[key].conn in s.conns
    ensures Took(s, s, key, 0)
  {
    var conn := s.server.connections[key].conn;
    assert s.conns[conn].up[0..] == s.conns[conn].up && s.conns[conn := s.conns[conn]] == s.conns;
  }

  lemma TookLeaves(s: State, s': State, key: Key, n: nat)
    requires Took(s, s', key, n)
    ensures key in s'.server.connections && s'.server.connections[key] == s.server.connections[key]
    ensures var conn := s.server.connections[key].conn;
      && conn in s.conns && conn in s'.conns && s'.conns[conn].client == s.conns[conn].client
      && n <= |s.conns[conn].up| && s'.conns[conn].up == s.conns[conn].up[n..]
    ensures s'.clients == s.clients && s'.started == s.started && s'.payloads == s.payloads && s'.owners == s.owners
  {
  }

  lemma {:induction false} TakesSome(s: State, key: Key, n: nat)
    requires Invariant(s) && ResultsOk(s) && key in s.server.connections && s.server.connections[key].conn in s.conns
    requires n <= |s.conns[s.server.connections[key].conn].up|
    ensures var r := Run(s, Repeat(ServerReceive(key), n));
      r.Some? && Invariant(r.value) && ResultsOk(r.value) && Took(s, r.value, key, n)
    decreases n
  {
    hide Enabled, Next, Invariant, ResultsOk, Took;
    if n == 0 {
      RunNone(s);
      TookNone(s, key);
    } else {
      TakesOne(s, key);
      var s1 := Next(s, ServerReceive(key));
      TookLeaves(s, s1, key, 1);
      NextKeepsInvariant(s, ServerReceive(key));
      NextKeepsResults(s, ServerReceive(key));
      TakesSome(s1, key, n - 1);
      TookMore(s, s1, Run(s1, Repeat(ServerReceive(key), n - 1)).value, key, n - 1);
      RunFirst(s, ServerReceive(key), Repeat(ServerReceive(key), n - 1));
    }
  }

  /** A request that arrives is always a new one, so it is queued as it is. */
  lemma RequestTaken(s: State, key: Key)
    requires Invariant(s) && Enabled(s, ServerReceive(key)) && s.conns[s.server.connections[key].conn].up[0].Invoke?
    ensures var s', p := Next(s, ServerReceive(key)), s.conns[s.server.connections[key].conn].up[0];
      (key, p.id) in s'.server.requests && s'.server.requests[(key, p.id)] == Request(p.payload, false, Queued)
  {
    hide ClientsOk, CallsOk, ConnsOk, RequestsOk, WrappersOk, KeysOk, StartedOk, FinishedOk;
    var conn := s.server.connections[key].conn;
    var p := s.conns[conn].up[0];
    OneConn(s, conn);
    OneWrapper(s, key);
    assert At(s, (s.conns[conn].client, p.id), InFlight(conn));
    if (key, p.id) in s.server.requests {
      OneRequest(s, (key, p.id));
    }
  }

  lemma CancelTaken(s: State, key: Key)
    requires Enabled(s, ServerReceive(key)) && s.conns[s.server.connections[key].conn].up[0].Cancel?
    ensures var s', k := Next(s, ServerReceive(key)), (key, s.conns[s.server.connections[key].conn].up[0].id);
      k in s.server.requests ==> k in s'.server.requests && s'.server.requests[k].cancelled
  {
  }

  lemma CancelSent(s: State, c: ClientId, id: C.RequestId, conn: ConnId)
    requires conn in s.conns && s.conns[conn].client == c
    ensures Enabled(s, SendCancel(c, id, conn))
    ensures var s' := Next(s, SendCancel(c, id, conn));
      && s' == s.(conns := s'.conns, cancels := s'.cancels)
      && s'.conns == s.conns[conn := s.conns[conn].(up := s.conns[conn].up + [Cancel(id)])]
  {
  }

  /** In every state a run reaches: when the client of a request sends its cancellation and the
      server reads what is on the connection, the request is marked, unless it was removed. */
  lemma CancelArrives(s: State, k: RequestKey) returns (steps: seq<Step>)
    requires Invariant(s) && ResultsOk(s) && k in s.server.requests && k.0 in s.server.connections
    ensures Run(s, steps).Some?
    ensures var s' := Run(s, steps).value;
      && k in s'.server.requests && s'.server.requests[k].cancelled
      && s'.server.requests[k].payload == s.server.requests[k].payload
      && s'.server.requests[k].progress == s.server.requests[k].progress
  {
    hide Enabled, Next, Run, Invariant, ResultsOk, Took;
    var conn := s.server.connections[k.0].conn;
    WrapperConn(s, k.0);
    var c, n, send := s.conns[conn].client, |s.conns[conn].up|, SendCancel(s.conns[conn].client, k.1, conn);
    CancelSent(s, c, k.1, conn);
    var s1 := Next(s, send);
    NextKeepsInvariant(s, send);
    NextKeepsResults(s, send);
    TakesSome(s1, k.0, n);
    var takes, take := Repeat(ServerReceive(k.0), n), ServerReceive(k.0);
    var s2 := Run(s1, takes).value;
    TookLeaves(s1, s2, k.0, n);
    TookKnown(s1, s2, k.0, n, k);
    TakesOne(s2, k.0);
    var s3 := Next(s2, take);
    TookKnown(s2, s3, k.0, 1, k);
    CancelTaken(s2, k.0);
    RunNone(s3);
    RunFirst(s2, take, []);
    RpcSystem.RunThen(s1, takes, [take] + []);
    RunFirst(s, send, takes + ([take] + []));
    steps := [send] + (takes + ([take] + []));
  }

  lemma TookKnown(s: State, s': State, key: Key, n: nat, k: RequestKey)
    requires Took(s, s', key, n) && k in s.server.requests
    ensures k in s'.server.requests && s'.server.requests[k].payload == s.server.requests[k].payload
    ensures s'.server.requests[k].progress == s.server.requests[k].progress
  {
  }

  lemma WrapperConn(s: State, key: Key)
    requires Invariant(s) && key in s.server.connections
    ensures s.server.connections[key].conn in s.conns
    ensures forall id: C.RequestId :: CallOf(s, (key, id)) == (s.conns[s.server.connections[key].conn].client, id)
  {
    hide ClientsOk, CallsOk, ConnsOk, RequestsOk, KeysOk, StartedOk, FinishedOk;
    OneWrapper(s, key);
  }

  // ----- A call from beginning to end -----

  lemma NotMadeYet(s: State, call: Call)
    requires CallsOk(s) && call.1 >= Issued(s, call.0)
    ensures call !in s.payloads
  {
    hide Issued;
  }

  /** The id of a client's next call was never registered by it. */
  lemma NextIdUnregistered(s: State, c: ClientId)
    requires Invariant(s) && ResultsOk(s) && c in s.clients && Issued(s, c) < C.REQUEST_IDS
    ensures s.clients[c].sequence !in s.clients[c].Registered()
  {
    hide ConnsOk, RequestsOk, WrappersOk, KeysOk, StartedOk, FinishedOk, OneEntry, RunningUnfinished, OneResult,
      C.ClientState.Registered, CallOk;
    var id := s.clients[c].sequence;
    assert ClientOk(s, c) && id == Issued(s, c);
    NotMadeYet(s, (c, id));
  }

  function Asking(c: ClientId, id: C.RequestId, payload: seq<byte>, deadline: Option<C.Time>, conn: ConnId): seq<Step> {
    [NewCall(c, payload)] + ([Local(c, C.Register(id, deadline))] + ([SendInvoke(c, id, conn)] + []))
  }

  lemma CallMade(s: State, c: ClientId, payload: seq<byte>, deadline: Option<C.Time>)
    requires c in s.clients && Issued(s, c) < C.REQUEST_IDS && s.clients[c].sequence !in s.clients[c].Registered()
    ensures var id := s.clients[c].sequence;
      && Enabled(s, NewCall(c, payload)) && Enabled(Next(s, NewCall(c, payload)), Local(c, C.Register(id, deadline)))
      && var s' := Next(Next(s, NewCall(c, payload)), Local(c, C.Register(id, deadline)));
         && s'.server == s.server && s'.conns == s.conns && s'.started == s.started
         && c in s'.clients && id in s'.clients[c].pending
         && (c, id) in s'.payloads && s'.payloads[(c, id)] == payload
         && (c, id) in s'.stages && s'.stages[(c, id)] == Unsent
  {
    hide C.ClientState.Registered;
    NewCallRegisters(s, c, payload);
  }

  lemma Asks(s: State, c: ClientId, payload: seq<byte>, deadline: Option<C.Time>, conn: ConnId, replies: set<Reply>)
    requires c in s.clients && Issued(s, c) < C.REQUEST_IDS && s.clients[c].sequence !in s.clients[c].Registered()
    requires conn in s.conns && s.conns[conn].client == c
    ensures var id := s.clients[c].sequence;
      var r := Run(s, Asking(c, id, payload, deadline, conn));
      && r.Some? && r.value.server == s.server && r.value.started == s.started
      && c in r.value.clients && id in r.value.clients[c].pending
      && r.value.conns == s.conns[conn := s.conns[conn].(up := s.conns[conn].up + [Invoke(id, payload)])]
      && SendsOnly(s, Asking(c, id, payload, deadline, conn), {Invoke(id, payload)}, replies)
  {
    hide Run, Enabled, Next, C.ClientState.Registered, SendsOnly;
    var id := s.clients[c].sequence;
    CallMade(s, c, payload, deadline);
    var s1 := Next(s, NewCall(c, payload));
    var s2 := Next(s1, Local(c, C.Register(id, deadline)));
    InvokeSent(s2, c, id, conn);
    var s3 := Next(s2, SendInvoke(c, id, conn));
    RunNone(s3);
    RunFirst(s2, SendInvoke(c, id, conn), []);
    RunFirst(s1, Local(c, C.Register(id, deadline)), [SendInvoke(c, id, conn)] + []);
    RunFirst(s, NewCall(c, payload), [Local(c, C.Register(id, deadline))] + ([SendInvoke(c, id, conn)] + []));
    NothingSent(s3, {Invoke(id, payload)}, replies);
    SendsFirst(s2, SendInvoke(c, id, conn), [], {Invoke(id, payload)}, replies);
    SendsFirst(s1, Local(c, C.Register(id, deadline)), [SendInvoke(c, id, conn)] + [], {Invoke(id, payload)}, replies);
    SendsFirst(s, NewCall(c, payload), [Local(c, C.Register(id, deadline))] + ([SendInvoke(c, id, conn)] + []),
               {Invoke(id, payload)}, replies);
  }

  lemma NothingSent(s: State, packets: set<Packet>, replies: set<Reply>)
    ensures SendsOnly(s, [], packets, replies)
  {
  }

  lemma InvokeSent(s: State, c: ClientId, id: C.RequestId, conn: ConnId)
    requires (c, id) in s.payloads && (c, id) in s.stages && s.stages[(c, id)] == Unsent
    requires conn in s.conns && s.conns[conn].client == c
    ensures Enabled(s, SendInvoke(c, id, conn))
    ensures var s' := Next(s, SendInvoke(c, id, conn));
      && s' == s.(conns := s'.conns, stages := s'.stages)
      && s'.conns == s.conns[conn := s.conns[conn].(up := s.conns[conn].up + [Invoke(id, s.payloads[(c, id)])])]
  {
  }

  lemma Executes(s: State, k: RequestKey, payload: seq<byte>, response: seq<byte>)
    requires k in s.server.requests && s.server.requests[k] == Request(payload, false, Queued)
    ensures Enabled(s, Start(k)) && Enabled(Next(s, Start(k)), Complete(k, response))
    ensures var s' := Next(Next(s, Start(k)), Complete(k, response));
      && k in s'.server.requests && s'.server.requests[k].progress == Done(response)
      && s'.started == s.started + [Execution(CallOf(s, k), payload)]
      && s'.clients == s.clients && s'.server.connections == s.server.connections && CallOf(s', k) == CallOf(s, k)
  {
  }

  /** In every state a run reaches, a client that has ids left and a connection the server knows
      can make a call with any arguments: it can be executed, once and with these arguments, and
      whatever the execution returns can come back as the outcome of that call. */
  lemma CallIsAnswered(s: State, c: ClientId, payload: seq<byte>, deadline: Option<C.Time>, key: Key, response: seq<byte>)
    returns (steps: seq<Step>)
    requires Invariant(s) && ResultsOk(s) && c in s.clients && Issued(s, c) < C.REQUEST_IDS
    requires key in s.server.connections && CallOf(s, (key, 0)).0 == c
    ensures var r, id := Run(s, steps), s.clients[c].sequence;
      && r.Some? && r.value.started == s.started + [Execution((c, id), payload)]
      && c in r.value.clients && id in r.value.clients[c].outcomes && r.value.clients[c].outcomes[id] == Ok(response)
      && SendsOnly(s, steps, {Invoke(id, payload)}, Waiting(s, key) + {Reply(id, response)})
  {
    hide Enabled, Next, Run, Invariant, ResultsOk, Took, CallOf, Issued, Asking, SendsOnly, SendsOf, Waiting;
    var packets, replies := {Invoke(s.clients[c].sequence, payload)}, Waiting(s, key) + {Reply(s.clients[c].sequence, response)};
    var conn, id := s.server.connections[key].conn, s.clients[c].sequence;
    WrapperConn(s, key);
    NextIdUnregistered(s, c);
    Asks(s, c, payload, deadline, conn, replies);
    var asking := Asking(c, id, payload, deadline, conn);
    RunKeepsResults(s, asking);
    var s1, n := Run(s, asking).value, |s.conns[conn].up|;
    TakesSome(s1, key, n);
    var takes := Repeat(ServerReceive(key), n);
    var s2 := Run(s1, takes).value;
    TookLeaves(s1, s2, key, n);
    var more := Served(s2, key, c, id, payload, response, packets, replies);
    RpcSystem.RunThen(s1, takes, more);
    RpcSystem.RunThen(s, asking, takes + more);
    steps := asking + (takes + more);
    SameWaiting(s, s2, key);
    ReadsSendNothing(s1, ServerReceive(key), n, packets, replies);
    SendsThen(s1, takes, more, packets, replies);
    SendsThen(s, asking, takes + more, packets, replies);
  }

  /** The server reads the request, executes it and answers it. */
  lemma Served(s: State, key: Key, c: ClientId, id: C.RequestId, payload: seq<byte>, response: seq<byte>,
               packets: set<Packet>, replies: set<Reply>)
    returns (steps: seq<Step>)
    requires Invariant(s) && ResultsOk(s) && key in s.server.connections && s.server.connections[key].conn in s.conns
    requires s.conns[s.server.connections[key].conn].up == [Invoke(id, payload)]
    requires s.conns[s.server.connections[key].conn].client == c
    requires c in s.clients && id in s.clients[c].pending
    ensures var r := Run(s, steps);
      && r.Some? && r.value.started == s.started + [Execution((c, id), payload)]
      && c in r.value.clients && id in r.value.clients[c].outcomes && r.value.clients[c].outcomes[id] == Ok(response)
    ensures Waiting(s, key) <= replies && Reply(id, response) in replies ==> SendsOnly(s, steps, packets, replies)
  {
    hide Enabled, Next, Run, Invariant, ResultsOk, Took, CallOf, SendsOnly, SendsOf, Waiting;
    var k := (key, id);
    var take, start, complete := ServerReceive(key), Start(k), Complete(k, response);
    TakesOne(s, key);
    RequestTaken(s, key);
    var s1 := Next(s, take);
    TookLeaves(s, s1, key, 1);
    NextKeepsInvariant(s, take);
    NextKeepsResults(s, take);
    WrapperConn(s1, key);
    Executes(s1, k, payload, response);
    var s2 := Next(s1, start);
    NextKeepsInvariant(s1, start);
    NextKeepsResults(s1, start);
    var s3 := Next(s2, complete);
    NextKeepsInvariant(s2, complete);
    NextKeepsResults(s2, complete);
    var answer := AnswerArrives(s3, k, packets, replies);
    RunFirst(s2, complete, answer);
    RunFirst(s1, start, [complete] + answer);
    RunFirst(s, take, [start] + ([complete] + answer));
    steps := [take] + ([start] + ([complete] + answer));
    SameWaiting(s, s3, key);
    if Waiting(s, key) <= replies && Reply(id, response) in replies {
      ServingSendsNothing(s, key, k, response, packets, replies);
      SendsFirst(s2, complete, answer, packets, replies);
      SendsFirst(s1, start, [complete] + answer, packets, replies);
      SendsFirst(s, take, [start] + ([complete] + answer), packets, replies);
    }
  }

  lemma SameWaiting(s: State, s': State, key: Key)
    requires key in s.server.connections && key in s'.server.connections
    requires s'.server.connections[key] == s.server.connections[key]
    ensures Waiting(s', key) == Waiting(s, key)
  {
  }

  lemma ServingSendsNothing(s: State, key: Key, k: RequestKey, response: seq<byte>, packets: set<Packet>, replies: set<Reply>)
    requires Enabled(s, ServerReceive(key)) && Enabled(Next(s, ServerReceive(key)), Start(k))
    requires Enabled(Next(Next(s, ServerReceive(key)), Start(k)), Complete(k, response))
    ensures SendsOf(s, ServerReceive(key), packets, replies)
    ensures SendsOf(Next(s, ServerReceive(key)), Start(k), packets, replies)
    ensures SendsOf(Next(Next(s, ServerReceive(key)), Start(k)), Complete(k, response), packets, replies)
  {
    hide Enabled, Next;
  }
}
