/** Clients, connections and a server together (src/arpc/client.h, src/arpc/server.h), as a
    transition system: every critical section is one step, and steps of all threads and
    processes interleave freely.  A connection is a pair of packet queues that may lose what is
    still in flight at any time; clients may connect anew at any time.  RpcBytes refines these
    queues to byte streams and packet protocols.

    The theorem: a call that is answered is answered with the result of executing that very
    call, and no call is executed twice. */
module RpcSystem {
  import opened Results
  import opened Streams
  import opened Client
  import opened Server

  type ClientId = nat

  /** A call is known by the client that made it and the request id it got there. */
  type Call = (ClientId, RequestId)

  datatype Packet = Invoke(id: RequestId, payload: seq<byte>) | Cancel(id: RequestId)

  datatype Connection = Connection(client: ClientId, up: seq<Packet>, down: seq<Reply>, accepted: bool)

  /** Where the one request packet of a call is. */
  datatype Stage = Unsent | InFlight(conn: ConnId) | AtServer(key: Key) | Started | Lost

  datatype Execution = Execution(call: Call, payload: seq<byte>)

  /** Besides the live state: for every client how many ids it issued, for every call its payload
      and stage, the calls whose cancellation was sent, for every key ever given out its connection, and the log of executions. */
  datatype State = State(clients: map<ClientId, ClientState>,
                         issued: map<ClientId, nat>,
                         server: ServerState,
                         conns: map<ConnId, Connection>,
                         payloads: map<Call, seq<byte>>,
                         stages: map<Call, Stage>,
                         owners: map<Key, ConnId>,
                         accepted: nat,
                         cancels: set<Call>,
                         started: seq<Execution>,
                         finished: set<(Execution, seq<byte>)>)

  datatype Step =
    | NewClient(c: ClientId)
    | Connect(conn: ConnId, c: ClientId)
    | NewCall(c: ClientId, payload: seq<byte>)            // new_request_id, and serialize
    | Local(c: ClientId, e: Event)                        // critical sections other than set_response
    | SendInvoke(c: ClientId, id: RequestId, conn: ConnId)
    | SendNothing(c: ClientId, id: RequestId)             // send failed before the packet got out
    | SendCancel(c: ClientId, id: RequestId, conn: ConnId)
    | Receive(conn: ConnId)                               // the client reads a packet
    | Cut(conn: ConnId, up: nat, down: nat)               // packets in flight are lost
    | Accept(conn: ConnId, key: Key)
    | ServerReceive(key: Key)
    | Start(k: RequestKey)
    | Complete(k: RequestKey, response: seq<byte>)        // with whatever the method returned
    | Deliver(k: RequestKey)
    | RemoveRequest(k: RequestKey)
    | ServerSend(key: Key, works: bool)
    | RemoveConnection(key: Key)

  /** Steps the source can take, with two bounds: a client issues fewer than 2^32 request ids, and
      the server accepts fewer than 2^64 connections. */
  ghost predicate Enabled(s: State, step: Step) {
    match step
    case NewClient(c) => c !in s.clients
    case Connect(conn, c) => c in s.clients && conn !in s.conns
    case NewCall(c, _) => c in s.clients && Issued(s, c) < REQUEST_IDS
    case Local(c, e) =>
      c in s.clients && !e.SetResponse?
      && (e.Register? ==> (c, e.id) in s.payloads && e.id !in s.clients[c].Registered())
    case SendInvoke(c, id, conn) =>
      (c, id) in s.payloads && (c, id) in s.stages && s.stages[(c, id)] == Unsent
      && conn in s.conns && s.conns[conn].client == c
    case SendNothing(c, id) => (c, id) in s.stages && s.stages[(c, id)] == Unsent
    case SendCancel(c, id, conn) => conn in s.conns && s.conns[conn].client == c
    case Receive(conn) => conn in s.conns && s.conns[conn].down != [] && s.conns[conn].client in s.clients
    case Cut(conn, up, down) => conn in s.conns && up <= |s.conns[conn].up| && down <= |s.conns[conn].down|
    case Accept(conn, key) =>
      conn in s.conns && !s.conns[conn].accepted && s.accepted < KEYS - 1
      && IsNextKey(s.server.nextKey, s.server.connections.Keys, key)
    case ServerReceive(key) =>
      key in s.server.connections
      && var conn := s.server.connections[key].conn; conn in s.conns && s.conns[conn].up != []
    case Start(k) => k in s.server.requests && s.server.requests[k].progress == Queued
    case Complete(k, _) => k in s.server.requests && s.server.requests[k].progress == Running
    case Deliver(k) => k in s.server.requests && s.server.requests[k].progress.Done?
    case RemoveRequest(k) => k in s.server.requests && s.server.requests[k].progress.Delivered?
    case ServerSend(key, _) =>
      key in s.server.connections && s.server.connections[key].responses != []
      && s.server.connections[key].conn in s.conns
    case RemoveConnection(key) => key in s.server.connections
  }

  /** The call that a request table entry stands for. */
  function CallOf(s: State, k: RequestKey): Call {
    (if k.0 in s.owners && s.owners[k.0] in s.conns then s.conns[s.owners[k.0]].client else 0, k.1)
  }

  function Issued(s: State, c: ClientId): nat {
    if c in s.issued then s.issued[c] else 0
  }

  function WithClient(s: State, c: ClientId, cs: ClientState): State {
    s.(clients := s.clients[c := cs])
  }

  function Pushed(s: State, conn: ConnId, p: Packet): State
    requires conn in s.conns
  {
    s.(conns := s.conns[conn := s.conns[conn].(up := s.conns[conn].up + [p])])
  }

  function WithStage(s: State, call: Call, stage: Stage): State {
    s.(stages := s.stages[call := stage])
  }

  /** What the server does with a packet from the client of a connection. */
  function Handled(s: State, key: Key, c: ClientId, p: Packet): State {
    match p
    case Invoke(id, payload) =>
      WithStage(s.(server := s.server.QueueRequest((key, id), payload)), (c, id),
                if (key, id) in s.server.requests then Lost else AtServer(key))
    case Cancel(id) => s.(server := s.server.CancelRequest((key, id)))
  }

  /** What a client does with a response. */
  function Responded(s: State, c: ClientId, reply: Reply): State
    requires c in s.clients
  {
    WithClient(s, c, After(s.clients[c], SetResponse(reply.id, reply.data)))
  }

  function Next(s: State, step: Step): State
    requires Enabled(s, step)
  {
    match step
    case NewClient(c) => s.(clients := s.clients[c := Client.NewClient], issued := s.issued[c := 0])
    case Connect(conn, c) => s.(conns := s.conns[conn := Connection(c, [], [], false)])
    case NewCall(c, payload) =>
      var cs := s.clients[c];
      var call := (c, cs.sequence);
      WithClient(s, c, cs.Advanced()).(issued := s.issued[c := Issued(s, c) + 1],
                                       payloads := s.payloads[call := payload],
                                       stages := s.stages[call := Unsent])
    case Local(c, e) => WithClient(s, c, After(s.clients[c], e))
    case SendInvoke(c, id, conn) =>
      WithStage(Pushed(s, conn, Invoke(id, s.payloads[(c, id)])), (c, id), InFlight(conn))
    case SendNothing(c, id) => WithStage(s, (c, id), Lost)
    case SendCancel(c, id, conn) => Pushed(s, conn, Cancel(id)).(cancels := s.cancels + {(c, id)})
    case Receive(conn) =>
      var co := s.conns[conn];
      Responded(s.(conns := s.conns[conn := co.(down := co.down[1..])]), co.client, co.down[0])
    case Cut(conn, up, down) =>
      var co := s.conns[conn];
      s.(conns := s.conns[conn := co.(up := co.up[..up], down := co.down[..down])])
    case Accept(conn, key) =>
      s.(conns := s.conns[conn := s.conns[conn].(accepted := true)],
         server := s.server.Connected(key, conn), owners := s.owners[key := conn], accepted := s.accepted + 1)
    case ServerReceive(key) =>
      var conn := s.server.connections[key].conn;
      var co := s.conns[conn];
      Handled(s.(conns := s.conns[conn := co.(up := co.up[1..])]), key, co.client, co.up[0])
    case Start(k) =>
      WithStage(s.(server := s.server.Progressed(k, Running),
                   started := s.started + [Execution(CallOf(s, k), s.server.requests[k].payload)]),
                CallOf(s, k), Started)
    case Complete(k, response) =>
      s.(server := s.server.Progressed(k, Done(response)),
         finished := s.finished + {(Execution(CallOf(s, k), s.server.requests[k].payload), response)})
    case Deliver(k) => s.(server := s.server.Deliver(k))
    case RemoveRequest(k) => s.(server := s.server.RemoveRequest(k))
    case ServerSend(key, works) =>
      var w := s.server.connections[key];
      var co := s.conns[w.conn];
      s.(server := s.server.Sent(key),
         conns := if works then s.conns[w.conn := co.(down := co.down + [w.responses[0]])] else s.conns)
    case RemoveConnection(key) => s.(server := s.server.Removed(key))
  }

  ghost predicate Initial(s: State) {
    && s.clients == map[] && s.issued == map[] && s.server == NewServer && s.conns == map[] && s.payloads == map[]
    && s.stages == map[] && s.owners == map[] && s.accepted == 0 && s.cancels == {} && s.started == [] && s.finished == {}
  }

  /** The state that `steps` leads to, if each of them is enabled when it is taken. */
  ghost function Run(s: State, steps: seq<Step>): Option<State>
    decreases |steps|
  {
    if steps == [] then Some(s)
    else if !Enabled(s, steps[0]) then None
    else Run(Next(s, steps[0]), steps[1..])
  }

  // ----- The invariant -----

  /** `data` is a result of executing this very call. */
  ghost predicate Answered(s: State, call: Call, data: seq<byte>) {
    call in s.payloads && (Execution(call, s.payloads[call]), data) in s.finished
  }

  ghost predicate At(s: State, call: Call, stage: Stage) {
    call in s.payloads && call in s.stages && s.stages[call] == stage
  }

  ghost predicate ClientOk(s: State, c: ClientId)
    requires c in s.clients
  {
    && Issued(s, c) <= REQUEST_IDS
    && s.clients[c].sequence == Issued(s, c) % REQUEST_IDS
    && s.clients[c].Consistent()
    && forall id :: id in s.clients[c].outcomes && s.clients[c].outcomes[id].Ok? ==>
         Answered(s, (c, id), s.clients[c].outcomes[id].value)
  }

  ghost predicate CallOk(s: State, call: Call)
    requires call in s.payloads
  {
    call in s.stages && call.0 in s.clients && call.1 < Issued(s, call.0)
  }

  ghost predicate ConnOk(s: State, conn: ConnId)
    requires conn in s.conns
  {
    var co := s.conns[conn];
    && co.client in s.clients
    && UpOk(s, conn, co.client, co.up)
    && forall i :: 0 <= i < |co.down| ==> Answered(s, (co.client, co.down[i].id), co.down[i].data)
  }

  ghost predicate UpOk(s: State, conn: ConnId, c: ClientId, up: seq<Packet>) {
    && (forall i :: 0 <= i < |up| && up[i].Invoke? ==>
          At(s, (c, up[i].id), InFlight(conn)) && up[i].payload == s.payloads[(c, up[i].id)])
    && (forall i, j :: 0 <= i < j < |up| && up[i].Invoke? && up[j].Invoke? ==> up[i].id != up[j].id)
    && (forall i :: 0 <= i < |up| && up[i].Cancel? ==> (c, up[i].id) in s.cancels)
  }

  ghost predicate RequestOk(s: State, k: RequestKey)
    requires k in s.server.requests
  {
    && k.0 in s.owners && s.owners[k.0] in s.conns
    && var call, r := CallOf(s, k), s.server.requests[k];
    && At(s, call, if r.progress == Queued then AtServer(k.0) else Started)
    && r.payload == s.payloads[call]
    && (r.cancelled ==> call in s.cancels)
    && (r.progress == Running ==> Execution(call, r.payload) in s.started)
    && (r.progress.Done? ==> Answered(s, call, r.progress.response))
  }

  ghost predicate KeyOk(s: State, key: Key)
    requires key in s.owners
  {
    0 < key <= s.accepted && s.owners[key] in s.conns
  }

  ghost predicate WrapperOk(s: State, key: Key)
    requires key in s.server.connections
  {
    var w := s.server.connections[key];
    && key in s.owners && s.owners[key] == w.conn && w.conn in s.conns
    && forall i :: 0 <= i < |w.responses| ==>
         Answered(s, (s.conns[w.conn].client, w.responses[i].id), w.responses[i].data)
  }

  ghost predicate StartedOk(s: State) {
    && (forall i :: 0 <= i < |s.started| ==>
          At(s, s.started[i].call, Started) && s.started[i].payload == s.payloads[s.started[i].call])
    && (forall i, j :: 0 <= i < j < |s.started| ==> s.started[i].call != s.started[j].call)
  }

  ghost predicate FinishedOk(s: State) {
    forall x :: x in s.finished ==> x.0 in s.started
  }

  ghost predicate ClientsOk(s: State) { forall c :: c in s.clients ==> ClientOk(s, c) }
  ghost predicate CallsOk(s: State) { forall call :: call in s.payloads ==> CallOk(s, call) }
  ghost predicate ConnsOk(s: State) { forall conn :: conn in s.conns ==> ConnOk(s, conn) }
  ghost predicate RequestsOk(s: State) { forall k :: k in s.server.requests ==> RequestOk(s, k) }
  ghost predicate KeysOk(s: State) {
    && s.server.nextKey == s.accepted < KEYS
    && forall key :: key in s.owners ==> KeyOk(s, key)
  }
  ghost predicate WrappersOk(s: State) { forall key :: key in s.server.connections ==> WrapperOk(s, key) }

  ghost predicate Invariant(s: State) {
    ClientsOk(s) && CallsOk(s) && ConnsOk(s) && RequestsOk(s) && KeysOk(s) && WrappersOk(s) && StartedOk(s) && FinishedOk(s)
  }

  // ----- Each step keeps it -----

  /** What was answered stays answered. */
  ghost predicate Grows(s: State, s': State) {
    && (forall call :: call in s.payloads ==> call in s'.payloads && s'.payloads[call] == s.payloads[call])
    && s.finished <= s'.finished && s.cancels <= s'.cancels
  }

  lemma AnsweredStays(s: State, s': State, call: Call, data: seq<byte>)
    requires Grows(s, s') && Answered(s, call, data)
    ensures Answered(s', call, data)
  {
  }

  lemma ClientsKeep(s: State, s': State)
    requires ClientsOk(s) && Grows(s, s') && s'.clients == s.clients && s'.issued == s.issued
    ensures ClientsOk(s')
  {
    forall c | c in s'.clients ensures ClientOk(s', c) {
      assert ClientOk(s, c);
    }
  }

  lemma ClientsKeepOthers(s: State, s': State, c: ClientId)
    requires ClientsOk(s) && Grows(s, s') && c in s'.clients && ClientOk(s', c)
    requires forall c' :: c' in s'.clients && c' != c ==>
      c' in s.clients && s'.clients[c'] == s.clients[c'] && Issued(s', c') == Issued(s, c')
    ensures ClientsOk(s')
  {
    forall c' | c' in s'.clients && c' != c ensures ClientOk(s', c') {
      assert ClientOk(s, c');
    }
  }

  /** Only `call` changed its stage, and no longer has the stage it had. */
  ghost predicate StagesKeep(s: State, s': State, call: Call, was: Stage) {
    forall x, stage :: At(s, x, stage) && !(x == call && stage == was) ==> At(s', x, stage)
  }

  lemma ConnKeeps(s: State, s': State, conn: ConnId, call: Call, was: Stage)
    requires conn in s.conns && ConnOk(s, conn) && Grows(s, s') && s.clients.Keys <= s'.clients.Keys
    requires conn in s'.conns && s'.conns[conn].client == s.conns[conn].client
    requires s'.conns[conn].up == s.conns[conn].up && s'.conns[conn].down == s.conns[conn].down
    requires StagesKeep(s, s', call, was) && was != InFlight(conn)
    ensures ConnOk(s', conn)
  {
    hide Answered;
    var co := s.conns[conn];
    DownKeeps(s, s', co.client, co.down);
    forall i | 0 <= i < |co.up| && co.up[i].Invoke?
      ensures At(s', (co.client, co.up[i].id), InFlight(conn)) && co.up[i].payload == s'.payloads[(co.client, co.up[i].id)] {
      assert At(s, (co.client, co.up[i].id), InFlight(conn));
    }
  }

  ghost predicate DownOk(s: State, c: ClientId, down: seq<Reply>) {
    forall i :: 0 <= i < |down| ==> Answered(s, (c, down[i].id), down[i].data)
  }

  lemma DownKeeps(s: State, s': State, c: ClientId, down: seq<Reply>)
    requires DownOk(s, c, down) && Grows(s, s')
    ensures DownOk(s', c, down)
  {
    hide Answered, Grows;
    forall i | 0 <= i < |down| ensures Answered(s', (c, down[i].id), down[i].data) {
      AnsweredStays(s, s', (c, down[i].id), down[i].data);
    }
  }

  /** All connections but those in `but` are as they were, and those are in order. */
  lemma ConnsKeep(s: State, s': State, call: Call, was: Stage, but: set<ConnId>)
    requires ConnsOk(s) && Grows(s, s') && s.clients.Keys <= s'.clients.Keys && StagesKeep(s, s', call, was)
    requires was.InFlight? ==> was.conn in but
    requires forall conn :: conn in s'.conns && conn !in but ==> conn in s.conns && SameConn(s, s', conn)
    requires forall conn :: conn in s'.conns && conn in but ==> ConnOk(s', conn)
    ensures ConnsOk(s')
  {
    hide ConnOk, Grows, StagesKeep;
    forall conn | conn in s'.conns ensures ConnOk(s', conn) {
      if conn !in but {
        ConnKeeps(s, s', conn, call, was);
      }
    }
  }

  ghost predicate SameConn(s: State, s': State, conn: ConnId)
    requires conn in s.conns && conn in s'.conns
  {
    && s'.conns[conn].client == s.conns[conn].client
    && s'.conns[conn].up == s.conns[conn].up && s'.conns[conn].down == s.conns[conn].down
  }

  /** Connections never change hands. */
  ghost predicate SameClients(s: State, s': State) {
    && (forall conn :: conn in s.conns ==> conn in s'.conns && s'.conns[conn].client == s.conns[conn].client)
    && (forall key :: key in s.owners ==> key in s'.owners && s'.owners[key] == s.owners[key])
  }

  lemma RequestKeeps(s: State, s': State, k: RequestKey, call: Call, was: Stage)
    requires k in s.server.requests && RequestOk(s, k) && Grows(s, s') && SameClients(s, s')
    requires k in s'.server.requests && s'.server.requests[k].payload == s.server.requests[k].payload
    requires s'.server.requests[k].progress == s.server.requests[k].progress
    requires s'.server.requests[k].cancelled == s.server.requests[k].cancelled
    requires StagesKeep(s, s', call, was) && was != Started && (was == AtServer(k.0) ==> call != CallOf(s, k))
    requires forall x :: x in s.started ==> x in s'.started
    ensures RequestOk(s', k)
  {
    hide Answered;
    var r := s.server.requests[k];
    assert CallOf(s', k) == CallOf(s, k);
    if r.progress.Done? {
      AnsweredStays(s, s', CallOf(s, k), r.progress.response);
    }
  }

  ghost predicate SameRequest(s: State, s': State, k: RequestKey)
    requires k in s.server.requests && k in s'.server.requests
  {
    && s'.server.requests[k].payload == s.server.requests[k].payload
    && s'.server.requests[k].progress == s.server.requests[k].progress
    && s'.server.requests[k].cancelled == s.server.requests[k].cancelled
  }

  /** All requests but those in `but` are as they were, and those are in order. */
  lemma RequestsKeep(s: State, s': State, call: Call, was: Stage, but: set<RequestKey>)
    requires RequestsOk(s) && Grows(s, s') && SameClients(s, s') && StagesKeep(s, s', call, was)
    requires was != Started
    requires was.AtServer? ==> forall k :: k in s'.server.requests && k !in but && k.0 == was.key ==> call != CallOf(s, k)
    requires forall k :: k in s'.server.requests && k !in but ==> k in s.server.requests && SameRequest(s, s', k)
    requires forall k :: k in s'.server.requests && k in but ==> RequestOk(s', k)
    requires forall x :: x in s.started ==> x in s'.started
    ensures RequestsOk(s')
  {
    hide RequestOk, Grows, StagesKeep, SameClients;
    forall k | k in s'.server.requests ensures RequestOk(s', k) {
      if k !in but {
        assert RequestOk(s, k);
        RequestKeeps(s, s', k, call, was);
      }
    }
  }

  lemma WrapperKeeps(s: State, s': State, key: Key)
    requires key in s.server.connections && WrapperOk(s, key) && Grows(s, s') && SameClients(s, s')
    requires key in s'.server.connections && s'.server.connections[key] == s.server.connections[key]
    ensures WrapperOk(s', key)
  {
    hide Answered;
    var w := s.server.connections[key];
    DownKeeps(s, s', s.conns[w.conn].client, w.responses);
    assert s'.conns[w.conn].client == s.conns[w.conn].client;
  }

  lemma WrappersKeep(s: State, s': State, but: set<Key>)
    requires WrappersOk(s) && Grows(s, s') && SameClients(s, s')
    requires forall key :: key in s'.server.connections && key !in but ==>
      key in s.server.connections && s'.server.connections[key] == s.server.connections[key]
    requires forall key :: key in s'.server.connections && key in but ==> WrapperOk(s', key)
    ensures WrappersOk(s')
  {
    hide WrapperOk, Grows, SameClients;
    forall key | key in s'.server.connections ensures WrapperOk(s', key) {
      if key !in but {
        WrapperKeeps(s, s', key);
      }
    }
  }

  lemma KeysKeep(s: State, s': State)
    requires KeysOk(s) && SameClients(s, s') && s'.owners == s.owners && s'.accepted == s.accepted
    requires s'.server.nextKey == s.server.nextKey
    ensures KeysOk(s')
  {
    forall key | key in s'.owners ensures KeyOk(s', key) {
      assert KeyOk(s, key);
    }
  }

  lemma CallsKeep(s: State, s': State)
    requires CallsOk(s) && s'.payloads == s.payloads && s.stages.Keys <= s'.stages.Keys
    requires s'.clients.Keys == s.clients.Keys && s'.issued == s.issued
    ensures CallsOk(s')
  {
    forall call | call in s'.payloads ensures CallOk(s', call) {
      assert CallOk(s, call);
    }
  }

  lemma StartedKeep(s: State, s': State, call: Call, was: Stage)
    requires StartedOk(s) && s'.started == s.started && Grows(s, s') && StagesKeep(s, s', call, was) && was != Started
    ensures StartedOk(s')
  {
    hide StagesKeep;
    forall i | 0 <= i < |s.started|
      ensures At(s', s'.started[i].call, Started) && s'.started[i].payload == s'.payloads[s'.started[i].call] {
      StageAt(s, s', call, was, s.started[i].call, Started);
    }
  }

  lemma StageAt(s: State, s': State, call: Call, was: Stage, x: Call, stage: Stage)
    requires StagesKeep(s, s', call, was) && At(s, x, stage) && !(x == call && stage == was)
    ensures At(s', x, stage)
  {
  }

  // One lemma per step.  `NoStage` of `NoCall` stands for steps that move no request packet.

  const NoCall: Call := (0, 0)
  const NoStage := Lost

  /** What a client does to its own table leaves the rest of the system as it is. */
  lemma NetKeeps(s: State, s': State)
    requires Invariant(s) && s.clients.Keys <= s'.clients.Keys
    requires s'.server == s.server && s'.conns == s.conns && s'.payloads == s.payloads && s'.stages == s.stages
    requires s'.owners == s.owners && s'.accepted == s.accepted && s'.started == s.started && s'.finished == s.finished
    requires s.cancels <= s'.cancels
    ensures ConnsOk(s') && RequestsOk(s') && KeysOk(s') && WrappersOk(s') && StartedOk(s') && FinishedOk(s')
  {
    hide ClientOk, CallOk, ConnOk, RequestOk, WrapperOk, KeyOk;
    ConnsKeep(s, s', NoCall, NoStage, {});
    RequestsKeep(s, s', NoCall, NoStage, {});
    KeysKeep(s, s');
    WrappersKeep(s, s', {});
    StartedKeep(s, s', NoCall, NoStage);
  }

  lemma CallKeeps(s: State, s': State, call: Call)
    requires call in s.payloads && CallOk(s, call) && call in s'.payloads
    requires s.stages.Keys <= s'.stages.Keys && s.clients.Keys <= s'.clients.Keys
    requires call.0 in s.clients ==> Issued(s', call.0) >= Issued(s, call.0)
    ensures CallOk(s', call)
  {
  }

  lemma NewClientKeeps(s: State, c: ClientId)
    requires Invariant(s) && Enabled(s, Step.NewClient(c))
    ensures Invariant(Next(s, Step.NewClient(c)))
  {
    hide ConnsOk, RequestsOk, WrappersOk, KeysOk, CallOk, StartedOk, FinishedOk;
    var s' := Next(s, Step.NewClient(c));
    ClientsKeepOthers(s, s', c);
    NetKeeps(s, s');
    forall call | call in s'.payloads ensures CallOk(s', call) {
      CallKeeps(s, s', call);
    }
  }

  lemma LocalKeeps(s: State, c: ClientId, e: Event)
    requires Invariant(s) && Enabled(s, Local(c, e))
    ensures Invariant(Next(s, Local(c, e)))
  {
    hide ConnsOk, RequestsOk, WrappersOk, KeysOk, CallOk, StartedOk, FinishedOk, After, Answered;
    var s' := Next(s, Local(c, e));
    assert ClientOk(s, c);
    LocalOutcomes(s.clients[c], e);
    NetKeeps(s, s');
    forall id | id in s'.clients[c].outcomes && s'.clients[c].outcomes[id].Ok?
      ensures Answered(s', (c, id), s'.clients[c].outcomes[id].value) {
      AnsweredStays(s, s', (c, id), s.clients[c].outcomes[id].value);
    }
    ClientsKeepOthers(s, s', c);
    CallsKeep(s, s');
  }

  /** Nothing but a response gives a request a value. */
  lemma LocalOutcomes(cs: ClientState, e: Event)
    requires cs.Consistent() && !e.SetResponse? && (e.Register? ==> e.id !in cs.Registered())
    ensures After(cs, e).Consistent() && After(cs, e).sequence == cs.sequence
    ensures forall id :: id in After(cs, e).outcomes && After(cs, e).outcomes[id].Ok? ==>
      id in cs.outcomes && cs.outcomes[id] == After(cs, e).outcomes[id]
  {
    AfterKeeps(cs, e);
  }

  /** Below 2^32 ids, the next request id was never used. */
  lemma NewCallIsFresh(s: State, c: ClientId)
    requires ClientsOk(s) && CallsOk(s) && c in s.clients && Issued(s, c) < REQUEST_IDS
    ensures s.clients[c].sequence == Issued(s, c) && (c, s.clients[c].sequence) !in s.payloads
  {
    assert ClientOk(s, c);
    var call := (c, s.clients[c].sequence);
    assert call in s.payloads ==> CallOk(s, call);
  }

  lemma NewCallClient(s: State, s': State, c: ClientId)
    requires c in s.clients && ClientOk(s, c) && Grows(s, s') && Issued(s, c) < REQUEST_IDS
    requires c in s'.clients && s'.clients[c] == s.clients[c].Advanced() && Issued(s', c) == Issued(s, c) + 1
    ensures ClientOk(s', c)
  {
    hide Answered, Grows;
    forall id | id in s'.clients[c].outcomes && s'.clients[c].outcomes[id].Ok?
      ensures Answered(s', (c, id), s'.clients[c].outcomes[id].value) {
      AnsweredStays(s, s', (c, id), s.clients[c].outcomes[id].value);
    }
  }

  lemma NewCallTables(s: State, s': State, c: ClientId, call: Call)
    requires ClientsOk(s) && CallsOk(s) && c in s.clients && call == (c, s.clients[c].sequence)
    requires Issued(s, c) < REQUEST_IDS && s.clients[c].sequence == Issued(s, c) && Grows(s, s')
    requires s'.clients == s.clients[c := s.clients[c].Advanced()] && s'.issued == s.issued[c := Issued(s, c) + 1]
    requires s'.payloads.Keys == s.payloads.Keys + {call} && s'.stages.Keys == s.stages.Keys + {call}
    ensures ClientsOk(s') && CallsOk(s')
  {
    hide ClientOk, CallOk, Grows, ClientState.Advanced;
    assert ClientOk(s, c);
    NewCallClient(s, s', c);
    ClientsKeepOthers(s, s', c);
    forall x | x in s'.payloads ensures CallOk(s', x) {
      if x != call {
        CallKeeps(s, s', x);
      } else {
        CallOkIf(s', x);
      }
    }
  }

  lemma CallOkIf(s: State, call: Call)
    requires call in s.payloads && call in s.stages && call.0 in s.clients && call.1 < Issued(s, call.0)
    ensures CallOk(s, call)
  {
  }

  lemma NewCallKeeps(s: State, c: ClientId, payload: seq<byte>)
    requires Invariant(s) && Enabled(s, NewCall(c, payload))
    ensures Invariant(Next(s, NewCall(c, payload)))
  {
    hide ClientsOk, CallsOk, ConnsOk, RequestsOk, WrappersOk, KeysOk, FinishedOk, StartedOk, Issued;
    var s' := Next(s, NewCall(c, payload));
    NewCallIsFresh(s, c);
    NewCallTables(s, s', c, (c, s.clients[c].sequence));
    hide Issued, ClientState.Advanced;
    assert StagesKeep(s, s', NoCall, NoStage);
    hide StagesKeep;
    ConnsKeep(s, s', NoCall, NoStage, {});
    RequestsKeep(s, s', NoCall, NoStage, {});
    KeysKeep(s, s');
    WrappersKeep(s, s', {});
    StartedKeep(s, s', NoCall, NoStage);
    FinishedKeep(s, s');
  }

  lemma FinishedKeep(s: State, s': State)
    requires FinishedOk(s) && s'.finished == s.finished && forall x :: x in s.started ==> x in s'.started
    ensures FinishedOk(s')
  {
  }

  /** Steps that change packets in flight, and perhaps one stage, but no table. */
  lemma TrafficKeeps(s: State, s': State, conn: ConnId, call: Call, was: Stage)
    requires Invariant(s) && StagesKeep(s, s', call, was)
    requires was == Unsent || was == Lost
    requires s'.clients == s.clients && s'.issued == s.issued && s'.server == s.server && s'.payloads == s.payloads
    requires s'.stages.Keys == s.stages.Keys
    requires s'.owners == s.owners && s'.accepted == s.accepted && s'.started == s.started && s'.finished == s.finished
    requires s.cancels <= s'.cancels
    requires conn in s'.conns && ConnOk(s', conn) && s'.conns.Keys == s.conns.Keys + {conn}
    requires forall other :: other in s.conns && other != conn ==> s'.conns[other] == s.conns[other]
    requires conn in s.conns ==> s'.conns[conn].client == s.conns[conn].client
    ensures Invariant(s')
  {
    hide ClientOk, CallOk, ConnOk, RequestOk, WrapperOk, KeyOk, StagesKeep;
    ClientsKeep(s, s');
    CallsKeep(s, s');
    ConnsKeep(s, s', call, was, {conn});
    RequestsKeep(s, s', call, was, {});
    KeysKeep(s, s');
    WrappersKeep(s, s', {});
    StartedKeep(s, s', call, was);
  }

  /** A connection is in order if what is in flight on it would have been before the step. */
  lemma Refreshed(s: State, s': State, conn: ConnId)
    requires s'.payloads == s.payloads && s'.stages == s.stages && s'.finished == s.finished
    requires s'.clients.Keys == s.clients.Keys && s.cancels <= s'.cancels
    requires conn in s'.conns && s'.conns[conn].client in s.clients
    requires UpOk(s.(cancels := s'.cancels), conn, s'.conns[conn].client, s'.conns[conn].up)
    requires DownOk(s, s'.conns[conn].client, s'.conns[conn].down)
    ensures ConnOk(s', conn)
  {
    hide Answered;
    DownKeeps(s, s', s'.conns[conn].client, s'.conns[conn].down);
  }

  lemma ConnectKeeps(s: State, conn: ConnId, c: ClientId)
    requires Invariant(s) && Enabled(s, Connect(conn, c))
    ensures Invariant(Next(s, Connect(conn, c)))
  {
    hide ClientsOk, CallsOk, ConnsOk, RequestsOk, WrappersOk, KeysOk, FinishedOk, StartedOk;
    TrafficKeeps(s, Next(s, Connect(conn, c)), conn, NoCall, NoStage);
  }

  lemma SendInvokeKeeps(s: State, c: ClientId, id: RequestId, conn: ConnId)
    requires Invariant(s) && Enabled(s, SendInvoke(c, id, conn))
    ensures Invariant(Next(s, SendInvoke(c, id, conn)))
  {
    hide ClientsOk, CallsOk, RequestsOk, WrappersOk, KeysOk, FinishedOk, StartedOk, Answered;
    var s' := Next(s, SendInvoke(c, id, conn));
    assert ConnOk(s, conn);
    assert StagesKeep(s, s', (c, id), Unsent);
    PushInvoke(s, s', c, id, conn);
    TrafficKeeps(s, s', conn, (c, id), Unsent);
  }

  lemma PushInvoke(s: State, s': State, c: ClientId, id: RequestId, conn: ConnId)
    requires conn in s.conns && ConnOk(s, conn) && s.conns[conn].client == c && conn in s'.conns
    requires At(s, (c, id), Unsent) && At(s', (c, id), InFlight(conn)) && StagesKeep(s, s', (c, id), Unsent)
    requires s'.payloads == s.payloads && s'.finished == s.finished && s'.clients == s.clients && s'.cancels == s.cancels
    requires var co := s.conns[conn]; s'.conns[conn] == co.(up := co.up + [Invoke(id, s.payloads[(c, id)])])
    ensures ConnOk(s', conn)
  {
    hide Answered;
    var up := s.conns[conn].up;
    DownKeeps(s, s', c, s.conns[conn].down);
    forall i | 0 <= i < |up| && up[i].Invoke? ensures At(s', (c, up[i].id), InFlight(conn)) && up[i].id != id {
      assert At(s, (c, up[i].id), InFlight(conn));
    }
  }

  lemma SendNothingKeeps(s: State, c: ClientId, id: RequestId)
    requires Invariant(s) && Enabled(s, SendNothing(c, id))
    ensures Invariant(Next(s, SendNothing(c, id)))
  {
    hide ClientOk, CallOk, ConnOk, RequestOk, WrapperOk, KeyOk;
    var s' := Next(s, SendNothing(c, id));
    assert StagesKeep(s, s', (c, id), Unsent);
    hide StagesKeep;
    ClientsKeep(s, s');
    CallsKeep(s, s');
    ConnsKeep(s, s', (c, id), Unsent, {});
    RequestsKeep(s, s', (c, id), Unsent, {});
    KeysKeep(s, s');
    WrappersKeep(s, s', {});
    StartedKeep(s, s', (c, id), Unsent);
  }

  lemma SendCancelKeeps(s: State, c: ClientId, id: RequestId, conn: ConnId)
    requires Invariant(s) && Enabled(s, SendCancel(c, id, conn))
    ensures Invariant(Next(s, SendCancel(c, id, conn)))
  {
    hide ClientsOk, CallsOk, RequestsOk, WrappersOk, KeysOk, FinishedOk, StartedOk, Answered;
    assert ConnOk(s, conn);
    Refreshed(s, Next(s, SendCancel(c, id, conn)), conn);
    TrafficKeeps(s, Next(s, SendCancel(c, id, conn)), conn, NoCall, NoStage);
  }

  lemma CutKeeps(s: State, conn: ConnId, up: nat, down: nat)
    requires Invariant(s) && Enabled(s, Cut(conn, up, down))
    ensures Invariant(Next(s, Cut(conn, up, down)))
  {
    hide ClientsOk, CallsOk, RequestsOk, WrappersOk, KeysOk, FinishedOk, StartedOk, Answered;
    assert ConnOk(s, conn);
    Refreshed(s, Next(s, Cut(conn, up, down)), conn);
    TrafficKeeps(s, Next(s, Cut(conn, up, down)), conn, NoCall, NoStage);
  }

  /** A response resolves the request of that id; it carries a result of that very call. */
  lemma ReceiveKeeps(s: State, conn: ConnId)
    requires Invariant(s) && Enabled(s, Receive(conn))
    ensures Invariant(Next(s, Receive(conn)))
  {
    hide ClientsOk, CallsOk, RequestsOk, WrappersOk, KeysOk, FinishedOk, StartedOk, Answered, After;
    var s' := Next(s, Receive(conn));
    assert ConnOk(s, conn);
    var c, reply := s.conns[conn].client, s.conns[conn].down[0];
    Refreshed(s, s', conn);
    ReceiveClients(s, s', c, reply);
    CallsKeep(s, s');
    assert StagesKeep(s, s', NoCall, NoStage);
    hide StagesKeep, ConnOk;
    ConnsKeep(s, s', NoCall, NoStage, {conn});
    RequestsKeep(s, s', NoCall, NoStage, {});
    KeysKeep(s, s');
    WrappersKeep(s, s', {});
    StartedKeep(s, s', NoCall, NoStage);
    FinishedKeep(s, s');
  }

  lemma ReceiveClients(s: State, s': State, c: ClientId, reply: Reply)
    requires ClientsOk(s) && c in s.clients && s'.issued == s.issued && Grows(s, s')
    requires s'.clients == s.clients[c := After(s.clients[c], SetResponse(reply.id, reply.data))]
    requires Answered(s, (c, reply.id), reply.data)
    ensures ClientsOk(s')
  {
    hide ClientOk, After, Answered, Grows;
    assert ClientOk(s, c);
    ReceiveClient(s, s', c, reply);
    ClientsKeepOthers(s, s', c);
  }

  lemma ReceiveClient(s: State, s': State, c: ClientId, reply: Reply)
    requires c in s.clients && c in s'.clients && ClientOk(s, c) && Issued(s', c) == Issued(s, c)
    requires s'.clients[c] == After(s.clients[c], SetResponse(reply.id, reply.data)) && Grows(s, s')
    requires Answered(s, (c, reply.id), reply.data)
    ensures ClientOk(s', c)
  {
    hide Answered, Grows;
    var cs, cs' := s.clients[c], s'.clients[c];
    ResolveOnce(cs, {reply.id}, Ok(reply.data));
    AnsweredStays(s, s', (c, reply.id), reply.data);
    forall id | id in cs'.outcomes && cs'.outcomes[id].Ok? ensures Answered(s', (c, id), cs'.outcomes[id].value) {
      if id in cs.outcomes {
        AnsweredStays(s, s', (c, id), cs.outcomes[id].value);
      }
    }
  }

  // Steps of the server.

  lemma AcceptKeeps(s: State, conn: ConnId, key: Key)
    requires Invariant(s) && Enabled(s, Accept(conn, key))
    ensures Invariant(Next(s, Accept(conn, key)))
  {
    hide ClientsOk, CallsOk, ConnsOk, RequestsOk, WrappersOk, KeysOk, FinishedOk, StartedOk;
    var s' := Next(s, Accept(conn, key));
    AcceptKey(s, key);
    assert StagesKeep(s, s', NoCall, NoStage);
    hide StagesKeep;
    ClientsKeep(s, s');
    CallsKeep(s, s');
    ConnsKeep(s, s', NoCall, NoStage, {});
    RequestsKeep(s, s', NoCall, NoStage, {});
    KeysGrow(s, s', key, conn);
    assert WrapperOk(s', key);
    hide WrapperOk;
    WrappersKeep(s, s', {key});
    StartedKeep(s, s', NoCall, NoStage);
    FinishedKeep(s, s');
  }

  lemma KeysGrow(s: State, s': State, key: Key, conn: ConnId)
    requires KeysOk(s) && SameClients(s, s') && s'.owners == s.owners[key := conn] && conn in s'.conns
    requires s'.accepted == s.accepted + 1 == key < KEYS && s'.server.nextKey == key
    ensures KeysOk(s')
  {
    forall k | k in s'.owners ensures KeyOk(s', k) {
      if k != key {
        assert KeyOk(s, k);
      }
    }
  }

  /** Below 2^64 connections, the key of a new connection was never used before. */
  lemma AcceptKey(s: State, key: Key)
    requires KeysOk(s) && WrappersOk(s) && s.accepted < KEYS - 1
    requires IsNextKey(s.server.nextKey, s.server.connections.Keys, key)
    ensures key == s.accepted + 1 && key !in s.owners
  {
    var next := Ahead(s.server.nextKey, 1);
    assert next == s.accepted + 1;
    assert next in s.owners ==> KeyOk(s, next);
    assert forall k :: k in s.server.connections ==> WrapperOk(s, k);
    assert next !in s.server.connections;
    NextKeyDirect(s.server.nextKey, s.server.connections.Keys, key);
  }

  /** Steps on one entry of the server's tables. */
  lemma ServerKeeps(s: State, s': State, call: Call, was: Stage, conns: set<ConnId>, ks: set<RequestKey>, keys: set<Key>)
    requires Invariant(s) && StagesKeep(s, s', call, was) && Grows(s, s') && SameClients(s, s')
    requires s'.clients == s.clients && s'.issued == s.issued && s'.payloads == s.payloads
    requires s'.stages.Keys == s.stages.Keys
    requires s'.owners == s.owners && s'.accepted == s.accepted && s'.server.nextKey == s.server.nextKey
    requires forall x :: x in s.started ==> x in s'.started
    requires was.InFlight? ==> was.conn in conns
    requires forall conn :: conn in s'.conns && conn !in conns ==> conn in s.conns && SameConn(s, s', conn)
    requires forall conn :: conn in s'.conns && conn in conns ==> ConnOk(s', conn)
    requires was != Started
    requires was.AtServer? ==> forall k :: k in s'.server.requests && k !in ks && k.0 == was.key ==> call != CallOf(s, k)
    requires forall k :: k in s'.server.requests && k !in ks ==> k in s.server.requests && SameRequest(s, s', k)
    requires forall k :: k in s'.server.requests && k in ks ==> RequestOk(s', k)
    requires forall key :: key in s'.server.connections && key !in keys ==>
      key in s.server.connections && s'.server.connections[key] == s.server.connections[key]
    requires forall key :: key in s'.server.connections && key in keys ==> WrapperOk(s', key)
    ensures ClientsOk(s') && CallsOk(s') && ConnsOk(s') && RequestsOk(s') && KeysOk(s') && WrappersOk(s')
  {
    hide ClientOk, CallOk, ConnOk, RequestOk, WrapperOk, KeyOk, StagesKeep, Grows, SameClients, SameConn, SameRequest, CallOf,
      StartedOk, FinishedOk;
    ClientsKeep(s, s');
    CallsKeep(s, s');
    ConnsKeep(s, s', call, was, conns);
    RequestsKeep(s, s', call, was, ks);
    KeysKeep(s, s');
    WrappersKeep(s, s', keys);
  }

  lemma ServerReceiveKeeps(s: State, key: Key)
    requires Invariant(s) && Enabled(s, ServerReceive(key))
    ensures Invariant(Next(s, ServerReceive(key)))
  {
    hide Invariant;
    if s.conns[s.server.connections[key].conn].up[0].Invoke? {
      ReceiveInvokeKeeps(s, key);
    } else {
      ReceiveCancelKeeps(s, key);
    }
  }

  lemma ReceiveInvokeKeeps(s: State, key: Key)
    requires Invariant(s) && Enabled(s, ServerReceive(key)) && s.conns[s.server.connections[key].conn].up[0].Invoke?
    ensures Invariant(Next(s, ServerReceive(key)))
  {
    hide ClientsOk, CallsOk, ConnsOk, RequestsOk, WrappersOk, KeysOk, FinishedOk, StartedOk, Answered;
    var s' := Next(s, ServerReceive(key));
    var conn := s.server.connections[key].conn;
    OneConn(s, conn);
    OneWrapper(s, key);
    var id := s.conns[conn].up[0].id;
    var call := (s.conns[conn].client, id);
    assert StagesKeep(s, s', call, InFlight(conn));
    PopInvoke(s, s', conn);
    if (key, id) !in s.server.requests {
      assert RequestOk(s', (key, id));
    }
    hide ConnOk, RequestOk, WrapperOk, StagesKeep;
    var ks := if (key, id) in s.server.requests then {} else {(key, id)};
    ServerKeeps(s, s', call, InFlight(conn), {conn}, ks, {});
    StartedKeep(s, s', call, InFlight(conn));
    FinishedKeep(s, s');
  }

  lemma ReceiveCancelKeeps(s: State, key: Key)
    requires Invariant(s) && Enabled(s, ServerReceive(key)) && s.conns[s.server.connections[key].conn].up[0].Cancel?
    ensures Invariant(Next(s, ServerReceive(key)))
  {
    hide ClientsOk, CallsOk, ConnsOk, RequestsOk, WrappersOk, KeysOk, FinishedOk, StartedOk, Answered;
    var s' := Next(s, ServerReceive(key));
    var conn := s.server.connections[key].conn;
    OneConn(s, conn);
    OneWrapper(s, key);
    var k := (key, s.conns[conn].up[0].id);
    assert StagesKeep(s, s', NoCall, NoStage);
    Refreshed(s, s', conn);
    if k in s.server.requests {
      OneRequest(s, k);
      var p := s.server.requests[k].progress;
      if p.Done? {
        AnsweredStays(s, s', CallOf(s, k), p.response);
      }
      assert RequestOk(s', k);
    }
    hide ConnOk, RequestOk, WrapperOk, StagesKeep;
    ServerKeeps(s, s', NoCall, NoStage, {conn}, {k}, {});
    StartedKeep(s, s', NoCall, NoStage);
    FinishedKeep(s, s');
  }

  lemma OneConn(s: State, conn: ConnId)
    requires ConnsOk(s) && conn in s.conns
    ensures ConnOk(s, conn)
  {
  }

  lemma OneWrapper(s: State, key: Key)
    requires WrappersOk(s) && key in s.server.connections
    ensures WrapperOk(s, key)
  {
  }

  lemma OneRequest(s: State, k: RequestKey)
    requires RequestsOk(s) && k in s.server.requests
    ensures RequestOk(s, k)
  {
  }

  lemma PopInvoke(s: State, s': State, conn: ConnId)
    requires conn in s.conns && ConnOk(s, conn) && s.conns[conn].up != [] && s.conns[conn].up[0].Invoke?
    requires conn in s'.conns && s'.conns[conn] == s.conns[conn].(up := s.conns[conn].up[1..])
    requires s'.payloads == s.payloads && s'.finished == s.finished && s'.clients == s.clients && s'.cancels == s.cancels
    requires StagesKeep(s, s', (s.conns[conn].client, s.conns[conn].up[0].id), InFlight(conn))
    ensures ConnOk(s', conn)
  {
    hide Answered, StagesKeep;
    var c, up := s.conns[conn].client, s.conns[conn].up;
    DownKeeps(s, s', c, s.conns[conn].down);
    forall i | 1 <= i < |up| && up[i].Invoke? ensures At(s', (c, up[i].id), InFlight(conn)) {
      StageAt(s, s', (c, up[0].id), InFlight(conn), (c, up[i].id), InFlight(conn));
    }
  }

  lemma StartKeeps(s: State, k: RequestKey)
    requires Invariant(s) && Enabled(s, Start(k))
    ensures Invariant(Next(s, Start(k)))
  {
    hide ClientsOk, CallsOk, ConnsOk, RequestsOk, WrappersOk, KeysOk, FinishedOk, StartedOk;
    var s' := Next(s, Start(k));
    OneRequest(s, k);
    var call := CallOf(s, k);
    assert StagesKeep(s, s', call, AtServer(k.0));
    InLast(s.started, Execution(call, s.server.requests[k].payload));
    assert RequestOk(s', k);
    StartedGrow(s, s', call);
    hide RequestOk, StagesKeep;
    ServerKeeps(s, s', call, AtServer(k.0), {}, {k}, {});
    FinishedKeep(s, s');
  }

  lemma InLast<T>(xs: seq<T>, x: T)
    ensures x in xs + [x] && forall y :: y in xs ==> y in xs + [x]
  {
    assert (xs + [x])[|xs|] == x;
  }

  /** An execution starts only where the request was still waiting, so not for the second time. */
  lemma StartedGrow(s: State, s': State, call: Call)
    requires StartedOk(s) && At(s', call, Started) && (exists key :: At(s, call, AtServer(key)))
    requires s'.payloads == s.payloads && s'.started == s.started + [Execution(call, s.payloads[call])]
    requires forall x :: At(s, x, Started) ==> At(s', x, Started)
    ensures StartedOk(s')
  {
    forall i | 0 <= i < |s.started| ensures s.started[i].call != call {
      assert At(s, s.started[i].call, Started);
    }
  }

  lemma CompleteKeeps(s: State, k: RequestKey, response: seq<byte>)
    requires Invariant(s) && Enabled(s, Complete(k, response))
    ensures Invariant(Next(s, Complete(k, response)))
  {
    hide ClientsOk, CallsOk, ConnsOk, RequestsOk, WrappersOk, KeysOk, StartedOk;
    var s' := Next(s, Complete(k, response));
    OneRequest(s, k);
    assert StagesKeep(s, s', NoCall, NoStage);
    assert RequestOk(s', k);
    hide RequestOk, StagesKeep;
    ServerKeeps(s, s', NoCall, NoStage, {}, {k}, {});
    StartedKeep(s, s', NoCall, NoStage);
  }

  lemma DeliverKeeps(s: State, k: RequestKey)
    requires Invariant(s) && Enabled(s, Deliver(k))
    ensures Invariant(Next(s, Deliver(k)))
  {
    hide ClientsOk, CallsOk, ConnsOk, RequestsOk, WrappersOk, KeysOk, StartedOk, FinishedOk, Answered;
    var s' := Next(s, Deliver(k));
    OneRequest(s, k);
    assert StagesKeep(s, s', NoCall, NoStage);
    assert RequestOk(s', k);
    if k.0 in s.server.connections {
      OneWrapper(s, k.0);
      DeliverWrapper(s, s', k);
    }
    hide RequestOk, WrapperOk, StagesKeep;
    ServerKeeps(s, s', NoCall, NoStage, {}, {k}, {k.0});
    StartedKeep(s, s', NoCall, NoStage);
    FinishedKeep(s, s');
  }

  lemma DeliverWrapper(s: State, s': State, k: RequestKey)
    requires k in s.server.requests && s.server.requests[k].progress.Done? && RequestOk(s, k)
    requires k.0 in s.server.connections && WrapperOk(s, k.0)
    requires s' == s.(server := s.server.Deliver(k))
    ensures WrapperOk(s', k.0)
  {
    hide Answered;
    var w := s.server.connections[k.0];
    DownKeeps(s, s', s.conns[w.conn].client, w.responses);
    AnsweredStays(s, s', CallOf(s, k), s.server.requests[k].progress.response);
  }

  lemma RemoveRequestKeeps(s: State, k: RequestKey)
    requires Invariant(s) && Enabled(s, Step.RemoveRequest(k))
    ensures Invariant(Next(s, Step.RemoveRequest(k)))
  {
    hide ClientsOk, CallsOk, ConnsOk, RequestsOk, WrappersOk, KeysOk, StartedOk, FinishedOk;
    var s' := Next(s, Step.RemoveRequest(k));
    assert StagesKeep(s, s', NoCall, NoStage);
    hide StagesKeep;
    ServerKeeps(s, s', NoCall, NoStage, {}, {}, {});
    StartedKeep(s, s', NoCall, NoStage);
    FinishedKeep(s, s');
  }

  lemma ServerSendKeeps(s: State, key: Key, works: bool)
    requires Invariant(s) && Enabled(s, ServerSend(key, works))
    ensures Invariant(Next(s, ServerSend(key, works)))
  {
    hide ClientsOk, CallsOk, ConnsOk, RequestsOk, WrappersOk, KeysOk, StartedOk, FinishedOk, Answered;
    var s' := Next(s, ServerSend(key, works));
    OneWrapper(s, key);
    var w := s.server.connections[key];
    OneConn(s, w.conn);
    Refreshed(s, s', w.conn);
    assert StagesKeep(s, s', NoCall, NoStage);
    DownKeeps(s, s', s.conns[w.conn].client, w.responses);
    assert WrapperOk(s', key);
    hide ConnOk, WrapperOk, StagesKeep;
    ServerKeeps(s, s', NoCall, NoStage, {w.conn}, {}, {key});
    StartedKeep(s, s', NoCall, NoStage);
    FinishedKeep(s, s');
  }

  lemma RemoveConnectionKeeps(s: State, key: Key)
    requires Invariant(s) && Enabled(s, RemoveConnection(key))
    ensures Invariant(Next(s, RemoveConnection(key)))
  {
    hide ClientsOk, CallsOk, ConnsOk, RequestsOk, WrappersOk, KeysOk, StartedOk, FinishedOk;
    var s' := Next(s, RemoveConnection(key));
    assert StagesKeep(s, s', NoCall, NoStage);
    hide StagesKeep;
    ServerKeeps(s, s', NoCall, NoStage, {}, {}, {});
    StartedKeep(s, s', NoCall, NoStage);
    FinishedKeep(s, s');
  }

  // ----- Over all runs -----

  lemma NextKeepsInvariant(s: State, step: Step)
    requires Invariant(s) && Enabled(s, step)
    ensures Invariant(Next(s, step))
  {
    hide Invariant, Enabled, Next;
    match step
    case NewClient(c) => NewClientKeeps(s, c);
    case Connect(conn, c) => ConnectKeeps(s, conn, c);
    case NewCall(c, payload) => NewCallKeeps(s, c, payload);
    case Local(c, e) => LocalKeeps(s, c, e);
    case SendInvoke(c, id, conn) => SendInvokeKeeps(s, c, id, conn);
    case SendNothing(c, id) => SendNothingKeeps(s, c, id);
    case SendCancel(c, id, conn) => SendCancelKeeps(s, c, id, conn);
    case Receive(conn) => ReceiveKeeps(s, conn);
    case Cut(conn, up, down) => CutKeeps(s, conn, up, down);
    case Accept(conn, key) => AcceptKeeps(s, conn, key);
    case ServerReceive(key) => ServerReceiveKeeps(s, key);
    case Start(k) => StartKeeps(s, k);
    case Complete(k, response) => CompleteKeeps(s, k, response);
    case Deliver(k) => DeliverKeeps(s, k);
    case RemoveRequest(k) => RemoveRequestKeeps(s, k);
    case ServerSend(key, works) => ServerSendKeeps(s, key, works);
    case RemoveConnection(key) => RemoveConnectionKeeps(s, key);
  }

  lemma {:induction false} RunKeepsInvariant(s: State, steps: seq<Step>)
    requires Invariant(s)
    ensures Run(s, steps).Some? ==> Invariant(Run(s, steps).value)
    decreases |steps|
  {
    hide Invariant, Enabled, Next;
    if steps != [] && Enabled(s, steps[0]) {
      NextKeepsInvariant(s, steps[0]);
      RunKeepsInvariant(Next(s, steps[0]), steps[1..]);
    }
  }

  lemma InitialInvariant(s: State)
    requires Initial(s)
    ensures Invariant(s)
  {
  }

  lemma {:induction false} RunThen(s: State, a: seq<Step>, b: seq<Step>)
    requires Run(s, a).Some?
    ensures Run(s, a + b) == Run(Run(s, a).value, b)
    decreases |a|
  {
    hide Enabled, Next;
    if a == [] {
      assert a + b == b;
    } else {
      assert (a + b)[0] == a[0] && (a + b)[1..] == a[1..] + b;
      RunThen(Next(s, a[0]), a[1..], b);
    }
  }

  /** In every state of every run: a call whose future holds a response was executed, with its
      own payload, and the response is what that execution returned. */
  lemma ResponsesComeFromTheirCall(s0: State, steps: seq<Step>, c: ClientId, id: RequestId)
    requires Initial(s0) && Run(s0, steps).Some?
    ensures var s := Run(s0, steps).value;
      c in s.clients && id in s.clients[c].outcomes && s.clients[c].outcomes[id].Ok? ==>
        && (c, id) in s.payloads
        && var execution := Execution((c, id), s.payloads[(c, id)]);
           execution in s.started && (execution, s.clients[c].outcomes[id].value) in s.finished
  {
    InitialInvariant(s0);
    RunKeepsInvariant(s0, steps);
    var s := Run(s0, steps).value;
    hide ConnsOk, RequestsOk, WrappersOk, KeysOk, StartedOk, CallsOk, Run;
    assert c in s.clients ==> ClientOk(s, c);
  }

  /** No call is executed twice, however packets, connections and threads interleave. */
  lemma ExecutedAtMostOnce(s0: State, steps: seq<Step>, i: nat, j: nat)
    requires Initial(s0) && Run(s0, steps).Some?
    ensures var s := Run(s0, steps).value;
      i < j < |s.started| ==> s.started[i].call != s.started[j].call
  {
    InitialInvariant(s0);
    RunKeepsInvariant(s0, steps);
  }

  /** Cancellation reaches no other call: a request that the server marks cancelled is one whose
      own client sent the cancellation of that very id. */
  lemma OnlyOwnCallsCancelled(s0: State, steps: seq<Step>, k: RequestKey)
    requires Initial(s0) && Run(s0, steps).Some?
    ensures var s := Run(s0, steps).value;
      k in s.server.requests && s.server.requests[k].cancelled ==>
        k.0 in s.owners && s.owners[k.0] in s.conns && CallOf(s, k) in s.cancels
  {
    InitialInvariant(s0);
    RunKeepsInvariant(s0, steps);
    var s := Run(s0, steps).value;
    hide Run;
    assert k in s.server.requests ==> RequestOk(s, k);
  }
}
