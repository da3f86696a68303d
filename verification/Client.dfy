/** The client side of a connection (src/arpc/client.h): the table of pending requests, whose
    promises are resolved by responses, cancellation, expiry, send failures and lost
    connections, and the deadlines that its handler thread waits for. */
module Client {
  import opened Results
  import opened Streams
  import opened Queues

  const REQUEST_IDS := 0x1_0000_0000

  type RequestId = x: int | 0 <= x < REQUEST_IDS
  type Time = int
  type Outcome = Result<seq<byte>>

  // ----- The pending table as a value -----

  /** `outcomes` holds what the promises of requests that left the table were given. */
  datatype ClientState = ClientState(sequence: RequestId,
                                     pending: map<RequestId, Option<Time>>,
                                     outcomes: map<RequestId, Outcome>)
  {
    /** Every request is pending or has its outcome, never both. */
    ghost predicate Consistent() {
      forall id :: id in pending ==> id !in outcomes
    }

    function Registered(): set<RequestId> {
      pending.Keys + outcomes.Keys
    }

    /** sequence_++ on 32 bits. */
    function Advanced(): ClientState {
      this.(sequence := (sequence + 1) % REQUEST_IDS)
    }

    function Register(id: RequestId, deadline: Option<Time>): ClientState {
      this.(pending := pending[id := deadline])
    }

    /** The requests in `ids` that are pending leave the table with the given outcome. */
    function Resolve(ids: set<RequestId>, outcome: Outcome): ClientState {
      this.(pending := pending - ids,
            outcomes := outcomes + map id | id in pending && id in ids :: outcome)
    }

    function Expired(now: Time): set<RequestId> {
      set id | id in pending && pending[id].Some? && pending[id].value < now
    }

    function Gc(now: Time): ClientState {
      Resolve(Expired(now), Err(DeadlineExceeded))
    }

    function Deadlines(): set<Time> {
      set id | id in pending && pending[id].Some? :: pending[id].value
    }
  }

  const NewClient := ClientState(0, map[], map[])

  /** Resolving keeps the table consistent; exactly the requests asked for leave it, and no
      outcome that was given before changes. */
  lemma ResolveOnce(s: ClientState, ids: set<RequestId>, outcome: Outcome)
    requires s.Consistent()
    ensures var s' := s.Resolve(ids, outcome);
      && s'.Consistent() && s'.Registered() == s.Registered() && s'.sequence == s.sequence
      && (forall id :: id in s.outcomes ==> id in s'.outcomes && s'.outcomes[id] == s.outcomes[id])
      && (forall id :: id in s.pending && id !in ids ==> id in s'.pending && s'.pending[id] == s.pending[id])
      && (forall id :: id in s.pending && id in ids ==> id in s'.outcomes && s'.outcomes[id] == outcome)
  {
  }

  /** A late or duplicate resolution changes nothing. */
  lemma ResolveAgain(s: ClientState, ids: set<RequestId>, outcome: Outcome)
    requires ids !! s.pending.Keys
    ensures s.Resolve(ids, outcome) == s
  {
    var late := map id | id in s.pending && id in ids :: outcome;
    assert late == map[];
    assert s.pending - ids == s.pending;
    assert s.outcomes + late == s.outcomes;
  }

  lemma ResolveUnion(s: ClientState, a: set<RequestId>, b: set<RequestId>, outcome: Outcome)
    ensures s.Resolve(a, outcome).Resolve(b, outcome) == s.Resolve(a + b, outcome)
  {
    var l, r := s.Resolve(a, outcome).Resolve(b, outcome), s.Resolve(a + b, outcome);
    assert l.pending == r.pending;
    assert l.outcomes == r.outcomes;
  }

  // ----- Any run of the client's critical sections -----

  datatype Event =
    | Register(id: RequestId, deadline: Option<Time>)
    | SetResponse(id: RequestId, response: seq<byte>)
    | Abandon(id: RequestId)
    | Collect(now: Time)
    | Broadcast(exc: Error)
    | TearDown

  function After(s: ClientState, e: Event): ClientState {
    match e
    case Register(id, deadline) => s.Register(id, deadline)
    case SetResponse(id, response) => s.Resolve({id}, Ok(response))
    case Abandon(id) => s.Resolve({id}, Err(Cancelled))
    case Collect(now) => s.Gc(now)
    case Broadcast(exc) => s.Resolve(s.pending.Keys, Err(exc))
    case TearDown => s.Resolve(s.pending.Keys, Err(InvalidState))
  }

  /** Ids are registered once, as long as fewer than 2^32 are issued. */
  ghost predicate FreshIds(s: ClientState, es: seq<Event>)
    decreases |es|
  {
    es != [] ==> (es[0].Register? ==> es[0].id !in s.Registered()) && FreshIds(After(s, es[0]), es[1..])
  }

  function Run(s: ClientState, es: seq<Event>): ClientState
    decreases |es|
  {
    if es == [] then s else Run(After(s, es[0]), es[1..])
  }

  lemma AfterKeeps(s: ClientState, e: Event)
    requires s.Consistent() && (e.Register? ==> e.id !in s.Registered())
    ensures var s' := After(s, e);
      && s'.Consistent() && s.Registered() <= s'.Registered()
      && (forall id :: id in s.outcomes ==> id in s'.outcomes && s'.outcomes[id] == s.outcomes[id])
      && (forall id :: id in s'.outcomes && id !in s.outcomes ==> id in s.pending)
  {
    match e {
      case Register(_, _) =>
      case SetResponse(id, response) => ResolveOnce(s, {id}, Ok(response));
      case Abandon(id) => ResolveOnce(s, {id}, Err(Cancelled));
      case Collect(now) => ResolveOnce(s, s.Expired(now), Err(DeadlineExceeded));
      case Broadcast(exc) => ResolveOnce(s, s.pending.Keys, Err(exc));
      case TearDown => ResolveOnce(s, s.pending.Keys, Err(InvalidState));
    }
  }

  /** The events that resolve request `id` when it is pending, and with what. */
  function Verdict(s: ClientState, id: RequestId, e: Event): Option<Outcome> {
    match e
    case Register(_, _) => None
    case SetResponse(id', response) => if id' == id then Some(Ok(response)) else None
    case Abandon(id') => if id' == id then Some(Err(Cancelled)) else None
    case Collect(now) => if id in s.Expired(now) then Some(Err(DeadlineExceeded)) else None
    case Broadcast(exc) => Some(Err(exc))
    case TearDown => Some(Err(InvalidState))
  }

  /** What the first verdict in a run says about a pending request. */
  function FirstVerdict(s: ClientState, id: RequestId, es: seq<Event>): Option<Outcome>
    decreases |es|
  {
    if es == [] then None
    else if Verdict(s, id, es[0]).Some? then Verdict(s, id, es[0])
    else FirstVerdict(After(s, es[0]), id, es[1..])
  }

  lemma VerdictResolves(s: ClientState, id: RequestId, e: Event)
    requires s.Consistent() && (e.Register? ==> e.id !in s.Registered()) && id in s.pending
    ensures var s' := After(s, e);
      if Verdict(s, id, e).None? then id in s'.pending && s'.pending[id] == s.pending[id]
      else id !in s'.pending && id in s'.outcomes && s'.outcomes[id] == Verdict(s, id, e).value
  {
  }

  lemma {:induction false} OutcomeIsFinal(s: ClientState, id: RequestId, es: seq<Event>)
    requires s.Consistent() && FreshIds(s, es) && id in s.outcomes
    ensures Run(s, es).Consistent()
    ensures id in Run(s, es).outcomes && Run(s, es).outcomes[id] == s.outcomes[id]
    decreases |es|
  {
    hide ClientState.Consistent, After, ClientState.Registered;
    if es != [] {
      AfterKeeps(s, es[0]);
      OutcomeIsFinal(After(s, es[0]), id, es[1..]);
    }
  }

  /** Over any run, a pending request leaves the table exactly at the first event that concerns
      it, with that event's outcome, and keeps that outcome for good. */
  lemma {:induction false} FirstVerdictWins(s: ClientState, id: RequestId, es: seq<Event>)
    requires s.Consistent() && FreshIds(s, es) && id in s.pending
    ensures match FirstVerdict(s, id, es)
      case None => id in Run(s, es).pending && id !in Run(s, es).outcomes
      case Some(o) => id !in Run(s, es).pending && id in Run(s, es).outcomes && Run(s, es).outcomes[id] == o
    decreases |es|
  {
    hide After, Verdict, ClientState.Registered;
    if es != [] {
      AfterKeeps(s, es[0]);
      VerdictResolves(s, id, es[0]);
      if Verdict(s, id, es[0]).Some? {
        OutcomeIsFinal(After(s, es[0]), id, es[1..]);
      } else {
        FirstVerdictWins(After(s, es[0]), id, es[1..]);
      }
    }
  }

  // ----- The client object -----

  datatype PendingRequest = PendingRequest(deadline: Option<Time>, result: Promise<seq<byte>>)

  datatype Message = Response(id: RequestId, data: seq<byte>) | Unknown

  /** The outgoing side of the connection: whether it is up, and what was sent. */
  class Link {
    var connected: bool
    var sent: seq<seq<byte>>

    constructor ()
      ensures !connected && sent == []
    {
      connected, sent := false, [];
    }

    /** connect() and send(): `works` says whether they succeed. */
    method ConnectAndSend(data: seq<byte>, works: bool) returns (r: Result<()>)
      modifies this
      ensures (r.Ok? <==> works) && (r.Err? ==> r.error == Eof)
      ensures sent == if works then old(sent) + [data] else old(sent)
      ensures works ==> connected
    {
      if !works {
        return Err(Eof);
      }
      connected := true;
      sent := sent + [data];
      return Ok(());
    }

    method Disconnect()
      modifies this`connected
      ensures !connected
    {
      connected := false;
    }
  }

  class ClientConnection {
    var sequence: RequestId
    var ready: bool
    var pending: map<RequestId, PendingRequest>
    const link: Link
    const newDeadline: Tokens
    const cancelledRequests: Queue<RequestId>

    /** The promises of all requests ever registered, and the table as a value. */
    ghost var promises: map<RequestId, Promise<seq<byte>>>
    ghost var handles: set<Promise<seq<byte>>>
    ghost var state: ClientState

    ghost predicate Valid()
      reads `sequence, `pending, `promises, `handles, `state, newDeadline, cancelledRequests, handles
    {
      && newDeadline.Valid() && cancelledRequests.Valid()
      && state.sequence == sequence
      && (forall id: RequestId :: Tied(id))
      && Separate(promises)
    }

    /** A request is pending, with an open promise, or has left the table, with the outcome it
        got, or was never registered. */
    ghost predicate Tied(id: RequestId)
      reads `pending, `promises, `handles, `state, handles
    {
      && (id in pending <==> id in state.pending)
      && (id in promises <==> id in state.pending || id in state.outcomes)
      && (id in promises ==> promises[id] in handles && promises[id].Valid())
      && (id in pending ==> id !in state.outcomes && promises[id].open
                            && pending[id] == PendingRequest(state.pending[id], promises[id]))
      && (id in state.outcomes ==> promises[id].result == Some(state.outcomes[id]))
    }

    constructor (maxQueuedEvents: nat)
      ensures Valid() && state == NewClient && !ready
      ensures newDeadline.maxSize == maxQueuedEvents && newDeadline.size == 0
      ensures fresh(link) && fresh(newDeadline) && fresh(cancelledRequests) && promises == map[]
    {
      sequence, ready, pending, promises, handles, state := 0, false, map[], map[], {}, NewClient;
      link := new Link();
      newDeadline := new Tokens(maxQueuedEvents);
      cancelledRequests := new Queue(maxQueuedEvents);
    }

    method NewRequestId() returns (id: RequestId)
      requires Valid()
      modifies this`sequence, this`state
      ensures Valid() && id == old(sequence) && state == old(state).Advanced()
      ensures sequence == if id == REQUEST_IDS - 1 then 0 else id + 1
    {
      id := sequence;
      sequence := (sequence + 1) % REQUEST_IDS;
      state := state.Advanced();
      forall i ensures Tied(i) {
        assert old(Tied(i));
      }
    }

    /** The one place where a promise is given its outcome: never twice. */
    method Finish(id: RequestId, outcome: Outcome)
      requires Valid() && id in pending
      modifies this`pending, this`state, handles
      ensures Valid() && pending == old(pending) - {id}
      ensures state == old(state).Resolve({id}, outcome)
      ensures state.outcomes == old(state.outcomes)[id := outcome]
    {
      hide Separate;
      assert Tied(id);
      var r := pending[id].result.Set(outcome);
      assert r.Ok?;
      pending := pending - {id};
      state := state.Resolve({id}, outcome);
      forall i ensures Tied(i) {
        assert old(Tied(i));
        if i != id && i in promises {
          SeparateAt(promises, i, id);
        }
      }
    }

    method AbandonRequest(id: RequestId)
      requires Valid()
      modifies this`pending, this`state, handles
      ensures Valid() && state == After(old(state), Abandon(id))
      ensures pending == old(pending) - {id}
      ensures state.outcomes == if id in old(pending) then old(state.outcomes)[id := Err(Cancelled)] else old(state.outcomes)
    {
      hide ClientState.Resolve, Valid;
      PendingKeys();
      if id in pending {
        Finish(id, Err(Cancelled));
      } else {
        ResolveAgain(state, {id}, Err(Cancelled));
      }
    }

    method SetResponse(id: RequestId, response: seq<byte>)
      requires Valid()
      modifies this`pending, this`state, handles
      ensures Valid() && state == After(old(state), Event.SetResponse(id, response))
      ensures pending == old(pending) - {id}
      ensures state.outcomes == if id in old(pending) then old(state.outcomes)[id := Ok(response)] else old(state.outcomes)
    {
      hide ClientState.Resolve, Valid;
      PendingKeys();
      if id in pending {
        Finish(id, Ok(response));
      } else {
        ResolveAgain(state, {id}, Ok(response));
      }
    }

    method Gc(now: Time)
      requires Valid()
      modifies this`pending, this`state, handles
      ensures Valid() && state == After(old(state), Collect(now))
      ensures forall id :: id in pending <==>
        id in old(pending) && !(old(pending)[id].deadline.Some? && old(pending)[id].deadline.value < now)
      ensures forall id :: id in old(pending) && id !in pending ==>
        id in state.outcomes && state.outcomes[id] == Err(DeadlineExceeded)
    {
      hide ClientState.Resolve, ClientState.Expired, Valid, SameTable;
      ghost var s, table := state, pending;
      PendingTable();
      ResolveExpired(now);
      PendingKeys();
      ExpiredLeave(s, table, now);
    }

    /** The loop of gc. */
    method ResolveExpired(now: Time)
      requires Valid()
      modifies this`pending, this`state, handles
      ensures Valid() && state == old(state).Gc(now)
    {
      hide ClientState.Resolve, ClientState.Expired, Valid;
      PendingKeys();
      ghost var s := state;
      ghost var seen, gone: set<RequestId> := {}, {};
      var rest := pending.Keys;
      ResolveAgain(s, {}, Err(DeadlineExceeded));
      while rest != {}
        invariant Valid() && seen !! rest && seen + rest == s.pending.Keys && rest <= pending.Keys
        invariant gone == seen * s.Expired(now) && state == s.Resolve(gone, Err(DeadlineExceeded))
        decreases |rest|
      {
        var id :| id in rest;
        rest := rest - {id};
        StillPending(s, gone, id);
        PendingDeadline(id);
        ExpiredAt(s, now, id);
        seen := seen + {id};
        if pending[id].deadline.Some? && pending[id].deadline.value < now {
          ResolveUnion(s, gone, {id}, Err(DeadlineExceeded));
          gone := gone + {id};
          Finish(id, Err(DeadlineExceeded));
        }
      }
      ExpiredAt(s, now, 0);
      assert gone == s.Expired(now);
    }

    lemma ExpiredAt(s: ClientState, now: Time, id: RequestId)
      ensures s.Expired(now) <= s.pending.Keys
      ensures id in s.Expired(now) <==> id in s.pending && s.pending[id].Some? && s.pending[id].value < now
    {
    }

    ghost predicate SameTable(s: ClientState, table: map<RequestId, PendingRequest>) {
      forall id :: (id in s.pending <==> id in table) && (id in table ==> s.pending[id] == table[id].deadline)
    }

    lemma PendingTable()
      requires Valid()
      ensures SameTable(state, pending)
    {
      forall id ensures (id in state.pending <==> id in pending) && (id in pending ==> state.pending[id] == pending[id].deadline) {
        assert Tied(id);
      }
    }

    lemma ExpiredLeave(s: ClientState, table: map<RequestId, PendingRequest>, now: Time)
      requires SameTable(s, table)
      ensures var s' := s.Resolve(s.Expired(now), Err(DeadlineExceeded));
        && (forall id :: id in s'.pending <==>
              id in table && !(table[id].deadline.Some? && table[id].deadline.value < now))
        && (forall id :: id in table && id !in s'.pending ==> id in s'.outcomes && s'.outcomes[id] == Err(DeadlineExceeded))
    {
    }

    lemma StillPending(s: ClientState, gone: set<RequestId>, id: RequestId)
      requires state == s.Resolve(gone, Err(DeadlineExceeded)) && id in s.pending && id !in gone
      ensures id in state.pending && state.pending[id] == s.pending[id]
    {
    }

    lemma PendingKeys()
      requires Valid()
      ensures pending.Keys == state.pending.Keys
    {
      forall id ensures id in pending <==> id in state.pending {
        assert Tied(id);
      }
    }

    lemma PendingDeadline(id: RequestId)
      requires Valid() && id in pending
      ensures id in state.pending && pending[id].deadline == state.pending[id]
    {
      assert Tied(id);
    }

    /** broadcast_exception; the destructor breaks the remaining promises the same way. */
    method FinishAll(outcome: Outcome)
      requires Valid()
      modifies this`pending, this`state, handles
      ensures Valid() && pending == map[]
      ensures state == old(state).Resolve(old(state).pending.Keys, outcome)
      ensures forall id :: id in old(pending) ==> id in state.outcomes && state.outcomes[id] == outcome
    {
      hide ClientState.Resolve, Valid;
      PendingKeys();
      ghost var s := state;
      ghost var gone: set<RequestId> := {};
      ResolveAgain(s, {}, outcome);
      while pending.Keys != {}
        invariant Valid() && gone + pending.Keys == s.pending.Keys
        invariant state == s.Resolve(gone, outcome)
        decreases |pending.Keys|
      {
        var id :| id in pending.Keys;
        ResolveUnion(s, gone, {id}, outcome);
        gone := gone + {id};
        Finish(id, outcome);
      }
      assert gone == s.pending.Keys;
      AllResolved(s, outcome);
    }

    lemma AllResolved(s: ClientState, outcome: Outcome)
      ensures var s' := s.Resolve(s.pending.Keys, outcome);
        forall id :: id in s.pending ==> id in s'.outcomes && s'.outcomes[id] == outcome
    {
    }

    method BroadcastException(exc: Error)
      requires Valid()
      modifies this`pending, this`state, handles
      ensures Valid() && state == After(old(state), Broadcast(exc)) && pending == map[]
      ensures forall id :: id in old(pending) ==> id in state.outcomes && state.outcomes[id] == Err(exc)
    {
      FinishAll(Err(exc));
    }

    method Destroy()
      requires Valid()
      modifies this`pending, this`state, handles
      ensures Valid() && state == After(old(state), TearDown) && pending == map[]
      ensures forall id :: id in old(pending) ==> id in state.outcomes && state.outcomes[id] == Err(InvalidState)
    {
      FinishAll(Err(InvalidState));
    }

    method Send(data: seq<byte>, works: bool) returns (r: Result<()>)
      modifies this`ready, link
      ensures (r.Ok? <==> works) && (r.Err? ==> r.error == Eof)
      ensures ready == works && (works ==> link.connected) && (!works ==> !link.connected)
      ensures link.sent == if works then old(link.sent) + [data] else old(link.sent)
    {
      r := link.ConnectAndSend(data, works);
      ready := r.Ok?;
      if r.Err? {
        link.Disconnect();
      }
    }

    /** The new entry of the table, with its promise. */
    method AddPending(id: RequestId, deadline: Option<Time>) returns (result: Promise<seq<byte>>)
      requires Valid() && id !in state.Registered()
      modifies this`pending, this`promises, this`handles, this`state
      ensures Valid() && state == old(state).Register(id, deadline)
      ensures pending == old(pending)[id := PendingRequest(deadline, result)] && state.outcomes == old(state.outcomes)
      ensures fresh(result) && promises == old(promises)[id := result] && handles == old(handles) + {result}
    {
      hide Separate;
      assert Tied(id);
      result := new Promise();
      forall i | i in promises ensures promises[i] in handles {
        assert Tied(i);
      }
      SeparateAdd(promises, handles, id, result);
      pending := pending[id := PendingRequest(deadline, result)];
      promises := promises[id := result];
      handles := handles + {result};
      state := state.Register(id, deadline);
      forall i ensures Tied(i) {
        assert old(Tied(i));
      }
    }

    /** The critical section of send_request. */
    method RegisterRequest(id: RequestId, deadline: Option<Time>) returns (result: Promise<seq<byte>>)
      requires Valid() && id !in state.Registered()
      modifies this`pending, this`promises, this`handles, this`state, newDeadline
      ensures Valid() && state == After(old(state), Register(id, deadline))
      ensures pending == old(pending)[id := PendingRequest(deadline, result)] && state.outcomes == old(state.outcomes)
      ensures fresh(result) && promises == old(promises)[id := result] && handles == old(handles) + {result}
      ensures (newDeadline.size == if deadline.Some? && old(newDeadline.size) < newDeadline.maxSize
                                   then old(newDeadline.size) + 1 else old(newDeadline.size))
    {
      hide Separate, Tied, ClientState.Register;
      result := AddPending(id, deadline);
      if deadline.Some? {
        var _ := newDeadline.MaybePut();
      }
    }

    method SendRequest(id: RequestId, deadline: Option<Time>, request: seq<byte>, works: bool)
      returns (r: Result<Promise<seq<byte>>>)
      requires Valid() && id !in state.Registered()
      modifies this`pending, this`promises, this`handles, this`state, this`ready, newDeadline, link, handles
      ensures Valid() && (r.Ok? <==> works)
      ensures state == (if works then After(old(state), Register(id, deadline))
                        else After(After(old(state), Register(id, deadline)), Abandon(id)))
      ensures r.Ok? ==> id in promises && r.value == promises[id] && pending == old(pending)[id := PendingRequest(deadline, r.value)]
      ensures r.Err? ==> r.error == Eof && pending == old(pending) - {id} && state.outcomes == old(state.outcomes)[id := Err(Cancelled)]
      ensures link.sent == if works then old(link.sent) + [request] else old(link.sent)
    {
      var result := RegisterRequest(id, deadline);
      var sent := Send(request, works);
      if sent.Err? {
        AbandonRequest(id);
        return Err(sent.error);
      }
      return Ok(result);
    }

    method CancelRequest(id: RequestId)
      requires Valid()
      modifies this`pending, this`state, handles, cancelledRequests
      ensures Valid() && state == After(old(state), Abandon(id)) && pending == old(pending) - {id}
      ensures (cancelledRequests.data == if |old(cancelledRequests.data)| < cancelledRequests.maxSize
                                         then old(cancelledRequests.data) + [id] else old(cancelledRequests.data))
    {
      AbandonRequest(id);
      var _ := cancelledRequests.MaybePut(id);
    }

    /** The receiver thread from one connection to its loss: responses until something that is
        not one, or the end of the stream, which fails all requests still pending. */
    method ReceiveUntilLost(messages: seq<Message>, lost: Error)
      requires Valid()
      modifies this`pending, this`ready, this`state, handles, link
      ensures Valid() && !ready && !link.connected && pending == map[]
      ensures state == After(Run(old(state), Responses(messages)), Broadcast(LossError(messages, lost)))
    {
      hide ClientState.Resolve, Valid;
      ghost var s := state;
      var i: nat := 0;
      while i < |messages| && messages[i].Response?
        invariant i <= |messages| && Valid()
        invariant Run(s, Responses(messages)) == Run(state, Responses(messages[i..]))
        invariant LossError(messages, lost) == LossError(messages[i..], lost)
        decreases |messages| - i
      {
        assert messages[i..][0] == messages[i] && messages[i..][1..] == messages[i + 1..];
        SetResponse(messages[i].id, messages[i].data);
        i := i + 1;
      }
      var exc := if i < |messages| then DataMismatch else lost;
      ready := false;
      link.Disconnect();
      FinishAll(Err(exc));
    }

    method GetEarliestDeadline() returns (earliest: Option<Time>)
      requires Valid()
      ensures IsEarliest(state, earliest)
      ensures earliest.Some? ==> exists id :: id in pending && pending[id].deadline == earliest
      ensures forall id :: id in pending && pending[id].deadline.Some? ==>
        earliest.Some? && earliest.value <= pending[id].deadline.value
    {
      hide Valid;
      PendingKeys();
      var rest := pending.Keys;
      earliest := None;
      while rest != {}
        invariant rest <= pending.Keys
        invariant earliest.Some? ==> exists id :: id in pending && pending[id].deadline == earliest
        invariant forall id :: id in pending && id !in rest && pending[id].deadline.Some? ==>
          earliest.Some? && earliest.value <= pending[id].deadline.value
        decreases |rest|
      {
        var id :| id in rest;
        rest := rest - {id};
        if pending[id].deadline.Some? {
          if earliest.Some? {
            earliest := Some(if pending[id].deadline.value < earliest.value
                             then pending[id].deadline.value else earliest.value);
          } else {
            earliest := pending[id].deadline;
          }
        }
      }
      forall id | id in pending ensures pending[id].deadline == state.pending[id] {
        PendingDeadline(id);
      }
      if earliest.Some? {
        ghost var id :| id in pending && pending[id].deadline == earliest;
        assert state.pending[id] == earliest;
      }
    }
  }

  /** No two requests share a promise. */
  ghost predicate Separate(promises: map<RequestId, Promise<seq<byte>>>) {
    forall a, b :: a in promises && b in promises && a != b ==> promises[a] != promises[b]
  }

  lemma SeparateAt(promises: map<RequestId, Promise<seq<byte>>>, a: RequestId, b: RequestId)
    requires Separate(promises) && a in promises && b in promises && a != b
    ensures promises[a] != promises[b]
  {
  }

  lemma SeparateAdd(promises: map<RequestId, Promise<seq<byte>>>, handles: set<Promise<seq<byte>>>,
                    id: RequestId, p: Promise<seq<byte>>)
    requires Separate(promises) && (forall i :: i in promises ==> promises[i] in handles) && p !in handles
    ensures Separate(promises[id := p])
  {
  }

  /** The responses that arrive before the first unknown message, as events. */
  function Responses(messages: seq<Message>): seq<Event>
  {
    if messages == [] || messages[0].Unknown? then []
    else [SetResponse(messages[0].id, messages[0].data)] + Responses(messages[1..])
  }

  function LossError(messages: seq<Message>, lost: Error): Error {
    if messages == [] then lost
    else if messages[0].Unknown? then DataMismatch
    else LossError(messages[1..], lost)
  }

  /** What the receiver thread leaves behind: a request that was pending has the first response
      that came under its id before the connection was lost, and otherwise the error of the loss.
      `n` is where the responses end, and `i` where the first one with the id is. */
  lemma {:induction false} ReceivedOutcomes(s: ClientState, messages: seq<Message>, lost: Error, n: nat, id: RequestId, i: nat)
    requires s.Consistent() && id in s.pending && i <= n <= |messages|
    requires forall j :: 0 <= j < n ==> messages[j].Response?
    requires n < |messages| ==> messages[n].Unknown?
    requires forall j :: 0 <= j < i ==> messages[j].id != id
    requires i < n ==> messages[i].id == id
    ensures var s' := After(Run(s, Responses(messages)), Broadcast(LossError(messages, lost)));
      && s'.pending == map[] && id in s'.outcomes
      && s'.outcomes[id] == if i < n then Ok(messages[i].data) else if n < |messages| then Err(DataMismatch) else Err(lost)
    decreases |messages|
  {
    hide ClientState.Registered, Run;
    if n == 0 {
      RunNothing(s);
    } else {
      var e := SetResponse(messages[0].id, messages[0].data);
      var rest, s1 := messages[1..], After(s, e);
      assert [e] + Responses(rest) == Responses(messages);
      RunFirst(s, e, Responses(rest));
      AfterKeeps(s, e);
      if i == 0 {
        LateResponses(s1, rest, id);
        Broadcasts(Run(s1, Responses(rest)), LossError(rest, lost), id);
      } else {
        assert forall j :: 0 <= j < |rest| ==> rest[j] == messages[j + 1];
        VerdictResolves(s, id, e);
        ReceivedOutcomes(s1, rest, lost, n - 1, id, i - 1);
      }
    }
  }

  lemma RunNothing(s: ClientState)
    ensures Run(s, []) == s
  {
  }

  lemma RunFirst(s: ClientState, e: Event, es: seq<Event>)
    ensures Run(s, [e] + es) == Run(After(s, e), es)
  {
    assert ([e] + es)[1..] == es;
  }

  lemma Broadcasts(s: ClientState, exc: Error, id: RequestId)
    requires id in s.outcomes && s.Consistent()
    ensures var s' := After(s, Broadcast(exc)); s'.pending == map[] && id in s'.outcomes && s'.outcomes[id] == s.outcomes[id]
  {
  }

  lemma {:induction false} LateResponses(s: ClientState, messages: seq<Message>, id: RequestId)
    requires s.Consistent() && id in s.outcomes
    ensures var s' := Run(s, Responses(messages));
      s'.Consistent() && id in s'.outcomes && s'.outcomes[id] == s.outcomes[id]
    decreases |messages|
  {
    hide ClientState.Registered, Run, After;
    if messages == [] || messages[0].Unknown? {
      RunNothing(s);
    } else {
      var e := SetResponse(messages[0].id, messages[0].data);
      RunFirst(s, e, Responses(messages[1..]));
      AfterKeeps(s, e);
      LateResponses(After(s, e), messages[1..], id);
    }
  }

  ghost predicate IsEarliest(s: ClientState, earliest: Option<Time>) {
    && (earliest.Some? ==> earliest.value in s.Deadlines())
    && forall id :: id in s.pending && s.pending[id].Some? ==>
         earliest.Some? && earliest.value <= s.pending[id].value
  }
}
