/** The server side (src/arpc/server.h): the table of connections under keys that are never
    reused while in use, and the table of requests under (connection key, request id). */
module Server {
  import opened Results
  import opened Streams
  import opened Client

  const KEYS := 0x1_0000_0000_0000_0000

  type Key = nat
  type ConnId = nat
  type RequestKey = (Key, RequestId)

  datatype Progress = Queued | Running | Done(response: seq<byte>) | Delivered

  datatype Request = Request(payload: seq<byte>, cancelled: bool, progress: Progress)

  datatype Reply = Reply(id: RequestId, data: seq<byte>)

  /** connection_wrapper: the connection and its queue of responses. */
  datatype Wrapper = Wrapper(conn: ConnId, responses: seq<Reply>)

  datatype ServerState = ServerState(nextKey: Key, connections: map<Key, Wrapper>, requests: map<RequestKey, Request>)
  {
    /** A request whose key is already known is dropped. */
    function QueueRequest(k: RequestKey, payload: seq<byte>): ServerState {
      if k in requests then this else this.(requests := requests[k := Request(payload, false, Queued)])
    }

    function CancelRequest(k: RequestKey): ServerState {
      if k in requests then this.(requests := requests[k := requests[k].(cancelled := true)]) else this
    }

    /** A pool thread takes up a queued request, or finishes a running one. */
    function Progressed(k: RequestKey, p: Progress): ServerState
      requires k in requests
    {
      this.(requests := requests[k := requests[k].(progress := p)])
    }

    /** finish: the response goes to the connection it came from, if that still exists. */
    function Deliver(k: RequestKey): ServerState
      requires k in requests && requests[k].progress.Done?
    {
      var s := Progressed(k, Delivered);
      if k.0 !in connections then s
      else
        var w := connections[k.0];
        s.(connections := connections[k.0 := w.(responses := w.responses + [Reply(k.1, requests[k].progress.response)])])
    }

    function RemoveRequest(k: RequestKey): ServerState {
      this.(requests := requests - {k})
    }

    function Connected(key: Key, conn: ConnId): ServerState {
      this.(nextKey := key, connections := connections[key := Wrapper(conn, [])])
    }

    /** The next response leaves its connection's queue. */
    function Sent(key: Key): ServerState
      requires key in connections && connections[key].responses != []
    {
      this.(connections := connections[key := connections[key].(responses := connections[key].responses[1..])])
    }

    function Removed(key: Key): ServerState {
      this.(connections := connections - {key})
    }
  }

  const NewServer := ServerState(0, map[], map[])

  // ----- Any run of the critical sections on the request table -----

  datatype RequestEvent =
    | Arrives(k: RequestKey, payload: seq<byte>)          // queue_request
    | IsCancelled(k: RequestKey)                          // cancel_request
    | Moves(k: RequestKey, p: Progress)                   // a pool thread starts or finishes it
    | Leaves(k: RequestKey)                               // remove_request

  function AfterRequest(s: ServerState, e: RequestEvent): ServerState {
    match e
    case Arrives(k, payload) => s.QueueRequest(k, payload)
    case IsCancelled(k) => s.CancelRequest(k)
    case Moves(k, p) => if k in s.requests then s.Progressed(k, p) else s
    case Leaves(k) => s.RemoveRequest(k)
  }

  function RunRequests(s: ServerState, es: seq<RequestEvent>): ServerState
    decreases |es|
  {
    if es == [] then s else RunRequests(AfterRequest(s, es[0]), es[1..])
  }

  /** As long as a known request stays in the table, duplicates under its key change nothing: it
      keeps the payload of the packet that came first, and it is marked cancelled exactly when
      it was before or a cancellation of its own key came. */
  lemma {:induction false} KnownRequestStays(s: ServerState, es: seq<RequestEvent>, k: RequestKey)
    requires k in s.requests && Leaves(k) !in es
    ensures var s' := RunRequests(s, es);
      && k in s'.requests && s'.requests[k].payload == s.requests[k].payload
      && (s'.requests[k].cancelled <==> s.requests[k].cancelled || IsCancelled(k) in es)
    decreases |es|
  {
    if es != [] {
      var s1 := AfterRequest(s, es[0]);
      assert es[0] in es && forall e :: e in es[1..] ==> e in es;
      assert forall e :: e in es ==> e == es[0] || e in es[1..];
      KnownRequestStays(s1, es[1..], k);
    }
  }

  /** What happens after a run went on from where another ended. */
  lemma {:induction false} RunThen(s: ServerState, a: seq<RequestEvent>, b: seq<RequestEvent>)
    ensures RunRequests(s, a + b) == RunRequests(RunRequests(s, a), b)
    decreases |a|
  {
    if a == [] {
      assert a + b == b;
    } else {
      assert (a + b)[0] == a[0] && (a + b)[1..] == a[1..] + b;
      RunThen(AfterRequest(s, a[0]), a[1..], b);
    }
  }

  /** The first packet of a run without removals, on a table without the key. */
  lemma {:induction false} FirstArrivalWins(s: ServerState, es: seq<RequestEvent>, k: RequestKey, i: nat)
    requires k !in s.requests && Leaves(k) !in es && i <= |es|
    requires forall j :: 0 <= j < i ==> !(es[j].Arrives? && es[j].k == k)
    requires i < |es| ==> es[i].Arrives? && es[i].k == k
    ensures var s' := RunRequests(s, es);
      if i == |es| then k !in s'.requests
      else
        && k in s'.requests && s'.requests[k].payload == es[i].payload
        && (s'.requests[k].cancelled <==> IsCancelled(k) in es[i + 1..])
    decreases |es|
  {
    if es != [] {
      var s1 := AfterRequest(s, es[0]);
      assert es[0] in es && forall e :: e in es[1..] ==> e in es;
      if i == 0 {
        KnownRequestStays(s1, es[1..], k);
      } else {
        assert forall j :: 0 <= j < i - 1 ==> es[1..][j] == es[j + 1];
        assert i < |es| ==> es[1..][i - 1] == es[i] && es[1..][i..] == es[i + 1..];
        FirstArrivalWins(s1, es[1..], k, i - 1);
      }
    }
  }

  /** The first request under a key wins.  Over any run, take the events after the key was last
      removed, or all of them if it was not in the table at first and never removed: `from` is where
      they begin, and `i` where the first packet under the key arrives among them.  The entry has
      that packet's payload, whatever arrives later, and only cancellations after it count.
      Without such a packet there is no entry. */
  lemma FirstRequestWins(s: ServerState, es: seq<RequestEvent>, k: RequestKey, from: nat, i: nat)
    requires from <= i <= |es| && (if from == 0 then k !in s.requests else es[from - 1] == Leaves(k))
    requires forall j :: from <= j < |es| ==> es[j] != Leaves(k)
    requires forall j :: from <= j < i ==> !(es[j].Arrives? && es[j].k == k)
    requires i < |es| ==> es[i].Arrives? && es[i].k == k
    ensures var s' := RunRequests(s, es);
      if i == |es| then k !in s'.requests
      else
        && k in s'.requests && s'.requests[k].payload == es[i].payload
        && (s'.requests[k].cancelled <==> IsCancelled(k) in es[i + 1..])
  {
    var before, after := es[..from], es[from..];
    assert es == before + after;
    RunThen(s, before, after);
    var s1 := RunRequests(s, before);
    if from > 0 {
      assert before == es[..from - 1] + [Leaves(k)];
      RunThen(s, es[..from - 1], [Leaves(k)]);
      RunLast(RunRequests(s, es[..from - 1]), k);
    }
    assert i < |es| ==> after[i - from] == es[i] && after[i - from + 1..] == es[i + 1..];
    FirstArrivalWins(s1, after, k, i - from);
  }

  lemma RunLast(s: ServerState, k: RequestKey)
    ensures k !in RunRequests(s, [Leaves(k)]).requests
  {
    assert RunRequests(s.RemoveRequest(k), []) == s.RemoveRequest(k);
    assert [Leaves(k)][1..] == [];
  }

  /** `key` is the first one after `next`, counting round, that is not in use. */
  ghost predicate IsNextKey(next: Key, used: set<Key>, key: Key) {
    exists d: nat {:trigger Ahead(next, d)} ::
      0 < d <= KEYS && key == Ahead(next, d) && key !in used
      && forall e: nat {:trigger Ahead(next, e)} :: 0 < e < d ==> Ahead(next, e) in used
  }

  function Ahead(next: Key, d: nat): Key {
    (next + d) % KEYS
  }

  /** When the very next key is free, it is the one. */
  lemma NextKeyDirect(next: Key, used: set<Key>, key: Key)
    requires IsNextKey(next, used, key) && Ahead(next, 1) !in used
    ensures key == Ahead(next, 1)
  {
  }

  lemma AheadDistinct(next: Key, d: nat, e: nat)
    requires d < e < d + KEYS
    ensures Ahead(next, d) != Ahead(next, e)
  {
  }

  /** The tables of the server object, and its methods on them. */
  class ServerTables {
    var nextConnectionKey: Key
    var connections: map<Key, Wrapper>
    var requests: map<RequestKey, Request>

    constructor ()
      ensures State() == NewServer
    {
      nextConnectionKey, connections, requests := 0, map[], map[];
    }

    function State(): ServerState
      reads this
    {
      ServerState(nextConnectionKey, connections, requests)
    }

    method QueueRequest(k: RequestKey, payload: seq<byte>)
      modifies this`requests
      ensures State() == AfterRequest(old(State()), Arrives(k, payload))
      ensures requests == if k in old(requests) then old(requests) else old(requests)[k := Request(payload, false, Queued)]
    {
      if k in requests {
        return;
      }
      requests := requests[k := Request(payload, false, Queued)];
    }

    method CancelRequest(k: RequestKey)
      modifies this`requests
      ensures State() == AfterRequest(old(State()), IsCancelled(k))
      ensures requests == if k in old(requests) then old(requests)[k := old(requests)[k].(cancelled := true)] else old(requests)
    {
      if k in requests {
        requests := requests[k := requests[k].(cancelled := true)];
      }
    }

    /** request_wrapper::finish, when the result is there: if the connection that the request came
        from is still known, its queue ends with the reply, which has the id of the request and the
        response that was stored; no other queue and no other request changes. */
    method Finish(k: RequestKey)
      requires k in requests && requests[k].progress.Done?
      modifies this`requests, this`connections
      ensures State() == old(State()).Deliver(k).RemoveRequest(k)
      ensures requests == old(requests) - {k} && connections.Keys == old(connections.Keys)
      ensures k.0 in connections ==>
        && connections[k.0].conn == old(connections[k.0].conn)
        && connections[k.0].responses == old(connections[k.0].responses) + [Reply(k.1, old(requests[k].progress.response))]
      ensures forall key :: key in connections && key != k.0 ==> connections[key] == old(connections[key])
    {
      ghost var before := State();
      var response := requests[k].progress.response;
      if k.0 in connections {
        var w := connections[k.0];
        connections := connections[k.0 := w.(responses := w.responses + [Reply(k.1, response)])];
      }
      requests := requests - {k};
      assert requests == before.Deliver(k).RemoveRequest(k).requests;
    }

    /** get_new_connection: skip keys in use.  The loop ends because not all of them are. */
    method GetNewConnection(conn: ConnId) returns (key: Key)
      requires |connections| < KEYS && nextConnectionKey < KEYS
      modifies this`nextConnectionKey, this`connections
      ensures IsNextKey(old(nextConnectionKey), old(connections.Keys), key) && key < KEYS
      ensures State() == old(State()).Connected(key, conn)
      ensures nextConnectionKey == key && connections == old(connections)[key := Wrapper(conn, [])]
    {
      var used := connections.Keys;
      ghost var next, d, seen: set<Key> := nextConnectionKey, 1, {};
      assert |used| == |connections|;
      nextConnectionKey := (nextConnectionKey + 1) % KEYS;
      while nextConnectionKey in used
        invariant connections == old(connections) && 0 < d && nextConnectionKey == Ahead(next, d)
        invariant forall e: nat :: 0 < e < d ==> Ahead(next, e) in seen
        invariant forall k :: k in seen ==> exists e: nat {:trigger Ahead(next, e)} :: 0 < e < d && k == Ahead(next, e)
        invariant seen <= used && |seen| == d - 1
        decreases |used| - |seen|
      {
        SubsetSize(seen, used);
        forall e: nat | 0 < e < d ensures Ahead(next, e) != Ahead(next, d) {
          AheadDistinct(next, e, d);
        }
        assert nextConnectionKey !in seen;
        seen := seen + {nextConnectionKey};
        SubsetSize(seen, used);
        AheadStep(next, d);
        d := d + 1;
        nextConnectionKey := (nextConnectionKey + 1) % KEYS;
      }
      SubsetSize(seen, used);
      key := nextConnectionKey;
      connections := connections[key := Wrapper(conn, [])];
    }
  }

  lemma AheadStep(next: Key, d: nat)
    ensures (Ahead(next, d) + 1) % KEYS == Ahead(next, d + 1)
  {
  }

  lemma SubsetSize<T>(a: set<T>, b: set<T>)
    requires a <= b
    ensures |a| <= |b|
  {
    assert b == a + (b - a);
  }
}
