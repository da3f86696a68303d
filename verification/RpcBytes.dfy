/** Clients, connections and server over byte streams.  What RpcSystem does with whole packets is
    done here with bytes: a packet is its header and payload, a packet protocol frames it, a
    connection is two byte streams that may break anywhere, and the receiver takes whatever
    packet it can read there.  As long as every packet sent is one that its protocol delivers,
    this refines RpcSystem, so its theorems hold of bytes; a longer packet breaks them. */
module RpcBytes {
  import opened Results
  import opened Streams
  import opened Variant
  import opened Client
  import opened Server
  import opened Framing
  import R = RpcSystem
  import A = RpcAnswers

  // ----- Packets -----

  const REQUEST: byte := 0
  const RESPONSE: byte := 1
  const CANCEL_REQUEST: byte := 2

  function Header(kind: byte, id: RequestId): seq<byte> {
    [kind] + LowBytes(id, 4)
  }

  function RequestBytes(p: R.Packet): seq<byte> {
    match p
    case Invoke(id, payload) => Header(REQUEST, id) + payload
    case Cancel(id) => Header(CANCEL_REQUEST, id)
  }

  function ResponseBytes(r: Reply): seq<byte> {
    Header(RESPONSE, r.id) + r.data
  }

  function LowValue(bs: seq<byte>): nat {
    if bs == [] then 0 else bs[0] + 256 * LowValue(bs[1..])
  }

  function Limit(n: nat): (l: nat)
    ensures l > 0
  {
    if n == 0 then 1 else 256 * Limit(n - 1)
  }

  lemma {:induction false} LowBytesValue(x: nat, n: nat)
    requires x < Limit(n)
    ensures LowValue(LowBytes(x, n)) == x
    decreases n
  {
    if n > 0 {
      LowBytesValue(x / 256, n - 1);
      assert LowBytes(x, n)[1..] == LowBytes(x / 256, n - 1);
    }
  }

  lemma {:induction false} LowValueBytes(bs: seq<byte>)
    ensures LowValue(bs) < Limit(|bs|) && LowBytes(LowValue(bs), |bs|) == bs
    decreases |bs|
  {
    if bs != [] {
      LowValueBytes(bs[1..]);
      LowByteFirst(bs[0], LowValue(bs[1..]), |bs|);
      assert [bs[0]] + bs[1..] == bs;
    }
  }

  lemma LowByteFirst(b: byte, v: nat, n: nat)
    requires n > 0
    ensures LowBytes(b + 256 * v, n) == [b] + LowBytes(v, n - 1)
  {
    assert (b + 256 * v) % 256 == b && (b + 256 * v) / 256 == v;
  }

  lemma FourBytes()
    ensures Limit(4) == REQUEST_IDS
  {
    assert Limit(1) == 256 && Limit(2) == 0x1_0000 && Limit(3) == 0x100_0000;
  }

  /** The header of a packet, and what follows it; None if the packet is too short. */
  function Parse(bytes: seq<byte>): Option<(byte, RequestId, seq<byte>)> {
    FourBytes();
    if |bytes| < 5 then None
    else
      LowValueBytes(bytes[1..5]);
      Some((bytes[0], LowValue(bytes[1..5]), bytes[5..]))
  }

  lemma ParseHeader(kind: byte, id: RequestId, rest: seq<byte>)
    ensures Parse(Header(kind, id) + rest) == Some((kind, id, rest))
  {
    FourBytes();
    LowBytesValue(id, 4);
    var bytes := Header(kind, id) + rest;
    assert bytes[1..5] == LowBytes(id, 4) && bytes[5..] == rest;
  }

  lemma ParsedHeader(bytes: seq<byte>, kind: byte, id: RequestId, rest: seq<byte>)
    requires Parse(bytes) == Some((kind, id, rest))
    ensures bytes == Header(kind, id) + rest
  {
    LowValueBytes(bytes[1..5]);
    assert bytes == [bytes[0]] + bytes[1..5] + bytes[5..];
  }

  /** What the server makes of a packet; None if it throws. */
  function ParseRequest(bytes: seq<byte>): Option<R.Packet> {
    match Parse(bytes)
    case None => None
    case Some((kind, id, rest)) =>
      if kind == REQUEST then Some(R.Invoke(id, rest))
      else if kind == CANCEL_REQUEST then Some(R.Cancel(id))
      else None
  }

  /** What the client makes of a packet; None if it throws. */
  function ParseResponse(bytes: seq<byte>): Option<Reply> {
    match Parse(bytes)
    case None => None
    case Some((kind, id, rest)) => if kind == RESPONSE then Some(Reply(id, rest)) else None
  }

  lemma RequestParses(p: R.Packet)
    ensures ParseRequest(RequestBytes(p)) == Some(p)
  {
    hide Header, Parse;
    match p
    case Invoke(id, payload) => ParseHeader(REQUEST, id, payload);
    case Cancel(id) =>
      ParseHeader(CANCEL_REQUEST, id, []);
      assert Header(CANCEL_REQUEST, id) + [] == Header(CANCEL_REQUEST, id);
  }

  lemma ResponseParses(r: Reply)
    ensures ParseResponse(ResponseBytes(r)) == Some(r)
  {
    hide Header, Parse;
    ParseHeader(RESPONSE, r.id, r.data);
  }

  /** Different bytes are different calls. */
  lemma InvokeParsed(bytes: seq<byte>, id: RequestId, payload: seq<byte>)
    requires ParseRequest(bytes) == Some(R.Invoke(id, payload))
    ensures bytes == RequestBytes(R.Invoke(id, payload))
  {
    hide Header, Parse;
    ParsedHeader(bytes, REQUEST, id, payload);
  }

  // ----- The system -----

  /** The bytes on their way up and down a connection; a direction that broke takes no more. */
  datatype Wire = Wire(up: seq<byte>, upOpen: bool, down: seq<byte>, downOpen: bool)

  /** `sys.conns` remembers the packets that were sent and not yet received; nothing looks at it. */
  datatype State = State(sys: R.State, wires: map<ConnId, Wire>)

  datatype Step =
    | Quiet(step: R.Step)                                  // touches no connection
    | Connect(conn: ConnId, c: R.ClientId)
    | SendInvoke(c: R.ClientId, id: RequestId, conn: ConnId)
    | SendCancel(c: R.ClientId, id: RequestId, conn: ConnId)
    | ServerReceive(key: Key)
    | ServerSend(key: Key, works: bool)
    | Receive(conn: ConnId)
    | Cut(conn: ConnId, up: nat, down: nat)                // breaks, after so many more bytes

  predicate IsQuiet(step: R.Step) {
    match step
    case NewClient(_) => true
    case NewCall(_, _) => true
    case Local(_, _) => true
    case SendNothing(_, _) => true
    case Accept(_, _) => true
    case Start(_) => true
    case Complete(_, _) => true
    case Deliver(_) => true
    case RemoveRequest(_) => true
    case RemoveConnection(_) => true
    case _ => false
  }

  /** The next request that the server can read from a connection, and the bytes behind it. */
  function NextRequest(pr: Protocol, w: Wire): Option<(R.Packet, seq<byte>)> {
    match ReceiveFrom(pr, w.up)
    case Err(_) => None
    case Ok((bytes, rest)) =>
      match ParseRequest(bytes)
      case None => None
      case Some(p) => Some((p, rest))
  }

  function NextResponse(pr: Protocol, w: Wire): Option<(Reply, seq<byte>)> {
    match ReceiveFrom(pr, w.down)
    case Err(_) => None
    case Ok((bytes, rest)) =>
      match ParseResponse(bytes)
      case None => None
      case Some(r) => Some((r, rest))
  }

  predicate Known(s: State, conn: ConnId) {
    conn in s.wires && conn in s.sys.conns
  }

  ghost predicate Enabled(pr: Protocol, s: State, step: Step) {
    match step
    case Quiet(st) => IsQuiet(st) && R.Enabled(s.sys, st)
    case Connect(conn, c) => R.Enabled(s.sys, R.Connect(conn, c))
    case SendInvoke(c, id, conn) => conn in s.wires && R.Enabled(s.sys, R.SendInvoke(c, id, conn))
    case SendCancel(c, id, conn) => conn in s.wires && R.Enabled(s.sys, R.SendCancel(c, id, conn))
    case ServerReceive(key) =>
      key in s.sys.server.connections
      && var conn := s.sys.server.connections[key].conn;
         Known(s, conn) && NextRequest(pr, s.wires[conn]).Some?
    case ServerSend(key, works) =>
      R.Enabled(s.sys, R.ServerSend(key, works)) && s.sys.server.connections[key].conn in s.wires
    case Receive(conn) =>
      Known(s, conn) && s.sys.conns[conn].client in s.sys.clients && NextResponse(pr, s.wires[conn]).Some?
    case Cut(conn, up, down) => conn in s.wires && up <= |s.wires[conn].up| && down <= |s.wires[conn].down|
  }

  function SentUp(pr: Protocol, w: Wire, packet: seq<byte>): Wire {
    if w.upOpen then w.(up := w.up + FrameOf(pr, packet)) else w
  }

  function SentDown(pr: Protocol, w: Wire, packet: seq<byte>): Wire {
    if w.downOpen then w.(down := w.down + FrameOf(pr, packet)) else w
  }

  /** The oldest packet that was sent is no longer expected. */
  function PopUp(s: R.State, conn: ConnId): R.State
    requires conn in s.conns
  {
    var co := s.conns[conn];
    s.(conns := s.conns[conn := co.(up := if co.up == [] then [] else co.up[1..])])
  }

  function PopDown(s: R.State, conn: ConnId): R.State
    requires conn in s.conns
  {
    var co := s.conns[conn];
    s.(conns := s.conns[conn := co.(down := if co.down == [] then [] else co.down[1..])])
  }

  function Next(pr: Protocol, s: State, step: Step): State
    requires Enabled(pr, s, step)
  {
    match step
    case Quiet(st) => s.(sys := R.Next(s.sys, st))
    case Connect(conn, c) =>
      State(R.Next(s.sys, R.Connect(conn, c)), s.wires[conn := Wire([], true, [], true)])
    case SendInvoke(c, id, conn) =>
      State(R.Next(s.sys, R.SendInvoke(c, id, conn)),
            s.wires[conn := SentUp(pr, s.wires[conn], RequestBytes(R.Invoke(id, s.sys.payloads[(c, id)])))])
    case SendCancel(c, id, conn) =>
      State(R.Next(s.sys, R.SendCancel(c, id, conn)),
            s.wires[conn := SentUp(pr, s.wires[conn], RequestBytes(R.Cancel(id)))])
    case ServerReceive(key) =>
      var conn := s.sys.server.connections[key].conn;
      var (p, rest) := NextRequest(pr, s.wires[conn]).value;
      State(R.Handled(PopUp(s.sys, conn), key, s.sys.conns[conn].client, p),
            s.wires[conn := s.wires[conn].(up := rest)])
    case ServerSend(key, works) =>
      var w := s.sys.server.connections[key];
      State(R.Next(s.sys, R.ServerSend(key, works)),
            if works then s.wires[w.conn := SentDown(pr, s.wires[w.conn], ResponseBytes(w.responses[0]))] else s.wires)
    case Receive(conn) =>
      var (reply, rest) := NextResponse(pr, s.wires[conn]).value;
      State(R.Responded(PopDown(s.sys, conn), s.sys.conns[conn].client, reply),
            s.wires[conn := s.wires[conn].(down := rest)])
    case Cut(conn, up, down) =>
      var w := s.wires[conn];
      s.(wires := s.wires[conn := Wire(w.up[..up], false, w.down[..down], false)])
  }

  ghost predicate Initial(s: State) {
    R.Initial(s.sys) && s.wires == map[]
  }

  /** The packet that a step sends is one that its protocol delivers. */
  ghost predicate Fits(pr: Protocol, s: State, step: Step)
    requires Enabled(pr, s, step)
  {
    match step
    case SendInvoke(c, id, _) => Deliverable(pr, RequestBytes(R.Invoke(id, s.sys.payloads[(c, id)])))
    case SendCancel(_, id, _) => Deliverable(pr, RequestBytes(R.Cancel(id)))
    case ServerSend(key, works) =>
      works ==> Deliverable(pr, ResponseBytes(s.sys.server.connections[key].responses[0]))
    case _ => true
  }

  /** The state that `steps` leads to, if each of them is enabled when it is taken. */
  ghost function Run(pr: Protocol, s: State, steps: seq<Step>): Option<State>
    decreases |steps|
  {
    if steps == [] then Some(s)
    else if !Enabled(pr, s, steps[0]) then None
    else Run(pr, Next(pr, s, steps[0]), steps[1..])
  }

  /** Every packet sent on the way is one that its protocol delivers. */
  ghost predicate AllFit(pr: Protocol, s: State, steps: seq<Step>)
    decreases |steps|
  {
    steps != [] && Enabled(pr, s, steps[0]) ==>
      Fits(pr, s, steps[0]) && AllFit(pr, Next(pr, s, steps[0]), steps[1..])
  }

  // ----- Refinement -----

  function RequestPackets(up: seq<R.Packet>): (r: seq<seq<byte>>)
    ensures |r| == |up| && forall i :: 0 <= i < |up| ==> r[i] == RequestBytes(up[i])
  {
    seq(|up|, i requires 0 <= i < |up| => RequestBytes(up[i]))
  }

  function ResponsePackets(down: seq<Reply>): (r: seq<seq<byte>>)
    ensures |r| == |down| && forall i :: 0 <= i < |down| ==> r[i] == ResponseBytes(down[i])
  {
    seq(|down|, i requires 0 <= i < |down| => ResponseBytes(down[i]))
  }

  /** A stream holds the frames of the packets that are still expected, perhaps cut short. */
  ghost predicate Carries(pr: Protocol, bytes: seq<byte>, open: bool, packets: seq<seq<byte>>) {
    && (forall i :: 0 <= i < |packets| ==> Deliverable(pr, packets[i]))
    && bytes <= Frames(pr, packets)
    && (open ==> bytes == Frames(pr, packets))
  }

  ghost predicate WireOk(pr: Protocol, s: State, conn: ConnId)
    requires Known(s, conn)
  {
    && Carries(pr, s.wires[conn].up, s.wires[conn].upOpen, RequestPackets(s.sys.conns[conn].up))
    && Carries(pr, s.wires[conn].down, s.wires[conn].downOpen, ResponsePackets(s.sys.conns[conn].down))
  }

  ghost predicate Invariant(pr: Protocol, s: State) {
    s.wires.Keys == s.sys.conns.Keys && forall conn :: conn in s.wires ==> WireOk(pr, s, conn)
  }

  lemma CarriesMore(pr: Protocol, bytes: seq<byte>, open: bool, packets: seq<seq<byte>>, packet: seq<byte>)
    requires Carries(pr, bytes, open, packets) && Deliverable(pr, packet)
    ensures Carries(pr, if open then bytes + FrameOf(pr, packet) else bytes, open, packets + [packet])
  {
    hide Frames, FrameOf, Deliverable;
    FramesSnoc(pr, packets, packet);
  }

  lemma CarriesLess(pr: Protocol, bytes: seq<byte>, open: bool, packets: seq<seq<byte>>)
    requires Carries(pr, bytes, open, packets) && ReceiveFrom(pr, bytes).Ok?
    ensures packets != [] && ReceiveFrom(pr, bytes).value.0 == packets[0]
    ensures Carries(pr, ReceiveFrom(pr, bytes).value.1, open, packets[1..])
  {
    hide Frames, FrameOf, Deliverable, ReceiveFrom;
    CutLine(pr, packets, bytes);
  }

  lemma CarriesCut(pr: Protocol, bytes: seq<byte>, open: bool, packets: seq<seq<byte>>, n: nat)
    requires Carries(pr, bytes, open, packets) && n <= |bytes|
    ensures Carries(pr, bytes[..n], false, packets)
  {
    hide Frames, Deliverable;
  }

  /** Only `conn` changes, and it is in order. */
  lemma WiresKeep(pr: Protocol, s: State, s': State, conn: ConnId)
    requires Invariant(pr, s) && Known(s', conn) && WireOk(pr, s', conn)
    requires s'.wires.Keys == s.wires.Keys + {conn} && s'.sys.conns.Keys == s.sys.conns.Keys + {conn}
    requires forall other :: other in s.wires && other != conn ==>
      s'.wires[other] == s.wires[other]
    requires forall other :: other in s.wires && other in s.sys.conns && other != conn ==>
      s'.sys.conns[other].up == s.sys.conns[other].up && s'.sys.conns[other].down == s.sys.conns[other].down
    ensures Invariant(pr, s')
  {
    hide Carries;
    forall other | other in s'.wires ensures WireOk(pr, s', other) {
      if other != conn {
        assert WireOk(pr, s, other);
      }
    }
  }

  lemma QuietConns(s: R.State, step: R.Step)
    requires IsQuiet(step) && R.Enabled(s, step)
    ensures R.Next(s, step).conns.Keys == s.conns.Keys
    ensures forall conn :: conn in s.conns ==>
      R.Next(s, step).conns[conn].up == s.conns[conn].up && R.Next(s, step).conns[conn].down == s.conns[conn].down
  {
    hide Client.After, ServerState.QueueRequest, ServerState.Deliver, ServerState.Connected;
  }

  lemma QuietKeeps(pr: Protocol, s: State, step: R.Step)
    requires Invariant(pr, s) && IsQuiet(step) && R.Enabled(s.sys, step)
    ensures Invariant(pr, s.(sys := R.Next(s.sys, step)))
  {
    hide R.Next, R.Enabled, IsQuiet, Carries;
    QuietConns(s.sys, step);
    var s' := s.(sys := R.Next(s.sys, step));
    forall conn | conn in s'.wires ensures WireOk(pr, s', conn) {
      assert WireOk(pr, s, conn);
    }
  }

  /** The step of RpcSystem that a step on bytes stands for: breaking a connection is none, since
      the packets that are lost just never arrive. */
  function Abstract(step: Step): seq<R.Step> {
    match step
    case Quiet(st) => [st]
    case Connect(conn, c) => [R.Connect(conn, c)]
    case SendInvoke(c, id, conn) => [R.SendInvoke(c, id, conn)]
    case SendCancel(c, id, conn) => [R.SendCancel(c, id, conn)]
    case ServerReceive(key) => [R.ServerReceive(key)]
    case ServerSend(key, works) => [R.ServerSend(key, works)]
    case Receive(conn) => [R.Receive(conn)]
    case Cut(_, _, _) => []
  }

  /** What a step does to the system is what the step it stands for does. */
  ghost predicate Refines(pr: Protocol, s: State, step: Step)
    requires Enabled(pr, s, step)
  {
    R.Run(s.sys, Abstract(step)) == Some(Next(pr, s, step).sys)
  }

  lemma RunOne(s: R.State, step: R.Step)
    requires R.Enabled(s, step)
    ensures R.Run(s, [step]) == Some(R.Next(s, step))
  {
    hide R.Enabled, R.Next;
    assert [step][1..] == [];
    assert R.Run(R.Next(s, step), []) == Some(R.Next(s, step));
  }

  lemma ConnectRefines(pr: Protocol, s: State, conn: ConnId, c: R.ClientId)
    requires Invariant(pr, s) && Enabled(pr, s, Connect(conn, c))
    ensures Refines(pr, s, Connect(conn, c)) && Invariant(pr, Next(pr, s, Connect(conn, c)))
  {
    hide R.Run, Carries;
    var s' := Next(pr, s, Connect(conn, c));
    RunOne(s.sys, R.Connect(conn, c));
    assert WireOk(pr, s', conn) by {
      CarriesNothing(pr);
      assert RequestPackets([]) == [] && ResponsePackets([]) == [];
    }
    WiresKeep(pr, s, s', conn);
  }

  lemma CarriesNothing(pr: Protocol)
    ensures Carries(pr, [], true, [])
  {
  }

  lemma PushedPackets(up: seq<R.Packet>, p: R.Packet)
    ensures RequestPackets(up + [p]) == RequestPackets(up) + [RequestBytes(p)]
  {
    hide RequestBytes;
  }

  lemma PushedReplies(down: seq<Reply>, r: Reply)
    ensures ResponsePackets(down + [r]) == ResponsePackets(down) + [ResponseBytes(r)]
  {
    hide ResponseBytes;
  }

  /** A packet is sent up a connection. */
  lemma SendKeeps(pr: Protocol, s: State, s': State, conn: ConnId, p: R.Packet)
    requires Invariant(pr, s) && conn in s.wires && Deliverable(pr, RequestBytes(p))
    requires conn in s.sys.conns && s'.sys.conns == R.Pushed(s.sys, conn, p).conns
    requires s'.wires == s.wires[conn := SentUp(pr, s.wires[conn], RequestBytes(p))]
    ensures Invariant(pr, s')
  {
    hide Carries, RequestBytes, ResponseBytes, Deliverable, FrameOf, RequestPackets, ResponsePackets;
    assert WireOk(pr, s, conn);
    var w, up := s.wires[conn], s.sys.conns[conn].up;
    CarriesMore(pr, w.up, w.upOpen, RequestPackets(up), RequestBytes(p));
    PushedPackets(up, p);
    assert WireOk(pr, s', conn);
    WiresKeep(pr, s, s', conn);
  }

  lemma SendInvokeRefines(pr: Protocol, s: State, c: R.ClientId, id: RequestId, conn: ConnId)
    requires Invariant(pr, s) && Enabled(pr, s, SendInvoke(c, id, conn)) && Fits(pr, s, SendInvoke(c, id, conn))
    ensures Refines(pr, s, SendInvoke(c, id, conn)) && Invariant(pr, Next(pr, s, SendInvoke(c, id, conn)))
  {
    hide R.Run, Invariant, RequestBytes, Deliverable, SentUp;
    RunOne(s.sys, R.SendInvoke(c, id, conn));
    SendKeeps(pr, s, Next(pr, s, SendInvoke(c, id, conn)), conn, R.Invoke(id, s.sys.payloads[(c, id)]));
  }

  lemma SendCancelRefines(pr: Protocol, s: State, c: R.ClientId, id: RequestId, conn: ConnId)
    requires Invariant(pr, s) && Enabled(pr, s, SendCancel(c, id, conn)) && Fits(pr, s, SendCancel(c, id, conn))
    ensures Refines(pr, s, SendCancel(c, id, conn)) && Invariant(pr, Next(pr, s, SendCancel(c, id, conn)))
  {
    hide R.Run, Invariant, RequestBytes, Deliverable, SentUp;
    RunOne(s.sys, R.SendCancel(c, id, conn));
    SendKeeps(pr, s, Next(pr, s, SendCancel(c, id, conn)), conn, R.Cancel(id));
  }

  lemma ServerSendRefines(pr: Protocol, s: State, key: Key, works: bool)
    requires Invariant(pr, s) && Enabled(pr, s, ServerSend(key, works)) && Fits(pr, s, ServerSend(key, works))
    ensures Refines(pr, s, ServerSend(key, works)) && Invariant(pr, Next(pr, s, ServerSend(key, works)))
  {
    hide R.Run, Carries, ResponseBytes, RequestBytes, Deliverable, FrameOf, RequestPackets, ResponsePackets, ServerState.Sent;
    var s' := Next(pr, s, ServerSend(key, works));
    RunOne(s.sys, R.ServerSend(key, works));
    var conn, reply := s.sys.server.connections[key].conn, s.sys.server.connections[key].responses[0];
    assert WireOk(pr, s, conn);
    if works {
      var w, down := s.wires[conn], s.sys.conns[conn].down;
      CarriesMore(pr, w.down, w.downOpen, ResponsePackets(down), ResponseBytes(reply));
      PushedReplies(down, reply);
      assert WireOk(pr, s', conn);
    }
    WiresKeep(pr, s, s', conn);
  }

  /** The request that the server reads is the one sent first of those not yet received. */
  lemma RequestIsNext(pr: Protocol, w: Wire, up: seq<R.Packet>)
    requires Carries(pr, w.up, w.upOpen, RequestPackets(up)) && NextRequest(pr, w).Some?
    ensures up != [] && NextRequest(pr, w).value.0 == up[0]
    ensures Carries(pr, NextRequest(pr, w).value.1, w.upOpen, RequestPackets(up[1..]))
  {
    hide Carries, ReceiveFrom, RequestBytes, ParseRequest;
    CarriesLess(pr, w.up, w.upOpen, RequestPackets(up));
    RequestParses(up[0]);
    assert RequestPackets(up)[1..] == RequestPackets(up[1..]);
  }

  lemma ResponseIsNext(pr: Protocol, w: Wire, down: seq<Reply>)
    requires Carries(pr, w.down, w.downOpen, ResponsePackets(down)) && NextResponse(pr, w).Some?
    ensures down != [] && NextResponse(pr, w).value.0 == down[0]
    ensures Carries(pr, NextResponse(pr, w).value.1, w.downOpen, ResponsePackets(down[1..]))
  {
    hide Carries, ReceiveFrom, ResponseBytes, ParseResponse;
    CarriesLess(pr, w.down, w.downOpen, ResponsePackets(down));
    ResponseParses(down[0]);
    assert ResponsePackets(down)[1..] == ResponsePackets(down[1..]);
  }

  lemma ServerReceiveRefines(pr: Protocol, s: State, key: Key)
    requires Invariant(pr, s) && Enabled(pr, s, ServerReceive(key))
    ensures Refines(pr, s, ServerReceive(key)) && Invariant(pr, Next(pr, s, ServerReceive(key)))
  {
    hide R.Run, Carries, NextRequest, RequestPackets, ResponsePackets, ServerState.QueueRequest, ServerState.CancelRequest;
    var s' := Next(pr, s, ServerReceive(key));
    var conn := s.sys.server.connections[key].conn;
    assert WireOk(pr, s, conn);
    RequestIsNext(pr, s.wires[conn], s.sys.conns[conn].up);
    RunOne(s.sys, R.ServerReceive(key));
    assert WireOk(pr, s', conn);
    WiresKeep(pr, s, s', conn);
  }

  lemma ReceiveRefines(pr: Protocol, s: State, conn: ConnId)
    requires Invariant(pr, s) && Enabled(pr, s, Receive(conn))
    ensures Refines(pr, s, Receive(conn)) && Invariant(pr, Next(pr, s, Receive(conn)))
  {
    hide R.Run, Carries, NextResponse, RequestPackets, ResponsePackets, Client.After;
    var s' := Next(pr, s, Receive(conn));
    assert WireOk(pr, s, conn);
    ResponseIsNext(pr, s.wires[conn], s.sys.conns[conn].down);
    RunOne(s.sys, R.Receive(conn));
    assert WireOk(pr, s', conn);
    WiresKeep(pr, s, s', conn);
  }

  lemma CutRefines(pr: Protocol, s: State, conn: ConnId, up: nat, down: nat)
    requires Invariant(pr, s) && Enabled(pr, s, Cut(conn, up, down))
    ensures Refines(pr, s, Cut(conn, up, down)) && Invariant(pr, Next(pr, s, Cut(conn, up, down)))
  {
    hide Carries, RequestPackets, ResponsePackets;
    var s', w, co := Next(pr, s, Cut(conn, up, down)), s.wires[conn], s.sys.conns[conn];
    assert WireOk(pr, s, conn);
    CarriesCut(pr, w.up, w.upOpen, RequestPackets(co.up), up);
    CarriesCut(pr, w.down, w.downOpen, ResponsePackets(co.down), down);
    assert WireOk(pr, s', conn);
    WiresKeep(pr, s, s', conn);
  }

  /** Every step on bytes that sends nothing undeliverable is a step of RpcSystem. */
  lemma NextRefines(pr: Protocol, s: State, step: Step)
    requires Invariant(pr, s) && Enabled(pr, s, step) && Fits(pr, s, step)
    ensures Refines(pr, s, step) && Invariant(pr, Next(pr, s, step))
  {
    hide Invariant, Refines, Fits;
    match step
    case Quiet(st) =>
      QuietKeeps(pr, s, st);
      QuietRefines(pr, s, st);
    case Connect(conn, c) => ConnectRefines(pr, s, conn, c);
    case SendInvoke(c, id, conn) => SendInvokeRefines(pr, s, c, id, conn);
    case SendCancel(c, id, conn) => SendCancelRefines(pr, s, c, id, conn);
    case ServerReceive(key) => ServerReceiveRefines(pr, s, key);
    case ServerSend(key, works) => ServerSendRefines(pr, s, key, works);
    case Receive(conn) => ReceiveRefines(pr, s, conn);
    case Cut(conn, up, down) => CutRefines(pr, s, conn, up, down);
  }

  lemma QuietRefines(pr: Protocol, s: State, st: R.Step)
    requires Enabled(pr, s, Quiet(st))
    ensures Refines(pr, s, Quiet(st))
  {
    hide R.Enabled, R.Next, R.Run;
    RunOne(s.sys, st);
  }

  /** Refinement over whole runs: if every packet sent is deliverable, the system on bytes only
      reaches states that RpcSystem reaches, by the corresponding steps. */
  lemma {:induction false} RunRefines(pr: Protocol, s: State, steps: seq<Step>) returns (packetSteps: seq<R.Step>)
    requires Invariant(pr, s) && Run(pr, s, steps).Some? && AllFit(pr, s, steps)
    ensures R.Run(s.sys, packetSteps) == Some(Run(pr, s, steps).value.sys)
    ensures Invariant(pr, Run(pr, s, steps).value)
    decreases |steps|
  {
    hide Invariant, Enabled, Next, R.Run, Fits;
    if steps == [] {
      packetSteps := [];
      RunNothing(s.sys);
    } else {
      NextRefines(pr, s, steps[0]);
      var more := RunRefines(pr, Next(pr, s, steps[0]), steps[1..]);
      packetSteps := Abstract(steps[0]) + more;
      R.RunThen(s.sys, Abstract(steps[0]), more);
    }
  }

  lemma RunNothing(s: R.State)
    ensures R.Run(s, []) == Some(s)
  {
  }

  // ----- And back: whatever packets can do, bytes can do -----

  /** No direction of any connection broke. */
  ghost predicate AllOpen(s: State) {
    forall conn :: conn in s.wires ==> s.wires[conn].upOpen && s.wires[conn].downOpen
  }

  function Concrete(step: R.Step): Step
    requires !step.Cut?
  {
    match step
    case Connect(conn, c) => Connect(conn, c)
    case SendInvoke(c, id, conn) => SendInvoke(c, id, conn)
    case SendCancel(c, id, conn) => SendCancel(c, id, conn)
    case ServerReceive(key) => ServerReceive(key)
    case ServerSend(key, works) => ServerSend(key, works)
    case Receive(conn) => Receive(conn)
    case _ => Quiet(step)
  }

  lemma DeliverableArrives(pr: Protocol, packet: seq<byte>, rest: seq<byte>)
    requires Deliverable(pr, packet)
    ensures ReceiveFrom(pr, FrameOf(pr, packet) + rest) == Ok((packet, rest))
  {
    hide StreamFrame, StreamReceived, Frame, Received;
    match pr
    case LengthPrefixed(rd) => StreamRoundTrip(rd, packet, rest);
    case SerialLine(h, max) => SendThenReceive(h, max, packet, rest);
  }

  /** On an open connection, what is still expected can be read. */
  lemma CarriedArrives(pr: Protocol, bytes: seq<byte>, packets: seq<seq<byte>>)
    requires Carries(pr, bytes, true, packets) && packets != []
    ensures ReceiveFrom(pr, bytes).Ok? && ReceiveFrom(pr, bytes).value.0 == packets[0]
  {
    hide FrameOf, ReceiveFrom, Deliverable;
    DeliverableArrives(pr, packets[0], Frames(pr, packets[1..]));
  }

  lemma ServerReads(pr: Protocol, s: State, key: Key)
    requires Invariant(pr, s) && AllOpen(s) && R.Enabled(s.sys, R.ServerReceive(key))
    ensures Enabled(pr, s, ServerReceive(key))
  {
    hide Carries, RequestBytes, ResponsePackets, RequestPackets, ReceiveFrom, ParseRequest;
    var conn := s.sys.server.connections[key].conn;
    assert WireOk(pr, s, conn);
    var up := s.sys.conns[conn].up;
    CarriedArrives(pr, s.wires[conn].up, RequestPackets(up));
    RequestParses(up[0]);
  }

  lemma ClientReads(pr: Protocol, s: State, conn: ConnId)
    requires Invariant(pr, s) && AllOpen(s) && R.Enabled(s.sys, R.Receive(conn))
    ensures Enabled(pr, s, Receive(conn))
  {
    hide Carries, ResponseBytes, ResponsePackets, RequestPackets, ReceiveFrom, ParseResponse;
    assert WireOk(pr, s, conn);
    var down := s.sys.conns[conn].down;
    CarriedArrives(pr, s.wires[conn].down, ResponsePackets(down));
    ResponseParses(down[0]);
  }

  lemma StaysOpen(pr: Protocol, s: State, step: Step)
    requires AllOpen(s) && Enabled(pr, s, step) && !step.Cut?
    ensures AllOpen(Next(pr, s, step))
  {
    hide R.Next, R.Enabled, R.Handled, R.Responded, NextRequest, NextResponse, FrameOf, RequestBytes, ResponseBytes, PopUp,
      PopDown, IsQuiet;
  }

  /** While connections stay open and packets fit, every step of RpcSystem other than a loss is
      possible on bytes, and does the same. */
  lemma NextImplements(pr: Protocol, s: State, step: R.Step)
    requires Invariant(pr, s) && AllOpen(s) && R.Enabled(s.sys, step) && !step.Cut?
    ensures Enabled(pr, s, Concrete(step))
    ensures Fits(pr, s, Concrete(step)) ==>
      var s' := Next(pr, s, Concrete(step));
      s'.sys == R.Next(s.sys, step) && AllOpen(s') && Invariant(pr, s')
  {
    hide AllOpen, Invariant, Enabled, Next, R.Enabled, R.Next, Fits, Abstract, Concrete;
    Possible(pr, s, step);
    ConcreteIs(step);
    if Fits(pr, s, Concrete(step)) {
      StaysOpen(pr, s, Concrete(step));
      NextRefines(pr, s, Concrete(step));
      RunOne(s.sys, step);
    }
  }

  lemma ConcreteIs(step: R.Step)
    requires !step.Cut?
    ensures !Concrete(step).Cut? && Abstract(Concrete(step)) == [step]
  {
  }

  lemma Possible(pr: Protocol, s: State, step: R.Step)
    requires Invariant(pr, s) && AllOpen(s) && R.Enabled(s.sys, step) && !step.Cut?
    ensures Enabled(pr, s, Concrete(step))
  {
    hide AllOpen, R.Next, WireOk;
    match step {
      case ServerReceive(key) => ServerReads(pr, s, key);
      case Receive(conn) => ClientReads(pr, s, conn);
      case _ =>
    }
  }

  /** Every packet that a run of RpcSystem sends is deliverable, and none is lost. */
  ghost predicate Deliverables(pr: Protocol, s: R.State, steps: seq<R.Step>)
    decreases |steps|
  {
    steps != [] && R.Enabled(s, steps[0]) ==>
      && (match steps[0]
          case SendInvoke(c, id, _) => Deliverable(pr, RequestBytes(R.Invoke(id, s.payloads[(c, id)])))
          case SendCancel(_, id, _) => Deliverable(pr, RequestBytes(R.Cancel(id)))
          case ServerSend(key, works) =>
            works ==> Deliverable(pr, ResponseBytes(s.server.connections[key].responses[0]))
          case Cut(_, _, _) => false
          case _ => true)
      && Deliverables(pr, R.Next(s, steps[0]), steps[1..])
  }

  /** Over whole runs: what RpcSystem can do with deliverable packets, the system on bytes can do,
      so that a call can be answered there as well. */
  lemma {:induction false} RunImplements(pr: Protocol, s: State, packetSteps: seq<R.Step>) returns (steps: seq<Step>)
    requires Invariant(pr, s) && AllOpen(s) && R.Run(s.sys, packetSteps).Some? && Deliverables(pr, s.sys, packetSteps)
    ensures var r := Run(pr, s, steps);
      && r.Some? && r.value.sys == R.Run(s.sys, packetSteps).value
      && AllOpen(r.value) && Invariant(pr, r.value) && AllFit(pr, s, steps)
    decreases |packetSteps|
  {
    hide Invariant, AllOpen, Enabled, Next, R.Enabled, R.Next, Deliverable, RequestBytes, ResponseBytes;
    if packetSteps == [] {
      steps := [];
    } else {
      var step := packetSteps[0];
      NextImplements(pr, s, step);
      var s' := Next(pr, s, Concrete(step));
      var more := RunImplements(pr, s', packetSteps[1..]);
      steps := [Concrete(step)] + more;
      assert steps[1..] == more;
    }
  }

  // ----- The end-to-end theorems, on bytes -----

  /** A call whose future holds a response was executed with its own payload, and the response is
      what that execution returned, provided every packet sent was deliverable. */
  lemma ResponsesComeFromTheirCall(pr: Protocol, s0: State, steps: seq<Step>, c: R.ClientId, id: RequestId)
    requires Initial(s0) && Run(pr, s0, steps).Some? && AllFit(pr, s0, steps)
    ensures var s := Run(pr, s0, steps).value.sys;
      c in s.clients && id in s.clients[c].outcomes && s.clients[c].outcomes[id].Ok? ==>
        && (c, id) in s.payloads
        && var execution := R.Execution((c, id), s.payloads[(c, id)]);
           execution in s.started && (execution, s.clients[c].outcomes[id].value) in s.finished
  {
    hide Run, R.Run, AllFit;
    var packetSteps := RunRefines(pr, s0, steps);
    R.ResponsesComeFromTheirCall(s0.sys, packetSteps, c, id);
  }

  lemma ExecutedAtMostOnce(pr: Protocol, s0: State, steps: seq<Step>, i: nat, j: nat)
    requires Initial(s0) && Run(pr, s0, steps).Some? && AllFit(pr, s0, steps)
    ensures var s := Run(pr, s0, steps).value.sys;
      i < j < |s.started| ==> s.started[i].call != s.started[j].call
  {
    hide Run, R.Run, AllFit;
    var packetSteps := RunRefines(pr, s0, steps);
    R.ExecutedAtMostOnce(s0.sys, packetSteps, i, j);
  }

  lemma OnlyOwnCallsCancelled(pr: Protocol, s0: State, steps: seq<Step>, k: RequestKey)
    requires Initial(s0) && Run(pr, s0, steps).Some? && AllFit(pr, s0, steps)
    ensures var s := Run(pr, s0, steps).value.sys;
      k in s.server.requests && s.server.requests[k].cancelled ==>
        k.0 in s.owners && s.owners[k.0] in s.conns && R.CallOf(s, k) in s.cancels
  {
    hide Run, R.Run, AllFit;
    var packetSteps := RunRefines(pr, s0, steps);
    R.OnlyOwnCallsCancelled(s0.sys, packetSteps, k);
  }

  lemma {:induction false} OnlyDeliverables(pr: Protocol, s: R.State, steps: seq<R.Step>, packets: set<R.Packet>, replies: set<Reply>)
    requires A.SendsOnly(s, steps, packets, replies)
    requires forall p :: p in packets ==> Deliverable(pr, RequestBytes(p))
    requires forall r :: r in replies ==> Deliverable(pr, ResponseBytes(r))
    ensures Deliverables(pr, s, steps)
    decreases |steps|
  {
    hide R.Enabled, R.Next, Deliverable, RequestBytes, ResponseBytes;
    if steps != [] && R.Enabled(s, steps[0]) {
      OnlyDeliverables(pr, R.Next(s, steps[0]), steps[1..], packets, replies);
    }
  }

  /** On bytes, in every state reached with deliverable packets and unbroken connections: a client
      that has ids left and a connection the server knows can make a call, have it executed with
      its own arguments, and be answered with what the execution returned, provided the packets
      of the request, of the response, and of the responses that already wait are deliverable. */
  lemma CallIsAnswered(pr: Protocol, s0: State, steps0: seq<Step>, c: R.ClientId, payload: seq<byte>, deadline: Option<Time>,
                       key: Key, response: seq<byte>) returns (steps: seq<Step>)
    requires Initial(s0) && Run(pr, s0, steps0).Some? && AllFit(pr, s0, steps0) && AllOpen(Run(pr, s0, steps0).value)
    requires var s := Run(pr, s0, steps0).value.sys;
      && c in s.clients && R.Issued(s, c) < REQUEST_IDS
      && key in s.server.connections && R.CallOf(s, (key, 0)).0 == c
      && Deliverable(pr, RequestBytes(R.Invoke(s.clients[c].sequence, payload)))
      && Deliverable(pr, ResponseBytes(Reply(s.clients[c].sequence, response)))
      && forall i :: 0 <= i < |s.server.connections[key].responses| ==>
           Deliverable(pr, ResponseBytes(s.server.connections[key].responses[i]))
    ensures var s, r := Run(pr, s0, steps0).value.sys, Run(pr, Run(pr, s0, steps0).value, steps);
      && r.Some? && c in r.value.sys.clients
      && var id := s.clients[c].sequence;
         && r.value.sys.started == s.started + [R.Execution((c, id), payload)]
         && id in r.value.sys.clients[c].outcomes && r.value.sys.clients[c].outcomes[id] == Ok(response)
  {
    hide Run, R.Run, AllFit, AllOpen, Deliverable, RequestBytes, ResponseBytes, R.Invariant, A.ResultsOk, A.SendsOnly, R.CallOf,
      R.Issued;
    var packetSteps := RunRefines(pr, s0, steps0);
    A.ReachableResults(s0.sys, packetSteps);
    var s := Run(pr, s0, steps0).value;
    var id := s.sys.clients[c].sequence;
    var answering := A.CallIsAnswered(s.sys, c, payload, deadline, key, response);
    OnlyDeliverables(pr, s.sys, answering, {R.Invoke(id, payload)}, A.Waiting(s.sys, key) + {Reply(id, response)});
    steps := RunImplements(pr, s, answering);
  }

  // ----- Packets that are not deliverable -----

  /** When a request is at the front of a connection, the server takes exactly that request, and
      leaves exactly what follows, if and only if its packet is deliverable. */
  lemma RequestArrivesExactly(pr: Protocol, w: Wire, id: RequestId, payload: seq<byte>, rest: seq<byte>)
    requires |payload| + 5 < SIZE_T_LIMIT
    requires w.up == FrameOf(pr, RequestBytes(R.Invoke(id, payload))) + rest
    ensures NextRequest(pr, w) == Some((R.Invoke(id, payload), rest))
       <==> Deliverable(pr, RequestBytes(R.Invoke(id, payload)))
  {
    hide FrameOf, ReceiveFrom, ParseRequest, Deliverable;
    var bytes := RequestBytes(R.Invoke(id, payload));
    ArrivesExactly(pr, bytes, rest);
    hide RequestBytes;
    RequestParses(R.Invoke(id, payload));
    var r := ReceiveFrom(pr, w.up);
    if r.Ok? && ParseRequest(r.value.0) == Some(R.Invoke(id, payload)) {
      InvokeParsed(r.value.0, id, payload);
    }
  }

  /** The same of a response at the client. */
  lemma ResponseArrivesExactly(pr: Protocol, w: Wire, r: Reply, rest: seq<byte>)
    requires |r.data| + 5 < SIZE_T_LIMIT
    requires w.down == FrameOf(pr, ResponseBytes(r)) + rest
    ensures NextResponse(pr, w) == Some((r, rest)) <==> Deliverable(pr, ResponseBytes(r))
  {
    hide FrameOf, ReceiveFrom, ParseResponse, Deliverable;
    var bytes := ResponseBytes(r);
    ArrivesExactly(pr, bytes, rest);
    hide ResponseBytes;
    ResponseParses(r);
    var got := ReceiveFrom(pr, w.down);
    if got.Ok? && ParseResponse(got.value.0) == Some(r) {
      ResponseParsed(got.value.0, r);
    }
  }

  lemma ResponseParsed(bytes: seq<byte>, r: Reply)
    requires ParseResponse(bytes) == Some(r)
    ensures bytes == ResponseBytes(r)
  {
    hide Header, Parse;
    ParsedHeader(bytes, RESPONSE, r.id, r.data);
  }

  /** With the default protocol as it is, a request with 380 bytes of arguments arrives as the
      same request with the first 126 of them; the other 254 bytes stay on the connection, where
      the next packet is expected. */
  lemma LongRequestIsCutShort(w: Wire, id: RequestId, payload: seq<byte>, rest: seq<byte>)
    requires |payload| == 380
    requires w.up == FrameOf(LengthPrefixed(AsWritten), RequestBytes(R.Invoke(id, payload))) + rest
    ensures NextRequest(LengthPrefixed(AsWritten), w) == Some((R.Invoke(id, payload[..126]), payload[126..] + rest))
  {
    hide StreamFrame, StreamReceived, LowBytes, ParseRequest;
    var bytes := RequestBytes(R.Invoke(id, payload));
    Packet385IsCutShort(bytes, rest);
    assert bytes[..131] == RequestBytes(R.Invoke(id, payload[..126])) && bytes[131..] == payload[126..];
    RequestParses(R.Invoke(id, payload[..126]));
  }

  /** A client makes one call, sends it, and the server takes it up. */
  function OneCall(payload: seq<byte>): seq<Step> {
    [Quiet(R.NewClient(0)), Connect(0, 0), Quiet(R.NewCall(0, payload)), SendInvoke(0, 0, 0), Quiet(R.Accept(0, 1)),
     ServerReceive(1), Quiet(R.Start((1, 0)))]
  }

  function Start(): State {
    State(R.State(map[], map[], NewServer, map[], map[], map[], map[], 0, {}, [], {}), map[])
  }

  /** The state in which the request is on its way. */
  ghost predicate OnItsWay(pr: Protocol, s: State, payload: seq<byte>) {
    && s.sys.conns == map[0 := R.Connection(0, [R.Invoke(0, payload)], [], true)]
    && s.sys.server == ServerState(1, map[1 := Wrapper(0, [])], map[])
    && s.sys.payloads == map[(0, 0) := payload] && s.sys.started == [] && s.sys.owners == map[1 := 0]
    && s.wires == map[0 := Wire(FrameOf(pr, RequestBytes(R.Invoke(0, payload))), true, [], true)]
  }

  ghost predicate Made(s: State, payload: seq<byte>) {
    && s.sys.conns == map[0 := R.Connection(0, [], [], false)] && s.sys.clients.Keys == {0}
    && s.sys.server == NewServer && s.sys.accepted == 0 && s.sys.owners == map[]
    && s.sys.payloads == map[(0, 0) := payload] && s.sys.stages == map[(0, 0) := R.Unsent] && s.sys.started == []
    && s.wires == map[0 := Wire([], true, [], true)]
  }

  lemma CallMade(pr: Protocol, payload: seq<byte>) returns (s: State)
    ensures Made(s, payload)
    ensures Run(pr, Start(), OneCall(payload)) == Run(pr, s, OneCall(payload)[3..])
  {
    hide Run;
    var steps := OneCall(payload);
    RunStep(pr, Start(), steps);
    var s1 := Next(pr, Start(), steps[0]);
    assert steps[1..][1..] == steps[2..];
    RunStep(pr, s1, steps[1..]);
    var s2 := Next(pr, s1, steps[1]);
    assert steps[2..][1..] == steps[3..];
    RunStep(pr, s2, steps[2..]);
    s := Next(pr, s2, steps[2]);
  }

  lemma CallWritten(pr: Protocol, s: State, payload: seq<byte>)
    requires Made(s, payload)
    ensures Enabled(pr, s, SendInvoke(0, 0, 0))
    ensures var s4, packet := Next(pr, s, SendInvoke(0, 0, 0)), R.Invoke(0, payload);
      && s4.wires == map[0 := Wire(FrameOf(pr, RequestBytes(packet)), true, [], true)]
      && s4.sys.conns == map[0 := R.Connection(0, [packet], [], false)]
      && s4.sys == s.sys.(conns := s4.sys.conns, stages := s4.sys.stages)
  {
    hide FrameOf, RequestBytes;
    var frame := FrameOf(pr, RequestBytes(R.Invoke(0, payload)));
    assert [] + frame == frame && [] + [R.Invoke(0, payload)] == [R.Invoke(0, payload)];
  }

  lemma CallAccepted(pr: Protocol, s: State, payload: seq<byte>)
    requires s.wires == map[0 := Wire(FrameOf(pr, RequestBytes(R.Invoke(0, payload))), true, [], true)]
    requires s.sys.conns == map[0 := R.Connection(0, [R.Invoke(0, payload)], [], false)]
    requires s.sys.server == NewServer && s.sys.accepted == 0 && s.sys.owners == map[]
    requires s.sys.payloads == map[(0, 0) := payload] && s.sys.started == []
    ensures Enabled(pr, s, Quiet(R.Accept(0, 1))) && OnItsWay(pr, Next(pr, s, Quiet(R.Accept(0, 1))), payload)
  {
    hide FrameOf, RequestBytes;
    assert IsNextKey(0, {}, 1) by {
      assert Ahead(0, 1) == 1;
    }
  }

  lemma CallSent(pr: Protocol, payload: seq<byte>) returns (s: State)
    ensures OnItsWay(pr, s, payload)
    ensures Run(pr, Start(), OneCall(payload)) == Run(pr, s, OneCall(payload)[5..])
  {
    hide FrameOf, RequestBytes, Run, Enabled, Next, OnItsWay;
    var s3 := CallMade(pr, payload);
    var steps := OneCall(payload);
    CallWritten(pr, s3, payload);
    assert steps[3..][1..] == steps[4..];
    RunStep(pr, s3, steps[3..]);
    var s4 := Next(pr, s3, steps[3]);
    CallAccepted(pr, s4, payload);
    assert steps[4..][1..] == steps[5..];
    RunStep(pr, s4, steps[4..]);
    s := Next(pr, s4, steps[4]);
  }

  lemma RunStep(pr: Protocol, s: State, steps: seq<Step>)
    requires steps != [] && Enabled(pr, s, steps[0])
    ensures Run(pr, s, steps) == Run(pr, Next(pr, s, steps[0]), steps[1..])
  {
    hide Enabled, Next;
  }

  /** End to end: with the default protocol as it is, the server executes a call of 380 bytes of
      arguments with only the first 126 of them. */
  lemma LongCallRunsOnLess(payload: seq<byte>)
    requires |payload| == 380
    ensures var pr := LengthPrefixed(AsWritten);
      Run(pr, Start(), OneCall(payload)).Some? &&
      var s := Run(pr, Start(), OneCall(payload)).value.sys;
      s.payloads == map[(0, 0) := payload] && s.started == [R.Execution((0, 0), payload[..126])]
  {
    hide FrameOf, RequestBytes, Run, NextRequest, OneCall;
    var pr, steps := LengthPrefixed(AsWritten), OneCall(payload);
    var s := CallSent(pr, payload);
    var frame := FrameOf(pr, RequestBytes(R.Invoke(0, payload)));
    assert frame + [] == frame;
    LongRequestIsCutShort(s.wires[0], 0, payload, []);
    LastSteps(payload);
    RunStep(pr, s, steps[5..]);
    var s6 := Next(pr, s, ServerReceive(1));
    RunStep(pr, s6, steps[6..]);
    RunEnds(pr, Next(pr, s6, Quiet(R.Start((1, 0)))));
  }

  lemma LastSteps(payload: seq<byte>)
    ensures var steps := OneCall(payload);
      |steps| == 7 && steps[5..][0] == ServerReceive(1) && steps[5..][1..] == steps[6..]
      && steps[6..][0] == Quiet(R.Start((1, 0))) && steps[6..][1..] == []
  {
  }

  lemma RunEnds(pr: Protocol, s: State)
    ensures Run(pr, s, []) == Some(s)
  {
  }
}
