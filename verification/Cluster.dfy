/** The whole system as a step relation: clients that put and get, servers with their tables,
    and datagrams in flight, which the network may lose, delay and reorder but neither
    duplicates nor invents. */
module Cluster {
  import opened CStrings
  import opened HashTables
  import opened Requests
  import opened ServerSpec
  import opened ReplySpec
  import opened Nodes
  import opened RingTheory
  import N = Network
  import DF = DumpFormat

  /** A datagram between the socket of one client call and a server. A reply carries its
      position among the replies to one request, so that equal bytes stay apart. */
  datatype Datagram = Datagram(sock: nat, server: Address, num: nat, body: Bytes)

  datatype Call = PutCall(key: CStr, value: CStr, n: nat, w: nat) | GetCall(key: CStr, n: nat, r: nat) | OtherCall

  datatype Status = Running | PutDone | GotValue(value: CStr) | GaveUp

  /** A client call in progress: the nodes it addressed and the replies it has received. */
  datatype Op = Op(call: Call, nodes: seq<Address>, got: seq<Datagram>, status: Status)

  datatype State = State(tables: map<Address, Table>,
                         requests: set<Datagram>, replies: set<Datagram>,
                         ops: map<nat, Op>)

  datatype Step =
    | Begin(sock: nat, call: Call)
    | BeginOther(sock: nat, bodies: map<Address, Bytes>)
    | Lose(datagram: Datagram)
    | Serve(request: Datagram, mem: ServerAlloc, table: Table, out: DF.Sending)
    | Receive(reply: Datagram, status: Status)
    | TimeOut(sock: nat)

  // ---- Client calls ----

  function Addresses(nodes: seq<Node>): seq<Address> {
    seq(|nodes|, i requires 0 <= i < |nodes| => nodes[i].address)
  }

  /** The servers a key is mapped to: the same ring for every client. */
  function Replicas(ring: seq<Node>, lib: Library, n: nat, key: CStr): seq<Address> {
    Addresses(Lookup(ring, n, lib.sha1(key)))
  }

  function RequestOf(call: Call): Request {
    match call
    case PutCall(key, value, n, w) => Put(key, value)
    case GetCall(key, n, r) => Get(key)
    case OtherCall => Ping
  }

  ghost predicate WellFormedCall(ring: seq<Node>, call: Call) {
    match call
    case PutCall(key, value, n, w) => 1 <= w <= n <= |Servers(ring)|
    case GetCall(key, n, r) => 1 <= r <= n <= |Servers(ring)|
    case OtherCall => false
  }

  function NodesOf(ring: seq<Node>, lib: Library, call: Call): seq<Address> {
    match call
    case PutCall(key, value, n, w) => Replicas(ring, lib, n, key)
    case GetCall(key, n, r) => Replicas(ring, lib, n, key)
    case OtherCall => []
  }

  function Recvs(got: seq<Datagram>): (recvs: seq<Recv>)
    ensures |recvs| == |got|
  {
    seq(|got|, i requires 0 <= i < |got| => Received(got[i].body))
  }

  function StatusOf(state: GetState): Status {
    match state
    case Pending => Running
    case Found(v) => GotValue(v)
    case Failed => GaveUp
  }

  /** The statuses a call may have after a receive. For a get they allow for failed allocations. */
  ghost predicate StatusMay(op: Op, status: Status) {
    match op.call
    case PutCall(key, value, n, w) =>
      status == if |op.got| >= w then PutDone else if |op.got| >= n then GaveUp else Running
    case GetCall(key, n, r) =>
      (match status
       case Running => GetMay(Recvs(op.got), n, Effective(r), Pending)
       case GotValue(v) => GetMay(Recvs(op.got), n, Effective(r), Found(v))
       case GaveUp => GetMay(Recvs(op.got), n, Effective(r), Failed)
       case PutDone => false)
    case OtherCall => status == Running
  }

  /** The statuses of a put are those of the receive loop of `NetworkPut`. */
  lemma PutStatusExact(op: Op, status: Status)
    requires op.call.PutCall? && 1 <= op.call.w <= op.call.n && |op.got| <= op.call.n
    ensures StatusMay(op, status) <==>
            status == match PutProgress(Recvs(op.got), op.call.n, op.call.w)
                      case Waiting => Running
                      case Stored => PutDone
                      case Refused => GaveUp
  {
    PutMeaning(Recvs(op.got), op.call.n, op.call.w);
  }

  /** A get that counts without failed allocations, still pending before its last reply, takes
      the status of the receive loop of `NetworkGet`, and that is allowed. */
  lemma GetStatusAllowed(op: Op)
    requires op.call.GetCall? && 0 < |op.got| <= op.call.n
    requires Progress(Recvs(op.got[..|op.got| - 1]), op.call.n, Effective(op.call.r)) == Pending
    ensures StatusMay(op, StatusOf(Progress(Recvs(op.got), op.call.n, Effective(op.call.r))))
  {
    hide Progress, GetMay, Effective;
    var recvs, last := Recvs(op.got), |op.got| - 1;
    assert recvs[..last] == Recvs(op.got[..last]);
    ProgressMay(recvs, op.call.n, Effective(op.call.r));
  }

  /** A get has the status its receive loop computes from the replies received so far, with no
      failed allocation and no timeout. */
  ghost predicate CountsRight(s: State, sock: nat) {
    sock in s.ops && s.ops[sock].call.GetCall? ==>
      var op := s.ops[sock];
      op.status == StatusOf(Progress(Recvs(op.got), op.call.n, Effective(op.call.r)))
  }

  // ---- Steps ----

  function Sends(sock: nat, nodes: seq<Address>, body: Bytes): set<Datagram> {
    if |body| > MAX_MSG_SIZE then {} else set a | a in nodes :: Datagram(sock, a, 0, body)
  }

  /** These are the datagrams the client methods hand to `sendto`, if they can be sent at all. */
  lemma SendsAreBroadcast(sock: nat, nodes: seq<Node>, body: Bytes)
    requires |body| <= MAX_MSG_SIZE
    ensures forall d :: d in Sends(sock, Addresses(nodes), body) <==>
                        d.sock == sock && d.num == 0 && (d.server, d.body) in N.Broadcast(nodes, body)
  {
    var sent := N.Broadcast(nodes, body);
    forall i | 0 <= i < |nodes| ensures Addresses(nodes)[i] == sent[i].0 && sent[i].1 == body {}
    forall d: Datagram | d.sock == sock && d.num == 0 && (d.server, d.body) in sent
      ensures d in Sends(sock, Addresses(nodes), body)
    {
      var i :| 0 <= i < |sent| && sent[i] == (d.server, d.body);
      assert Addresses(nodes)[i] == d.server;
    }
    forall d | d in Sends(sock, Addresses(nodes), body) ensures (d.server, d.body) in sent {
      var i :| 0 <= i < |nodes| && Addresses(nodes)[i] == d.server;
      assert sent[i] == (d.server, d.body);
    }
  }

  /** A get sends its key and a put its key, a NUL and its value, once to each of the servers
      nearest to the key. */
  lemma CallsSend(ring: seq<Node>, lib: Library, sock: nat, call: Call)
    requires WellFormedCall(ring, call)
    ensures var bytes := match call case GetCall(key, _, _) => key case PutCall(key, value, _, _) => key + [0] + value
                                    case OtherCall => [];
            |bytes| <= MAX_MSG_SIZE ==>
            exists sent ::
              && N.SentToNearest(ring, lib.sha1(call.key), call.n, bytes, sent)
              && forall d :: d in Sends(sock, NodesOf(ring, lib, call), Encode(RequestOf(call))) <==>
                             d.sock == sock && d.num == 0 && (d.server, d.body) in sent
  {
    hide Lookup, N.SentToNearest, N.Broadcast, Sends;
    var bytes := Encode(RequestOf(call));
    if |bytes| <= MAX_MSG_SIZE {
      var nodes := Lookup(ring, call.n, lib.sha1(call.key));
      SendsAreBroadcast(sock, nodes, bytes);
      N.BroadcastMeaning(ring, lib.sha1(call.key), call.n, bytes);
      var sent := N.Broadcast(nodes, bytes);
    }
  }

  function Answers(request: Datagram, outs: seq<Bytes>): set<Datagram> {
    set j | 0 <= j < |outs| :: Datagram(request.sock, request.server, j, outs[j])
  }

  /** One step of the system. A server whose dump overruns its buffer stops; any addition of a
      server may fail. */
  ghost predicate Next(ring: seq<Node>, lib: Library, s: State, step: Step, s': State) {
    match step
    case Begin(sock, call) =>
      && sock !in s.ops && WellFormedCall(ring, call)
      && var nodes := NodesOf(ring, lib, call);
         s' == s.(ops := s.ops[sock := Op(call, nodes, [], Running)],
                  requests := s.requests + Sends(sock, nodes, Encode(RequestOf(call))))
    case BeginOther(sock, bodies) =>
      && sock !in s.ops && (forall a <- bodies :: |bodies[a]| <= MAX_MSG_SIZE)
      && s' == s.(ops := s.ops[sock := Op(OtherCall, [], [], Running)],
                  requests := s.requests + set a | a in bodies :: Datagram(sock, a, 0, bodies[a]))
    case Lose(d) =>
      s' == s.(requests := s.requests - {d}, replies := s.replies - {d})
    case Serve(d, mem, table, out) =>
      && d in s.requests && d.server in s.tables
      && ServerStep(s.tables[d.server], d.body, mem, table, out)
      && s' == s.(tables := if out.Sent? then s.tables[d.server := table] else s.tables - {d.server},
                  requests := s.requests - {d}, replies := s.replies + Answers(d, out.datagrams))
    case Receive(d, status) =>
      && d in s.replies && d.sock in s.ops && s.ops[d.sock].status == Running
      && var op := s.ops[d.sock].(got := s.ops[d.sock].got + [d]);
         && StatusMay(op, status)
         && s' == s.(replies := s.replies - {d}, ops := s.ops[d.sock := op.(status := status)])
    case TimeOut(sock) =>
      && sock in s.ops && s.ops[sock].status == Running
      && s' == s.(ops := s.ops[sock := s.ops[sock].(status := GaveUp)])
  }

  ghost predicate Init(ring: seq<Node>, s: State) {
    && s.tables.Keys == Servers(ring) && (forall a <- s.tables :: ValuesShort(s.tables[a]))
    && s.requests == {} && s.replies == {} && s.ops == map[]
  }

  /** A run of the system; the tables may start with any contents a server can have stored. */
  ghost predicate IsRun(ring: seq<Node>, lib: Library, states: seq<State>, steps: seq<Step>) {
    && |states| == |steps| + 1 && Init(ring, states[0])
    && forall i :: 0 <= i < |steps| ==> Next(ring, lib, states[i], steps[i], states[i + 1])
  }

  // ---- Every datagram belongs to a call ----

  ghost predicate Owned(s: State) {
    && (forall d <- s.requests :: d.sock in s.ops)
    && (forall d <- s.replies :: d.sock in s.ops)
  }

  lemma OwnedKept(ring: seq<Node>, lib: Library, s: State, step: Step, s': State)
    requires Owned(s) && Next(ring, lib, s, step, s')
    ensures Owned(s')
  {
  }

  // ---- No client buffer overflows ----

  /** Stored values, messages and replies keep to the sizes the buffers are made for. */
  ghost predicate Short(s: State) {
    && (forall a <- s.tables :: ValuesShort(s.tables[a]))
    && (forall d <- s.requests :: |d.body| <= MAX_MSG_SIZE)
    && (forall d <- s.replies :: |d.body| < MAX_MSG_SIZE)
    && (forall sock <- s.ops, d <- s.ops[sock].got :: |d.body| < MAX_MSG_SIZE)
  }

  lemma ShortKept(ring: seq<Node>, lib: Library, s: State, step: Step, s': State)
    requires Short(s) && Next(ring, lib, s, step, s')
    ensures Short(s')
  {
    hide ServerStep, StatusMay, Lookup, ValuesShort;
    match step
    case Begin(b, call) =>
    case BeginOther(b, bodies) =>
    case Lose(d) =>
    case Serve(d, mem, table, out) =>
      StepReplies(s.tables[d.server], d.body, mem, table, out);
      assert forall x <- Answers(d, out.datagrams) :: |x.body| < MAX_MSG_SIZE;
    case Receive(d, status) =>
    case TimeOut(b) =>
  }

  // ---- One reply a server ----

  /** A call whose request is understood as a get or a put, so that a server that handles it
      replies once. */
  predicate OneReply(call: Call) {
    !call.OtherCall? && Unmistakable(RequestOf(call))
  }

  ghost predicate FromSameServer(d: Datagram, d': Datagram) {
    d.sock == d'.sock && d.server == d'.server
  }

  /** For the call on socket `sock`: the request to a server, its reply in flight and its
      received reply are never there together, nor twice. */
  ghost predicate Once(s: State, sock: nat) {
    sock in s.ops ==> OnceFor(s.requests, s.replies, s.ops[sock], sock)
  }

  ghost predicate OnceFor(requests: set<Datagram>, replies: set<Datagram>, op: Op, sock: nat) {
    && (forall d <- requests :: d.sock == sock ==>
          d.server in op.nodes && d.num == 0 && d.body == Encode(RequestOf(op.call)))
    && (forall d <- replies :: d.sock == sock ==> d.server in op.nodes)
    && (forall d <- op.got :: d.sock == sock && d.server in op.nodes)
    && (forall d <- requests, d' <- replies :: d.sock == sock ==> !FromSameServer(d, d'))
    && (forall d <- requests, d' <- op.got :: d.sock == sock ==> !FromSameServer(d, d'))
    && (forall d <- replies, d' <- replies :: d.sock == sock && FromSameServer(d, d') ==> d == d')
    && (forall d <- replies, d' <- op.got :: d.sock == sock ==> !FromSameServer(d, d'))
    && (forall i, j :: 0 <= i < j < |op.got| ==> op.got[i].server != op.got[j].server)
  }

  lemma OnceFewer(requests: set<Datagram>, replies: set<Datagram>, op: Op, sock: nat, fewer: set<Datagram>)
    requires OnceFor(requests, replies, op, sock) && fewer <= replies
    ensures OnceFor(requests, fewer, op, sock)
  {
  }

  /** A reply in flight becomes a received one. */
  lemma OnceGot(requests: set<Datagram>, replies: set<Datagram>, op: Op, sock: nat, d: Datagram, status: Status)
    requires OnceFor(requests, replies, op, sock) && d in replies && d.sock == sock
    ensures OnceFor(requests, replies - {d}, op.(got := op.got + [d], status := status), sock)
  {
    hide Encode, RequestOf;
    var got := op.got;
    assert forall x :: x in got + [d] <==> x in got || x == d;
    assert forall i :: 0 <= i < |got| ==> got[i] in got && (got + [d])[i] == got[i];
  }

  lemma OneAnswer(m: Table, call: Call, mem: ServerAlloc, m': Table, out: DF.Sending)
    requires OneReply(call) && ServerStep(m, Encode(RequestOf(call)), mem, m', out)
    ensures |out.datagrams| == 1
  {
    RequestRoundTrip(RequestOf(call));
  }

  lemma OnceKept(ring: seq<Node>, lib: Library, s: State, step: Step, s': State, sock: nat)
    requires Owned(s) && Once(s, sock) && Next(ring, lib, s, step, s')
    requires sock in s'.ops ==> OneReply(s'.ops[sock].call)
    ensures Once(s', sock)
  {
    hide ServerStep, Supported, Lookup, StatusMay, Answers;
    if sock in s'.ops {
      match step
      case Begin(b, call) =>
      case BeginOther(b, bodies) =>
      case Lose(d) =>
      case Serve(d, mem, table, out) =>
        if d.sock == sock { OneAnswer(s.tables[d.server], s.ops[sock].call, mem, table, out); }
        OnceServed(s, d, out.datagrams, s', sock);
      case Receive(d, status) => OnceReceived(s, d, status, s', sock);
      case TimeOut(b) =>
    }
  }

  lemma OnceServed(s: State, d: Datagram, outs: seq<Bytes>, s': State, sock: nat)
    requires Once(s, sock) && sock in s.ops && s'.ops == s.ops && d in s.requests
    requires s'.requests == s.requests - {d} && s'.replies == s.replies + Answers(d, outs)
    requires d.sock == sock ==> |outs| == 1
    ensures Once(s', sock)
  {
    assert forall x :: x in Answers(d, outs) ==> FromSameServer(x, d);
  }

  lemma OnceReceived(s: State, d: Datagram, status: Status, s': State, sock: nat)
    requires Once(s, sock) && sock in s.ops && d in s.replies && d.sock in s.ops
    requires var op := s.ops[d.sock].(got := s.ops[d.sock].got + [d]);
             s' == s.(replies := s.replies - {d}, ops := s.ops[d.sock := op.(status := status)])
    ensures Once(s', sock)
  {
    hide OnceFor;
    if d.sock == sock {
      OnceGot(s.requests, s.replies, s.ops[sock], sock, d, status);
    } else {
      OnceFewer(s.requests, s.replies, s.ops[sock], sock, s.replies - {d});
    }
  }
}
