/** Quorum intersection over whole runs: a get that succeeds after a put that succeeded returns
    the value of that put. */
module Quorum {
  import opened CStrings
  import opened HashTables
  import opened Requests
  import opened ServerSpec
  import opened ReplySpec
  import opened Nodes
  import opened RingTheory
  import opened Cluster
  import DF = DumpFormat

  // ---- Invariants along a run ----

  lemma RunLength(ring: seq<Node>, lib: Library, states: seq<State>, steps: seq<Step>)
    requires IsRun(ring, lib, states, steps)
    ensures |states| == |steps| + 1 && states[0].requests == {} && states[0].replies == {} && states[0].ops == map[]
  {
  }

  lemma RunStep(ring: seq<Node>, lib: Library, states: seq<State>, steps: seq<Step>, i: nat)
    requires IsRun(ring, lib, states, steps) && i < |steps|
    ensures |states| == |steps| + 1 && Next(ring, lib, states[i], steps[i], states[i + 1])
  {
  }

  lemma {:induction false} OwnedAlways(ring: seq<Node>, lib: Library, states: seq<State>, steps: seq<Step>, i: nat)
    requires IsRun(ring, lib, states, steps) && i <= |steps|
    ensures Owned(states[i])
  {
    RunLength(ring, lib, states, steps);
    if i > 0 {
      hide Next, IsRun, Owned;
      OwnedAlways(ring, lib, states, steps, i - 1);
      RunStep(ring, lib, states, steps, i - 1);
      OwnedKept(ring, lib, states[i - 1], steps[i - 1], states[i]);
    }
  }

  lemma {:induction false} ShortAlways(ring: seq<Node>, lib: Library, states: seq<State>, steps: seq<Step>, i: nat)
    requires IsRun(ring, lib, states, steps) && i <= |steps|
    ensures i < |states| && Short(states[i])
  {
    hide Next, IsRun, Short;
    RunLength(ring, lib, states, steps);
    if i == 0 {
      ShortAtFirst(ring, lib, states, steps);
    } else {
      ShortAlways(ring, lib, states, steps, i - 1);
      RunStep(ring, lib, states, steps, i - 1);
      ShortKept(ring, lib, states[i - 1], steps[i - 1], states[i]);
    }
  }

  lemma ShortAtFirst(ring: seq<Node>, lib: Library, states: seq<State>, steps: seq<Step>)
    requires IsRun(ring, lib, states, steps)
    ensures Short(states[0])
  {
    hide Next, ValuesShort;
  }

  /** In no run does a client receive a reply without an end, so that its get would overrun the
      receive buffer. */
  lemma RepliesEnd(ring: seq<Node>, lib: Library, states: seq<State>, steps: seq<Step>, i: nat, sock: nat)
    requires IsRun(ring, lib, states, steps) && i <= |steps| < |states| && sock in states[i].ops
    ensures forall r <- Recvs(states[i].ops[sock].got) :: !Unterminated(r)
  {
    hide Next, IsRun, FirstNul;
    ShortAlways(ring, lib, states, steps, i);
    forall r | r in Recvs(states[i].ops[sock].got) ensures !Unterminated(r) {
      var j :| 0 <= j < |states[i].ops[sock].got| && r == Received(states[i].ops[sock].got[j].body);
      assert states[i].ops[sock].got[j] in states[i].ops[sock].got;
    }
  }

  /** A call keeps what it was started with; what it has received only grows, and its status
      changes at most once. */
  ghost predicate Later(s: State, s': State, sock: nat) {
    sock in s.ops ==>
      && sock in s'.ops && s'.ops[sock].call == s.ops[sock].call && s'.ops[sock].nodes == s.ops[sock].nodes
      && s.ops[sock].got <= s'.ops[sock].got
      && (s.ops[sock].status != Running ==> s'.ops[sock] == s.ops[sock])
  }

  lemma LaterStep(ring: seq<Node>, lib: Library, s: State, step: Step, s': State, sock: nat)
    requires Next(ring, lib, s, step, s')
    ensures Later(s, s', sock)
    ensures sock in s.ops ==>
            sock in s'.ops && s'.ops[sock].call == s.ops[sock].call && s'.ops[sock].nodes == s.ops[sock].nodes
  {
    hide ServerStep, StatusMay, Lookup;
  }

  lemma {:induction false} LaterAlways(ring: seq<Node>, lib: Library, states: seq<State>, steps: seq<Step>,
                                       sock: nat, i: nat, j: nat)
    requires IsRun(ring, lib, states, steps) && i <= j <= |steps|
    ensures Later(states[i], states[j], sock)
  {
    hide *;
    RunLength(ring, lib, states, steps);
    if i == j {
      LaterSelf(states[i], sock);
    } else {
      LaterAlways(ring, lib, states, steps, sock, i, j - 1);
      RunStep(ring, lib, states, steps, j - 1);
      LaterStep(ring, lib, states[j - 1], steps[j - 1], states[j], sock);
      LaterTwice(states[i], states[j - 1], states[j], sock);
    }
  }

  lemma LaterSelf(s: State, sock: nat)
    ensures Later(s, s, sock)
  {
  }

  lemma LaterTwice(s: State, s': State, s'': State, sock: nat)
    requires Later(s, s', sock) && Later(s', s'', sock)
    ensures Later(s, s'', sock)
  {
  }

  lemma {:induction false} OnceAlways(ring: seq<Node>, lib: Library, states: seq<State>, steps: seq<Step>,
                                      sock: nat, i: nat)
    requires IsRun(ring, lib, states, steps) && i <= |steps|
    requires sock in states[i].ops ==> OneReply(states[i].ops[sock].call)
    ensures Once(states[i], sock)
  {
    hide *;
    RunLength(ring, lib, states, steps);
    if i == 0 {
      NotBegun(states[0], sock);
    } else {
      var s, s' := states[i - 1], states[i];
      RunStep(ring, lib, states, steps, i - 1);
      LaterStep(ring, lib, s, steps[i - 1], s', sock);
      OnceAlways(ring, lib, states, steps, sock, i - 1);
      OwnedAlways(ring, lib, states, steps, i - 1);
      OnceKept(ring, lib, s, steps[i - 1], s', sock);
    }
  }

  lemma NotBegun(s: State, sock: nat)
    requires sock !in s.ops
    ensures Once(s, sock)
  {
  }

  // ---- The put holds at every server that acknowledged it ----

  predicate PutsKey(body: Bytes, key: CStr) {
    var r := Meaning(body);
    r.Put? && r.key == key
  }

  /** The step starts another put of the key. */
  ghost predicate StartsPut(step: Step, key: CStr) {
    match step
    case Begin(_, call) => call.PutCall? && call.key == key
    case BeginOther(_, bodies) => exists a :: a in bodies && PutsKey(bodies[a], key)
    case _ => false
  }

  /** The server stores the value under the key, or has stopped and answers nobody. */
  ghost predicate Stores(s: State, server: Address, key: CStr, value: CStr) {
    server in s.tables ==> key in s.tables[server] && s.tables[server][key] == value
  }

  /** If the step is a server's handling of a datagram of call c, it finds the memory to store
      what that puts. */
  ghost predicate AddsFor(s: State, step: Step, c: nat, key: CStr) {
    step.Serve? && step.request.sock == c && step.request.server in s.tables ==>
      Added(s.tables[step.request.server], key, step.mem.add)
  }

  /** While no other put of the key is about: every put of it in flight is that of call c, and
      every server that has answered c stores its value. */
  ghost predicate PutHolds(s: State, c: nat, key: CStr, value: CStr) {
    && c in s.ops
    && (forall d <- s.requests :: PutsKey(d.body, key) ==> d.sock == c)
    && (forall d <- s.replies :: d.sock == c ==> Stores(s, d.server, key, value))
    && (forall d <- s.ops[c].got :: Stores(s, d.server, key, value))
  }

  lemma ServeKeeps(m: Table, body: Bytes, mem: ServerAlloc, m': Table, out: DF.Sending, key: CStr, value: CStr)
    requires ServerStep(m, body, mem, m', out)
    ensures body == Encode(Put(key, value)) && key != [] ==>
              PutsKey(body, key) && (Added(m, key, mem.add) ==> key in m' && m'[key] == value)
    ensures !PutsKey(body, key) ==> (key in m' <==> key in m) && (key in m ==> m'[key] == m[key])
  {
    if key != [] { MeaningOfPut(key, value); }
  }

  lemma PutBegins(s: State, s': State, ring: seq<Node>, lib: Library, c: nat, call: Call)
    requires Owned(s) && Next(ring, lib, s, Begin(c, call), s') && call.PutCall?
    requires forall d <- s.requests :: !PutsKey(d.body, call.key)
    ensures PutHolds(s', c, call.key, call.value)
  {
    hide Lookup, Meaning;
  }

  lemma NotAPut(sock: nat, nodes: seq<Address>, call: Call, key: CStr)
    requires key != [] && !(call.PutCall? && call.key == key)
    ensures forall d <- Sends(sock, nodes, Encode(RequestOf(call))) :: !PutsKey(d.body, key)
  {
    match call
    case PutCall(k, v, n, w) =>
      if k != [] || v != [] { MeaningOfPut(k, v); } else { assert Encode(RequestOf(call)) == [0]; }
    case GetCall(k, n, r) => if k != [] { MeaningOfGet(k); }
    case OtherCall =>
  }

  lemma PutHoldsKept(ring: seq<Node>, lib: Library, s: State, step: Step, s': State, c: nat, key: CStr, value: CStr)
    requires Owned(s) && Once(s, c) && PutHolds(s, c, key, value) && key != []
    requires s.ops[c].call.PutCall? && s.ops[c].call.key == key && s.ops[c].call.value == value
    requires Next(ring, lib, s, step, s') && !StartsPut(step, key) && AddsFor(s, step, c, key)
    ensures PutHolds(s', c, key, value)
  {
    hide ServerStep, StatusMay, Lookup, PutsKey, Added;
    match step
    case Begin(b, call) => NotAPut(b, NodesOf(ring, lib, call), call, key);
    case BeginOther(b, bodies) =>
    case Lose(d) =>
    case Serve(d, mem, table, out) =>
      ServeKeeps(s.tables[d.server], d.body, mem, table, out, key, value);
      PutHoldsServed(s, d, table, out, s', c, key, value);
    case Receive(d, status) =>
    case TimeOut(b) =>
  }

  lemma PutHoldsServed(s: State, d: Datagram, table: Table, out: DF.Sending, s': State, c: nat,
                       key: CStr, value: CStr)
    requires PutHolds(s, c, key, value) && d in s.requests && d.server in s.tables
    requires s' == s.(tables := if out.Sent? then s.tables[d.server := table] else s.tables - {d.server},
                      requests := s.requests - {d}, replies := s.replies + Answers(d, out.datagrams))
    requires d.sock == c || Stores(s, d.server, key, value) ==> key in table && table[key] == value
    ensures PutHolds(s', c, key, value)
  {
    assert forall a :: Stores(s, a, key, value) ==> Stores(s', a, key, value);
    assert forall x <- Answers(d, out.datagrams) :: x.sock == d.sock && x.server == d.server;
  }

  /** From the put's first step on, no step of the run starts another put of its key. */
  ghost predicate QuietFrom(steps: seq<Step>, p: nat, e: nat, key: CStr) {
    e <= |steps| && forall i :: p < i < e ==> !StartsPut(steps[i], key)
  }

  /** From then on, the servers that handle the put's datagrams find the memory to store it. */
  ghost predicate StoredFrom(states: seq<State>, steps: seq<Step>, p: nat, e: nat, c: nat, key: CStr) {
    e <= |steps| <= |states| && forall i :: p < i < e ==> AddsFor(states[i], steps[i], c, key)
  }

  lemma StoredStep(states: seq<State>, steps: seq<Step>, p: nat, i: nat, c: nat, key: CStr)
    requires p + 1 < i && StoredFrom(states, steps, p, i, c, key)
    ensures i <= |steps| <= |states| && StoredFrom(states, steps, p, i - 1, c, key)
    ensures AddsFor(states[i - 1], steps[i - 1], c, key)
  {
  }

  lemma {:induction false} PutHoldsAlways(ring: seq<Node>, lib: Library, states: seq<State>, steps: seq<Step>,
                                          p: nat, i: nat, c: nat, call: Call)
    requires IsRun(ring, lib, states, steps) && p < i <= |steps| && steps[p] == Begin(c, call)
    requires call.PutCall? && call.key != [] && QuietFrom(steps, p, i, call.key)
    requires StoredFrom(states, steps, p, i, c, call.key)
    requires forall d <- states[p].requests :: !PutsKey(d.body, call.key)
    ensures PutHolds(states[i], c, call.key, call.value) && Once(states[i], c)
    ensures c in states[i].ops && states[i].ops[c].call == call && states[i].ops[c].nodes == NodesOf(ring, lib, call)
  {
    hide *;
    RunLength(ring, lib, states, steps);
    RunStep(ring, lib, states, steps, i - 1);
    OwnedAlways(ring, lib, states, steps, i - 1);
    var s, s' := states[i - 1], states[i];
    if i == p + 1 {
      PutBegins(s, s', ring, lib, c, call);
      CallStarted(s, s', ring, lib, c, call);
    } else {
      QuietStep(steps, p, i, call.key);
      StoredStep(states, steps, p, i, c, call.key);
      PutHoldsAlways(ring, lib, states, steps, p, i - 1, c, call);
      PutHasOp(s, c, call.key, call.value);
      PutHoldsKept(ring, lib, s, steps[i - 1], s', c, call.key, call.value);
      LaterStep(ring, lib, s, steps[i - 1], s', c);
    }
    PutIsUnmistakable(call);
    OnceAlways(ring, lib, states, steps, c, i);
  }

  lemma QuietStep(steps: seq<Step>, p: nat, i: nat, key: CStr)
    requires p + 1 < i && QuietFrom(steps, p, i, key)
    ensures i <= |steps| && QuietFrom(steps, p, i - 1, key) && !StartsPut(steps[i - 1], key)
  {
  }

  lemma PutIsUnmistakable(call: Call)
    requires !call.OtherCall? && call.key != []
    ensures OneReply(call)
  {
  }

  lemma PutHasOp(s: State, c: nat, key: CStr, value: CStr)
    requires PutHolds(s, c, key, value)
    ensures c in s.ops
  {
  }

  lemma CallStarted(s: State, s': State, ring: seq<Node>, lib: Library, sock: nat, call: Call)
    requires Next(ring, lib, s, Begin(sock, call), s')
    ensures sock !in s.ops && sock in s'.ops
    ensures s'.ops[sock] == Op(call, NodesOf(ring, lib, call), [], Running)
    ensures s'.replies == s.replies
  {
  }

  // ---- A get hears the value from every such server ----

  /** A reply that is either the value or the one-byte reply for a missing key. */
  predicate Tells(d: Datagram, value: CStr) {
    d.body == value || d.body == [0]
  }

  /** Whatever the servers of `acked` have told call g is the value. */
  ghost predicate GetHears(s: State, g: nat, acked: set<Address>, value: CStr) {
    && g in s.ops
    && (forall d <- s.replies :: d.sock == g && d.server in acked ==> Tells(d, value))
    && (forall d <- s.ops[g].got :: d.server in acked ==> Tells(d, value))
  }

  lemma ServeTells(m: Table, key: CStr, mem: ServerAlloc, m': Table, out: DF.Sending)
    requires ServerStep(m, Encode(Get(key)), mem, m', out) && key != [] && key in m
    ensures |out.datagrams| == 1 && (out.datagrams[0] == m[key] || out.datagrams[0] == [0])
  {
    MeaningOfGet(key);
  }

  lemma GetHearsKept(ring: seq<Node>, lib: Library, s: State, step: Step, s': State, g: nat,
                     acked: set<Address>, key: CStr, value: CStr)
    requires Once(s, g) && GetHears(s, g, acked, value) && key != [] && Owned(s)
    requires s.ops[g].call.GetCall? && s.ops[g].call.key == key
    requires forall a <- acked :: Stores(s, a, key, value)
    requires Next(ring, lib, s, step, s')
    ensures GetHears(s', g, acked, value)
  {
    hide ServerStep, StatusMay, Lookup;
    match step
    case Begin(b, call) =>
    case BeginOther(b, bodies) =>
    case Lose(d) =>
    case Serve(d, mem, table, out) =>
      if d.sock == g && d.server in acked { ServeTells(s.tables[d.server], key, mem, table, out); }
    case Receive(d, status) =>
    case TimeOut(b) =>
  }

  ghost function ServersOf(got: seq<Datagram>): set<Address> {
    set i | 0 <= i < |got| :: got[i].server
  }

  /** The acknowledging servers of a put store its value for as long as it holds. */
  lemma AckedStore(s: State, s': State, c: nat, key: CStr, value: CStr)
    requires c in s.ops && Later(s, s', c) && PutHolds(s', c, key, value)
    ensures forall a <- ServersOf(s.ops[c].got) :: Stores(s', a, key, value)
  {
    hide Stores;
    var got, got' := s.ops[c].got, s'.ops[c].got;
    forall a | a in ServersOf(got) ensures Stores(s', a, key, value) {
      var i :| 0 <= i < |got| && got[i].server == a;
      assert got'[i] == got[i] && got'[i] in got';
    }
  }

  lemma {:induction false} GetHearsAlways(ring: seq<Node>, lib: Library, states: seq<State>, steps: seq<Step>,
                                          p: nat, q: nat, g: nat, i: nat, c: nat, put: Call, d: nat, get: Call)
    requires IsRun(ring, lib, states, steps) && p < q <= g < i <= |steps|
    requires steps[p] == Begin(c, put) && steps[g] == Begin(d, get)
    requires put.PutCall? && get.GetCall? && put.key == get.key != []
    requires QuietFrom(steps, p, i, put.key) && StoredFrom(states, steps, p, i, c, put.key)
    requires forall x <- states[p].requests :: !PutsKey(x.body, put.key)
    requires c in states[q].ops
    ensures GetHears(states[i], d, ServersOf(states[q].ops[c].got), put.value)
    ensures d in states[i].ops && states[i].ops[d].call == get && states[i].ops[d].nodes == NodesOf(ring, lib, get)
    ensures Once(states[i], d)
  {
    hide *;
    RunLength(ring, lib, states, steps);
    RunStep(ring, lib, states, steps, i - 1);
    OwnedAlways(ring, lib, states, steps, i - 1);
    var acked := ServersOf(states[q].ops[c].got);
    var s, s' := states[i - 1], states[i];
    if i == g + 1 {
      CallStarted(s, s', ring, lib, d, get);
      HearsNothingYet(s, s', d, acked, put.value);
    } else {
      QuietStep(steps, p, i, put.key);
      StoredStep(states, steps, p, i, c, put.key);
      GetHearsAlways(ring, lib, states, steps, p, q, g, i - 1, c, put, d, get);
      PutHoldsAlways(ring, lib, states, steps, p, i - 1, c, put);
      LaterAlways(ring, lib, states, steps, c, q, i - 1);
      AckedStore(states[q], s, c, put.key, put.value);
      GetHearsKept(ring, lib, s, steps[i - 1], s', d, acked, put.key, put.value);
      LaterStep(ring, lib, s, steps[i - 1], s', d);
    }
    PutIsUnmistakable(get);
    OnceAlways(ring, lib, states, steps, d, i);
  }

  lemma HearsNothingYet(s: State, s': State, g: nat, acked: set<Address>, value: CStr)
    requires Owned(s) && g !in s.ops && s'.replies == s.replies
    requires g in s'.ops && s'.ops[g].got == []
    ensures GetHears(s', g, acked, value)
  {
  }

  // ---- Counting servers ----

  /** A status is backed by what was received. */
  ghost predicate Backed(s: State, sock: nat) {
    sock in s.ops ==>
      var op := s.ops[sock];
      && (op.status == PutDone && op.call.PutCall? ==> |op.got| >= op.call.w)
      && (op.status.GotValue? && op.call.GetCall? ==> Supported(Recvs(op.got), op.status.value, Effective(op.call.r)))
  }

  lemma BackedStep(ring: seq<Node>, lib: Library, s: State, step: Step, s': State, sock: nat)
    requires Backed(s, sock) && Next(ring, lib, s, step, s')
    ensures Backed(s', sock)
  {
    hide ServerStep, Lookup, Supported;
  }

  lemma {:induction false} BackedAlways(ring: seq<Node>, lib: Library, states: seq<State>, steps: seq<Step>,
                                        sock: nat, i: nat)
    requires IsRun(ring, lib, states, steps) && i <= |steps|
    ensures i < |states| && Backed(states[i], sock)
  {
    hide *;
    RunLength(ring, lib, states, steps);
    if i == 0 {
      NotBegunBacked(states[0], sock);
    } else {
      BackedAlways(ring, lib, states, steps, sock, i - 1);
      RunStep(ring, lib, states, steps, i - 1);
      BackedStep(ring, lib, states[i - 1], steps[i - 1], states[i], sock);
    }
  }

  lemma NotBegunBacked(s: State, sock: nat)
    requires sock !in s.ops
    ensures Backed(s, sock)
  {
  }

  ghost predicate DistinctServers(got: seq<Datagram>) {
    forall i, j :: 0 <= i < j < |got| ==> got[i].server != got[j].server
  }

  /** The servers whose reply is the value. */
  ghost function Voters(got: seq<Datagram>, v: CStr): set<Address> {
    set i | 0 <= i < |got| && Text(Received(got[i].body)) == v :: got[i].server
  }

  lemma {:induction false} VotersCount(got: seq<Datagram>, v: CStr)
    requires DistinctServers(got)
    ensures |Voters(got, v)| == Count(Texts(Recvs(got)), v)
  {
    if got == [] {
      assert Texts(Recvs(got)) == [];
    } else {
      var last := |got| - 1;
      var front, d := got[..last], got[last];
      assert got == front + [d] && DistinctServers(front);
      hide *;
      VotersCount(front, v);
      VotersAppend(front, d, v);
      TextsAppend(front, d, v);
    }
  }

  lemma VotersAppend(front: seq<Datagram>, d: Datagram, v: CStr)
    requires DistinctServers(front + [d])
    ensures Voters(front + [d], v) ==
            if Text(Received(d.body)) == v then Voters(front, v) + {d.server} else Voters(front, v)
    ensures d.server !in Voters(front, v)
  {
    hide Text;
    var got := front + [d];
    assert got[|front|] == d && forall i :: 0 <= i < |front| ==> got[i] == front[i];
  }

  lemma TextsAppend(front: seq<Datagram>, d: Datagram, v: CStr)
    ensures Count(Texts(Recvs(front + [d])), v) ==
            Count(Texts(Recvs(front)), v) + if Text(Received(d.body)) == v then 1 else 0
  {
    hide Text;
    assert Texts(Recvs(front + [d])) == Texts(Recvs(front)) + [Text(Received(d.body))];
  }

  lemma {:induction false} ServersOfCount(got: seq<Datagram>)
    requires DistinctServers(got)
    ensures |ServersOf(got)| == |got|
  {
    if got != [] {
      var last := |got| - 1;
      ServersOfCount(got[..last]);
      assert forall i :: 0 <= i < last ==> got[..last][i] == got[i];
      assert ServersOf(got) == ServersOf(got[..last]) + {got[last].server};
    }
  }

  lemma OnceServers(s: State, sock: nat)
    requires Once(s, sock) && sock in s.ops
    ensures DistinctServers(s.ops[sock].got)
    ensures forall d <- s.ops[sock].got :: d.server in s.ops[sock].nodes
  {
  }

  /** The replicas of a key for n nodes are among those for more, and there are exactly n. */
  lemma ReplicasNested(ring: seq<Node>, lib: Library, n: nat, most: nat, key: CStr)
    requires n <= most <= |Servers(ring)|
    ensures forall a :: a in Replicas(ring, lib, n, key) ==> a in Servers(Lookup(ring, most, lib.sha1(key)))
    ensures |Servers(Lookup(ring, most, lib.sha1(key)))| == most
  {
    var sha := lib.sha1(key);
    LookupDistinct(ring, n, sha);
    LookupDistinct(ring, most, sha);
    hide Lookup;
    var few, many := Lookup(ring, n, sha), Lookup(ring, most, sha);
    assert forall i :: 0 <= i < |few| ==> few[i] == many[i];
  }

  lemma Intersect<T>(a: set<T>, b: set<T>, all: set<T>) returns (x: T)
    requires a <= all && b <= all && |a| + |b| > |all|
    ensures x in a && x in b
  {
    if a * b == {} {
      assert |a + b| == |a| + |b|;
      SubsetSize(a + b, all);
    }
    x :| x in a * b;
  }

  /** The last step of the argument, in the final state of the get. */
  lemma VoteDecides(got: seq<Datagram>, x: CStr, v: CStr, needed: nat, acked: set<Address>, all: set<Address>)
    requires DistinctServers(got) && Supported(Recvs(got), x, needed)
    requires forall d <- got :: d.server in acked ==> Tells(d, v)
    requires (forall d <- got :: d.server in all) && acked <= all && |acked| + needed > |all|
    ensures x == v
  {
    hide Count, Text;
    VotersCount(got, x);
    var a := Intersect(acked, Voters(got, x), all);
    var i :| 0 <= i < |got| && Text(Received(got[i].body)) == x && got[i].server == a;
    assert got[i] in got && Good(Recvs(got)[i]);
    TextOf(v);
  }

  lemma TextOf(v: CStr)
    ensures Text(Received(v)) == v
  {
    ConcatEmpty(v);
    UntilTerminated(v, []);
  }

  lemma BeginsWithin(ring: seq<Node>, lib: Library, s: State, sock: nat, call: Call, s': State)
    requires Next(ring, lib, s, Begin(sock, call), s') && !call.OtherCall?
    ensures call.n <= |Servers(ring)|
  {
  }

  /** A run with a put that starts at step p on socket c and has succeeded in state q, and a
      get that starts at step g on socket d and has succeeded in state e. */
  datatype Scenario = Scenario(states: seq<State>, steps: seq<Step>,
                               p: nat, q: nat, c: nat, put: Call,
                               g: nat, e: nat, d: nat, get: Call)

  /** The get follows the put and asks for its key; no older put of that key was in flight when
      the put began, and no other one starts before the get is done. */
  ghost predicate PutThenGet(ring: seq<Node>, lib: Library, x: Scenario) {
    && IsRun(ring, lib, x.states, x.steps) && x.p < x.q <= x.g < x.e <= |x.steps|
    && x.steps[x.p] == Begin(x.c, x.put) && x.steps[x.g] == Begin(x.d, x.get)
    && x.put.PutCall? && x.get.GetCall? && x.put.key == x.get.key != []
    && (forall r <- x.states[x.p].requests :: !PutsKey(r.body, x.put.key))
    && QuietFrom(x.steps, x.p, x.e, x.put.key)
    && x.c in x.states[x.q].ops && x.states[x.q].ops[x.c].status == PutDone
    && x.d in x.states[x.e].ops && x.states[x.e].ops[x.d].status.GotValue?
  }

  /** Every server that handled a datagram of the put could store it. Servers acknowledge a put
      even when they could not. */
  ghost predicate PutStored(x: Scenario)
    requires x.put.PutCall?
  {
    StoredFrom(x.states, x.steps, x.p, x.e, x.c, x.put.key)
  }

  /** The get returned what the put had stored. */
  ghost predicate ReadsWrite(ring: seq<Node>, lib: Library, x: Scenario)
    requires PutThenGet(ring, lib, x)
  {
    x.states[x.e].ops[x.d].status.value == x.put.value
  }

  /** Quorum intersection: the get returned the value of the put, whatever the network did,
      whenever the quorums overlap: W + R exceeds the larger N, a get never counting past 128. */
  lemma QuorumIntersection(ring: seq<Node>, lib: Library, x: Scenario)
    requires PutThenGet(ring, lib, x) && PutStored(x)
    requires x.put.w + Effective(x.get.r) > Max(x.put.n, x.get.n)
    ensures ReadsWrite(ring, lib, x)
  {
    var Scenario(states, steps, p, q, c, put, g, e, d, get) := x;
    RunLength(ring, lib, states, steps);
    hide Next, Owned, Once, Backed, GetHears, PutHolds, IsRun, Effective, Max, AddsFor;
    RunStep(ring, lib, states, steps, p);
    RunStep(ring, lib, states, steps, g);
    BeginsWithin(ring, lib, states[p], c, put, states[p + 1]);
    BeginsWithin(ring, lib, states[g], d, get, states[g + 1]);
    QuietBefore(steps, p, q, e, put.key);
    StoredBefore(states, steps, p, q, e, c, put.key);
    PutHoldsAlways(ring, lib, states, steps, p, q, c, put);
    GetHearsAlways(ring, lib, states, steps, p, q, g, e, c, put, d, get);
    BackedAlways(ring, lib, states, steps, c, q);
    BackedAlways(ring, lib, states, steps, d, e);
    TheGetIsRight(states[q], states[e], ring, lib, c, put, d, get);
  }

  lemma QuietBefore(steps: seq<Step>, p: nat, q: nat, e: nat, key: CStr)
    requires q <= e && QuietFrom(steps, p, e, key)
    ensures QuietFrom(steps, p, q, key)
  {
  }

  lemma StoredBefore(states: seq<State>, steps: seq<Step>, p: nat, q: nat, e: nat, c: nat, key: CStr)
    requires q <= e && StoredFrom(states, steps, p, e, c, key)
    ensures StoredFrom(states, steps, p, q, c, key)
  {
    hide AddsFor;
  }

  lemma TheGetIsRight(s: State, s': State, ring: seq<Node>, lib: Library, c: nat, put: Call, d: nat, get: Call)
    requires put.PutCall? && get.GetCall? && put.key == get.key
    requires put.n <= |Servers(ring)| && get.n <= |Servers(ring)|
    requires put.w + Effective(get.r) > Max(put.n, get.n)
    requires c in s.ops && s.ops[c].call == put && s.ops[c].nodes == NodesOf(ring, lib, put)
    requires d in s'.ops && s'.ops[d].call == get && s'.ops[d].nodes == NodesOf(ring, lib, get)
    requires Once(s, c) && Once(s', d) && Backed(s, c) && Backed(s', d)
    requires s.ops[c].status == PutDone && s'.ops[d].status.GotValue?
    requires GetHears(s', d, ServersOf(s.ops[c].got), put.value)
    ensures s'.ops[d].status.value == put.value
  {
    hide Once, Supported, Lookup, Tells, Effective;
    var most := Max(put.n, get.n);
    ReplicasNested(ring, lib, put.n, most, put.key);
    ReplicasNested(ring, lib, get.n, most, put.key);
    OnceServers(s, c);
    OnceServers(s', d);
    ServersOfCount(s.ops[c].got);
    var all := Servers(Lookup(ring, most, lib.sha1(put.key)));
    hide Replicas, Servers;
    VoteDecides(s'.ops[d].got, s'.ops[d].status.value, put.value, Effective(get.r), ServersOf(s.ops[c].got), all);
  }

  // ---- The empty key ----

  /** A get of the empty key is sent as a ping, so all it can hear is nothing. */
  ghost predicate HearsNothing(s: State, g: nat) {
    g in s.ops ==>
      && s.ops[g].call.GetCall? && s.ops[g].call.key == []
      && (forall d <- s.requests :: d.sock == g ==> d.body == [])
      && (forall d <- s.replies :: d.sock == g ==> d.body == [])
      && (forall d <- s.ops[g].got :: d.body == [])
  }

  lemma HearsNothingKept(ring: seq<Node>, lib: Library, s: State, step: Step, s': State, g: nat)
    requires Owned(s) && HearsNothing(s, g) && Next(ring, lib, s, step, s')
    requires g in s'.ops ==> s'.ops[g].call.GetCall? && s'.ops[g].call.key == []
    ensures HearsNothing(s', g)
  {
    hide Supported, Lookup;
  }

  lemma {:induction false} HearsNothingAlways(ring: seq<Node>, lib: Library, states: seq<State>, steps: seq<Step>,
                                              g: nat, i: nat)
    requires IsRun(ring, lib, states, steps) && i <= |steps| < |states|
    requires g in states[i].ops ==> states[i].ops[g].call.GetCall? && states[i].ops[g].call.key == []
    ensures HearsNothing(states[i], g)
  {
    hide *;
    RunLength(ring, lib, states, steps);
    if i == 0 {
      NotBegunSilent(states[0], g);
    } else {
      RunStep(ring, lib, states, steps, i - 1);
      LaterStep(ring, lib, states[i - 1], steps[i - 1], states[i], g);
      OwnedAlways(ring, lib, states, steps, i - 1);
      HearsNothingAlways(ring, lib, states, steps, g, i - 1);
      HearsNothingKept(ring, lib, states[i - 1], steps[i - 1], states[i], g);
    }
  }

  lemma NotBegunSilent(s: State, g: nat)
    requires g !in s.ops
    ensures HearsNothing(s, g)
  {
  }

  /** For the empty key, which `QuorumIntersection` leaves out: a get that succeeds returns the
      empty value, whatever was put. */
  lemma EmptyKeyReadsEmpty(ring: seq<Node>, lib: Library, states: seq<State>, steps: seq<Step>, g: nat, i: nat)
    requires IsRun(ring, lib, states, steps) && i <= |steps| < |states|
    requires g in states[i].ops && states[i].ops[g].call.GetCall? && states[i].ops[g].call.key == []
    requires states[i].ops[g].status.GotValue?
    ensures states[i].ops[g].status.value == []
  {
    hide *;
    HearsNothingAlways(ring, lib, states, steps, g, i);
    BackedAlways(ring, lib, states, steps, g, i);
    OnlyEmpty(states[i], g);
  }

  lemma OnlyEmpty(s: State, g: nat)
    requires HearsNothing(s, g) && Backed(s, g) && g in s.ops && s.ops[g].status.GotValue?
    ensures s.ops[g].status.value == []
  {
    hide Count;
    var got := s.ops[g].got;
    assert got[|got| - 1] in got;
  }
}
