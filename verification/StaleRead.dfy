/** The converse of quorum intersection: when the quorums need not overlap, or the servers that
    acknowledge a put need not have stored it, there is a run in which a get that starts after
    the put succeeded still returns the old value. */
module StaleRead {
  import opened CStrings
  import opened HashTables
  import opened Requests
  import opened ServerSpec
  import opened ReplySpec
  import opened Nodes
  import opened RingTheory
  import opened Cluster
  import opened Quorum
  import DF = DumpFormat

  // The key, its old value and the value that is put.
  const K: CStr := [1]
  const U: CStr := [2]
  const V: CStr := [3]

  // A server that cannot copy the value it should store.
  const NO_VALUE := ServerAlloc(Alloc(true, true, false), true, true)

  function OldTable(): Table { map[K := U] }

  function NewTable(): Table { map[K := V] }

  /** What the run is about: the replicas of the key, in order, the quorum sizes, and whether the
      servers can store what is put. */
  datatype Plan = Plan(servers: set<Address>, nodes: seq<Address>, w: nat, r: nat, stored: bool) {
    function Memory(): ServerAlloc { if stored then GOOD_MEMORY else NO_VALUE }

    /** What a replica has after the put. */
    function After(): Table { if stored then NewTable() else OldTable() }

    /** The first replica that answers the get. */
    function Start(): nat { if stored then w else 0 }

    ghost predicate Valid() {
      && 1 <= w <= |nodes| && 1 <= r <= |nodes| && Start() + Effective(r) <= |nodes|
      && (forall i :: 0 <= i < |nodes| ==> nodes[i] in servers)
      && (forall i, j :: 0 <= i < j < |nodes| ==> nodes[i] != nodes[j])
    }

    function PutOf(): Call { PutCall(K, V, |nodes|, w) }

    function GetOf(): Call { GetCall(K, |nodes|, r) }

    /** The first j replicas have handled the put. */
    ghost function Tables(j: nat): map<Address, Table>
      requires j <= |nodes|
    {
      map a | a in servers :: if a in nodes[..j] then After() else OldTable()
    }

    /** Requests to all replicas but those at positions lo to hi. */
    ghost function Requests(sock: nat, body: Bytes, lo: nat, hi: nat): set<Datagram> {
      set i | 0 <= i < |nodes| && !(lo <= i < hi) :: Datagram(sock, nodes[i], 0, body)
    }

    /** Replies from the replicas at positions lo to lo + j. */
    function Heard(sock: nat, body: Bytes, lo: nat, j: nat): (got: seq<Datagram>)
      requires lo + j <= |nodes|
      ensures |got| == j
    {
      seq(j, i requires 0 <= i < j => Datagram(sock, nodes[lo + i], 0, body))
    }

    // j replicas have acknowledged the put.
    ghost function PutState(j: nat): State
      requires j <= |nodes|
    {
      State(Tables(j), Requests(0, Encode(Put(K, V)), 0, j), {},
            map[0 := Op(PutOf(), nodes, Heard(0, [], 0, j), if j >= w then PutDone else Running)])
    }

    // The next one has sent its acknowledgement.
    ghost function PutMid(j: nat): State
      requires j < |nodes|
    {
      PutState(j).(tables := Tables(j + 1), requests := Requests(0, Encode(Put(K, V)), 0, j + 1),
                   replies := {Datagram(0, nodes[j], 0, [])})
    }

    // j replicas without the new value have told the get the old one.
    ghost function GetState(j: nat): State
      requires w <= |nodes| && Start() + j <= |nodes|
    {
      var s := PutState(w);
      s.(requests := s.requests + Requests(1, K, Start(), Start() + j),
         ops := s.ops[1 := Op(GetOf(), nodes, Heard(1, U, Start(), j),
                              if j >= Effective(r) then GotValue(U) else Running)])
    }

    ghost function GetMid(j: nat): State
      requires w <= |nodes| && Start() + j < |nodes|
    {
      var s := PutState(w);
      GetState(j).(requests := s.requests + Requests(1, K, Start(), Start() + j + 1),
                   replies := {Datagram(1, nodes[Start() + j], 0, U)})
    }
  }

  ghost predicate Fits(plan: Plan, ring: seq<Node>, lib: Library) {
    plan.Valid() && plan.servers == Servers(ring) && |plan.nodes| <= |Servers(ring)|
    && plan.nodes == Replicas(ring, lib, |plan.nodes|, K)
  }

  lemma TableChanges(plan: Plan, j: nat)
    requires plan.Valid() && j < |plan.nodes|
    ensures plan.Tables(j)[plan.nodes[j]] == OldTable()
    ensures plan.Tables(j + 1) == plan.Tables(j)[plan.nodes[j] := plan.After()]
  {
    assert plan.nodes[..j + 1] == plan.nodes[..j] + [plan.nodes[j]];
  }

  lemma RequestLeaves(plan: Plan, sock: nat, body: Bytes, lo: nat, hi: nat)
    requires plan.Valid() && lo <= hi < |plan.nodes|
    ensures var d := Datagram(sock, plan.nodes[hi], 0, body);
            d in plan.Requests(sock, body, lo, hi)
            && plan.Requests(sock, body, lo, hi + 1) == plan.Requests(sock, body, lo, hi) - {d}
  {
  }

  lemma AllAsked(plan: Plan, sock: nat, body: Bytes, at: nat)
    requires |body| <= MAX_MSG_SIZE
    ensures Sends(sock, plan.nodes, body) == plan.Requests(sock, body, at, at)
  {
  }

  lemma ReplyHeard(plan: Plan, sock: nat, body: Bytes, lo: nat, j: nat)
    requires plan.Valid() && lo + j < |plan.nodes|
    ensures plan.Heard(sock, body, lo, j + 1) ==
            plan.Heard(sock, body, lo, j) + [Datagram(sock, plan.nodes[lo + j], 0, body)]
  {
  }

  lemma PutServed(plan: Plan)
    ensures ServerStep(OldTable(), Encode(Put(K, V)), plan.Memory(), plan.After(), DF.Sent([[]]))
  {
    MeaningOfPut(K, V);
  }

  lemma GetServed()
    ensures ServerStep(OldTable(), K, GOOD_MEMORY, OldTable(), DF.Sent([U]))
  {
    MeaningOfGet(K);
  }

  lemma AnswersOne(d: Datagram, body: Bytes)
    ensures Answers(d, [body]) == {Datagram(d.sock, d.server, 0, body)}
  {
    assert [body][0] == body;
    assert Datagram(d.sock, d.server, 0, [body][0]) in Answers(d, [body]);
  }

  // ---- Single steps, in general ----

  lemma ServeStep(ring: seq<Node>, lib: Library, s: State, d: Datagram, mem: ServerAlloc, table: Table, body: Bytes)
    requires d in s.requests && d.server in s.tables
    requires ServerStep(s.tables[d.server], d.body, mem, table, DF.Sent([body]))
    ensures Next(ring, lib, s, Serve(d, mem, table, DF.Sent([body])),
                 s.(tables := s.tables[d.server := table], requests := s.requests - {d},
                    replies := s.replies + {Datagram(d.sock, d.server, 0, body)}))
  {
    AnswersOne(d, body);
    hide ServerStep, Answers, Meaning;
  }

  lemma ReceiveStep(ring: seq<Node>, lib: Library, s: State, d: Datagram, status: Status)
    requires d in s.replies && d.sock in s.ops && s.ops[d.sock].status == Running
    requires StatusMay(s.ops[d.sock].(got := s.ops[d.sock].got + [d]), status)
    ensures Next(ring, lib, s, Receive(d, status),
                 s.(replies := s.replies - {d},
                    ops := s.ops[d.sock := s.ops[d.sock].(got := s.ops[d.sock].got + [d], status := status)]))
  {
    hide StatusMay;
  }

  // ---- The steps of the run ----

  /** No other put starts, and the servers handle the put with the memory of the plan. */
  ghost predicate StepFits(plan: Plan, step: Step) {
    !StartsPut(step, K) && (step.Serve? && step.request.sock == 0 ==> step.mem == plan.Memory())
  }

  lemma PutServe(plan: Plan, ring: seq<Node>, lib: Library, j: nat) returns (step: Step)
    requires Fits(plan, ring, lib) && j < |plan.nodes|
    ensures Next(ring, lib, plan.PutState(j), step, plan.PutMid(j)) && StepFits(plan, step)
  {
    hide Servers, Effective, ServerStep, Next, Meaning, Encode, Replicas, Plan.Memory, Plan.After;
    var d := Datagram(0, plan.nodes[j], 0, Encode(Put(K, V)));
    step := Serve(d, plan.Memory(), plan.After(), DF.Sent([[]]));
    TableChanges(plan, j);
    RequestLeaves(plan, 0, Encode(Put(K, V)), 0, j);
    PutServed(plan);
    hide Plan.Requests, Plan.Heard;
    ServeStep(ring, lib, plan.PutState(j), d, plan.Memory(), plan.After(), []);
    var reply := Datagram(0, plan.nodes[j], 0, []);
    assert {} + {reply} == {reply};
  }

  lemma PutReceive(plan: Plan, ring: seq<Node>, lib: Library, j: nat) returns (step: Step)
    requires Fits(plan, ring, lib) && j < plan.w
    ensures Next(ring, lib, plan.PutMid(j), step, plan.PutState(j + 1)) && StepFits(plan, step)
  {
    hide Next, Plan.Tables, Plan.Requests, Servers;
    var d, status := Datagram(0, plan.nodes[j], 0, []), if j + 1 >= plan.w then PutDone else Running;
    step := Receive(d, status);
    ReplyHeard(plan, 0, [], 0, j);
    ReceiveStep(ring, lib, plan.PutMid(j), d, status);
    assert {d} - {d} == {};
    var op := plan.PutMid(j).ops[0].(got := plan.Heard(0, [], 0, j + 1), status := status);
    assert plan.PutMid(j).ops[0 := op] == map[0 := op];
  }

  lemma GetServe(plan: Plan, ring: seq<Node>, lib: Library, j: nat) returns (step: Step)
    requires Fits(plan, ring, lib) && j < Effective(plan.r)
    ensures Next(ring, lib, plan.GetState(j), step, plan.GetMid(j)) && StepFits(plan, step)
  {
    hide Servers, Effective;
    var d := Datagram(1, plan.nodes[plan.Start() + j], 0, K);
    step := Serve(d, GOOD_MEMORY, OldTable(), DF.Sent([U]));
    StillOld(plan, j);
    GetServed();
    hide ServerStep, Next, Meaning, Plan.Tables, Plan.Requests, Plan.Heard, Plan.Start;
    ServeStep(ring, lib, plan.GetState(j), d, GOOD_MEMORY, OldTable(), U);
  }

  /** A replica without the new value: the get's request leaves it, and its table stays. */
  lemma StillOld(plan: Plan, j: nat)
    requires plan.Valid() && plan.w <= |plan.nodes| && plan.Start() + j < |plan.nodes|
    ensures var from := plan.Start();
            var d := Datagram(1, plan.nodes[from + j], 0, K);
            var tables, puts := plan.Tables(plan.w), plan.PutState(plan.w).requests;
            && d.server in tables && tables[d.server] == OldTable() && tables[d.server := OldTable()] == tables
            && d in plan.Requests(1, K, from, from + j)
            && puts + plan.Requests(1, K, from, from + j + 1) == puts + plan.Requests(1, K, from, from + j) - {d}
  {
    hide *;
    var from := plan.Start();
    var d := Datagram(1, plan.nodes[from + j], 0, K);
    RequestLeaves(plan, 1, K, from, from + j);
    OldThere(plan, from + j);
    PutsElsewhere(plan, d);
    RemoveRight(plan.PutState(plan.w).requests, plan.Requests(1, K, from, from + j), d);
  }

  lemma RemoveRight<T>(a: set<T>, b: set<T>, x: T)
    requires x !in a
    ensures a + (b - {x}) == a + b - {x}
  {
  }

  lemma OldThere(plan: Plan, i: nat)
    requires plan.Valid() && plan.Start() <= i < |plan.nodes|
    ensures var tables, a := plan.Tables(plan.w), plan.nodes[i];
            a in tables && tables[a] == OldTable() && tables[a := OldTable()] == tables
  {
  }

  lemma PutsElsewhere(plan: Plan, d: Datagram)
    requires plan.w <= |plan.nodes| && d.sock == 1
    ensures d !in plan.PutState(plan.w).requests
  {
  }

  lemma GetReceive(plan: Plan, ring: seq<Node>, lib: Library, j: nat) returns (step: Step)
    requires Fits(plan, ring, lib) && j < Effective(plan.r)
    ensures Next(ring, lib, plan.GetMid(j), step, plan.GetState(j + 1)) && StepFits(plan, step)
  {
    hide Next, Plan.Tables, Plan.Requests, Servers, Plan.Heard, Effective, Replicas, Plan.PutOf, Encode, Plan.Start;
    hide Progress, StatusMay, Recvs;
    var d := Datagram(1, plan.nodes[plan.Start() + j], 0, U);
    var status := if j + 1 >= Effective(plan.r) then GotValue(U) else Running;
    step := Receive(d, status);
    ReplyHeard(plan, 1, U, plan.Start(), j);
    HeardCounts(plan, j);
    HeardCounts(plan, j + 1);
    var old_op := plan.GetMid(j).ops[1];
    var op := old_op.(got := plan.Heard(1, U, plan.Start(), j + 1));
    assert op.got[..|op.got| - 1] == old_op.got;
    GetStatusAllowed(op);
    ReceiveStep(ring, lib, plan.GetMid(j), d, status);
    assert {d} - {d} == {};
    var ops := plan.PutState(plan.w).ops;
    assert plan.GetMid(j).ops[1 := op.(status := status)] == ops[1 := op.(status := status)];
  }

  /** What the receive loop computes from j old values. */
  lemma HeardCounts(plan: Plan, j: nat)
    requires plan.Valid() && j <= Effective(plan.r)
    ensures Progress(Recvs(plan.Heard(1, U, plan.Start(), j)), |plan.nodes|, Effective(plan.r)) ==
            if j == Effective(plan.r) then Found(U) else Pending
  {
    assert 1 <= Effective(plan.r) <= |plan.nodes| - plan.Start();
    hide Effective, Plan.Start, Progress;
    SameValue(Recvs(plan.Heard(1, U, plan.Start(), j)), U, |plan.nodes|, Effective(plan.r));
  }

  lemma PutCountsRight(plan: Plan, j: nat)
    requires plan.Valid()
    ensures j <= |plan.nodes| ==> CountsRight(plan.PutState(j), 1)
    ensures j < |plan.nodes| ==> CountsRight(plan.PutMid(j), 1)
  {
  }

  lemma GetCountsRight(plan: Plan, j: nat)
    requires plan.Valid() && j <= Effective(plan.r)
    ensures CountsRight(plan.GetState(j), 1)
    ensures j < Effective(plan.r) ==> CountsRight(plan.GetMid(j), 1)
  {
    hide Effective, Plan.Start, Plan.PutState, Plan.Heard, Progress;
    HeardCounts(plan, j);
  }

  // ---- The run ----

  /** A run of the plan that ends in the given state, in which the get always counts right. */
  ghost predicate Leads(plan: Plan, ring: seq<Node>, lib: Library, states: seq<State>, steps: seq<Step>, s: State) {
    && IsRun(ring, lib, states, steps) && |steps| > 0 && states[|steps|] == s
    && (forall i :: 1 <= i < |steps| ==> StepFits(plan, steps[i]))
    && (forall i :: 0 <= i <= |steps| ==> CountsRight(states[i], 1))
  }

  lemma Extend(plan: Plan, ring: seq<Node>, lib: Library, states: seq<State>, steps: seq<Step>, s: State,
               step: Step, s': State)
    requires Leads(plan, ring, lib, states, steps, s) && Next(ring, lib, s, step, s')
    requires StepFits(plan, step) && CountsRight(s', 1)
    ensures Leads(plan, ring, lib, states + [s'], steps + [step], s')
  {
    hide Next, Init, StepFits, CountsRight;
  }

  /** A server's turn and the receive of its reply. */
  lemma ExtendTwice(plan: Plan, ring: seq<Node>, lib: Library, states: seq<State>, steps: seq<Step>, s: State,
                    serve: Step, s': State, receive: Step, s'': State)
    returns (states': seq<State>, steps': seq<Step>)
    requires Leads(plan, ring, lib, states, steps, s)
    requires Next(ring, lib, s, serve, s') && StepFits(plan, serve) && CountsRight(s', 1)
    requires Next(ring, lib, s', receive, s'') && StepFits(plan, receive) && CountsRight(s'', 1)
    ensures Leads(plan, ring, lib, states', steps', s'')
    ensures |steps| <= |steps'| && |states| <= |states'| && steps'[..|steps|] == steps && states'[..|states|] == states
  {
    hide *;
    states', steps' := states + [s'] + [s''], steps + [serve] + [receive];
    Extend(plan, ring, lib, states, steps, s, serve, s');
    Extend(plan, ring, lib, states + [s'], steps + [serve], s', receive, s'');
  }

  lemma LeadsOne(plan: Plan, ring: seq<Node>, lib: Library, s: State, step: Step, s': State)
    requires Init(ring, s) && Next(ring, lib, s, step, s') && CountsRight(s, 1) && CountsRight(s', 1)
    ensures Leads(plan, ring, lib, [s, s'], [step], s')
  {
    hide Init, Next, CountsRight, StepFits;
  }

  lemma AtFirst(plan: Plan, ring: seq<Node>)
    requires plan.servers == Servers(ring)
    ensures var s := State(plan.Tables(0), {}, {}, map[]); Init(ring, s) && CountsRight(s, 1)
  {
    hide Servers;
  }

  lemma StartOfRun(plan: Plan, ring: seq<Node>, lib: Library) returns (states: seq<State>, steps: seq<Step>)
    requires Fits(plan, ring, lib) && plan.Valid() && plan.servers == Servers(ring)
    ensures Leads(plan, ring, lib, states, steps, plan.PutState(0))
    ensures steps == [Begin(0, plan.PutOf())] && |states| == 2 && states[0].requests == {}
  {
    hide *;
    var s := State(plan.Tables(0), {}, {}, map[]);
    states, steps := [s, plan.PutState(0)], [Begin(0, plan.PutOf())];
    AtFirst(plan, ring);
    PutBeginsRun(plan, ring, lib);
    PutCountsRight(plan, 0);
    LeadsOne(plan, ring, lib, s, Begin(0, plan.PutOf()), plan.PutState(0));
  }

  lemma PutBeginsRun(plan: Plan, ring: seq<Node>, lib: Library)
    requires Fits(plan, ring, lib)
    ensures Next(ring, lib, State(plan.Tables(0), {}, {}, map[]), Begin(0, plan.PutOf()), plan.PutState(0))
  {
    assert Encode(Put(K, V)) == [1, 0, 3];
    AllAsked(plan, 0, Encode(Put(K, V)), 0);
    assert plan.Heard(0, [], 0, 0) == [];
    hide Lookup, Plan.Tables, Plan.Requests, Sends;
  }

  lemma {:induction false} PutRun(plan: Plan, ring: seq<Node>, lib: Library, j: nat)
    returns (states: seq<State>, steps: seq<Step>)
    requires Fits(plan, ring, lib) && plan.Valid() && plan.servers == Servers(ring) && j <= plan.w <= |plan.nodes|
    ensures Leads(plan, ring, lib, states, steps, plan.PutState(j))
    ensures |states| == |steps| + 1 && |steps| > 0
    ensures steps[0] == Begin(0, plan.PutOf()) && states[0].requests == {}
  {
    hide *;
    if j == 0 {
      states, steps := StartOfRun(plan, ring, lib);
    } else {
      states, steps := PutRun(plan, ring, lib, j - 1);
      ghost var first, begin := states[0], steps[0];
      var serve := PutServe(plan, ring, lib, j - 1);
      var receive := PutReceive(plan, ring, lib, j - 1);
      PutCountsRight(plan, j - 1);
      PutCountsRight(plan, j);
      var states', steps' := ExtendTwice(plan, ring, lib, states, steps, plan.PutState(j - 1),
                                         serve, plan.PutMid(j - 1), receive, plan.PutState(j));
      assert steps'[0] == steps'[..|steps|][0] && states'[0] == states'[..|states|][0];
      states, steps := states', steps';
    }
    LeadsShape(plan, ring, lib, states, steps, plan.PutState(j));
  }

  lemma LeadsShape(plan: Plan, ring: seq<Node>, lib: Library, states: seq<State>, steps: seq<Step>, s: State)
    requires Leads(plan, ring, lib, states, steps, s)
    ensures |states| == |steps| + 1 && |steps| > 0 && states[|steps|] == s
  {
  }

  lemma GetBegins(plan: Plan, ring: seq<Node>, lib: Library)
    requires Fits(plan, ring, lib)
    ensures Next(ring, lib, plan.PutState(plan.w), Begin(1, plan.GetOf()), plan.GetState(0))
    ensures StepFits(plan, Begin(1, plan.GetOf()))
  {
    AllAsked(plan, 1, K, plan.Start());
    assert plan.Heard(1, U, plan.Start(), 0) == [];
    hide Lookup, Plan.Start, Plan.Tables, Plan.Requests, Sends;
  }

  /** The put is done in state g, where the get starts. */
  ghost predicate GetFrom(plan: Plan, states: seq<State>, steps: seq<Step>, g: nat)
    requires plan.w <= |plan.nodes|
  {
    && 0 < g < |steps| && g < |states|
    && steps[0] == Begin(0, plan.PutOf()) && states[0].requests == {}
    && steps[g] == Begin(1, plan.GetOf()) && states[g] == plan.PutState(plan.w)
  }

  lemma {:induction false} GetRun(plan: Plan, ring: seq<Node>, lib: Library, j: nat)
    returns (states: seq<State>, steps: seq<Step>, g: nat)
    requires Fits(plan, ring, lib) && plan.Valid() && j <= Effective(plan.r)
    requires plan.w <= |plan.nodes| && plan.Start() + Effective(plan.r) <= |plan.nodes|
    requires plan.servers == Servers(ring)
    ensures Leads(plan, ring, lib, states, steps, plan.GetState(j)) && GetFrom(plan, states, steps, g)
  {
    hide *;
    GetCountsRight(plan, j);
    if j == 0 {
      states, steps := PutRun(plan, ring, lib, plan.w);
      LeadsShape(plan, ring, lib, states, steps, plan.PutState(plan.w));
      g := |steps|;
      GetBegins(plan, ring, lib);
      Extend(plan, ring, lib, states, steps, plan.PutState(plan.w), Begin(1, plan.GetOf()), plan.GetState(0));
      FromHere(plan, states, steps, plan.GetState(0));
      states, steps := states + [plan.GetState(0)], steps + [Begin(1, plan.GetOf())];
    } else {
      states, steps, g := GetRun(plan, ring, lib, j - 1);
      var serve := GetServe(plan, ring, lib, j - 1);
      var receive := GetReceive(plan, ring, lib, j - 1);
      GetCountsRight(plan, j - 1);
      var states', steps' := ExtendTwice(plan, ring, lib, states, steps, plan.GetState(j - 1),
                                         serve, plan.GetMid(j - 1), receive, plan.GetState(j));
      StillFrom(plan, states, steps, g, states', steps');
      states, steps := states', steps';
    }
  }

  lemma FromHere(plan: Plan, states: seq<State>, steps: seq<Step>, s: State)
    requires plan.w <= |plan.nodes| && |states| == |steps| + 1 && |steps| > 0
    requires steps[0] == Begin(0, plan.PutOf()) && states[0].requests == {}
    requires states[|steps|] == plan.PutState(plan.w)
    ensures GetFrom(plan, states + [s], steps + [Begin(1, plan.GetOf())], |steps|)
  {
    hide Plan.PutState;
  }

  lemma StillFrom(plan: Plan, states: seq<State>, steps: seq<Step>, g: nat, states': seq<State>, steps': seq<Step>)
    requires plan.w <= |plan.nodes| && GetFrom(plan, states, steps, g)
    requires |steps| <= |steps'| && |states| <= |states'|
    requires steps'[..|steps|] == steps && states'[..|states|] == states
    ensures GetFrom(plan, states', steps', g)
  {
    hide Plan.PutState, Plan.GetOf, Plan.PutOf;
    assert forall i :: 0 <= i < |steps| ==> steps'[i] == steps'[..|steps|][i];
    assert forall i :: 0 <= i < |states| ==> states'[i] == states'[..|states|][i];
  }

  /** Runs in which no allocation of the getting client fails. */
  ghost predicate AlwaysCounts(x: Scenario) {
    forall i :: 0 <= i <= x.e && i < |x.states| ==> CountsRight(x.states[i], x.d)
  }

  /** Every get after a put that was stored, with these sizes, reads what was put; with `exact`,
      in the runs in which the client's allocations all succeed. */
  ghost predicate ReadsSeeWrites(ring: seq<Node>, lib: Library, n: nat, w: nat, r: nat, exact: bool) {
    forall x: Scenario :: PutThenGet(ring, lib, x) && Sizes(x, n, w, r) && PutStored(x) && (exact ==> AlwaysCounts(x))
                          ==> ReadsWrite(ring, lib, x)
  }

  ghost predicate Sizes(x: Scenario, n: nat, w: nat, r: nat) {
    x.put.PutCall? && x.get.GetCall? && x.put.n == x.get.n == n && x.put.w == w && x.get.r == r
  }

  lemma PlanFits(ring: seq<Node>, lib: Library, n: nat, w: nat, r: nat, stored: bool) returns (plan: Plan)
    requires 1 <= w <= n <= |Servers(ring)| && 1 <= r <= n && (stored ==> w + Effective(r) <= n)
    ensures Fits(plan, ring, lib) && plan.w == w && plan.r == r && |plan.nodes| == n && plan.stored == stored
  {
    LookupDistinct(ring, n, lib.sha1(K));
    plan := Plan(Servers(ring), Replicas(ring, lib, n, K), w, r, stored);
    hide Lookup;
  }

  /** Reads see writes exactly when the quorums overlap, be it in all runs or only in those in
      which the client's allocations succeed. */
  lemma OverlapDecides(ring: seq<Node>, lib: Library, n: nat, w: nat, r: nat, exact: bool)
    requires 1 <= w <= n <= |Servers(ring)| && 1 <= r <= n
    ensures ReadsSeeWrites(ring, lib, n, w, r, exact) <==> w + Effective(r) > n
  {
    hide PutThenGet, ReadsWrite, PutStored, AlwaysCounts;
    if w + Effective(r) > n {
      forall x: Scenario | PutThenGet(ring, lib, x) && Sizes(x, n, w, r) && PutStored(x)
        ensures ReadsWrite(ring, lib, x)
      {
        QuorumIntersection(ring, lib, x);
      }
    } else {
      var x := StaleScenario(ring, lib, n, w, r);
    }
  }

  /** Quorums that need not overlap: a run in which the put was stored, the client counts without
      failure, and still reads the old value. */
  lemma StaleScenario(ring: seq<Node>, lib: Library, n: nat, w: nat, r: nat) returns (x: Scenario)
    requires 1 <= w <= n <= |Servers(ring)| && 1 <= r <= n && w + Effective(r) <= n
    ensures PutThenGet(ring, lib, x) && Sizes(x, n, w, r) && PutStored(x) && AlwaysCounts(x)
    ensures !ReadsWrite(ring, lib, x)
  {
    hide *;
    var plan := PlanFits(ring, lib, n, w, r, true);
    x := ScenarioOf(plan, ring, lib);
    PlanStores(plan, ring, lib, x);
  }

  /** Servers acknowledge a put they cannot store: whatever the quorums, a run in which the get
      reads the old value, and only for that reason if they overlap. */
  lemma UnstoredPut(ring: seq<Node>, lib: Library, n: nat, w: nat, r: nat) returns (x: Scenario)
    requires 1 <= w <= n <= |Servers(ring)| && 1 <= r <= n
    ensures PutThenGet(ring, lib, x) && Sizes(x, n, w, r) && AlwaysCounts(x) && !ReadsWrite(ring, lib, x)
    ensures w + Effective(r) > n ==> !PutStored(x)
  {
    var plan := PlanFits(ring, lib, n, w, r, false);
    hide PutThenGet, AlwaysCounts, ReadsWrite, PutStored, Fits;
    x := ScenarioOf(plan, ring, lib);
    if w + Effective(r) > n && PutStored(x) { QuorumIntersection(ring, lib, x); }
  }

  lemma PlanValid(plan: Plan, ring: seq<Node>, lib: Library)
    requires Fits(plan, ring, lib)
    ensures plan.Valid() && plan.w <= |plan.nodes| && plan.Start() + Effective(plan.r) <= |plan.nodes|
    ensures plan.servers == Servers(ring)
  {
  }

  /** The run of a plan as a scenario. */
  lemma ScenarioOf(plan: Plan, ring: seq<Node>, lib: Library) returns (x: Scenario)
    requires Fits(plan, ring, lib)
    ensures plan.Valid() && Leads(plan, ring, lib, x.states, x.steps, plan.GetState(Effective(plan.r)))
    ensures x == Scenario(x.states, x.steps, 0, x.g, 0, plan.PutOf(), x.g, |x.steps|, 1, plan.GetOf())
    ensures PutThenGet(ring, lib, x) && Sizes(x, |plan.nodes|, plan.w, plan.r) && AlwaysCounts(x)
    ensures !ReadsWrite(ring, lib, x)
  {
    hide *;
    PlanValid(plan, ring, lib);
    var states, steps, g := GetRun(plan, ring, lib, Effective(plan.r));
    x := Scenario(states, steps, 0, g, 0, plan.PutOf(), g, |steps|, 1, plan.GetOf());
    StaleAtTheEnd(plan, ring, lib, x);
  }

  lemma StaleAtTheEnd(plan: Plan, ring: seq<Node>, lib: Library, x: Scenario)
    requires plan.Valid() && Leads(plan, ring, lib, x.states, x.steps, plan.GetState(Effective(plan.r)))
    requires GetFrom(plan, x.states, x.steps, x.g)
    requires x == Scenario(x.states, x.steps, 0, x.g, 0, plan.PutOf(), x.g, |x.steps|, 1, plan.GetOf())
    ensures PutThenGet(ring, lib, x) && !ReadsWrite(ring, lib, x)
    ensures Sizes(x, |plan.nodes|, plan.w, plan.r) && AlwaysCounts(x)
  {
    hide Next, Init, StartsPut, CountsRight, Plan.Tables, Plan.Requests, Plan.Heard;
  }

  lemma PlanStores(plan: Plan, ring: seq<Node>, lib: Library, x: Scenario)
    requires plan.stored && plan.Valid()
    requires Leads(plan, ring, lib, x.states, x.steps, plan.GetState(Effective(plan.r)))
    requires x == Scenario(x.states, x.steps, 0, x.g, 0, plan.PutOf(), x.g, |x.steps|, 1, plan.GetOf())
    ensures PutStored(x)
  {
    hide Next, Init, StartsPut, CountsRight, Plan.GetState;
  }
}
