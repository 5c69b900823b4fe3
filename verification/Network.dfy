/** The client side: the counting table, get, put and the put packet (done/network.c). */
module Network {
  import opened CStrings
  import opened TableSpec
  import opened HashTables
  import opened ReplySpec
  import opened Nodes
  import opened RingTheory
  import opened Ring
  import opened Requests

  const INT_MAX: nat := 0x7FFF_FFFF

  // ---- The one-byte counter ----

  /** Outcomes of the allocations of one `increment_and_get`. */
  datatype TallyAlloc = TallyAlloc(dup: bool, add: Alloc)

  predicate TallyOk(mem: TallyAlloc) {
    mem.dup && mem.add == ALL_OK
  }

  /** A signed byte converted to `unsigned int`. */
  function AsUnsigned(b: Byte): nat {
    if b < 128 then b else 0x1_0000_0000 - 256 + b
  }

  /** The table of counters: one byte each, with room for one more. */
  ghost predicate Counters(m: map<CStr, CStr>) {
    forall k <- m :: |m[k]| == 1 && 0 < m[k][0] < 255
  }

  /** The counter of a key after one more occurrence; a counter that cannot be copied out is
      taken for absent. */
  ghost function Next(m: map<CStr, CStr>, key: CStr, mem: TallyAlloc): (next: Byte)
    requires Counters(m)
    ensures next > 0
  {
    if key in m && mem.dup then m[key][0] + 1 else 1
  }

  /** The table afterwards: unchanged when the new counter cannot be stored. */
  ghost function Counted(m: map<CStr, CStr>, key: CStr, mem: TallyAlloc): map<CStr, CStr>
    requires Counters(m)
  {
    if (if key in m then mem.add.value else mem.add == ALL_OK) then m[key := [Next(m, key, mem)]] else m
  }

  /** `increment_and_get` on a table whose values are one-byte counters. */
  method IncrementAndGet(table: HTable, key: CStr, mem: TallyAlloc) returns (count: nat)
    requires table.Valid() && Counters(table.M)
    modifies table.Repr
    ensures table.Valid() && fresh(table.Repr - old(table.Repr))
    ensures count == AsUnsigned(Next(old(table.M), key, mem))
    ensures table.M == Counted(old(table.M), key, mem)
  {
    hide Represents;
    var value := table.Get(key, mem.dup);
    if value.Some? {
      assert table.M[key] == value.value;
      var c: Byte := value.value[0] + 1;
      count := AsUnsigned(c);
      var err := table.Add(key, [c], mem.add);
      return;
    }
    var err := table.Add(key, [1], mem.add);
    count := 1;
  }

  /** Every counter is at least 1, below the limit, and never ahead of the occurrences; with
      no failed allocation it is exactly their number. */
  ghost predicate Tally(m: map<CStr, CStr>, vs: seq<CStr>, limit: nat, exact: bool) {
    && Counters(m) && (forall k <- m :: m[k][0] < limit && m[k][0] <= Count(vs, k))
    && (exact ==> forall k: CStr :: Count(vs, k) == if k in m then m[k][0] else 0)
  }

  lemma TallyStarts(limit: nat, exact: bool)
    ensures Tally(map[], [], limit, exact)
  {
  }

  lemma CountAppend(vs: seq<CStr>, v: CStr)
    ensures forall k: CStr :: Count(vs + [v], k) == Count(vs, k) + if k == v then 1 else 0
  {
  }

  /** One counted occurrence. The number returned reaches r exactly when the new counter
      reaches 128 or r, whichever is less; otherwise the tally goes on. */
  lemma TallyStep(m: map<CStr, CStr>, vs: seq<CStr>, v: CStr, r: nat, exact: bool, mem: TallyAlloc)
    requires 0 < r <= INT_MAX && Tally(m, vs, Effective(r), exact)
    requires exact ==> TallyOk(mem)
    ensures var next := Next(m, v, mem);
            && next <= 128 && next <= Count(vs + [v], v)
            && (exact ==> next == Count(vs + [v], v))
            && (AsUnsigned(next) >= r <==> next >= Effective(r))
            && (next < Effective(r) ==> Tally(Counted(m, v, mem), vs + [v], Effective(r), exact))
  {
    hide Count;
    CountAppend(vs, v);
  }

  /** The tally is a multiset: with every allocation successful and no value more than 127
      times among the replies so far, the count returned is the number of occurrences. */
  lemma TallyCountsOccurrences(m: map<CStr, CStr>, vs: seq<CStr>, v: CStr, mem: TallyAlloc)
    requires Tally(m, vs, 128, true) && Count(vs, v) < 127 && TallyOk(mem)
    ensures AsUnsigned(Next(m, v, mem)) == Count(vs + [v], v)
    ensures Tally(Counted(m, v, mem), vs + [v], 128, true)
  {
    hide Count;
    CountAppend(vs, v);
    TallyStep(m, vs, v, 128, true, mem);
  }

  // ---- get ----

  /** What the environment does during a get: whether the socket, the counting table and the
      list of nodes can be made, the outcome of every `recv` and of the allocations after it,
      and whether the final value can be copied. */
  datatype GetEnv = GetEnv(socket: bool, table: bool, nodes: bool, recvs: seq<Recv>, mems: seq<TallyAlloc>, dup: bool)

  /** How a get ends. Overrun: a reply filled the receive buffer without a NUL, and a string
      scan leaves it. */
  datatype Result = Returns(value: CStr) | Fails(err: ErrorCode) | Overrun

  ghost predicate AllTallyOk(mems: seq<TallyAlloc>) {
    forall i :: 0 <= i < |mems| ==> TallyOk(mems[i])
  }

  type Sent = seq<(Address, Bytes)>

  function Broadcast(nodes: seq<Node>, msg: Bytes): Sent {
    seq(|nodes|, i requires 0 <= i < |nodes| => (nodes[i].address, msg))
  }

  /** The message goes once to each of the `wanted` servers nearest to the key on the ring. */
  ghost predicate SentToNearest(ring: seq<Node>, sha: Digest, wanted: nat, msg: Bytes, sent: Sent) {
    exists nodes: seq<Node> ::
      && NearestServers(ring, sha, wanted, nodes) && |sent| == wanted
      && forall i :: 0 <= i < wanted ==> sent[i] == (nodes[i].address, msg)
  }

  lemma BroadcastMeaning(ring: seq<Node>, sha: Digest, wanted: nat, msg: Bytes)
    requires wanted <= |Servers(ring)|
    ensures SentToNearest(ring, sha, wanted, msg, Broadcast(Lookup(ring, wanted, sha), msg))
  {
    hide Lookup, NearestServers;
    LookupDistinct(ring, wanted, sha);
    LookupMeaning(ring, wanted, sha);
  }

  /** One `recv` of a get into its cleared buffer. No text: the string does not end in it. */
  method ReadReply(in_msg: array<Byte>, recv: Recv) returns (good: bool, text: Option<CStr>)
    requires in_msg.Length == MAX_MSG_SIZE
    modifies in_msg
    ensures good <==> recv.Received? && recv.msg != [0]
    ensures good == Good(recv)
    ensures recv.Received? ==> text == if FirstNul(recv.msg) < 65507 then Some(Until(recv.msg)) else None
    ensures text == if Unterminated(recv) then None else Some(Text(recv))
  {
    hide FirstNul, Until;
    Clear(in_msg, MAX_MSG_SIZE);
    if recv.Timeout? {
      return false, Some([]);
    }
    ghost var zeros := in_msg[..];
    var n := Min(|recv.msg|, MAX_MSG_SIZE);
    CopyIn(in_msg, recv.msg, n);
    ReplyText(in_msg[..], recv.msg, n, zeros);
    var len := StrLen(in_msg, 0);
    assert in_msg[..][0..] == in_msg[..];
    text := if len == MAX_MSG_SIZE then None else Some(Until(in_msg[..]));
    good := !(in_msg[0] == 0 && n == 1);
    assert n == 1 ==> recv.msg == recv.msg[..1] == in_msg[..1] == [in_msg[0]];
  }

  lemma ReplyText(buffer: Bytes, msg: Bytes, n: nat, zeros: Bytes)
    requires |buffer| == |zeros| == MAX_MSG_SIZE && n == Min(|msg|, MAX_MSG_SIZE)
    requires buffer[..n] == msg[..n] && buffer[n..] == zeros[n..] && forall i :: 0 <= i < |zeros| ==> zeros[i] == 0
    ensures FirstNul(buffer) == Min(FirstNul(msg), MAX_MSG_SIZE)
    ensures FirstNul(msg) < MAX_MSG_SIZE ==> Until(buffer) == Until(msg)
  {
    hide FirstNul;
    var z := Min(FirstNul(msg), MAX_MSG_SIZE);
    FirstNulSplits(msg);
    forall i | 0 <= i < z ensures buffer[i] != 0 {
      assert buffer[i] == buffer[..n][i] == msg[..n][i] == msg[..FirstNul(msg)][i];
    }
    if z < MAX_MSG_SIZE {
      assert if z < n then buffer[z] == buffer[..n][z] == msg[..n][z] else buffer[z] == buffer[n..][z - n] == zeros[z];
    }
    FirstNulIs(buffer, z);
    assert buffer[..z] == buffer[..n][..z] == msg[..n][..z] == msg[..z];
  }

  /** The exact result of a get whose allocations succeed: the value is the first to occur often
      enough within the leading run of good replies, and there is none when no value does. */
  ghost predicate ReturnsFirst(recvs: seq<Recv>, needed: nat, r: Result) {
    && (forall v :: FirstValue(recvs, v, needed) <==> r == Returns(v))
    && (r.Returns? || r == Fails(ERR_NETWORK))
  }

  /** The exact conclusion: the value that `ReturnsFirst` demands, a failure for want of memory
      when there is such a value but it cannot be copied out, and a network error when there is
      none. */
  ghost predicate Concludes(recvs: seq<Recv>, needed: nat, dup: bool, r: Result) {
    if dup then ReturnsFirst(recvs, needed, r)
    else if exists v :: FirstValue(recvs, v, needed) then r == Fails(ERR_NOMEM)
    else r == Fails(ERR_NETWORK)
  }

  lemma ConcludedBy(recvs: seq<Recv>, needed: nat, dup: bool, r: Result)
    requires ReturnsFirst(recvs, needed, r)
    ensures Concludes(recvs, needed, dup, if r.Returns? && !dup then Fails(ERR_NOMEM) else r)
  {
    hide FirstValue;
    if r.Returns? { assert FirstValue(recvs, r.value, needed); }
  }

  /** A get that is still waiting receives an unterminated reply. */
  ghost predicate HearsUnterminated(recvs: seq<Recv>, n: nat, needed: nat) {
    exists u: nat :: WaitsAt(recvs, u, n, needed) && Unterminated(recvs[u])
  }

  ghost predicate WaitsAt(recvs: seq<Recv>, u: nat, n: nat, needed: nat) {
    u < |recvs| && Progress(recvs[..u], n, needed) == Pending
  }

  /** What a result says about the replies. */
  function StateOf(r: Result): GetState {
    if r.Returns? then Found(r.value) else Failed
  }

  /** A get was still waiting at each of the first `used` receives, and ended with the last. */
  ghost predicate EndsAt(recvs: seq<Recv>, used: nat, n: nat, needed: nat, r: Result) {
    && 0 < used <= |recvs|
    && (forall u :: 0 <= u < used ==> GetMay(recvs[..u], n, needed, Pending))
    && if r.Overrun? then Unterminated(recvs[used - 1]) else GetMay(recvs[..used], n, needed, StateOf(r))
  }

  /** `network_get`: the nodes asked, the number of replies waited for, and the result. */
  method NetworkGet(ring: NodeList, N: nat, R: nat, key: CStr, lib: Library, env: GetEnv)
    returns (r: Result, sent: Sent, used: nat)
    requires ring.Valid() && 1 <= N <= |Servers(ring.Nodes())| && 1 <= R <= INT_MAX
    requires |env.recvs| == |env.mems| == N
    ensures
      if |key| > 65507 then r == Fails(ERR_BAD_PARAMETER) && sent == []
      else if !env.socket then r == Fails(ERR_NETWORK) && sent == []
      else if !env.table || !env.nodes then r == Fails(ERR_NOMEM) && sent == []
      else
        && sent == Broadcast(Lookup(ring.Nodes(), N, lib.sha1(key)), key)
        && SentToNearest(ring.Nodes(), lib.sha1(key), N, key, sent)
        && EndsAt(env.recvs, used, N, Effective(R), r)
        && (AllTallyOk(env.mems) ==> (r.Overrun? <==> HearsUnterminated(env.recvs, N, Effective(R))))
        && (AllTallyOk(env.mems) && !r.Overrun? ==> Concludes(env.recvs, Effective(R), env.dup, r))
  {
    hide *;
    LargestMessage();
    sent, used := [], 0;
    if |key| > MAX_MSG_SIZE {
      return Fails(ERR_BAD_PARAMETER), sent, used;
    }
    if !env.socket {
      return Fails(ERR_NETWORK), sent, used;
    }
    if !env.table {
      return Fails(ERR_NOMEM), sent, used;
    }
    var nodes := RingGetNodesForKey(ring, N, key, lib, env.nodes);
    if nodes == null {
      return Fails(ERR_NOMEM), sent, used;
    }
    BroadcastMeaning(ring.Nodes(), lib.sha1(key), N, key);
    sent := SendToAll(nodes, key);
    r, used := GetResult(N, R, env);
  }

  /** The sending loop of get and put. */
  method SendToAll(nodes: NodeList, msg: Bytes) returns (sent: Sent)
    requires nodes.Valid()
    ensures sent == Broadcast(nodes.Nodes(), msg)
  {
    sent := [];
    for i := 0 to nodes.size
      invariant sent == Broadcast(nodes.Nodes()[..i], msg)
    {
      sent := sent + [(nodes.items[i].address, msg)];
    }
    assert nodes.Nodes()[..nodes.size] == nodes.Nodes();
  }

  /** What becomes of the replies. */
  method GetResult(N: nat, R: nat, env: GetEnv) returns (r: Result, used: nat)
    requires 1 <= N && 1 <= R <= INT_MAX && |env.recvs| == |env.mems| == N
    ensures EndsAt(env.recvs, used, N, Effective(R), r)
    ensures AllTallyOk(env.mems) ==> (r.Overrun? <==> HearsUnterminated(env.recvs, N, Effective(R)))
    ensures AllTallyOk(env.mems) && !r.Overrun? ==> Concludes(env.recvs, Effective(R), env.dup, r)
  {
    hide *;
    r, used := AwaitReplies(N, R, env.recvs, env.mems);
    if AllTallyOk(env.mems) {
      DecidedMeans(env.recvs, used, N, Effective(R), r);
      if !r.Overrun? { ConcludedBy(env.recvs, Effective(R), env.dup, r); }
    }
    if r.Returns? && !env.dup {
      NoCopy(env.recvs, used, N, Effective(R), r);
      r := Fails(ERR_NOMEM);
    }
  }

  /** A value that cannot be copied out makes the get fail. */
  lemma NoCopy(recvs: seq<Recv>, used: nat, n: nat, needed: nat, r: Result)
    requires EndsAt(recvs, used, n, needed, r) && r.Returns?
    ensures EndsAt(recvs, used, n, needed, Fails(ERR_NOMEM))
  {
    hide Good, Count, Text;
    var now := recvs[..used];
    assert now[..used - 1] == recvs[..used - 1];
  }

  /** The receive loop ends as `Progress` says. */
  ghost predicate Decides(recvs: seq<Recv>, used: nat, n: nat, needed: nat, r: Result) {
    && used <= |recvs|
    && (forall u :: 0 <= u < used ==> Progress(recvs[..u], n, needed) == Pending)
    && (forall u :: 0 <= u < used && Unterminated(recvs[u]) ==> r.Overrun?)
    && if r.Overrun? then used > 0 && Unterminated(recvs[used - 1])
       else Progress(recvs[..used], n, needed) == StateOf(r) && (r.Fails? ==> r.err == ERR_NETWORK)
  }

  /** What a decided receive loop means for all n receives. */
  lemma DecidedMeans(recvs: seq<Recv>, used: nat, n: nat, needed: nat, r: Result)
    requires 0 < n == |recvs| && Decides(recvs, used, n, needed, r)
    ensures r.Overrun? <==> HearsUnterminated(recvs, n, needed)
    ensures !r.Overrun? ==> ReturnsFirst(recvs, needed, r)
  {
    hide Progress, FirstValue, Unterminated;
    if r.Overrun? {
      assert WaitsAt(recvs, used - 1, n, needed);
    } else {
      ProgressSticks(recvs, used, n, needed);
      GetMeaning(recvs, n, needed);
      forall u: nat | WaitsAt(recvs, u, n, needed) ensures !Unterminated(recvs[u]) {
        if used <= u {
          assert recvs[..u][..used] == recvs[..used];
          ProgressSticks(recvs[..u], used, n, needed);
        }
      }
    }
  }

  /** The receive loop has gone on past `used` good replies. */
  ghost predicate Waits(recvs: seq<Recv>, used: nat, n: nat, needed: nat, exact: bool) {
    && used <= n == |recvs| && AllGood(recvs[..used])
    && (forall u :: 0 <= u < used ==> !Unterminated(recvs[u]))
    && (exact ==> forall u :: 0 <= u < used ==> Progress(recvs[..u], n, needed) == Pending)
    && (exact ==> Progress(recvs[..used], n, needed) == if used == n then Failed else Pending)
  }

  lemma NothingYet(recvs: seq<Recv>, n: nat, needed: nat, exact: bool)
    requires 0 < n == |recvs|
    ensures Waits(recvs, 0, n, needed, exact) && Texts(recvs[..0]) == []
  {
  }

  lemma NextText(recvs: seq<Recv>, used: nat)
    requires 0 < used <= |recvs|
    ensures Texts(recvs[..used]) == Texts(recvs[..used - 1]) + [Text(recvs[used - 1])]
  {
    hide Text;
  }

  lemma WaitedSoFar(recvs: seq<Recv>, used: nat, n: nat, needed: nat, exact: bool)
    requires Waits(recvs, used, n, needed, exact) && used < n
    ensures forall u :: 0 <= u <= used ==> GetMay(recvs[..u], n, needed, Pending)
    ensures exact ==> forall u :: 0 <= u <= used ==> Progress(recvs[..u], n, needed) == Pending
    ensures recvs[..used + 1][..used] == recvs[..used]
  {
    hide Progress, Good, Unterminated;
    forall u | 0 <= u <= used ensures AllGood(recvs[..u]) {
      assert forall i :: 0 <= i < u ==> recvs[..u][i] == recvs[..used][i];
    }
  }

  /** One more reply, a timeout or a refusal. */
  lemma BadReply(recvs: seq<Recv>, used: nat, n: nat, needed: nat, exact: bool)
    requires 0 < used <= n && Waits(recvs, used - 1, n, needed, exact) && !Good(recvs[used - 1])
    ensures EndsAt(recvs, used, n, needed, Fails(ERR_NETWORK))
    ensures exact ==> Decides(recvs, used, n, needed, Fails(ERR_NETWORK))
  {
    hide Count, Texts, Text;
    WaitedSoFar(recvs, used - 1, n, needed, exact);
    assert recvs[..used][used - 1] == recvs[used - 1];
  }

  /** One more reply, without an end. */
  lemma LongReply(recvs: seq<Recv>, used: nat, n: nat, needed: nat, exact: bool)
    requires 0 < used <= n && Waits(recvs, used - 1, n, needed, exact) && Unterminated(recvs[used - 1])
    ensures EndsAt(recvs, used, n, needed, Overrun) && (exact ==> Decides(recvs, used, n, needed, Overrun))
  {
    hide Progress, Unterminated, GetMay;
    WaitedSoFar(recvs, used - 1, n, needed, exact);
  }

  /** One more good reply. */
  lemma GoodReply(recvs: seq<Recv>, used: nat, n: nat, needed: nat, exact: bool, enough: bool)
    requires 0 < used <= n && Waits(recvs, used - 1, n, needed, exact)
    requires Good(recvs[used - 1]) && !Unterminated(recvs[used - 1])
    requires enough ==> Count(Texts(recvs[..used]), Text(recvs[used - 1])) >= needed
    requires exact && !enough ==> Count(Texts(recvs[..used]), Text(recvs[used - 1])) < needed
    ensures var r := Returns(Text(recvs[used - 1]));
            if enough then EndsAt(recvs, used, n, needed, r) && (exact ==> Decides(recvs, used, n, needed, r))
            else Waits(recvs, used, n, needed, exact)
  {
    hide Count, Texts, Text, Good, Unterminated;
    WaitedSoFar(recvs, used - 1, n, needed, exact);
    var now := recvs[..used];
    assert now[used - 1] == recvs[used - 1] && now[..used - 1] == recvs[..used - 1];
    assert AllGood(now) by {
      assert forall i :: 0 <= i < used - 1 ==> now[i] == recvs[..used - 1][i];
    }
  }

  /** All replies are in, and no value had enough copies. */
  lemma AllReceived(recvs: seq<Recv>, n: nat, needed: nat, exact: bool)
    requires 0 < n && Waits(recvs, n, n, needed, exact)
    ensures EndsAt(recvs, n, n, needed, Fails(ERR_NETWORK))
    ensures exact ==> Decides(recvs, n, n, needed, Fails(ERR_NETWORK))
  {
    hide Progress, Good, Unterminated;
    forall u | 0 <= u <= n ensures AllGood(recvs[..u]) {
      assert forall i :: 0 <= i < u ==> recvs[..u][i] == recvs[..n][i];
    }
    assert recvs[..n][..n - 1] == recvs[..n - 1];
  }

  lemma TallyBytes(m: map<CStr, CStr>, vs: seq<CStr>, limit: nat, exact: bool)
    requires Tally(m, vs, limit, exact) && limit <= 128
    ensures Counters(m)
  {
  }

  lemma OkAt(mems: seq<TallyAlloc>, i: nat)
    requires i < |mems|
    ensures AllTallyOk(mems) ==> TallyOk(mems[i])
  {
  }

  lemma EffectiveBound(r: nat)
    ensures Effective(r) <= 128
  {
  }

  /** The receive loop of `network_get`. */
  method AwaitReplies(N: nat, R: nat, recvs: seq<Recv>, mems: seq<TallyAlloc>) returns (r: Result, used: nat)
    requires 1 <= N && 1 <= R <= INT_MAX && |recvs| == |mems| == N
    ensures EndsAt(recvs, used, N, Effective(R), r)
    ensures AllTallyOk(mems) ==> Decides(recvs, used, N, Effective(R), r)
    ensures r.Fails? ==> r.err == ERR_NETWORK
  {
    hide *;
    var table := new HTable.Construct(N, true);
    ghost var exact, needed := AllTallyOk(mems), Effective(R);
    var in_msg := new Byte[MAX_MSG_SIZE];
    TallyStarts(needed, exact);
    NothingYet(recvs, N, needed, exact);
    EffectiveBound(R);
    used := 0;
    while used < N
      invariant used <= N && table.Valid() && fresh(table.Repr) && in_msg !in table.Repr
      invariant Tally(table.M, Texts(recvs[..used]), needed, exact)
      invariant Waits(recvs, used, N, needed, exact)
    {
      var good, text := ReadReply(in_msg, recvs[used]);
      ghost var m := table.M;
      used := used + 1;
      if !good {
        BadReply(recvs, used, N, needed, exact);
        return Fails(ERR_NETWORK), used;
      }
      if text.None? {
        LongReply(recvs, used, N, needed, exact);
        return Overrun, used;
      }
      NextText(recvs, used);
      TallyBytes(m, Texts(recvs[..used - 1]), needed, exact);
      OkAt(mems, used - 1);
      var count := IncrementAndGet(table, text.value, mems[used - 1]);
      TallyStep(m, Texts(recvs[..used - 1]), text.value, R, exact, mems[used - 1]);
      GoodReply(recvs, used, N, needed, exact, count >= R);
      if count >= R {
        return Returns(text.value), used;
      }
    }
    AllReceived(recvs, N, needed, exact);
    r := Fails(ERR_NETWORK);
  }

  // ---- Order of arrival ----

  /** Two gets that receive the same good replies, each in its own order, end alike. */
  ghost predicate GetOrderFree(n: nat, r: nat) {
    forall recvs, recvs': seq<Recv>, res: Result, res': Result |
      && SameReplies(recvs, recvs', n)
      && ReturnsFirst(recvs, Effective(r), res) && ReturnsFirst(recvs', Effective(r), res')
      :: res == res'
  }

  lemma ReturnsProgress(recvs: seq<Recv>, n: nat, needed: nat, r: Result)
    requires 0 < n == |recvs|
    ensures ReturnsFirst(recvs, needed, r) <==>
            StateOf(r) == Progress(recvs, n, needed) && (r.Returns? || r == Fails(ERR_NETWORK))
  {
    hide Progress, FirstValue;
    GetMeaning(recvs, n, needed);
    ProgressDecided(recvs, n, needed);
  }

  lemma ProgressDecided(recvs: seq<Recv>, n: nat, needed: nat)
    requires 0 < n == |recvs|
    ensures Progress(recvs, n, needed) != Pending
  {
  }

  /** What a get returns is independent of the order of good replies exactly when the number of
      copies it waits for, min(r, 128), is a majority of n. */
  lemma GetOrderIndependence(n: nat, r: nat)
    requires 1 <= r <= n
    ensures GetOrderFree(n, r) <==> n < 2 * Effective(r)
  {
    hide Progress, ReturnsFirst, Effective, AllGood;
    var needed := Effective(r);
    OrderIndependence(n, r);
    if n < 2 * needed {
      forall recvs, recvs': seq<Recv>, res: Result, res': Result |
        SameReplies(recvs, recvs', n) && ReturnsFirst(recvs, needed, res) && ReturnsFirst(recvs', needed, res')
        ensures res == res'
      {
        ReturnsProgress(recvs, n, needed, res);
        ReturnsProgress(recvs', n, needed, res');
      }
    } else {
      var recvs, recvs' :| SameReplies(recvs, recvs', n) && Progress(recvs, n, needed) != Progress(recvs', n, needed);
      ResultExists(recvs, n, needed);
      ResultExists(recvs', n, needed);
    }
  }

  /** With more than 255 servers a majority is not enough: the counter passes for it at 128. */
  lemma LargeMajorityIsNotEnough()
    ensures 300 < 2 * 200 && !GetOrderFree(300, 200)
  {
    hide GetOrderFree;
    GetOrderIndependence(300, 200);
  }

  function ResultOf(state: GetState): Result {
    if state.Found? then Returns(state.value) else Fails(ERR_NETWORK)
  }

  lemma ResultExists(recvs: seq<Recv>, n: nat, needed: nat)
    requires 0 < n == |recvs|
    ensures ReturnsFirst(recvs, needed, ResultOf(Progress(recvs, n, needed)))
    ensures StateOf(ResultOf(Progress(recvs, n, needed))) == Progress(recvs, n, needed)
  {
    hide Progress, ReturnsFirst;
    ProgressDecided(recvs, n, needed);
    ReturnsProgress(recvs, n, needed, ResultOf(Progress(recvs, n, needed)));
  }

  // ---- put ----

  /** `create_cat_packet`: the key with its terminator, then the value without one. */
  method CreateCatPacket(key: CStr, val: CStr) returns (packet: array<Byte>)
    ensures fresh(packet) && packet[..] == key + [0] + val
  {
    var size := |key| + 1 + |val|;
    packet := new Byte[size](_ => 0);
    StrCpy(packet, 0, key);
    assert packet[..|key| + 1] == packet[0..|key| + 1] == key + [0];
    var i := 0;
    while i < |val|
      invariant 0 <= i <= |val|
      invariant packet[..|key| + 1] == key + [0]
      invariant forall j :: 0 <= j < i ==> packet[|key| + 1 + j] == val[j]
    {
      packet[|key| + 1 + i] := val[i];
      i := i + 1;
    }
    assert packet[..] == packet[..|key| + 1] + val;
  }

  /** What the environment does during a put. */
  datatype PutEnv = PutEnv(socket: bool, packet: bool, nodes: bool, recvs: seq<Recv>)

  /** `network_put`: the packet goes to all N nodes of the key, and W datagrams must come back. */
  method NetworkPut(ring: NodeList, N: nat, W: nat, key: CStr, value: CStr, lib: Library, env: PutEnv)
    returns (err: ErrorCode, sent: Sent, used: nat)
    requires ring.Valid() && 1 <= W <= N <= |Servers(ring.Nodes())| && |env.recvs| == N
    ensures |key| > 65507 || |value| > 65507 ==> err == ERR_BAD_PARAMETER && sent == []
    ensures |key| <= 65507 && |value| <= 65507 ==>
      if !env.socket then err == ERR_NETWORK && sent == []
      else if !env.packet || !env.nodes then err == ERR_NOMEM && sent == []
      else
        && sent == Broadcast(Lookup(ring.Nodes(), N, lib.sha1(key)), Encode(Put(key, value))) && used <= N
        && SentToNearest(ring.Nodes(), lib.sha1(key), N, key + [0] + value, sent)
        && (forall u :: 0 <= u < used ==> PutProgress(env.recvs[..u], N, W) == Waiting)
        && PutProgress(env.recvs[..used], N, W) == (if err == ERR_NONE then Stored else Refused)
        && err in {ERR_NONE, ERR_NETWORK}
        && (err == ERR_NONE <==> forall i :: 0 <= i < W ==> env.recvs[i].Received?)
  {
    hide Lookup, Broadcast, SentToNearest, PutProgress, Servers;
    sent, used := [], 0;
    if |key| > MAX_MSG_SIZE || |value| > MAX_MSG_SIZE {
      return ERR_BAD_PARAMETER, sent, used;
    }
    if !env.socket {
      return ERR_NETWORK, sent, used;
    }
    if !env.packet {
      return ERR_NOMEM, sent, used;
    }
    var msg := CreateCatPacket(key, value);
    var nodes := RingGetNodesForKey(ring, N, key, lib, env.nodes);
    if nodes == null {
      return ERR_NOMEM, sent, used;
    }
    BroadcastMeaning(ring.Nodes(), lib.sha1(key), N, msg[..]);
    sent := SendToAll(nodes, msg[..]);
    var nodesContacted;
    nodesContacted, used := AwaitAcks(N, W, env.recvs);
    err := if nodesContacted < W then ERR_NETWORK else ERR_NONE;
  }

  /** The receive loop of `network_put`. */
  method AwaitAcks(N: nat, W: nat, recvs: seq<Recv>) returns (nodesContacted: nat, used: nat)
    requires 1 <= W <= N == |recvs|
    ensures used <= N && forall u :: 0 <= u < used ==> PutProgress(recvs[..u], N, W) == Waiting
    ensures PutProgress(recvs[..used], N, W) == if nodesContacted < W then Refused else Stored
    ensures nodesContacted >= W <==> forall i :: 0 <= i < W ==> recvs[i].Received?
  {
    nodesContacted, used := 0, 0;
    while used < N
      invariant used <= N && nodesContacted == used < W
      invariant forall i :: 0 <= i < used ==> recvs[i].Received?
      invariant forall u :: 0 <= u <= used ==> PutProgress(recvs[..u], N, W) == Waiting
    {
      used := used + 1;
      assert recvs[..used][..used - 1] == recvs[..used - 1];
      if recvs[used - 1].Timeout? {
        return;
      }
      nodesContacted := nodesContacted + 1;
      if nodesContacted >= W {
        return;
      }
    }
  }
}
