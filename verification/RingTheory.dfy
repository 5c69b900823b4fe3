/** The consistent-hashing ring as a value: which nodes a key is mapped to, and what happens to
    that mapping when a server leaves. */
module RingTheory {
  import opened CStrings
  import opened Nodes

  ghost predicate Sorted(nodes: seq<Node>) {
    forall i, j :: 0 <= i < j < |nodes| ==> NodeCmpSha(nodes[i], nodes[j]) <= 0
  }

  ghost function Servers(nodes: seq<Node>): set<Address> {
    set i | 0 <= i < |nodes| :: nodes[i].address
  }

  predicate Below(node: Node, sha: Digest) {
    StrNCmp(node.sha, sha, SHA_DIGEST_LENGTH) < 0
  }

  // ---- Where the walk starts ----

  /** What `index_of_first_node` must return: the first node at or above the key, or 0. */
  ghost predicate IsStart(nodes: seq<Node>, sha: Digest, start: nat) {
    if forall i :: 0 <= i < |nodes| ==> Below(nodes[i], sha) then start == 0
    else start < |nodes| && !Below(nodes[start], sha) && forall i :: 0 <= i < start ==> Below(nodes[i], sha)
  }

  function StartFrom(nodes: seq<Node>, sha: Digest, i: nat): (start: nat)
    requires i <= |nodes|
    ensures start == 0 || start < |nodes|
    decreases |nodes| - i
  {
    if i == |nodes| then 0 else if !Below(nodes[i], sha) then i else StartFrom(nodes, sha, i + 1)
  }

  function Start(nodes: seq<Node>, sha: Digest): (start: nat)
    ensures start == 0 || start < |nodes|
  {
    StartFrom(nodes, sha, 0)
  }

  lemma StartIsStart(nodes: seq<Node>, sha: Digest)
    ensures IsStart(nodes, sha, Start(nodes, sha))
  {
    StartIsFirst(nodes, sha, 0);
  }

  lemma {:induction false} StartIsFirst(nodes: seq<Node>, sha: Digest, i: nat)
    requires i <= |nodes| && forall j :: 0 <= j < i ==> Below(nodes[j], sha)
    ensures IsStart(nodes, sha, StartFrom(nodes, sha, i))
    decreases |nodes| - i
  {
    if i < |nodes| && Below(nodes[i], sha) {
      StartIsFirst(nodes, sha, i + 1);
    }
  }

  lemma StartUnique(nodes: seq<Node>, sha: Digest, start: nat)
    requires IsStart(nodes, sha, start)
    ensures start == Start(nodes, sha)
  {
    StartIsStart(nodes, sha);
  }

  lemma StartSplits(nodes: seq<Node>, sha: Digest)
    requires Sorted(nodes)
    ensures var start := Start(nodes, sha);
            (forall i :: 0 <= i < |nodes| ==> (Below(nodes[i], sha) <==> i < start))
            || (start == 0 && forall i :: 0 <= i < |nodes| ==> Below(nodes[i], sha))
  {
    var start := Start(nodes, sha);
    StartIsStart(nodes, sha);
    forall i | start < i < |nodes| && !Below(nodes[start], sha) ensures !Below(nodes[i], sha) {
      StrNCmpFlips(nodes[start].sha, sha, SHA_DIGEST_LENGTH);
      StrNCmpFlips(nodes[i].sha, sha, SHA_DIGEST_LENGTH);
      assert NodeCmpSha(nodes[start], nodes[i]) <= 0;
      StrNCmpTransitive(sha, nodes[start].sha, nodes[i].sha, SHA_DIGEST_LENGTH);
    }
  }

  // ---- The start and the order of digests, in terms of the strings they begin with ----

  lemma BelowMeaning(node: Node, sha: Digest)
    ensures Below(node, sha) <==> LexLess(Until(node.sha), Until(sha))
  {
    StrNCmpMeaning(node.sha, sha, SHA_DIGEST_LENGTH);
  }

  /** No node comes after one whose digest, as a string, is greater. */
  ghost predicate InDigestOrder(nodes: seq<Node>) {
    forall i, j :: 0 <= i < j < |nodes| ==> !LexLess(Until(nodes[j].sha), Until(nodes[i].sha))
  }

  /** Sorted by the comparison of nodes means sorted by those strings. */
  lemma SortedMeaning(nodes: seq<Node>)
    ensures Sorted(nodes) <==> InDigestOrder(nodes)
  {
    hide StrNCmp, LexLess, Until;
    forall i, j | 0 <= i < j < |nodes|
      ensures NodeCmpSha(nodes[i], nodes[j]) <= 0 <==> !LexLess(Until(nodes[j].sha), Until(nodes[i].sha))
    {
      StrNCmpMeaning(nodes[j].sha, nodes[i].sha, SHA_DIGEST_LENGTH);
      StrNCmpFlips(nodes[j].sha, nodes[i].sha, SHA_DIGEST_LENGTH);
    }
  }

  /** The first node whose digest is not less than the key's, or 0 when every one is. */
  ghost predicate FirstNotLess(nodes: seq<Node>, sha: Digest, start: nat) {
    || (start == 0 && forall i :: 0 <= i < |nodes| ==> LexLess(Until(nodes[i].sha), Until(sha)))
    || (start < |nodes| && !LexLess(Until(nodes[start].sha), Until(sha))
        && forall i :: 0 <= i < start ==> LexLess(Until(nodes[i].sha), Until(sha)))
  }

  lemma StartMeaning(nodes: seq<Node>, sha: Digest)
    ensures FirstNotLess(nodes, sha, Start(nodes, sha))
  {
    hide Start, Below, LexLess, Until;
    StartIsStart(nodes, sha);
    forall i | 0 <= i < |nodes| ensures Below(nodes[i], sha) <==> LexLess(Until(nodes[i].sha), Until(sha)) {
      BelowMeaning(nodes[i], sha);
    }
  }

  /** On a sorted ring the start is an exact lower bound: everything before it is less than the
      key and everything from it on is not, unless every node is less. */
  lemma StartIsLowerBound(nodes: seq<Node>, sha: Digest)
    requires InDigestOrder(nodes)
    ensures var start := Start(nodes, sha);
            || (forall i :: 0 <= i < |nodes| ==> (LexLess(Until(nodes[i].sha), Until(sha)) <==> i < start))
            || (start == 0 && forall i :: 0 <= i < |nodes| ==> LexLess(Until(nodes[i].sha), Until(sha)))
  {
    hide Start, Below, LexLess, Until, Sorted;
    SortedMeaning(nodes);
    StartSplits(nodes, sha);
    forall i | 0 <= i < |nodes| ensures Below(nodes[i], sha) <==> LexLess(Until(nodes[i].sha), Until(sha)) {
      BelowMeaning(nodes[i], sha);
    }
  }

  // ---- The walk ----

  /** The index i wrapped around a ring of n nodes. */
  function Around(i: nat, n: nat): (k: nat)
    requires n > 0
    ensures k < n
  {
    i % n
  }

  /** The first t nodes met going clockwise, around the ring as often as needed. */
  function Clockwise(nodes: seq<Node>, start: nat, t: nat): (walk: seq<Node>)
    requires t > 0 ==> nodes != []
    ensures |walk| == t
  {
    seq(t, i requires 0 <= i < t => nodes[Around(start + i, |nodes|)])
  }

  predicate HasServer(nodes: seq<Node>, address: Address) {
    exists i :: 0 <= i < |nodes| && nodes[i].address == address
  }

  /** The nodes of a walk whose server was not met before. */
  function Fresh(walk: seq<Node>): (f: seq<Node>)
    ensures |f| <= |walk|
  {
    if walk == [] then []
    else
      var before, node := Fresh(walk[..|walk| - 1]), walk[|walk| - 1];
      if HasServer(before, node.address) then before else before + [node]
  }

  ghost predicate PairwiseDistinct(nodes: seq<Node>) {
    forall i, j :: 0 <= i < j < |nodes| ==> nodes[i].address != nodes[j].address
  }

  lemma ServersAppend(nodes: seq<Node>, node: Node)
    ensures Servers(nodes + [node]) == Servers(nodes) + {node.address}
    ensures HasServer(nodes, node.address) <==> node.address in Servers(nodes)
  {
    assert forall i :: 0 <= i < |nodes| ==> (nodes + [node])[i] == nodes[i];
    assert (nodes + [node])[|nodes|] == node;
  }

  lemma FreshStep(front: seq<Node>, node: Node)
    ensures Fresh(front + [node]) ==
            if HasServer(Fresh(front), node.address) then Fresh(front) else Fresh(front) + [node]
  {
    assert (front + [node])[..|front|] == front;
  }

  lemma DistinctAppend(nodes: seq<Node>, node: Node)
    requires PairwiseDistinct(nodes) && !HasServer(nodes, node.address)
    ensures PairwiseDistinct(nodes + [node])
  {
  }

  lemma NoneMet()
    ensures Fresh([]) == [] && PairwiseDistinct([]) && Servers([]) == {}
  {
  }

  lemma {:induction false} FreshServers(walk: seq<Node>)
    ensures PairwiseDistinct(Fresh(walk)) && Servers(Fresh(walk)) == Servers(walk)
    ensures |Fresh(walk)| == |Servers(walk)|
  {
    hide *;
    if walk == [] {
      NoneMet();
    } else {
      var front, node := walk[..|walk| - 1], walk[|walk| - 1];
      FreshServers(front);
      assert walk == front + [node];
      FreshStep(front, node);
      ServersAppend(front, node);
      ServersAppend(Fresh(front), node);
      if !HasServer(Fresh(front), node.address) { DistinctAppend(Fresh(front), node); }
    }
  }

  lemma {:induction false} FreshPrefix(walk: seq<Node>, t: nat)
    requires t <= |walk|
    ensures Fresh(walk[..t]) <= Fresh(walk)
  {
    if t < |walk| {
      FreshPrefix(walk[..|walk| - 1], t);
      assert walk[..|walk| - 1][..t] == walk[..t];
    } else {
      assert walk[..t] == walk;
    }
  }

  /** Position t of a walk is the first meeting with its server. */
  ghost predicate FirstMeeting(walk: seq<Node>, t: nat) {
    t < |walk| && forall u :: 0 <= u < t ==> walk[u].address != walk[t].address
  }

  /** The kept nodes are those at increasing positions which are exactly the first meetings. */
  ghost predicate KeptAt(at: seq<nat>, walk: seq<Node>, kept: seq<Node>) {
    && |at| == |kept|
    && (forall i, j :: 0 <= i < j < |at| ==> at[i] < at[j])
    && (forall i :: 0 <= i < |at| ==> FirstMeeting(walk, at[i]) && kept[i] == walk[at[i]])
    && (forall t: nat :: FirstMeeting(walk, t) ==> t in at)
  }

  /** The first meetings of a walk, in its order, are what is kept. */
  lemma {:induction false} FreshAreFirstMeetings(walk: seq<Node>) returns (at: seq<nat>)
    ensures KeptAt(at, walk, Fresh(walk))
  {
    at := [];
    if walk != [] {
      hide KeptAt;
      var front, node := walk[..|walk| - 1], walk[|walk| - 1];
      at := FreshAreFirstMeetings(front);
      assert walk == front + [node];
      FreshServers(front);
      ServersAppend(Fresh(front), node);
      at := KeepNext(at, front, Fresh(front), node);
    }
  }

  lemma KeepNext(at: seq<nat>, front: seq<Node>, kept: seq<Node>, node: Node) returns (at': seq<nat>)
    requires KeptAt(at, front, kept) && Servers(kept) == Servers(front)
    ensures KeptAt(at', front + [node], if node.address in Servers(kept) then kept else kept + [node])
  {
    hide FirstMeeting, Servers, KeptAt;
    if node.address in Servers(front) {
      at' := at;
      KeepOld(at, front, kept, node);
    } else {
      at' := at + [|front|];
      KeepNew(at, front, kept, node);
    }
  }

  lemma KeepOld(at: seq<nat>, front: seq<Node>, kept: seq<Node>, node: Node)
    requires KeptAt(at, front, kept) && node.address in Servers(front)
    ensures KeptAt(at, front + [node], kept)
  {
    hide FirstMeeting, Servers;
    FirstMeetingAppend(front, node);
    assert forall i :: 0 <= i < |front| ==> (front + [node])[i] == front[i];
  }

  lemma KeepNew(at: seq<nat>, front: seq<Node>, kept: seq<Node>, node: Node)
    requires KeptAt(at, front, kept) && node.address !in Servers(front)
    ensures KeptAt(at + [|front|], front + [node], kept + [node])
  {
    hide FirstMeeting, Servers;
    FirstMeetingAppend(front, node);
    var at', walk := at + [|front|], front + [node];
    assert at'[|at|] == |front|;
    forall t: nat | FirstMeeting(walk, t) ensures t in at' {
      assert t in at || t == at'[|at|];
    }
  }

  lemma FirstMeetingAppend(front: seq<Node>, node: Node)
    ensures forall t: nat :: FirstMeeting(front, t) ==> t < |front|
    ensures forall t: nat :: FirstMeeting(front + [node], t) ==> t <= |front|
    ensures forall t: nat :: t < |front| ==> (FirstMeeting(front, t) <==> FirstMeeting(front + [node], t))
    ensures FirstMeeting(front + [node], |front|) <==> node.address !in Servers(front)
  {
    var walk := front + [node];
    assert forall i :: 0 <= i < |front| ==> walk[i] == front[i];
  }

  lemma ClockwisePrefix(nodes: seq<Node>, start: nat, t: nat, u: nat)
    requires nodes != [] && t <= u
    ensures Clockwise(nodes, start, u)[..t] == Clockwise(nodes, start, t)
  {
  }

  /** The ring cut at the start. */
  function Turned(nodes: seq<Node>, start: nat): seq<Node>
    requires start <= |nodes|
  {
    nodes[start..] + nodes[..start]
  }

  /** One revolution is the ring cut at the start. */
  lemma OneRevolution(nodes: seq<Node>, start: nat)
    requires start < |nodes|
    ensures Clockwise(nodes, start, |nodes|) == Turned(nodes, start)
  {
    var walk, turned := Clockwise(nodes, start, |nodes|), Turned(nodes, start);
    forall i | 0 <= i < |nodes| ensures walk[i] == turned[i] {
      WrapOnce(start + i, |nodes|);
    }
  }

  lemma TurnedServers(nodes: seq<Node>, start: nat)
    requires start <= |nodes|
    ensures Servers(Turned(nodes, start)) == Servers(nodes)
  {
    ServersOfParts(nodes[start..], nodes[..start]);
    ServersOfParts(nodes[..start], nodes[start..]);
    assert nodes == nodes[..start] + nodes[start..];
  }

  lemma WrapOnce(i: nat, n: nat)
    requires i < 2 * n
    ensures Around(i, n) == if i < n then i else i - n
  {
  }

  lemma {:induction false} ServersOfParts(a: seq<Node>, b: seq<Node>)
    ensures Servers(a + b) == Servers(a) + Servers(b)
  {
    if b == [] {
      ConcatEmpty(a);
    } else {
      var last := |b| - 1;
      ServersOfParts(a, b[..last]);
      ServersAppend(a + b[..last], b[last]);
      ServersAppend(b[..last], b[last]);
      assert b[..last] + [b[last]] == b && a + b[..last] + [b[last]] == a + b;
    }
  }

  /** A walk meets no server the ring does not have. */
  lemma WalkStaysOnRing(nodes: seq<Node>, start: nat, t: nat)
    requires nodes != []
    ensures Servers(Clockwise(nodes, start, t)) <= Servers(nodes)
  {
    var walk := Clockwise(nodes, start, t);
    forall i | 0 <= i < t ensures walk[i].address in Servers(nodes) {
      assert walk[i] == nodes[Around(start + i, |nodes|)];
    }
  }

  /** The nodes a key is mapped to. */
  function Lookup(nodes: seq<Node>, wanted: nat, sha: Digest): (r: seq<Node>) {
    var all := Fresh(Turned(nodes, Start(nodes, sha)));
    if wanted <= |all| then all[..wanted] else all
  }

  /** The walk finds enough servers if the ring has them, then within one revolution; else it
      never does, however long it goes on. */
  lemma WalkEnds(nodes: seq<Node>, start: nat, wanted: nat)
    requires start < |nodes|
    ensures wanted <= |Servers(nodes)| ==> |Fresh(Clockwise(nodes, start, |nodes|))| >= wanted
    ensures (exists t: nat :: |Fresh(Clockwise(nodes, start, t))| >= wanted) <==> wanted <= |Servers(nodes)|
  {
    hide Fresh, Clockwise, Turned;
    OneRevolution(nodes, start);
    TurnedServers(nodes, start);
    FreshServers(Clockwise(nodes, start, |nodes|));
    forall t: nat ensures |Fresh(Clockwise(nodes, start, t))| <= |Servers(nodes)| {
      WalkStaysOnRing(nodes, start, t);
      FreshServers(Clockwise(nodes, start, t));
      SubsetSize(Servers(Clockwise(nodes, start, t)), Servers(nodes));
    }
  }

  lemma {:induction false} SubsetSize<T>(a: set<T>, b: set<T>)
    requires a <= b
    ensures |a| <= |b|
  {
    if a != {} {
      var x :| x in a;
      SubsetSize(a - {x}, b - {x});
    }
  }

  /** A lookup yields exactly the wanted number of nodes of different servers of the ring, and
      asking for more only appends. */
  lemma LookupDistinct(nodes: seq<Node>, wanted: nat, sha: Digest)
    requires wanted <= |Servers(nodes)|
    ensures var r := Lookup(nodes, wanted, sha);
            |r| == wanted == |Servers(r)| && PairwiseDistinct(r) && Servers(r) <= Servers(nodes)
    ensures forall more: nat :: wanted <= more ==> Lookup(nodes, wanted, sha) <= Lookup(nodes, more, sha)
  {
    hide Fresh, Turned;
    var walk := Turned(nodes, Start(nodes, sha));
    TurnedServers(nodes, Start(nodes, sha));
    FreshServers(walk);
    var r := Lookup(nodes, wanted, sha);
    DistinctCount(r);
    forall a | a in Servers(r) ensures a in Servers(Fresh(walk)) {
      var i :| 0 <= i < |r| && r[i].address == a;
      assert Fresh(walk)[i] == r[i];
    }
  }

  // ---- The lookup, in terms of the ring alone ----

  /** The node t steps clockwise from `start`. */
  function Ahead(nodes: seq<Node>, start: nat, t: nat): Node
    requires nodes != []
  {
    nodes[(start + t) % |nodes|]
  }

  /** Going clockwise from `start`, the server at offset t was not met before. */
  ghost predicate MetFirst(nodes: seq<Node>, start: nat, t: nat)
    requires nodes != []
  {
    forall u: nat :: u < t ==> Ahead(nodes, start, u).address != Ahead(nodes, start, t).address
  }

  /** The nodes r are those at the increasing offsets `at` from `start`, each the first meeting
      with its server, and no first meeting up to the last of them is missing. */
  ghost predicate FirstMeetings(nodes: seq<Node>, start: nat, at: seq<nat>, r: seq<Node>)
    requires nodes != []
  {
    && |at| == |r|
    && (forall i, j :: 0 <= i < j < |at| ==> at[i] < at[j])
    && (forall i :: 0 <= i < |at| ==>
          at[i] < |nodes| && r[i] == Ahead(nodes, start, at[i]) && MetFirst(nodes, start, at[i]))
    && (forall t: nat, i :: 0 <= i < |at| && t <= at[i] && MetFirst(nodes, start, t) ==> t in at)
  }

  /** The first `wanted` different servers met clockwise from the first node whose digest is not
      less than the key's, each with the node at which it is met. */
  ghost predicate NearestServers(nodes: seq<Node>, sha: Digest, wanted: nat, r: seq<Node>) {
    && |r| == wanted
    && (wanted > 0 ==>
          && nodes != []
          && exists start: nat, at :: FirstNotLess(nodes, sha, start) && FirstMeetings(nodes, start, at, r))
  }

  /** What a lookup yields, said without the walk. */
  lemma LookupMeaning(nodes: seq<Node>, wanted: nat, sha: Digest)
    requires wanted <= |Servers(nodes)|
    ensures NearestServers(nodes, sha, wanted, Lookup(nodes, wanted, sha))
  {
    hide *;
    LookupDistinct(nodes, wanted, sha);
    var r := Lookup(nodes, wanted, sha);
    SomeNode(nodes);
    if wanted == 0 {
      NoneWanted(nodes, sha, r);
    } else {
      var start := Start(nodes, sha);
      StartMeaning(nodes, sha);
      StartInside(nodes, sha);
      var walk := Clockwise(nodes, start, |nodes|);
      OneRevolution(nodes, start);
      var at := FreshAreFirstMeetings(walk);
      LookupOfWalk(nodes, wanted, sha);
      KeptShape(at, walk, Fresh(walk));
      KeptOnRing(nodes, start, at, Fresh(walk), wanted);
      NearestFrom(nodes, sha, wanted, r, start, at[..wanted]);
    }
  }

  lemma SomeNode(nodes: seq<Node>)
    ensures |Servers(nodes)| > 0 ==> nodes != []
  {
  }

  lemma StartInside(nodes: seq<Node>, sha: Digest)
    ensures nodes != [] ==> Start(nodes, sha) < |nodes|
  {
  }

  lemma NoneWanted(nodes: seq<Node>, sha: Digest, r: seq<Node>)
    requires r == []
    ensures NearestServers(nodes, sha, 0, r)
  {
  }

  lemma NearestFrom(nodes: seq<Node>, sha: Digest, wanted: nat, r: seq<Node>, start: nat, at: seq<nat>)
    requires nodes != [] && |r| == wanted && FirstNotLess(nodes, sha, start) && FirstMeetings(nodes, start, at, r)
    ensures NearestServers(nodes, sha, wanted, r)
  {
    hide FirstNotLess, FirstMeetings;
  }

  lemma LookupOfWalk(nodes: seq<Node>, wanted: nat, sha: Digest)
    requires nodes != [] && |Lookup(nodes, wanted, sha)| == wanted
    ensures var walk := Turned(nodes, Start(nodes, sha));
            wanted <= |Fresh(walk)| && Lookup(nodes, wanted, sha) == Fresh(walk)[..wanted]
  {
    hide Fresh, Turned, Start;
  }

  lemma KeptShape(at: seq<nat>, walk: seq<Node>, kept: seq<Node>)
    requires KeptAt(at, walk, kept)
    ensures |at| == |kept|
  {
  }

  lemma MetOnRing(nodes: seq<Node>, start: nat, t: nat)
    requires nodes != [] && t < |nodes|
    ensures FirstMeeting(Clockwise(nodes, start, |nodes|), t) <==> MetFirst(nodes, start, t)
  {
    hide Ahead;
    forall u: nat | u < |nodes| ensures Clockwise(nodes, start, |nodes|)[u] == Ahead(nodes, start, u) {
      ClockwiseAt(nodes, start, u);
    }
    hide Clockwise;
  }

  lemma ClockwiseAt(nodes: seq<Node>, start: nat, u: nat)
    requires u < |nodes|
    ensures Clockwise(nodes, start, |nodes|)[u] == Ahead(nodes, start, u)
  {
    assert Clockwise(nodes, start, |nodes|)[u] == nodes[Around(start + u, |nodes|)];
  }

  lemma KeptOnRing(nodes: seq<Node>, start: nat, at: seq<nat>, kept: seq<Node>, wanted: nat)
    requires nodes != [] && KeptAt(at, Clockwise(nodes, start, |nodes|), kept) && wanted <= |kept| == |at|
    ensures FirstMeetings(nodes, start, at[..wanted], kept[..wanted])
  {
    hide FirstMeeting, MetFirst, Ahead, Clockwise;
    var walk := Clockwise(nodes, start, |nodes|);
    FirstInside(walk);
    forall i | 0 <= i < |at|
      ensures at[i] < |nodes| && kept[i] == Ahead(nodes, start, at[i]) && MetFirst(nodes, start, at[i])
    {
      MetOnRing(nodes, start, at[i]);
      ClockwiseAt(nodes, start, at[i]);
    }
    forall t: nat, i | 0 <= i < wanted && t <= at[i] && MetFirst(nodes, start, t) ensures t in at[..wanted] {
      MetOnRing(nodes, start, t);
      KeptBefore(at, wanted, t, i);
    }
  }

  /** In an increasing sequence what is not above an element of the front is in the front. */
  lemma KeptBefore(at: seq<nat>, wanted: nat, t: nat, i: nat)
    requires i < wanted <= |at| && t in at && t <= at[i]
    requires forall a, b :: 0 <= a < b < |at| ==> at[a] < at[b]
    ensures t in at[..wanted]
  {
    var j :| 0 <= j < |at| && at[j] == t;
    assert at[..wanted][j] == t;
  }

  lemma FirstInside(walk: seq<Node>)
    ensures forall t: nat :: FirstMeeting(walk, t) ==> t < |walk|
  {
  }

  lemma {:induction false} DistinctCount(nodes: seq<Node>)
    requires PairwiseDistinct(nodes)
    ensures |Servers(nodes)| == |nodes|
  {
    if nodes != [] {
      hide Servers;
      var last := |nodes| - 1;
      NotAmong(nodes);
      DistinctCount(nodes[..last]);
      ServersAppend(nodes[..last], nodes[last]);
      assert nodes[..last] + [nodes[last]] == nodes;
    }
  }

  lemma NotAmong(nodes: seq<Node>)
    requires PairwiseDistinct(nodes) && nodes != []
    ensures nodes[|nodes| - 1].address !in Servers(nodes[..|nodes| - 1])
    ensures PairwiseDistinct(nodes[..|nodes| - 1])
  {
  }

  // ---- A server leaves ----

  /** The ring without the virtual nodes of one server. */
  function Without(nodes: seq<Node>, gone: Address): seq<Node> {
    if nodes == [] then []
    else
      var before, node := Without(nodes[..|nodes| - 1], gone), nodes[|nodes| - 1];
      if node.address == gone then before else before + [node]
  }

  lemma {:induction false} WithoutAppend(a: seq<Node>, b: seq<Node>, gone: Address)
    ensures Without(a + b, gone) == Without(a, gone) + Without(b, gone)
  {
    if b == [] {
      ConcatEmpty(a);
      ConcatEmpty(Without(a, gone));
    } else {
      var last := |b| - 1;
      WithoutAppend(a, b[..last], gone);
      assert (a + b)[..|a + b| - 1] == a + b[..last];
    }
  }

  lemma {:induction false} WithoutMembers(nodes: seq<Node>, gone: Address)
    ensures forall n :: n in Without(nodes, gone) <==> n in nodes && n.address != gone
  {
    if nodes != [] {
      var last := |nodes| - 1;
      WithoutMembers(nodes[..last], gone);
      assert nodes == nodes[..last] + [nodes[last]];
    }
  }

  lemma {:induction false} WithoutSorted(nodes: seq<Node>, gone: Address)
    requires Sorted(nodes)
    ensures Sorted(Without(nodes, gone))
  {
    if nodes != [] {
      var last := |nodes| - 1;
      var before := Without(nodes[..last], gone);
      WithoutSorted(nodes[..last], gone);
      WithoutMembers(nodes[..last], gone);
      forall i | 0 <= i < |before| ensures NodeCmpSha(before[i], nodes[last]) <= 0 {
        assert before[i] in nodes[..last];
      }
    }
  }

  lemma WithoutStep(front: seq<Node>, node: Node, gone: Address)
    ensures Without(front + [node], gone) ==
            if node.address == gone then Without(front, gone) else Without(front, gone) + [node]
  {
    assert (front + [node])[..|front|] == front;
  }

  lemma HasServerWithout(nodes: seq<Node>, gone: Address, address: Address)
    requires address != gone
    ensures HasServer(Without(nodes, gone), address) <==> HasServer(nodes, address)
  {
    hide HasServer, Without;
    WithoutMembers(nodes, gone);
    HasServerMembers(nodes, address);
    HasServerMembers(Without(nodes, gone), address);
  }

  lemma NothingFresh(gone: Address)
    ensures Fresh([]) == [] && Without([], gone) == []
  {
  }

  /** Skipping repeated servers and dropping one server commute. */
  lemma {:induction false} FreshWithout(walk: seq<Node>, gone: Address)
    ensures Fresh(Without(walk, gone)) == Without(Fresh(walk), gone)
  {
    hide *;
    if walk == [] {
      NothingFresh(gone);
    } else {
      var front, node := walk[..|walk| - 1], walk[|walk| - 1];
      assert walk == front + [node];
      FreshWithout(front, gone);
      FreshStep(front, node);
      WithoutStep(front, node, gone);
      WithoutStep(Fresh(front), node, gone);
      if node.address != gone {
        HasServerWithout(Fresh(front), gone, node.address);
        FreshStep(Without(front, gone), node);
      }
    }
  }

  lemma HasServerMembers(nodes: seq<Node>, address: Address)
    ensures HasServer(nodes, address) <==> exists n :: n in nodes && n.address == address
  {
    if HasServer(nodes, address) {
      var i :| 0 <= i < |nodes| && nodes[i].address == address;
      assert nodes[i] in nodes;
    }
  }

  /** One revolution of the smaller ring is one revolution of the full ring without the
      server's nodes, wherever the walk starts. */
  lemma {:induction false} RevolutionWithout(nodes: seq<Node>, gone: Address, sha: Digest)
    requires Sorted(nodes)
    ensures var smaller := Without(nodes, gone);
            Turned(smaller, Start(smaller, sha)) == Without(Turned(nodes, Start(nodes, sha)), gone)
  {
    hide Start;
    var start := Start(nodes, sha);
    var low, high := nodes[..start], nodes[start..];
    assert nodes == low + high;
    StartWithout(nodes, gone, sha);
    WithoutAppend(low, high, gone);
    WithoutAppend(high, low, gone);
    var low', high' := Without(low, gone), Without(high, gone);
    ConcatDrop(low', high');
    ConcatEmpty(low');
    ConcatEmpty(high');
  }

  /** The walk on the smaller ring starts where the old one did, less the nodes dropped before
      that point, and wraps to 0 if nothing is left from that point on. */
  lemma StartWithout(nodes: seq<Node>, gone: Address, sha: Digest)
    requires Sorted(nodes)
    ensures var start := Start(nodes, sha);
            var low', high' := Without(nodes[..start], gone), Without(nodes[start..], gone);
            Start(Without(nodes, gone), sha) == if high' == [] then 0 else |low'|
  {
    hide Start, Below, Without, Sorted;
    var start := Start(nodes, sha);
    var low, high := nodes[..start], nodes[start..];
    assert nodes == low + high;
    WithoutAppend(low, high, gone);
    WithoutMembers(low, gone);
    WithoutMembers(high, gone);
    SidesOfStart(nodes, sha);
    var low', high' := Without(low, gone), Without(high, gone);
    if start == 0 && forall n :: n in high ==> Below(n, sha) {
      NothingFresh(gone);
      StartOfBelow(high', sha);
      ConcatEmpty(high');
    } else {
      StartOfParts(low', high', sha);
    }
  }

  lemma SidesOfStart(nodes: seq<Node>, sha: Digest)
    requires Sorted(nodes)
    ensures var start := Start(nodes, sha);
            var low, high := nodes[..start], nodes[start..];
            && (forall n :: n in low ==> Below(n, sha))
            && ((forall n :: n in high ==> !Below(n, sha)) || (start == 0 && forall n :: n in high ==> Below(n, sha)))
  {
    hide Start, Below, Sorted;
    StartSplits(nodes, sha);
  }

  lemma StartOfBelow(nodes: seq<Node>, sha: Digest)
    requires forall n :: n in nodes ==> Below(n, sha)
    ensures Start(nodes, sha) == 0
  {
    StartIsStart(nodes, sha);
  }

  lemma StartOfParts(low: seq<Node>, high: seq<Node>, sha: Digest)
    requires forall n :: n in low ==> Below(n, sha)
    requires forall n :: n in high ==> !Below(n, sha)
    ensures Start(low + high, sha) == if high == [] then 0 else |low|
  {
    hide Below;
    var nodes := low + high;
    assert forall i :: 0 <= i < |low| ==> nodes[i] in low;
    if high == [] {
      ConcatEmpty(low);
      StartUnique(nodes, sha, 0);
    } else {
      assert nodes[|low|] == high[0] && high[0] in high;
      StartUnique(nodes, sha, |low|);
    }
  }

  lemma {:induction false} WithoutDistinct(nodes: seq<Node>, gone: Address)
    requires PairwiseDistinct(nodes)
    ensures |Without(nodes, gone)| == if HasServer(nodes, gone) then |nodes| - 1 else |nodes|
    ensures !HasServer(nodes, gone) ==> Without(nodes, gone) == nodes
  {
    if nodes != [] {
      var last := |nodes| - 1;
      var front := nodes[..last];
      WithoutDistinct(front, gone);
      HasServerSplit(nodes, gone);
      hide HasServer;
      assert nodes == front + [nodes[last]];
    }
  }

  /** The last node has the server, or an earlier one; with different servers, not both. */
  lemma HasServerSplit(nodes: seq<Node>, address: Address)
    requires nodes != []
    ensures var last := |nodes| - 1;
            && (HasServer(nodes, address) <==> HasServer(nodes[..last], address) || nodes[last].address == address)
            && (PairwiseDistinct(nodes) && nodes[last].address == address ==> !HasServer(nodes[..last], address))
  {
    var last := |nodes| - 1;
    if HasServer(nodes[..last], address) {
      var i :| 0 <= i < last && nodes[..last][i].address == address;
      assert nodes[i].address == address;
    }
    if HasServer(nodes, address) && nodes[last].address != address {
      var i :| 0 <= i < |nodes| && nodes[i].address == address;
      assert nodes[..last][i].address == address;
    }
  }

  /** Minimal disruption: when a server leaves, a key keeps its nodes in their order, and the
      one that is missing is replaced by the next one of the old ring. */
  lemma {:induction false} MinimalDisruption(nodes: seq<Node>, gone: Address, wanted: nat, sha: Digest)
    requires Sorted(nodes) && wanted + 1 <= |Servers(nodes)|
    ensures var kept := Without(Lookup(nodes, wanted + 1, sha), gone);
            wanted <= |kept| && Lookup(Without(nodes, gone), wanted, sha) == kept[..wanted]
  {
    hide Turned, Fresh, Without;
    var walk := Turned(nodes, Start(nodes, sha));
    TurnedServers(nodes, Start(nodes, sha));
    FreshServers(walk);
    RevolutionWithout(nodes, gone, sha);
    FreshWithout(walk, gone);
    var f := Fresh(walk);
    var first, rest := f[..wanted + 1], f[wanted + 1..];
    assert f == first + rest;
    WithoutAppend(first, rest, gone);
    WithoutDistinct(first, gone);
  }

  /** Servers that stay keep every key they held. */
  lemma {:induction false} RemainingReplicasKept(nodes: seq<Node>, gone: Address, wanted: nat, sha: Digest)
    requires Sorted(nodes) && wanted + 1 <= |Servers(nodes)|
    ensures Servers(Lookup(nodes, wanted, sha)) - {gone} <= Servers(Lookup(Without(nodes, gone), wanted, sha))
    ensures gone !in Servers(Lookup(nodes, wanted, sha)) ==>
            Lookup(Without(nodes, gone), wanted, sha) == Lookup(nodes, wanted, sha)
  {
    hide Start, Without, Lookup;
    MinimalDisruption(nodes, gone, wanted, sha);
    LookupDistinct(nodes, wanted, sha);
    LookupDistinct(nodes, wanted + 1, sha);
    var now, next := Lookup(nodes, wanted, sha), Lookup(nodes, wanted + 1, sha);
    assert next == now + [next[wanted]];
    WithoutAppend(now, [next[wanted]], gone);
    WithoutDistinct(now, gone);
    ServersWithout(now, gone);
    var kept, front := Without(next, gone), Without(now, gone);
    ServersOfParts(front, kept[|front|..wanted]);
    assert kept[..wanted] == front + kept[|front|..wanted];
    assert HasServer(now, gone) <==> gone in Servers(now);
  }

  lemma {:induction false} ServersWithout(nodes: seq<Node>, gone: Address)
    ensures Servers(Without(nodes, gone)) == Servers(nodes) - {gone}
  {
    if nodes != [] {
      var last := |nodes| - 1;
      ServersWithout(nodes[..last], gone);
      ServersAppend(nodes[..last], nodes[last]);
      ServersAppend(Without(nodes[..last], gone), nodes[last]);
      assert nodes == nodes[..last] + [nodes[last]];
    }
  }
}
