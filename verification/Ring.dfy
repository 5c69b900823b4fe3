/** Building the ring and looking keys up in it: done/node_list.c and done/ring.c.

    `node_list_t` is an object whose node array is reallocated as it grows and sorted in place. */
module Ring {
  import opened CStrings
  import opened Nodes
  import opened RingTheory
  import opened HashTables

  /** One line of the server list: an address, a port and the number of virtual nodes. */
  datatype Entry = Entry(ip: CStr, port: nat, count: nat)

  ghost predicate Parsable(e: Entry, lib: Library) {
    e.port < 0x1_0000 && (e.count == 0 || lib.pton(e.ip).Some?)
  }

  ghost predicate AllParsable(entries: seq<Entry>, lib: Library) {
    forall e <- entries :: Parsable(e, lib)
  }

  /** The virtual nodes 1..n of one line. */
  function VirtualNodes(e: Entry, n: nat, lib: Library): (r: seq<Node>)
    requires Parsable(e, lib) && n <= e.count
    ensures |r| == n
  {
    if n == 0 then [] else VirtualNodes(e, n - 1, lib) + [NodeInit(e.ip, e.port, n, lib).value]
  }

  function AllNodes(entries: seq<Entry>, lib: Library): seq<Node>
    requires AllParsable(entries, lib)
  {
    if entries == [] then []
    else
      var last := entries[|entries| - 1];
      AllNodes(entries[..|entries| - 1], lib) + VirtualNodes(last, last.count, lib)
  }

  function TotalCount(entries: seq<Entry>): nat {
    if entries == [] then 0 else TotalCount(entries[..|entries| - 1]) + entries[|entries| - 1].count
  }

  lemma {:induction false} AllNodesCount(entries: seq<Entry>, lib: Library)
    requires AllParsable(entries, lib)
    ensures |AllNodes(entries, lib)| == TotalCount(entries)
  {
    if entries != [] { AllNodesCount(entries[..|entries| - 1], lib); }
  }

  // ---- Which nodes these are ----

  ghost predicate InRange(entries: seq<Entry>, e: int, id: int) {
    0 <= e < |entries| && 1 <= id <= entries[e].count
  }

  /** Virtual node `id` of line e stands behind the nodes of all lines before and its own lower
      numbers. */
  ghost predicate StandsAt(nodes: seq<Node>, entries: seq<Entry>, lib: Library, e: int, id: int)
    requires InRange(entries, e, id)
  {
    var k := TotalCount(entries[..e]) + id - 1;
    k < |nodes| && IsVirtualNode(nodes[k], entries[e].ip, entries[e].port, id, lib)
  }

  /** Line by line, the virtual nodes 1..count of every line and nothing else. */
  ghost predicate ListsVirtualNodes(nodes: seq<Node>, entries: seq<Entry>, lib: Library) {
    && |nodes| == TotalCount(entries)
    && forall e, id :: InRange(entries, e, id) ==> StandsAt(nodes, entries, lib, e, id)
  }

  lemma {:induction false} AllNodesMeaning(entries: seq<Entry>, lib: Library)
    requires AllParsable(entries, lib)
    ensures ListsVirtualNodes(AllNodes(entries, lib), entries, lib)
  {
    hide IsVirtualNode, NodeInit;
    AllNodesCount(entries, lib);
    if entries != [] {
      var last := |entries| - 1;
      var front, entry := entries[..last], entries[last];
      var before, more := AllNodes(front, lib), VirtualNodes(entry, entry.count, lib);
      AllNodesMeaning(front, lib);
      AllNodesCount(front, lib);
      forall e, id | InRange(entries, e, id) ensures StandsAt(before + more, entries, lib, e, id) {
        if e == last {
          VirtualNodeAt(entry, entry.count, lib, id);
        } else {
          assert InRange(front, e, id) && StandsAt(before, front, lib, e, id) && front[..e] == entries[..e];
        }
      }
    }
  }

  lemma {:induction false} VirtualNodeAt(e: Entry, n: nat, lib: Library, id: nat)
    requires Parsable(e, lib) && 1 <= id <= n <= e.count
    ensures IsVirtualNode(VirtualNodes(e, n, lib)[id - 1], e.ip, e.port, id, lib)
  {
    hide IsVirtualNode, NodeInit;
    if id < n {
      VirtualNodeAt(e, n - 1, lib, id);
    } else {
      NodeInitMeaning(e.ip, e.port, id, lib);
      assert VirtualNodes(e, n, lib)[id - 1] == NodeInit(e.ip, e.port, id, lib).value;
    }
  }

  /** Every position belongs to some line and number. */
  lemma {:induction false} LineOf(entries: seq<Entry>, k: nat) returns (e: nat, id: nat)
    requires k < TotalCount(entries)
    ensures InRange(entries, e, id) && k == TotalCount(entries[..e]) + id - 1
  {
    var last := |entries| - 1;
    var before := TotalCount(entries[..last]);
    if k < before {
      e, id := LineOf(entries[..last], k);
      assert entries[..last][..e] == entries[..e];
    } else {
      e, id := last, k - before + 1;
    }
  }

  /** A ring made of the lines: in digest order, and a permutation of their virtual nodes. */
  ghost predicate IsRingOf(ring: seq<Node>, entries: seq<Entry>, lib: Library) {
    && InDigestOrder(ring)
    && exists nodes :: ListsVirtualNodes(nodes, entries, lib) && multiset(nodes) == multiset(ring)
  }

  ghost predicate IsNodeOf(node: Node, entries: seq<Entry>, lib: Library, e: int, id: int) {
    InRange(entries, e, id) && IsVirtualNode(node, entries[e].ip, entries[e].port, id, lib)
  }

  /** Such a ring has the virtual nodes of its lines, every one and no others: reachable at the
      address and port of the line, and placed at the digest of their own text. */
  lemma RingHasVirtualNodes(ring: seq<Node>, entries: seq<Entry>, lib: Library)
    requires IsRingOf(ring, entries, lib)
    ensures |ring| == TotalCount(entries)
    ensures forall node <- ring :: exists e, id :: IsNodeOf(node, entries, lib, e, id)
    ensures forall e, id :: InRange(entries, e, id) ==>
              exists node :: node in ring && IsNodeOf(node, entries, lib, e, id)
  {
    hide IsVirtualNode, TotalCount, InDigestOrder;
    var nodes :| ListsVirtualNodes(nodes, entries, lib) && multiset(nodes) == multiset(ring);
    assert |multiset(nodes)| == |nodes| && |multiset(ring)| == |ring|;
    forall node | node in ring ensures exists e, id :: IsNodeOf(node, entries, lib, e, id) {
      assert node in multiset(nodes);
      var k :| 0 <= k < |nodes| && nodes[k] == node;
      var e, id := LineOf(entries, k);
      assert StandsAt(nodes, entries, lib, e, id);
      assert IsNodeOf(node, entries, lib, e, id);
    }
    forall e, id | InRange(entries, e, id)
      ensures exists node :: node in ring && IsNodeOf(node, entries, lib, e, id)
    {
      assert StandsAt(nodes, entries, lib, e, id);
      var node := nodes[TotalCount(entries[..e]) + id - 1];
      assert node in multiset(ring) && IsNodeOf(node, entries, lib, e, id);
    }
  }

  /** Outcomes of the allocations of one `node_list_add`: the larger array and the copy of the
      digest. */
  datatype AddAlloc = AddAlloc(larger: bool, digest: bool) {
    predicate Ok() { larger && digest }
  }

  class NodeList {
    var items: array<Node>
    var size: nat

    ghost predicate Valid()
      reads this
    {
      size <= items.Length
    }

    ghost function Nodes(): (nodes: seq<Node>)
      requires Valid()
      reads this, items
      ensures |nodes| == size
    {
      items[..size]
    }

    /** `node_list_new`. */
    constructor ()
      ensures Valid() && Nodes() == [] && fresh(items)
    {
      items := new Node[0];
      size := 0;
    }

    /** `node_list_add`: appends a copy of the node in a larger array, or fails and leaves the
        nodes as they were. */
    method Add(node: Node, mem: AddAlloc) returns (err: ErrorCode)
      requires Valid()
      modifies this
      ensures Valid() && (items == old(items) || fresh(items))
      ensures err == if mem.Ok() then ERR_NONE else ERR_NOMEM
      ensures Nodes() == if mem.Ok() then old(Nodes()) + [node] else old(Nodes())
    {
      if !mem.larger {
        return ERR_NOMEM;
      }
      var larger := Larger();
      items := larger;
      if !mem.digest {
        return ERR_NOMEM;
      }
      items[size] := node;
      assert items[..size + 1] == items[..size] + [node];
      size := size + 1;
      err := ERR_NONE;
    }

    /** `realloc` for one element more. */
    method Larger() returns (larger: array<Node>)
      requires Valid()
      ensures fresh(larger) && larger.Length == size + 1 && larger[..size] == Nodes()
    {
      larger := new Node[size + 1];
      for i := 0 to size
        invariant larger[..i] == items[..i]
      {
        larger[i] := items[i];
      }
    }

    /** `node_list_sort` by digest, in place. */
    method Sort()
      requires Valid()
      modifies items
      ensures Valid() && InDigestOrder(Nodes()) && multiset(Nodes()) == multiset(old(Nodes()))
    {
      hide StrNCmp, Sorted, InDigestOrder;
      NothingUnsorted();
      for i := 0 to size
        invariant multiset(Nodes()) == multiset(old(Nodes()))
        invariant Sorted(Nodes()[..i])
      {
        Insert(i);
      }
      assert Nodes()[..size] == Nodes();
      SortedMeaning(Nodes());
    }

    /** Moves node i down to its place among the sorted nodes before it. */
    method Insert(i: nat)
      requires Valid() && i < size && Sorted(Nodes()[..i])
      modifies items
      ensures multiset(Nodes()) == multiset(old(Nodes()))
      ensures Sorted(Nodes()[..i + 1])
    {
      hide StrNCmp, SortedBut, Sorted;
      var j := i;
      SortedFront(Nodes(), i);
      while j > 0 && NodeCmpSha(items[j - 1], items[j]) > 0
        invariant 0 <= j <= i
        invariant multiset(Nodes()) == multiset(old(Nodes()))
        invariant SortedBut(Nodes(), i, j)
      {
        ghost var nodes := Nodes();
        SwapDown(nodes, i, j);
        SwapKeeps(nodes, j - 1, j);
        items[j - 1], items[j] := items[j], items[j - 1];
        assert Nodes() == nodes[j - 1 := nodes[j]][j := nodes[j - 1]];
        j := j - 1;
      }
      PlacedSorted(Nodes(), i, j);
    }
  }

  lemma NothingUnsorted()
    ensures Sorted([])
  {
  }

  lemma SwapKeeps<T>(s: seq<T>, i: nat, j: nat)
    requires i < j < |s|
    ensures multiset(s[i := s[j]][j := s[i]]) == multiset(s)
  {
  }

  /** The first i + 1 nodes are sorted, except that node j may be too far up. */
  ghost predicate SortedBut(nodes: seq<Node>, i: nat, j: nat)
    requires i < |nodes|
  {
    forall a, b :: 0 <= a < b <= i && b != j ==> NodeCmpSha(nodes[a], nodes[b]) <= 0
  }

  lemma SortedFront(nodes: seq<Node>, i: nat)
    requires i < |nodes| && Sorted(nodes[..i])
    ensures SortedBut(nodes, i, i)
  {
    hide NodeCmpSha;
    assert forall a :: 0 <= a < i ==> nodes[a] == nodes[..i][a];
  }

  lemma SwapDown(nodes: seq<Node>, i: nat, j: nat)
    requires 0 < j <= i < |nodes| && SortedBut(nodes, i, j)
    requires NodeCmpSha(nodes[j - 1], nodes[j]) > 0
    ensures SortedBut(nodes[j - 1 := nodes[j]][j := nodes[j - 1]], i, j - 1)
  {
    hide StrNCmp;
    StrNCmpFlips(nodes[j - 1].sha, nodes[j].sha, SHA_DIGEST_LENGTH);
  }

  lemma PlacedSorted(nodes: seq<Node>, i: nat, j: nat)
    requires j <= i < |nodes| && SortedBut(nodes, i, j)
    requires j > 0 ==> NodeCmpSha(nodes[j - 1], nodes[j]) <= 0
    ensures Sorted(nodes[..i + 1])
  {
    hide StrNCmp;
    forall a | 0 <= a < j ensures NodeCmpSha(nodes[a], nodes[j]) <= 0 {
      if a < j - 1 {
        StrNCmpTransitive(nodes[a].sha, nodes[j - 1].sha, nodes[j].sha, SHA_DIGEST_LENGTH);
      }
    }
  }

  /** The list can be made and all its additions find memory. */
  ghost predicate Roomy(list: bool, mem: nat -> AddAlloc, count: nat) {
    list && forall n: nat :: n < count ==> mem(n).Ok()
  }

  /** The inner loop of `get_nodes`: adds the virtual nodes of one line. */
  method AddVirtualNodes(l: NodeList, entry: Entry, lib: Library, mem: nat -> AddAlloc) returns (ok: bool)
    requires l.Valid() && entry.port < 0x1_0000 && Roomy(true, mem, l.size)
    modifies l
    ensures l.Valid() && (l.items == old(l.items) || fresh(l.items))
    ensures ok <==> Parsable(entry, lib) && Roomy(true, mem, old(l.size) + entry.count)
    ensures ok ==> l.Nodes() == old(l.Nodes()) + VirtualNodes(entry, entry.count, lib)
  {
    hide *;
    NoVirtualNodes(entry, lib);
    ghost var before := l.Nodes();
    ConcatEmpty(before);
    for i := 1 to entry.count + 1
      invariant l.Valid() && (l.items == old(l.items) || fresh(l.items))
      invariant l.size == old(l.size) + i - 1 && Roomy(true, mem, l.size)
      invariant i > 1 ==> Parsable(entry, lib)
      invariant l.Nodes() == before + (if i > 1 then VirtualNodes(entry, i - 1, lib) else [])
    {
      var node := NodeInit(entry.ip, entry.port, i, lib);
      NodeParses(entry, i, lib);
      if node.None? {
        return false;
      }
      RoomyNext(true, mem, l.size, old(l.size) + entry.count);
      var err := l.Add(node.value, mem(l.size));
      if err != ERR_NONE {
        return false;
      }
    }
    ok := true;
  }

  /** `get_nodes`, from the parsed lines: null when some virtual node cannot be made or stored.
      `made` is whether the empty list can be allocated, and `mem` gives the allocations of
      each addition. */
  method GetNodes(entries: seq<Entry>, lib: Library, made: bool, mem: nat -> AddAlloc) returns (list: NodeList?)
    requires forall e <- entries :: e.port < 0x1_0000
    ensures list != null <==> AllParsable(entries, lib) && Roomy(made, mem, TotalCount(entries))
    ensures list != null ==> fresh(list) && fresh(list.items) && list.Valid()
                             && ListsVirtualNodes(list.Nodes(), entries, lib)
  {
    hide *;
    RoomyStarts(made, mem);
    if !made {
      NotMade(mem, TotalCount(entries));
      return null;
    }
    var l := new NodeList();
    NoEntries(lib);
    for e := 0 to |entries|
      invariant l.Valid() && fresh(l.items) && AllParsable(entries[..e], lib)
      invariant l.Nodes() == AllNodes(entries[..e], lib) && l.size == TotalCount(entries[..e])
      invariant Roomy(made, mem, l.size)
    {
      var entry := entries[e];
      assert entry in entries;
      NextEntry(entries, e, lib);
      CountUpTo(entries, e);
      RoomyLess(made, mem, l.size + entry.count, TotalCount(entries));
      var ok := AddVirtualNodes(l, entry, lib, mem);
      if !ok {
        OneUnparsable(entries, e, lib);
        return null;
      }
    }
    assert entries[..|entries|] == entries;
    AllNodesMeaning(entries, lib);
    list := l;
  }

  lemma RoomyStarts(made: bool, mem: nat -> AddAlloc)
    ensures Roomy(made, mem, 0) <==> made
  {
  }

  lemma NotMade(mem: nat -> AddAlloc, count: nat)
    ensures !Roomy(false, mem, count)
  {
  }

  lemma RoomyLess(made: bool, mem: nat -> AddAlloc, n: nat, count: nat)
    requires n <= count
    ensures Roomy(made, mem, count) ==> Roomy(made, mem, n)
  {
  }

  lemma RoomyNext(made: bool, mem: nat -> AddAlloc, n: nat, count: nat)
    requires n < count && Roomy(made, mem, n)
    ensures Roomy(made, mem, n + 1) <==> mem(n).Ok()
    ensures !mem(n).Ok() ==> !Roomy(made, mem, count)
  {
  }

  lemma OneUnparsable(entries: seq<Entry>, e: nat, lib: Library)
    requires e < |entries|
    ensures !Parsable(entries[e], lib) ==> !AllParsable(entries, lib)
  {
    assert entries[e] in entries;
  }

  lemma NoVirtualNodes(e: Entry, lib: Library)
    requires e.port < 0x1_0000
    ensures e.count == 0 ==> Parsable(e, lib) && VirtualNodes(e, 0, lib) == []
  {
  }

  lemma NoEntries(lib: Library)
    ensures AllParsable([], lib) && AllNodes([], lib) == [] && TotalCount([]) == 0
  {
  }

  /** One line more. */
  lemma NextEntry(entries: seq<Entry>, e: nat, lib: Library)
    requires e < |entries|
    ensures TotalCount(entries[..e + 1]) == TotalCount(entries[..e]) + entries[e].count
    ensures AllParsable(entries[..e + 1], lib) <==> AllParsable(entries[..e], lib) && Parsable(entries[e], lib)
    ensures AllParsable(entries[..e + 1], lib) ==>
            AllNodes(entries[..e + 1], lib) ==
            AllNodes(entries[..e], lib) + VirtualNodes(entries[e], entries[e].count, lib)
  {
    hide Parsable;
    var more := entries[..e + 1];
    assert more == entries[..e] + [entries[e]] && more[..e] == entries[..e];
  }

  /** A virtual node can be made exactly when its line is parsable, and then extends those
      before it. */
  lemma NodeParses(e: Entry, i: nat, lib: Library)
    requires e.port < 0x1_0000 && 1 <= i <= e.count
    ensures NodeInit(e.ip, e.port, i, lib).Some? <==> Parsable(e, lib)
    ensures Parsable(e, lib) ==>
            VirtualNodes(e, i, lib) ==
            (if i > 1 then VirtualNodes(e, i - 1, lib) else []) + [NodeInit(e.ip, e.port, i, lib).value]
  {
  }

  lemma {:induction false} CountUpTo(entries: seq<Entry>, e: nat)
    requires e < |entries|
    ensures TotalCount(entries[..e]) + entries[e].count <= TotalCount(entries)
  {
    var last := |entries| - 1;
    if e < last {
      CountUpTo(entries[..last], e);
      assert entries[..last][..e] == entries[..e];
    }
  }

  /** `ring_init`. */
  method RingInit(ring: NodeList, entries: seq<Entry>, lib: Library, made: bool, mem: nat -> AddAlloc)
    returns (err: ErrorCode)
    requires ring.Valid() && forall e <- entries :: e.port < 0x1_0000
    modifies ring
    ensures ring.Valid()
    ensures err == if AllParsable(entries, lib) && Roomy(made, mem, TotalCount(entries))
                   then ERR_NONE else ERR_NOMEM
    ensures err == ERR_NONE ==> IsRingOf(ring.Nodes(), entries, lib)
    ensures err != ERR_NONE ==> ring.Nodes() == old(ring.Nodes())
  {
    hide AllNodes, TotalCount, Roomy, ListsVirtualNodes, InDigestOrder;
    var list := GetNodes(entries, lib, made, mem);
    if list == null {
      return ERR_NOMEM;
    }
    list.Sort();
    ring.items, ring.size := list.items, list.size;
    err := ERR_NONE;
  }

  /** `index_of_first_node`. */
  method IndexOfFirstNode(ring: NodeList, sha: Digest) returns (index: nat)
    requires ring.Valid()
    ensures FirstNotLess(ring.Nodes(), sha, index)
    ensures index == Start(ring.Nodes(), sha)
  {
    hide StrNCmp, FirstNotLess, Start;
    StartMeaning(ring.Nodes(), sha);
    for i := 0 to ring.size
      invariant forall j :: 0 <= j < i ==> Below(ring.Nodes()[j], sha)
    {
      if StrNCmp(ring.items[i].sha, sha, SHA_DIGEST_LENGTH) >= 0 {
        StartUnique(ring.Nodes(), sha, i);
        return i;
      }
    }
    StartUnique(ring.Nodes(), sha, 0);
    index := 0;
  }

  /** `already_present_in_list`. */
  method AlreadyPresentInList(list: NodeList, node: Node) returns (present: bool)
    requires list.Valid()
    ensures present == HasServer(list.Nodes(), node.address)
  {
    for i := 0 to list.size
      invariant forall j :: 0 <= j < i ==> list.Nodes()[j].address != node.address
    {
      SameServer(list.items[i], node);
      if NodeCmpServerAddr(list.items[i], node) == 0 {
        assert list.Nodes()[i].address == node.address;
        return true;
      }
    }
    present := false;
  }

  /** `ring_get_nodes_for_key`. It ends because the ring has enough servers: `WalkEnds` shows
      that otherwise the loop condition stays true for ever. `made` is whether the empty list
      can be allocated. */
  method RingGetNodesForKey(ring: NodeList, wanted: nat, key: CStr, lib: Library, made: bool)
    returns (list: NodeList?)
    requires ring.Valid() && wanted <= |Servers(ring.Nodes())|
    ensures list != null <==> made
    ensures list != null ==> fresh(list) && list.Valid() && list.Nodes() == Lookup(ring.Nodes(), wanted, lib.sha1(key))
    ensures list != null ==> NearestServers(ring.Nodes(), lib.sha1(key), wanted, list.Nodes())
  {
    hide *;
    var index := IndexOfFirstNode(ring, lib.sha1(key));
    if !made {
      return null;
    }
    ghost var nodes, start, t := ring.Nodes(), index, 0;
    var l := new NodeList();
    WalkBegins(nodes, start);
    while l.size < wanted
      invariant ring.Valid() && l.Valid() && fresh(l) && fresh(l.items)
      invariant t <= |nodes| && ring.Nodes() == nodes
      invariant nodes != [] ==> index == Around(start + t, |nodes|)
      invariant t > 0 ==> nodes != []
      invariant l.Nodes() == Fresh(Clockwise(nodes, start, t)) && l.size <= wanted
      decreases |nodes| - t
    {
      WalkGoesOn(nodes, t, wanted, lib.sha1(key));
      NodeAt(ring, index);
      var node := ring.items[index];
      var present := AlreadyPresentInList(l, node);
      if !present {
        var err := l.Add(node, AddAlloc(true, true));
        AlwaysOk();
      }
      index := Around(index + 1, ring.size);
      t := t + 1;
    }
    WalkIsLookup(nodes, t, wanted, lib.sha1(key));
    LookupMeaning(nodes, wanted, lib.sha1(key));
    list := l;
  }

  lemma NodeAt(ring: NodeList, i: nat)
    requires ring.Valid() && i < ring.size
    ensures i < ring.items.Length && ring.items[i] == ring.Nodes()[i]
  {
  }

  lemma AlwaysOk()
    ensures AddAlloc(true, true).Ok()
  {
  }

  /** A walk that still needs servers has not gone around, and meets one more node. */
  lemma WalkGoesOn(nodes: seq<Node>, t: nat, wanted: nat, sha: Digest)
    requires t <= |nodes| && (t > 0 ==> nodes != []) && wanted <= |Servers(nodes)|
    requires |Fresh(Clockwise(nodes, Start(nodes, sha), t))| < wanted
    ensures t < |nodes|
    ensures var start := Start(nodes, sha);
            var node := nodes[Around(start + t, |nodes|)];
            var before := Fresh(Clockwise(nodes, start, t));
            && Fresh(Clockwise(nodes, start, t + 1)) ==
               (if HasServer(before, node.address) then before else before + [node])
            && Around(Around(start + t, |nodes|) + 1, |nodes|) == Around(start + t + 1, |nodes|)
  {
    hide *;
    NoServers(nodes);
    StartOnRing(nodes, sha);
    WalkEnds(nodes, Start(nodes, sha), wanted);
    WalkStep(nodes, Start(nodes, sha), t);
  }

  /** The walk starts on the ring, where nothing has been met yet. */
  lemma WalkBegins(nodes: seq<Node>, start: nat)
    ensures Fresh(Clockwise(nodes, start, 0)) == []
    ensures nodes != [] && start < |nodes| ==> start == Around(start + 0, |nodes|)
  {
    if nodes != [] && start < |nodes| { WrapOnce(start, |nodes|); }
  }

  lemma NoServers(nodes: seq<Node>)
    ensures nodes == [] ==> |Servers(nodes)| == 0
  {
  }

  lemma StartOnRing(nodes: seq<Node>, sha: Digest)
    ensures nodes != [] ==> Start(nodes, sha) < |nodes|
  {
  }

  /** One more step of the walk, and the index it leads to. */
  lemma WalkStep(nodes: seq<Node>, start: nat, t: nat)
    requires start < |nodes| && t < |nodes|
    ensures var node := nodes[Around(start + t, |nodes|)];
            var before := Fresh(Clockwise(nodes, start, t));
            Fresh(Clockwise(nodes, start, t + 1)) ==
            if HasServer(before, node.address) then before else before + [node]
    ensures Around(Around(start + t, |nodes|) + 1, |nodes|) == Around(start + t + 1, |nodes|)
  {
    hide *;
    ClockwiseStep(nodes, start, t);
    FreshStep(Clockwise(nodes, start, t), nodes[Around(start + t, |nodes|)]);
    NextIndex(start + t, |nodes|);
  }

  lemma ClockwiseStep(nodes: seq<Node>, start: nat, t: nat)
    requires nodes != []
    ensures Clockwise(nodes, start, t + 1) == Clockwise(nodes, start, t) + [nodes[Around(start + t, |nodes|)]]
  {
    hide Around;
  }

  lemma NextIndex(i: nat, n: nat)
    requires i < 2 * n
    ensures Around(Around(i, n) + 1, n) == Around(i + 1, n)
  {
    var k := Around(i, n);
    if n == 1 { OneAround(k + 1); }
    if i + 1 == 2 * n { TwiceAround(n); }
    hide Around;
    WrapOnce(i, n);
    if n > 1 { WrapOnce(k + 1, n); }
    if i + 1 < 2 * n { WrapOnce(i + 1, n); }
  }

  lemma OneAround(k: nat)
    ensures Around(k, 1) == 0
  {
  }

  lemma TwiceAround(n: nat)
    requires n > 0
    ensures Around(2 * n, n) == 0
  {
  }

  /** A walk that has met exactly the wanted number of servers is the lookup. */
  lemma WalkIsLookup(nodes: seq<Node>, t: nat, wanted: nat, sha: Digest)
    requires t <= |nodes| && |Fresh(Clockwise(nodes, Start(nodes, sha), t))| == wanted
    ensures Lookup(nodes, wanted, sha) == Fresh(Clockwise(nodes, Start(nodes, sha), t))
  {
    hide Fresh, Clockwise, Start, Turned;
    var start := Start(nodes, sha);
    assert nodes == [] ==> start == 0;
    if nodes == [] {
      NothingToWalk();
    } else {
      OneRevolution(nodes, start);
      ClockwisePrefix(nodes, start, t, |nodes|);
      FreshPrefix(Clockwise(nodes, start, |nodes|), t);
    }
  }

  lemma NothingToWalk()
    ensures Turned([], 0) == [] && Clockwise([], 0, 0) == []
  {
  }
}
