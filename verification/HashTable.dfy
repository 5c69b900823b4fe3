/** The chained hash table of done/hashtable.c: an array of head buckets, each the start of a
    linked chain that ends in a blank bucket.

    Allocation can fail. Each method takes the outcome of every allocation it may attempt, so
    its contract covers every way the calls can turn out. */
module HashTables {
  import opened CStrings
  import opened TableSpec

  /** Whether the allocations of one addition succeed: the next blank bucket, the copied key
      and the copied value. */
  datatype Alloc = Alloc(bucket: bool, key: bool, value: bool)

  const ALL_OK := Alloc(true, true, true)

  class Bucket {
    var key: Option<CStr>
    var value: Option<CStr>
    var tail: Bucket?
    // The place of the bucket in the table, fixed when it is created.
    ghost const row: nat
    ghost const pos: nat

    constructor Blank(ghost row: nat, ghost pos: nat)
      ensures key == None && value == None && tail == null
      ensures this.row == row && this.pos == pos
    {
      key, value, tail := None, None, null;
      this.row, this.pos := row, pos;
    }
  }

  /** `hash_function` for a key that is not NULL and a size that is not 0. */
  method HashFunction(key: CStr, size: nat) returns (index: nat)
    requires size > 0
    ensures index == Index(key, size)
  {
    hide FinishHash, MixByte;
    var hash: bv64 := 0;
    var i := 0;
    while i < |key|
      invariant 0 <= i <= |key|
      invariant HashBytes(key, 0) == HashBytes(key[i..], hash)
    {
      assert key[i..][1..] == key[i + 1..];
      hash := MixByte(hash, key[i]);
      i := i + 1;
    }
    index := FinishHash(hash) % size;
  }

  /** The chain of one bucket: it holds the pairs of a row, in order, and then a blank. */
  ghost predicate Chain(nodes: seq<Bucket>, pairs: seq<Pair>, row: nat)
    reads nodes
  {
    && |nodes| == |pairs| + 1
    && (forall j :: 0 <= j < |nodes| ==> nodes[j].row == row && nodes[j].pos == j)
    && (forall j :: 0 <= j < |pairs| ==>
          && nodes[j].key == Some(pairs[j].key) && nodes[j].value == Some(pairs[j].value)
          && nodes[j].tail == nodes[j + 1])
    && nodes[|pairs|].key == None && nodes[|pairs|].value == None && nodes[|pairs|].tail == null
  }

  class HTable {
    var buckets: array?<Bucket>
    var size: nat

    ghost var M: map<CStr, CStr>
    ghost var rows: Rows
    ghost var chains: seq<seq<Bucket>>
    ghost var Repr: set<object>

    ghost predicate Valid()
      reads this, Repr
      ensures Valid() ==> this in Repr
    {
      && this in Repr && buckets != null && buckets in Repr
      && size == buckets.Length == |rows| == |chains|
      && (forall i, j :: 0 <= i < size && 0 <= j < |chains[i]| ==> chains[i][j] in Repr)
      && (forall i :: 0 <= i < size ==> Chain(chains[i], rows[i], i) && chains[i][0] == buckets[i])
      && Represents(rows, M)
    }

    /** A table of blank buckets. `ok` is whether the one allocation succeeds. */
    constructor Construct(size: nat, ok: bool)
      requires size != 0
      ensures ok ==> Valid() && fresh(Repr) && M == map[] && this.size == size
      ensures !ok ==> buckets == null && this.size == 0
    {
      this.size := if ok then size else 0;
      buckets := null;
      M, rows, chains, Repr := map[], seq(size, _ => []), [], {this};
      new;
      if ok {
        hide Represents;
        EmptyRows(size);
        var heads;
        heads, chains := BlankBuckets(size);
        buckets := heads;
        Repr := {this, heads} + set i | 0 <= i < size :: chains[i][0];
      }
    }

    /** Walks the chain of a key: to its bucket when it is stored, else to the blank end. */
    method Find(key: CStr) returns (bucket: Bucket, ghost i: nat, ghost j: nat)
      requires Valid()
      ensures size > 0 && i == Index(key, size) && i < size && i < |chains| && j < |chains[i]| && bucket == chains[i][j]
      ensures bucket in Repr && i < |rows|
      ensures key in M ==> j < |rows[i]| && rows[i][j] == Pair(key, M[key]) && bucket.key == Some(key)
      ensures key !in M ==> j == |rows[i]| && bucket.key == None
    {
      hide Index;
      KeyInRow(rows, M, key);
      i := Index(key, size);
      var index := HashFunction(key, size);
      bucket := buckets[index];
      j := 0;
      while bucket.key != None && bucket.key != Some(key)
        invariant j < |chains[i]| && bucket == chains[i][j]
        invariant forall a :: 0 <= a < j ==> rows[i][a].key != key
        decreases |chains[i]| - j
      {
        assert Chain(chains[i], rows[i], i) && j < |rows[i]| && bucket.tail == chains[i][j + 1];
        bucket := bucket.tail;
        j := j + 1;
      }
    }

    /** `get_Htable_value`. `dup` is whether the copy of the value can be allocated. */
    method Get(key: CStr, dup: bool) returns (r: Option<CStr>)
      requires buckets == null || Valid()
      ensures r == if buckets != null && key in M && dup then Some(M[key]) else None
    {
      if buckets == null {
        return None;
      }
      hide Index, Represents;
      var bucket, i, j := Find(key);
      r := if bucket.key == None || !dup then None else bucket.value;
    }

    /** `add_Htable_value`: stores the pair, or fails without any effect on the map. */
    method Add(key: CStr, value: CStr, mem: Alloc) returns (err: ErrorCode)
      requires buckets == null || Valid()
      modifies Repr
      ensures buckets == old(buckets)
      ensures buckets == null ==> err == ERR_BAD_PARAMETER
      ensures buckets != null ==>
        && Valid() && fresh(Repr - old(Repr)) && size == old(size)
        && err == (if (if key in old(M) then mem.value else mem == ALL_OK) then ERR_NONE else ERR_NOMEM)
        && M == if err == ERR_NONE then old(M)[key := value] else old(M)
    {
      if buckets == null {
        return ERR_BAD_PARAMETER;
      }
      err := Store(key, value, mem);
    }

    method Store(key: CStr, value: CStr, mem: Alloc) returns (err: ErrorCode)
      requires Valid()
      modifies Repr
      ensures Valid() && buckets == old(buckets) && fresh(Repr - old(Repr)) && size == old(size)
      ensures err == if (if key in old(M) then mem.value else mem == ALL_OK) then ERR_NONE else ERR_NOMEM
      ensures M == if err == ERR_NONE then old(M)[key := value] else old(M)
    {
      hide Index, Represents, Valid;
      var bucket, i, j := Find(key);
      if bucket.key == Some(key) {
        if !mem.value {
          return ERR_NOMEM;
        }
        Overwrite(bucket, i, j, value);
        return ERR_NONE;
      }
      err := Append(bucket, i, key, value, mem);
    }

    /** The overwriting branch of `add_Htable_value`. */
    method Overwrite(bucket: Bucket, ghost i: nat, ghost j: nat, value: CStr)
      requires Valid() && i < size && i < |rows| && j < |rows[i]| && j < |chains[i]| && bucket == chains[i][j]
      modifies this, bucket
      ensures Valid() && buckets == old(buckets) && Repr == old(Repr) && size == old(size)
      ensures M == old(M)[old(rows)[i][j].key := value]
    {
      hide Index, Represents;
      var key := rows[i][j].key;
      ReplaceInRow(rows, M, i, j, value);
      bucket.value := Some(value);
      rows := rows[i := rows[i][j := Pair(key, value)]];
      M := M[key := value];
      assert Chain(chains[i], rows[i], i);
      forall a | 0 <= a < size && a != i ensures Chain(chains[a], rows[a], a) {
        assert old(Chain(chains[a], rows[a], a)) && bucket !in chains[a];
      }
    }

    /** The branch of `add_Htable_value` for a new key, at the blank end of its chain. */
    method Append(bucket: Bucket, ghost i: nat, key: CStr, value: CStr, mem: Alloc) returns (err: ErrorCode)
      requires Valid() && size > 0 && i == Index(key, size) && i < |rows| && i < |chains|
      requires |rows[i]| < |chains[i]| && bucket == chains[i][|rows[i]|] && key !in M
      modifies this, bucket
      ensures Valid() && buckets == old(buckets) && fresh(Repr - old(Repr)) && size == old(size)
      ensures err == if mem == ALL_OK then ERR_NONE else ERR_NOMEM
      ensures M == if err == ERR_NONE then old(M)[key := value] else old(M)
    {
      hide Index, Represents;
      ghost var p, nodes, pairs := Pair(key, value), chains[i], rows[i];
      err := AddBucket(bucket, key, value, mem);
      forall a | 0 <= a < size && a != i ensures Chain(chains[a], rows[a], a) {
        assert old(Chain(chains[a], rows[a], a)) && bucket !in chains[a];
      }
      if err != ERR_NONE {
        assert Chain(nodes, pairs, i);
        return err;
      }
      Link(i, bucket.tail, p);
    }

    /** `get_Htable_content`: the pairs of all buckets, chain by chain. */
    method GetContent() returns (list: seq<Pair>)
      requires Valid()
      ensures list == Flatten(rows) && IsListing(list, M) && |list| == |M|
    {
      hide Index, Represents;
      FlattenLists(rows, M);
      list := [];
      for i := 0 to size
        invariant list == Flatten(rows[..i])
      {
        TakeMore(rows, i);
        FlattenAppend(rows[..i], [rows[i]]);
        var bucket := buckets[i];
        ghost var start, j := list, 0;
        assert Chain(chains[i], rows[i], i);
        while bucket.key != None
          invariant j <= |rows[i]| && bucket == chains[i][j]
          invariant list == start + rows[i][..j]
          decreases |rows[i]| - j
        {
          assert bucket.key == Some(rows[i][j].key) && bucket.tail == chains[i][j + 1];
          list := list + [Pair(bucket.key.value, bucket.value.value)];
          bucket := bucket.tail;
          j := j + 1;
        }
        assert rows[i][..j] == rows[i];
      }
      assert rows[..size] == rows;
      ListingLength(list, M);
    }

    /** Every bucket after a head occurs once among the tails. */
    lemma EachTailOnce()
      requires Valid()
      ensures var all: seq<Bucket> := Flatten(Tails(chains));
              && (forall a, b :: 0 <= a < b < |all| ==> all[a] != all[b])
              && (forall i, j :: 0 <= i < |chains| && 1 <= j < |chains[i]| ==> chains[i][j] in all)
              && (forall b <- all :: b in Repr && b.pos > 0)
    {
      hide Index, Represents, Flatten;
      var tails := Tails(chains);
      var all: seq<Bucket> := Flatten(tails);
      forall a | 0 <= a < |all|
        ensures all[a] in Repr && all[a].pos > 0
        ensures all[a].row < |tails| && a == Offset(tails, all[a].row) + all[a].pos - 1
      {
        var i, j := FlattenIndex(tails, a);
        assert Chain(chains[i], rows[i], i) && tails[i][j] == chains[i][j + 1];
      }
      forall i, j | 0 <= i < |chains| && 1 <= j < |chains[i]| ensures chains[i][j] in all {
        assert chains[i][j] == tails[i][j - 1];
        FlattenAt(tails, i, j - 1);
      }
    }

    /** `delete_Htable_and_content`: what is handed to `free`, in order. Head buckets belong to
        the array and are not freed one by one. */
    method Delete() returns (freed: seq<Bucket>)
      requires Valid()
      modifies this
      ensures buckets == null && size == 0
      ensures forall a, b :: 0 <= a < b < |freed| ==> freed[a] != freed[b]
      ensures forall i, j :: 0 <= i < |old(chains)| && 1 <= j < |old(chains)[i]| ==> old(chains)[i][j] in freed
      ensures forall b <- freed :: b in old(Repr) && b.pos > 0
    {
      hide Index, Represents;
      freed := [];
      ghost var tails := Tails(chains);
      for i := 0 to size
        invariant freed == Flatten(tails[..i])
        modifies {}
      {
        TakeMore(tails, i);
        FlattenAppend(tails[..i], [tails[i]]);
        var part := FreeBucket(buckets[i], chains[i], rows[i], i);
        freed := freed + part;
      }
      assert tails[..size] == tails;
      EachTailOnce();
      buckets := null;
      size := 0;
    }

    /** Accounts for a pair that was added at the end of chain i, before a new blank. */
    ghost method Link(i: nat, blank: Bucket, p: Pair)
      requires this in Repr && buckets != null && buckets in Repr
      requires size == buckets.Length == |rows| == |chains| && i < size
      requires forall a, j :: 0 <= a < size && 0 <= j < |chains[a]| ==> chains[a][j] in Repr
      requires forall a :: 0 <= a < size ==> |chains[a]| > 0 && chains[a][0] == buckets[a]
      requires forall a :: 0 <= a < size && a != i ==> Chain(chains[a], rows[a], a)
      requires Chain(chains[i] + [blank], rows[i] + [p], i)
      requires Represents(rows, M) && i == Index(p.key, |rows|) && p.key !in M
      modifies this
      ensures Valid() && buckets == old(buckets) && size == old(size)
      ensures M == old(M)[p.key := p.value] && Repr == old(Repr) + {blank}
    {
      hide Index, Represents;
      AppendToRow(rows, M, p);
      ghost var nodes, pairs := chains[i] + [blank], rows[i] + [p];
      assert nodes[0] == chains[i][0];
      chains := chains[i := nodes];
      rows := rows[i := pairs];
      M := M[p.key := p.value];
      Repr := Repr + {blank};
      assert Chain(nodes, pairs, i);
      forall a | 0 <= a < size && a != i ensures Chain(chains[a], rows[a], a) {}
    }
  }

  /** The separately allocated buckets of every chain: all but the first. */
  ghost function Tails(chains: seq<seq<Bucket>>): (ts: seq<seq<Bucket>>) {
    seq(|chains|, i requires 0 <= i < |chains| => if chains[i] == [] then [] else chains[i][1..])
  }

  /** `free_bucket`: walks a chain and frees every bucket after the head, reading the next
      pointer of a bucket before it is freed. */
  method FreeBucket(head: Bucket, ghost nodes: seq<Bucket>, ghost pairs: seq<Pair>, ghost row: nat)
    returns (freed: seq<Bucket>)
    requires Chain(nodes, pairs, row) && head == nodes[0]
    ensures freed == nodes[1..]
  {
    freed := [];
    var bucket: Bucket? := head.tail;
    ghost var j := 1;
    while bucket != null
      invariant 1 <= j <= |nodes| && freed == nodes[1..j]
      invariant bucket == if j == |nodes| then null else nodes[j]
      decreases |nodes| - j
    {
      var old_bucket := bucket;
      bucket := bucket.tail;
      freed := freed + [old_bucket];
      j := j + 1;
    }
  }

  /** `add_bucket`: turns the blank end of a chain into a pair followed by a new blank. When an
      allocation fails the bucket is blank again. */
  method AddBucket(bucket: Bucket, key: CStr, value: CStr, mem: Alloc) returns (err: ErrorCode)
    requires bucket.key == None && bucket.value == None && bucket.tail == null
    modifies bucket
    ensures err == if mem == ALL_OK then ERR_NONE else ERR_NOMEM
    ensures err == ERR_NONE ==>
              && bucket.key == Some(key) && bucket.value == Some(value)
              && bucket.tail != null && fresh(bucket.tail)
              && bucket.tail.row == bucket.row && bucket.tail.pos == bucket.pos + 1
              && bucket.tail.key == None && bucket.tail.value == None && bucket.tail.tail == null
    ensures err != ERR_NONE ==> bucket.key == None && bucket.value == None && bucket.tail == null
  {
    if !mem.bucket {
      bucket.tail := null;
      return ERR_NOMEM;
    }
    bucket.tail := new Bucket.Blank(bucket.row, bucket.pos + 1);
    bucket.key := if mem.key then Some(key) else None;
    bucket.value := if mem.value then Some(value) else None;
    if bucket.key == None || bucket.value == None {
      bucket.tail := null;
      bucket.key := None;
      bucket.value := None;
      return ERR_NOMEM;
    }
    err := ERR_NONE;
  }

  /** `calloc` for an array of buckets. */
  method BlankBuckets(size: nat) returns (heads: array<Bucket>, ghost chains: seq<seq<Bucket>>)
    ensures fresh(heads) && heads.Length == |chains| == size
    ensures forall i :: 0 <= i < size ==> |chains[i]| == 1 && fresh(chains[i][0]) && heads[i] == chains[i][0]
    ensures forall i :: 0 <= i < size ==> Chain(chains[i], [], i)
  {
    var filler := new Bucket.Blank(0, 0);
    heads := new Bucket[size](_ => filler);
    chains := [];
    for i := 0 to size
      invariant |chains| == i
      invariant forall a :: 0 <= a < i ==> |chains[a]| == 1 && fresh(chains[a][0]) && heads[a] == chains[a][0]
      invariant forall a :: 0 <= a < i ==> Chain(chains[a], [], a)
    {
      var b := new Bucket.Blank(i, 0);
      heads[i] := b;
      chains := chains + [[b]];
    }
  }
}
