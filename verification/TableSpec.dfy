/** The hash table as a value: rows of pairs, one row a bucket, and the finite map they mean. */
module TableSpec {
  import opened CStrings

  /** One round of the 64-bit running hash of `hash_function`. */
  function MixByte(hash: bv64, b: Byte): bv64 {
    var h1 := hash + (b as bv64);
    var h2 := h1 + (h1 << 10);
    h2 ^ (h2 >> 6)
  }

  function HashBytes(key: CStr, hash: bv64): bv64
    decreases |key|
  {
    if key == [] then hash else HashBytes(key[1..], MixByte(hash, key[0]))
  }

  function FinishHash(hash: bv64): nat {
    var h1 := hash + (hash << 3);
    var h2 := h1 ^ (h1 >> 11);
    (h2 + (h2 << 15)) as nat
  }

  /** The bucket of a key in a table of `size` buckets. */
  function Index(key: CStr, size: nat): (i: nat)
    requires size > 0
    ensures i < size
  {
    FinishHash(HashBytes(key, 0)) % size
  }

  lemma HashStep(b: Byte, rest: CStr, hash: bv64)
    requires b != 0
    ensures HashBytes([b] + rest, hash) == HashBytes(rest, MixByte(hash, b))
  {
    hide MixByte;
    assert ([b] + rest)[1..] == rest;
  }

  lemma HashLast(b: Byte, hash: bv64)
    requires b != 0
    ensures HashBytes([b], hash) == MixByte(hash, b)
  {
    hide MixByte;
  }

  lemma RoundsOneByte()
    ensures MixByte(0, 97) == 98928
    ensures FinishHash(98928) == 29161854018
  {
  }

  /** The buckets of "a". */
  lemma HashOfOneByte()
    ensures Index([97], 256) == 66 && Index([97], 1000) == 18
  {
    hide HashBytes, MixByte, FinishHash;
    RoundsOneByte();
    HashLast(97, 0);
  }

  lemma RoundsTwoBytes()
    ensures MixByte(0, 98) == 101955 && MixByte(101955, 97) == 103083742
    ensures FinishHash(103083742) == 30397587754050
  {
  }

  /** The buckets of "ba", which shares a bucket with "a" among 256. */
  lemma HashOfTwoBytes()
    ensures Index([98, 97], 256) == 66 && Index([98, 97], 1000) == 50
  {
    hide HashBytes, MixByte, FinishHash;
    RoundsTwoBytes();
    HashStep(98, [97], 0);
    assert [98] + [97] == [98, 97];
    HashLast(97, 101955);
  }

  lemma RoundsFiveBytes()
    ensures MixByte(0, 104) == 108265 && MixByte(108265, 101) == 109356083
    ensures MixByte(109356083, 108) == 113572543517 && MixByte(113572543517, 108) == 114657366390283
    ensures MixByte(114657366390283, 111) == 119065406457763331
    ensures FinishHash(119065406457763331) == 8847632551651054667
  {
  }

  /** The buckets of "hello". */
  lemma HashOfFiveBytes()
    ensures Index([104, 101, 108, 108, 111], 256) == 75 && Index([104, 101, 108, 108, 111], 1000) == 667
  {
    hide HashBytes, MixByte, FinishHash;
    RoundsFiveBytes();
    HashStep(104, [101, 108, 108, 111], 0);
    assert [104] + [101, 108, 108, 111] == [104, 101, 108, 108, 111];
    HashStep(101, [108, 108, 111], 108265);
    assert [101] + [108, 108, 111] == [101, 108, 108, 111];
    HashStep(108, [108, 111], 109356083);
    assert [108] + [108, 111] == [108, 108, 111];
    HashStep(108, [111], 113572543517);
    assert [108] + [111] == [108, 111];
    HashLast(111, 114657366390283);
  }

  lemma RoundsHighBytes()
    ensures MixByte(0, 255) == 258828 && MixByte(258828, 254) == 267078778
    ensures FinishHash(267078778) == 78798621137148
  {
  }

  /** The buckets of two bytes above 127. */
  lemma HashOfHighBytes()
    ensures Index([255, 254], 256) == 252 && Index([255, 254], 1000) == 148
  {
    hide HashBytes, MixByte, FinishHash;
    RoundsHighBytes();
    HashStep(255, [254], 0);
    assert [255] + [254] == [255, 254];
    HashLast(254, 258828);
  }

  type Rows = seq<seq<Pair>>

  /** Every key sits in the bucket its hash selects, and in no other place. */
  ghost predicate Placed(rows: Rows) {
    && (forall i, j :: 0 <= i < |rows| && 0 <= j < |rows[i]| ==> Index(rows[i][j].key, |rows|) == i)
    && (forall i, j, k :: 0 <= i < |rows| && 0 <= j < k < |rows[i]| ==> rows[i][j].key != rows[i][k].key)
  }

  /** The rows hold exactly the associations of the map. */
  ghost predicate Holds(rows: Rows, m: map<CStr, CStr>) {
    && (forall i, j :: 0 <= i < |rows| && 0 <= j < |rows[i]| ==>
          rows[i][j].key in m && m[rows[i][j].key] == rows[i][j].value)
    && (forall k :: k in m ==> exists i, j :: 0 <= i < |rows| && 0 <= j < |rows[i]| && rows[i][j].key == k)
  }

  ghost predicate Represents(rows: Rows, m: map<CStr, CStr>) {
    |rows| > 0 && Placed(rows) && Holds(rows, m)
  }

  lemma EmptyRows(size: nat)
    requires size > 0
    ensures Represents(seq(size, _ => []), map[])
  {
  }

  /** A key is stored when its own row has it. */
  lemma KeyInRow(rows: Rows, m: map<CStr, CStr>, key: CStr)
    requires Represents(rows, m)
    ensures key in m <==> exists j :: 0 <= j < |rows[Index(key, |rows|)]| && rows[Index(key, |rows|)][j].key == key
  {
    hide Index;
  }

  /** Overwriting the value of a stored key. */
  lemma {:induction false} ReplaceInRow(rows: Rows, m: map<CStr, CStr>, i: nat, j: nat, value: CStr)
    requires Represents(rows, m) && i < |rows| && j < |rows[i]|
    ensures var p := Pair(rows[i][j].key, value);
            Represents(rows[i := rows[i][j := p]], m[p.key := value])
  {
    hide Index;
    var p := Pair(rows[i][j].key, value);
    var rows': Rows := rows[i := rows[i][j := p]];
    assert forall a, b :: 0 <= a < |rows| && 0 <= b < |rows[a]| ==> rows'[a][b].key == rows[a][b].key;
    assert forall a :: 0 <= a < |rows| ==> |rows'[a]| == |rows[a]|;
    forall a, b | 0 <= a < |rows'| && 0 <= b < |rows'[a]|
      ensures rows'[a][b].key in m[p.key := value] && m[p.key := value][rows'[a][b].key] == rows'[a][b].value
    {
      if rows[a][b].key == p.key { assert a == i && b == j; }
    }
    var m' := m[p.key := value];
    forall k | k in m'
      ensures exists a, b :: 0 <= a < |rows'| && 0 <= b < |rows'[a]| && rows'[a][b].key == k
    {
      assert k in m;
      var a, b :| 0 <= a < |rows| && 0 <= b < |rows[a]| && rows[a][b].key == k;
      assert rows'[a][b].key == k;
    }
  }

  /** Appending a new key to the row its hash selects. */
  lemma AppendToRow(rows: Rows, m: map<CStr, CStr>, p: Pair)
    requires Represents(rows, m) && p.key !in m
    ensures var i := Index(p.key, |rows|); Represents(rows[i := rows[i] + [p]], m[p.key := p.value])
  {
    hide Index;
    var i := Index(p.key, |rows|);
    var rows': Rows := rows[i := rows[i] + [p]];
    forall a, b | 0 <= a < |rows| && 0 <= b < |rows[a]| ensures rows'[a][b] == rows[a][b] {}
    var m' := m[p.key := p.value];
    forall k | k in m'
      ensures exists a, b :: 0 <= a < |rows'| && 0 <= b < |rows'[a]| && rows'[a][b].key == k
    {
      if k == p.key {
        assert rows'[i][|rows[i]|].key == k;
      } else {
        var a, b :| 0 <= a < |rows| && 0 <= b < |rows[a]| && rows[a][b].key == k;
        assert rows'[a][b].key == k;
      }
    }
  }

  // ---- Listings ----

  /** A list with every association of the map exactly once. */
  ghost predicate IsListing(list: seq<Pair>, m: map<CStr, CStr>) {
    && (forall i :: 0 <= i < |list| ==> list[i].key in m && m[list[i].key] == list[i].value)
    && (forall i, j :: 0 <= i < j < |list| ==> list[i].key != list[j].key)
    && (forall k :: k in m ==> HasKey(list, k))
  }

  ghost predicate HasKey(list: seq<Pair>, k: CStr) {
    exists i :: 0 <= i < |list| && list[i].key == k
  }

  lemma {:induction false} ListingLength(list: seq<Pair>, m: map<CStr, CStr>)
    requires IsListing(list, m)
    ensures |list| == |m|
  {
    if list == [] {
      assert m.Keys == {};
    } else {
      hide IsListing;
      ShorterListing(list, m);
      ListingLength(list[..|list| - 1], m - {list[|list| - 1].key});
    }
  }

  lemma ShorterListing(list: seq<Pair>, m: map<CStr, CStr>)
    requires IsListing(list, m) && list != []
    ensures var k := list[|list| - 1].key;
            IsListing(list[..|list| - 1], m - {k}) && |m| == |m - {k}| + 1
  {
    hide HasKey;
    var k, shorter := list[|list| - 1].key, list[..|list| - 1];
    var m' := m - {k};
    Remove(m, k);
    assert forall i :: 0 <= i < |shorter| ==> shorter[i] == list[i] && list[i].key != k;
    forall k' | k' in m' ensures HasKey(shorter, k') {
      HasKeyShorter(list, k');
    }
  }

  lemma HasKeyShorter(list: seq<Pair>, k: CStr)
    requires list != [] && HasKey(list, k) && k != list[|list| - 1].key
    ensures HasKey(list[..|list| - 1], k)
  {
    var i :| 0 <= i < |list| && list[i].key == k;
    assert list[..|list| - 1][i].key == k;
  }

  lemma Remove<K, V>(m: map<K, V>, k: K)
    requires k in m
    ensures |m| == |m - {k}| + 1
  {
    assert m.Keys == (m - {k}).Keys + {k};
  }

  /** The rows one after the other list the map. */
  lemma {:induction false} FlattenLists(rows: Rows, m: map<CStr, CStr>)
    requires Represents(rows, m)
    ensures IsListing(Flatten(rows), m)
  {
    hide Index, Flatten;
    var list := Flatten(rows);
    forall n | 0 <= n < |list| ensures list[n].key in m && m[list[n].key] == list[n].value {
      var i, j := FlattenIndex(rows, n);
    }
    forall n, n' | 0 <= n < n' < |list| ensures list[n].key != list[n'].key {
      var i, j := FlattenIndex(rows, n);
      var i', j' := FlattenIndex(rows, n');
    }
    forall k | k in m ensures HasKey(list, k) {
      var i, j :| 0 <= i < |rows| && 0 <= j < |rows[i]| && rows[i][j].key == k;
      FlattenAt(rows, i, j);
      assert list[Offset(rows, i) + j].key == k;
    }
  }
}
