/** The server as a value: a finite map that answers requests. */
module ServerSpec {
  import opened CStrings
  import opened TableSpec
  import opened HashTables
  import opened Requests
  import DF = DumpFormat
  import DT = DumpTheory

  type Table = map<CStr, CStr>

  /** Outcomes of the allocations one turn of the server loop may attempt: those of an
      addition, the copy of a value, and the dump buffer. */
  datatype ServerAlloc = ServerAlloc(add: Alloc, dup: bool, buffer: bool)

  const GOOD_MEMORY := ServerAlloc(ALL_OK, true, true)

  /** Every record of the table fits the dump buffer. */
  ghost predicate RecordsFit(m: Table) {
    forall k <- m :: DF.RecordSize(Pair(k, m[k])) <= MAX_MSG_SIZE
  }

  predicate Added(m: Table, key: CStr, mem: Alloc) {
    if key in m then mem.value else mem == ALL_OK
  }

  /** One turn of the loop: from table `m`, the message `msg` leads to table `m'` and the
      replies in `out`. A put is acknowledged even when it could not be stored, and a dump can
      overrun its buffer, after which nothing is known about the server. */
  ghost predicate ServerStep(m: Table, msg: Bytes, mem: ServerAlloc, m': Table, out: DF.Sending) {
    match Meaning(msg)
    case Ping => m' == m && out == DF.Sent([[]])
    case DumpTable =>
      m' == m &&
      if mem.buffer then exists list :: IsListing(list, m) && out == DF.Dumping(list, MAX_MSG_SIZE)
      else out == DF.Sent([])
    case Get(key) => m' == m && out == DF.Sent([if key in m && mem.dup then m[key] else [0]])
    case Put(key, value) => m' == (if Added(m, key, mem.add) then m[key := value] else m) && out == DF.Sent([[]])
  }

  /** The last turn, if there was one, did not overrun its buffer. */
  predicate GoesOn(outs: seq<DF.Sending>) {
    outs != [] ==> outs[|outs| - 1].Sent?
  }

  /** A finite run of the loop. It ends at the latest with the first overflow. */
  ghost predicate ServerRun(m: Table, msgs: seq<Bytes>, mems: seq<ServerAlloc>, m': Table, outs: seq<DF.Sending>)
    decreases |msgs|
  {
    && |msgs| == |mems| == |outs|
    && if msgs == [] then m' == m
       else
         var last := |msgs| - 1;
         exists mid ::
           && ServerRun(m, msgs[..last], mems[..last], mid, outs[..last]) && GoesOn(outs[..last])
           && ServerStep(mid, msgs[last], mems[last], m', outs[last])
  }

  lemma RunExtends(m: Table, msgs: seq<Bytes>, mems: seq<ServerAlloc>, mid: Table, outs: seq<DF.Sending>,
                   msg: Bytes, mem: ServerAlloc, m': Table, out: DF.Sending)
    requires ServerRun(m, msgs, mems, mid, outs) && GoesOn(outs) && ServerStep(mid, msg, mem, m', out)
    ensures ServerRun(m, msgs + [msg], mems + [mem], m', outs + [out])
  {
    assert (msgs + [msg])[..|msgs|] == msgs && (mems + [mem])[..|msgs|] == mems && (outs + [out])[..|msgs|] == outs;
  }

  // ---- One turn of a run ----

  /** Turn i of a run, with the tables before and after it, which are those of the run so far. */
  ghost predicate TurnOf(m: Table, msgs: seq<Bytes>, mems: seq<ServerAlloc>, outs: seq<DF.Sending>, i: nat,
                         before: Table, after: Table)
  {
    && i < |msgs| == |mems| == |outs|
    && ServerRun(m, msgs[..i], mems[..i], before, outs[..i])
    && ServerRun(m, msgs[..i + 1], mems[..i + 1], after, outs[..i + 1])
  }

  lemma {:induction false} RunPrefix(m: Table, msgs: seq<Bytes>, mems: seq<ServerAlloc>, m': Table,
                                     outs: seq<DF.Sending>, i: nat) returns (before: Table, after: Table)
    requires ServerRun(m, msgs, mems, m', outs) && i < |msgs|
    ensures TurnOf(m, msgs, mems, outs, i, before, after) && ServerStep(before, msgs[i], mems[i], after, outs[i])
    decreases |msgs|
  {
    hide ServerStep;
    var last := |msgs| - 1;
    var mid :| ServerRun(m, msgs[..last], mems[..last], mid, outs[..last]) && GoesOn(outs[..last])
               && ServerStep(mid, msgs[last], mems[last], m', outs[last]);
    if i == last {
      before, after := mid, m';
      assert msgs[..last + 1] == msgs && mems[..last + 1] == mems && outs[..last + 1] == outs;
    } else {
      hide ServerRun;
      before, after := RunPrefix(m, msgs[..last], mems[..last], mid, outs[..last], i);
      assert msgs[..last][..i] == msgs[..i] && mems[..last][..i] == mems[..i] && outs[..last][..i] == outs[..i];
      assert msgs[..last][..i + 1] == msgs[..i + 1] && mems[..last][..i + 1] == mems[..i + 1];
      assert outs[..last][..i + 1] == outs[..i + 1];
    }
  }

  /** Whenever the empty message comes, exactly one empty datagram goes back. */
  lemma PingInRun(m: Table, msgs: seq<Bytes>, mems: seq<ServerAlloc>, m': Table, outs: seq<DF.Sending>, i: nat)
    returns (table: Table)
    requires ServerRun(m, msgs, mems, m', outs) && i < |msgs| && msgs[i] == []
    ensures TurnOf(m, msgs, mems, outs, i, table, table) && outs[i] == DF.Sent([[]])
  {
    hide ServerRun, TurnOf;
    var before, after := RunPrefix(m, msgs, mems, m', outs, i);
    table := before;
    RunLengths(m, msgs, mems, m', outs);
  }

  lemma RunLengths(m: Table, msgs: seq<Bytes>, mems: seq<ServerAlloc>, m': Table, outs: seq<DF.Sending>)
    requires ServerRun(m, msgs, mems, m', outs)
    ensures |outs| == |mems| == |msgs|
  {
  }

  /** Whenever a key, a NUL and a value come, they are stored if the table finds the memory it
      needs, and exactly one empty datagram goes back either way. */
  lemma PutInRun(m: Table, msgs: seq<Bytes>, mems: seq<ServerAlloc>, m': Table, outs: seq<DF.Sending>, i: nat,
                 key: CStr, value: CStr) returns (before: Table, after: Table)
    requires ServerRun(m, msgs, mems, m', outs)
    requires i < |msgs| && msgs[i] == key + [0] + value && msgs[i] != [0]
    ensures TurnOf(m, msgs, mems, outs, i, before, after) && outs[i] == DF.Sent([[]])
    ensures if key in before && !mems[i].add.value then after == before
            else if key !in before && !(mems[i].add.bucket && mems[i].add.key && mems[i].add.value) then after == before
            else after == before[key := value]
  {
    hide ServerRun, TurnOf, Meaning;
    RunLengths(m, msgs, mems, m', outs);
    before, after := RunPrefix(m, msgs, mems, m', outs, i);
    MeaningByShape(msgs[i]);
    assert Meaning(msgs[i]) == Put(key, value);
  }

  /** Whenever a non-empty key alone comes, exactly one datagram goes back: the value stored under
      it, or one NUL when there is none or it cannot be copied. */
  lemma GetInRun(m: Table, msgs: seq<Bytes>, mems: seq<ServerAlloc>, m': Table, outs: seq<DF.Sending>, i: nat,
                 key: CStr) returns (table: Table)
    requires ServerRun(m, msgs, mems, m', outs) && i < |msgs| && msgs[i] == key && key != []
    ensures TurnOf(m, msgs, mems, outs, i, table, table)
    ensures outs[i] == DF.Sent([if key in table && mems[i].dup then table[key] else [0]])
  {
    hide ServerRun, TurnOf, Meaning;
    RunLengths(m, msgs, mems, m', outs);
    var before, after := RunPrefix(m, msgs, mems, m', outs, i);
    table := before;
    MeaningByShape(msgs[i]);
    assert Meaning(msgs[i]) == Get(key);
  }

  /** A dump request leaves the table as it is, and without a buffer nothing goes back. */
  lemma DumpInRun(m: Table, msgs: seq<Bytes>, mems: seq<ServerAlloc>, m': Table, outs: seq<DF.Sending>, i: nat)
    returns (table: Table)
    requires ServerRun(m, msgs, mems, m', outs) && i < |msgs| && msgs[i] == [0]
    ensures TurnOf(m, msgs, mems, outs, i, table, table) && (!mems[i].buffer ==> outs[i] == DF.Sent([]))
  {
    hide ServerRun, TurnOf, Meaning;
    RunLengths(m, msgs, mems, m', outs);
    var before, after := RunPrefix(m, msgs, mems, m', outs, i);
    table := before;
    MeaningByShape(msgs[i]);
  }

  // ---- What a run means to its clients ----

  /** The value of the last put of a key that found the memory it needed: only the copy of the
      value when the key was stored already, everything when it was new. */
  function LastStored(msgs: seq<Bytes>, mems: seq<ServerAlloc>, key: CStr): Option<CStr>
    requires |msgs| == |mems|
  {
    if msgs == [] then None
    else
      var last := |msgs| - 1;
      var before, r := LastStored(msgs[..last], mems[..last], key), Meaning(msgs[last]);
      if r.Put? && r.key == key && (if before.Some? then mems[last].add.value else mems[last].add == ALL_OK)
      then Some(r.value) else before
  }

  /** The value of the last put of a key. */
  function LastPut(msgs: seq<Bytes>, key: CStr): Option<CStr> {
    if msgs == [] then None
    else
      var r := Meaning(msgs[|msgs| - 1]);
      if r.Put? && r.key == key then Some(r.value) else LastPut(msgs[..|msgs| - 1], key)
  }

  ghost predicate AllStored(mems: seq<ServerAlloc>) {
    forall i :: 0 <= i < |mems| ==> mems[i].add == ALL_OK
  }

  /** When all additions find memory, the last put is what is stored. */
  lemma {:induction false} StoredIsPut(msgs: seq<Bytes>, mems: seq<ServerAlloc>, key: CStr)
    requires |msgs| == |mems| && AllStored(mems)
    ensures LastStored(msgs, mems, key) == LastPut(msgs, key)
  {
    if msgs != [] {
      hide Meaning;
      StoredIsPut(msgs[..|msgs| - 1], mems[..|mems| - 1], key);
    }
  }

  /** The table of a run that started empty associates each key with the last put of it that was
      stored, whatever allocation fails. */
  lemma {:induction false} TableIsStoredPuts(msgs: seq<Bytes>, mems: seq<ServerAlloc>, m: Table,
                                             outs: seq<DF.Sending>)
    requires ServerRun(map[], msgs, mems, m, outs)
    ensures |outs| == |mems| == |msgs|
    ensures forall k: CStr :: LastStored(msgs, mems, k) == if k in m then Some(m[k]) else None
  {
    if msgs != [] {
      var last := |msgs| - 1;
      var mid :| ServerRun(map[], msgs[..last], mems[..last], mid, outs[..last])
                 && ServerStep(mid, msgs[last], mems[last], m, outs[last]);
      TableIsStoredPuts(msgs[..last], mems[..last], mid, outs[..last]);
      hide ServerRun;
      forall k: CStr ensures LastStored(msgs, mems, k) == if k in m then Some(m[k]) else None {
        StoredStep(msgs, mems, mid, m, outs[last], k);
      }
    }
  }

  lemma StoredStep(msgs: seq<Bytes>, mems: seq<ServerAlloc>, mid: Table, m: Table, out: DF.Sending, k: CStr)
    requires |msgs| == |mems| && msgs != []
    requires ServerStep(mid, msgs[|msgs| - 1], mems[|msgs| - 1], m, out)
    requires LastStored(msgs[..|msgs| - 1], mems[..|msgs| - 1], k) == if k in mid then Some(mid[k]) else None
    ensures LastStored(msgs, mems, k) == if k in m then Some(m[k]) else None
  {
    hide Meaning, DF.Dumping;
  }

  /** With memory for all additions: each key has the value of its last put. */
  lemma TableIsLastPuts(msgs: seq<Bytes>, mems: seq<ServerAlloc>, m: Table, outs: seq<DF.Sending>)
    requires ServerRun(map[], msgs, mems, m, outs) && AllStored(mems)
    ensures forall k: CStr :: LastPut(msgs, k) == if k in m then Some(m[k]) else None
  {
    hide ServerRun, LastPut, LastStored;
    TableIsStoredPuts(msgs, mems, m, outs);
    forall k: CStr ensures LastPut(msgs, k) == LastStored(msgs, mems, k) {
      StoredIsPut(msgs, mems, k);
    }
  }

  /** Whatever happened before and whatever allocation failed, a get is answered with the value
      stored last under its key, or with a single NUL when there is none or it cannot be copied. */
  lemma GetSeesStoredPut(msgs: seq<Bytes>, mems: seq<ServerAlloc>, m: Table, outs: seq<DF.Sending>, i: nat, key: CStr)
    requires ServerRun(map[], msgs, mems, m, outs) && i < |msgs| && msgs[i] == key && key != []
    ensures |outs| == |mems| == |msgs|
    ensures var stored := LastStored(msgs[..i], mems[..i], key);
            outs[i] == DF.Sent([if stored.Some? && mems[i].dup then stored.value else [0]])
  {
    RunLengths(map[], msgs, mems, m, outs);
    hide ServerRun, LastStored;
    var table := GetInRun(map[], msgs, mems, m, outs, i, key);
    TableIsStoredPuts(msgs[..i], mems[..i], table, outs[..i]);
  }

  /** With memory for all additions, a get is answered with the last value put under its key. */
  lemma GetSeesLastPut(msgs: seq<Bytes>, mems: seq<ServerAlloc>, m: Table, outs: seq<DF.Sending>, i: nat, key: CStr)
    requires ServerRun(map[], msgs, mems, m, outs) && AllStored(mems)
    requires i < |msgs| && msgs[i] == key && key != []
    ensures |outs| == |mems| == |msgs|
    ensures mems[i].dup ==> outs[i] == DF.Sent([match LastPut(msgs[..i], key) case None => [0] case Some(v) => v])
  {
    RunLengths(map[], msgs, mems, m, outs);
    hide ServerRun, LastStored, LastPut;
    GetSeesStoredPut(msgs, mems, m, outs, i, key);
    StoredIsPut(msgs[..i], mems[..i], key);
  }

  // ---- When a dump overruns its buffer ----

  /** A dump overruns its buffer exactly when there is a buffer and some record is too long. */
  lemma StepOverflows(m: Table, msg: Bytes, mem: ServerAlloc, m': Table, out: DF.Sending)
    requires ServerStep(m, msg, mem, m', out)
    ensures out.Overflow? <==> Meaning(msg).DumpTable? && mem.buffer && !RecordsFit(m)
  {
    hide Meaning, DF.Dumping;
    if Meaning(msg).DumpTable? && mem.buffer {
      var list :| IsListing(list, m) && out == DF.Dumping(list, MAX_MSG_SIZE);
      DF.DumpingMeaning(list, MAX_MSG_SIZE);
      ListFits(list, m);
    }
  }

  lemma ListFits(list: seq<Pair>, m: Table)
    requires IsListing(list, m)
    ensures RecordsFit(m) <==> forall p <- list :: DF.RecordSize(p) <= MAX_MSG_SIZE
  {
    forall p | p in list ensures p.key in m && p == Pair(p.key, m[p.key]) {
      var i :| 0 <= i < |list| && list[i] == p;
    }
    forall k | k in m ensures Pair(k, m[k]) in list {
      var i :| 0 <= i < |list| && list[i].key == k;
      assert list[i] == Pair(k, m[k]);
    }
  }

  /** The value stored last under a key is too long to be dumped with it: the message that put it
      had no fewer than MAX_MSG_SIZE bytes. */
  ghost predicate TooLong(msgs: seq<Bytes>, mems: seq<ServerAlloc>, key: CStr)
    requires |msgs| == |mems|
  {
    var stored := LastStored(msgs, mems, key);
    stored.Some? && |key + [0] + stored.value| >= 65507
  }

  /** After any run from an empty table every record fits exactly when no key's stored value was
      put by a message of MAX_MSG_SIZE bytes. */
  lemma FitDecidedByPuts(msgs: seq<Bytes>, mems: seq<ServerAlloc>, m: Table, outs: seq<DF.Sending>)
    requires ServerRun(map[], msgs, mems, m, outs)
    ensures |outs| == |mems| == |msgs|
    ensures RecordsFit(m) <==> forall k: CStr :: !TooLong(msgs, mems, k)
  {
    hide ServerRun, LastStored;
    TableIsStoredPuts(msgs, mems, m, outs);
    if !RecordsFit(m) {
      var k :| k in m && DF.RecordSize(Pair(k, m[k])) > MAX_MSG_SIZE;
      assert TooLong(msgs, mems, k);
    }
  }

  /** In any run from an empty table, a turn overruns its buffer exactly when it answers a dump
      request, has a buffer, and some key's stored value was put by a message of MAX_MSG_SIZE
      bytes. */
  lemma OverflowDecidedByPuts(msgs: seq<Bytes>, mems: seq<ServerAlloc>, m: Table, outs: seq<DF.Sending>, i: nat)
    requires ServerRun(map[], msgs, mems, m, outs) && i < |msgs|
    ensures |outs| == |mems| == |msgs|
    ensures outs[i].Overflow? <==>
            msgs[i] == [0] && mems[i].buffer && exists k: CStr :: TooLong(msgs[..i], mems[..i], k)
  {
    RunLengths(map[], msgs, mems, m, outs);
    hide ServerRun, TooLong, Meaning;
    var before, after := RunPrefix(map[], msgs, mems, m, outs, i);
    MeaningByShape(msgs[i]);
    StepOverflows(before, msgs[i], mems[i], after, outs[i]);
    FitDecidedByPuts(msgs[..i], mems[..i], before, outs[..i]);
  }

  lemma StepKeepsFit(m: Table, msg: Bytes, mem: ServerAlloc, m': Table, out: DF.Sending)
    requires RecordsFit(m) && |msg| < MAX_MSG_SIZE
    requires ServerStep(m, msg, mem, m', out)
    ensures RecordsFit(m') && out.Sent?
  {
    if Meaning(msg).Put? { PutFits(msg); }
    StepOverflows(m, msg, mem, m', out);
  }

  /** While every message is shorter than MAX_MSG_SIZE no turn overruns its buffer, whatever
      allocation fails. */
  lemma {:induction false} ShortMessagesAreSafe(msgs: seq<Bytes>, mems: seq<ServerAlloc>, m: Table,
                                                outs: seq<DF.Sending>)
    requires ServerRun(map[], msgs, mems, m, outs) && forall msg <- msgs :: |msg| < MAX_MSG_SIZE
    ensures RecordsFit(m) && forall out <- outs :: out.Sent?
  {
    if msgs != [] {
      hide RecordsFit, ServerStep;
      var last := |msgs| - 1;
      var mid :| ServerRun(map[], msgs[..last], mems[..last], mid, outs[..last])
                 && ServerStep(mid, msgs[last], mems[last], m, outs[last]);
      assert forall msg <- msgs[..last] :: msg in msgs;
      assert msgs[last] in msgs && outs == outs[..last] + [outs[last]];
      ShortMessagesAreSafe(msgs[..last], mems[..last], mid, outs[..last]);
      StepKeepsFit(mid, msgs[last], mems[last], m, outs[last]);
    }
  }

  /** Two turns: a put into the empty table, and a dump of that one pair. */
  lemma PutThenDump(key: CStr, value: CStr)
    requires key != []
    ensures var put, dump := Encode(Put(key, value)), Encode(DumpTable);
            var out := DF.Dumping([Pair(key, value)], MAX_MSG_SIZE);
            ServerRun(map[], [put, dump], [GOOD_MEMORY, GOOD_MEMORY], map[key := value], [DF.Sent([[]]), out])
  {
    var put, dump, table := Encode(Put(key, value)), Encode(DumpTable), map[key := value];
    var list := [Pair(key, value)];
    var out := DF.Dumping(list, MAX_MSG_SIZE);
    assert ServerStep(map[], put, GOOD_MEMORY, table, DF.Sent([[]])) by { MeaningOfPut(key, value); }
    assert HasKey(list, key) by { assert list[0].key == key; }
    assert IsListing(list, table) && ServerStep(table, dump, GOOD_MEMORY, table, out);
    hide ServerStep, DF.Dumping, Encode;
    RunExtends(map[], [], [], map[], [], put, GOOD_MEMORY, table, DF.Sent([[]]));
    hide ServerRun;
    RunExtends(map[], [put], [GOOD_MEMORY], table, [DF.Sent([[]])], dump, GOOD_MEMORY, table, out);
    assert [put] + [dump] == [put, dump] && [DF.Sent([[]])] + [out] == [DF.Sent([[]]), out];
    assert [GOOD_MEMORY] + [GOOD_MEMORY] == [GOOD_MEMORY, GOOD_MEMORY];
  }

  /** The limit is reached by a key and a value of the documented maximal length: the put is one
      datagram, and the dump that follows it overruns the buffer. */
  lemma LongestPutOverflows() returns (key: CStr, value: CStr, outs: seq<DF.Sending>)
    ensures |key| == |value| == 32753 && |key + [0] + value| == 65507
    ensures ServerRun(map[], [key + [0] + value, [0]], [GOOD_MEMORY, GOOD_MEMORY], map[key := value], outs)
    ensures |outs| == 2 && outs[0] == DF.Sent([[]]) && outs[1].Overflow?
  {
    key, value := seq(MAX_MSG_ELEM_SIZE, _ => 1), seq(MAX_MSG_ELEM_SIZE, _ => 2);
    hide ServerRun, DF.Dumping;
    PutThenDump(key, value);
    var p := Pair(key, value);
    DF.DumpingMeaning([p], MAX_MSG_SIZE);
    assert p in [p] && DF.RecordSize(p) == MAX_MSG_SIZE + 1;
    outs := [DF.Sent([[]]), DF.Dumping([p], MAX_MSG_SIZE)];
  }

  // ---- Replies fit a client's buffer ----

  /** Every stored value is shorter than the largest datagram. */
  ghost predicate ValuesShort(m: Table) {
    forall k <- m :: |m[k]| < MAX_MSG_SIZE
  }

  lemma StepReplies(m: Table, msg: Bytes, mem: ServerAlloc, m': Table, out: DF.Sending)
    requires ValuesShort(m) && |msg| <= MAX_MSG_SIZE && ServerStep(m, msg, mem, m', out)
    ensures ValuesShort(m') && forall d <- out.datagrams :: |d| < MAX_MSG_SIZE
  {
    hide Meaning, DF.Dumping;
    match Meaning(msg)
    case DumpTable =>
      if mem.buffer {
        var list :| IsListing(list, m) && out == DF.Dumping(list, MAX_MSG_SIZE);
        DT.DatagramsFit(list, MAX_MSG_SIZE);
      }
    case Put(key, value) => PutFits(msg);
    case _ =>
  }

  /** In any run from an empty table, every datagram a server sends leaves room for a NUL in a
      buffer of MAX_MSG_SIZE bytes, whatever allocation fails. */
  lemma {:induction false} RepliesLeaveRoom(msgs: seq<Bytes>, mems: seq<ServerAlloc>, m: Table, outs: seq<DF.Sending>)
    requires ServerRun(map[], msgs, mems, m, outs) && forall msg <- msgs :: |msg| <= MAX_MSG_SIZE
    ensures ValuesShort(m) && forall out <- outs, d <- out.datagrams :: |d| < MAX_MSG_SIZE
  {
    if msgs != [] {
      hide ValuesShort, ServerStep;
      var last := |msgs| - 1;
      var mid :| ServerRun(map[], msgs[..last], mems[..last], mid, outs[..last])
                 && ServerStep(mid, msgs[last], mems[last], m, outs[last]);
      assert forall msg <- msgs[..last] :: msg in msgs;
      assert msgs[last] in msgs && outs == outs[..last] + [outs[last]];
      RepliesLeaveRoom(msgs[..last], mems[..last], mid, outs[..last]);
      StepReplies(mid, msgs[last], mems[last], m, outs[last]);
    }
  }

  // ---- What a client makes of a dump ----

  /** The client reads exactly the table off the datagrams, and none is left over. */
  ghost predicate Shows(m: Table, datagrams: seq<Bytes>, spare: Byte) {
    exists list :: IsListing(list, m) && DF.Read(datagrams, spare, MAX_MSG_SIZE) == DF.Listed(list, [])
  }

  /** A dump that is sent shows the table exactly when nothing is stored under the empty key,
      the count arrives, and the spare byte does no harm. `list` is the order in which the
      server sent the table. */
  lemma DumpShowsTable(m: Table, mem: ServerAlloc, m': Table, out: DF.Sending, spare: Byte)
    returns (list: seq<Pair>)
    requires ServerStep(m, Encode(DumpTable), mem, m', out) && mem.buffer && |m| < 0x1_0000_0000
    ensures out.Sent? <==> RecordsFit(m)
    ensures IsListing(list, m)
    ensures out.Sent? ==> out.datagrams == DF.Dump(list, MAX_MSG_SIZE)
    ensures out.Sent? ==>
      (Shows(m, out.datagrams, spare) <==>
       [] !in m && DT.HeaderArrives(list, MAX_MSG_SIZE) && (spare == 0 || DT.SpareUnread(out.datagrams, MAX_MSG_SIZE)))
  {
    RequestRoundTrip(DumpTable);
    hide Meaning, DF.Dumping, DF.Dump, DF.Read, DT.HeaderArrives, DT.SpareUnread;
    StepOverflows(m, Encode(DumpTable), mem, m', out);
    list :| IsListing(list, m) && out == DF.Dumping(list, MAX_MSG_SIZE);
    DF.DumpingMeaning(list, MAX_MSG_SIZE);
    ListingLength(list, m);
    if out.Sent? {
      ListFits(list, m);
      NamedListing(list, m);
      DT.DumpRoundTrip(list, spare, MAX_MSG_SIZE);
      DT.ReadIsPrefix(list, spare, MAX_MSG_SIZE);
      hide IsListing;
      if Shows(m, out.datagrams, spare) {
        var l :| IsListing(l, m) && DF.Read(out.datagrams, spare, MAX_MSG_SIZE) == DF.Listed(l, []);
        ListingLength(l, m);
        NamedListing(l, m);
        assert l <= list && |l| == |list| ==> l == list;
      }
    }
  }

  lemma NamedListing(list: seq<Pair>, m: Table)
    requires IsListing(list, m)
    ensures DT.Named(list) <==> [] !in m
  {
    if [] in m {
      var i :| 0 <= i < |list| && list[i].key == [];
      assert list[i] in list;
    }
  }

  /** In particular when every key is non-empty and every record fits behind the header, with a
      clear spare byte. */
  lemma DumpShowsOrdinaryTable(m: Table, mem: ServerAlloc, m': Table, out: DF.Sending)
    requires ServerStep(m, Encode(DumpTable), mem, m', out) && mem.buffer && |m| < 0x1_0000_0000
    requires forall k <- m :: k != [] && DF.HEADER + DF.RecordSize(Pair(k, m[k])) <= MAX_MSG_SIZE
    ensures out.Sent? && Shows(m, out.datagrams, 0)
  {
    hide ServerStep, Shows, DF.Dump;
    var list := DumpShowsTable(m, mem, m', out, 0);
    if list != [] { assert list[0] == Pair(list[0].key, m[list[0].key]); }
  }
}
