/** The server loop of done/pps-launch-server.c, one message at a time. */
module Server {
  import opened CStrings
  import opened TableSpec
  import opened HashTables
  import opened Requests
  import opened ServerSpec
  import DF = DumpFormat
  import DP = DumpProtocol

  const HTABLE_SIZE: nat := 256

  class StoreServer {
    const table: HTable
    const in_msg: array<Byte>

    ghost predicate Valid()
      reads this, table, table.Repr, in_msg
    {
      table.Valid() && in_msg.Length == MAX_MSG_SIZE + 1 && in_msg !in table.Repr && this !in table.Repr
    }

    constructor ()
      ensures Valid() && fresh(table) && fresh(table.Repr) && fresh(in_msg) && table.M == map[] && table.size == 256
    {
      table := new HTable.Construct(HTABLE_SIZE, true);
      in_msg := new Byte[MAX_MSG_SIZE + 1];
    }

    /** `recvfrom` into the cleared buffer. */
    method Receive(msg: Bytes)
      requires in_msg.Length == MAX_MSG_SIZE + 1 && |msg| <= MAX_MSG_SIZE
      modifies in_msg
      ensures Buffers(in_msg, msg)
    {
      Clear(in_msg, MAX_MSG_SIZE + 1);
      ghost var zeros := in_msg[..];
      CopyIn(in_msg, msg, |msg|);
      assert forall j :: |msg| <= j <= MAX_MSG_SIZE ==> in_msg[j] == in_msg[|msg|..][j - |msg|] == zeros[j];
    }

    /** One turn of the loop. */
    method Serve(msg: Bytes, mem: ServerAlloc) returns (out: DF.Sending)
      requires Valid() && |msg| <= MAX_MSG_SIZE
      modifies table.Repr, in_msg
      ensures Valid() && fresh(table.Repr - old(table.Repr))
      ensures ServerStep(old(table.M), msg, mem, table.M, out)
    {
      hide Represents, Meaning, DF.Dump, DF.Dumping;
      Receive(msg);
      var request := Classify(in_msg, |msg|, msg);
      match request {
        case Ping =>
          out := DF.Sent([[]]);
        case DumpTable =>
          var list := table.GetContent();
          if !mem.buffer {
            return DF.Sent([]);
          }
          out := DP.SendDump(list, MAX_MSG_SIZE);
        case Get(key) =>
          var val := table.Get(key, mem.dup);
          out := DF.Sent(if val.None? then [[0]] else [val.value]);
        case Put(key, value) =>
          var err := table.Add(key, value, mem.add);
          out := DF.Sent([[]]);
      }
    }
  }

  /** The loop over any finite sequence of messages, from an empty table. It ends early only
      with a dump that overruns its buffer. */
  method RunServer(msgs: seq<Bytes>, mems: seq<ServerAlloc>) returns (outs: seq<DF.Sending>, server: StoreServer)
    requires |msgs| == |mems| && forall msg <- msgs :: |msg| <= MAX_MSG_SIZE
    ensures |outs| <= |msgs| && ServerRun(map[], msgs[..|outs|], mems[..|outs|], server.table.M, outs)
    ensures |outs| < |msgs| ==> !GoesOn(outs)
  {
    hide *;
    server := new StoreServer();
    outs := [];
    NoTurns();
    for i := 0 to |msgs|
      invariant server.Valid() && fresh(server.table.Repr) && fresh(server.in_msg)
      invariant |outs| == i && GoesOn(outs)
      invariant ServerRun(map[], msgs[..i], mems[..i], server.table.M, outs)
    {
      ghost var m := server.table.M;
      assert msgs[i] in msgs;
      var out := server.Serve(msgs[i], mems[i]);
      NextTurn(msgs, mems, i, m, outs, server.table.M, out);
      outs := outs + [out];
      if out.Overflow? {
        return;
      }
    }
  }

  lemma NextTurn(msgs: seq<Bytes>, mems: seq<ServerAlloc>, i: nat, m: Table, outs: seq<DF.Sending>,
                 m': Table, out: DF.Sending)
    requires i < |msgs| == |mems| && ServerRun(map[], msgs[..i], mems[..i], m, outs) && GoesOn(outs)
    requires ServerStep(m, msgs[i], mems[i], m', out)
    ensures ServerRun(map[], msgs[..i + 1], mems[..i + 1], m', outs + [out])
    ensures GoesOn(outs + [out]) <==> out.Sent?
  {
    hide ServerRun, ServerStep;
    RunExtends(map[], msgs[..i], mems[..i], m, outs, msgs[i], mems[i], m', out);
    TakeMore(msgs, i);
    TakeMore(mems, i);
  }

  lemma NoTurns()
    ensures ServerRun(map[], [], [], map[], []) && GoesOn([])
  {
  }
}
