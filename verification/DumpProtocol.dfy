/** The two loops of the dump protocol, on real buffers: the server's packing loop
    (done/pps-launch-server.c) and the client's reading loop (done/pps-dump-node.c). */
module DumpProtocol {
  import opened CStrings
  import opened DumpFormat

  /** Writes one record at position `at`: the two `strcpy` calls of the packing loop. */
  method AppendRecord(msg: array<Byte>, at: nat, p: Pair)
    requires at + RecordSize(p) <= msg.Length
    modifies msg
    ensures msg[..at + |p.key| + |p.value| + 2] == old(msg[..at]) + (p.key + [0] + p.value + [0])
  {
    var keyLen := |p.key| + 1;
    StrCpy(msg, at, p.key);
    assert msg[..at + keyLen] == old(msg[..at]) + (p.key + [0]);
    StrCpy(msg, at + keyLen, p.value);
    assert msg[..at + RecordSize(p)] == msg[..at + keyLen] + (p.value + [0]);
    assert old(msg[..at]) + (p.key + [0]) + (p.value + [0]) == old(msg[..at]) + (p.key + [0] + p.value + [0]);
  }

  /** One turn of the packing loop, with `at` bytes in the buffer: what is there is sent when the
      record does not fit behind it. Not ok: the record does not fit even then, and copying it
      would leave the buffer. */
  method PackRecord(msg: array<Byte>, at: nat, p: Pair, sent: seq<Bytes>)
    returns (ok: bool, at': nat, sent': seq<Bytes>)
    requires 1 <= at <= msg.Length
    modifies msg
    ensures 1 <= at' <= msg.Length && (ok <==> RecordSize(p) <= msg.Length)
    ensures at + RecordSize(p) <= msg.Length ==>
              sent' == sent && msg[..at'] == old(msg[..at]) + (p.key + [0] + p.value + [0])
    ensures at + RecordSize(p) > msg.Length ==> sent' == sent + [old(msg[..at - 1])]
    ensures at + RecordSize(p) > msg.Length && ok ==> msg[..at'] == p.key + [0] + p.value + [0]
  {
    at', sent' := at, sent;
    var keyLen, valueLen := |p.key| + 1, |p.value| + 1;
    if at' + keyLen + valueLen > msg.Length {
      sent' := sent' + [msg[..at' - 1]];
      Clear(msg, msg.Length);
      at' := 0;
      ConcatEmpty(p.key + [0] + p.value + [0]);
    }
    if at' + keyLen + valueLen > msg.Length {
      return false, at, sent';
    }
    AppendRecord(msg, at', p);
    at' := at' + keyLen + valueLen;
    ok := true;
  }

  /** Packs the listing into datagrams through one buffer of `cap` bytes, up to the first record
      that does not fit it even alone. */
  method SendDump(list: seq<Pair>, cap: nat) returns (out: Sending)
    requires cap >= HEADER
    ensures out == Dumping(list, cap)
    ensures out.Overflow? <==> exists p :: p in list && RecordSize(p) > cap
    ensures out.Sent? ==> out.datagrams == Dump(list, cap)
  {
    hide Datagrams, Record, Payload, Fitting, Dump, RecordSize, Header;
    ghost var fit, header := list[..Fitting(list, cap)], Header(|list|);
    DumpingMeaning(list, cap);
    var msg := new Byte[cap](_ => 0);
    StoreHeader(msg, |list|);
    var currentSize := HEADER;
    var sent: seq<Bytes> := [];
    for i := 0 to |list|
      invariant 1 <= currentSize <= cap && i <= |fit|
      invariant sent + Datagrams(fit[i..], msg[..currentSize], cap) == Datagrams(fit, header, cap)
    {
      if i == |fit| {
        LastDatagram(fit, msg[..currentSize], cap);
      } else {
        assert fit[i] in fit && fit[i] == list[i];
        DatagramsStep(fit, i, msg[..currentSize], cap, sent);
      }
      RecordIs(list[i]);
      PayloadIs(msg[..], currentSize);
      var ok;
      ok, currentSize, sent := PackRecord(msg, currentSize, list[i], sent);
      if !ok {
        return Overflow(sent);
      }
    }
    LastDatagram(fit, msg[..currentSize], cap);
    PayloadIs(msg[..], currentSize);
    out := Sent(sent + [msg[..currentSize - 1]]);
  }

  /** The count, in front of the first records. */
  method StoreHeader(msg: array<Byte>, n: nat)
    requires msg.Length >= HEADER
    modifies msg
    ensures msg[..HEADER] == Header(n)
  {
    hide Header;
    var header := Header(n);
    msg[0], msg[1], msg[2], msg[3] := header[0], header[1], header[2], header[3];
  }

  lemma RecordIs(p: Pair)
    ensures Record(p) == p.key + [0] + p.value + [0] && |Record(p)| == RecordSize(p) == |p.key| + |p.value| + 2
  {
  }

  lemma PayloadIs(buffer: Bytes, n: nat)
    requires 1 <= n <= |buffer|
    ensures Payload(buffer[..n]) == buffer[..n - 1]
  {
  }

  /** One `recv` into the reader's buffer, after clearing all of it but the spare byte. */
  method Receive(ans: array<Byte>, datagram: Bytes, cap: nat)
    requires ans.Length == cap + 1
    modifies ans
    ensures ans[cap] == old(ans[cap])
    ensures forall i :: 0 <= i < cap ==> ans[i] == if i < |datagram| then datagram[i] else 0
    ensures ans[..] == Frame(datagram, old(ans[cap]), cap)
  {
    Clear(ans, cap);
    var len := if |datagram| <= cap then |datagram| else cap;
    ghost var cleared := ans[..];
    CopyIn(ans, datagram, len);
    assert ans[..] == ans[..len] + ans[len..] == datagram[..len] + cleared[len..];
    assert cleared[len..] == Zeros(cap - len) + [old(ans[cap])];
    ConcatAssoc(datagram[..len], Zeros(cap - len), [old(ans[cap])]);
  }

  /** The string scans of one turn of the inner loop. */
  method ReadRecord(ans: array<Byte>, at: nat) returns (s: Scan)
    requires at <= ans.Length
    ensures s == NextRecord(ans[..], at)
  {
    var keyLen := StrLen(ans, at);
    if at + keyLen == ans.Length {
      return OffEnd;
    }
    if keyLen == 0 {
      return EmptyKey;
    }
    var at' := at + keyLen + 1;
    var valueLen := StrLen(ans, at');
    if at' + valueLen == ans.Length {
      return OffEnd;
    }
    s := Found(Pair(Until(ans[..][at..]), Until(ans[..][at'..])), at' + valueLen + 1);
  }

  /** The inner loop: copies key and value strings out of the buffer until an empty key. */
  method ReadRecords(ans: array<Byte>, start: nat) returns (pairs: Option<seq<Pair>>)
    requires start <= ans.Length
    ensures pairs == Parse(ans[..], start)
  {
    var found: seq<Pair> := [];
    PrependConcat([], [], Parse(ans[..], start));
    var s := ReadRecord(ans, start);
    ghost var at := start;
    while s.Found?
      invariant at <= ans.Length && s == NextRecord(ans[..], at)
      invariant Parse(ans[..], start) == Prepend(found, Parse(ans[..], at))
      decreases ans.Length - at
    {
      PrependConcat(found, [s.pair], Parse(ans[..], s.next));
      found := found + [s.pair];
      at := s.next;
      s := ReadRecord(ans, s.next);
    }
    assert found + [] == found;
    pairs := if s.OffEnd? then None else Some(found);
  }

  /** Rebuilds the listing from the datagrams that arrive, in order. `spare` is what the
      uninitialised byte after the buffer happens to hold. */
  method ReadDump(arriving: seq<Bytes>, spare: Byte, cap: nat) returns (r: Outcome)
    requires cap >= HEADER
    ensures r == Read(arriving, spare, cap)
  {
    var ans := new Byte[cap + 1];
    ans[cap] := spare;
    var pairs: seq<Pair> := [];
    var expected: nat := 0;
    var count: int := -1;
    var next := 0;
    while count < expected
      invariant 0 <= next <= |arriving| && ans[cap] == spare
      invariant if count == -1 then pairs == [] else count == |pairs|
      invariant Read(arriving, spare, cap) == Resume(arriving[next..], count, expected, pairs, spare, cap)
      decreases |arriving| - next
    {
      if next == |arriving| {
        return Failed;
      }
      ResumeStep(arriving, next, count, expected, pairs, spare, cap);
      Receive(ans, arriving[next], cap);
      next := next + 1;
      var current := 0;
      if count == -1 {
        expected := Count(ans[..]);
        current := HEADER;
        count := count + 1;
      }
      var more := ReadRecords(ans, current);
      if more.None? {
        return Overrun;
      }
      pairs := pairs + more.value;
      count := count + |more.value|;
    }
    return Listed(pairs, arriving[next..]);
  }
}
