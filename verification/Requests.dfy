/** The four requests of the protocol, how clients encode them, and how the server tells them
    apart (done/network.c, done/pps-launch-server.c). */
module Requests {
  import opened CStrings

  datatype Request = Ping | DumpTable | Get(key: CStr) | Put(key: CStr, value: CStr)

  /** What clients send. */
  function Encode(r: Request): Bytes {
    match r
    case Ping => []
    case DumpTable => [0]
    case Get(key) => key
    case Put(key, value) => key + [0] + value
  }

  /** What a message means: everything up to the first NUL is a key, and a non-empty string
      after it, or nothing at all after it, makes the message a put. */
  function Meaning(msg: Bytes): Request {
    if msg == [] then Ping
    else if msg == [0] then DumpTable
    else
      var key := Until(msg);
      if |key| == |msg| then Get(key)
      else if |key| + 1 == |msg| then Put(key, [])
      else
        var value := Until(msg[|key| + 1..]);
        if value == [] then Get(key) else Put(key, value)
  }

  /** A request the server cannot mistake for another: get needs a key, and put a key or a
      value. */
  predicate Unmistakable(r: Request) {
    match r
    case Ping => true
    case DumpTable => true
    case Get(key) => key != []
    case Put(key, value) => key != [] || value != []
  }

  lemma MeaningOfPut(key: CStr, value: CStr)
    requires key != [] || value != []
    ensures Meaning(key + [0] + value) == Put(key, value)
  {
    var msg := key + [0] + value;
    assert msg == key + ([0] + value);
    UntilTerminated(key, [0] + value);
    assert msg[|key| + 1..] == value + [];
    UntilTerminated(value, []);
    assert msg != [0] by { assert |msg| == 1 + |key| + |value|; }
  }

  lemma MeaningOfGet(key: CStr)
    requires key != []
    ensures Meaning(key) == Get(key)
  {
    assert key == key + [];
    UntilTerminated(key, []);
    assert key[0] in key;
  }

  /** The server understands a client's message as it was meant, exactly when the request is
      unmistakable; a get of the empty key is a ping, and a put of nothing under the empty key
      is a dump request. */
  lemma RequestRoundTrip(r: Request)
    ensures Meaning(Encode(r)) == r <==> Unmistakable(r)
  {
    match r
    case Get(key) => if key != [] { MeaningOfGet(key); }
    case Put(key, value) =>
      if key != [] || value != [] {
        MeaningOfPut(key, value);
      } else {
        assert Encode(r) == [0];
      }
    case _ =>
  }

  /** No two unmistakable requests are encoded alike. */
  lemma EncodingsDiffer(r: Request, s: Request)
    requires Unmistakable(r) && Unmistakable(s) && Encode(r) == Encode(s)
    ensures r == s
  {
    RequestRoundTrip(r);
    RequestRoundTrip(s);
  }

  /** What every message means, by its bytes alone. Nothing is a ping and one NUL a dump request. A
      get is a key alone, or a key, two NULs and anything. A put is a key, a NUL and a value, after
      which, unless the value is empty, there may be a NUL and anything. */
  lemma MeaningByShape(msg: Bytes)
    ensures Meaning(msg) == Ping <==> msg == []
    ensures Meaning(msg) == DumpTable <==> msg == [0]
    ensures forall key: CStr :: Meaning(msg) == Get(key) <==> (msg == key && key != []) || key + [0, 0] <= msg
    ensures forall key: CStr, value: CStr ::
              Meaning(msg) == Put(key, value) <==>
              (msg == key + [0] + value && msg != [0]) || (value != [] && key + [0] + value + [0] <= msg)
  {
    hide Until, FirstNul;
    FirstNulSplits(msg);
    forall key: CStr | (msg == key && key != []) || key + [0, 0] <= msg ensures Meaning(msg) == Get(key) {
      GetShape(msg, key);
    }
    forall key: CStr, value: CStr |
      (msg == key + [0] + value && msg != [0]) || (value != [] && key + [0] + value + [0] <= msg)
      ensures Meaning(msg) == Put(key, value)
    {
      PutShape(msg, key, value);
    }
    if msg != [] && msg != [0] { ShapeOf(msg); }
  }

  lemma GetShape(msg: Bytes, key: CStr)
    requires (msg == key && key != []) || key + [0, 0] <= msg
    ensures Meaning(msg) == Get(key)
  {
    if msg == key && key != [] {
      MeaningOfGet(key);
    } else {
      var rest := msg[|key|..];
      assert msg == key + rest && rest[0] == msg[|key|] == 0 && rest[1] == msg[|key| + 1] == 0;
      UntilTerminated(key, rest);
      assert msg[|key| + 1..] == [] + rest[1..];
      UntilTerminated([], rest[1..]);
    }
  }

  lemma PutShape(msg: Bytes, key: CStr, value: CStr)
    requires (msg == key + [0] + value && msg != [0]) || (value != [] && key + [0] + value + [0] <= msg)
    ensures Meaning(msg) == Put(key, value)
  {
    if msg == key + [0] + value && msg != [0] {
      assert key == [] && value == [] ==> msg == [0];
      MeaningOfPut(key, value);
    } else {
      var rest := msg[|key| + 1 + |value|..];
      assert msg == key + ([0] + value + rest) && rest[0] == (key + [0] + value + [0])[|key| + 1 + |value|];
      UntilTerminated(key, [0] + value + rest);
      assert msg[|key| + 1..] == value + rest;
      UntilTerminated(value, rest);
    }
  }

  lemma ShapeOf(msg: Bytes)
    requires msg != [] && msg != [0]
    ensures match Meaning(msg)
            case Get(key) => (msg == key && key != []) || key + [0, 0] <= msg
            case Put(key, value) => msg == key + [0] + value || (value != [] && key + [0] + value + [0] <= msg)
            case _ => false
  {
    var key := Until(msg);
    FirstNulSplits(msg);
    if |key| == |msg| {
      assert msg == key;
    } else {
      assert msg[..|key| + 1] == key + [0];
      if |key| + 1 == |msg| {
        assert msg == key + [0] + [];
      } else {
        var more := msg[|key| + 1..];
        var value := Until(more);
        FirstNulSplits(more);
        assert msg == key + [0] + more;
        if value == [] {
          assert more[0] == 0;
          assert msg[..|key| + 2] == key + [0, 0];
        } else if |value| < |more| {
          assert more[..|value| + 1] == value + [0];
          assert msg[..|key| + 1 + |value| + 1] == key + [0] + (value + [0]) == key + [0] + value + [0];
        } else {
          assert more == value;
        }
      }
    }
  }

  /** What the server stores fits a record of one byte more than the message. */
  lemma PutFits(msg: Bytes)
    requires Meaning(msg).Put?
    ensures var r := Meaning(msg); |r.key| + |r.value| + 1 <= |msg|
  {
  }

  // ---- On the receive buffer ----

  /** `memchr(buffer, 0, n)`: -1 stands for NULL. */
  method MemChrNul(buffer: array<Byte>, n: nat) returns (at: int)
    requires n <= buffer.Length
    ensures at == if FirstNul(buffer[..n]) < n then FirstNul(buffer[..n]) else -1
  {
    at := 0;
    while at < n && buffer[at] != 0
      invariant 0 <= at <= n
      invariant forall i :: 0 <= i < at ==> buffer[..n][i] != 0
    {
      at := at + 1;
    }
    FirstNulIs(buffer[..n], at);
    if at == n {
      at := -1;
    }
  }

  /** A zero-filled buffer holds the received bytes followed by zeros only. */
  ghost predicate Buffers(buffer: array<Byte>, msg: Bytes)
    reads buffer
  {
    && |msg| < buffer.Length && buffer[..|msg|] == msg
    && forall i :: |msg| <= i < buffer.Length ==> buffer[i] == 0
  }

  lemma NulWithin(buffer: Bytes, msg: Bytes, from: nat)
    requires from <= |msg| < |buffer| && buffer[..|msg|] == msg && buffer[|msg|] == 0
    ensures FirstNul(buffer[from..]) == FirstNul(msg[from..])
    ensures Until(buffer[from..]) == Until(msg[from..])
  {
    var z := FirstNul(msg[from..]);
    FirstNulSplits(msg[from..]);
    forall i | 0 <= i < z ensures buffer[from..][i] != 0 {
      assert buffer[from + i] == msg[from + i] == msg[from..][..z][i];
    }
    if from + z < |msg| { assert buffer[from + z] == msg[from + z] == msg[from..][z]; }
    FirstNulIs(buffer[from..], z);
    assert buffer[from..][..z] == msg[from..][..z];
  }

  lemma MeaningByScans(msg: Bytes)
    ensures var z := FirstNul(msg);
            Meaning(msg) ==
            if msg == [] then Ping
            else if msg == [0] then DumpTable
            else if z == |msg| then Get(Until(msg))
            else if z + 1 == |msg| then Put(Until(msg), [])
            else if FirstNul(msg[z + 1..]) == 0 then Get(Until(msg))
            else Put(Until(msg), Until(msg[z + 1..]))
  {
    hide FirstNul, Until;
  }

  /** The server's classification, on its buffer. */
  method Classify(buffer: array<Byte>, len: nat, ghost msg: Bytes) returns (r: Request)
    requires Buffers(buffer, msg) && len == |msg|
    ensures r == Meaning(msg)
  {
    hide Until, FirstNul, Meaning;
    MeaningByScans(msg);
    assert buffer[..len] == msg;
    FirstNulSplits(msg);
    var val := MemChrNul(buffer, len);
    var valLen := 0;
    NulWithin(buffer[..], msg, 0);
    assert buffer[..][0..] == buffer[..] && msg[0..] == msg;
    if val != -1 {
      var keyLen := StrLen(buffer, 0);
      if keyLen + 1 == len {
        valLen := 1;
      } else {
        val := val + 1;
        NulWithin(buffer[..], msg, val);
        valLen := StrLen(buffer, val);
      }
    }
    var key := Until(buffer[..]);
    if len == 0 {
      r := Ping;
    } else if len == 1 && buffer[0] == 0 {
      assert msg == [buffer[..len][0]];
      r := DumpTable;
    } else if val == -1 || valLen == 0 {
      assert msg[0] == buffer[0];
      r := Get(key);
    } else {
      assert msg[0] == buffer[0];
      UntilNul(buffer[..][val..]);
      r := Put(key, Until(buffer[..][val..]));
    }
  }

  lemma UntilNul(s: Bytes)
    ensures s != [] && s[0] == 0 ==> Until(s) == []
  {
  }
}
