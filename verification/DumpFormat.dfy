/** The dump wire format as functions on values: how a table listing becomes datagrams, and
    what a client makes of the datagrams it receives.

    Everything is stated for any datagram capacity `cap`; the program uses MAX_MSG_SIZE. */
module DumpFormat {
  import opened CStrings

  const HEADER: nat := 4

  /** `htonl((uint32_t) n)`. */
  function Header(n: nat): (h: Bytes)
    ensures |h| == HEADER
  {
    var high := n / 0x100;
    var higher := high / 0x100;
    [higher / 0x100 % 0x100, higher % 0x100, high % 0x100, n % 0x100]
  }

  /** The most significant byte comes first. */
  lemma HeaderBytes(n: nat)
    ensures var h := Header(n);
            && |h| == 4
            && h[0] == n / 0x100_0000 % 0x100 && h[1] == n / 0x1_0000 % 0x100
            && h[2] == n / 0x100 % 0x100 && h[3] == n % 0x100
  {
    DivTwice(n);
    DivTwice(n / 0x100);
    DivThrice(n);
  }

  lemma DivTwice(n: nat)
    ensures n / 0x100 / 0x100 == n / 0x1_0000
  {
  }

  lemma DivThrice(n: nat)
    ensures n / 0x100 / 0x1_0000 == n / 0x100_0000
  {
  }

  /** `ntohl` of the first four bytes. */
  function Count(h: Bytes): nat
    requires |h| >= HEADER
  {
    var a: int, b: int, c: int, d: int := h[0], h[1], h[2], h[3];
    ((a * 0x100 + b) * 0x100 + c) * 0x100 + d
  }

  /** `key\0value\0`. */
  function Record(p: Pair): Bytes {
    p.key + [0] + p.value + [0]
  }

  function RecordSize(p: Pair): nat {
    |p.key| + |p.value| + 2
  }

  lemma RecordLength(p: Pair)
    ensures |Record(p)| == RecordSize(p) >= 2
  {
  }

  function Encode(list: seq<Pair>): (e: Bytes)
    ensures |e| == Size(list)
    ensures list != [] ==> e != [] && e[|e| - 1] == 0
  {
    if list == [] then [] else Record(list[0]) + Encode(list[1..])
  }

  function Size(list: seq<Pair>): nat {
    if list == [] then 0 else RecordSize(list[0]) + Size(list[1..])
  }

  /** What a full buffer sends: everything except its last byte. */
  function Payload(buffer: Bytes): Bytes {
    if buffer == [] then [] else buffer[..|buffer| - 1]
  }

  /** The datagrams still to be sent when the buffer holds `current` and `list` remains. */
  function Datagrams(list: seq<Pair>, current: Bytes, cap: nat): seq<Bytes>
    requires current != []
  {
    if list == [] then
      [Payload(current)]
    else if |current| + RecordSize(list[0]) > cap then
      [Payload(current)] + Datagrams(list[1..], Record(list[0]), cap)
    else
      Datagrams(list[1..], current + Record(list[0]), cap)
  }

  /** One record of the packing loop: it is appended, after a flush when it does not fit. */
  lemma DatagramsNext(list: seq<Pair>, i: nat, current: Bytes, cap: nat)
    requires i < |list| && current != []
    ensures Datagrams(list[i..], current, cap) ==
            if |current| + RecordSize(list[i]) > cap
            then [Payload(current)] + Datagrams(list[i + 1..], Record(list[i]), cap)
            else Datagrams(list[i + 1..], current + Record(list[i]), cap)
  {
    assert list[i..][1..] == list[i + 1..];
  }

  /** The same after the datagrams already sent. */
  lemma DatagramsStep(list: seq<Pair>, i: nat, current: Bytes, cap: nat, sent: seq<Bytes>)
    requires i < |list| && current != []
    ensures sent + Datagrams(list[i..], current, cap) ==
            if |current| + RecordSize(list[i]) > cap
            then sent + [Payload(current)] + Datagrams(list[i + 1..], Record(list[i]), cap)
            else sent + Datagrams(list[i + 1..], current + Record(list[i]), cap)
  {
    DatagramsNext(list, i, current, cap);
    hide Datagrams, Payload, Record, RecordSize;
    AppendAssoc(sent, Payload(current), Datagrams(list[i + 1..], Record(list[i]), cap));
  }

  lemma LastDatagram(list: seq<Pair>, current: Bytes, cap: nat)
    requires current != []
    ensures Datagrams(list[|list|..], current, cap) == [Payload(current)]
  {
  }

  /** All datagrams of one dump. */
  function Dump(list: seq<Pair>, cap: nat): seq<Bytes> {
    Datagrams(list, Header(|list|), cap)
  }

  /** How a dump ends: with all its datagrams sent, or, after those already sent, with a record
      written past the end of the buffer. */
  datatype Sending = Sent(datagrams: seq<Bytes>) | Overflow(datagrams: seq<Bytes>)

  /** The number of leading records that fit the buffer on their own. */
  function Fitting(list: seq<Pair>, cap: nat): (i: nat)
    ensures i <= |list| && (i < |list| ==> RecordSize(list[i]) > cap)
    ensures forall p <- list[..i] :: RecordSize(p) <= cap
  {
    if list == [] || RecordSize(list[0]) > cap then 0
    else
      var i := 1 + Fitting(list[1..], cap);
      assert list[..i] == [list[0]] + list[1..][..i - 1];
      i
  }

  /** What a dump does: packing goes on up to the first record that is too long for the buffer. */
  function Dumping(list: seq<Pair>, cap: nat): Sending {
    var i := Fitting(list, cap);
    var datagrams := Datagrams(list[..i], Header(|list|), cap);
    if i == |list| then Sent(datagrams) else Overflow(datagrams)
  }

  /** The buffer is overrun exactly when some record is longer than it; otherwise all datagrams
      are sent. */
  lemma DumpingMeaning(list: seq<Pair>, cap: nat)
    ensures Dumping(list, cap).Overflow? <==> exists p :: p in list && RecordSize(p) > cap
    ensures Dumping(list, cap).Sent? ==> Dumping(list, cap) == Sent(Dump(list, cap))
  {
    hide Datagrams, RecordSize;
    var i := Fitting(list, cap);
    assert i == |list| ==> list[..i] == list;
    assert i < |list| ==> list[i] in list;
  }

  /** The greedy grouping behind the datagrams: `group` is being filled and takes `used` bytes. */
  function Groups(list: seq<Pair>, group: seq<Pair>, used: nat, cap: nat): (gs: seq<seq<Pair>>)
    ensures gs != []
  {
    if list == [] then
      [group]
    else if used + RecordSize(list[0]) > cap then
      [group] + Groups(list[1..], [list[0]], RecordSize(list[0]), cap)
    else
      Groups(list[1..], group + [list[0]], used + RecordSize(list[0]), cap)
  }

  // ---- Reading ----

  /** The reader's buffer after one `recv`: zero-filled, with a spare byte the program never
      clears. */
  function Frame(datagram: Bytes, spare: Byte, cap: nat): (f: Bytes)
    ensures |f| == cap + 1
  {
    var got := if |datagram| <= cap then datagram else datagram[..cap];
    got + Zeros(cap - |got|) + [spare]
  }

  function Zeros(n: nat): (z: Bytes)
    ensures |z| == n
    ensures forall i :: 0 <= i < n ==> z[i] == 0
  {
    seq(n, _ => 0)
  }

  /** What the two string scans find at a position. OffEnd: a scan would leave the buffer. */
  datatype Scan = OffEnd | EmptyKey | Found(pair: Pair, next: nat)

  function NextRecord(frame: Bytes, at: nat): (s: Scan)
    requires at <= |frame|
    ensures s.Found? ==> at < s.next <= |frame|
  {
    var keyLen := FirstNul(frame[at..]);
    if at + keyLen == |frame| then OffEnd
    else if keyLen == 0 then EmptyKey
    else
      var at' := at + keyLen + 1;
      var valueLen := FirstNul(frame[at'..]);
      if at' + valueLen == |frame| then OffEnd
      else Found(Pair(Until(frame[at..]), Until(frame[at'..])), at' + valueLen + 1)
  }

  /** The records from position `at` up to the first empty key; None when a string scan
      would leave the buffer. */
  function Parse(frame: Bytes, at: nat): Option<seq<Pair>>
    requires at <= |frame|
    decreases |frame| - at
  {
    match NextRecord(frame, at)
    case OffEnd => None
    case EmptyKey => Some([])
    case Found(p, next) => Prepend([p], Parse(frame, next))
  }

  function Prepend(front: seq<Pair>, rest: Option<seq<Pair>>): Option<seq<Pair>> {
    if rest.None? then None else Some(front + rest.value)
  }

  lemma PrependConcat(a: seq<Pair>, b: seq<Pair>, rest: Option<seq<Pair>>)
    ensures Prepend([], rest) == rest
    ensures Prepend(a, Prepend(b, rest)) == Prepend(a + b, rest)
  {
    if rest.Some? {
      ConcatEmpty(rest.value);
      ConcatAssoc(a, b, rest.value);
    }
  }

  /** Listed: the loop ended, with the datagrams not consumed. Failed: no datagram came in
      time. Overrun: a string scan left the buffer. */
  datatype Outcome = Listed(pairs: seq<Pair>, unread: seq<Bytes>) | Failed | Overrun

  function ReadRest(datagrams: seq<Bytes>, expected: nat, got: seq<Pair>, spare: Byte, cap: nat): Outcome {
    if |got| >= expected then Listed(got, datagrams)
    else if datagrams == [] then Failed
    else
      match Parse(Frame(datagrams[0], spare, cap), 0)
      case None => Overrun
      case Some(more) => ReadRest(datagrams[1..], expected, got + more, spare, cap)
  }

  function Read(datagrams: seq<Bytes>, spare: Byte, cap: nat): Outcome
    requires cap >= HEADER
  {
    if datagrams == [] then Failed
    else
      var frame := Frame(datagrams[0], spare, cap);
      match Parse(frame, HEADER)
      case None => Overrun
      case Some(pairs) => ReadRest(datagrams[1..], Count(frame), pairs, spare, cap)
  }

  /** What the reading loop still has to produce: before the first datagram (count -1) the
      number of pairs is unknown. */
  function Resume(datagrams: seq<Bytes>, count: int, expected: nat, got: seq<Pair>, spare: Byte, cap: nat): Outcome
    requires cap >= HEADER
  {
    if count == -1 then Read(datagrams, spare, cap) else ReadRest(datagrams, expected, got, spare, cap)
  }

  /** One `recv` of the reading loop. */
  lemma ResumeStep(datagrams: seq<Bytes>, next: nat, count: int, expected: nat, got: seq<Pair>, spare: Byte, cap: nat)
    requires cap >= HEADER && next < |datagrams|
    requires if count == -1 then got == [] else count == |got| < expected
    ensures
      var frame := Frame(datagrams[next], spare, cap);
      var expected' := if count == -1 then Count(frame) else expected;
      Resume(datagrams[next..], count, expected, got, spare, cap) ==
      match Parse(frame, if count == -1 then HEADER else 0)
      case None => Overrun
      case Some(more) => Resume(datagrams[next + 1..], |got + more|, expected', got + more, spare, cap)
  {
    assert datagrams[next..][1..] == datagrams[next + 1..];
    if count == -1 {
      var more := Parse(Frame(datagrams[next], spare, cap), HEADER);
      assert more.Some? ==> [] + more.value == more.value;
    }
  }
}
