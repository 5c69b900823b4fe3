/** What the dump format guarantees: exactly when a dump survives the trip, and that no other
    split of the listing would use fewer datagrams. */
module DumpTheory {
  import opened CStrings
  import opened DumpFormat

  // ---- Greedy grouping ----

  ghost predicate GroupsFit(gs: seq<seq<Pair>>, used: nat, cap: nat) {
    && gs != [] && used + Size(gs[0]) <= cap
    && forall i :: 1 <= i < |gs| ==> gs[i] != [] && Size(gs[i]) <= cap
  }

  lemma SizeAppend(a: seq<Pair>, b: seq<Pair>)
    ensures Size(a + b) == Size(a) + Size(b)
  {
    if a == [] { ConcatEmpty(b); } else { ConcatTail(a, b); }
  }

  lemma {:induction false} EncodeAppend(a: seq<Pair>, b: seq<Pair>)
    ensures Encode(a + b) == Encode(a) + Encode(b)
  {
    if a == [] {
      ConcatEmpty(b);
      ConcatEmpty(Encode(b));
    } else {
      EncodeAppend(a[1..], b);
      ConcatTail(a, b);
      ConcatAssoc(Record(a[0]), Encode(a[1..]), Encode(b));
    }
  }

  lemma {:induction false} GroupsSplit(list: seq<Pair>, group: seq<Pair>, start: nat, cap: nat)
    requires forall p <- list :: RecordSize(p) <= cap
    requires start + Size(group) <= cap
    ensures var gs := Groups(list, group, start + Size(group), cap);
            GroupsFit(gs, start, cap) && Flatten(gs) == group + list && (group != [] ==> gs[0] != [])
  {
    hide GroupsFit, RecordSize, Flatten;
    var used := start + Size(group);
    if list == [] {
      ConcatEmpty(group);
      OneGroup(group, start, cap);
    } else {
      var p, rest := list[0], list[1..];
      GroupsStep(list, group, used, cap);
      EncodeOne(p);
      assert p in list && list == [p] + rest;
      assert forall x <- rest :: x in list;
      hide Groups, Size;
      ConcatAssoc(group, [p], rest);
      if used + RecordSize(p) > cap {
        GroupsSplit(rest, [p], 0, cap);
        NewGroup(group, Groups(rest, [p], RecordSize(p), cap), start, cap);
      } else {
        SizeAppend(group, [p]);
        GroupsSplit(rest, group + [p], start, cap);
      }
    }
  }

  lemma OneGroup(group: seq<Pair>, start: nat, cap: nat)
    requires start + Size(group) <= cap
    ensures GroupsFit([group], start, cap) && Flatten([group]) == group
  {
    ConcatEmpty(group);
  }

  lemma NewGroup(group: seq<Pair>, gs: seq<seq<Pair>>, start: nat, cap: nat)
    requires GroupsFit(gs, 0, cap) && gs[0] != [] && start + Size(group) <= cap
    ensures GroupsFit([group] + gs, start, cap) && Flatten([group] + gs) == group + Flatten(gs)
  {
    hide Size;
    ConcatDrop([group], gs);
    assert forall i :: 1 <= i < |[group] + gs| ==> ([group] + gs)[i] == gs[i - 1];
  }

  // ---- Datagrams are the groups ----

  /** The datagrams that carry the given groups, the first one behind a prefix. */
  function Wire(prefix: Bytes, gs: seq<seq<Pair>>): seq<Bytes>
    requires gs != []
  {
    [Payload(prefix + Encode(gs[0]))] + Payloads(gs[1..])
  }

  function Payloads(gs: seq<seq<Pair>>): (ds: seq<Bytes>)
    ensures |ds| == |gs|
  {
    if gs == [] then [] else [Payload(Encode(gs[0]))] + Payloads(gs[1..])
  }

  lemma EncodeNonEmpty(list: seq<Pair>)
    ensures |Encode(list)| == Size(list)
    ensures list != [] ==> Encode(list) != [] && Encode(list)[|Encode(list)| - 1] == 0
  {
  }

  lemma EncodeOne(p: Pair)
    ensures Encode([p]) == Record(p) && Size([p]) == RecordSize(p)
  {
    ConcatEmpty(Record(p));
  }

  lemma {:induction false} DatagramsAreGroups(list: seq<Pair>, prefix: Bytes, group: seq<Pair>,
                                                    current: Bytes, cap: nat)
    requires current == prefix + Encode(group) && current != []
    ensures Datagrams(list, current, cap) == Wire(prefix, Groups(list, group, |current|, cap))
    decreases list
  {
    hide Encode, Record, Payload, Payloads;
    if list == [] {
      NoPayloads();
    } else {
      var p, rest := list[0], list[1..];
      EncodeOne(p);
      GroupsStep(list, group, |current|, cap);
      if |current| + RecordSize(p) > cap {
        ConcatEmpty(Record(p));
        DatagramsAreGroups(rest, [], [p], Record(p), cap);
        var gs := Groups(rest, [p], RecordSize(p), cap);
        WireAgain(prefix, group, gs);
      } else {
        hide Groups;
        EncodeAppend(group, [p]);
        ConcatAssoc(prefix, Encode(group), Record(p));
        DatagramsAreGroups(rest, prefix, group + [p], current + Record(p), cap);
      }
    }
  }

  lemma NoPayloads()
    ensures Payloads([]) == []
  {
  }

  lemma WireAgain(prefix: Bytes, group: seq<Pair>, gs: seq<seq<Pair>>)
    requires gs != []
    ensures Wire(prefix, [group] + gs) == [Payload(prefix + Encode(group))] + Wire([], gs)
  {
    ConcatDrop([group], gs);
    ConcatEmpty(Encode(gs[0]));
    assert Payloads(gs) == Wire([], gs);
  }

  lemma GroupsStep(list: seq<Pair>, group: seq<Pair>, used: nat, cap: nat)
    requires list != []
    ensures Groups(list, group, used, cap) ==
            if used + RecordSize(list[0]) > cap
            then [group] + Groups(list[1..], [list[0]], RecordSize(list[0]), cap)
            else Groups(list[1..], group + [list[0]], used + RecordSize(list[0]), cap)
  {
  }

  // ---- The header ----

  lemma CountHeader(n: nat, h: Bytes)
    requires n < 0x1_0000_0000 && |h| >= HEADER
    requires h[..3] == Header(n)[..3]
    ensures h[3] == Header(n)[3] ==> Count(h) == n
    ensures h[3] == 0 ==> Count(h) == n - n % 0x100
  {
    assert h[0] == h[..3][0] && h[1] == h[..3][1] && h[2] == h[..3][2];
  }

  // ---- Parsing what was packed ----

  ghost predicate Named(list: seq<Pair>) {
    forall p <- list :: p.key != []
  }

  lemma NextRecordFound(frame: Bytes, at: nat, p: Pair, rest: Bytes)
    requires p.key != [] && at <= |frame| && frame[at..] == Record(p) + rest
    ensures NextRecord(frame, at) == Found(p, at + RecordSize(p))
  {
    hide Until, FirstNul;
    var at' := at + |p.key| + 1;
    var more := p.value + [0] + rest;
    assert frame[at..] == p.key + ([0] + more);
    UntilTerminated(p.key, [0] + more);
    assert frame[at'..] == frame[at..][|p.key| + 1..] == more == p.value + ([0] + rest);
    UntilTerminated(p.value, [0] + rest);
  }

  /** What the scans find at a position, exactly: a record, when a key string, which must not be
      empty, and a value string both end within the buffer; an empty key at a NUL. */
  lemma NextRecordMeaning(frame: Bytes, at: nat)
    requires at <= |frame|
    ensures forall p: Pair, next: nat ::
              NextRecord(frame, at) == Found(p, next) <==>
              p.key != [] && at <= next <= |frame| && frame[at..next] == p.key + [0] + p.value + [0]
    ensures NextRecord(frame, at) == EmptyKey <==> at < |frame| && frame[at] == 0
  {
    hide Until, FirstNul;
    FirstNulSplits(frame[at..]);
    var s := NextRecord(frame, at);
    if s.Found? { FoundMeans(frame, at); }
    forall p: Pair, next: nat |
      p.key != [] && at <= next <= |frame| && frame[at..next] == p.key + [0] + p.value + [0]
      ensures s == Found(p, next)
    {
      assert next == at + RecordSize(p);
      assert frame[at..] == frame[at..next] + frame[next..];
      NextRecordFound(frame, at, p, frame[next..]);
    }
    if at < |frame| && frame[at] == 0 { FirstNulIs(frame[at..], 0); }
  }

  lemma FoundMeans(frame: Bytes, at: nat)
    requires at <= |frame| && NextRecord(frame, at).Found?
    ensures var s := NextRecord(frame, at);
            s.pair.key != [] && s.next <= |frame| && frame[at..s.next] == s.pair.key + [0] + s.pair.value + [0]
  {
    var s := NextRecord(frame, at);
    var keyLen := FirstNul(frame[at..]);
    var at' := at + keyLen + 1;
    FirstNulSplits(frame[at..]);
    FirstNulSplits(frame[at'..]);
    assert frame[at..at'] == s.pair.key + [0];
    assert frame[at'..s.next] == s.pair.value + [0];
    assert frame[at..s.next] == frame[at..at'] + frame[at'..s.next];
  }

  lemma ParseStep(frame: Bytes, at: nat)
    requires at <= |frame| && NextRecord(frame, at).Found?
    ensures var s := NextRecord(frame, at); Parse(frame, at) == Prepend([s.pair], Parse(frame, s.next))
  {
    hide NextRecord;
  }

  lemma ParseFound(frame: Bytes, at: nat, p: Pair, rest: Bytes)
    requires p.key != [] && at <= |frame| && frame[at..] == Record(p) + rest
    ensures at + RecordSize(p) <= |frame| && frame[at + RecordSize(p)..] == rest
    ensures Parse(frame, at) == Prepend([p], Parse(frame, at + RecordSize(p)))
  {
    hide Parse, NextRecord, FirstNul;
    NextRecordFound(frame, at, p, rest);
    ParseStep(frame, at);
    ConcatDrop(Record(p), rest);
    assert frame[at + RecordSize(p)..] == frame[at..][RecordSize(p)..];
  }

  lemma {:induction false} ParsePacked(frame: Bytes, at: nat, list: seq<Pair>, tail: Bytes)
    requires Named(list) && at <= |frame| && frame[at..] == Encode(list) + tail
    ensures at + Size(list) <= |frame| && frame[at + Size(list)..] == tail
    ensures Parse(frame, at) == Prepend(list, Parse(frame, at + Size(list)))
    decreases list
  {
    hide Parse;
    if list == [] {
      PrependConcat([], [], Parse(frame, at));
      ConcatEmpty(tail);
    } else {
      var p := list[0];
      ConcatAssoc(Record(p), Encode(list[1..]), tail);
      ParseFound(frame, at, p, Encode(list[1..]) + tail);
      ParsePacked(frame, at + RecordSize(p), list[1..], tail);
      PrependConcat([p], list[1..], Parse(frame, at + Size(list)));
      assert [p] + list[1..] == list;
    }
  }

  /** After the records comes either a cleared byte, which ends the scan, or only the spare
      byte, which ends it just when it is 0. */
  lemma {:induction false} ParseFrame(frame: Bytes, at: nat, list: seq<Pair>, room: nat, spare: Byte)
    requires Named(list) && at <= |frame| && frame[at..] == Encode(list) + (Zeros(room) + [spare])
    ensures Parse(frame, at) == if room == 0 && spare != 0 then None else Some(list)
  {
    hide Parse, Encode, Zeros;
    ParsePacked(frame, at, list, Zeros(room) + [spare]);
    ParseTail(frame, at + Size(list), room, spare);
    ConcatEmpty(list);
  }

  lemma ParseTail(frame: Bytes, at: nat, room: nat, spare: Byte)
    requires at <= |frame| && frame[at..] == Zeros(room) + [spare]
    ensures Parse(frame, at) == if room == 0 && spare != 0 then None else Some([])
  {
    FirstNulIs(frame[at..], if room == 0 && spare != 0 then 1 else 0);
  }

  lemma FramePacked(buffer: Bytes, spare: Byte, cap: nat)
    requires 1 <= |buffer| <= cap && buffer[|buffer| - 1] == 0
    ensures Frame(Payload(buffer), spare, cap) == buffer + (Zeros(cap - |buffer|) + [spare])
  {
  }

  // ---- Reading back ----

  ghost predicate SpareHarmless(gs: seq<seq<Pair>>, spare: Byte, cap: nat) {
    spare == 0 || forall g <- gs :: Size(g) < cap
  }

  /** The reader rebuilds the groups exactly when the announced number is reached in the last
      of them and not before. */
  lemma {:induction false} ReadGroups(gs: seq<seq<Pair>>, expected: nat, got: seq<Pair>, spare: Byte, cap: nat)
    requires forall g <- gs :: g != [] && Size(g) <= cap && Named(g)
    ensures ReadRest(Payloads(gs), expected, got, spare, cap) == Listed(got + Flatten(gs), []) <==>
            && expected <= |got| + |Flatten(gs)|
            && (gs != [] ==> SpareHarmless(gs, spare, cap)
                             && |got| + |Flatten(gs)| - |gs[|gs| - 1]| < expected)
  {
    if gs == [] {
      ConcatEmpty(got);
    } else {
      hide Encode, Parse, Frame, Payloads, Payload, Flatten, SpareHarmless, Named, Size;
      var g, rest := gs[0], gs[1..];
      assert g in gs && forall g' <- rest :: g' in gs;
      LastInFlatten(gs);
      FlattenStep(gs);
      PayloadsStep(gs);
      SpareHarmlessStep(gs, spare, cap);
      ParsePayload(g, spare, cap);
      ConcatDrop([Payload(Encode(g))], Payloads(rest));
      ReadGroups(rest, expected, got + g, spare, cap);
      ConcatAssoc(got, g, Flatten(rest));
    }
  }

  lemma SpareHarmlessStep(gs: seq<seq<Pair>>, spare: Byte, cap: nat)
    requires gs != []
    ensures SpareHarmless(gs, spare, cap) <==> (spare == 0 || Size(gs[0]) < cap) && SpareHarmless(gs[1..], spare, cap)
  {
    assert gs == [gs[0]] + gs[1..];
  }

  lemma ParsePayload(g: seq<Pair>, spare: Byte, cap: nat)
    requires g != [] && Size(g) <= cap && Named(g)
    ensures Parse(Frame(Payload(Encode(g)), spare, cap), 0) == if Size(g) == cap && spare != 0 then None else Some(g)
  {
    hide Encode, Parse, Frame;
    FramePacked(Encode(g), spare, cap);
    var frame := Frame(Payload(Encode(g)), spare, cap);
    assert frame[0..] == frame;
    ParseFrame(frame, 0, g, cap - Size(g), spare);
  }

  lemma FlattenStep<T>(ss: seq<seq<T>>)
    requires ss != []
    ensures Flatten(ss) == ss[0] + Flatten(ss[1..])
    ensures |ss| == 1 ==> Flatten(ss[1..]) == []
  {
  }

  lemma {:induction false} LastInFlatten<T>(ss: seq<seq<T>>)
    requires ss != []
    ensures |Flatten(ss)| >= |ss[|ss| - 1]|
  {
    if |ss| > 1 { LastInFlatten(ss[1..]); }
  }

  lemma {:induction false} FlattenMembers<T>(ss: seq<seq<T>>, s: seq<T>, x: T)
    requires s in ss && x in s
    ensures x in Flatten(ss)
  {
    if s != ss[0] { FlattenMembers(ss[1..], s, x); }
  }

  lemma {:induction false} ParseNamed(frame: Bytes, at: nat)
    requires at <= |frame|
    ensures Parse(frame, at).Some? ==> Named(Parse(frame, at).value)
    decreases |frame| - at
  {
    var s := NextRecord(frame, at);
    if s.Found? { ParseNamed(frame, s.next); }
  }

  lemma {:induction false} ReadNamed(datagrams: seq<Bytes>, expected: nat, got: seq<Pair>, spare: Byte, cap: nat)
    requires Named(got)
    ensures var r := ReadRest(datagrams, expected, got, spare, cap); r.Listed? ==> Named(r.pairs)
  {
    if |got| < expected && datagrams != [] {
      ParseNamed(Frame(datagrams[0], spare, cap), 0);
      var more := Parse(Frame(datagrams[0], spare, cap), 0);
      if more.Some? { ReadNamed(datagrams[1..], expected, got + more.value, spare, cap); }
    }
  }

  /** The count survives when the first record fits behind it. Otherwise the last of its four
      bytes is dropped, and the reader stops early unless the last datagram alone makes up for
      the missing part. */
  ghost predicate HeaderArrives(list: seq<Pair>, cap: nat) {
    || list == []
    || HEADER + RecordSize(list[0]) <= cap
    || var gs := Groups(list, [], HEADER, cap); |gs[|gs| - 1]| > |list| % 0x100
  }

  /** The spare byte is read exactly when some datagram fills the whole capacity. */
  ghost predicate SpareUnread(datagrams: seq<Bytes>, cap: nat) {
    forall d <- datagrams :: |d| + 1 < cap
  }

  lemma {:induction false} FirstFrame(n: nat, g: seq<Pair>, spare: Byte, cap: nat)
    requires n < 0x1_0000_0000 && HEADER + Size(g) <= cap
    requires Named(g)
    ensures var frame := Frame(Payload(Header(n) + Encode(g)), spare, cap);
            && Count(frame) == (if g == [] then n - n % 0x100 else n)
            && Parse(frame, HEADER) == if HEADER + Size(g) == cap && spare != 0 then None else Some(g)
  {
    hide Parse, Encode, Count;
    var h := if g == [] then Header(n)[..3] + [0] else Header(n);
    var room := cap - HEADER - Size(g);
    var frame := Frame(Payload(Header(n) + Encode(g)), spare, cap);
    if g != [] {
      FramePacked(Header(n) + Encode(g), spare, cap);
    }
    assert frame == h + Encode(g) + (Zeros(room) + [spare]);
    CountHeader(n, frame);
    ConcatAssoc(h, Encode(g), Zeros(room) + [spare]);
    ConcatDrop(h, Encode(g) + (Zeros(room) + [spare]));
    ParseFrame(frame, HEADER, g, room, spare);
  }

  lemma GroupsNamed(list: seq<Pair>, gs: seq<seq<Pair>>)
    requires Flatten(gs) == list && Named(list)
    ensures forall g <- gs :: Named(g)
  {
    forall g, p | g in gs && p in g ensures p.key != [] { FlattenMembers(gs, g, p); }
  }

  lemma {:induction false} PayloadSizes(gs: seq<seq<Pair>>, cap: nat)
    requires forall g <- gs :: g != []
    ensures SpareUnread(Payloads(gs), cap) <==> forall g <- gs :: Size(g) < cap
  {
    if gs != [] {
      hide Encode, Payloads;
      assert gs[0] in gs;
      EncodeNonEmpty(gs[0]);
      var d, rest := Payload(Encode(gs[0])), Payloads(gs[1..]);
      assert forall g <- gs[1..] :: g in gs;
      PayloadSizes(gs[1..], cap);
      SpareUnreadStep(d, rest, cap);
      assert gs == [gs[0]] + gs[1..];
    }
  }

  lemma SpareUnreadStep(d: Bytes, rest: seq<Bytes>, cap: nat)
    ensures SpareUnread([d] + rest, cap) <==> |d| + 1 < cap && SpareUnread(rest, cap)
  {
    if SpareUnread([d] + rest, cap) { assert d in [d] + rest; }
  }

  /** The dump round trip, with its exact condition. */
  lemma DumpRoundTrip(list: seq<Pair>, spare: Byte, cap: nat)
    requires cap >= HEADER && |list| < 0x1_0000_0000
    requires forall p <- list :: RecordSize(p) <= cap
    ensures Read(Dump(list, cap), spare, cap) == Listed(list, []) <==>
            Named(list) && HeaderArrives(list, cap) && (spare == 0 || SpareUnread(Dump(list, cap), cap))
  {
    hide Encode, Parse, Frame, Payloads, Header, ReadRest, Datagrams;
    var n := |list|;
    var gs := Groups(list, [], HEADER, cap);
    DumpGroups(list, cap);
    var g, rest := gs[0], gs[1..];
    var d := Payload(Header(n) + Encode(g));
    ConcatDrop([d], Payloads(rest));
    if Named(list) {
      hide Groups;
      GroupsNamed(list, gs);
      FirstFrame(n, g, spare, cap);
      ReadGroups(rest, if g == [] then n - n % 0x100 else n, g, spare, cap);
      SpareUnreadStep(d, Payloads(rest), cap);
      PayloadSizes(rest, cap);
      if rest != [] { LastInFlatten(rest); }
    } else {
      var frame := Frame(d, spare, cap);
      ParseNamed(frame, HEADER);
      if Parse(frame, HEADER).Some? {
        ReadNamed(Payloads(rest), Count(frame), Parse(frame, HEADER).value, spare, cap);
      }
    }
  }

  /** The datagrams of a dump are its greedy groups, the first one behind the header; that
      first group is empty only when there is nothing to send or its first record does not
      fit behind the header. */
  lemma DumpGroups(list: seq<Pair>, cap: nat)
    requires cap >= HEADER && forall p <- list :: RecordSize(p) <= cap
    ensures var gs := Groups(list, [], HEADER, cap);
            && GroupsFit(gs, HEADER, cap) && Flatten(gs) == list
            && (gs[0] == [] <==> list == [] || HEADER + RecordSize(list[0]) > cap)
            && Dump(list, cap) == Wire(Header(|list|), gs)
  {
    hide Header, Encode, Size, RecordSize, Groups, GroupsFit, Flatten, Wire, Payloads, Datagrams;
    NothingEncoded(list, Header(|list|));
    GroupsSplit(list, [], HEADER, cap);
    FirstGroup(list, cap);
    DatagramsAreGroups(list, Header(|list|), [], Header(|list|), cap);
  }

  lemma NothingEncoded(list: seq<Pair>, header: Bytes)
    ensures Size([]) == 0 && [] + list == list && header + Encode([]) == header
  {
  }

  lemma FirstGroup(list: seq<Pair>, cap: nat)
    requires forall p <- list :: RecordSize(p) <= cap
    ensures Groups(list, [], HEADER, cap)[0] == [] <==> list == [] || HEADER + RecordSize(list[0]) > cap
  {
    if list != [] && HEADER + RecordSize(list[0]) <= cap {
      hide Groups, GroupsFit, Flatten, RecordSize;
      EncodeOne(list[0]);
      GroupsSplit(list[1..], [list[0]], HEADER, cap);
      GroupsStep(list, [], HEADER, cap);
      ConcatEmpty([list[0]]);
    }
  }

  /** The case the format is meant for: every record fits behind the header of a datagram, and
      the spare byte is clear. */
  lemma DumpRoundTripWhenRecordsFit(list: seq<Pair>, cap: nat)
    requires cap >= HEADER && |list| < 0x1_0000_0000
    requires forall p <- list :: p.key != [] && HEADER + RecordSize(p) <= cap
    ensures Read(Dump(list, cap), 0, cap) == Listed(list, [])
  {
    hide Read, Dump, Groups;
    if list != [] { assert list[0] in list; }
    DumpRoundTrip(list, 0, cap);
  }

  // ---- Dumps that fail ----

  /** A dump of one pair, whose record goes into the first datagram only if it fits behind the
      header. */
  lemma DumpOne(p: Pair, cap: nat)
    ensures Dump([p], cap) == if HEADER + RecordSize(p) <= cap
                              then [Payload(Header(1) + Encode([p]))]
                              else [Payload(Header(1) + Encode([])), Payload(Record(p))]
  {
    hide Header, Encode, Record, Payload, Datagrams, RecordSize, Size;
    var h, list := Header(1), [p];
    EncodeOne(p);
    NothingEncoded(list, h);
    assert list[0..] == list && list[|list|..] == [];
    DatagramsNext(list, 0, h, cap);
    if HEADER + RecordSize(p) <= cap {
      LastDatagram(list, h + Record(p), cap);
    } else {
      LastDatagram(list, Record(p), cap);
    }
  }

  /** A pair stored under the empty key: the client waits for it in vain. */
  lemma EmptyKeyIsLost(value: CStr, spare: Byte, cap: nat)
    requires HEADER + RecordSize(Pair([], value)) <= cap
    ensures Read(Dump([Pair([], value)], cap), spare, cap) == Failed
  {
    hide Datagrams, Header, Count, Frame, Encode;
    var p, h := Pair([], value), Header(1);
    DumpOne(p, cap);
    EncodeOne(p);
    FramePacked(h + Record(p), spare, cap);
    var frame := Frame(Payload(h + Record(p)), spare, cap);
    assert frame[..HEADER] == h && frame[HEADER..][0] == Record(p)[0] == 0;
    assert frame[3] == frame[..HEADER][3];
    assert frame[..3] == frame[..HEADER][..3];
    CountHeader(1, frame);
  }

  /** A record that fits the buffer but not behind the header: the client reads the count as 0
      and stops at once, leaving the record unread. */
  lemma HeaderIsCutOff(p: Pair, spare: Byte, cap: nat)
    requires p.key != [] && RecordSize(p) <= cap < HEADER + RecordSize(p) && cap > HEADER
    ensures Read(Dump([p], cap), spare, cap) == Listed([], [Payload(Record(p))])
  {
    hide Datagrams, Header, Count, Frame, Encode, Parse, Payload, Record;
    DumpOne(p, cap);
    FirstFrame(1, [], spare, cap);
    assert [Payload(Header(1) + Encode([])), Payload(Record(p))][1..] == [Payload(Record(p))];
  }

  /** A record that exactly fills the first datagram: the client's scan runs into the spare
      byte, and past it unless that happens to be 0. */
  lemma SpareByteIsRead(p: Pair, spare: Byte, cap: nat)
    requires p.key != [] && HEADER + RecordSize(p) == cap && spare != 0
    ensures Read(Dump([p], cap), spare, cap) == Overrun
  {
    hide Datagrams, Header, Count, Frame, Encode, Parse, Payload, Record;
    DumpOne(p, cap);
    EncodeOne(p);
    FirstFrame(1, [p], spare, cap);
  }

  // ---- What is read is a part of what was sent ----

  lemma {:induction false} ReadRestPrefix(gs: seq<seq<Pair>>, expected: nat, got: seq<Pair>, spare: Byte, cap: nat)
    requires forall g <- gs :: g != [] && Size(g) <= cap && Named(g)
    ensures var r := ReadRest(Payloads(gs), expected, got, spare, cap);
            r.Listed? ==> r.pairs <= got + Flatten(gs)
  {
    if gs != [] {
      hide Encode, Parse, Frame, Payloads, Flatten, Named, Size;
      var g, rest := gs[0], gs[1..];
      assert g in gs && forall x <- rest :: x in gs;
      FlattenStep(gs);
      PayloadsStep(gs);
      ParsePayload(g, spare, cap);
      ConcatDrop([Payload(Encode(g))], Payloads(rest));
      ReadRestPrefix(rest, expected, got + g, spare, cap);
      ConcatAssoc(got, g, Flatten(rest));
    }
  }

  lemma PayloadsStep(gs: seq<seq<Pair>>)
    requires gs != []
    ensures Payloads(gs) == [Payload(Encode(gs[0]))] + Payloads(gs[1..])
  {
  }

  /** Whatever the client lists of a dump has named keys and is a leading part of a listing with
      named keys. */
  lemma ReadIsPrefix(list: seq<Pair>, spare: Byte, cap: nat)
    requires cap >= HEADER && |list| < 0x1_0000_0000
    requires forall p <- list :: RecordSize(p) <= cap
    ensures var r := Read(Dump(list, cap), spare, cap);
            r.Listed? ==> Named(r.pairs) && (Named(list) ==> r.pairs <= list)
  {
    hide Encode, Parse, Frame, Payloads, Header, ReadRest, Datagrams;
    var gs := Groups(list, [], HEADER, cap);
    DumpGroups(list, cap);
    var g, rest := gs[0], gs[1..];
    var d := Payload(Header(|list|) + Encode(g));
    ConcatDrop([d], Payloads(rest));
    hide Groups;
    var frame := Frame(d, spare, cap);
    ParseNamed(frame, HEADER);
    if Parse(frame, HEADER).Some? {
      ReadNamed(Payloads(rest), Count(frame), Parse(frame, HEADER).value, spare, cap);
      if Named(list) {
        GroupsNamed(list, gs);
        FirstFrame(|list|, g, spare, cap);
        ReadRestPrefix(rest, Count(frame), g, spare, cap);
      }
    }
  }

  // ---- Every delivery of a dump ----

  /** What becomes of the first k datagrams of the groups that are left, when all are needed. */
  function DeliveryOf(arrived: seq<Bytes>, missing: nat, list: seq<Pair>, spare: Byte, cap: nat): Outcome {
    if spare != 0 && exists d :: d in arrived && |d| + 1 >= cap then Overrun
    else if missing > 0 then Failed
    else Listed(list, [])
  }

  lemma ReadRestStep(d: Bytes, more: seq<Bytes>, expected: nat, got: seq<Pair>, spare: Byte, cap: nat)
    requires |got| < expected
    ensures ReadRest([d] + more, expected, got, spare, cap) ==
            match Parse(Frame(d, spare, cap), 0)
            case None => Overrun
            case Some(pairs) => ReadRest(more, expected, got + pairs, spare, cap)
  {
    hide Parse, Frame;
    ConcatDrop([d], more);
  }

  lemma ReadRestDone(datagrams: seq<Bytes>, expected: nat, got: seq<Pair>, spare: Byte, cap: nat)
    ensures |got| >= expected ==> ReadRest(datagrams, expected, got, spare, cap) == Listed(got, datagrams)
    ensures |got| < expected ==> ReadRest([], expected, got, spare, cap) == Failed
  {
  }

  lemma {:induction false} ReadSome(gs: seq<seq<Pair>>, k: nat, got: seq<Pair>, spare: Byte, cap: nat)
    requires forall g <- gs :: g != [] && Size(g) <= cap && Named(g)
    requires k <= |gs|
    ensures ReadRest(Payloads(gs)[..k], |got| + |Flatten(gs)|, got, spare, cap) ==
            DeliveryOf(Payloads(gs)[..k], |gs| - k, got + Flatten(gs), spare, cap)
  {
    hide Encode, Parse, Frame, Payloads, Payload, Flatten, Named, Size, ReadRest;
    ReadRestDone(Payloads(gs)[..k], |got| + |Flatten(gs)|, got, spare, cap);
    if gs == [] {
      ConcatEmpty(got);
      assert Payloads(gs)[..k] == [];
    } else {
      var g, rest := gs[0], gs[1..];
      assert g in gs && forall g' <- rest :: g' in gs;
      FlattenStep(gs);
      if k == 0 {
        assert Payloads(gs)[..0] == [];
      } else {
        PayloadsStep(gs);
        PayloadLength(g);
        ParsePayload(g, spare, cap);
        var d, more := Payload(Encode(g)), Payloads(rest)[..k - 1];
        assert Payloads(gs)[..k] == [d] + more;
        ReadRestStep(d, more, |got| + |Flatten(gs)|, got, spare, cap);
        ReadSome(rest, k - 1, got + g, spare, cap);
        ConcatAssoc(got, g, Flatten(rest));
        DeliveryStep(d, more, |gs| - k, got + Flatten(gs), spare, cap);
      }
    }
  }

  lemma PayloadLength(g: seq<Pair>)
    requires g != []
    ensures |Payload(Encode(g))| + 1 == Size(g)
  {
    EncodeNonEmpty(g);
  }

  lemma DeliveryStep(d: Bytes, more: seq<Bytes>, missing: nat, list: seq<Pair>, spare: Byte, cap: nat)
    ensures DeliveryOf([d] + more, missing, list, spare, cap) ==
            if spare != 0 && |d| + 1 >= cap then Overrun else DeliveryOf(more, missing, list, spare, cap)
  {
    assert d in [d] + more;
  }

  /** The first k datagrams of a dump, none of them, some or all: the reader leaves its buffer if
      one of them fills the capacity and the spare byte is not 0; otherwise it fails if any is
      missing, and rebuilds the listing if none is. */
  lemma DumpDelivery(list: seq<Pair>, k: nat, spare: Byte, cap: nat)
    requires cap >= HEADER && |list| < 0x1_0000_0000 && Named(list)
    requires forall p <- list :: RecordSize(p) <= cap
    requires list != [] ==> HEADER + RecordSize(list[0]) <= cap
    requires k <= |Dump(list, cap)|
    ensures Read(Dump(list, cap)[..k], spare, cap) ==
            if spare != 0 && exists d :: d in Dump(list, cap)[..k] && |d| + 1 >= cap then Overrun
            else if k < |Dump(list, cap)| then Failed
            else Listed(list, [])
  {
    hide Encode, Parse, Frame, Payloads, Payload, Header, ReadRest, Datagrams, Groups, Size, RecordSize;
    var n, gs := |list|, Groups(list, [], HEADER, cap);
    DumpGroups(list, cap);
    if k > 0 {
      var g, rest := gs[0], gs[1..];
      var d, more := Payload(Header(n) + Encode(g)), Payloads(rest)[..k - 1];
      assert Dump(list, cap)[..k] == [d] + more;
      ConcatDrop([d], more);
      GroupsNamed(list, gs);
      FirstFrame(n, g, spare, cap);
      FirstLength(n, g);
      FlattenStep(gs);
      DeliveryStep(d, more, |rest| + 1 - k, list, spare, cap);
      if g == [] {
        assert list == [] && rest == [] by { OnlyEmptyGroup(gs, HEADER, cap); }
        assert more == [];
        ReadRestDone(more, 0, [], spare, cap);
      } else {
        ReadSome(rest, k - 1, g, spare, cap);
      }
    }
  }

  lemma FirstLength(n: nat, g: seq<Pair>)
    ensures |Payload(Header(n) + Encode(g))| + 1 == HEADER + Size(g) && Size([]) == 0
  {
    hide Header;
  }

  lemma OnlyEmptyGroup(gs: seq<seq<Pair>>, used: nat, cap: nat)
    requires GroupsFit(gs, used, cap) && Flatten(gs) == []
    ensures |gs| == 1
  {
    LastInFlatten(gs);
  }

  /** While any datagram of an ordinary dump is missing at the end, be it all of them, the reader
      fails; it never takes a part for the whole. */
  lemma CutShortDumpFails(list: seq<Pair>, k: nat, cap: nat)
    requires cap >= HEADER && |list| < 0x1_0000_0000
    requires forall p <- list :: p.key != [] && HEADER + RecordSize(p) <= cap
    requires k < |Dump(list, cap)|
    ensures Read(Dump(list, cap)[..k], 0, cap) == Failed
  {
    hide Read, Dump;
    if list != [] { assert list[0] in list; }
    DumpDelivery(list, k, 0, cap);
  }

  /** What is sent before an overflow: the greedy groups of the records before the first one that
      is too long, behind a header that announces all records. */
  lemma OverflowGroups(list: seq<Pair>, i: nat, cap: nat)
    requires cap >= HEADER && i < |list| && RecordSize(list[i]) > cap
    requires forall p <- list[..i] :: RecordSize(p) <= cap
    ensures var gs := Groups(list[..i], [], HEADER, cap);
            && GroupsFit(gs, HEADER, cap) && Flatten(gs) == list[..i]
            && Dumping(list, cap) == Overflow(Wire(Header(|list|), gs))
  {
    hide Header, Encode, Size, RecordSize, Groups, GroupsFit, Flatten, Wire, Payloads, Datagrams;
    FittingIs(list, i, cap);
    NothingEncoded(list[..i], Header(|list|));
    GroupsSplit(list[..i], [], HEADER, cap);
    DatagramsAreGroups(list[..i], Header(|list|), [], Header(|list|), cap);
  }

  lemma FittingIs(list: seq<Pair>, i: nat, cap: nat)
    requires i < |list| && RecordSize(list[i]) > cap && forall p <- list[..i] :: RecordSize(p) <= cap
    ensures Fitting(list, cap) == i
  {
    hide RecordSize;
    var f := Fitting(list, cap);
    if i < f { assert false; }
    if f < i { assert false; }
  }

  // ---- How many datagrams ----

  lemma {:induction false} DatagramsShort(list: seq<Pair>, current: Bytes, cap: nat)
    requires current != [] && |current| <= cap && forall p <- list :: RecordSize(p) <= cap
    ensures forall d <- Datagrams(list, current, cap) :: |d| < cap
    decreases list
  {
    hide Record, RecordSize;
    if list != [] {
      var p, rest := list[0], list[1..];
      RecordLength(p);
      assert p in list && forall x <- rest :: x in list;
      if |current| + RecordSize(p) > cap {
        DatagramsShort(rest, Record(p), cap);
      } else {
        DatagramsShort(rest, current + Record(p), cap);
      }
    }
  }

  /** No datagram uses the last byte of the capacity, not even those sent before an overflow. */
  lemma DatagramsFit(list: seq<Pair>, cap: nat)
    requires cap >= HEADER
    ensures forall d <- Dumping(list, cap).datagrams :: |d| <= cap - 1
  {
    hide Datagrams, Fitting;
    DatagramsShort(list[..Fitting(list, cap)], Header(|list|), cap);
  }

  ghost predicate IsSplit(gs: seq<seq<Pair>>, list: seq<Pair>, start: nat, cap: nat) {
    && gs != [] && Flatten(gs) == list && start + Size(gs[0]) <= cap
    && forall i :: 1 <= i < |gs| ==> Size(gs[i]) <= cap
  }

  function NumGroups(list: seq<Pair>, used: nat, cap: nat): nat {
    if list == [] then 1
    else if used + RecordSize(list[0]) > cap then 1 + NumGroups(list[1..], RecordSize(list[0]), cap)
    else NumGroups(list[1..], used + RecordSize(list[0]), cap)
  }

  lemma {:induction false} NumGroupsCounts(list: seq<Pair>, group: seq<Pair>, used: nat, cap: nat)
    ensures |Groups(list, group, used, cap)| == NumGroups(list, used, cap)
    decreases list
  {
    if list == [] {
    } else if used + RecordSize(list[0]) > cap {
      NumGroupsCounts(list[1..], [list[0]], RecordSize(list[0]), cap);
    } else {
      NumGroupsCounts(list[1..], group + [list[0]], used + RecordSize(list[0]), cap);
    }
  }

  /** A fuller start costs at most one datagram more. */
  lemma {:induction false} NumGroupsMonotone(list: seq<Pair>, less: nat, more: nat, cap: nat)
    requires less <= more
    ensures NumGroups(list, less, cap) <= NumGroups(list, more, cap) <= 1 + NumGroups(list, less, cap)
    decreases list
  {
    if list != [] {
      var l := RecordSize(list[0]);
      if more + l <= cap {
        NumGroupsMonotone(list[1..], less + l, more + l, cap);
      } else if less + l <= cap {
        NumGroupsMonotone(list[1..], l, less + l, cap);
      }
    }
  }

  lemma {:induction false} GreedyStaysAhead(list: seq<Pair>, gs: seq<seq<Pair>>, start: nat, cap: nat)
    requires forall p <- list :: RecordSize(p) <= cap
    requires IsSplit(gs, list, start, cap)
    ensures NumGroups(list, start, cap) <= |gs|
    decreases |list| + |gs|
  {
    if list != [] {
      if gs[0] == [] {
        var rest := gs[1..];
        ConcatEmpty(Flatten(rest));
        GreedyStaysAhead(list, rest, 0, cap);
        NumGroupsMonotone(list, 0, start, cap);
      } else {
        var p, shorter := list[0], [gs[0][1..]] + gs[1..];
        ConcatTail(gs[0], Flatten(gs[1..]));
        assert shorter[1..] == gs[1..] && Flatten(shorter) == list[1..];
        GreedyStaysAhead(list[1..], shorter, start + RecordSize(p), cap);
      }
    }
  }

  /** No way to cut the same listing, in order, into datagrams of the same capacity behind the
      same header uses fewer datagrams than the server does. */
  lemma GreedyOptimal(list: seq<Pair>, gs: seq<seq<Pair>>, cap: nat)
    requires cap >= HEADER && forall p <- list :: RecordSize(p) <= cap
    requires IsSplit(gs, list, HEADER, cap)
    ensures |Dump(list, cap)| <= |gs|
  {
    hide Dump, Encode, Payloads;
    DumpGroups(list, cap);
    NumGroupsCounts(list, [], HEADER, cap);
    GreedyStaysAhead(list, gs, HEADER, cap);
  }
}
