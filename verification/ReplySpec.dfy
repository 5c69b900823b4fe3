/** What a get makes of the replies it receives: the counting rule of `network_get`, its exact
    meaning, and when it does not depend on the order of arrival. */
module ReplySpec {
  import opened CStrings

  /** The outcome of one `recv`: nothing within the timeout, or a datagram. */
  datatype Recv = Timeout | Received(msg: Bytes)

  /** Neither a timeout nor the one-byte reply for a missing key. */
  predicate Good(r: Recv) {
    r.Received? && r.msg != [0]
  }

  /** The string a reply leaves in the zero-filled receive buffer. */
  function Text(r: Recv): CStr {
    match r
    case Timeout => []
    case Received(msg) => Until(msg)
  }

  /** A reply that fills the receive buffer without a NUL: as a string it does not end there. */
  predicate Unterminated(r: Recv) {
    r.Received? && FirstNul(r.msg) >= MAX_MSG_SIZE
  }

  function Texts(recvs: seq<Recv>): (vs: seq<CStr>)
    ensures |vs| == |recvs|
  {
    seq(|recvs|, i requires 0 <= i < |recvs| => Text(recvs[i]))
  }

  /** How often a value occurs. */
  function Count(vs: seq<CStr>, v: CStr): nat {
    multiset(vs)[v]
  }

  datatype GetState = Pending | Found(value: CStr) | Failed

  /** The state of a get that waits for n replies, after the given receives: it stops at the
      first reply that is not good, and when a value has occurred `needed` times. */
  function Progress(recvs: seq<Recv>, n: nat, needed: nat): GetState {
    if recvs == [] then (if n == 0 then Failed else Pending)
    else
      var before, last := Progress(recvs[..|recvs| - 1], n, needed), recvs[|recvs| - 1];
      if before != Pending then before
      else if !Good(last) then Failed
      else if Count(Texts(recvs), Text(last)) >= needed then Found(Text(last))
      else if |recvs| >= n then Failed
      else Pending
  }

  /** The counter of a value is one signed byte: incremented past 127 it turns into a huge
      unsigned number, so 128 equal replies always pass for enough. */
  function Effective(r: nat): nat {
    if r <= 128 then r else 128
  }

  // ---- The exact meaning ----

  /** The strings of the leading run of good replies. */
  function GoodRun(recvs: seq<Recv>): (run: seq<CStr>)
    ensures |run| <= |recvs|
    ensures forall i :: 0 <= i < |run| ==> Good(recvs[i]) && run[i] == Text(recvs[i])
    ensures |run| < |recvs| ==> !Good(recvs[|run|])
  {
    if recvs == [] then []
    else
      var before, last := GoodRun(recvs[..|recvs| - 1]), recvs[|recvs| - 1];
      if |before| == |recvs| - 1 && Good(last) then before + [Text(last)] else before
  }

  /** The value at position i occurs there for at least the r-th time. */
  predicate Reaches(vs: seq<CStr>, i: nat, r: nat) {
    i < |vs| && Count(vs[..i + 1], vs[i]) >= r
  }

  /** Position i is the first at which some value has occurred r times. */
  ghost predicate FirstToReach(vs: seq<CStr>, i: nat, r: nat) {
    Reaches(vs, i, r) && forall j: nat :: j < i ==> !Reaches(vs, j, r)
  }

  function FirstReach(vs: seq<CStr>, r: nat): (f: Option<nat>)
    ensures f.Some? ==> f.value < |vs|
  {
    if vs == [] then None
    else
      var last := |vs| - 1;
      var before := FirstReach(vs[..last], r);
      if before.Some? then before else if Count(vs, vs[last]) >= r then Some(last) else None
  }

  lemma ReachesPrefix(vs: seq<CStr>, r: nat)
    requires vs != []
    ensures forall j: nat :: j < |vs| - 1 ==> (Reaches(vs[..|vs| - 1], j, r) <==> Reaches(vs, j, r))
    ensures Reaches(vs, |vs| - 1, r) <==> Count(vs, vs[|vs| - 1]) >= r
  {
    var front := vs[..|vs| - 1];
    forall j: nat | j < |vs| - 1 ensures Reaches(front, j, r) <==> Reaches(vs, j, r) {
      assert front[..j + 1] == vs[..j + 1];
    }
    assert vs[..|vs|] == vs;
  }

  lemma {:induction false} FirstReachMeaning(vs: seq<CStr>, r: nat)
    ensures var f := FirstReach(vs, r);
            if f.Some? then FirstToReach(vs, f.value, r) else forall j: nat :: !Reaches(vs, j, r)
  {
    if vs != [] {
      var last := |vs| - 1;
      FirstReachMeaning(vs[..last], r);
      ReachesPrefix(vs, r);
      assert forall j: nat :: Reaches(vs, j, r) ==> j <= last;
      hide Reaches, Count;
    }
  }

  lemma FirstReachIs(vs: seq<CStr>, i: nat, r: nat)
    requires FirstToReach(vs, i, r)
    ensures FirstReach(vs, r) == Some(i)
  {
    hide Reaches;
    FirstReachMeaning(vs, r);
  }

  /** The state of a get, from the run of good replies alone. */
  lemma {:induction false} ProgressFromRun(recvs: seq<Recv>, n: nat, r: nat)
    requires |recvs| <= n && n > 0
    ensures Progress(recvs, n, r) ==
            match FirstReach(GoodRun(recvs), r)
            case Some(i) => Found(GoodRun(recvs)[i])
            case None => if |GoodRun(recvs)| < |recvs| || |recvs| == n then Failed else Pending
  {
    if recvs != [] {
      hide Count, Good, GoodRun, Texts, Text;
      var last := |recvs| - 1;
      ProgressFromRun(recvs[..last], n, r);
      GoodRunStep(recvs);
    }
  }

  lemma GoodRunStep(recvs: seq<Recv>)
    requires recvs != []
    ensures var last := |recvs| - 1;
            var run, before := GoodRun(recvs), GoodRun(recvs[..last]);
            && |before| <= last
            && if |before| == last && Good(recvs[last])
               then run != [] && run == Texts(recvs) && run[..last] == before && run[last] == Text(recvs[last])
               else run == before
  {
    hide Good, Text;
    var last := |recvs| - 1;
    var run, before := GoodRun(recvs), GoodRun(recvs[..last]);
    if |before| == last && Good(recvs[last]) {
      assert run == before + [Text(recvs[last])];
      assert forall i :: 0 <= i < |run| ==> run[i] == Texts(recvs)[i];
    }
  }

  /** v is the first value to occur r times within the leading run of good replies. */
  ghost predicate FirstValue(recvs: seq<Recv>, v: CStr, r: nat) {
    exists i: nat :: FirstToReach(GoodRun(recvs), i, r) && GoodRun(recvs)[i] == v
  }

  /** The exact meaning of get: with n receives it returns v exactly when v is the first value
      to occur r times within the leading run of good replies, and fails when none does. */
  lemma GetMeaning(recvs: seq<Recv>, n: nat, r: nat)
    requires 0 < n == |recvs|
    ensures forall v :: FirstValue(recvs, v, r) <==> Progress(recvs, n, r) == Found(v)
    ensures Progress(recvs, n, r) == Failed <==> forall v :: !FirstValue(recvs, v, r)
  {
    hide Progress, GoodRun, Reaches, FirstReach;
    ProgressFromRun(recvs, n, r);
    var run := GoodRun(recvs);
    FirstReachMeaning(run, r);
    if FirstReach(run, r).Some? {
      assert FirstValue(recvs, run[FirstReach(run, r).value], r);
    }
  }

  /** Once decided, a get stays decided. */
  lemma {:induction false} ProgressSticks(recvs: seq<Recv>, t: nat, n: nat, r: nat)
    requires t <= |recvs| && Progress(recvs[..t], n, r) != Pending
    ensures Progress(recvs, n, r) == Progress(recvs[..t], n, r)
  {
    if t < |recvs| {
      var last := |recvs| - 1;
      assert recvs[..last][..t] == recvs[..t];
      ProgressSticks(recvs[..last], t, n, r);
    } else {
      assert recvs[..t] == recvs;
    }
  }

  // ---- The one-byte counter ----

  function Copies(n: nat, v: CStr): (s: seq<CStr>)
    ensures |s| == n
    ensures forall i :: 0 <= i < n ==> s[i] == v
  {
    seq(n, _ => v)
  }

  function Timeouts(n: nat): (s: seq<Recv>)
    ensures |s| == n
    ensures forall i :: 0 <= i < n ==> s[i] == Timeout
  {
    seq(n, _ => Timeout)
  }

  lemma {:induction false} CopiesCount(n: nat, v: CStr)
    ensures multiset(Copies(n, v)) == multiset{}[v := n]
  {
    if n > 0 {
      CopiesCount(n - 1, v);
      assert Copies(n, v) == Copies(n - 1, v) + [v];
    }
  }

  /** Receives that all bring the value v, up to as many as decide. */
  lemma {:induction false} SameValue(recvs: seq<Recv>, v: CStr, n: nat, needed: nat)
    requires |recvs| <= needed <= n && 0 < needed && v != [0]
    requires forall i :: 0 <= i < |recvs| ==> recvs[i] == Received(v)
    ensures Progress(recvs, n, needed) == if |recvs| == needed then Found(v) else Pending
  {
    hide Count;
    if recvs != [] {
      var last := |recvs| - 1;
      SameValue(recvs[..last], v, n, needed);
      SameTexts(recvs, v);
    }
  }

  lemma SameTexts(recvs: seq<Recv>, v: CStr)
    requires forall i :: 0 <= i < |recvs| ==> recvs[i] == Received(v)
    ensures Text(Received(v)) == v && Count(Texts(recvs), v) == |recvs|
  {
    ConcatEmpty(v);
    UntilTerminated(v, []);
    assert Texts(recvs) == Copies(|recvs|, v);
    CopiesCount(|recvs|, v);
  }

  /** A run that starts with r copies of v, and no fewer decide it, finds v. */
  lemma CopiesReach(n: nat, v: CStr, rest: seq<CStr>, r: nat)
    requires 0 < r <= n
    ensures FirstToReach(Copies(n, v) + rest, r - 1, r)
  {
    var vs := Copies(n, v) + rest;
    forall i: nat | i < n ensures Count(vs[..i + 1], vs[i]) == i + 1 {
      assert vs[..i + 1] == Copies(i + 1, v);
      CopiesCount(i + 1, v);
    }
  }

  ghost predicate AllGood(recvs: seq<Recv>) {
    forall i :: 0 <= i < |recvs| ==> Good(recvs[i])
  }

  /** The value is that of the last reply, everything received was good, and the value has
      occurred often enough. */
  ghost predicate Supported(recvs: seq<Recv>, v: CStr, needed: nat) {
    recvs != [] && AllGood(recvs) && v == Text(recvs[|recvs| - 1]) && Count(Texts(recvs), v) >= needed
  }

  /** The states a get may be in after the given receives when its allocations may fail: it then
      counts less than it could, or cannot copy the value out, but it never returns a value that
      is not supported and never waits past a bad reply or past n replies. */
  ghost predicate GetMay(recvs: seq<Recv>, n: nat, needed: nat, state: GetState) {
    match state
    case Pending => |recvs| < n && AllGood(recvs)
    case Found(v) => Supported(recvs, v, needed)
    case Failed =>
      && recvs != [] && AllGood(recvs[..|recvs| - 1])
      && var last := recvs[|recvs| - 1];
         !Good(last) || |recvs| >= n || Supported(recvs, Text(last), needed)
  }

  lemma {:induction false} PendingIsGood(recvs: seq<Recv>, n: nat, needed: nat)
    requires Progress(recvs, n, needed) == Pending
    ensures AllGood(recvs) && (recvs != [] ==> |recvs| < n)
  {
    if recvs != [] {
      var last := |recvs| - 1;
      PendingIsGood(recvs[..last], n, needed);
      assert forall i :: 0 <= i < last ==> recvs[..last][i] == recvs[i];
    }
  }

  /** Without failed allocations a get takes the state of the receive loop, and that is allowed. */
  lemma ProgressMay(recvs: seq<Recv>, n: nat, needed: nat)
    requires 0 < |recvs| <= n && Progress(recvs[..|recvs| - 1], n, needed) == Pending
    ensures GetMay(recvs, n, needed, Progress(recvs, n, needed))
  {
    hide Count, Good, Text;
    var last := |recvs| - 1;
    PendingIsGood(recvs[..last], n, needed);
    assert forall i :: 0 <= i < last ==> recvs[..last][i] == recvs[i];
  }

  function Replies(vs: seq<CStr>): (recvs: seq<Recv>)
    ensures |recvs| == |vs|
  {
    seq(|vs|, i requires 0 <= i < |vs| => Received(vs[i]))
  }

  /** Good replies followed by timeouts. */
  lemma RepliesRun(vs: seq<CStr>, m: nat)
    requires [0] !in vs
    ensures AllGood(Replies(vs)) && Texts(Replies(vs)) == vs
    ensures GoodRun(Replies(vs) + Timeouts(m)) == vs
  {
    var recvs := Replies(vs) + Timeouts(m);
    forall i | 0 <= i < |vs| ensures Good(recvs[i]) && Text(recvs[i]) == vs[i] {
      ConcatEmpty(vs[i]);
      UntilTerminated(vs[i], []);
      assert vs[i] in vs;
    }
    assert forall i :: 0 <= i < |vs| ==> Replies(vs)[i] == recvs[i];
    assert m > 0 ==> !Good(recvs[|vs|]);
    assert |GoodRun(recvs)| == |vs|;
  }

  /** r copies of v at the front decide a get. */
  lemma CopiesWin(m: nat, v: CStr, rest: seq<CStr>, k: nat, n: nat, r: nat)
    requires 0 < r <= m && m + |rest| + k == n && v != [0] && [0] !in rest
    ensures Progress(Replies(Copies(m, v) + rest) + Timeouts(k), n, r) == Found(v)
  {
    hide Progress, GoodRun, Replies, FirstToReach;
    var vs := Copies(m, v) + rest;
    RepliesRun(vs, k);
    CopiesReach(m, v, rest, r);
    FirstReachIs(vs, r - 1, r);
    ProgressFromRun(Replies(vs) + Timeouts(k), n, r);
  }

  /** A client that needs r equal replies out of n counts correctly on every run of replies
      exactly when r is at most 128. */
  lemma CounterBound(n: nat, r: nat)
    requires 1 <= r <= n
    ensures (forall recvs: seq<Recv> :: |recvs| == n ==> Progress(recvs, n, Effective(r)) == Progress(recvs, n, r))
            <==> r <= 128
  {
    hide Progress;
    if r > 128 {
      var recvs := CounterOverflows(n, r);
    }
  }

  /** 128 equal replies, and then none. */
  lemma CounterOverflows(n: nat, r: nat) returns (recvs: seq<Recv>)
    requires 128 < r <= n
    ensures |recvs| == n && Progress(recvs, n, 128) == Found([1]) && Progress(recvs, n, r) == Failed
  {
    hide Progress, GoodRun, Count, Replies;
    var vs := Copies(128, [1]);
    recvs := Replies(vs) + Timeouts(n - 128);
    ConcatEmpty(vs);
    CopiesWin(128, [1], [], n - 128, n, 128);
    RepliesRun(vs, n - 128);
    ProgressFromRun(recvs, n, r);
    FirstReachMeaning(vs, r);
    forall j: nat ensures !Reaches(vs, j, r) {
      if j < |vs| { CountBound(vs[..j + 1], vs[j]); }
    }
  }

  lemma CountBound(vs: seq<CStr>, v: CStr)
    ensures Count(vs, v) <= |vs|
  {
    assert multiset(vs)[v] <= |multiset(vs)|;
  }

  // ---- Order of arrival ----

  /** With all replies good, a value can only be returned if it occurs r times in all of them,
      and some value is returned if one does. */
  lemma FoundOccurs(recvs: seq<Recv>, n: nat, r: nat)
    requires 0 < n == |recvs| && AllGood(recvs)
    ensures Progress(recvs, n, r).Found? ==> Count(Texts(recvs), Progress(recvs, n, r).value) >= r
    ensures Progress(recvs, n, r).Found?
            || (Progress(recvs, n, r) == Failed && forall v :: v in Texts(recvs) ==> Count(Texts(recvs), v) < r)
  {
    hide *;
    ProgressFromRun(recvs, n, r);
    AllGoodRun(recvs);
    FirstReachCounts(GoodRun(recvs), r);
  }

  lemma AllGoodRun(recvs: seq<Recv>)
    requires AllGood(recvs)
    ensures GoodRun(recvs) == Texts(recvs)
  {
    var run := GoodRun(recvs);
    assert |run| == |recvs|;
    assert forall i :: 0 <= i < |run| ==> run[i] == Texts(recvs)[i];
  }

  lemma FirstReachCounts(vs: seq<CStr>, r: nat)
    ensures var f := FirstReach(vs, r);
            if f.Some? then Count(vs, vs[f.value]) >= r else forall v :: v in vs ==> Count(vs, v) < r
  {
    hide Count, FirstReach;
    FirstReachMeaning(vs, r);
    var f := FirstReach(vs, r);
    if f.Some? {
      CountPrefix(vs, f.value + 1, vs[f.value]);
    } else {
      forall v | v in vs ensures Count(vs, v) < r {
        var j := LastOccurrence(vs, v);
        assert !Reaches(vs, j, r);
      }
    }
  }

  lemma CountPrefix(vs: seq<CStr>, t: nat, v: CStr)
    requires t <= |vs|
    ensures Count(vs[..t], v) <= Count(vs, v)
  {
    assert vs == vs[..t] + vs[t..];
  }

  lemma {:induction false} LastOccurrence(vs: seq<CStr>, v: CStr) returns (j: nat)
    requires v in vs
    ensures j < |vs| && vs[j] == v && Count(vs[..j + 1], v) == Count(vs, v)
  {
    var last := |vs| - 1;
    assert vs == vs[..last] + [vs[last]] == vs[..last + 1];
    if vs[last] == v {
      j := last;
    } else {
      j := LastOccurrence(vs[..last], v);
      assert vs[..last][..j + 1] == vs[..j + 1];
    }
  }

  lemma TwoValues(vs: seq<CStr>, v: CStr, w: CStr)
    requires v != w
    ensures Count(vs, v) + Count(vs, w) <= |vs|
  {
    var m := multiset(vs);
    var sub := multiset{}[v := m[v]][w := m[w]];
    assert m == sub + (m - sub);
  }

  lemma MajorityIsUnique(recvs: seq<Recv>, recvs': seq<Recv>, n: nat, r: nat)
    requires 0 < n == |recvs| == |recvs'| && AllGood(recvs) && AllGood(recvs') && n < 2 * r
    requires multiset(Texts(recvs)) == multiset(Texts(recvs'))
    ensures Progress(recvs, n, r) == Progress(recvs', n, r)
  {
    hide Progress;
    FoundOccurs(recvs, n, r);
    FoundOccurs(recvs', n, r);
    var p, p' := Progress(recvs, n, r), Progress(recvs', n, r);
    var vs, vs' := Texts(recvs), Texts(recvs');
    assert |multiset(vs)| == n;
    if p.Found? {
      assert p.value in multiset(vs);
      assert p.value in vs';
    }
    if p'.Found? {
      assert p'.value in multiset(vs');
      assert p'.value in vs;
    }
    if p.Found? && p'.Found? && p != p' { TwoValues(vs, p.value, p'.value); }
  }

  /** The same n good replies give the same result in every order of arrival. */
  ghost predicate OrderFree(n: nat, r: nat) {
    forall recvs, recvs': seq<Recv> :: SameReplies(recvs, recvs', n) ==> Progress(recvs, n, r) == Progress(recvs', n, r)
  }

  ghost predicate SameReplies(recvs: seq<Recv>, recvs': seq<Recv>, n: nat) {
    && |recvs| == |recvs'| == n && AllGood(recvs) && AllGood(recvs')
    && multiset(Texts(recvs)) == multiset(Texts(recvs'))
  }

  /** With an unbounded counter the order of good replies never matters exactly when r is a
      majority of n. */
  lemma MajorityDecides(n: nat, r: nat)
    requires 1 <= r <= n
    ensures OrderFree(n, r) <==> n < 2 * r
  {
    hide Progress, AllGood, Texts;
    if n < 2 * r {
      forall recvs, recvs': seq<Recv> | SameReplies(recvs, recvs', n)
        ensures Progress(recvs, n, r) == Progress(recvs', n, r)
      {
        MajorityIsUnique(recvs, recvs', n, r);
      }
    } else {
      var recvs, recvs' := TwoQuorums(n, r);
      assert SameReplies(recvs, recvs', n);
    }
  }

  /** The order of arrival of good replies never matters to a get exactly when the number of
      copies it really waits for is a majority of n. */
  lemma OrderIndependence(n: nat, r: nat)
    requires 1 <= r <= n
    ensures OrderFree(n, Effective(r)) <==> n < 2 * Effective(r)
  {
    MajorityDecides(n, Effective(r));
  }

  /** Replies of which two values have enough copies, in two orders. */
  lemma TwoQuorums(n: nat, r: nat) returns (recvs: seq<Recv>, recvs': seq<Recv>)
    requires 1 <= r && 2 * r <= n
    ensures |recvs| == |recvs'| == n && AllGood(recvs) && AllGood(recvs')
    ensures multiset(Texts(recvs)) == multiset(Texts(recvs'))
    ensures Progress(recvs, n, r) == Found([1]) && Progress(recvs', n, r) == Found([2])
  {
    hide Progress, AllGood, Texts;
    var ones, twos := Copies(r, [1]), Copies(n - r, [2]);
    recvs := GoodReplies(r, [1], twos, n, r);
    recvs' := GoodReplies(n - r, [2], ones, n, r);
    assert multiset(ones + twos) == multiset(ones) + multiset(twos) == multiset(twos + ones);
  }

  lemma GoodReplies(m: nat, v: CStr, rest: seq<CStr>, n: nat, r: nat) returns (recvs: seq<Recv>)
    requires 0 < r <= m && m + |rest| == n && v != [0] && [0] !in rest
    ensures |recvs| == n && AllGood(recvs) && Texts(recvs) == Copies(m, v) + rest
    ensures Progress(recvs, n, r) == Found(v)
  {
    hide Progress, GoodRun, Replies, AllGood, Texts;
    var vs := Copies(m, v) + rest;
    recvs := Replies(vs);
    RepliesRun(vs, 0);
    CopiesWin(m, v, rest, 0, n, r);
    ConcatEmpty(recvs);
    assert Timeouts(0) == [];
  }

  // ---- Acknowledgements of a put ----

  datatype PutState = Waiting | Stored | Refused

  /** The state of a put that waits for w acknowledgements from n servers: any datagram counts
      as one, and the first timeout ends it. */
  function PutProgress(recvs: seq<Recv>, n: nat, w: nat): PutState {
    if recvs == [] then (if n == 0 then Refused else Waiting)
    else
      var before, last := PutProgress(recvs[..|recvs| - 1], n, w), recvs[|recvs| - 1];
      if before != Waiting then before
      else if last.Timeout? then Refused
      else if |recvs| >= w then Stored
      else if |recvs| >= n then Refused
      else Waiting
  }

  /** A put succeeds exactly when its first w receives all brought a datagram. */
  lemma {:induction false} PutMeaning(recvs: seq<Recv>, n: nat, w: nat)
    requires |recvs| <= n && 1 <= w <= n
    ensures PutProgress(recvs, n, w) == Stored <==> w <= |recvs| && forall i :: 0 <= i < w ==> recvs[i].Received?
    ensures PutProgress(recvs, n, w) == Waiting <==> |recvs| < w && forall i :: 0 <= i < |recvs| ==> recvs[i].Received?
  {
    if recvs != [] {
      var last := |recvs| - 1;
      var front := recvs[..last];
      PutMeaning(front, n, w);
      assert forall i :: 0 <= i < last ==> front[i] == recvs[i];
    }
  }
}
