/** Option parsing (done/args.c): how a client fixes N, R and W. */
module Args {
  import opened CStrings

  type CInt = x: int | -0x8000_0000 <= x < 0x8000_0000

  /** `sscanf(s, "%d", ...)`: library code; None when nothing could be converted. */
  type Scan = CStr -> Option<CInt>

  datatype ArgsT = ArgsT(N: nat, R: nat, W: nat)

  /** The supported options, as a set of flags. */
  datatype Supported = Supported(totalServers: bool, getNeeded: bool, putNeeded: bool)

  datatype Flag = FlagN | FlagR | FlagW

  const DASH_N: CStr := [45, 110]
  const DASH_R: CStr := [45, 114]
  const DASH_W: CStr := [45, 119]
  const DASH_DASH: CStr := [45, 45]

  const BASE_N: nat := 3
  const BASE_W: nat := 2
  const BASE_R: nat := 2

  predicate Any(supported: Supported) {
    supported.totalServers || supported.getNeeded || supported.putNeeded
  }

  function FlagOf(arg: CStr, supported: Supported): Option<Flag> {
    if arg == DASH_N && supported.totalServers then Some(FlagN)
    else if arg == DASH_R && supported.getNeeded then Some(FlagR)
    else if arg == DASH_W && supported.putNeeded then Some(FlagW)
    else None
  }

  // ---- The accepted argument lists ----

  /** One of "-n", "-r" and "-w", where that is supported. */
  predicate IsOption(arg: CStr, supported: Supported) {
    || (arg == [45, 110] && supported.totalServers)
    || (arg == [45, 114] && supported.getNeeded)
    || (arg == [45, 119] && supported.putNeeded)
  }

  /** Option and number number i of an argument list. */
  function OptionAt(argv: seq<CStr>, i: nat): CStr
    requires 2 * i < |argv|
  {
    argv[2 * i]
  }

  function NumberAt(argv: seq<CStr>, scan: Scan, i: nat): int
    requires 2 * i + 1 < |argv|
  {
    var n := scan(argv[2 * i + 1]);
    if n.Some? then n.value else 0
  }

  /** The first m pairs of arguments are different options with positive numbers. */
  ghost predicate ReadSoFar(argv: seq<CStr>, supported: Supported, scan: Scan, m: nat) {
    && 2 * m <= |argv|
    && (forall i: nat :: i < m ==> IsOption(OptionAt(argv, i), supported) && NumberAt(argv, scan, i) > 0)
    && (forall i: nat, j: nat :: i < j < m ==> OptionAt(argv, i) != OptionAt(argv, j))
  }

  /** No option follows the first m pairs. */
  ghost predicate Stops(argv: seq<CStr>, supported: Supported, m: nat) {
    2 * m == |argv| || (2 * m < |argv| && !IsOption(OptionAt(argv, m), supported))
  }

  /** The argument lists a client accepts: m different options, each with a positive number,
      then no further option, and no given W or R above a given N. */
  ghost predicate Accepted(argv: seq<CStr>, supported: Supported, scan: Scan, m: nat) {
    && ReadSoFar(argv, supported, scan, m) && Stops(argv, supported, m)
    && forall i: nat, j: nat :: i < m && j < m && OptionAt(argv, i) == [45, 110] && OptionAt(argv, j) != [45, 110] ==>
         NumberAt(argv, scan, j) <= NumberAt(argv, scan, i)
  }

  /** The values a client then uses: what was given, and otherwise 3, 2 and 2, with N raised
      to what was asked of it and W and R lowered to N. */
  ghost predicate Fixes(argv: seq<CStr>, scan: Scan, m: nat, a: ArgsT)
    requires 2 * m <= |argv|
  {
    && 1 <= a.R <= a.N && 1 <= a.W <= a.N
    && (forall i: nat :: i < m && OptionAt(argv, i) == [45, 110] ==> scan(argv[2 * i + 1]) == Some(a.N))
    && (forall i: nat :: i < m && OptionAt(argv, i) == [45, 114] ==> scan(argv[2 * i + 1]) == Some(a.R))
    && (forall i: nat :: i < m && OptionAt(argv, i) == [45, 119] ==> scan(argv[2 * i + 1]) == Some(a.W))
    && ((exists i: nat :: i < m && OptionAt(argv, i) == [45, 110]) || a.N == Max(3, Max(a.R, a.W)))
    && ((exists i: nat :: i < m && OptionAt(argv, i) == [45, 114]) || a.R == Min(2, a.N))
    && ((exists i: nat :: i < m && OptionAt(argv, i) == [45, 119]) || a.W == Min(2, a.N))
  }

  /** Where the arguments that were not read begin: after an optional "--". */
  predicate LeftAt(argv: seq<CStr>, supported: Supported, m: nat, rem: nat) {
    if supported != Supported(false, false, false) && 2 * m < |argv| && argv[2 * m] == [45, 45]
    then rem == 2 * m + 1 else rem == 2 * m
  }

  // ---- Parsing ----

  /** `go_fwd_and_parse_number`, with the position of the option: the number behind it and the
      position after that, or nothing when there is none or it is not positive. */
  method GoFwdAndParseNumber(argv: seq<CStr>, at: nat, scan: Scan) returns (num: Option<nat>, rem: nat)
    requires at < |argv|
    ensures if at + 1 < |argv| && scan(argv[at + 1]).Some? && scan(argv[at + 1]).value > 0
            then num == scan(argv[at + 1]) && rem == at + 2 else num == None
  {
    rem := at + 1;
    if rem == |argv| {
      return None, rem;
    }
    var n := scan(argv[rem]);
    if n.None? || n.value <= 0 {
      return None, rem;
    }
    rem := rem + 1;
    num := Some(n.value);
  }

  /** What the loop knows of one option: whether it was among the first m, and its value. */
  ghost predicate Tracks(argv: seq<CStr>, scan: Scan, m: nat, option: CStr, mod: bool, value: nat, base: nat)
    requires 2 * m <= |argv|
  {
    if mod then exists i: nat :: i < m && OptionAt(argv, i) == option && scan(argv[2 * i + 1]) == Some(value)
    else value == base && forall i: nat :: i < m ==> OptionAt(argv, i) != option
  }

  /** A next option extends what was read, if its number is good and it is new; otherwise the
      list is not acceptable. */
  lemma NextOption(argv: seq<CStr>, supported: Supported, scan: Scan, m: nat)
    requires ReadSoFar(argv, supported, scan, m) && 2 * m < |argv| && IsOption(OptionAt(argv, m), supported)
    ensures (2 * m + 1 < |argv| && NumberAt(argv, scan, m) > 0
             && forall i: nat :: i < m ==> OptionAt(argv, i) != OptionAt(argv, m))
            <==> ReadSoFar(argv, supported, scan, m + 1)
    ensures !ReadSoFar(argv, supported, scan, m + 1) ==> forall m': nat :: !Accepted(argv, supported, scan, m')
  {
    forall m': nat | Accepted(argv, supported, scan, m') ensures ReadSoFar(argv, supported, scan, m + 1) {
      OnlyAfter(argv, supported, scan, m, m');
    }
  }

  lemma OnlyAfter(argv: seq<CStr>, supported: Supported, scan: Scan, m: nat, m': nat)
    requires ReadSoFar(argv, supported, scan, m) && Accepted(argv, supported, scan, m')
    ensures m <= m'
    ensures m < m' <==> 2 * m < |argv| && IsOption(OptionAt(argv, m), supported)
  {
  }

  /** Only one number of options can be read. */
  lemma OnlyStop(argv: seq<CStr>, supported: Supported, scan: Scan, m: nat)
    requires ReadSoFar(argv, supported, scan, m) && Stops(argv, supported, m)
    ensures forall m': nat :: Accepted(argv, supported, scan, m') ==> m' == m
  {
    forall m': nat | Accepted(argv, supported, scan, m') ensures m' == m {
      OnlyAfter(argv, supported, scan, m, m');
    }
  }

  lemma NothingRead(argv: seq<CStr>, supported: Supported, scan: Scan)
    ensures ReadSoFar(argv, supported, scan, 0)
    ensures Tracks(argv, scan, 0, [45, 110], false, BASE_N, 3)
    ensures Tracks(argv, scan, 0, [45, 114], false, BASE_R, 2)
    ensures Tracks(argv, scan, 0, [45, 119], false, BASE_W, 2)
  {
  }

  lemma FlagMeaning(arg: CStr, supported: Supported)
    ensures var flag := FlagOf(arg, supported);
            && (flag.Some? <==> IsOption(arg, supported))
            && (flag == Some(FlagN) ==> arg == [45, 110])
            && (flag == Some(FlagR) ==> arg == [45, 114])
            && (flag == Some(FlagW) ==> arg == [45, 119])
  {
  }

  lemma AtPair(argv: seq<CStr>, scan: Scan, m: nat)
    requires 2 * m < |argv|
    ensures OptionAt(argv, m) == argv[2 * m]
    ensures 2 * m + 1 < |argv| ==>
            (NumberAt(argv, scan, m) > 0 <==> scan(argv[2 * m + 1]).Some? && scan(argv[2 * m + 1]).value > 0)
  {
  }

  /** A number without a good value, or an option for the second time. */
  lemma NotReadable(argv: seq<CStr>, supported: Supported, scan: Scan, m: nat)
    requires ReadSoFar(argv, supported, scan, m) && 2 * m < |argv| && IsOption(OptionAt(argv, m), supported)
    requires 2 * m + 1 < |argv| && NumberAt(argv, scan, m) > 0 ==>
             exists i: nat :: i < m && OptionAt(argv, i) == OptionAt(argv, m)
    ensures forall m': nat :: !Accepted(argv, supported, scan, m')
  {
    hide IsOption, OptionAt, NumberAt, Accepted;
    NextOption(argv, supported, scan, m);
  }

  lemma Repeated(argv: seq<CStr>, supported: Supported, scan: Scan, m: nat, option: CStr, value: nat, base: nat)
    requires ReadSoFar(argv, supported, scan, m) && 2 * m < |argv| && IsOption(OptionAt(argv, m), supported)
    requires Tracks(argv, scan, m, option, true, value, base) && OptionAt(argv, m) == option
    ensures forall m': nat :: !Accepted(argv, supported, scan, m')
  {
    hide IsOption, OptionAt, NumberAt, Accepted, ReadSoFar;
    NotReadable(argv, supported, scan, m);
  }

  /** What is known of an option after it was read for the first time. */
  lemma NewOption(argv: seq<CStr>, supported: Supported, scan: Scan, m: nat, option: CStr, before: nat, base: nat,
                  value: nat)
    requires ReadSoFar(argv, supported, scan, m) && 2 * m + 1 < |argv| && IsOption(OptionAt(argv, m), supported)
    requires Tracks(argv, scan, m, option, false, before, base) && OptionAt(argv, m) == option
    requires scan(argv[2 * m + 1]) == Some(value) && value > 0
    ensures ReadSoFar(argv, supported, scan, m + 1)
    ensures Tracks(argv, scan, m + 1, option, true, value, base)
  {
    hide IsOption;
  }

  lemma OtherOption(argv: seq<CStr>, scan: Scan, m: nat, option: CStr, mod: bool, value: nat, base: nat)
    requires 2 * m + 1 < |argv| && OptionAt(argv, m) != option
    requires Tracks(argv, scan, m, option, mod, value, base)
    ensures Tracks(argv, scan, m + 1, option, mod, value, base)
  {
  }

  /** A given W or R above a given N. */
  lemma Rejected(argv: seq<CStr>, supported: Supported, scan: Scan, m: nat, N: nat, option: CStr, value: nat, base: nat)
    requires ReadSoFar(argv, supported, scan, m) && Stops(argv, supported, m)
    requires Tracks(argv, scan, m, [45, 110], true, N, 3) && Tracks(argv, scan, m, option, true, value, base)
    requires option != [45, 110] && value > N
    ensures forall m': nat :: !Accepted(argv, supported, scan, m')
  {
    hide IsOption, Stops;
    OnlyStop(argv, supported, scan, m);
    var i: nat :| i < m && OptionAt(argv, i) == [45, 110] && scan(argv[2 * i + 1]) == Some(N);
    var j: nat :| j < m && OptionAt(argv, j) == option && scan(argv[2 * j + 1]) == Some(value);
    assert NumberAt(argv, scan, i) == N && NumberAt(argv, scan, j) == value;
  }

  /** An option that was read stands at one place only. */
  lemma OnePlace(argv: seq<CStr>, supported: Supported, scan: Scan, m: nat, option: CStr, value: nat, base: nat)
    requires ReadSoFar(argv, supported, scan, m) && Tracks(argv, scan, m, option, true, value, base)
    ensures value > 0
    ensures exists i: nat :: i < m && OptionAt(argv, i) == option
    ensures forall i: nat :: i < m && OptionAt(argv, i) == option ==>
                             scan(argv[2 * i + 1]) == Some(value) && NumberAt(argv, scan, i) == value
  {
    hide IsOption;
    var k: nat :| k < m && OptionAt(argv, k) == option && scan(argv[2 * k + 1]) == Some(value);
    assert NumberAt(argv, scan, k) == value;
    forall i: nat | i < m && OptionAt(argv, i) == option ensures i == k {
      if i < k { assert false; }
      if k < i { assert false; }
    }
  }

  /** The values that result from what was read: those given, or 3, 2 and 2. */
  lemma Settled(argv: seq<CStr>, supported: Supported, scan: Scan, m: nat, nMod: bool, N: nat, rMod: bool, R: nat,
                wMod: bool, W: nat, a: ArgsT)
    requires ReadSoFar(argv, supported, scan, m) && Stops(argv, supported, m)
    requires Tracks(argv, scan, m, [45, 110], nMod, N, 3)
    requires Tracks(argv, scan, m, [45, 114], rMod, R, 2)
    requires Tracks(argv, scan, m, [45, 119], wMod, W, 2)
    requires nMod ==> (rMod ==> R <= N) && (wMod ==> W <= N)
    requires a == if nMod then ArgsT(N, Min(N, R), Min(N, W)) else ArgsT(Max(N, Max(R, W)), R, W)
    ensures Accepted(argv, supported, scan, m) && Fixes(argv, scan, m, a)
  {
    if nMod { OnePlace(argv, supported, scan, m, [45, 110], N, 3); }
    if rMod { OnePlace(argv, supported, scan, m, [45, 114], R, 2); }
    if wMod { OnePlace(argv, supported, scan, m, [45, 119], W, 2); }
    forall j: nat | j < m && nMod && OptionAt(argv, j) != [45, 110] ensures NumberAt(argv, scan, j) <= N {
      assert IsOption(OptionAt(argv, j), supported);
    }
  }

  /** An option that was not given keeps its default. */
  lemma Default(argv: seq<CStr>, scan: Scan, m: nat, option: CStr, mod: bool, value: nat, base: nat)
    requires 2 * m <= |argv| && Tracks(argv, scan, m, option, mod, value, base)
    ensures !mod ==> value == base
  {
  }

  lemma Ended(argv: seq<CStr>, supported: Supported, m: nat)
    requires 2 * m <= |argv|
    requires !Any(supported) || 2 * m == |argv| || !IsOption(argv[2 * m], supported)
    ensures Stops(argv, supported, m)
  {
  }

  lemma LeftMeaning(argv: seq<CStr>, supported: Supported, m: nat)
    requires 2 * m <= |argv|
    ensures LeftAt(argv, supported, m,
                   if Any(supported) && 2 * m < |argv| && argv[2 * m] == DASH_DASH then 2 * m + 1 else 2 * m)
  {
  }

  /** `parse_opt_args`: the values, and the position `*rem_argv` is left at. */
  method ParseOptArgs(supported: Supported, argv: seq<CStr>, scan: Scan) returns (r: Option<ArgsT>, rem: nat)
    ensures r.Some? <==> exists m: nat :: Accepted(argv, supported, scan, m)
    ensures forall m: nat :: r.Some? && Accepted(argv, supported, scan, m) ==>
                        Fixes(argv, scan, m, r.value) && LeftAt(argv, supported, m, rem)
  {
    hide *;
    var N, W, R := BASE_N, BASE_W, BASE_R;
    var nMod, wMod, rMod := false, false, false;
    ghost var m := 0;
    rem := 0;
    r := None;
    NothingRead(argv, supported, scan);
    while Any(supported) && rem < |argv|
      invariant rem == 2 * m <= |argv| && ReadSoFar(argv, supported, scan, m)
      invariant Tracks(argv, scan, m, [45, 110], nMod, N, 3)
      invariant Tracks(argv, scan, m, [45, 114], rMod, R, 2)
      invariant Tracks(argv, scan, m, [45, 119], wMod, W, 2)
      decreases |argv| - rem
    {
      var flag := FlagOf(argv[rem], supported);
      FlagMeaning(argv[rem], supported);
      AtPair(argv, scan, m);
      if flag.None? {
        break;
      }
      var num;
      num, rem := GoFwdAndParseNumber(argv, rem, scan);
      if num.None? {
        NotReadable(argv, supported, scan, m);
        return;
      }
      match flag.value {
        case FlagN =>
          if nMod { Repeated(argv, supported, scan, m, [45, 110], N, 3); return; }
          NewOption(argv, supported, scan, m, [45, 110], N, 3, num.value);
          OtherOption(argv, scan, m, [45, 114], rMod, R, 2);
          OtherOption(argv, scan, m, [45, 119], wMod, W, 2);
          N, nMod := num.value, true;
        case FlagR =>
          if rMod { Repeated(argv, supported, scan, m, [45, 114], R, 2); return; }
          NewOption(argv, supported, scan, m, [45, 114], R, 2, num.value);
          OtherOption(argv, scan, m, [45, 110], nMod, N, 3);
          OtherOption(argv, scan, m, [45, 119], wMod, W, 2);
          R, rMod := num.value, true;
        case FlagW =>
          if wMod { Repeated(argv, supported, scan, m, [45, 119], W, 2); return; }
          NewOption(argv, supported, scan, m, [45, 119], W, 2, num.value);
          OtherOption(argv, scan, m, [45, 110], nMod, N, 3);
          OtherOption(argv, scan, m, [45, 114], rMod, R, 2);
          W, wMod := num.value, true;
      }
      m := m + 1;
    }
    Ended(argv, supported, m);
    OnlyStop(argv, supported, scan, m);
    LeftMeaning(argv, supported, m);
    ghost var n, get, put := N, R, W;
    Default(argv, scan, m, [45, 110], nMod, N, 3);
    Default(argv, scan, m, [45, 114], rMod, R, 2);
    Default(argv, scan, m, [45, 119], wMod, W, 2);
    if Any(supported) && rem < |argv| && argv[rem] == DASH_DASH {
      rem := rem + 1;
    }
    if nMod {
      if wMod && W > N {
        Rejected(argv, supported, scan, m, N, [45, 119], W, 2);
        return;
      }
      W := Min(N, W);
      if rMod && R > N {
        Rejected(argv, supported, scan, m, N, [45, 114], R, 2);
        return;
      }
      R := Min(N, R);
    } else {
      if wMod && rMod {
        N := Max(N, Max(R, W));
      } else if wMod {
        N := Max(N, W);
      } else if rMod {
        N := Max(N, R);
      }
    }
    r := Some(ArgsT(N, R, W));
    Smaller(n, get, put);
    Settled(argv, supported, scan, m, nMod, n, rMod, get, wMod, put, r.value);
  }

  lemma Smaller(N: nat, R: nat, W: nat)
    ensures Max(N, R) == (if N > R then N else R) && Max(N, W) == (if N > W then N else W)
    ensures Max(R, W) == (if R > W then R else W)
    ensures Max(N, Max(R, W)) == if N > R && N > W then N else if R > W then R else W
  {
  }

  /** With no option at all. */
  lemma DefaultValues(a: ArgsT, argv: seq<CStr>, scan: Scan)
    requires Fixes(argv, scan, 0, a)
    ensures a.N == 3 && a.R == 2 && a.W == 2
  {
  }

  /** With neither W nor R given, the quorums a client ends up with overlap exactly for N up to
      3: parsing alone does not make W + R exceed N. */
  lemma DefaultQuorumsOverlap(a: ArgsT, argv: seq<CStr>, scan: Scan, m: nat)
    requires 2 * m <= |argv| && Fixes(argv, scan, m, a)
    requires forall i: nat :: i < m ==> OptionAt(argv, i) == [45, 110]
    ensures a.W + a.R > a.N <==> a.N <= 3
  {
  }
}
