/** Nodes of the ring: digests and their `strncmp` order, server addresses, and the input that
    is hashed for a virtual node (done/node.c). */
module Nodes {
  import opened CStrings

  const SHA_DIGEST_LENGTH: nat := 20

  type Digest = s: Bytes | |s| == SHA_DIGEST_LENGTH witness seq(SHA_DIGEST_LENGTH, _ => 0)
  type IpBytes = s: Bytes | |s| == 4 witness [0, 0, 0, 0]
  type PortBytes = s: Bytes | |s| == 2 witness [0, 0]

  datatype Address = Address(ip: IpBytes, port: PortBytes)

  datatype Node = Node(address: Address, sha: Digest)

  /** Library code the model does not look into: SHA1 and `inet_pton`. */
  datatype Library = Library(sha1: Bytes -> Digest, pton: CStr -> Option<IpBytes>)

  // ---- Comparing digests ----

  /** `strncmp(a, b, n)`: bytes compare as unsigned, and nothing after a NUL is looked at. */
  function StrNCmp(a: Bytes, b: Bytes, n: nat): int
    requires n <= |a| && n <= |b|
  {
    if n == 0 then 0
    else if a[0] != b[0] then a[0] as int - b[0] as int
    else if a[0] == 0 then 0
    else StrNCmp(a[1..], b[1..], n - 1)
  }

  function NodeCmpSha(first: Node, second: Node): int {
    StrNCmp(first.sha, second.sha, SHA_DIGEST_LENGTH)
  }

  /** Lexicographic order on strings: a proper prefix, or a smaller byte at the first
      difference. */
  ghost predicate LexLess(x: Bytes, y: Bytes) {
    exists i :: DifferAt(x, y, i)
  }

  ghost predicate DifferAt(x: Bytes, y: Bytes, i: int) {
    0 <= i <= |x| && i < |y| && x[..i] == y[..i] && (i == |x| || x[i] < y[i])
  }

  lemma LexLessShift(b: Byte, x: Bytes, y: Bytes)
    ensures LexLess(x, y) <==> LexLess([b] + x, [b] + y)
  {
    hide DifferAt;
    if LexLess(x, y) {
      var i :| DifferAt(x, y, i);
      DifferShift(b, x, y, i);
    }
    if LexLess([b] + x, [b] + y) {
      var i :| DifferAt([b] + x, [b] + y, i);
      DifferShift(b, x, y, i - 1);
    }
  }

  lemma DifferShift(b: Byte, x: Bytes, y: Bytes, i: int)
    ensures DifferAt(x, y, i) <==> DifferAt([b] + x, [b] + y, i + 1)
  {
    if 0 <= i <= |x| && i < |y| {
      assert ([b] + x)[..i + 1] == [b] + x[..i] && ([b] + y)[..i + 1] == [b] + y[..i];
      ConcatDrop([b], x[..i]);
      ConcatDrop([b], y[..i]);
    }
  }

  lemma LexLessHead(x: Bytes, y: Bytes)
    requires x == [] || y == [] || x[0] != y[0]
    ensures LexLess(x, y) <==> y != [] && (x == [] || x[0] < y[0])
  {
    if y != [] && (x == [] || x[0] < y[0]) {
      assert DifferAt(x, y, 0);
    }
    if LexLess(x, y) {
      var i :| DifferAt(x, y, i);
      assert x[..i] == y[..i];
    }
  }

  /** The comparison orders the C strings the digests start with, and only those: two digests
      tie exactly when they agree up to their first NUL. */
  lemma {:induction false} StrNCmpMeaning(a: Bytes, b: Bytes, n: nat)
    requires n == |a| == |b|
    ensures StrNCmp(a, b, n) == 0 <==> Until(a) == Until(b)
    ensures StrNCmp(a, b, n) < 0 <==> LexLess(Until(a), Until(b))
  {
    if n > 0 {
      UntilStep(a);
      UntilStep(b);
      if a[0] == b[0] != 0 {
        StrNCmpMeaning(a[1..], b[1..], n - 1);
        LexLessShift(a[0], Until(a[1..]), Until(b[1..]));
      } else {
        LexLessHead(Until(a), Until(b));
      }
    }
  }

  lemma UntilStep(a: Bytes)
    requires a != []
    ensures Until(a) == if a[0] == 0 then [] else [a[0]] + Until(a[1..])
  {
  }

  /** Swapping the arguments flips the sign. */
  lemma StrNCmpFlips(a: Bytes, b: Bytes, n: nat)
    requires n <= |a| && n <= |b|
    ensures StrNCmp(b, a, n) == -StrNCmp(a, b, n)
  {
  }

  lemma {:induction false} StrNCmpTransitive(a: Bytes, b: Bytes, c: Bytes, n: nat)
    requires n <= |a| && n <= |b| && n <= |c|
    requires StrNCmp(a, b, n) <= 0 && StrNCmp(b, c, n) <= 0
    ensures StrNCmp(a, c, n) <= 0
    ensures StrNCmp(a, b, n) < 0 || StrNCmp(b, c, n) < 0 ==> StrNCmp(a, c, n) < 0
  {
    if n > 0 && a[0] == b[0] == c[0] != 0 {
      StrNCmpTransitive(a[1..], b[1..], c[1..], n - 1);
    }
  }

  /** Comparing digests is a total preorder. */
  lemma DigestPreorder(a: Digest, b: Digest, c: Digest)
    ensures StrNCmp(a, a, SHA_DIGEST_LENGTH) == 0
    ensures StrNCmp(a, b, SHA_DIGEST_LENGTH) <= 0 || StrNCmp(b, a, SHA_DIGEST_LENGTH) <= 0
    ensures StrNCmp(a, b, SHA_DIGEST_LENGTH) <= 0 && StrNCmp(b, c, SHA_DIGEST_LENGTH) <= 0
            ==> StrNCmp(a, c, SHA_DIGEST_LENGTH) <= 0
  {
    StrNCmpFlips(a, a, SHA_DIGEST_LENGTH);
    StrNCmpFlips(a, b, SHA_DIGEST_LENGTH);
    if StrNCmp(a, b, SHA_DIGEST_LENGTH) <= 0 && StrNCmp(b, c, SHA_DIGEST_LENGTH) <= 0 {
      StrNCmpTransitive(a, b, c, SHA_DIGEST_LENGTH);
    }
  }

  /** It is not an order: it cannot tell these two digests apart. */
  lemma DigestsMayTie() returns (a: Digest, b: Digest)
    ensures a != b && StrNCmp(a, b, SHA_DIGEST_LENGTH) == 0
  {
    a := seq(SHA_DIGEST_LENGTH, _ => 0);
    b := a[1 := 7];
    assert a[1] != b[1];
  }

  // ---- Comparing server addresses ----

  function MemCmp(a: Bytes, b: Bytes): int
    requires |a| == |b|
  {
    if a == [] then 0 else if a[0] != b[0] then a[0] as int - b[0] as int else MemCmp(a[1..], b[1..])
  }

  function NodeCmpServerAddr(first: Node, second: Node): int {
    var diffIp := MemCmp(first.address.ip, second.address.ip);
    if diffIp != 0 then diffIp else MemCmp(first.address.port, second.address.port)
  }

  lemma {:induction false} MemCmpEqual(a: Bytes, b: Bytes)
    requires |a| == |b|
    ensures MemCmp(a, b) == 0 <==> a == b
  {
    if a != [] {
      MemCmpEqual(a[1..], b[1..]);
      assert a == [a[0]] + a[1..] && b == [b[0]] + b[1..];
    }
  }

  lemma SameServer(first: Node, second: Node)
    ensures NodeCmpServerAddr(first, second) == 0 <==> first.address == second.address
  {
    MemCmpEqual(first.address.ip, second.address.ip);
    MemCmpEqual(first.address.port, second.address.port);
  }

  // ---- The digest input of a virtual node ----

  const SPACE: Byte := 32

  /** `%hu` and `%zu`. */
  function Decimal(n: nat): (d: CStr)
    ensures d != [] && forall b <- d :: 48 <= b < 58
  {
    if n < 10 then [48 + n] else Decimal(n / 10) + [48 + n % 10]
  }

  /** `sprintf(input, "%s %hu %zu", ip, port, node_id)`. */
  function DigestInput(ip: CStr, port: nat, id: nat): CStr {
    ip + [SPACE] + Decimal(port) + [SPACE] + Decimal(id)
  }

  /** What a string of decimal digits means, the most significant digit first. */
  function Positional(d: Bytes): int {
    if d == [] then 0 else 10 * Positional(d[..|d| - 1]) + (d[|d| - 1] as int - 48)
  }

  /** The digits of n, without leading zeros. */
  ghost predicate IsDecimal(d: Bytes, n: nat) {
    d != [] && (forall b <- d :: 48 <= b < 58) && (|d| > 1 ==> d[0] != 48) && Positional(d) == n
  }

  lemma {:induction false} DecimalMeaning(n: nat)
    ensures IsDecimal(Decimal(n), n)
    ensures n > 0 ==> Decimal(n)[0] != 48
  {
    var d := Decimal(n);
    if n >= 10 {
      DecimalMeaning(n / 10);
      assert d[..|d| - 1] == Decimal(n / 10) && d[|d| - 1] == 48 + n % 10;
      assert d[0] == Decimal(n / 10)[0];
    } else {
      assert d[..0] == [] && Positional([]) == 0;
    }
  }

  /** A number has only one such string. */
  lemma {:induction false} DecimalUnique(d: Bytes, e: Bytes, n: nat)
    requires IsDecimal(d, n) && IsDecimal(e, n)
    ensures d == e
  {
    var front, front' := d[..|d| - 1], e[..|e| - 1];
    LastDigit(d, n);
    LastDigit(e, n);
    assert d == front + [d[|d| - 1]] && e == front' + [e[|e| - 1]];
    if front != [] && front' != [] {
      assert front[0] == d[0] && front'[0] == e[0];
      DecimalUnique(front, front', n / 10);
    }
  }

  lemma LastDigit(d: Bytes, n: nat)
    requires IsDecimal(d, n)
    ensures d[|d| - 1] == 48 + n % 10 && Positional(d[..|d| - 1]) == n / 10
    ensures if |d| == 1 then n < 10 else n >= 10 && IsDecimal(d[..|d| - 1], n / 10)
  {
    var front, last := d[..|d| - 1], d[|d| - 1];
    assert last in d && n == 10 * Positional(front) + (last - 48);
    if |d| > 1 {
      assert front[0] == d[0] && forall b <- front :: b in d;
      PositionalPositive(front);
    } else {
      assert front == [] && Positional(front) == 0;
    }
    hide Positional;
    DivTen(n, Positional(front), last - 48);
  }

  lemma DivTen(n: int, q: int, r: int)
    requires n == 10 * q + r && 0 <= r < 10
    ensures n / 10 == q && n % 10 == r
  {
  }

  lemma {:induction false} PositionalPositive(d: Bytes)
    requires d != [] && (forall b <- d :: 48 <= b < 58) && d[0] != 48
    ensures Positional(d) > 0
  {
    var front := d[..|d| - 1];
    assert d[|d| - 1] in d && d[0] in d;
    if front != [] {
      assert front[0] == d[0] && forall b <- front :: b in d;
      PositionalPositive(front);
    }
  }

  /** Cutting at the first separator is unambiguous. */
  lemma {:induction false} SplitUnique(a: Bytes, x: Bytes, b: Bytes, y: Bytes)
    requires SPACE !in a && SPACE !in b
    requires a + [SPACE] + x == b + [SPACE] + y
    ensures a == b && x == y
  {
    var s, t := a + [SPACE] + x, b + [SPACE] + y;
    assert s[|a|] == SPACE && t[|b|] == SPACE;
    assert a == s[..|a|] && b == t[..|b|];
    assert x == s[|a| + 1..] && y == t[|b| + 1..];
  }

  /** The text that is hashed for a virtual node: address, port and number, set apart by blanks. */
  ghost predicate IsDigestInput(input: Bytes, ip: CStr, port: nat, id: nat) {
    exists p, i :: IsDecimal(p, port) && IsDecimal(i, id) && input == ip + [32] + p + [32] + i
  }

  /** Different virtual nodes are hashed from different inputs: an address read by `%15s`
      contains no blank. */
  lemma DigestInputInjective(input: Bytes, ip: CStr, port: nat, id: nat, ip': CStr, port': nat, id': nat)
    requires SPACE !in ip && SPACE !in ip'
    requires IsDigestInput(input, ip, port, id) && IsDigestInput(input, ip', port', id')
    ensures ip == ip' && port == port' && id == id'
  {
    hide Positional;
    var p, i :| IsDecimal(p, port) && IsDecimal(i, id) && input == ip + [32] + p + [32] + i;
    var p', i' :| IsDecimal(p', port') && IsDecimal(i', id') && input == ip' + [32] + p' + [32] + i';
    assert input == ip + [SPACE] + (p + [SPACE] + i);
    assert input == ip' + [SPACE] + (p' + [SPACE] + i');
    SplitUnique(ip, p + [SPACE] + i, ip', p' + [SPACE] + i');
    SplitUnique(p, i, p', i');
  }

  lemma InputUnique(input: Bytes, input': Bytes, ip: CStr, port: nat, id: nat)
    requires IsDigestInput(input, ip, port, id) && IsDigestInput(input', ip, port, id)
    ensures input == input'
  {
    var p, i :| IsDecimal(p, port) && IsDecimal(i, id) && input == ip + [32] + p + [32] + i;
    var p', i' :| IsDecimal(p', port) && IsDecimal(i', id) && input' == ip + [32] + p' + [32] + i';
    DecimalUnique(p, p', port);
    DecimalUnique(i, i', id);
  }

  /** `htons`. */
  function PortInNetworkOrder(port: nat): PortBytes
    requires port < 0x1_0000
  {
    [port / 0x100, port % 0x100]
  }

  /** `node_init`: None when the address text does not parse. */
  function NodeInit(ip: CStr, port: nat, id: nat, lib: Library): Option<Node>
    requires port < 0x1_0000
  {
    match lib.pton(ip)
    case None => None
    case Some(address) =>
      Some(Node(Address(address, PortInNetworkOrder(port)), lib.sha1(DigestInput(ip, port, id))))
  }

  /** Virtual node number `id` of the server at an address and port: it is reached there, with
      the port in network byte order, and placed at the digest of its own text. */
  ghost predicate IsVirtualNode(node: Node, ip: CStr, port: nat, id: nat, lib: Library) {
    && lib.pton(ip) == Some(node.address.ip)
    && node.address.port[0] as int * 256 + node.address.port[1] as int == port
    && exists input :: IsDigestInput(input, ip, port, id) && node.sha == lib.sha1(input)
  }

  /** `node_init` makes exactly the virtual node it is asked for, or none when the address text
      does not parse. */
  lemma NodeInitMeaning(ip: CStr, port: nat, id: nat, lib: Library)
    requires port < 0x1_0000
    ensures NodeInit(ip, port, id, lib).None? <==> lib.pton(ip).None?
    ensures forall node :: NodeInit(ip, port, id, lib) == Some(node) <==> IsVirtualNode(node, ip, port, id, lib)
  {
    hide Decimal, IsDecimal;
    var made := NodeInit(ip, port, id, lib);
    DecimalMeaning(port);
    DecimalMeaning(id);
    var input := DigestInput(ip, port, id);
    assert IsDigestInput(input, ip, port, id);
    if made.Some? { assert IsVirtualNode(made.value, ip, port, id, lib); }
    forall node | IsVirtualNode(node, ip, port, id, lib) ensures made == Some(node) {
      var input' :| IsDigestInput(input', ip, port, id) && node.sha == lib.sha1(input');
      InputUnique(input, input', ip, port, id);
      assert node.address.port == [port / 0x100, port % 0x100];
    }
  }
}
