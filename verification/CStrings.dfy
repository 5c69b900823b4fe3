/** Bytes, C strings, and the C library scans the program relies on.

    A C string is a byte sequence without a NUL; the terminator is written out only where
    the program itself stores or sends it. */
module CStrings {
  type Byte = x: int | 0 <= x < 256
  type Bytes = seq<Byte>
  type CStr = s: seq<Byte> | 0 !in s

  datatype Option<+T> = None | Some(value: T)

  /** The error codes of done/error.h that the modelled calls return. */
  datatype ErrorCode = ERR_NONE | ERR_NOMEM | ERR_BAD_PARAMETER | ERR_NETWORK

  /** One stored association of the key-value store. */
  datatype Pair = Pair(key: CStr, value: CStr)

  /** The documented limit for a key or a value. */
  const MAX_MSG_ELEM_SIZE: nat := 32753

  /** The largest datagram. */
  const MAX_MSG_SIZE: nat := MAX_MSG_ELEM_SIZE * 2 + 1

  /** In bytes: a key or value may have 32753, and a message 65507. */
  lemma LargestMessage()
    ensures MAX_MSG_ELEM_SIZE == 32753 && MAX_MSG_SIZE == 65507
  {
  }

  function Min(a: nat, b: nat): nat { if a < b then a else b }

  function Max(a: nat, b: nat): nat { if a > b then a else b }

  /** The position of the first NUL, or the length when there is none. */
  function FirstNul(s: Bytes): (z: nat)
    ensures z <= |s|
  {
    if s == [] || s[0] == 0 then 0 else 1 + FirstNul(s[1..])
  }

  lemma {:induction false} FirstNulSplits(s: Bytes)
    ensures FirstNul(s) < |s| ==> s[FirstNul(s)] == 0
    ensures 0 !in s[..FirstNul(s)]
  {
    if s != [] && s[0] != 0 {
      FirstNulSplits(s[1..]);
      assert s[..FirstNul(s)] == [s[0]] + s[1..][..FirstNul(s[1..])];
    }
  }

  /** The C string that starts at the front of a buffer. */
  function Until(s: Bytes): (r: CStr)
    ensures |r| == FirstNul(s)
  {
    FirstNulSplits(s);
    s[..FirstNul(s)]
  }

  /** A position is the first NUL when it is a NUL (or the end) and nothing before it is. */
  lemma {:induction false} FirstNulIs(s: Bytes, z: nat)
    requires z <= |s| && (z < |s| ==> s[z] == 0)
    requires forall i :: 0 <= i < z ==> s[i] != 0
    ensures FirstNul(s) == z
  {
    if z > 0 {
      assert s[0] != 0;
      FirstNulIs(s[1..], z - 1);
    }
  }

  /** A string followed by a NUL reads back as itself, whatever comes after. */
  lemma {:induction false} UntilTerminated(s: CStr, rest: Bytes)
    requires rest == [] || rest[0] == 0
    ensures FirstNul(s + rest) == |s|
    ensures Until(s + rest) == s
  {
    forall i | 0 <= i < |s| ensures (s + rest)[i] != 0 {
      assert s[i] in s;
    }
    FirstNulIs(s + rest, |s|);
  }

  /** `strlen(&buffer[from])`. A result that reaches the end of the buffer means the C scan
      would leave it. */
  method StrLen(buffer: array<Byte>, from: nat) returns (n: nat)
    requires from <= buffer.Length
    ensures n == FirstNul(buffer[..][from..])
    ensures from + n <= buffer.Length
  {
    n := 0;
    while from + n < buffer.Length && buffer[from + n] != 0
      invariant from + n <= buffer.Length
      invariant forall i :: 0 <= i < n ==> buffer[..][from..][i] != 0
    {
      n := n + 1;
    }
    FirstNulIs(buffer[..][from..], n);
  }

  /** `strcpy(&buffer[at], s)`: the bytes of the string, then its terminator. */
  method StrCpy(buffer: array<Byte>, at: nat, s: CStr)
    requires at + |s| + 1 <= buffer.Length
    modifies buffer
    ensures buffer[..at] == old(buffer[..at])
    ensures buffer[at..at + |s| + 1] == s + [0]
    ensures buffer[at + |s| + 1..] == old(buffer[at + |s| + 1..])
  {
    var i := 0;
    while i < |s|
      invariant 0 <= i <= |s|
      invariant forall j :: 0 <= j < i ==> buffer[at + j] == s[j]
      invariant forall j :: 0 <= j < at ==> buffer[j] == old(buffer[j])
      invariant forall j :: at + |s| < j < buffer.Length ==> buffer[j] == old(buffer[j])
    {
      buffer[at + i] := s[i];
      i := i + 1;
    }
    buffer[at + |s|] := 0;
  }

  /** `memset(buffer, 0, n)`. */
  method Clear(buffer: array<Byte>, n: nat)
    requires n <= buffer.Length
    modifies buffer
    ensures forall j :: 0 <= j < n ==> buffer[j] == 0
    ensures forall j :: n <= j < buffer.Length ==> buffer[j] == old(buffer[j])
  {
    var i := 0;
    while i < n
      invariant 0 <= i <= n
      invariant forall j :: 0 <= j < i ==> buffer[j] == 0
      invariant forall j :: i <= j < buffer.Length ==> buffer[j] == old(buffer[j])
    {
      buffer[i] := 0;
      i := i + 1;
    }
  }

  /** What `recv` does: copies the first n bytes of a datagram to the front of the buffer. */
  method CopyIn(buffer: array<Byte>, datagram: Bytes, n: nat)
    requires n <= |datagram| && n <= buffer.Length
    modifies buffer
    ensures buffer[..n] == datagram[..n] && buffer[n..] == old(buffer[n..])
  {
    var i := 0;
    while i < n
      invariant 0 <= i <= n
      invariant forall j :: 0 <= j < i ==> buffer[j] == datagram[j]
      invariant forall j :: i <= j < buffer.Length ==> buffer[j] == old(buffer[j])
    {
      buffer[i] := datagram[i];
      i := i + 1;
    }
  }

  /** Concatenation of a sequence of sequences. */
  function Flatten<T>(ss: seq<seq<T>>): (r: seq<T>)
    ensures ss == [] ==> r == []
  {
    if ss == [] then [] else ss[0] + Flatten(ss[1..])
  }

  lemma AppendAssoc<T>(a: seq<T>, x: T, b: seq<T>)
    ensures a + ([x] + b) == a + [x] + b
  {
  }

  lemma ConcatAssoc<T>(a: seq<T>, b: seq<T>, c: seq<T>)
    ensures a + (b + c) == a + b + c
  {
  }

  lemma ConcatEmpty<T>(a: seq<T>)
    ensures a + [] == a && [] + a == a
  {
  }

  lemma ConcatDrop<T>(a: seq<T>, b: seq<T>)
    ensures (a + b)[|a|..] == b
    ensures (a + b)[..|a|] == a
  {
  }

  lemma TakeMore<T>(s: seq<T>, i: nat)
    requires i < |s|
    ensures s[..i + 1] == s[..i] + [s[i]]
  {
  }

  /** Dropping one element from a concatenation with a non-empty front. */
  lemma ConcatTail<T>(a: seq<T>, b: seq<T>)
    requires a != []
    ensures (a + b)[0] == a[0] && (a + b)[1..] == a[1..] + b
  {
  }

  lemma {:induction false} FlattenAppend<T>(a: seq<seq<T>>, b: seq<seq<T>>)
    ensures Flatten(a + b) == Flatten(a) + Flatten(b)
  {
    if a == [] {
      ConcatEmpty(b);
      ConcatEmpty(Flatten(b));
    } else {
      FlattenAppend(a[1..], b);
      ConcatTail(a, b);
      ConcatAssoc(a[0], Flatten(a[1..]), Flatten(b));
    }
  }

  /** Where the elements of ss[i] start in the concatenation. */
  function Offset<T>(ss: seq<seq<T>>, i: nat): nat
    requires i <= |ss|
  {
    |Flatten(ss[..i])|
  }

  lemma {:induction false} FlattenAt<T>(ss: seq<seq<T>>, i: nat, j: nat)
    requires i < |ss| && j < |ss[i]|
    ensures Offset(ss, i) + |ss[i]| == Offset(ss, i + 1) <= |Flatten(ss)|
    ensures Flatten(ss)[Offset(ss, i) + j] == ss[i][j]
  {
    FlattenAppend(ss[..i], ss[i..]);
    FlattenAppend(ss[..i + 1], ss[i + 1..]);
    FlattenAppend(ss[..i], [ss[i]]);
    ConcatEmpty(ss[i]);
    assert ss == ss[..i] + ss[i..] == ss[..i + 1] + ss[i + 1..];
    assert ss[..i + 1] == ss[..i] + [ss[i]];
  }

  lemma {:induction false} FlattenIndex<T>(ss: seq<seq<T>>, n: nat) returns (i: nat, j: nat)
    requires n < |Flatten(ss)|
    ensures i < |ss| && j < |ss[i]| && n == Offset(ss, i) + j && Flatten(ss)[n] == ss[i][j]
  {
    if n < |ss[0]| {
      i, j := 0, n;
    } else {
      i, j := FlattenIndex(ss[1..], n - |ss[0]|);
      assert ss[..i + 1] == [ss[0]] + ss[1..][..i];
      i := i + 1;
    }
    FlattenAt(ss, i, j);
  }
}
