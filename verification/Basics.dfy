/** Values shared by every other module: optional results, bytes, and 32-byte identifiers. */
module Basics {
  datatype Option<+T> = None | Some(value: T)

  type byte = x: int | 0 <= x < 256

  datatype Bytes = Bytes(raw: seq<byte>)

  function Zeros(n: nat): (r: seq<byte>)
    ensures |r| == n && forall i :: 0 <= i < n ==> r[i] == 0
  {
    seq(n, i => 0)
  }

  /** A 32-byte value: a peer id, a device id or a content hash. */
  type Id = b: Bytes | |b.raw| == 32 witness Bytes(Zeros(32))

  /** The all-zero placeholder that stands for "no peer". */
  const ZERO_ID: Id := Bytes(Zeros(32))

  function Max(a: int, b: int): int { if a < b then b else a }

  function Min(a: int, b: int): int { if a < b then a else b }

  /** Subtraction of unsigned machine words that stops at zero. */
  function SaturatingSub(a: nat, b: nat): nat { if a < b then 0 else a - b }

  function FirstN<T>(s: seq<T>, n: nat): seq<T> { if |s| <= n then s else s[..n] }

  function LastN<T>(s: seq<T>, n: nat): seq<T> { if |s| <= n then s else s[|s| - n..] }

  lemma FewerKeys<K, V>(all: map<K, V>, some: map<K, V>)
    requires some.Keys <= all.Keys
    ensures |some| <= |all|
  {
    assert all.Keys == some.Keys + (all.Keys - some.Keys);
    assert |all.Keys| == |some.Keys| + |all.Keys - some.Keys|;
  }

  ghost predicate Distinct<T>(s: seq<T>) {
    forall i, j :: 0 <= i < j < |s| ==> s[i] != s[j]
  }

  /** `s` is `t` with some elements left out. */
  predicate IsSubsequence<T(==)>(s: seq<T>, t: seq<T>) {
    s == [] || (t != [] && if s[0] == t[0] then IsSubsequence(s[1..], t[1..]) else IsSubsequence(s, t[1..]))
  }

  /** A subsequence of the tail is one of the whole. */
  lemma {:induction false} SkipFirst<T>(s: seq<T>, t: seq<T>)
    requires t != [] && IsSubsequence(s, t[1..])
    ensures IsSubsequence(s, t)
    decreases |t|, 0
  {
    if s != [] && s[0] == t[0] { DropFirst(s, t[1..]); }
  }

  lemma {:induction false} DropFirst<T>(s: seq<T>, t: seq<T>)
    requires s != [] && IsSubsequence(s, t)
    ensures IsSubsequence(s[1..], t)
    decreases |t|, 1
  {
    if s[0] != t[0] { DropFirst(s, t[1..]); }
    SkipFirst(s[1..], t);
  }
}
