/** Lowercase hex of 32-byte values, the key of history rows and parked items. */
module Hex {
  import opened Basics

  predicate IsHexDigit(c: char) { '0' <= c <= '9' || 'a' <= c <= 'f' || 'A' <= c <= 'F' }

  function Digit(n: int): char
    requires 0 <= n < 16
  {
    if n < 10 then '0' + n as char else 'a' + (n - 10) as char
  }

  function Value(c: char): int
    requires IsHexDigit(c)
  {
    if c <= '9' then c as int - '0' as int
    else if c <= 'F' then c as int - 'A' as int + 10
    else c as int - 'a' as int + 10
  }

  function Encode(b: seq<byte>): string {
    if b == [] then [] else [Digit(b[0] / 16), Digit(b[0] % 16)] + Encode(b[1..])
  }

  function Hex32(b: Id): string { Encode(b.raw) }

  /** Decodes pairs of digits, upper or lower case; `None` on anything else. */
  function Decode(s: string): (r: Option<seq<byte>>)
    ensures r.Some? ==> |s| == 2 * |r.value|
  {
    if s == [] then Some([])
    else if |s| < 2 || !IsHexDigit(s[0]) || !IsHexDigit(s[1]) then None
    else
      match Decode(s[2..])
      case None => None
      case Some(rest) => Some([16 * Value(s[0]) + Value(s[1])] + rest)
  }

  function Hex32Decode(s: string): Option<Id> {
    if |s| != 64 then None else
    match Decode(s)
    case None => None
    case Some(raw) => Some(Bytes(raw))
  }

  lemma {:induction false} EncodeRoundTrip(b: seq<byte>)
    ensures |Encode(b)| == 2 * |b| && Decode(Encode(b)) == Some(b)
  {
    if b != [] {
      EncodeRoundTrip(b[1..]);
      assert Encode(b)[2..] == Encode(b[1..]);
      assert [b[0]] + b[1..] == b;
    }
  }

  /** What the daemon writes as a hash, it reads back as the same 32 bytes. */
  lemma Hex32RoundTrip(b: Id)
    ensures Hex32Decode(Hex32(b)) == Some(b)
  {
    EncodeRoundTrip(b.raw);
  }

  /** So two different hashes never share a key. */
  lemma Hex32Injective(a: Id, b: Id)
    ensures Hex32(a) == Hex32(b) <==> a == b
  {
    EncodeRoundTrip(a.raw);
    EncodeRoundTrip(b.raw);
  }

  function Lower(c: char): char {
    if 'A' <= c <= 'F' then 'a' + (c as int - 'A' as int) as char else c
  }

  /** Decoding accepts exactly 64 hex digits, and encoding again only folds their case. */
  lemma Hex32DecodeExact(s: string)
    ensures Hex32Decode(s).Some? <==> |s| == 64 && forall i :: 0 <= i < 64 ==> IsHexDigit(s[i])
    ensures Hex32Decode(s).Some? ==>
              |Hex32(Hex32Decode(s).value)| == 64 &&
              forall i :: 0 <= i < 64 ==> Hex32(Hex32Decode(s).value)[i] == Lower(s[i])
  {
    if |s| == 64 { DecodeExact(s); }
  }

  lemma DigitOfValue(hi: char, lo: char)
    requires IsHexDigit(hi) && IsHexDigit(lo)
    ensures var b := 16 * Value(hi) + Value(lo); 0 <= b < 256 && [Digit(b / 16), Digit(b % 16)] == [Lower(hi), Lower(lo)]
  {
  }

  function Lowered(s: string): (r: string)
    ensures |r| == |s| && forall i :: 0 <= i < |s| ==> r[i] == Lower(s[i])
  {
    seq(|s|, i requires 0 <= i < |s| => Lower(s[i]))
  }

  lemma {:induction false} DecodeAccepts(s: string)
    requires |s| % 2 == 0
    ensures Decode(s).Some? <==> forall i :: 0 <= i < |s| ==> IsHexDigit(s[i])
  {
    hide Value, IsHexDigit;
    if s != [] {
      var rest := s[2..];
      DecodeAccepts(rest);
      assert forall i :: 2 <= i < |s| ==> s[i] == rest[i - 2];
      assert forall i :: 0 <= i < |rest| ==> rest[i] == s[i + 2];
    }
  }

  lemma {:induction false} DecodeExact(s: string)
    requires |s| % 2 == 0
    ensures Decode(s).Some? <==> forall i :: 0 <= i < |s| ==> IsHexDigit(s[i])
    ensures Decode(s).Some? ==> Encode(Decode(s).value) == Lowered(s)
  {
    hide Value, Digit, IsHexDigit, Lower;
    DecodeAccepts(s);
    if Decode(s).Some? && s != [] {
      var b, rest := Decode(s).value, Decode(s[2..]).value;
      DecodeExact(s[2..]);
      DigitOfValue(s[0], s[1]);
      assert b[1..] == rest;
      assert Lowered(s) == [Lower(s[0]), Lower(s[1])] + Lowered(s[2..]);
    }
  }

  lemma NextDigits(b: seq<byte>, k: nat)
    requires b != [] && k < |Encode(b[1..])|
    ensures k + 2 < |Encode(b)| && Encode(b)[k + 2] == Encode(b[1..])[k]
  {
    hide Digit;
  }

  lemma FirstDigits(b: seq<byte>)
    requires b != []
    ensures |Encode(b)| >= 2 && Encode(b)[0] == Digit(b[0] / 16) && Encode(b)[1] == Digit(b[0] % 16)
  {
    hide Digit;
  }

  lemma {:induction false} DigitsAt(b: seq<byte>, i: nat, v: byte)
    requires i < |b| && b[i] == v
    ensures 2 * i + 1 < |Encode(b)| && Encode(b)[2 * i] == Digit(v / 16) && Encode(b)[2 * i + 1] == Digit(v % 16)
  {
    hide Encode, Digit;
    if i == 0 {
      FirstDigits(b);
    } else {
      DigitsAt(b[1..], i - 1, v);
      NextDigits(b, 2 * i - 2);
      NextDigits(b, 2 * i - 1);
    }
  }

  lemma DigitExact(n: int)
    requires 0 <= n < 16
    ensures Digit(n) == "0123456789abcdef"[n]
  {
  }

  /** Each byte is written as two lower-case digits, the high half first. */
  lemma Hex32Exact(b: Id, i: nat)
    requires i < 32
    ensures |Hex32(b)| == 64
    ensures Hex32(b)[2 * i] == "0123456789abcdef"[b.raw[i] / 16] && Hex32(b)[2 * i + 1] == "0123456789abcdef"[b.raw[i] % 16]
  {
    hide Encode, Digit;
    EncodeRoundTrip(b.raw);
    DigitsAt(b.raw, i, b.raw[i]);
    DigitExact(b.raw[i] / 16);
    DigitExact(b.raw[i] % 16);
  }
}
