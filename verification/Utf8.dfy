/** UTF-8 as `str::as_bytes` writes it and `str::from_utf8` checks it. */
module Utf8 {
  import opened Basics

  function EncodeChar(c: char): (b: seq<byte>)
    ensures 1 <= |b| <= 4
  {
    var n := c as int;
    if n < 0x80 then [n]
    else if n < 0x800 then [0xC0 + n / 64, 0x80 + n % 64]
    else if n < 0x1_0000 then [0xE0 + n / 4096, 0x80 + n / 64 % 64, 0x80 + n % 64]
    else [0xF0 + n / 262144, 0x80 + n / 4096 % 64, 0x80 + n / 64 % 64, 0x80 + n % 64]
  }

  function Encode(s: string): seq<byte> {
    if s == [] then [] else EncodeChar(s[0]) + Encode(s[1..])
  }

  predicate IsContinuation(b: byte) { 0x80 <= b < 0xC0 }

  /** The scalar value `n`, refused when it is a surrogate, too large, or needs fewer bytes than were used. */
  function Scalar(n: int, least: int): Option<char> {
    if least <= n && (0 <= n < 0xD800 || 0xE000 <= n < 0x11_0000) then Some(n as char) else None
  }

  function Two(b0: int, b1: int): int { (b0 - 0xC0) * 64 + (b1 - 0x80) }

  function Three(b0: int, b1: int, b2: int): int { (b0 - 0xE0) * 4096 + (b1 - 0x80) * 64 + (b2 - 0x80) }

  function Four(b0: int, b1: int, b2: int, b3: int): int {
    (b0 - 0xF0) * 262144 + (b1 - 0x80) * 4096 + (b2 - 0x80) * 64 + (b3 - 0x80)
  }

  /** How many bytes the character that starts with byte `b` takes; 0 when none starts so. */
  function Length(b: byte): nat {
    if b < 0x80 then 1
    else if 0xC0 <= b < 0xE0 then 2
    else if 0xE0 <= b < 0xF0 then 3
    else if 0xF0 <= b < 0xF8 then 4
    else 0
  }

  /** The first character of a non-empty byte string and how many bytes it takes. */
  function DecodeChar(b: seq<byte>): (r: Option<(char, nat)>)
    requires b != []
    ensures r.Some? ==> 1 <= r.value.1 <= |b|
  {
    var len := Length(b[0]);
    if len == 0 || |b| < len || exists i | 1 <= i < len :: !IsContinuation(b[i]) then None
    else
      var c :=
        if len == 1 then Scalar(b[0], 0)
        else if len == 2 then Scalar(Two(b[0], b[1]), 0x80)
        else if len == 3 then Scalar(Three(b[0], b[1], b[2]), 0x800)
        else Scalar(Four(b[0], b[1], b[2], b[3]), 0x1_0000);
      if c.None? then None else Some((c.value, len))
  }

  function Decode(b: seq<byte>): Option<string>
    decreases |b|
  {
    if b == [] then Some([])
    else
      var first := DecodeChar(b);
      if first.None? then None
      else
        var rest := Decode(b[first.value.1..]);
        if rest.None? then None else Some([first.value.0] + rest.value)
  }

  /** The digits of `n` in base 64, as two, three or four bytes carry them. */
  lemma Digits(n: int)
    requires 0 <= n < 0x11_0000
    ensures n < 0x800 ==> Two(0xC0 + n / 64, 0x80 + n % 64) == n && n / 64 < 32
    ensures n < 0x1_0000 ==> Three(0xE0 + n / 4096, 0x80 + n / 64 % 64, 0x80 + n % 64) == n && n / 4096 < 16
    ensures Four(0xF0 + n / 262144, 0x80 + n / 4096 % 64, 0x80 + n / 64 % 64, 0x80 + n % 64) == n && n / 262144 < 5
  {
    assert n / 4096 == n / 64 / 64;
    assert n / 262144 == n / 4096 / 64;
  }

  lemma TwoDigits(b0: int, b1: int)
    requires 0xC0 <= b0 < 0xE0 && 0x80 <= b1 < 0xC0
    ensures var n := Two(b0, b1); b0 == 0xC0 + n / 64 && b1 == 0x80 + n % 64
  {
  }

  lemma ThreeDigits(b0: int, b1: int, b2: int)
    requires 0xE0 <= b0 < 0xF0 && 0x80 <= b1 < 0xC0 && 0x80 <= b2 < 0xC0
    ensures var n := Three(b0, b1, b2); b0 == 0xE0 + n / 4096 && b1 == 0x80 + n / 64 % 64 && b2 == 0x80 + n % 64
  {
    var n := Three(b0, b1, b2);
    assert n / 64 == (b0 - 0xE0) * 64 + (b1 - 0x80);
    assert n / 4096 == n / 64 / 64;
  }

  lemma FourDigits(b0: int, b1: int, b2: int, b3: int)
    requires 0xF0 <= b0 < 0xF8 && 0x80 <= b1 < 0xC0 && 0x80 <= b2 < 0xC0 && 0x80 <= b3 < 0xC0
    ensures var n := Four(b0, b1, b2, b3);
            && b0 == 0xF0 + n / 262144 && b1 == 0x80 + n / 4096 % 64
            && b2 == 0x80 + n / 64 % 64 && b3 == 0x80 + n % 64
  {
    var n := Four(b0, b1, b2, b3);
    assert n / 64 == (b0 - 0xF0) * 4096 + (b1 - 0x80) * 64 + (b2 - 0x80);
    assert n / 64 / 64 == (b0 - 0xF0) * 64 + (b1 - 0x80);
    assert n / 4096 == n / 64 / 64;
    assert n / 262144 == n / 4096 / 64;
  }

  lemma DecodeEncodedChar(c: char, rest: seq<byte>)
    ensures DecodeChar(EncodeChar(c) + rest) == Some((c, |EncodeChar(c)|))
  {
    var e := EncodeChar(c);
    var b := e + rest;
    var n := c as int;
    Digits(n);
    assert b[0] == e[0] && Length(b[0]) == |e|;
    assert forall i :: 1 <= i < |e| ==> b[i] == e[i] && IsContinuation(e[i]);
  }

  lemma EncodeDecodedChar(b: seq<byte>)
    requires b != [] && DecodeChar(b).Some?
    ensures EncodeChar(DecodeChar(b).value.0) == b[..DecodeChar(b).value.1]
  {
    var (c, len) := DecodeChar(b).value;
    assert forall i :: 1 <= i < len ==> IsContinuation(b[i]);
    if len == 1 {
      assert b[..1] == [b[0]];
    } else if len == 2 {
      TwoDigits(b[0], b[1]);
      assert b[..2] == [b[0], b[1]];
    } else if len == 3 {
      ThreeDigits(b[0], b[1], b[2]);
      assert b[..3] == [b[0], b[1], b[2]];
    } else {
      FourDigits(b[0], b[1], b[2], b[3]);
      assert b[..4] == [b[0], b[1], b[2], b[3]];
    }
  }

  /** Every string is read back from its own bytes. */
  lemma {:induction false} EncodeRoundTrip(s: string)
    ensures Decode(Encode(s)) == Some(s)
  {
    if s != [] {
      var rest := Encode(s[1..]);
      DecodeEncodedChar(s[0], rest);
      assert Encode(s)[|EncodeChar(s[0])|..] == rest;
      EncodeRoundTrip(s[1..]);
      assert [s[0]] + s[1..] == s;
    }
  }

  /** A valid byte string has one reading, and that reading writes the same bytes. */
  lemma {:induction false} DecodeRoundTrip(b: seq<byte>)
    requires Decode(b).Some?
    ensures Encode(Decode(b).value) == b
    decreases |b|
  {
    hide EncodeChar, DecodeChar;
    if b != [] {
      var (c, len) := DecodeChar(b).value;
      EncodeDecodedChar(b);
      DecodeRoundTrip(b[len..]);
      assert b[..len] + b[len..] == b;
      assert Decode(b).value[1..] == Decode(b[len..]).value;
    }
  }

  lemma EncodeInjective(s: string, t: string)
    ensures Encode(s) == Encode(t) <==> s == t
  {
    EncodeRoundTrip(s);
    EncodeRoundTrip(t);
  }

  lemma {:induction false} EncodeAppend(s: string, t: string)
    ensures Encode(s + t) == Encode(s) + Encode(t)
  {
    if s == [] {
      assert s + t == t;
    } else {
      assert (s + t)[1..] == s[1..] + t;
      EncodeAppend(s[1..], t);
    }
  }

  /** The encoding of one character, as the table in section 3 of RFC 3629 has it. */
  lemma CharExact(c: char)
    ensures var n, b := c as int, EncodeChar(c);
            if n <= 0x7F then b == [n]
            else if n <= 0x7FF then
              |b| == 2 && 0xC2 <= b[0] <= 0xDF && 0x80 <= b[1] <= 0xBF && n == (b[0] as int - 0xC0) * 64 + (b[1] as int - 0x80)
            else if n <= 0xFFFF then
              && |b| == 3 && 0xE0 <= b[0] <= 0xEF && 0x80 <= b[1] <= 0xBF && 0x80 <= b[2] <= 0xBF
              && n == (b[0] as int - 0xE0) * 4096 + (b[1] as int - 0x80) * 64 + (b[2] as int - 0x80)
            else
              && |b| == 4 && 0xF0 <= b[0] <= 0xF4 && 0x80 <= b[1] <= 0xBF && 0x80 <= b[2] <= 0xBF && 0x80 <= b[3] <= 0xBF
              && n == (b[0] as int - 0xF0) * 262144 + (b[1] as int - 0x80) * 4096 + (b[2] as int - 0x80) * 64 + (b[3] as int - 0x80)
  {
    Digits(c as int);
  }
}
