/** Line-ending canonicalisation and the dedup key of a received item. */
module Classify {
  import opened Basics
  import opened Text
  import Utf8

  datatype Kind = Text | Url | Code | Image | File

  /** Image and file payloads are bytes, not text. */
  predicate IsBinary(k: Kind) { k.Image? || k.File? }

  function ReplaceCrLf(s: string): string {
    if s == [] then []
    else if |s| >= 2 && s[0] == '\r' && s[1] == '\n' then ['\n'] + ReplaceCrLf(s[2..])
    else [s[0]] + ReplaceCrLf(s[1..])
  }

  function ReplaceCr(s: string): (r: string)
    ensures |r| == |s| && forall i :: 0 <= i < |s| ==> r[i] == if s[i] == '\r' then '\n' else s[i]
  {
    if s == [] then [] else [if s[0] == '\r' then '\n' else s[0]] + ReplaceCr(s[1..])
  }

  /** The text whose hash keys the dedup ring: LF line endings, no outer white space. */
  function CanonText(s: string): string { Trim(ReplaceCr(ReplaceCrLf(s))) }

  /** The bytes of a payload that are hashed: canonical text when it is text, raw bytes otherwise. */
  function HashedBytes(kind: Kind, payload: seq<byte>): seq<byte> {
    if IsBinary(kind) then payload
    else
      match Utf8.Decode(payload)
      case Some(text) => Utf8.Encode(CanonText(text))
      case None => payload
  }

  function ContentKey(digest: seq<byte> -> Id, kind: Kind, payload: seq<byte>): Id {
    digest(HashedBytes(kind, payload))
  }

  // ── Line endings do not matter ──────────────────────────────────────

  predicate CrFree(s: string) { '\r' !in s }

  /** The text with each LF written as `eol`. */
  function Rendered(s: string, eol: string): string {
    if s == [] then [] else (if s[0] == '\n' then eol else [s[0]]) + Rendered(s[1..], eol)
  }

  function Unified(s: string): string { ReplaceCr(ReplaceCrLf(s)) }

  lemma {:induction false} UnifiedKeepsLf(s: string)
    requires CrFree(s)
    ensures Unified(s) == s
  {
    if s != [] {
      UnifiedKeepsLf(s[1..]);
      assert ReplaceCrLf(s) == [s[0]] + ReplaceCrLf(s[1..]);
      assert ReplaceCrLf(s)[1..] == ReplaceCrLf(s[1..]);
      assert s[0] in s;
    }
  }

  lemma {:induction false} UnifiedCrLf(s: string)
    requires CrFree(s)
    ensures Unified(Rendered(s, "\r\n")) == s
  {
    if s != [] {
      UnifiedCrLf(s[1..]);
      var r, t := Rendered(s, "\r\n"), Rendered(s[1..], "\r\n");
      assert s[0] in s;
      if s[0] == '\n' {
        assert r[2..] == t;
      } else {
        assert r[1..] == t;
      }
      assert ReplaceCrLf(r) == [s[0]] + ReplaceCrLf(t);
      assert ReplaceCrLf(r)[1..] == ReplaceCrLf(t);
    }
  }

  /** A lone CR is never followed by LF in the CR rendering, so each one is one line end. */
  lemma {:induction false} UnifiedCr(s: string)
    requires CrFree(s)
    ensures Unified(Rendered(s, "\r")) == s
    ensures '\n' !in Rendered(s, "\r")
  {
    if s != [] {
      UnifiedCr(s[1..]);
      var r, t := Rendered(s, "\r"), Rendered(s[1..], "\r");
      assert s[0] in s;
      assert r[1..] == t;
      assert |r| >= 2 ==> r[1] == t[0] && t[0] in t;
      assert ReplaceCrLf(r) == [r[0]] + ReplaceCrLf(t);
      assert ReplaceCrLf(r)[1..] == ReplaceCrLf(t);
    }
  }

  /** A text copied with LF, CRLF or CR line ends has one canonical form. */
  lemma CanonIgnoresLineEndings(s: string)
    requires CrFree(s)
    ensures CanonText(Rendered(s, "\r\n")) == CanonText(s)
    ensures CanonText(Rendered(s, "\r")) == CanonText(s)
    ensures CanonText(s) == Trim(s)
  {
    UnifiedKeepsLf(s);
    UnifiedCrLf(s);
    UnifiedCr(s);
  }

  lemma CanonIdempotent(s: string)
    ensures CrFree(CanonText(s)) && IsTrimmed(CanonText(s))
    ensures CanonText(CanonText(s)) == CanonText(s)
  {
    var u := Unified(s);
    var i, j := TrimCut(u);
    assert forall k :: 0 <= k < |CanonText(s)| ==> CanonText(s)[k] == u[i + k];
    UnifiedKeepsLf(CanonText(s));
    TrimFixpoint(CanonText(s));
  }

  // ── The dedup key ───────────────────────────────────────────────────

  predicate IsText(kind: Kind, payload: seq<byte>) { !IsBinary(kind) && Utf8.Decode(payload).Some? }

  /** The digest tells these two byte strings apart when they differ. */
  predicate NoCollision(digest: seq<byte> -> Id, a: seq<byte>, b: seq<byte>) {
    digest(a) == digest(b) ==> a == b
  }

  /** Two texts share a dedup key iff their canonical forms are equal. */
  lemma TextKeys(digest: seq<byte> -> Id, k1: Kind, p1: seq<byte>, k2: Kind, p2: seq<byte>)
    requires IsText(k1, p1) && IsText(k2, p2)
    requires NoCollision(digest, HashedBytes(k1, p1), HashedBytes(k2, p2))
    ensures ContentKey(digest, k1, p1) == ContentKey(digest, k2, p2) <==>
            CanonText(Utf8.Decode(p1).value) == CanonText(Utf8.Decode(p2).value)
  {
    Utf8.EncodeInjective(CanonText(Utf8.Decode(p1).value), CanonText(Utf8.Decode(p2).value));
  }

  /** A non-binary payload that is not valid UTF-8 shares its key only with the same bytes. */
  lemma InvalidTextKeys(digest: seq<byte> -> Id, k1: Kind, p1: seq<byte>, k2: Kind, p2: seq<byte>)
    requires !IsBinary(k1) && !IsText(k1, p1) && !IsBinary(k2)
    requires NoCollision(digest, HashedBytes(k1, p1), HashedBytes(k2, p2))
    ensures ContentKey(digest, k1, p1) == ContentKey(digest, k2, p2) <==> p1 == p2
  {
    if IsText(k2, p2) {
      Utf8.EncodeRoundTrip(CanonText(Utf8.Decode(p2).value));
    }
  }

  /** Two images or files share a key only with the same bytes. */
  lemma BinaryKeys(digest: seq<byte> -> Id, k1: Kind, p1: seq<byte>, k2: Kind, p2: seq<byte>)
    requires (k1.Image? || k1.File?) && (k2.Image? || k2.File?) && NoCollision(digest, p1, p2)
    ensures ContentKey(digest, k1, p1) == ContentKey(digest, k2, p2) <==> p1 == p2
  {
  }

  /** The same text with other line endings is the same item. */
  lemma KeyIgnoresLineEndings(digest: seq<byte> -> Id, kind: Kind, s: string)
    requires !IsBinary(kind) && CrFree(s)
    ensures ContentKey(digest, kind, Utf8.Encode(s)) == ContentKey(digest, kind, Utf8.Encode(Rendered(s, "\r\n")))
    ensures ContentKey(digest, kind, Utf8.Encode(s)) == ContentKey(digest, kind, Utf8.Encode(Rendered(s, "\r")))
  {
    Utf8.EncodeRoundTrip(s);
    Utf8.EncodeRoundTrip(Rendered(s, "\r\n"));
    Utf8.EncodeRoundTrip(Rendered(s, "\r"));
    CanonIgnoresLineEndings(s);
  }
}
