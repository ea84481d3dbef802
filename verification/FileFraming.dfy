/** Framing of file payloads: a big-endian u16 name length, the UTF-8 name, the file bytes. */
module FileFraming {
  import opened Basics
  import opened Text
  import Utf8

  /** Longest file name carried, in UTF-8 bytes. */
  const MAX_NAME: nat := 255

  predicate IsSeparator(c: char) { c == '/' || c == '\\' }

  predicate IsReserved(c: char) {
    IsControl(c) || c == ':' || c == '*' || c == '?' || c == '"' || c == '<' || c == '>' || c == '|'
  }

  /** Everything after the last path separator. */
  function BaseName(s: string): string {
    if s == [] || IsSeparator(s[|s| - 1]) then [] else BaseName(s[..|s| - 1]) + [s[|s| - 1]]
  }

  function Masked(s: string): string { seq(|s|, i requires 0 <= i < |s| => if IsReserved(s[i]) then '_' else s[i]) }

  function TrimDots(s: string): string {
    if s != [] && s[0] == '.' then TrimDots(s[1..]) else s
  }

  /** The longest prefix of whole characters that fits in `MAX_NAME` bytes. */
  function CutToFit(s: string): string {
    if |Utf8.Encode(s)| > MAX_NAME && s != [] then CutToFit(s[..|s| - 1]) else s
  }

  function Stem(name: string): string { TrimDots(Trim(Masked(BaseName(name)))) }

  /** The name a file is saved under. */
  function SafeName(name: string): string {
    var stem := Stem(name);
    CutToFit(if stem == [] then "file" else stem)
  }

  method Sanitize(name: string) returns (clean: string)
    ensures clean == SafeName(name)
  {
    clean := Masked(BaseName(name));
    clean := TrimDots(Trim(clean));
    if clean == [] {
      clean := "file";
    }
    ghost var whole := clean;
    while |Utf8.Encode(clean)| > MAX_NAME
      invariant CutToFit(clean) == CutToFit(whole)
      decreases |clean|
    {
      clean := clean[..|clean| - 1];
    }
  }

  function Header(n: nat): seq<byte>
    requires n < 0x1_0000
  {
    [n / 256, n % 256]
  }

  function RawFrame(name: string, bytes: seq<byte>): seq<byte>
    requires |Utf8.Encode(name)| < 0x1_0000
  {
    Header(|Utf8.Encode(name)|) + Utf8.Encode(name) + bytes
  }

  function Frame(name: string, bytes: seq<byte>): seq<byte> {
    SafeNameIsSafe(name);
    RawFrame(SafeName(name), bytes)
  }

  method Encode(name: string, bytes: seq<byte>) returns (out: seq<byte>)
    ensures out == Frame(name, bytes)
  {
    var clean := Sanitize(name);
    SafeNameIsSafe(name);
    out := Header(|Utf8.Encode(clean)|);
    out := out + Utf8.Encode(clean);
    out := out + bytes;
  }

  function Decode(payload: seq<byte>): Option<(string, seq<byte>)> {
    if |payload| < 2 then None
    else
      var len := payload[0] as int * 256 + payload[1] as int;
      if |payload| < 2 + len then None
      else
        match Utf8.Decode(payload[2..2 + len])
        case None => None
        case Some(name) => Some((SafeName(name), payload[2 + len..]))
  }

  // ── What a safe name is ─────────────────────────────────────────────

  predicate IsUnsafe(c: char) {
    || c < ' ' || 0x7F <= c as int <= 0x9F || c == '/' || c == '\\' || c == ':' || c == '*' || c == '?' || c == '"'
    || c == '<' || c == '>' || c == '|'
  }

  /** No separator, control or reserved character. */
  ghost predicate IsClean(s: string) { forall i :: 0 <= i < |s| ==> !IsUnsafe(s[i]) }

  /** Safe to create in a downloads folder. */
  ghost predicate IsSafe(s: string) {
    s != [] && s[0] != '.' && |Utf8.Encode(s)| <= 255 && IsClean(s)
  }

  lemma {:induction false} BaseNameCut(s: string)
    ensures forall c :: c in BaseName(s) ==> c in s && !IsSeparator(c)
    ensures (forall c :: c in s ==> !IsSeparator(c)) ==> BaseName(s) == s
  {
    if s != [] && !IsSeparator(s[|s| - 1]) {
      BaseNameCut(s[..|s| - 1]);
      assert s == s[..|s| - 1] + [s[|s| - 1]];
    }
  }

  lemma {:induction false} TrimDotsCut(s: string) returns (i: nat)
    ensures i <= |s| && TrimDots(s) == s[i..]
    ensures TrimDots(s) != [] ==> TrimDots(s)[0] != '.'
  {
    if s != [] && s[0] == '.' {
      var j := TrimDotsCut(s[1..]);
      i := j + 1;
      assert s[1..][j..] == s[i..];
    } else {
      i := 0;
    }
  }

  lemma OneFits(s: string)
    requires |s| == 1
    ensures |Utf8.Encode(s)| <= 4
  {
    assert s[1..] == [];
  }

  lemma {:induction false} CutToFitCut(s: string) returns (i: nat)
    ensures i <= |s| && CutToFit(s) == s[..i] && |Utf8.Encode(CutToFit(s))| <= MAX_NAME
    ensures s != [] ==> i > 0
    ensures i < |s| ==> |Utf8.Encode(s[..i + 1])| > MAX_NAME
  {
    if |Utf8.Encode(s)| > MAX_NAME {
      if |s| == 1 { OneFits(s); }
      i := CutToFitCut(s[..|s| - 1]);
      assert s[..|s| - 1][..i] == s[..i];
      if i < |s| - 1 { assert s[..|s| - 1][..i + 1] == s[..i + 1]; } else { assert s[..i + 1] == s; }
    } else {
      i := |s|;
    }
  }

  lemma FileIsSafe()
    ensures IsSafe("file") && IsTrimmed("file")
  {
    var s := "file";
    assert s[1..] == "ile" && s[1..][1..] == "le" && s[1..][1..][1..] == "e" && s[1..][1..][1..][1..] == "";
    assert Utf8.Encode("e") == Utf8.EncodeChar('e') + Utf8.Encode("");
    assert Utf8.Encode("le") == Utf8.EncodeChar('l') + Utf8.Encode("e");
    assert Utf8.Encode("ile") == Utf8.EncodeChar('i') + Utf8.Encode("le");
  }

  lemma MaskedIsClean(base: string)
    requires forall c :: c in base ==> !IsSeparator(c)
    ensures IsClean(Masked(base))
    ensures IsClean(base) ==> Masked(base) == base
  {
    var m := Masked(base);
    forall i | 0 <= i < |m| ensures !IsUnsafe(m[i]) { assert base[i] in base; }
    if IsClean(base) {
      forall i | 0 <= i < |m| ensures m[i] == base[i] { assert !IsUnsafe(base[i]); }
    }
  }

  lemma SliceIsClean(s: string, i: nat, j: nat)
    requires i <= j <= |s| && IsClean(s)
    ensures IsClean(s[i..j])
  {
    var t := s[i..j];
    forall k | 0 <= k < |t| ensures !IsUnsafe(t[k]) { assert t[k] == s[i + k]; }
  }

  lemma StemChars(name: string)
    ensures IsClean(Stem(name)) && (Stem(name) != [] ==> Stem(name)[0] != '.')
  {
    BaseNameCut(name);
    var m := Masked(BaseName(name));
    MaskedIsClean(BaseName(name));
    var i, j := TrimSlice(m);
    SliceIsClean(m, i, j);
    var t := Trim(m);
    var k := TrimDotsCut(t);
    SliceIsClean(t, k, |t|);
  }

  /** Whatever name arrives, the saved name is safe. */
  lemma SafeNameIsSafe(name: string)
    ensures IsSafe(SafeName(name))
  {
    var stem := Stem(name);
    StemChars(name);
    FileIsSafe();
    var whole := if stem == [] then "file" else stem;
    var i := CutToFitCut(whole);
  }

  /** A safe name has nothing to mask, so its stem is what trimming leaves. */
  lemma StemOfSafe(s: string)
    requires IsSafe(s)
    ensures Stem(s) == TrimDots(Trim(s))
  {
    BaseNameCut(s);
    assert forall c :: c in s ==> !IsUnsafe(c);
    MaskedIsClean(s);
  }

  lemma StemShorter(s: string)
    requires IsSafe(s) && !IsTrimmed(s)
    ensures |Stem(s)| < |s|
  {
    StemOfSafe(s);
    TrimFixpoint(s);
    var i, j := TrimSlice(s);
    var k := TrimDotsCut(Trim(s));
  }

  /** A safe name is kept as it is iff it has no outer white space. */
  lemma SafeNameFixpoint(s: string)
    requires IsSafe(s)
    ensures SafeName(s) == s <==> IsTrimmed(s)
  {
    if IsTrimmed(s) {
      StemOfSafe(s);
      TrimFixpoint(s);
    } else {
      StemShorter(s);
      FileIsSafe();
      var cut := CutToFitCut(Stem(s));
    }
  }

  /** `Sanitize` is not idempotent: cutting the dots can leave a leading space. */
  lemma SanitizeTwiceDiffers()
    ensures SafeName(". a") == " a" && SafeName(" a") == "a"
  {
    hide CutToFit, BaseName, Masked, Trim, TrimDots;
    DotStem();
    SpaceStem();
    ShortFits(" a");
    ShortFits("a");
  }

  lemma PlainStem(name: string)
    requires IsClean(name)
    ensures Stem(name) == TrimDots(Trim(name))
  {
    BaseNameCut(name);
    assert forall c :: c in name ==> !IsUnsafe(c);
    MaskedIsClean(name);
  }

  lemma DotStem()
    ensures Stem(". a") == " a"
  {
    hide BaseName, Masked;
    var d, b := ". a", " a";
    PlainStem(d);
    TrimFixpoint(d);
    assert d[1..] == b && TrimDots(b) == b && TrimDots(d) == TrimDots(d[1..]);
  }

  lemma SpaceStem()
    ensures Stem(" a") == "a"
  {
    hide BaseName, Masked;
    var b := " a";
    PlainStem(b);
    assert b[1..] == "a";
    assert TrimStart("a") == "a" && TrimStart(b) == TrimStart(b[1..]) && TrimEnd("a") == "a";
  }

  lemma ShortFits(s: string)
    requires 0 < |s| <= 2
    ensures CutToFit(s) == s
  {
    hide Utf8.EncodeChar;
    assert s[1..] == if |s| == 1 then "" else [s[1]];
    assert Utf8.Encode(s) == Utf8.EncodeChar(s[0]) + Utf8.Encode(s[1..]);
    if |s| == 2 {
      assert s[1..][1..] == "";
      assert Utf8.Encode(s[1..]) == Utf8.EncodeChar(s[1]) + Utf8.Encode("");
    }
  }

  // ── Round trip ──────────────────────────────────────────────────────

  /** Any name that fits the length field is read back, sanitised, with the same bytes. */
  lemma DecodeRawFrame(name: string, bytes: seq<byte>)
    requires |Utf8.Encode(name)| < 0x1_0000
    ensures Decode(RawFrame(name, bytes)) == Some((SafeName(name), bytes))
  {
    hide SafeName, Utf8.Encode, Utf8.Decode;
    var b := Utf8.Encode(name);
    var p := RawFrame(name, bytes);
    assert p[0] as int * 256 + p[1] as int == |b|;
    assert p[2..2 + |b|] == b;
    assert p[2 + |b|..] == bytes;
    Utf8.EncodeRoundTrip(name);
  }

  lemma HeaderDigits(hi: byte, lo: byte)
    ensures Header(hi as int * 256 + lo as int) == [hi, lo]
  {
  }

  /** Decoding refuses every payload that is not a frame, and from a frame only ever yields a safe name. */
  lemma DecodeIsFrame(payload: seq<byte>) returns (name: string)
    requires Decode(payload).Some?
    ensures var (saved, bytes) := Decode(payload).value;
            && |Utf8.Encode(name)| < 0x1_0000 && payload == RawFrame(name, bytes)
            && saved == SafeName(name) && IsSafe(saved)
  {
    hide SafeName, IsSafe, Utf8.Encode, Utf8.Decode, Header;
    var len := payload[0] as int * 256 + payload[1] as int;
    var coded, bytes := payload[2..2 + len], payload[2 + len..];
    name := Utf8.Decode(coded).value;
    Utf8.DecodeRoundTrip(coded);
    SafeNameIsSafe(name);
    HeaderDigits(payload[0], payload[1]);
    assert payload == [payload[0], payload[1]] + coded + bytes;
  }

  /** A framed file decodes to the name sanitised twice and the same bytes. */
  lemma RoundTrip(name: string, bytes: seq<byte>)
    ensures Decode(Frame(name, bytes)) == Some((SafeName(SafeName(name)), bytes))
  {
    SafeNameIsSafe(name);
    DecodeRawFrame(SafeName(name), bytes);
  }

  /** The receiver saves the file under the name that was sent iff that name has no outer white space. */
  lemma RoundTripExact(name: string, bytes: seq<byte>)
    ensures Decode(Frame(name, bytes)) == Some((SafeName(name), bytes)) <==> IsTrimmed(SafeName(name))
    ensures SafeName(name) == name ==> Decode(Frame(name, bytes)) == Some((name, bytes))
  {
    RoundTrip(name, bytes);
    SafeNameIsSafe(name);
    SafeNameFixpoint(SafeName(name));
  }

  /** The frame, byte by byte: the length of the name with the high byte first, the name, the file. */
  lemma FrameExact(name: string, bytes: seq<byte>)
    ensures var coded, frame := Utf8.Encode(SafeName(name)), Frame(name, bytes);
            && |frame| == 2 + |coded| + |bytes| && |coded| <= 255
            && frame[0] == |coded| / 256 && frame[1] == |coded| % 256
            && frame[2..2 + |coded|] == coded && frame[2 + |coded|..] == bytes
  {
    hide SafeName, Utf8.Encode;
    SafeNameIsSafe(name);
  }

  // ── Which part of a name is kept ────────────────────────────────────

  lemma {:induction false} BaseNameIsLast(dir: string, sep: char, name: string)
    requires IsSeparator(sep)
    ensures BaseName(dir + [sep] + name) == BaseName(name)
  {
    var path := dir + [sep] + name;
    if name != [] {
      assert path[|path| - 1] == name[|name| - 1] && path[..|path| - 1] == dir + [sep] + name[..|name| - 1];
      BaseNameIsLast(dir, sep, name[..|name| - 1]);
    }
  }

  /** Only what follows the last slash or backslash counts. */
  lemma DirectoriesAreDropped(dir: string, sep: char, name: string)
    requires sep == '/' || sep == '\\'
    ensures SafeName(dir + [sep] + name) == SafeName(name)
  {
    hide BaseName, Masked, CutToFit;
    BaseNameIsLast(dir, sep, name);
  }

  lemma {:induction false} MaskedFits(s: string)
    ensures |Utf8.Encode(Masked(s))| <= |Utf8.Encode(s)|
  {
    hide Utf8.EncodeChar;
    if s != [] {
      MaskedFits(s[1..]);
      assert Masked(s)[1..] == Masked(s[1..]);
      MaskIsShort();
    }
  }

  lemma MaskIsShort()
    ensures |Utf8.EncodeChar('_')| == 1
  {
  }

  /** A plain name keeps every character but those that a file name must not have, which become underscores. */
  lemma ReservedAreMasked(name: string)
    requires name != [] && |Utf8.Encode(name)| <= 255 && (forall i :: 0 <= i < |name| ==> name[i] != '/' && name[i] != '\\')
    requires !IsWhitespace(name[0]) && !IsWhitespace(name[|name| - 1]) && name[0] != '.'
    ensures |SafeName(name)| == |name|
    ensures forall i :: 0 <= i < |name| ==> SafeName(name)[i] == if IsUnsafe(name[i]) then '_' else name[i]
  {
    hide Utf8.Encode;
    BaseNameCut(name);
    MaskedFits(name);
    var m := Masked(name);
    TrimFixpoint(m);
    assert TrimDots(m) == m;
  }

  /** A name that is too long keeps as many whole characters as fit into 255 bytes. */
  lemma CutIsLongest(name: string)
    ensures var whole := if Stem(name) == [] then "file" else Stem(name);
            && SafeName(name) <= whole
            && (SafeName(name) == whole || |Utf8.Encode(whole[..|SafeName(name)| + 1])| > 255)
  {
    hide Utf8.Encode, CutToFit, Stem;
    var i := CutToFitCut(if Stem(name) == [] then "file" else Stem(name));
  }
}
