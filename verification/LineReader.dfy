/** The capped line read that both ends of the IPC socket use, over a stream that arrives in chunks. */
module LineReader {
  import opened Basics

  const LF: byte := 10

  datatype ReadResult = Line(bytes: seq<byte>) | TooLong

  /** Everything the chunks carry, in order. */
  function Stream(chunks: seq<seq<byte>>): seq<byte> {
    if chunks == [] then [] else chunks[0] + Stream(chunks[1..])
  }

  /** Position of the first line feed. */
  function Newline(b: seq<byte>): (r: Option<nat>)
    ensures r.Some? ==> r.value < |b| && b[r.value] == LF && LF !in b[..r.value]
    ensures r.None? ==> LF !in b
  {
    if b == [] then None
    else if b[0] == LF then Some(0)
    else
      match Newline(b[1..])
      case None => None
      case Some(i) =>
        assert b[..i + 1] == [b[0]] + b[1..][..i];
        Some(i + 1)
  }

  /** Length of the first line with its line feed, or of the whole stream when it has none. */
  function LineLength(s: seq<byte>): nat {
    if s == [] then 0 else if s[0] == LF then 1 else 1 + LineLength(s[1..])
  }

  lemma {:induction false} LineLengthExact(s: seq<byte>)
    ensures LineLength(s) <= |s|
    ensures LF in s ==> LineLength(s) > 0 && s[LineLength(s) - 1] == LF && LF !in s[..LineLength(s) - 1]
    ensures LF !in s ==> LineLength(s) == |s|
  {
    if s != [] && s[0] != LF {
      LineLengthExact(s[1..]);
      assert s == [s[0]] + s[1..];
      var n := LineLength(s);
      if LF in s { assert s[..n - 1] == [s[0]] + s[1..][..n - 2]; }
    }
  }

  /** A run of bytes without a line feed belongs to the first line. */
  lemma {:induction false} LineLengthAfter(head: seq<byte>, rest: seq<byte>)
    requires LF !in head
    ensures LineLength(head + rest) == |head| + LineLength(rest)
  {
    if head == [] {
      assert head + rest == rest;
    } else {
      assert head == [head[0]] + head[1..];
      assert (head + rest)[1..] == head[1..] + rest;
      LineLengthAfter(head[1..], rest);
    }
  }

  class BufferedReader {
    /** What has arrived or will arrive, chunk by chunk; no chunk is empty. */
    var chunks: seq<seq<byte>>

    ghost predicate Valid() reads this { forall i :: 0 <= i < |chunks| ==> chunks[i] != [] }

    ghost function Rest(): seq<byte> reads this { Stream(chunks) }

    constructor (chunks: seq<seq<byte>>)
      requires forall i :: 0 <= i < |chunks| ==> chunks[i] != []
      ensures Valid() && this.chunks == chunks
    {
      this.chunks := chunks;
    }

    /** The bytes at hand; empty only at the end of the stream. */
    method FillBuf() returns (chunk: seq<byte>)
      requires Valid()
      ensures chunk <= Rest() && (chunk == [] <==> Rest() == [])
      ensures chunk == if chunks == [] then [] else chunks[0]
    {
      chunk := if chunks == [] then [] else chunks[0];
    }

    method Consume(n: nat)
      requires Valid()
      requires n == 0 || (chunks != [] && n <= |chunks[0]|)
      modifies this
      ensures Valid() && n <= |old(Rest())| && Rest() == old(Rest())[n..]
      ensures n > 0 ==> |chunks| < |old(chunks)| || (|chunks| == |old(chunks)| && |chunks[0]| == |old(chunks)[0]| - n)
    {
      if n > 0 {
        ghost var was := Rest();
        var left := chunks[0][n..];
        assert was[n..] == left + Stream(chunks[1..]);
        if left == [] {
          chunks := chunks[1..];
          assert was[n..] == Stream(chunks);
        } else {
          chunks := [left] + chunks[1..];
          assert chunks[1..] == old(chunks)[1..];
        }
      }
    }

    /** Reads one line of at most `max` bytes; how the stream is cut into chunks makes no difference. */
    method ReadLineCapped(max: nat) returns (r: ReadResult)
      requires Valid()
      modifies this
      ensures Valid()
      ensures r.Line? <==> LineLength(old(Rest())) <= max
      ensures r.Line? ==> r.bytes + Rest() == old(Rest()) && |r.bytes| == LineLength(old(Rest()))
      ensures r.TooLong? ==>
                var used := |old(Rest())| - |Rest()|;
                max < used <= LineLength(old(Rest())) && Rest() == old(Rest())[used..]
    {
      hide Newline, LineLength, Stream;
      var bytes: seq<byte> := [];
      ghost var whole := Rest();
      assert whole[0..] == whole;
      while true
        invariant Valid()
        invariant |bytes| <= |whole| && bytes == whole[..|bytes|] && Rest() == whole[|bytes|..]
        invariant LF !in bytes && |bytes| <= max
        decreases |chunks|
      {
        var chunk := FillBuf();
        if chunk == [] {
          AtEnd(whole, |bytes|);
          return Line(bytes);
        }
        var at := Newline(chunk);
        var take, done := if at.Some? then at.value + 1 else |chunk|, at.Some?;
        TakeChunk(whole, |bytes|, chunk, take);
        if |bytes| + take > max {
          Consume(take);
          return TooLong;
        }
        bytes := bytes + chunk[..take];
        Consume(take);
        if done {
          return Line(bytes);
        }
      }
    }

    /** Reads lines until the stream is at its end, or a line is too long: the lines read are the lines of the stream, in
        order and none left out, up to the first one that does not fit. */
    method ReadLines(max: nat) returns (lines: seq<seq<byte>>, ok: bool)
      requires Valid()
      modifies this
      ensures Valid()
      ensures ok <==> forall line <- Lines(old(Rest())) :: |line| <= max
      ensures ok ==> lines == Lines(old(Rest())) && Rest() == []
      ensures !ok ==> lines < Lines(old(Rest())) && |Lines(old(Rest()))[|lines|]| > max
    {
      hide LineLength, Lines;
      ghost var whole := Rest();
      ghost var all := Lines(whole);
      lines, ok := [], true;
      while chunks != []
        invariant Valid()
        invariant all == lines + Lines(Rest())
        invariant forall line <- lines :: |line| <= max
        decreases |Rest()|
      {
        ghost var rest := Rest();
        NextLine(rest);
        var r := ReadLineCapped(max);
        if r.TooLong? {
          assert all[|lines|] == rest[..LineLength(rest)];
          return lines, false;
        }
        assert r.bytes == rest[..LineLength(rest)] && Rest() == rest[LineLength(rest)..];
        lines := lines + [r.bytes];
      }
      NoLines();
      assert all == lines;
    }
  }

  lemma TakeMore(whole: seq<byte>, pos: nat, chunk: seq<byte>, take: nat)
    requires pos <= |whole| && chunk <= whole[pos..] && take <= |chunk|
    ensures pos + take <= |whole| && whole[..pos] + chunk[..take] == whole[..pos + take]
    ensures whole[pos..][take..] == whole[pos + take..]
  {
    assert chunk[..take] == whole[pos..pos + take];
  }

  lemma SplitAt(whole: seq<byte>, pos: nat, chunk: seq<byte>)
    requires pos <= |whole| && chunk <= whole[pos..]
    ensures whole == whole[..pos] + (chunk + whole[pos..][|chunk|..])
  {
    assert whole[pos..] == chunk + whole[pos..][|chunk|..];
  }

  /** With nothing left, a line without a line feed is the whole stream. */
  lemma AtEnd(whole: seq<byte>, pos: nat)
    requires pos <= |whole| && whole[pos..] == [] && LF !in whole[..pos]
    ensures pos == |whole| == LineLength(whole) && whole[..pos] == whole && whole[..pos] + [] == whole
  {
    hide LineLength;
    LineLengthExact(whole);
  }

  /** Taking a chunk up to its line feed completes the line; taking a chunk without one does not. */
  lemma TakeChunk(whole: seq<byte>, pos: nat, chunk: seq<byte>, take: nat)
    requires pos <= |whole| && chunk <= whole[pos..] && LF !in whole[..pos] && chunk != []
    requires take == if Newline(chunk).Some? then Newline(chunk).value + 1 else |chunk|
    ensures 0 < take <= |chunk| && pos + take <= LineLength(whole) <= |whole|
    ensures whole[..pos] + chunk[..take] == whole[..pos + take] && whole[pos..][take..] == whole[pos + take..]
    ensures Newline(chunk).Some? ==> LineLength(whole) == pos + take
    ensures Newline(chunk).None? ==> LF !in whole[..pos + take]
  {
    hide Newline, LineLength;
    var head, rest := whole[..pos], whole[pos..][|chunk|..];
    SplitAt(whole, pos, chunk);
    TakeMore(whole, pos, chunk, take);
    LineLengthExact(whole);
    LineLengthAfter(head, chunk + rest);
    LineLengthOfChunk(chunk, rest);
    if Newline(chunk).None? { NotInEither(head, chunk[..take]); }
  }

  lemma NotInEither(a: seq<byte>, b: seq<byte>)
    requires LF !in a && LF !in b
    ensures LF !in a + b
  {
  }

  /** A chunk decides the line it holds a line feed of, and belongs to the line otherwise. */
  lemma LineLengthOfChunk(chunk: seq<byte>, rest: seq<byte>)
    requires chunk != []
    ensures Newline(chunk).Some? ==> LineLength(chunk + rest) == Newline(chunk).value + 1
    ensures Newline(chunk).None? ==> |chunk| <= LineLength(chunk + rest)
  {
    match Newline(chunk)
    case None => LineLengthAfter(chunk, rest);
    case Some(i) =>
      LineLengthAfter(chunk[..i], chunk[i..] + rest);
      assert chunk[..i] + (chunk[i..] + rest) == chunk + rest;
  }

  // ── Repeated reads split the stream into its lines ──────────────────

  function Lines(s: seq<byte>): seq<seq<byte>>
    decreases |s|
  {
    LineLengthExact(s);
    var n := LineLength(s);
    if s == [] then [] else [s[..n]] + Lines(s[n..])
  }

  /** The first line, and the lines behind it. */
  lemma NextLine(s: seq<byte>)
    requires s != []
    ensures 0 < LineLength(s) <= |s|
    ensures Lines(s) == [s[..LineLength(s)]] + Lines(s[LineLength(s)..])
  {
    LineLengthExact(s);
  }

  lemma NoLines()
    ensures Lines([]) == []
  {
  }

  /** One line: a line feed stands at its end and nowhere else, and may be missing if nothing follows. */
  ghost predicate IsLine(line: seq<byte>, isLast: bool) {
    && line != []
    && LF !in line[..|line| - 1]
    && (line[|line| - 1] == LF || isLast)
  }

  ghost predicate AreLines(lines: seq<seq<byte>>) {
    forall i :: 0 <= i < |lines| ==> IsLine(lines[i], i == |lines| - 1)
  }

  lemma LinesCons(head: seq<byte>, tail: seq<seq<byte>>)
    requires IsLine(head, tail == []) && AreLines(tail)
    ensures AreLines([head] + tail) && Stream([head] + tail) == head + Stream(tail)
  {
    hide IsLine;
    var lines := [head] + tail;
    assert lines[1..] == tail;
    forall i | 0 <= i < |lines| ensures IsLine(lines[i], i == |lines| - 1) {
      if i > 0 { assert lines[i] == tail[i - 1]; }
    }
  }

  lemma LinesUncons(lines: seq<seq<byte>>)
    requires lines != [] && AreLines(lines)
    ensures IsLine(lines[0], lines[1..] == []) && AreLines(lines[1..]) && Stream(lines) == lines[0] + Stream(lines[1..])
  {
    hide IsLine;
    var tail := lines[1..];
    forall i | 0 <= i < |tail| ensures IsLine(tail[i], i == |tail| - 1) { assert tail[i] == lines[i + 1]; }
  }

  /** The first line of a stream is one. */
  lemma FirstIsLine(s: seq<byte>)
    requires s != []
    ensures 0 < LineLength(s) <= |s| && IsLine(s[..LineLength(s)], s[LineLength(s)..] == [])
  {
    LineLengthExact(s);
    var n := LineLength(s);
    assert s[..n][..n - 1] == s[..n - 1];
    if LF !in s { assert s[n..] == []; }
  }

  /** A line that begins a stream is its first line. */
  lemma LineIsFirst(line: seq<byte>, rest: seq<byte>)
    requires IsLine(line, rest == [])
    ensures LineLength(line + rest) == |line|
  {
    var stem, last := line[..|line| - 1], [line[|line| - 1]];
    assert line + rest == stem + (last + rest);
    LineLengthAfter(stem, last + rest);
    if last[0] != LF { assert last + rest == last && last[1..] == []; }
  }

  /** The lines of a stream put together are the stream. */
  lemma {:induction false} LinesSplit(s: seq<byte>)
    ensures Stream(Lines(s)) == s && AreLines(Lines(s))
    decreases |s|
  {
    hide LineLength, IsLine, AreLines, Lines, Stream;
    NoLines();
    if s == [] {
      NothingAtAll();
    } else {
      var n := LineLength(s);
      FirstIsLine(s);
      NextLine(s);
      LinesSplit(s[n..]);
      if s[n..] != [] { NextLine(s[n..]); }
      LinesCons(s[..n], Lines(s[n..]));
    }
  }

  lemma NothingAtAll()
    ensures Stream([]) == [] && AreLines([])
  {
  }

  /** There is only one way to cut a stream into lines, so reading line by line finds it. */
  lemma {:induction false} LinesUnique(lines: seq<seq<byte>>)
    requires AreLines(lines)
    ensures Lines(Stream(lines)) == lines
  {
    hide LineLength, IsLine, AreLines, Lines, Stream;
    NoLines();
    NothingAtAll();
    if lines != [] {
      var head, tail := lines[0], lines[1..];
      LinesUncons(lines);
      LinesUnique(tail);
      var s := Stream(lines);
      LineIsFirst(head, Stream(tail));
      LineIsSome(head, tail == []);
      NextLine(s);
      assert s[..|head|] == head && s[|head|..] == Stream(tail);
      assert lines == [head] + tail;
    }
  }

  lemma LineIsSome(line: seq<byte>, isLast: bool)
    requires IsLine(line, isLast)
    ensures line != []
  {
  }
}
