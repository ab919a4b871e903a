/** How the de-framing of a body that is cut short or malformed ends: with the data of
    every whole chunk before, and the error that names what is wrong. */
module ChunkedFailures {
  import opened Bytes
  import opened ChunkedFormat
  import opened ChunkedGrammar

  predicate AreChunks(cap: nat, chunks: seq<Chunk>) { forall c <- chunks :: IsChunk(cap, c) }

  // Whole chunks are taken off the front, whatever follows them.
  lemma {:induction false} AfterChunks(cap: nat, stalls: bool, chunks: seq<Chunk>, rest: bytes)
    requires AreChunks(cap, chunks)
    ensures var d := Decode(cap, stalls, rest);
            Decode(cap, stalls, RenderChunks(chunks) + rest) == Decoded(Payload(chunks) + d.payload, d.outcome)
    decreases |chunks|
  {
    if chunks == [] {
      assert RenderChunks(chunks) + rest == rest;
    } else {
      var tail := chunks[1..];
      AfterChunks(cap, stalls, tail, rest);
      ChunkDecodes(cap, stalls, chunks[0], RenderChunks(tail) + rest);
      Assoc(RenderChunk(chunks[0]), RenderChunks(tail), rest);
      Assoc(chunks[0].data, Payload(tail), Decode(cap, stalls, rest).payload);
    }
  }

  // No line ends in `s`, and it may still be one.
  predicate IsPartOfLine(s: bytes) { FindCrlf(s) < 0 && |s| <= 8192 }

  // A line that is longer than 8192 bytes, or will be.
  predicate IsOverlong(s: bytes) { FindCrlf(s) > 8192 || (FindCrlf(s) < 0 && |s| > 8192) }

  lemma Ends(cap: nat, stalls: bool, chunks: seq<Chunk>, rest: bytes, error: Error)
    requires AreChunks(cap, chunks) && Decode(cap, stalls, rest) == Decoded([], Failed(error))
    ensures Decode(cap, stalls, RenderChunks(chunks) + rest) == Decoded(Payload(chunks), Failed(error))
  {
    AfterChunks(cap, stalls, chunks, rest);
    assert Payload(chunks) + [] == Payload(chunks);
  }

  // The bytes end where a size line should be: the peer stalled, or closed before the
  // last chunk.
  lemma CutInSizeLine(cap: nat, stalls: bool, chunks: seq<Chunk>, part: bytes)
    requires AreChunks(cap, chunks) && IsPartOfLine(part)
    ensures Decode(cap, stalls, RenderChunks(chunks) + part)
         == Decoded(Payload(chunks), Failed(if stalls then Stalled else ClosedInHeader))
  {
    Ends(cap, stalls, chunks, part, if stalls then Stalled else ClosedInHeader);
  }

  lemma OverlongSizeLine(cap: nat, stalls: bool, chunks: seq<Chunk>, rest: bytes)
    requires AreChunks(cap, chunks) && IsOverlong(rest)
    ensures Decode(cap, stalls, RenderChunks(chunks) + rest) == Decoded(Payload(chunks), Failed(OversizedLine))
  {
    Ends(cap, stalls, chunks, rest, OversizedLine);
  }

  lemma BadSizeLine(cap: nat, stalls: bool, chunks: seq<Chunk>, line: bytes, rest: bytes)
    requires AreChunks(cap, chunks) && IsLine(line) && HeaderSize(cap, line).Err?
    ensures Decode(cap, stalls, RenderChunks(chunks) + (line + CRLF + rest))
         == Decoded(Payload(chunks), Failed(HeaderSize(cap, line).error))
  {
    LineIsCut(line, rest);
    Ends(cap, stalls, chunks, line + CRLF + rest, HeaderSize(cap, line).error);
  }

  // The bytes end inside a chunk's data or the CRLF behind it. None of that data is
  // delivered.
  lemma CutInChunk(cap: nat, stalls: bool, chunks: seq<Chunk>, line: bytes, part: bytes)
    requires AreChunks(cap, chunks) && IsLine(line) && HeaderSize(cap, line).Ok?
    requires 0 < HeaderSize(cap, line).value && |part| < HeaderSize(cap, line).value + 2
    ensures Decode(cap, stalls, RenderChunks(chunks) + (line + CRLF + part))
         == Decoded(Payload(chunks), Failed(if stalls then Stalled else ClosedMidChunk))
  {
    LineIsCut(line, part);
    Ends(cap, stalls, chunks, line + CRLF + part, if stalls then Stalled else ClosedMidChunk);
  }

  // Something other than CRLF behind a chunk's data.
  lemma BadChunkEnd(cap: nat, stalls: bool, chunks: seq<Chunk>, line: bytes, data: bytes, x: byte, y: byte, rest: bytes)
    requires AreChunks(cap, chunks) && IsLine(line) && data != [] && HeaderSize(cap, line) == Ok(|data|)
    requires x != 13 || y != 10
    ensures Decode(cap, stalls, RenderChunks(chunks) + (line + CRLF + (data + [x, y] + rest)))
         == Decoded(Payload(chunks), Failed(BadTerminator))
  {
    var after := data + [x, y] + rest;
    LineIsCut(line, after);
    assert after[|data|..|data| + 2] == [x, y];
    assert [x, y][0] == x && [x, y][1] == y;
    Ends(cap, stalls, chunks, line + CRLF + after, BadTerminator);
  }

  // ---- The trailers --------------------------------------------------------

  function Lines(lines: seq<bytes>): bytes {
    if lines == [] then [] else lines[0] + CRLF + Lines(lines[1..])
  }

  // Decoding `line` and then `rest` comes to decoding `rest`.
  ghost predicate Passes(d: (bytes, nat) -> Outcome, line: bytes, rest: bytes, seen: nat) {
    d(line + CRLF + rest, seen) == d(rest, seen + |line|)
  }

  ghost predicate PassesEach(d: (bytes, nat) -> Outcome, lines: seq<bytes>) {
    forall i, more, n: nat | 0 <= i < |lines| && n + |lines[i]| <= 8192 :: Passes(d, lines[i], more, n)
  }

  lemma {:induction false} PassesAll(d: (bytes, nat) -> Outcome, lines: seq<bytes>, rest: bytes, seen: nat)
    requires PassesEach(d, lines) && seen + TrailerSize(lines) <= 8192
    ensures d(Lines(lines) + rest, seen) == d(rest, seen + TrailerSize(lines))
    decreases |lines|
  {
    if lines == [] {
      assert Lines(lines) + rest == rest;
    } else {
      var tail := Lines(lines[1..]) + rest;
      Assoc(lines[0] + CRLF, Lines(lines[1..]), rest);
      assert Passes(d, lines[0], tail, seen);
      PassesAll(d, lines[1..], rest, seen + |lines[0]|);
    }
  }

  function TrailersWith(stalls: bool): (bytes, nat) -> Outcome { (s: bytes, n: nat) => DecodeTrailer(stalls, s, n) }

  lemma EachTrailerPasses(stalls: bool, lines: seq<bytes>)
    requires AreTrailers(lines)
    ensures PassesEach(TrailersWith(stalls), lines)
  {
    forall i, more, n: nat | 0 <= i < |lines| && n + |lines[i]| <= 8192
      ensures Passes(TrailersWith(stalls), lines[i], more, n)
    {
      assert lines[i] in lines;
      OneTrailer(stalls, lines[i], more, n);
    }
  }

  lemma AfterTrailers(stalls: bool, lines: seq<bytes>, rest: bytes, seen: nat)
    requires AreTrailers(lines) && seen + TrailerSize(lines) <= 8192
    ensures DecodeTrailer(stalls, Lines(lines) + rest, seen) == DecodeTrailer(stalls, rest, seen + TrailerSize(lines))
  {
    EachTrailerPasses(stalls, lines);
    PassesAll(TrailersWith(stalls), lines, rest, seen);
  }

  lemma InTrailers(cap: nat, stalls: bool, b: Body, rest: bytes, error: Error)
    requires IsBody(cap, b) && DecodeTrailer(stalls, rest, TrailerSize(b.trailers)) == Failed(error)
    ensures Decode(cap, stalls, RenderChunks(b.chunks) + (b.last + CRLF + (Lines(b.trailers) + rest)))
         == Decoded(Payload(b.chunks), Failed(error))
  {
    AfterTrailers(stalls, b.trailers, rest, 0);
    LineIsCut(b.last, Lines(b.trailers) + rest);
    Ends(cap, stalls, b.chunks, b.last + CRLF + (Lines(b.trailers) + rest), error);
  }

  // The bytes end after the last chunk and some trailers, before the empty line.
  lemma CutInTrailer(cap: nat, stalls: bool, b: Body, part: bytes)
    requires IsBody(cap, b) && IsPartOfLine(part)
    ensures Decode(cap, stalls, RenderChunks(b.chunks) + (b.last + CRLF + (Lines(b.trailers) + part)))
         == Decoded(Payload(b.chunks), Failed(if stalls then Stalled else ClosedInTrailer))
  {
    InTrailers(cap, stalls, b, part, if stalls then Stalled else ClosedInTrailer);
  }

  lemma OverlongTrailer(cap: nat, stalls: bool, b: Body, rest: bytes)
    requires IsBody(cap, b) && IsOverlong(rest)
    ensures Decode(cap, stalls, RenderChunks(b.chunks) + (b.last + CRLF + (Lines(b.trailers) + rest)))
         == Decoded(Payload(b.chunks), Failed(OversizedLine))
  {
    InTrailers(cap, stalls, b, rest, OversizedLine);
  }

  // The trailer that takes the section over 8192 bytes ends it.
  lemma TooManyTrailers(cap: nat, stalls: bool, b: Body, line: bytes, rest: bytes)
    requires IsBody(cap, b) && IsLine(line) && TrailerSize(b.trailers) + |line| > 8192
    ensures Decode(cap, stalls, RenderChunks(b.chunks) + (b.last + CRLF + (Lines(b.trailers) + (line + CRLF + rest))))
         == Decoded(Payload(b.chunks), Failed(TrailerTooLarge))
  {
    LineIsCut(line, rest);
    InTrailers(cap, stalls, b, line + CRLF + rest, TrailerTooLarge);
  }
}
