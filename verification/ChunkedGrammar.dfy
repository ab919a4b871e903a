/** The chunked body as a grammar (section 7.1 of RFC 9112), and its agreement with
    the decoder: end of file is reported for exactly the bodies the grammar gives. */
module ChunkedGrammar {
  import opened Bytes
  import opened ChunkedFormat

  // A chunk as sent: its size line, which may carry an extension, and its data.
  datatype Chunk = Chunk(line: bytes, data: bytes)
  datatype Body = Body(chunks: seq<Chunk>, last: bytes, trailers: seq<bytes>)

  // A line that fits the limit and whose first CRLF is the one that ends it.
  predicate IsLine(text: bytes) { |text| <= MAX_LINE && FindCrlf(text + CRLF) == |text| }

  predicate IsChunk(cap: nat, c: Chunk) {
    IsLine(c.line) && c.data != [] && HeaderSize(cap, c.line) == Ok(|c.data|)
  }

  function TrailerSize(trailers: seq<bytes>): nat {
    if trailers == [] then 0 else |trailers[0]| + TrailerSize(trailers[1..])
  }

  predicate AreTrailers(trailers: seq<bytes>) {
    forall t <- trailers :: IsLine(t) && t != []
  }

  predicate IsBody(cap: nat, b: Body) {
    && (forall c <- b.chunks :: IsChunk(cap, c))
    && IsLine(b.last) && HeaderSize(cap, b.last) == Ok(0)
    && AreTrailers(b.trailers) && TrailerSize(b.trailers) <= MAX_TRAILER
  }

  function Payload(chunks: seq<Chunk>): bytes {
    if chunks == [] then [] else chunks[0].data + Payload(chunks[1..])
  }

  function RenderTrailers(trailers: seq<bytes>): bytes {
    if trailers == [] then CRLF else trailers[0] + CRLF + RenderTrailers(trailers[1..])
  }

  function RenderChunk(c: Chunk): bytes { c.line + CRLF + c.data + CRLF }

  function RenderChunks(chunks: seq<Chunk>): bytes {
    if chunks == [] then [] else RenderChunk(chunks[0]) + RenderChunks(chunks[1..])
  }

  function RenderEnd(b: Body): bytes { b.last + CRLF + RenderTrailers(b.trailers) }

  function Render(b: Body): bytes { RenderChunks(b.chunks) + RenderEnd(b) }

  lemma LineIsCut(text: bytes, rest: bytes)
    requires IsLine(text)
    ensures CutLine(text + CRLF + rest) == Line(text, rest)
  {
    FindCrlfExtend(text + CRLF, rest);
    var s := text + CRLF + rest;
    assert s[..|text|] == text && s[|text| + 2..] == rest;
  }

  lemma CutIsLine(s: bytes)
    requires CutLine(s).Line?
    ensures IsLine(CutLine(s).text) && s == CutLine(s).text + CRLF + CutLine(s).rest
  {
    var at := FindCrlf(s);
    var text := s[..at];
    assert s == text + CRLF + s[at + 2..];
    assert s[..at + 2] == text + CRLF;
    FindCrlfFirst(text + CRLF, at);
    FindCrlfExtend(text + CRLF, s[at + 2..]);
  }

  lemma OneTrailer(stalls: bool, line: bytes, rest: bytes, seen: nat)
    requires IsLine(line) && line != [] && seen + |line| <= MAX_TRAILER
    ensures DecodeTrailer(stalls, line + CRLF + rest, seen) == DecodeTrailer(stalls, rest, seen + |line|)
  {
    LineIsCut(line, rest);
  }

  lemma {:induction false} TrailersDecode(stalls: bool, trailers: seq<bytes>, seen: nat, extra: bytes)
    requires AreTrailers(trailers) && seen + TrailerSize(trailers) <= MAX_TRAILER
    ensures DecodeTrailer(stalls, RenderTrailers(trailers) + extra, seen) == Eof
  {
    if trailers == [] {
      assert FindCrlf(CRLF) == 0;
      LineIsCut([], extra);
      assert [] + CRLF + extra == CRLF + extra;
    } else {
      OneTrailer(stalls, trailers[0], RenderTrailers(trailers[1..]) + extra, seen);
      Assoc(trailers[0] + CRLF, RenderTrailers(trailers[1..]), extra);
      TrailersDecode(stalls, trailers[1..], seen + |trailers[0]|, extra);
    }
  }

  lemma ChunkDecodes(cap: nat, stalls: bool, c: Chunk, rest: bytes)
    requires IsChunk(cap, c)
    ensures var more := Decode(cap, stalls, rest);
            Decode(cap, stalls, RenderChunk(c) + rest) == Decoded(c.data + more.payload, more.outcome)
  {
    var tail := c.data + CRLF + rest;
    LineIsCut(c.line, tail);
    assert RenderChunk(c) + rest == c.line + CRLF + tail;
    assert tail[..|c.data|] == c.data && tail[|c.data|..|c.data| + 2] == CRLF && tail[|c.data| + 2..] == rest;
  }

  lemma RenderFirst(b: Body)
    requires b.chunks != []
    ensures Render(b) == RenderChunk(b.chunks[0]) + Render(b.(chunks := b.chunks[1..]))
  {
    Assoc(RenderChunk(b.chunks[0]), RenderChunks(b.chunks[1..]), RenderEnd(b));
  }

  // Every body of the grammar decodes to its data, whatever follows it.
  lemma {:induction false} BodyDecodes(cap: nat, stalls: bool, b: Body, extra: bytes)
    requires IsBody(cap, b)
    ensures Decode(cap, stalls, Render(b) + extra) == Decoded(Payload(b.chunks), Eof)
    decreases |b.chunks|
  {
    if b.chunks == [] {
      var rest := RenderTrailers(b.trailers) + extra;
      LineIsCut(b.last, rest);
      assert Render(b) == RenderEnd(b);
      Assoc(b.last + CRLF, RenderTrailers(b.trailers), extra);
      TrailersDecode(stalls, b.trailers, 0, extra);
    } else {
      var tail := b.(chunks := b.chunks[1..]);
      BodyDecodes(cap, stalls, tail, extra);
      ChunkDecodes(cap, stalls, b.chunks[0], Render(tail) + extra);
      RenderFirst(b);
      Assoc(RenderChunk(b.chunks[0]), Render(tail), extra);
    }
  }

  lemma {:induction false} TrailersParse(stalls: bool, s: bytes, seen: nat) returns (trailers: seq<bytes>, extra: bytes)
    requires DecodeTrailer(stalls, s, seen) == Eof && seen <= MAX_TRAILER
    ensures AreTrailers(trailers) && seen + TrailerSize(trailers) <= MAX_TRAILER
    ensures s == RenderTrailers(trailers) + extra
    decreases |s|
  {
    CutIsLine(s);
    var Line(text, rest) := CutLine(s);
    if text == [] {
      trailers, extra := [], rest;
    } else {
      var more, extra' := TrailersParse(stalls, rest, seen + |text|);
      trailers, extra := [text] + more, extra';
      assert trailers[1..] == more;
      Assoc(text + CRLF, RenderTrailers(more), extra);
    }
  }

  lemma EndParses(cap: nat, stalls: bool, line: bytes, rest: bytes) returns (b: Body, extra: bytes)
    requires IsLine(line) && HeaderSize(cap, line) == Ok(0) && DecodeTrailer(stalls, rest, 0) == Eof
    ensures IsBody(cap, b) && line + CRLF + rest == Render(b) + extra && Payload(b.chunks) == []
  {
    var trailers;
    trailers, extra := TrailersParse(stalls, rest, 0);
    b := Body([], line, trailers);
    EndOfBody(b, extra);
  }

  // What end of file says of the first size line and what follows it.
  lemma EofUnfolds(cap: nat, stalls: bool, s: bytes) returns (line: bytes, rest: bytes)
    requires Decode(cap, stalls, s).outcome == Eof
    ensures IsLine(line) && s == line + CRLF + rest && HeaderSize(cap, line).Ok?
    ensures var size := HeaderSize(cap, line).value;
            if size == 0 then DecodeTrailer(stalls, rest, 0) == Eof && Decode(cap, stalls, s).payload == []
            else
              && |rest| >= size + 2 && rest[size..size + 2] == CRLF && Decode(cap, stalls, rest[size + 2..]).outcome == Eof
              && Decode(cap, stalls, s).payload == rest[..size] + Decode(cap, stalls, rest[size + 2..]).payload
  {
    CutIsLine(s);
    line, rest := CutLine(s).text, CutLine(s).rest;
  }

  // End of file is reported only for a body of the grammar: never before the
  // terminating chunk and its trailers are in.
  lemma {:induction false} EofOnlyAfterBody(cap: nat, stalls: bool, s: bytes) returns (b: Body, extra: bytes)
    requires Decode(cap, stalls, s).outcome == Eof
    ensures IsBody(cap, b) && s == Render(b) + extra
    ensures Payload(b.chunks) == Decode(cap, stalls, s).payload
    decreases |s|
  {
    var line, rest := EofUnfolds(cap, stalls, s);
    var size := HeaderSize(cap, line).value;
    if size == 0 {
      b, extra := EndParses(cap, stalls, line, rest);
    } else {
      var tail;
      tail, extra := EofOnlyAfterBody(cap, stalls, rest[size + 2..]);
      b := WithChunk(cap, line, rest, size, tail, extra);
    }
  }

  lemma EndOfBody(b: Body, extra: bytes)
    requires b.chunks == []
    ensures Render(b) + extra == b.last + CRLF + (RenderTrailers(b.trailers) + extra)
  {
    assert Render(b) == RenderEnd(b);
    Assoc(b.last + CRLF, RenderTrailers(b.trailers), extra);
  }

  lemma Prepend(cap: nat, c: Chunk, tail: Body, extra: bytes)
    requires IsChunk(cap, c) && IsBody(cap, tail)
    ensures var b := tail.(chunks := [c] + tail.chunks);
            && IsBody(cap, b) && Payload(b.chunks) == c.data + Payload(tail.chunks)
            && Render(b) + extra == RenderChunk(c) + (Render(tail) + extra)
  {
    var b := tail.(chunks := [c] + tail.chunks);
    assert b.chunks[1..] == tail.chunks;
    RenderFirst(b);
    Assoc(RenderChunk(c), Render(tail), extra);
  }

  lemma ChunkRest(c: Chunk, rest: bytes)
    requires |rest| >= |c.data| + 2 && c.data == rest[..|c.data|] && rest[|c.data|..|c.data| + 2] == CRLF
    ensures c.line + CRLF + rest == RenderChunk(c) + rest[|c.data| + 2..]
  {
    assert rest == c.data + CRLF + rest[|c.data| + 2..];
  }

  lemma WithChunk(cap: nat, line: bytes, rest: bytes, size: nat, tail: Body, extra: bytes) returns (b: Body)
    requires IsBody(cap, tail) && |rest| >= size + 2 && rest[size..size + 2] == CRLF && rest[size + 2..] == Render(tail) + extra
    requires IsChunk(cap, Chunk(line, rest[..size]))
    ensures IsBody(cap, b) && line + CRLF + rest == Render(b) + extra && Payload(b.chunks) == rest[..size] + Payload(tail.chunks)
  {
    var c := Chunk(line, rest[..size]);
    ChunkRest(c, rest);
    Prepend(cap, c, tail, extra);
    b := tail.(chunks := [c] + tail.chunks);
  }

  // Both directions at once.
  lemma EofIffBody(cap: nat, stalls: bool, s: bytes, payload: bytes)
    ensures Decode(cap, stalls, s) == Decoded(payload, Eof)
            <==> exists b: Body, extra: bytes {:trigger Render(b) + extra} ::
                   IsBody(cap, b) && s == Render(b) + extra && Payload(b.chunks) == payload
  {
    if Decode(cap, stalls, s) == Decoded(payload, Eof) {
      var b, extra := EofOnlyAfterBody(cap, stalls, s);
      assert s == Render(b) + extra;
    }
    forall b: Body, extra: bytes | IsBody(cap, b) && s == Render(b) + extra
      ensures Decode(cap, stalls, s) == Decoded(Payload(b.chunks), Eof)
    {
      BodyDecodes(cap, stalls, b, extra);
    }
  }
}
