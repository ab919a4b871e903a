/** `ChunkedBodyDecoder` (app/server/llm_client.cpp): the push decoder that reads the
    sidecar's replies, and its agreement with the strict one. */
module LenientDecoder {
  import opened Bytes
  import opened Stream
  import opened ChunkedFormat
  import opened ChunkedGrammar

  datatype Mode = Size | SizeLf | Data | DataCr | DataLf | TrailerCr | Done

  // The decoder's fields, and everything it has appended to `out`.
  datatype Decoder = Decoder(mode: Mode, sizeLine: bytes, remaining: size_t, out: bytes)

  const START := Decoder(Size, [], 0, [])

  // Bytes that are not hexadecimal digits are skipped; the arithmetic is size_t's.
  function LenientValue(digits: bytes): size_t {
    if digits == [] then 0
    else
      var before := LenientValue(digits[..|digits| - 1]);
      var d := digits[|digits| - 1];
      if IsHex(d) then (before * 16 + HexDigit(d)) % SIZE_LIMIT else before
  }

  function Step(d: Decoder, b: byte): Decoder {
    match d.mode
    case Size => if b == CR then d.(mode := SizeLf) else d.(sizeLine := d.sizeLine + [b])
    case SizeLf =>
      var size := LenientValue(BeforeExtension(d.sizeLine));
      Sized(size, d.out)
    case Data =>
      if d.remaining == 0 then d
      else Decoder(if d.remaining == 1 then DataCr else Data, d.sizeLine, d.remaining - 1, d.out + [b])
    case DataCr => d.(mode := DataLf)
    case DataLf => d.(mode := Size)
    case TrailerCr => if b == LF then d.(mode := Done) else d
    case Done => d
  }

  lemma {:induction false} DoneIsFinal(d: Decoder, data: bytes)
    requires d.mode.Done?
    ensures Feed(Step, d, data) == d
  {
    if data != [] { DoneIsFinal(d, data[1..]); }
  }

  // -------------------------------------------------------------------------
  // Agreement with the strict decoder
  // -------------------------------------------------------------------------

  lemma {:induction false} SkipsLeading(x: byte, s: bytes)
    requires !IsHex(x)
    ensures LenientValue([x] + s) == LenientValue(s)
  {
    if s == [] {
      assert [x] + s == [x];
      assert [x][..0] == [];
    } else {
      SkipsLeading(x, s[..|s| - 1]);
      assert ([x] + s)[..|s|] == [x] + s[..|s| - 1];
    }
  }

  lemma {:induction false} SkipsPadding(s: bytes)
    ensures LenientValue(Trim(s)) == LenientValue(s)
    decreases |s|
  {
    if s == [] {
    } else if IsSpace(s[0]) {
      SkipsPadding(s[1..]);
      SkipsLeading(s[0], s[1..]);
      assert s == [s[0]] + s[1..];
    } else if IsSpace(s[|s| - 1]) {
      SkipsPadding(s[..|s| - 1]);
    }
  }

  lemma {:induction false} SameValue(cap: size_t, digits: bytes)
    requires SizeOf(cap, digits).Ok?
    ensures LenientValue(digits) == SizeOf(cap, digits).value <= cap
  {
    if digits != [] { SameValue(cap, digits[..|digits| - 1]); }
  }

  lemma SameSize(cap: size_t, line: bytes)
    requires HeaderSize(cap, line).Ok?
    ensures LenientValue(BeforeExtension(line)) == HeaderSize(cap, line).value
  {
    SkipsPadding(BeforeExtension(line));
    SameValue(cap, Trim(BeforeExtension(line)));
  }

  function Sized(size: size_t, out: bytes): Decoder {
    Decoder(if size == 0 then TrailerCr else Data, [], size, out)
  }

  lemma {:induction false} FeedSizeLine(prefix: bytes, out: bytes, line: bytes, rest: bytes)
    requires CR !in line
    ensures Feed(Step, Decoder(Size, prefix, 0, out), line + CRLF + rest)
         == Feed(Step, Sized(LenientValue(BeforeExtension(prefix + line)), out), rest)
    decreases |line|
  {
    var d := Decoder(Size, prefix, 0, out);
    var data := line + CRLF + rest;
    if line == [] {
      assert prefix + line == prefix;
      assert data[0] == CR && data[1..] == [LF] + rest;
      assert ([LF] + rest)[1..] == rest;
      assert Feed(Step, d, data) == Feed(Step, Step(d, CR), [LF] + rest);
    } else {
      assert data[0] == line[0] && data[1..] == line[1..] + CRLF + rest;
      assert prefix + [line[0]] + line[1..] == prefix + line;
      FeedSizeLine(prefix + [line[0]], out, line[1..], rest);
    }
  }

  lemma FeedDataEnd(out: bytes, rest: bytes)
    ensures Feed(Step, Decoder(DataCr, [], 0, out), CRLF + rest) == Feed(Step, Decoder(Size, [], 0, out), rest)
  {
    var tail := CRLF + rest;
    assert tail[1..] == [LF] + rest;
    assert ([LF] + rest)[1..] == rest;
    assert Feed(Step, Decoder(DataCr, [], 0, out), tail) == Feed(Step, Decoder(DataLf, [], 0, out), [LF] + rest);
  }

  lemma {:induction false} FeedData(out: bytes, data: bytes, rest: bytes)
    requires 0 < |data| < SIZE_LIMIT
    ensures Feed(Step, Decoder(Data, [], |data|, out), data + CRLF + rest) == Feed(Step, Decoder(Size, [], 0, out + data), rest)
    decreases |data|
  {
    var d := Decoder(Data, [], |data|, out);
    var all := data + CRLF + rest;
    assert all[0] == data[0] && all[1..] == data[1..] + CRLF + rest;
    assert out + [data[0]] + data[1..] == out + data;
    if |data| == 1 {
      FeedDataEnd(out + data, rest);
      assert out + data == out + [data[0]] && all[1..] == CRLF + rest;
    } else {
      FeedData(out + [data[0]], data[1..], rest);
    }
  }

  lemma {:induction false} FeedTrailer(remaining: size_t, out: bytes, data: bytes)
    requires LF in data
    ensures Feed(Step, Decoder(TrailerCr, [], remaining, out), data) == Decoder(Done, [], remaining, out)
  {
    if data[0] == LF {
      DoneIsFinal(Decoder(Done, [], remaining, out), data[1..]);
    } else {
      FeedTrailer(remaining, out, data[1..]);
    }
  }

  lemma TrailersHaveLf(trailers: seq<bytes>)
    ensures LF in RenderTrailers(trailers)
  {
    assert CRLF[1] == LF;
    if trailers != [] {
      var s := trailers[0] + CRLF + RenderTrailers(trailers[1..]);
      assert s[|trailers[0]| + 1] == LF;
    }
  }

  // No size line has a CR except the one that ends it.
  predicate PlainSizeLines(b: Body) {
    (forall c <- b.chunks :: CR !in c.line) && CR !in b.last
  }

  lemma FeedChunk(cap: size_t, out: bytes, c: Chunk, rest: bytes)
    requires IsChunk(cap, c) && CR !in c.line
    ensures Feed(Step, Decoder(Size, [], 0, out), RenderChunk(c) + rest) == Feed(Step, Decoder(Size, [], 0, out + c.data), rest)
  {
    SizeOfMeaning(cap, Trim(BeforeExtension(c.line)));
    SameSize(cap, c.line);
    var tail := c.data + CRLF + rest;
    assert RenderChunk(c) + rest == c.line + CRLF + tail;
    assert [] + c.line == c.line;
    FeedSizeLine([], out, c.line, tail);
    FeedData(out, c.data, rest);
  }

  // On every body the strict decoder accepts, extensions, padding, leading zeros
  // and trailers included, the lenient one gives the same payload and is done.
  lemma {:induction false} DecodersAgree(cap: size_t, b: Body, out: bytes, extra: bytes)
    requires IsBody(cap, b) && PlainSizeLines(b)
    ensures Feed(Step, Decoder(Size, [], 0, out), Render(b) + extra)
         == Decoder(Done, [], 0, out + Decode(cap, false, Render(b) + extra).payload)
    decreases |b.chunks|
  {
    BodyDecodes(cap, false, b, extra);
    if b.chunks == [] {
      SameSize(cap, b.last);
      var rest := RenderTrailers(b.trailers) + extra;
      EndOfBody(b, extra);
      assert [] + b.last == b.last;
      FeedSizeLine([], out, b.last, rest);
      TrailersHaveLf(b.trailers);
      FeedTrailer(0, out, rest);
      assert out + [] == out;
    } else {
      var tail := b.(chunks := b.chunks[1..]);
      RenderFirst(b);
      Assoc(RenderChunk(b.chunks[0]), Render(tail), extra);
      FeedChunk(cap, out, b.chunks[0], Render(tail) + extra);
      BodyDecodes(cap, false, tail, extra);
      DecodersAgree(cap, tail, out + b.chunks[0].data, extra);
      Assoc(out, b.chunks[0].data, Payload(tail.chunks));
    }
  }

  lemma {:induction false} OutOnlyGrows(d: Decoder, data: bytes)
    ensures d.out <= Feed(Step, d, data).out
    decreases |data|
  {
    if data != [] { OutOnlyGrows(Step(d, data[0]), data[1..]); }
  }

  // What follows a size line's first CR and the byte after it is data, of which the
  // output holds at least a byte, or a trailer, which the line's own LF ends.
  lemma BeyondSizeLine(size: size_t, out: bytes, rest: bytes, v: size_t)
    requires LF in rest
    ensures Feed(Step, Sized(size, out), rest) != Sized(v, out)
  {
    if size == 0 {
      FeedTrailer(0, out, rest);
    } else {
      OutOnlyGrows(Step(Sized(size, out), rest[0]), rest[1..]);
    }
  }

  lemma {:induction false} StrayCrIsMissed(prefix: bytes, out: bytes, line: bytes, v: size_t)
    requires CR in line
    ensures Feed(Step, Decoder(Size, prefix, 0, out), line + CRLF) != Sized(v, out)
    decreases |line|
  {
    var d, data := Decoder(Size, prefix, 0, out), line + CRLF;
    assert data[1..] == line[1..] + CRLF;
    if line[0] == CR {
      var tail := line[1..] + CRLF;
      assert tail[1..][|line| - 1] == LF;
      BeyondSizeLine(LenientValue(BeforeExtension(prefix)), out, tail[1..], v);
    } else {
      StrayCrIsMissed(prefix + [line[0]], out, line[1..], v);
    }
  }

  // A size line is read as the size it gives, and its end as its end, exactly if it
  // holds no CR.
  lemma SizeLineReadIff(line: bytes, out: bytes)
    ensures Feed(Step, Decoder(Size, [], 0, out), line + CRLF) == Sized(LenientValue(BeforeExtension(line)), out)
       <==> CR !in line
  {
    if CR in line {
      StrayCrIsMissed([], out, line, LenientValue(BeforeExtension(line)));
    } else {
      FeedSizeLine([], out, line, []);
      assert line + CRLF + [] == line + CRLF && [] + line == line;
    }
  }

  function Stray(data: byte): Body { Body([Chunk([49, 59, CR, 122], [data])], [48], []) }

  const STRAY_HEAD: bytes := [49, 59, CR, 122, CR]
  const STRAY_END: bytes := [48, CR, LF, CR, LF]

  lemma StrayRendered(data: byte)
    ensures Render(Stray(data)) == STRAY_HEAD + ([LF, data] + CRLF + STRAY_END)
  {
    var b := Stray(data);
    assert b.chunks[1..] == [];
    assert RenderChunk(b.chunks[0]) == [49, 59, CR, 122] + CRLF + [data] + CRLF;
    assert RenderTrailers([]) == CRLF;
    assert Render(b.(chunks := [])) == [48] + CRLF + CRLF == STRAY_END;
  }

  // A body with such a line is read alike only by accident. After the size line
  // "1;<CR>z" the strict decoder reads the chunk's one byte, the lenient one the
  // carriage return.
  lemma StrayCrDiverges(data: byte)
    ensures Decode(16, false, Render(Stray(data))) == Decoded([data], Eof)
    ensures Feed(Step, START, Render(Stray(data))).out == [data] <==> data == CR
  {
    var body := Stray(data);
    StrayIsBody(data);
    BodyDecodes(16, false, body, []);
    assert Render(body) + [] == Render(body);
    assert Payload(body.chunks) == [data];
    var tail := [LF, data] + CRLF + STRAY_END;
    StrayRendered(data);
    FeedConcat(Step, START, STRAY_HEAD, tail);
    StrayHead();
    OutOnlyGrows(Feed(Step, START, STRAY_HEAD), tail);
    if data == CR {
      StrayTail(STRAY_END);
    } else {
      assert Feed(Step, START, Render(body)).out[0] == CR != [data][0];
    }
  }

  lemma StrayHead()
    ensures Feed(Step, START, STRAY_HEAD) == Decoder(DataCr, [], 0, [CR])
  {
    var d1, d2 := Step(START, 49), Step(Step(START, 49), 59);
    assert STRAY_HEAD[1..] == [59, CR, 122, CR] && Feed(Step, START, STRAY_HEAD) == Feed(Step, d1, [59, CR, 122, CR]);
    assert [59, CR, 122, CR][1..] == [CR, 122, CR] && Feed(Step, d1, [59, CR, 122, CR]) == Feed(Step, d2, [CR, 122, CR]);
    var d3 := Step(d2, CR);
    assert [CR, 122, CR][1..] == [122, CR] && Feed(Step, d2, [CR, 122, CR]) == Feed(Step, d3, [122, CR]);
    assert d3.sizeLine == [49, 59];
    assert [122, CR][1..] == [CR] && Feed(Step, d3, [122, CR]) == Feed(Step, Step(d3, 122), [CR]);
    assert BeforeExtension([49, 59]) == [49] by { assert [49, 59][1..] == [59]; }
    assert LenientValue([49]) == 1 by { assert [49][..0] == []; }
    assert Step(d3, 122) == Sized(1, []);
    assert [CR][1..] == [] && Feed(Step, Sized(1, []), [CR]) == Feed(Step, Step(Sized(1, []), CR), []);
  }

  // The two bytes left of the chunk pass for the end of its data, the CRLF after it for
  // an empty size line, and the last chunk for trailers.
  lemma StrayTail(rest: bytes)
    requires LF in rest
    ensures Feed(Step, Decoder(DataCr, [], 0, [CR]), [LF, CR] + CRLF + rest) == Decoder(Done, [], 0, [CR])
  {
    var d, tail := Decoder(DataCr, [], 0, [CR]), [LF, CR] + CRLF + rest;
    assert tail[1..] == [CR] + (CRLF + rest) && ([CR] + (CRLF + rest))[1..] == CRLF + rest;
    assert Feed(Step, d, tail) == Feed(Step, d.(mode := DataLf), [CR] + (CRLF + rest));
    assert Feed(Step, d, tail) == Feed(Step, Decoder(Size, [], 0, [CR]), CRLF + rest);
    assert [] + CRLF + rest == CRLF + rest;
    FeedSizeLine([], [CR], [], rest);
    FeedTrailer(0, [CR], rest);
  }

  lemma StrayLine()
    ensures IsLine([49, 59, CR, 122])
  {
    var s: bytes := [122, CR, LF];
    assert s[1..] == [CR, LF] && FindCrlf(s) == 1;
    assert [CR, 122, CR, LF][1..] == s && FindCrlf([CR, 122, CR, LF]) == 2;
    assert [59, CR, 122, CR, LF][1..] == [CR, 122, CR, LF] && FindCrlf([59, CR, 122, CR, LF]) == 3;
    assert [49, 59, CR, 122, CR, LF][1..] == [59, CR, 122, CR, LF];
    assert [49, 59, CR, 122] + CRLF == [49, 59, CR, 122, CR, LF];
  }

  lemma StrayIsBody(data: byte)
    ensures IsBody(16, Stray(data))
  {
    var line: bytes := [49, 59, CR, 122];
    StrayLine();
    assert BeforeExtension(line) == [49] by {
      assert line[1..] == [59, CR, 122];
    }
    assert Trim([49]) == [49];
    assert SizeOf(16, [49]) == Ok(1) by {
      assert [49][..0] == [];
    }
    assert BeforeExtension([48]) == [48] by {
      assert [48][1..] == [];
    }
    assert SizeOf(16, [48]) == Ok(0) by {
      assert [48][..0] == [];
    }
    assert FindCrlf([48] + CRLF) == 1 by {
      assert ([48] + CRLF)[1..] == CRLF;
    }
  }

  // ---- The decoder as an object --------------------------------------------

  class ChunkedBodyDecoder {
    var state: Mode
    var sizeLine: bytes
    var remaining: size_t
    // What `feed` has appended to its output string.
    var out: bytes

    function View(): Decoder
      reads this
    {
      Decoder(state, sizeLine, remaining, out)
    }

    ghost predicate Valid()
      reads this
    {
      state.Data? ==> remaining > 0
    }

    constructor ()
      ensures Valid() && View() == START
    {
      state, sizeLine, remaining, out := Size, [], 0, [];
    }

    method ReadDigits(digits: bytes) returns (size: size_t)
      ensures size == LenientValue(digits)
    {
      size := 0;
      for i := 0 to |digits|
        invariant size == LenientValue(digits[..i])
      {
        assert digits[..i + 1][..i] == digits[..i];
        if IsHex(digits[i]) {
          size := (size * 16 + HexDigit(digits[i])) as int % SIZE_LIMIT;
        }
      }
      assert digits[..|digits|] == digits;
    }

    method FeedBytes(data: bytes) returns (done: bool)
      requires Valid()
      modifies this
      ensures Valid() && View() == Feed(Step, old(View()), data)
      ensures done <==> state.Done?
    {
      var index := 0;
      while index < |data| && !state.Done?
        invariant index <= |data| && Valid()
        invariant Feed(Step, View(), data[index..]) == Feed(Step, old(View()), data)
      {
        ghost var before, rest := View(), data[index..];
        var ch := data[index];
        match state {
          case Size =>
            if ch == CR { state := SizeLf; } else { sizeLine := sizeLine + [ch]; }
            index := index + 1;
          case SizeLf =>
            index := index + 1;
            remaining := ReadDigits(BeforeExtension(sizeLine));
            sizeLine := [];
            state := if remaining == 0 then TrailerCr else Data;
          case Data =>
            var take := if remaining < |data| - index then remaining else |data| - index;
            TakeData(before, data[index..index + take]);
            FeedConcat(Step, before, data[index..index + take], data[index + take..]);
            assert rest == data[index..index + take] + data[index + take..];
            out := out + data[index..index + take];
            index := index + take;
            remaining := remaining - take;
            if remaining == 0 { state := DataCr; }
            continue;
          case DataCr =>
            index := index + 1;
            state := DataLf;
          case DataLf =>
            index := index + 1;
            state := Size;
          case TrailerCr =>
            if ch == LF { state := Done; }
            index := index + 1;
          case Done =>
        }
        assert rest[1..] == data[index..];
        assert View() == Step(before, rest[0]);
      }
      if state.Done? {
        DoneIsFinal(View(), data[index..]);
      }
      done := state.Done?;
    }
  }

  lemma {:induction false} TakeData(d: Decoder, data: bytes)
    requires d.mode.Data? && 0 < |data| <= d.remaining
    ensures Feed(Step, d, data)
         == Decoder(if |data| == d.remaining then DataCr else Data, d.sizeLine, d.remaining - |data|, d.out + data)
    decreases |data|
  {
    assert d.out + [data[0]] + data[1..] == d.out + data;
    if |data| > 1 {
      TakeData(Step(d, data[0]), data[1..]);
    } else {
      assert data[1..] == [];
    }
  }
}
