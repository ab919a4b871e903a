/** The whole path of a streamed reply: payloads written with `write_sse` through
    the chunked writer, cut anywhere on the wire, and read back by the chunked
    decoder and the event parser. */
module EndToEnd {
  import opened Bytes
  import opened Stream
  import opened ChunkedFormat
  import opened ChunkedGrammar
  import Writer = ChunkedWriter
  import Chunked = LenientDecoder
  import Sse = EventStream

  // Everything sent for a sequence of payloads.
  function Wire(payloads: seq<bytes>): bytes { Writer.SentForAll(Sse.Texts(payloads)) + Writer.FINISH }

  predicate Sendable(payloads: seq<bytes>) {
    forall p <- payloads :: Sse.Framable(p) && |p| + 8 < SIZE_LIMIT
  }

  const CAP: size_t := SIZE_LIMIT - 1

  lemma {:induction false} TextsFit(payloads: seq<bytes>)
    requires Sendable(payloads)
    ensures Writer.Fit(CAP, Sse.Texts(payloads))
  {
    if payloads != [] { TextsFit(payloads[1..]); }
  }

  lemma WireDecodes(payloads: seq<bytes>)
    requires Sendable(payloads)
    ensures Feed(Chunked.Step, Chunked.START, Wire(payloads))
         == Chunked.Decoder(Chunked.Done, [], 0, Flatten(Sse.Texts(payloads)))
  {
    var texts := Sse.Texts(payloads);
    TextsFit(payloads);
    Writer.WritesAreBody(CAP, texts);
    var b := Writer.BodyOf(texts);
    Chunked.DecodersAgree(CAP, b, [], []);
    BodyDecodes(CAP, false, b, []);
    assert Render(b) + [] == Wire(payloads);
    assert [] + Flatten(texts) == Flatten(texts);
  }

  lemma DoneStays(data: bytes, n: nat, m: nat)
    requires n <= m <= |data| && Feed(Chunked.Step, Chunked.START, data[..n]).mode.Done?
    ensures Feed(Chunked.Step, Chunked.START, data[..m]).mode.Done?
  {
    FeedConcat(Chunked.Step, Chunked.START, data[..n], data[n..m]);
    Chunked.DoneIsFinal(Feed(Chunked.Step, Chunked.START, data[..n]), data[n..m]);
    assert data[..m] == data[..n] + data[n..m];
  }

  lemma LastByteMatters(payloads: seq<bytes>)
    requires Sendable(payloads)
    ensures var wire := Wire(payloads);
            !Feed(Chunked.Step, Chunked.START, wire[..|wire| - 1]).mode.Done?
  {
    var texts := Sse.Texts(payloads);
    var sent := Writer.SentForAll(texts);
    TextsFit(payloads);
    SentLeavesSize([], texts);
    var tail: bytes := [48, CR, LF, CR];
    FeedConcat(Chunked.Step, Chunked.START, sent, tail);
    EndNotDone([] + Flatten(texts));
    assert Writer.FINISH == tail + [LF];
    var wire := Wire(payloads);
    assert wire[..|wire| - 1] == sent + tail;
  }

  // The decoder is not done before the very last byte.
  lemma NotDoneEarly(payloads: seq<bytes>, n: nat)
    requires Sendable(payloads) && n < |Wire(payloads)|
    ensures !Feed(Chunked.Step, Chunked.START, Wire(payloads)[..n]).mode.Done?
  {
    LastByteMatters(payloads);
    if Feed(Chunked.Step, Chunked.START, Wire(payloads)[..n]).mode.Done? {
      DoneStays(Wire(payloads), n, |Wire(payloads)| - 1);
    }
  }

  lemma EndNotDone(out: bytes)
    ensures !Feed(Chunked.Step, Chunked.Decoder(Chunked.Size, [], 0, out), [48, CR, LF, CR]).mode.Done?
  {
    var tail: bytes := [48, CR, LF, CR];
    assert tail == [48] + CRLF + [CR];
    assert [] + [48] == [48];
    Chunked.FeedSizeLine([], out, [48], [CR]);
    assert BeforeExtension([48]) == [48] by { assert [48][1..] == []; }
    assert Chunked.LenientValue([48]) == 0 by { assert [48][..0] == []; }
    assert [CR][1..] == [];
  }

  lemma {:induction false} SentLeavesSize(out: bytes, writes: seq<bytes>)
    requires Writer.Fit(CAP, writes)
    ensures Feed(Chunked.Step, Chunked.Decoder(Chunked.Size, [], 0, out), Writer.SentForAll(writes))
         == Chunked.Decoder(Chunked.Size, [], 0, out + Flatten(writes))
    decreases |writes|
  {
    if writes == [] {
      assert out + [] == out;
    } else {
      var w := writes[0];
      if w == [] {
        assert Writer.SentForAll(writes) == Writer.SentForAll(writes[1..]);
        assert out + w == out;
      } else {
        Writer.HexIsSizeLine(CAP, |w|);
        var c := Chunk(Writer.HexOf(|w|), w);
        Chunked.FeedChunk(CAP, out, c, Writer.SentForAll(writes[1..]));
        assert RenderChunk(c) == Writer.SentFor(w);
      }
      SentLeavesSize(out + w, writes[1..]);
      Assoc(out, w, Flatten(writes[1..]));
    }
  }

  // The reader's two machines in a row: each fragment off the wire is decoded, and
  // what the decoder appends is parsed.
  datatype Reader = Reader(chunked: Chunked.Decoder, sse: Sse.Parser)

  const READER := Reader(Chunked.START, Sse.START)

  function Receive(r: Reader, fragment: bytes): Reader {
    var c := Feed(Chunked.Step, r.chunked, fragment);
    Chunked.OutOnlyGrows(r.chunked, fragment);
    Reader(c, Feed(Sse.Step, r.sse, c.out[|r.chunked.out|..]))
  }

  function ReceiveAll(r: Reader, fragments: seq<bytes>): Reader
    decreases |fragments|
  {
    if fragments == [] then r else ReceiveAll(Receive(r, fragments[0]), fragments[1..])
  }

  // After any fragments the parser has seen exactly what the decoder let through.
  lemma {:induction false} ReceiveComposes(r: Reader, fragments: seq<bytes>)
    requires r.sse == Feed(Sse.Step, Sse.START, r.chunked.out)
    ensures var c := Feed(Chunked.Step, r.chunked, Flatten(fragments));
            ReceiveAll(r, fragments) == Reader(c, Feed(Sse.Step, Sse.START, c.out))
    decreases |fragments|
  {
    if fragments != [] {
      var next := Receive(r, fragments[0]);
      Chunked.OutOnlyGrows(r.chunked, fragments[0]);
      var added := next.chunked.out[|r.chunked.out|..];
      assert next.chunked.out == r.chunked.out + added;
      FeedConcat(Sse.Step, Sse.START, r.chunked.out, added);
      FeedConcat(Chunked.Step, r.chunked, fragments[0], Flatten(fragments[1..]));
      ReceiveComposes(next, fragments[1..]);
    }
  }

  // The payloads come out as they went in, in order, however the wire is cut; and
  // the decoder is done when, and only when, the last byte has arrived.
  lemma PayloadsArrive(payloads: seq<bytes>, fragments: seq<bytes>)
    requires Sendable(payloads) && Flatten(fragments) == Wire(payloads)
    ensures ReceiveAll(READER, fragments).sse == Sse.Parser([], [], payloads)
    ensures ReceiveAll(READER, fragments).chunked.mode.Done?
    ensures forall n | 0 <= n < |Wire(payloads)| ::
              !Feed(Chunked.Step, Chunked.START, Wire(payloads)[..n]).mode.Done?
  {
    ReceiveComposes(READER, fragments);
    WireDecodes(payloads);
    Sse.EventsRoundTrip([], payloads);
    assert [] + payloads == payloads;
    forall n | 0 <= n < |Wire(payloads)|
      ensures !Feed(Chunked.Step, Chunked.START, Wire(payloads)[..n]).mode.Done?
    {
      NotDoneEarly(payloads, n);
    }
  }

  // ---- The same path through the objects -----------------------------------

  // `write_sse`.
  method WriteSse(writer: Writer.ChunkedHttpStreamWriter, json: bytes)
    modifies writer
    ensures writer.socket == old(writer.socket) + Writer.SentFor(Sse.EventText(json))
  {
    writer.Write(Sse.EventText(json));
  }

  method SendAll(payloads: seq<bytes>) returns (wire: bytes)
    ensures wire == Wire(payloads)
  {
    var writer := new Writer.ChunkedHttpStreamWriter();
    for i := 0 to |payloads|
      invariant writer.socket + Writer.SentForAll(Sse.Texts(payloads[i..])) == Writer.SentForAll(Sse.Texts(payloads))
      invariant fresh(writer)
    {
      assert payloads[i..][1..] == payloads[i + 1..];
      assert Sse.Texts(payloads[i..])[1..] == Sse.Texts(payloads[i + 1..]);
      Assoc(writer.socket, Writer.SentFor(Sse.EventText(payloads[i])), Writer.SentForAll(Sse.Texts(payloads[i + 1..])));
      WriteSse(writer, payloads[i]);
    }
    assert writer.socket + [] == writer.socket;
    writer.Finish();
    wire := writer.socket;
  }

  // The connected pair of the reading side: the parser has been fed exactly what
  // the decoder appended.
  ghost predicate Connected<Event>(decoder: Chunked.ChunkedBodyDecoder, parser: Sse.SseDeltaParser<Event>, data: bytes)
    reads decoder, parser
  {
    && decoder.Valid() && LF !in parser.buffer
    && decoder.View() == Feed(Chunked.Step, Chunked.START, data)
    && parser.View() == Feed(Sse.Step, Sse.START, decoder.out)
  }

  // One `recv` of the reading loop.
  method ReceiveFragment<Event>(decoder: Chunked.ChunkedBodyDecoder, parser: Sse.SseDeltaParser<Event>,
                                ghost data: bytes, fragment: bytes)
    returns (events: seq<Event>, done: bool)
    requires Connected(decoder, parser, data)
    modifies decoder, parser
    ensures Connected(decoder, parser, data + fragment) && (done <==> decoder.state.Done?)
    ensures old(parser.dispatched) <= parser.dispatched
    ensures events == Sse.Map(parser.parsePayload, parser.dispatched[|old(parser.dispatched)|..])
  {
    FeedConcat(Chunked.Step, Chunked.START, data, fragment);
    var was := decoder.View();
    done := decoder.FeedBytes(fragment);
    Chunked.OutOnlyGrows(was, fragment);
    var added := decoder.out[|was.out|..];
    assert decoder.out == was.out + added;
    FeedConcat(Sse.Step, Sse.START, was.out, added);
    events := parser.FeedBytes(added);
  }

  // Any payloads in, any cut of the wire into fragments, the payloads' events out.
  method ReceiveWire<Event>(parse: bytes -> Event, ghost payloads: seq<bytes>, fragments: seq<bytes>)
    returns (events: seq<Event>, done: bool)
    requires Sendable(payloads) && Flatten(fragments) == Wire(payloads)
    ensures done && events == Sse.Map(parse, payloads)
  {
    var decoder := new Chunked.ChunkedBodyDecoder();
    var parser := new Sse.SseDeltaParser<Event>(parse);
    events, done := [], false;
    ghost var data := [];
    for i := 0 to |fragments|
      invariant Connected(decoder, parser, data) && fresh(decoder) && fresh(parser)
      invariant data + Flatten(fragments[i..]) == Flatten(fragments)
      invariant events == Sse.Map(parse, parser.dispatched) && (done <==> decoder.state.Done?)
    {
      ghost var before := parser.dispatched;
      assert fragments[i..][1..] == fragments[i + 1..];
      Assoc(data, fragments[i], Flatten(fragments[i + 1..]));
      var found: seq<Event>;
      found, done := ReceiveFragment(decoder, parser, data, fragments[i]);
      data := data + fragments[i];
      Sse.MapConcat(parse, before, parser.dispatched[|before|..]);
      assert parser.dispatched == before + parser.dispatched[|before|..];
      events := events + found;
    }
    assert data + [] == data;
    WireDecodes(payloads);
    Sse.EventsRoundTrip([], payloads);
    assert [] + payloads == payloads;
  }
}
