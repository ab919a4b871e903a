/** `ChunkedHttpStreamWriter` (app/server/http.cpp): every write goes out as one
    chunk, and what it sends is a body both decoders read back. */
module ChunkedWriter {
  import opened Bytes
  import opened ChunkedFormat
  import opened ChunkedGrammar

  function HexChar(d: nat): byte
    requires d < 16
  {
    if d < 10 then 48 + d else 87 + d
  }

  // std::hex, without a prefix.
  function HexOf(n: nat): bytes {
    if n < 16 then [HexChar(n)] else HexOf(n / 16) + [HexChar(n % 16)]
  }

  // An empty write sends nothing: an empty chunk would end the body.
  function SentFor(data: bytes): bytes {
    if data == [] then [] else HexOf(|data|) + CRLF + data + CRLF
  }

  const FINISH: bytes := [48] + CRLF + CRLF

  function SentForAll(writes: seq<bytes>): bytes {
    if writes == [] then [] else SentFor(writes[0]) + SentForAll(writes[1..])
  }

  // The body of a sequence of writes, as the grammar sees it.
  function ChunksOf(writes: seq<bytes>): seq<Chunk> {
    if writes == [] then []
    else (if writes[0] == [] then [] else [Chunk(HexOf(|writes[0]|), writes[0])]) + ChunksOf(writes[1..])
  }

  function BodyOf(writes: seq<bytes>): Body { Body(ChunksOf(writes), [48], []) }

  lemma {:induction false} HexRoundTrip(n: nat)
    ensures AllHex(HexOf(n)) && HexValue(HexOf(n)) == n
    ensures HexOf(n) != [] && forall i | 0 <= i < |HexOf(n)| :: HexOf(n)[i] != CR && HexOf(n)[i] != 59 && !IsSpace(HexOf(n)[i])
  {
    if n < 16 {
      assert [HexChar(n)][..0] == [];
    } else {
      HexRoundTrip(n / 16);
      var s := HexOf(n);
      assert s[..|s| - 1] == HexOf(n / 16);
    }
  }

  function Pow16(k: nat): nat { if k == 0 then 1 else 16 * Pow16(k - 1) }

  lemma {:induction false} HexLength(n: nat, k: nat)
    requires n < Pow16(k) && k > 0
    ensures |HexOf(n)| <= k
  {
    if n >= 16 {
      assert k > 1;
      HexLength(n / 16, k - 1);
    }
  }

  lemma {:induction false} NoExtension(line: bytes)
    requires 59 !in line
    ensures BeforeExtension(line) == line
  {
    if line != [] { NoExtension(line[1..]); }
  }

  lemma {:induction false} NoCrIsLine(text: bytes)
    requires CR !in text
    ensures FindCrlf(text + CRLF) == |text|
  {
    if text == [] {
      assert text + CRLF == CRLF;
    } else {
      assert (text + CRLF)[1..] == text[1..] + CRLF;
      NoCrIsLine(text[1..]);
    }
  }

  // The size line of a write is plain and says the data's length.
  lemma HexIsSizeLine(cap: nat, n: size_t)
    requires n <= cap
    ensures IsLine(HexOf(n)) && HeaderSize(cap, HexOf(n)) == Ok(n) && CR !in HexOf(n)
  {
    HexRoundTrip(n);
    NoCrIsLine(HexOf(n));
    NoExtension(HexOf(n));
    SizeOfMeaning(cap, HexOf(n));
    assert Pow16(16) == SIZE_LIMIT by {
      assert Pow16(8) == 0x1_0000_0000;
    }
    HexLength(n, 16);
  }

  predicate Fit(cap: nat, writes: seq<bytes>) { forall w <- writes :: |w| <= cap }

  // What the writer sends is a well-formed body whose payload is the writes.
  lemma {:induction false} WritesAreBody(cap: size_t, writes: seq<bytes>)
    requires Fit(cap, writes)
    ensures IsBody(cap, BodyOf(writes)) && Render(BodyOf(writes)) == SentForAll(writes) + FINISH
    ensures Payload(ChunksOf(writes)) == Flatten(writes)
    ensures forall c <- ChunksOf(writes) :: CR !in c.line
  {
    if writes == [] {
      HexIsSizeLine(cap, 0);
      assert HexOf(0) == [48];
      assert Render(BodyOf([])) == RenderEnd(BodyOf([]));
    } else {
      WritesAreBody(cap, writes[1..]);
      var w, tail := writes[0], BodyOf(writes[1..]);
      if w == [] {
        assert BodyOf(writes) == tail by { assert ChunksOf(writes) == ChunksOf(writes[1..]); }
        assert SentForAll(writes) == SentForAll(writes[1..]);
      } else {
        HexIsSizeLine(cap, |w|);
        var c := Chunk(HexOf(|w|), w);
        Prepend(cap, c, tail, []);
        RenderFirst(BodyOf(writes));
        assert BodyOf(writes).(chunks := ChunksOf(writes)[1..]) == tail;
        assert RenderChunk(c) == SentFor(w);
        Assoc(SentFor(w), SentForAll(writes[1..]), FINISH);
      }
    }
  }

  // The strict decoder reads back the writes, and end of file exactly after them.
  lemma WriterRoundTrip(cap: size_t, writes: seq<bytes>, extra: bytes)
    requires Fit(cap, writes)
    ensures Decode(cap, false, SentForAll(writes) + FINISH + extra) == Decoded(Flatten(writes), Eof)
  {
    WritesAreBody(cap, writes);
    BodyDecodes(cap, false, BodyOf(writes), extra);
  }

  class ChunkedHttpStreamWriter {
    // Everything sent on the socket.
    var socket: bytes

    constructor ()
      ensures socket == []
    {
      socket := [];
    }

    method SendAll(data: bytes)
      modifies this
      ensures socket == old(socket) + data
    {
      socket := socket + data;
    }

    method Write(data: bytes)
      modifies this
      ensures socket == old(socket) + SentFor(data)
    {
      if data == [] {
        return;
      }
      SendAll(HexOf(|data|) + CRLF);
      SendAll(data);
      SendAll(CRLF);
    }

    method Finish()
      modifies this
      ensures socket == old(socket) + FINISH
    {
      SendAll(FINISH);
    }
  }
}
