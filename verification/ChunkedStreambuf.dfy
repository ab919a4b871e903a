/** `ChunkedSocketStreambuf` (app/server/http.cpp): the bounded pull de-framer. The
    socket is the sequence of pieces its receives will return; after the last one
    the peer has closed, or stops sending for good (`stalls`). */
module ChunkedStreambuf {
  import opened Bytes
  import opened ChunkedFormat

  const WINDOW: nat := 64 * 1024
  const COMPACT_AT: nat := 64 * 1024
  const DEFAULT_CHUNK_CAP: size_t := 8 * 1024 * 1024

  datatype Limits = Limits(maxBody: size_t, maxChunk: size_t)

  function ChunkCap(limits: Limits): size_t {
    if limits.maxChunk > 0 then limits.maxChunk else DEFAULT_CHUNK_CAP
  }

  // The cap lets a chunk size pass whose sum with 2 wraps. What the code does with such a
  // size is not modelled: the stream ends there.
  predicate MayWrap(limits: Limits) { ChunkCap(limits) + 2 >= SIZE_LIMIT }

  datatype Received = Piece | PeerClosed | Broken(error: Error)

  // What `sbumpc` gives: a byte, end of file, or an exception.
  datatype Got = Byte(value: byte) | End(outcome: Outcome)

  class Streambuf {
    const limits: Limits
    const stalls: bool
    var socket: seq<bytes>
    var pending: bytes
    var pendingPos: nat
    var chunk: bytes
    var chunkPos: nat
    // The get area: chunk[gptr..egptr].
    var gptr: nat
    var egptr: nat
    var receivedBytes: nat
    var finished: bool

    ghost predicate Valid()
      reads this
    {
      && pendingPos <= |pending|
      && gptr <= egptr == chunkPos <= |chunk|
      && (finished ==> gptr == |chunk|)
    }

    // Received but not yet de-framed, and still to be received.
    function Unread(): bytes
      requires Valid()
      reads this
    {
      pending[pendingPos..] + Flatten(socket)
    }

    // Everything the reader has still to see.
    function Ahead(): Decoded
      requires Valid()
      reads this
    {
      if finished then Decoded([], Eof)
      else
        var d := Decode(ChunkCap(limits), stalls, Unread());
        Decoded(chunk[gptr..] + d.payload, d.outcome)
    }

    function Total(): nat
      reads this
    {
      receivedBytes + |Flatten(socket)|
    }

    // The whole body is longer than the total cap.
    predicate OverCap()
      reads this
    {
      limits.maxBody > 0 && Total() > limits.maxBody
    }

    // What has been received is within the total cap.
    predicate InCap()
      reads this
    {
      limits.maxBody > 0 ==> receivedBytes <= limits.maxBody
    }

    constructor (prefetched: bytes, socket: seq<bytes>, stalls: bool, limits: Limits)
      ensures Valid() && this.limits == limits && this.stalls == stalls && this.socket == socket
      ensures Unread() == prefetched + Flatten(socket) && Total() == |Unread()|
      ensures Ahead() == Decode(ChunkCap(limits), stalls, prefetched + Flatten(socket))
    {
      this.limits, this.stalls, this.socket, this.pending := limits, stalls, socket, prefetched;
      pendingPos, chunk, chunkPos, gptr, egptr, receivedBytes, finished := 0, [], 0, 0, 0, |prefetched|, false;
    }

    method ReceiveMore() returns (r: Received)
      requires Valid()
      modifies this`socket, this`pending, this`receivedBytes
      ensures Valid() && Unread() == old(Unread()) && Total() == old(Total())
      ensures r.Piece? ==>
                && old(socket) != [] && socket == old(socket)[1..]
                && pending == old(pending) + old(socket)[0]
      ensures r.PeerClosed? ==> !stalls && old(socket) == [] && pending == old(pending) && socket == []
      ensures r.Broken? ==>
                || (r.error == Stalled && stalls && old(socket) == [])
                || (r.error == BodyTooLarge && OverCap())
      ensures r.Piece? ==> InCap()
    {
      if socket == [] {
        return if stalls then Broken(Stalled) else PeerClosed;
      }
      var piece := socket[0];
      assert socket == [piece] + socket[1..];
      assert (pending + piece)[pendingPos..] == pending[pendingPos..] + piece;
      receivedBytes := receivedBytes + |piece|;
      socket := socket[1..];
      pending := pending + piece;
      if limits.maxBody > 0 && receivedBytes > limits.maxBody {
        return Broken(BodyTooLarge);
      }
      return Piece;
    }

    method EnsureAvailable(count: size_t) returns (r: Received)
      requires Valid()
      modifies this`socket, this`pending, this`receivedBytes
      ensures Valid() && Unread() == old(Unread()) && Total() == old(Total())
      ensures r.Piece? ==> |pending| - pendingPos >= count
      ensures r.PeerClosed? ==> !stalls && |Unread()| < count
      ensures r.Broken? ==>
                || (r.error == Stalled && stalls && |Unread()| < count)
                || (r.error == BodyTooLarge && OverCap())
      ensures r.Piece? && old(InCap()) ==> InCap()
    {
      while |pending| - pendingPos < count
        invariant Valid() && Unread() == old(Unread()) && Total() == old(Total())
        invariant old(InCap()) ==> InCap()
        decreases |socket|
      {
        r := ReceiveMore();
        if !r.Piece? { return; }
      }
      return Piece;
    }

    method ReadLine() returns (r: Received, line: bytes)
      requires Valid()
      modifies this`socket, this`pending, this`receivedBytes, this`pendingPos
      ensures Valid() && Total() == old(Total())
      ensures r.Piece? ==>
                && PullLine(old(pending[pendingPos..]), old(socket)) == Pulled(line, pending[pendingPos..], socket)
      ensures r.PeerClosed? ==> !stalls && PullLine(old(pending[pendingPos..]), old(socket)).PulledNone?
      ensures r.Broken? ==>
                || (r.error == OversizedLine && PullLine(old(pending[pendingPos..]), old(socket)).PulledTooLong?)
                || (r.error == Stalled && stalls && PullLine(old(pending[pendingPos..]), old(socket)).PulledNone?)
                || (r.error == BodyTooLarge && OverCap())
      ensures r.Piece? && old(InCap()) ==> InCap()
    {
      line := [];
      ghost var target := PullLine(pending[pendingPos..], socket);
      while true
        invariant Valid() && Total() == old(Total()) && (old(InCap()) ==> InCap())
        invariant PullLine(pending[pendingPos..], socket) == target
        decreases |socket|
      {
        var at := FindCrlf(pending[pendingPos..]);
        if at >= 0 {
          if at > MAX_LINE {
            return Broken(OversizedLine), [];
          }
          line := pending[pendingPos..pendingPos + at];
          assert pending[pendingPos..][..at] == line;
          assert pending[pendingPos..][at + 2..] == pending[pendingPos + at + 2..];
          pendingPos := pendingPos + at + 2;
          return Piece, line;
        }
        if |pending| - pendingPos > MAX_LINE {
          return Broken(OversizedLine), [];
        }
        ghost var buffer, pieces := pending[pendingPos..], socket;
        r := ReceiveMore();
        if !r.Piece? { return; }
        assert pending[pendingPos..] == buffer + pieces[0];
      }
    }

    // The size line's digits, one at a time; no step leaves the range of size_t.
    method ParseSize(header: bytes) returns (r: Result<size_t>)
      ensures r == SizeOf(ChunkCap(limits), header)
      ensures r.Ok? ==> r.value <= ChunkCap(limits)
    {
      var cap := ChunkCap(limits);
      var size: size_t := 0;
      for i := 0 to |header|
        invariant size <= cap
        invariant SizeOf(cap, header[..i]) == Ok(size)
      {
        assert header[..i + 1][..i] == header[..i];
        if !IsHex(header[i]) {
          ErrorSticks(cap, header, i + 1);
          return Err(InvalidSize);
        }
        var value: size_t := HexDigit(header[i]);
        if size > cap / 16 {
          ErrorSticks(cap, header, i + 1);
          return Err(SizeTooLarge);
        }
        size := size * 16;
        if value > cap - size {
          ErrorSticks(cap, header, i + 1);
          return Err(SizeTooLarge);
        }
        size := size + value;
      }
      assert header[..|header|] == header;
      return Ok(size);
    }

    method ParseHeader(line: bytes) returns (r: Result<size_t>)
      ensures r == HeaderSize(ChunkCap(limits), line)
      ensures r.Ok? ==> r.value <= ChunkCap(limits)
    {
      var header := Trim(BeforeExtension(line));
      if header == [] {
        return Err(EmptySize);
      }
      r := ParseSize(header);
    }

    static lemma {:induction false} ErrorSticks(cap: nat, digits: bytes, n: nat)
      requires n <= |digits| && SizeOf(cap, digits[..n]).Err?
      ensures SizeOf(cap, digits) == SizeOf(cap, digits[..n])
      decreases |digits|
    {
      if n < |digits| {
        assert digits[..|digits| - 1][..n] == digits[..n];
        ErrorSticks(cap, digits[..|digits| - 1], n);
      } else {
        assert digits[..n] == digits;
      }
    }

    // One line of the body, or why there is none. `closed` is the error of a peer
    // that closes first.
    method FetchLine(closed: Error) returns (r: Result<bytes>)
      requires Valid()
      modifies this`socket, this`pending, this`receivedBytes, this`pendingPos
      ensures Valid() && Total() == old(Total())
      ensures r.Ok? ==> |Unread()| < old(|Unread()|)
      ensures || (r == Err(BodyTooLarge) && OverCap())
              || (r == Err(OversizedLine) && old(FindCrlf(Unread())) == MAX_LINE)
              || match old(CutLine(Unread()))
                   case NoLine => r == Err(if stalls then Stalled else closed)
                   case TooLong => r == Err(OversizedLine)
                   case Line(text, rest) => r == Ok(text) && Unread() == rest
      ensures r.Ok? && old(InCap()) ==> InCap()
    {
      ghost var unread := Unread();
      PullLineExact(pending[pendingPos..], socket);
      PullShrinks(pending[pendingPos..], socket);
      var status, line := ReadLine();
      if !status.Piece? {
        return Err(if status.PeerClosed? then closed else status.error);
      }
      return Ok(line);
    }

    // The trailer specification, one line further.
    static lemma TrailerLine(stalls: bool, s: bytes, seen: nat)
      ensures match CutLine(s)
                case NoLine => DecodeTrailer(stalls, s, seen) == Failed(if stalls then Stalled else ClosedInTrailer)
                case TooLong => DecodeTrailer(stalls, s, seen) == Failed(OversizedLine)
                case Line(text, rest) =>
                  && DecodeTrailer(stalls, s, seen)
                     == (if text == [] then Eof
                         else if seen + |text| > MAX_TRAILER then Failed(TrailerTooLarge)
                         else DecodeTrailer(stalls, rest, seen + |text|))
                  && (text != [] && seen + |text| <= MAX_TRAILER && TrailerAtLimit(rest, seen + |text|) ==>
                        TrailerAtLimit(s, seen))
      ensures FindCrlf(s) == MAX_LINE ==> TrailerAtLimit(s, seen)
    {
    }

    // One line of the trailer, after lines of `seen` bytes in all.
    method FetchTrailerLine(ghost seen: nat) returns (r: Result<bytes>)
      requires Valid()
      modifies this`socket, this`pending, this`receivedBytes, this`pendingPos
      ensures Valid() && Total() == old(Total())
      ensures r.Ok? ==> |Unread()| < old(|Unread()|)
      ensures r.Err? ==>
                || (r.error == BodyTooLarge && OverCap())
                || (r.error == OversizedLine && old(TrailerAtLimit(Unread(), seen)))
                || old(DecodeTrailer(stalls, Unread(), seen)) == Failed(r.error)
      ensures r.Ok? ==>
                old(DecodeTrailer(stalls, Unread(), seen))
                == if r.value == [] then Eof
                   else if seen + |r.value| > MAX_TRAILER then Failed(TrailerTooLarge)
                   else DecodeTrailer(stalls, Unread(), seen + |r.value|)
      ensures r.Ok? && r.value != [] && seen + |r.value| <= MAX_TRAILER && TrailerAtLimit(Unread(), seen + |r.value|) ==>
                old(TrailerAtLimit(Unread(), seen))
      ensures r.Ok? && old(InCap()) ==> InCap()
    {
      TrailerLine(stalls, Unread(), seen);
      r := FetchLine(ClosedInTrailer);
    }

    method ReadTrailer() returns (r: Outcome)
      requires Valid()
      modifies this`socket, this`pending, this`receivedBytes, this`pendingPos
      ensures Valid() && Total() == old(Total())
      ensures || r == DecodeTrailer(stalls, old(Unread()), 0)
              || (r == Failed(BodyTooLarge) && OverCap())
              || (r == Failed(OversizedLine) && old(TrailerAtLimit(Unread(), 0)))
      ensures r.Eof? && old(InCap()) ==> InCap()
    {
      var trailerBytes: nat := 0;
      ghost var target := DecodeTrailer(stalls, Unread(), 0);
      while true
        invariant Valid() && Total() == old(Total()) && (old(InCap()) ==> InCap())
        invariant TrailerAtLimit(Unread(), trailerBytes) ==> old(TrailerAtLimit(Unread(), 0))
        invariant DecodeTrailer(stalls, Unread(), trailerBytes) == target
        decreases |Unread()|
      {
        var line := FetchTrailerLine(trailerBytes);
        if line.Err? {
          return Failed(line.error);
        }
        if line.value == [] {
          return Eof;
        }
        trailerBytes := trailerBytes + |line.value|;
        if trailerBytes > MAX_TRAILER {
          return Failed(TrailerTooLarge);
        }
      }
    }

    static lemma {:induction false} PullShrinks(buffer: bytes, pieces: seq<bytes>)
      ensures var p := PullLine(buffer, pieces);
              p.Pulled? ==> |p.buffer| + |Flatten(p.pieces)| < |buffer| + |Flatten(pieces)|
      decreases |pieces|
    {
      if FindCrlf(buffer) < 0 && |buffer| <= MAX_LINE && pieces != [] {
        PullShrinks(buffer + pieces[0], pieces[1..]);
      }
    }

    // Moves the get area on to the part of the chunk that follows it, 64 KiB at a time.
    method PublishWindow() returns (published: bool)
      requires Valid() && gptr == egptr
      modifies this`chunkPos, this`gptr, this`egptr
      ensures Valid() && Ahead() == old(Ahead()) && Unread() == old(Unread()) && Total() == old(Total())
      ensures published <==> old(chunkPos) < |chunk|
      ensures published ==> gptr < egptr && gptr == old(gptr)
      ensures !published ==> gptr == egptr == |chunk|
      ensures published ==> egptr - gptr <= 65536 && (egptr - gptr == 65536 || egptr == |chunk|)
    {
      if chunkPos >= |chunk| {
        return false;
      }
      var window := if WINDOW < |chunk| - chunkPos then WINDOW else |chunk| - chunkPos;
      gptr := chunkPos;
      egptr := chunkPos + window;
      chunkPos := chunkPos + window;
      return true;
    }

    // The decoder's specification, one size line further.
    static lemma SizeLine(cap: nat, stalls: bool, s: bytes)
      ensures CutLine(s).NoLine? ==>
                Decode(cap, stalls, s) == Decoded([], Failed(if stalls then Stalled else ClosedInHeader))
      ensures CutLine(s).TooLong? ==> Decode(cap, stalls, s) == Decoded([], Failed(OversizedLine))
      ensures CutLine(s).Line? ==>
                var size, rest := HeaderSize(cap, CutLine(s).text), CutLine(s).rest;
                && Decode(cap, stalls, s) == (if size.Err? then Decoded([], Failed(size.error))
                                              else if size.value == 0 then Decoded([], DecodeTrailer(stalls, rest, 0))
                                              else DecodeChunk(cap, stalls, rest, size.value))
                && (size.Ok? && StillAtLimit(cap, rest, size.value) ==> AtLimit(cap, s))
      ensures FindCrlf(s) == MAX_LINE ==> AtLimit(cap, s)
    {
    }

    // The size of the next chunk, from its size line.
    method NextSize() returns (r: Result<size_t>)
      requires Valid()
      modifies this`socket, this`pending, this`receivedBytes, this`pendingPos
      ensures Valid() && Total() == old(Total())
      ensures r.Ok? ==> r.value <= ChunkCap(limits) && |Unread()| < old(|Unread()|)
      ensures r.Err? ==>
                || (r.error == BodyTooLarge && OverCap())
                || (r.error == OversizedLine && old(AtLimit(ChunkCap(limits), Unread())))
                || old(Decode(ChunkCap(limits), stalls, Unread())) == Decoded([], Failed(r.error))
      ensures r.Ok? ==>
                old(Decode(ChunkCap(limits), stalls, Unread()))
                == if r.value == 0 then Decoded([], DecodeTrailer(stalls, Unread(), 0))
                   else DecodeChunk(ChunkCap(limits), stalls, Unread(), r.value)
      ensures r.Ok? && StillAtLimit(ChunkCap(limits), Unread(), r.value) ==> old(AtLimit(ChunkCap(limits), Unread()))
      ensures r.Ok? && old(InCap()) ==> InCap()
    {
      SizeLine(ChunkCap(limits), stalls, Unread());
      var header := FetchLine(ClosedInHeader);
      if header.Err? {
        return Err(header.error);
      }
      r := ParseHeader(header.value);
    }

    // A line of exactly the limit's length lies behind a size line's size.
    static predicate StillAtLimit(cap: nat, rest: bytes, size: nat) {
      if size == 0 then TrailerAtLimit(rest, 0)
      else |rest| >= size + 2 && rest[size..size + 2] == CRLF && AtLimit(cap, rest[size + 2..])
    }

    // Some line still to be read has exactly the limit's length.
    ghost predicate LimitAhead()
      requires Valid()
      reads this
    {
      !finished && AtLimit(ChunkCap(limits), Unread())
    }

    // De-frames one more chunk. None: a chunk is being served.
    method NextChunk() returns (r: Got)
      requires Valid() && gptr == egptr == |chunk|
      modifies this
      ensures r.Byte? ==> Valid() && gptr < egptr && chunk[gptr] == r.value
      ensures r == End(Eof) ==> Valid() && finished
      ensures r.Byte? ==> |Unread()| + |chunk| - gptr <= old(|Unread()|)
      ensures Valid() ==> Total() == old(Total())
      ensures old(finished) ==> r == End(Eof)
      ensures !old(finished) ==>
                || (r == End(Failed(BodyTooLarge)) && old(OverCap()))
                || (r == End(Failed(OversizedLine)) && old(LimitAhead()))
                || (r == End(Failed(SizeWraps)) && MayWrap(limits))
                || (r.Byte? && Ahead() == old(Ahead()) && (LimitAhead() ==> old(LimitAhead())))
                || (r.End? && old(Ahead()) == Decoded([], r.outcome))
      ensures (r.Byte? || r == End(Eof)) && old(InCap()) ==> InCap()
    {
      if finished {
        return End(Eof);
      }
      assert chunk[gptr..] == [] && forall d: bytes :: [] + d == d;
      r := Deframe();
    }

    // So while the last chunk has not been read.
    method Deframe() returns (r: Got)
      requires Valid() && gptr == egptr == |chunk| && !finished
      modifies this
      ensures Valid() && Total() == old(Total()) && (finished ==> r.End?)
      ensures r.Byte? ==> gptr < egptr && chunk[gptr] == r.value && |Unread()| + |chunk| - gptr <= old(|Unread()|)
      ensures r == End(Eof) ==> finished
      ensures var cap, unread := ChunkCap(limits), old(Unread());
              || (r == End(Failed(BodyTooLarge)) && OverCap())
              || (r == End(Failed(OversizedLine)) && AtLimit(cap, unread))
              || (r == End(Failed(SizeWraps)) && MayWrap(limits))
              || (r.Byte? && Ahead() == Decode(cap, stalls, unread) && (AtLimit(cap, Unread()) ==> AtLimit(cap, unread)))
              || (r.End? && Decode(cap, stalls, unread) == Decoded([], r.outcome))
      ensures (r.Byte? || r == End(Eof)) && old(InCap()) ==> InCap()
    {
      ghost var before := Unread();
      var size := NextSize();
      if size.Err? {
        return End(Failed(size.error));
      }
      if size.value == 0 {
        r := EndBody();
        return;
      }
      r := ServeNext(size.value, before);
    }

    // The chunk whose size line stood in front of what was `before`.
    method ServeNext(size: size_t, ghost before: bytes) returns (r: Got)
      requires Valid() && gptr == egptr == |chunk| && !finished && 0 < size <= ChunkCap(limits)
      requires |Unread()| <= |before| && Decode(ChunkCap(limits), stalls, before) == DecodeChunk(ChunkCap(limits), stalls, Unread(), size)
      requires StillAtLimit(ChunkCap(limits), Unread(), size) ==> AtLimit(ChunkCap(limits), before)
      modifies this
      ensures Valid() && Total() == old(Total()) && !finished && r != End(Eof)
      ensures r.Byte? ==> gptr < egptr && chunk[gptr] == r.value && |Unread()| + |chunk| - gptr <= |before|
      ensures r.Byte? ==> Ahead() == Decode(ChunkCap(limits), stalls, before)
      ensures r.Byte? && AtLimit(ChunkCap(limits), Unread()) ==> AtLimit(ChunkCap(limits), before)
      ensures r.End? ==>
                || (r == End(Failed(BodyTooLarge)) && OverCap())
                || (r == End(Failed(SizeWraps)) && MayWrap(limits))
                || Decode(ChunkCap(limits), stalls, before) == Decoded([], r.outcome)
      ensures r.Byte? && old(InCap()) ==> InCap()
    {
      r := ServeChunk(size);
    }

    // The trailers, once the last chunk's size line has been read.
    method EndBody() returns (r: Got)
      requires Valid() && gptr == |chunk|
      modifies this`finished, this`socket, this`pending, this`receivedBytes, this`pendingPos
      ensures Valid() && finished && Total() == old(Total()) && r.End?
      ensures || r.outcome == DecodeTrailer(stalls, old(Unread()), 0)
              || (r.outcome == Failed(BodyTooLarge) && OverCap())
              || (r.outcome == Failed(OversizedLine) && old(TrailerAtLimit(Unread(), 0)))
      ensures r == End(Eof) && old(InCap()) ==> InCap()
    {
      finished := true;
      var outcome := ReadTrailer();
      return End(outcome);
    }

    // The data of a chunk whose size line has been read.
    method ServeChunk(size: size_t) returns (r: Got)
      requires Valid() && gptr == egptr == |chunk| && !finished
      requires 0 < size <= ChunkCap(limits)
      modifies this
      ensures Valid() && Total() == old(Total()) && !finished
      ensures r.Byte? ==>
                && gptr < egptr && chunk[gptr] == r.value
                && Ahead() == DecodeChunk(ChunkCap(limits), stalls, old(Unread()), size)
                && |old(Unread())| >= size + 2 && old(Unread())[size..size + 2] == CRLF
                && Unread() == old(Unread())[size + 2..] && |chunk| - gptr == size
      ensures r.End? ==>
                || (r == End(Failed(BodyTooLarge)) && OverCap())
                || (r == End(Failed(SizeWraps)) && size + 2 >= SIZE_LIMIT)
                || DecodeChunk(ChunkCap(limits), stalls, old(Unread()), size) == Decoded([], r.outcome)
      ensures r != End(Eof)
      ensures r.Byte? && old(InCap()) ==> InCap()
    {
      if size + 2 >= SIZE_LIMIT {
        return End(Failed(SizeWraps));
      }
      var status := EnsureAvailable(size + 2);
      if !status.Piece? {
        return End(Failed(if status.PeerClosed? then ClosedMidChunk else status.error));
      }
      Within(pending, pendingPos, Flatten(socket), size, size + 2);
      if pending[pendingPos + size..pendingPos + size + 2] != CRLF {
        return End(Failed(BadTerminator));
      }
      LoadChunk(size);
      var published := PublishWindow();
      return Byte(chunk[gptr]);
    }

    // Moves one chunk's data out of the receive buffer, which is compacted once
    // more than 64 KiB of it has been read.
    method LoadChunk(size: size_t)
      requires Valid() && size > 0 && |pending| - pendingPos >= size + 2 && !finished
      modifies this
      ensures Valid() && gptr == egptr == 0 && |chunk| == size && !finished && Total() == old(Total())
      ensures chunk == old(Unread())[..size] && Unread() == old(Unread())[size + 2..]
      ensures receivedBytes == old(receivedBytes)
    {
      ghost var unread := Unread();
      gptr, egptr := 0, 0;
      chunk := pending[pendingPos..pendingPos + size];
      assert chunk == unread[..size];
      pendingPos := pendingPos + size + 2;
      assert pending[pendingPos..] + Flatten(socket) == unread[size + 2..];
      if pendingPos > COMPACT_AT {
        pending := pending[pendingPos..];
        pendingPos := 0;
      }
      chunkPos := 0;
    }

    method Underflow() returns (r: Got)
      requires Valid()
      modifies this
      ensures r.Byte? ==> Valid() && gptr < egptr && chunk[gptr] == r.value
      ensures r.Byte? ==> |Unread()| + |chunk| - gptr <= old(|Unread()| + |chunk| - gptr)
      ensures r == End(Eof) ==> Valid() && finished
      ensures Valid() ==> Total() == old(Total())
      ensures || (r == End(Failed(BodyTooLarge)) && old(OverCap()))
              || (r == End(Failed(OversizedLine)) && old(LimitAhead()))
              || (r == End(Failed(SizeWraps)) && MayWrap(limits))
              || (r.Byte? && Ahead() == old(Ahead()) && (LimitAhead() ==> old(LimitAhead())))
              || (r.End? && old(Ahead()) == Decoded([], r.outcome))
      ensures (r.Byte? && old(gptr == egptr)) || r == End(Eof) ==> InCap()
    {
      if gptr < egptr {
        return Byte(chunk[gptr]);
      }
      if limits.maxBody > 0 && receivedBytes > limits.maxBody {
        return End(Failed(BodyTooLarge));
      }
      var published := PublishWindow();
      if published {
        return Byte(chunk[gptr]);
      }
      r := NextChunk();
    }

    // One byte for the reader.
    method Get() returns (r: Got)
      requires Valid()
      modifies this
      ensures r.Byte? ==> Valid() && |Unread()| + |chunk| - gptr < old(|Unread()| + |chunk| - gptr)
      ensures r == End(Eof) ==> Valid() && finished
      ensures Valid() ==> Total() == old(Total())
      ensures || (r == End(Failed(BodyTooLarge)) && old(OverCap()))
              || (r == End(Failed(OversizedLine)) && old(LimitAhead()))
              || (r == End(Failed(SizeWraps)) && MayWrap(limits))
              || (r.Byte? && old(Ahead()) == Decoded([r.value] + Ahead().payload, Ahead().outcome)
                  && (LimitAhead() ==> old(LimitAhead())))
              || (r.End? && old(Ahead()) == Decoded([], r.outcome))
      ensures (r.Byte? && old(gptr == egptr)) || r == End(Eof) ==> InCap()
    {
      r := Underflow();
      if r.Byte? {
        assert chunk[gptr..] == [r.value] + chunk[gptr + 1..];
        gptr := gptr + 1;
      }
    }

    // A reader that takes bytes until the stream ends or throws.
    method ReadAll() returns (payload: bytes, outcome: Outcome)
      requires Valid()
      modifies this
      ensures || Decoded(payload, outcome) == old(Ahead())
              || (outcome == Failed(BodyTooLarge) && old(OverCap()) && payload <= old(Ahead()).payload)
              || (outcome == Failed(OversizedLine) && old(LimitAhead()) && payload <= old(Ahead()).payload)
              || (outcome == Failed(SizeWraps) && MayWrap(limits) && payload <= old(Ahead()).payload)
      ensures outcome == Eof ==> Valid() && InCap() && Total() == old(Total())
    {
      payload := [];
      ghost var limit, ahead, over := LimitAhead(), Ahead(), OverCap();
      while true
        invariant Valid() && OverCap() == over && Total() == old(Total())
        invariant LimitAhead() ==> limit
        invariant ahead == Decoded(payload + Ahead().payload, Ahead().outcome)
        decreases |Unread()| + |chunk| - gptr
      {
        var r := Get();
        if r.End? {
          return payload, r.outcome;
        }
        Assoc(payload, [r.value], Ahead().payload);
        payload := payload + [r.value];
      }
    }
  }

  // However the body is split into the bytes read with the headers and the pieces
  // received later, the reader gets exactly the decoding of the whole of it: the
  // same payload and the same end. Two things can cut it short, and then what was
  // delivered is a prefix of that payload: a body over the total cap, and a line of
  // exactly 8192 bytes. With a cap of 2^64 - 2 or more so can a size that wraps. A body is
  // read to its end only if what was received, all but the last `left` bytes, is within
  // the total cap.
  method DrainBody(prefetched: bytes, pieces: seq<bytes>, stalls: bool, limits: Limits)
    returns (payload: bytes, outcome: Outcome, ghost left: nat)
    ensures var body := prefetched + Flatten(pieces);
            var whole := Decode(ChunkCap(limits), stalls, body);
            || Decoded(payload, outcome) == whole
            || (outcome == Failed(BodyTooLarge) && 0 < limits.maxBody < |body| && payload <= whole.payload)
            || (outcome == Failed(OversizedLine) && AtLimit(ChunkCap(limits), body) && payload <= whole.payload)
            || (outcome == Failed(SizeWraps) && MayWrap(limits) && payload <= whole.payload)
    ensures outcome == Eof && limits.maxBody > 0 ==> |prefetched + Flatten(pieces)| - left <= limits.maxBody
  {
    var buf := new Streambuf(prefetched, pieces, stalls, limits);
    payload, outcome := buf.ReadAll();
    left := |Flatten(buf.socket)|;
  }
}
