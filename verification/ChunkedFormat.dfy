/** The strict chunked decoding of a whole request body, as one function of the
    bytes that arrive: section 7.1 of RFC 9112, with the limits of
    `ChunkedSocketStreambuf` (app/server/http.cpp). */
module ChunkedFormat {
  import opened Bytes

  const MAX_LINE: nat := 8192
  const MAX_TRAILER: nat := 8192

  datatype Error =
    | OversizedLine
    | ClosedInHeader
    | EmptySize
    | InvalidSize
    | SizeTooLarge
    | ClosedInTrailer
    | TrailerTooLarge
    | ClosedMidChunk
    | BadTerminator
    | Stalled
    | BodyTooLarge
    | SizeWraps    // no error of the source's: a size whose sum with 2 is no size_t

  datatype Outcome = Eof | Failed(error: Error)

  datatype Result<+T> = Ok(value: T) | Err(error: Error)

  // What a whole body decodes to: its payload up to the first error, and how it ends.
  datatype Decoded = Decoded(payload: bytes, outcome: Outcome)

  // ---- Lines ---------------------------------------------------------------

  // Where the first CRLF starts, or -1.
  function FindCrlf(s: bytes): (at: int)
    ensures -1 <= at
    ensures at >= 0 ==> at + 2 <= |s| && s[at..at + 2] == CRLF
  {
    if |s| < 2 then -1
    else if s[0] == CR && s[1] == LF then 0
    else
      var at := FindCrlf(s[1..]);
      if at < 0 then -1 else at + 1
  }

  lemma {:induction false} FindCrlfFirst(s: bytes, i: nat)
    requires i + 2 <= |s| && s[i] == CR && s[i + 1] == LF
    ensures 0 <= FindCrlf(s) <= i
  {
    if i > 0 && !(s[0] == CR && s[1] == LF) {
      FindCrlfFirst(s[1..], i - 1);
    }
  }

  // A CRLF found in a buffer is the one found in everything that is still to come.
  lemma {:induction false} FindCrlfExtend(s: bytes, more: bytes)
    ensures FindCrlf(s) >= 0 ==> FindCrlf(s + more) == FindCrlf(s)
    ensures FindCrlf(s) < 0 && FindCrlf(s + more) >= 0 ==> FindCrlf(s + more) >= |s| - 1
  {
    if |s| >= 2 && !(s[0] == CR && s[1] == LF) {
      assert (s + more)[1..] == s[1..] + more;
      FindCrlfExtend(s[1..], more);
    }
  }

  datatype Line = Line(text: bytes, rest: bytes) | TooLong | NoLine

  function CutLine(s: bytes): Line {
    var at := FindCrlf(s);
    if at > MAX_LINE || (at < 0 && |s| > MAX_LINE) then TooLong
    else if at < 0 then NoLine
    else Line(s[..at], s[at + 2..])
  }

  // ---- Sizes ---------------------------------------------------------------

  function BeforeExtension(header: bytes): bytes {
    if header == [] || header[0] == 59 then [] else [header[0]] + BeforeExtension(header[1..])
  }

  // The digits are read left to right; the first bad digit or the first excess ends it.
  function SizeOf(cap: nat, digits: bytes): Result<nat> {
    if digits == [] then Ok(0)
    else
      var before := SizeOf(cap, digits[..|digits| - 1]);
      var d := digits[|digits| - 1];
      if before.Err? then before
      else if !IsHex(d) then Err(InvalidSize)
      else if before.value * 16 + HexDigit(d) > cap then Err(SizeTooLarge)
      else Ok(before.value * 16 + HexDigit(d))
  }

  // A size is accepted exactly when it is all hexadecimal and at most the cap.
  lemma {:induction false} SizeOfMeaning(cap: nat, digits: bytes)
    ensures SizeOf(cap, digits).Ok? <==> AllHex(digits) && HexValue(digits) <= cap
    ensures SizeOf(cap, digits).Ok? ==> SizeOf(cap, digits).value == HexValue(digits)
    ensures SizeOf(cap, digits).Err? ==> SizeOf(cap, digits).error in {InvalidSize, SizeTooLarge}
  {
    if digits != [] {
      var init := digits[..|digits| - 1];
      SizeOfMeaning(cap, init);
      if AllHex(digits) {
        HexValuePrefix(digits, |digits| - 1);
      }
    }
  }

  function HeaderSize(cap: nat, header: bytes): Result<nat> {
    var digits := Trim(BeforeExtension(header));
    if digits == [] then Err(EmptySize) else SizeOf(cap, digits)
  }

  // ---- The body ------------------------------------------------------------

  // `stalls`: the peer stops sending instead of closing once these bytes are out.
  function Starved(stalls: bool, closed: Error): Outcome { Failed(if stalls then Stalled else closed) }

  function DecodeTrailer(stalls: bool, s: bytes, seen: nat): Outcome
    decreases |s|
  {
    match CutLine(s)
    case NoLine => Starved(stalls, ClosedInTrailer)
    case TooLong => Failed(OversizedLine)
    case Line(text, rest) =>
      if text == [] then Eof
      else if seen + |text| > MAX_TRAILER then Failed(TrailerTooLarge)
      else DecodeTrailer(stalls, rest, seen + |text|)
  }

  function Decode(cap: nat, stalls: bool, s: bytes): Decoded
    decreases |s|
  {
    match CutLine(s)
    case NoLine => Decoded([], Starved(stalls, ClosedInHeader))
    case TooLong => Decoded([], Failed(OversizedLine))
    case Line(header, rest) =>
      var size := HeaderSize(cap, header);
      if size.Err? then Decoded([], Failed(size.error))
      else if size.value == 0 then Decoded([], DecodeTrailer(stalls, rest, 0))
      else DecodeChunk(cap, stalls, rest, size.value)
  }

  function DecodeChunk(cap: nat, stalls: bool, s: bytes, size: nat): Decoded
    requires size > 0
    decreases |s|
  {
    if |s| < size + 2 then Decoded([], Starved(stalls, ClosedMidChunk))
    else if s[size..size + 2] != CRLF then Decoded([], Failed(BadTerminator))
    else
      var more := Decode(cap, stalls, s[size + 2..]);
      Decoded(s[..size] + more.payload, more.outcome)
  }

  // ---- Lines of exactly 8192 bytes -----------------------------------------

  // True if decoding `s` meets a line of exactly MAX_LINE bytes, the one length
  // whose acceptance depends on how the bytes arrive.
  predicate TrailerAtLimit(s: bytes, seen: nat)
    decreases |s|
  {
    FindCrlf(s) == MAX_LINE ||
    match CutLine(s)
    case Line(text, rest) => text != [] && seen + |text| <= MAX_TRAILER && TrailerAtLimit(rest, seen + |text|)
    case _ => false
  }

  predicate AtLimit(cap: nat, s: bytes)
    decreases |s|
  {
    FindCrlf(s) == MAX_LINE ||
    match CutLine(s)
    case Line(header, rest) =>
      var size := HeaderSize(cap, header);
      size.Ok? &&
      if size.value == 0 then TrailerAtLimit(rest, 0)
      else |rest| >= size.value + 2 && rest[size.value..size.value + 2] == CRLF && AtLimit(cap, rest[size.value + 2..])
    case _ => false
  }

  // ---- Lines as they arrive ------------------------------------------------

  datatype Pulled =
    | Pulled(text: bytes, buffer: bytes, pieces: seq<bytes>)
    | PulledTooLong
    | PulledNone

  // `read_line`: search the buffer, then receive one more piece, and so on.
  function PullLine(buffer: bytes, pieces: seq<bytes>): Pulled
    decreases |pieces|
  {
    var at := FindCrlf(buffer);
    if at > MAX_LINE || (at < 0 && |buffer| > MAX_LINE) then PulledTooLong
    else if at >= 0 then Pulled(buffer[..at], buffer[at + 2..], pieces)
    else if pieces == [] then PulledNone
    else PullLine(buffer + pieces[0], pieces[1..])
  }

  predicate Agrees(p: Pulled, l: Line) {
    match p
    case Pulled(text, buffer, pieces) => l == Line(text, buffer + Flatten(pieces))
    case PulledTooLong => l.TooLong?
    case PulledNone => l.NoLine?
  }

  // Some receive leaves exactly n bytes in the buffer.
  predicate StopsAt(buffer: bytes, pieces: seq<bytes>, n: nat)
    decreases |pieces|
  {
    |buffer| == n || (pieces != [] && StopsAt(buffer + pieces[0], pieces[1..], n))
  }

  // The line read is the same however the bytes are split into receives, with one
  // exception: a line of exactly 8192 bytes whose CR and LF arrive separately, in a
  // receive ending between them, is refused instead of returned.
  lemma {:induction false} PullLineExact(buffer: bytes, pieces: seq<bytes>)
    ensures var all := buffer + Flatten(pieces);
            Agrees(PullLine(buffer, pieces), CutLine(all))
            <==> !(FindCrlf(all) == MAX_LINE && StopsAt(buffer, pieces, MAX_LINE + 1))
    ensures Agrees(PullLine(buffer, pieces), CutLine(buffer + Flatten(pieces))) || PullLine(buffer, pieces).PulledTooLong?
    decreases |pieces|
  {
    var all := buffer + Flatten(pieces);
    FindCrlfExtend(buffer, Flatten(pieces));
    if FindCrlf(buffer) >= 0 {
      var at := FindCrlf(buffer);
      assert all[at + 2..] == buffer[at + 2..] + Flatten(pieces);
      assert all[..at] == buffer[..at];
      if at == MAX_LINE {
        LongerNeverStops(buffer, pieces, MAX_LINE + 1);
      }
    } else if |buffer| > MAX_LINE {
      if FindCrlf(all) == MAX_LINE {
        assert |buffer| == MAX_LINE + 1;
      }
    } else if pieces == [] {
      assert all == buffer;
    } else {
      assert all == (buffer + pieces[0]) + Flatten(pieces[1..]);
      PullLineExact(buffer + pieces[0], pieces[1..]);
    }
  }

  lemma {:induction false} LongerNeverStops(buffer: bytes, pieces: seq<bytes>, n: nat)
    requires |buffer| > n
    ensures !StopsAt(buffer, pieces, n)
    decreases |pieces|
  {
    if pieces != [] {
      LongerNeverStops(buffer + pieces[0], pieces[1..], n);
    }
  }

  lemma {:induction false} CrlfAfter(text: bytes, rest: bytes)
    requires CR !in text
    ensures FindCrlf(text) == -1 && FindCrlf(text + [CR]) == -1
    ensures FindCrlf(text + CRLF + rest) == |text|
  {
    if text != [] {
      CrlfAfter(text[1..], rest);
      assert (text + [CR])[1..] == text[1..] + [CR];
      assert (text + CRLF + rest)[1..] == text[1..] + CRLF + rest;
    }
  }

  // That exception occurs: the same line of 8192 bytes is read when it arrives with
  // its CRLF and refused when the LF arrives by itself.
  lemma SplitDecidesAtLimit(text: bytes)
    requires |text| == MAX_LINE && CR !in text
    ensures PullLine([], [text + CRLF]) == Pulled(text, [], [])
    ensures PullLine([], [text + [CR], [LF]]) == PulledTooLong
  {
    CrlfAfter(text, []);
    var whole := text + CRLF;
    assert whole + [] == whole;
    assert whole[..MAX_LINE] == text && whole[MAX_LINE + 2..] == [];
    assert [] + whole == whole && [] + (text + [CR]) == text + [CR];
    assert PullLine([], [whole]) == PullLine([] + whole, [whole][1..]);
    assert PullLine([], [text + [CR], [LF]]) == PullLine([] + (text + [CR]), [text + [CR], [LF]][1..]);
  }
}
