/** JSON string literals as cJSON writes and reads them (external/cJSON/cJSON.c),
    against the grammar of section 7 of RFC 8259. */
module JsonLiteral {
  import opened Bytes
  import opened Wrappers

  const QUOTE: byte := 34
  const BACKSLASH: byte := 92
  const LETTER_U: byte := 117

  // ---- UTF-8 ---------------------------------------------------------------

  function Utf8(c: nat): (s: bytes)
    requires c <= 0x10FFFF
    ensures 1 <= |s| <= 4 && (c < 0x10000 ==> |s| <= 3)
  {
    if c < 0x80 then [c]
    else if c < 0x800 then [0xC0 + c / 64, 0x80 + c % 64]
    else if c < 0x10000 then [0xE0 + c / 64 / 64, 0x80 + c / 64 % 64, 0x80 + c % 64]
    else [0xF0 + c / 64 / 64 / 64, 0x80 + c / 64 / 64 % 64, 0x80 + c / 64 % 64, 0x80 + c % 64]
  }

  // What the bytes of one character stand for, by the number of leading ones.
  function CodeOf(s: bytes): int
    requires 1 <= |s| <= 4
  {
    if |s| == 1 then s[0]
    else if |s| == 2 then Extended(s[0] as int - 0xC0, s[1])
    else if |s| == 3 then Extended(Extended(s[0] as int - 0xE0, s[1]), s[2])
    else Extended(Extended(Extended(s[0] as int - 0xF0, s[1]), s[2]), s[3])
  }

  function Extended(code: int, continuation: byte): int { code * 64 + (continuation as int - 0x80) }

  lemma Utf8KeepsTheCode(c: nat)
    requires c <= 0x10FFFF
    ensures CodeOf(Utf8(c)) == c
  {
  }

  // ---- Reading -------------------------------------------------------------

  // parse_hex4, which answers 0 for anything that is not four hexadecimal digits.
  function Hex4(s: bytes, at: nat): (h: nat)
    requires at + 4 <= |s|
    ensures h < 0x10000
  {
    if IsHex(s[at]) && IsHex(s[at + 1]) && IsHex(s[at + 2]) && IsHex(s[at + 3]) then
      ((HexDigit(s[at]) * 16 + HexDigit(s[at + 1])) * 16 + HexDigit(s[at + 2])) * 16 + HexDigit(s[at + 3])
    else 0
  }

  predicate IsHigh(code: nat) { 0xD800 <= code <= 0xDBFF }

  predicate IsLow(code: nat) { 0xDC00 <= code <= 0xDFFF }

  function Joined(high: nat, low: nat): (c: nat)
    requires IsHigh(high) && IsLow(low)
    ensures 0x10000 <= c <= 0x10FFFF
  {
    0x10000 + (high % 1024) * 1024 + low % 1024
  }

  // One byte or one escape sequence: how much of the text it is, and what it stands for.
  datatype Piece = Bad | Good(size: nat, code: bytes)

  // utf16_literal_to_utf8
  function Utf16(s: bytes, p: nat, end: nat): (r: Piece)
    requires p < end <= |s|
    ensures r.Good? ==> p + r.size <= end && ((r.size == 6 && |r.code| <= 3) || (r.size == 12 && |r.code| <= 4))
  {
    if end - p < 6 then Bad
    else
      var first := Hex4(s, p + 2);
      if IsLow(first) then Bad
      else if IsHigh(first) then
        if end - (p + 6) < 6 || s[p + 6] != BACKSLASH || s[p + 7] != LETTER_U then Bad
        else
          var second := Hex4(s, p + 8);
          if IsLow(second) then Good(12, Utf8(Joined(first, second))) else Bad
      else Good(6, Utf8(first))
  }

  // The one-character escapes.
  function Short(letter: byte): Option<byte> {
    match letter
    case 98 => Some(8)
    case 102 => Some(12)
    case 110 => Some(10)
    case 114 => Some(13)
    case 116 => Some(9)
    case 34 => Some(34)
    case 92 => Some(92)
    case 47 => Some(47)
    case _ => None
  }

  // The next round of the copying loop of parse_string.
  function PieceAt(s: bytes, p: nat, end: nat): (r: Piece)
    requires p < end < |s|
    ensures r.Good? ==> 0 < r.size && p + r.size <= end + 1
  {
    if s[p] != BACKSLASH then Good(1, [s[p]])
    else if s[p + 1] == LETTER_U then Utf16(s, p, end)
    else match Short(s[p + 1])
         case Some(b) => Good(2, [b])
         case None => Bad
  }

  // What is copied out of s[p..end], and where the copying stops.
  datatype Copy = Copied(out: bytes, stop: nat, ok: bool)

  function Decode(s: bytes, p: nat, end: nat): (r: Copy)
    requires end < |s| && p <= end + 1
    ensures r.stop <= end + 1 && (r.ok ==> r.stop >= end)
    decreases end + 1 - p
  {
    if p >= end then Copied([], p, true)
    else match PieceAt(s, p, end)
         case Bad => Copied([], p, false)
         case Good(size, code) =>
           var rest := Decode(s, p + size, end);
           Copied(code + rest.out, rest.stop, rest.ok)
  }

  datatype Scan = NoEnd | End(at: nat, skipped: nat)

  // The sizing loop of parse_string: the closing quote, and how many backslashes
  // escape something before it.
  function FindEnd(s: bytes, i: nat, skipped: nat := 0): (r: Scan)
    ensures r.End? ==> i <= r.at < |s| && s[r.at] == QUOTE && skipped <= r.skipped
    decreases |s| - i
  {
    if i >= |s| then NoEnd
    else if s[i] == QUOTE then End(i, skipped)
    else if s[i] == BACKSLASH then
      if i + 1 >= |s| then NoEnd else FindEnd(s, i + 2, skipped + 1)
    else FindEnd(s, i + 1, skipped)
  }

  // parse_string at `offset`: the value and the offset after it, or the offset of what
  // could not be read.
  datatype Parsed = Value(text: bytes, next: nat) | Failed(at: nat)

  function Parse(s: bytes, offset: nat): Parsed
    requires offset < |s|
  {
    if s[offset] != QUOTE then Failed(offset + 1)
    else match FindEnd(s, offset + 1)
         case NoEnd => Failed(offset + 1)
         case End(end, _) =>
           var copy := Decode(s, offset + 1, end);
           if copy.ok then Value(copy.out, end + 1) else Failed(copy.stop)
  }

  // ---- The parser never needs more than it allocates -----------------------

  // The escapes the sizing loop has counted before `bound`.
  function Skips(s: bytes, i: nat, bound: nat): nat
    requires bound <= |s|
    decreases bound - i
  {
    if i >= bound then 0
    else if s[i] == BACKSLASH then 1 + Skips(s, i + 2, bound)
    else Skips(s, i + 1, bound)
  }

  lemma {:induction false} SkipsGrow(s: bytes, i: nat, p: nat)
    requires i <= p < |s|
    ensures Skips(s, i, p) <= Skips(s, i, p + 1) <= Skips(s, i, p) + 1
    ensures s[p] != BACKSLASH ==> Skips(s, i, p + 1) == Skips(s, i, p)
    decreases p - i
  {
    if i < p {
      if s[i] != BACKSLASH {
        SkipsGrow(s, i + 1, p);
      } else if i + 2 <= p {
        SkipsGrow(s, i + 2, p);
      }
    }
  }

  // Two escapes do not start next to each other.
  lemma {:induction false} SkipsInTwo(s: bytes, i: nat, p: nat)
    requires i <= p && p + 2 <= |s|
    ensures Skips(s, i, p) <= Skips(s, i, p + 2) <= Skips(s, i, p) + 1
    decreases p - i
  {
    assert Skips(s, p + 1, p + 2) <= 1;
    if i < p {
      if s[i] != BACKSLASH {
        SkipsInTwo(s, i + 1, p);
      } else if i + 2 <= p {
        SkipsInTwo(s, i + 2, p);
      }
    }
  }

  lemma {:induction false} SkipsInRun(s: bytes, i: nat, p: nat, n: nat)
    requires i <= p && p + 2 * n <= |s|
    ensures Skips(s, i, p) <= Skips(s, i, p + 2 * n) <= Skips(s, i, p) + n
    decreases n
  {
    if n > 0 {
      SkipsInRun(s, i, p, n - 1);
      SkipsInTwo(s, i, p + 2 * (n - 1));
    }
  }

  lemma {:induction false} SkipsAreCounted(s: bytes, i: nat, skipped: nat)
    requires FindEnd(s, i, skipped).End?
    ensures var e := FindEnd(s, i, skipped);
            e.skipped == skipped + Skips(s, i, e.at) && Skips(s, i, e.at + 1) == Skips(s, i, e.at)
    decreases |s| - i
  {
    if s[i] == QUOTE {
    } else if s[i] == BACKSLASH {
      SkipsAreCounted(s, i + 2, skipped + 1);
    } else {
      SkipsAreCounted(s, i + 1, skipped);
    }
  }

  // How much can have been copied once p is reached.
  function Room(s: bytes, start: nat, p: nat): int
    requires p <= |s|
  {
    p - start - Skips(s, start, p)
  }

  lemma {:induction false} RoomGrows(s: bytes, start: nat, p: nat, q: nat)
    requires start <= p <= q <= |s|
    ensures Room(s, start, p) <= Room(s, start, q)
    decreases q - p
  {
    if p < q {
      RoomGrows(s, start, p, q - 1);
      SkipsGrow(s, start, q - 1);
    }
  }

  // A piece yields no more than the room its text makes.
  lemma PieceFits(s: bytes, start: nat, p: nat, end: nat)
    requires start <= p < end < |s| && PieceAt(s, p, end).Good?
    ensures var piece := PieceAt(s, p, end);
            Room(s, start, p) + |piece.code| <= Room(s, start, p + piece.size)
  {
    var piece := PieceAt(s, p, end);
    if piece.size == 1 {
      SkipsGrow(s, start, p);
    } else {
      SkipsInRun(s, start, p, piece.size / 2);
    }
  }

  // Whatever the text, the copy and its terminator fit the allocation of
  // (end - offset) - skipped + 1 bytes.
  lemma {:induction false} CopyFits(s: bytes, start: nat, p: nat, end: nat)
    requires start <= p <= end + 1 && end < |s|
    ensures Room(s, start, p) + |Decode(s, p, end).out| <= Room(s, start, end + 1)
    decreases end + 1 - p
  {
    RoomGrows(s, start, p, end + 1);
    if p < end && PieceAt(s, p, end).Good? {
      PieceFits(s, start, p, end);
      CopyFits(s, start, p + PieceAt(s, p, end).size, end);
    }
  }

  lemma ParseFitsItsAllocation(s: bytes, offset: nat)
    requires offset < |s| && FindEnd(s, offset + 1).End?
    ensures var e := FindEnd(s, offset + 1);
            |Decode(s, offset + 1, e.at).out| + 1 <= (e.at - offset) - e.skipped + 1
  {
    var e := FindEnd(s, offset + 1);
    SkipsAreCounted(s, offset + 1, 0);
    CopyFits(s, offset + 1, offset + 1, e.at);
    assert Skips(s, offset + 1, offset + 1) == 0;
  }

  // ---- The grammar ---------------------------------------------------------

  // What a literal is made of: an unescaped byte, a one-character escape, a code unit
  // that is no surrogate, and a surrogate pair.
  datatype Unit =
    | Plain(b: byte)
    | Escaped(letter: byte)
    | Code(hex: bytes)
    | Pair(high: bytes, low: bytes)

  predicate IsHex4(hex: bytes) { |hex| == 4 && AllHex(hex) }

  predicate Legal(u: Unit) {
    match u
    case Plain(b) => b != QUOTE && b != BACKSLASH
    case Escaped(letter) => Short(letter).Some?
    case Code(hex) => IsHex4(hex) && !IsHigh(Hex4(hex, 0)) && !IsLow(Hex4(hex, 0))
    case Pair(high, low) => IsHex4(high) && IsHex4(low) && IsHigh(Hex4(high, 0)) && IsLow(Hex4(low, 0))
  }

  // RFC 8259 wants control characters escaped as well; the parser does not mind them.
  predicate Strict(u: Unit) { u.Plain? ==> u.b >= 0x20 }

  function Escape(hex: bytes): bytes { [BACKSLASH, LETTER_U] + hex }

  function Text(u: Unit): (t: bytes) {
    match u
    case Plain(b) => [b]
    case Escaped(letter) => [BACKSLASH, letter]
    case Code(hex) => Escape(hex)
    case Pair(high, low) => Escape(high) + Escape(low)
  }

  function Meaning(u: Unit): bytes
    requires Legal(u)
  {
    match u
    case Plain(b) => [b]
    case Escaped(letter) => [Short(letter).value]
    case Code(hex) => Utf8(Hex4(hex, 0))
    case Pair(high, low) => Utf8(Joined(Hex4(high, 0), Hex4(low, 0)))
  }

  predicate AllStrict(units: seq<Unit>) { forall i | 0 <= i < |units| :: Strict(units[i]) }

  predicate AllLegal(units: seq<Unit>) { forall i | 0 <= i < |units| :: Legal(units[i]) }

  function Body(units: seq<Unit>): bytes { Flatten(seq(|units|, i requires 0 <= i < |units| => Text(units[i]))) }

  function Meanings(units: seq<Unit>): bytes
    requires AllLegal(units)
  {
    Flatten(seq(|units|, i requires 0 <= i < |units| => Meaning(units[i])))
  }

  // `t` stands in `s` at p.
  predicate StandsAt(s: bytes, p: nat, t: bytes) { p + |t| <= |s| && s[p..p + |t|] == t }

  lemma StandsBytes(s: bytes, p: nat, t: bytes, i: nat)
    requires StandsAt(s, p, t) && i < |t|
    ensures s[p + i] == t[i]
  {
    assert s[p..p + |t|][i] == t[i];
  }

  lemma StandsParts(s: bytes, p: nat, t: bytes, a: bytes, b: bytes)
    requires StandsAt(s, p, t) && t == a + b
    ensures StandsAt(s, p, a) && StandsAt(s, p + |a|, b)
  {
    assert s[p..p + |a|] == s[p..p + |t|][..|a|];
    assert s[p + |a|..p + |t|] == s[p..p + |t|][|a|..];
  }

  lemma HexStands(s: bytes, p: nat, hex: bytes)
    requires IsHex4(hex) && StandsAt(s, p, Escape(hex))
    ensures s[p] == BACKSLASH && s[p + 1] == LETTER_U && Hex4(s, p + 2) == Hex4(hex, 0)
    ensures forall i | p + 2 <= i < p + 6 :: IsHex(s[i])
  {
    forall i | 0 <= i < 6
      ensures s[p + i] == Escape(hex)[i]
    {
      StandsBytes(s, p, Escape(hex), i);
    }
    assert s[p + 2] == hex[0] && s[p + 3] == hex[1] && s[p + 4] == hex[2] && s[p + 5] == hex[3];
  }

  // The parser takes a legal unit for what it is.
  lemma UnitIsPiece(s: bytes, p: nat, end: nat, u: Unit)
    requires Legal(u) && StandsAt(s, p, Text(u)) && p + |Text(u)| <= end < |s|
    ensures PieceAt(s, p, end) == Good(|Text(u)|, Meaning(u))
  {
    match u
    case Plain(_) => StandsBytes(s, p, Text(u), 0);
    case Escaped(_) =>
      StandsBytes(s, p, Text(u), 0);
      StandsBytes(s, p, Text(u), 1);
    case Code(hex) => HexStands(s, p, hex);
    case Pair(high, low) =>
      StandsParts(s, p, Text(u), Escape(high), Escape(low));
      HexStands(s, p, high);
      HexStands(s, p + 6, low);
  }

  lemma {:induction false} HexScanned(s: bytes, i: nat, n: nat, skipped: nat)
    requires i + n <= |s| && forall j | i <= j < i + n :: IsHex(s[j])
    ensures FindEnd(s, i, skipped) == FindEnd(s, i + n, skipped)
    decreases n
  {
    if n > 0 {
      HexScanned(s, i + 1, n - 1, skipped);
    }
  }

  lemma EscapeScanned(s: bytes, p: nat, hex: bytes, skipped: nat)
    requires IsHex4(hex) && StandsAt(s, p, Escape(hex))
    ensures FindEnd(s, p, skipped) == FindEnd(s, p + 6, skipped + 1)
  {
    HexStands(s, p, hex);
    HexScanned(s, p + 2, 4, skipped + 1);
  }

  function Marks(u: Unit): nat {
    match u
    case Plain(_) => 0
    case Pair(_, _) => 2
    case _ => 1
  }

  lemma UnitIsScanned(s: bytes, p: nat, u: Unit, skipped: nat)
    requires Legal(u) && StandsAt(s, p, Text(u))
    ensures FindEnd(s, p, skipped) == FindEnd(s, p + |Text(u)|, skipped + Marks(u))
  {
    match u
    case Plain(_) => StandsBytes(s, p, Text(u), 0);
    case Escaped(_) =>
      StandsBytes(s, p, Text(u), 0);
      StandsBytes(s, p, Text(u), 1);
    case Code(hex) => EscapeScanned(s, p, hex, skipped);
    case Pair(high, low) =>
      StandsParts(s, p, Text(u), Escape(high), Escape(low));
      EscapeScanned(s, p, high, skipped);
      EscapeScanned(s, p + 6, low, skipped + 1);
  }

  function Before(code: bytes, rest: Copy): Copy { Copied(code + rest.out, rest.stop, rest.ok) }

  // A text that reads as `code` wherever it stands.
  ghost predicate Scans(t: bytes, marks: nat) {
    forall s: bytes, p: nat, skipped: nat | StandsAt(s, p, t) ::
      FindEnd(s, p, skipped) == FindEnd(s, p + |t|, skipped + marks)
  }

  ghost predicate Copies(t: bytes, code: bytes) {
    forall s: bytes, p: nat, end: nat | StandsAt(s, p, t) && p + |t| <= end < |s| ::
      Decode(s, p, end) == Before(code, Decode(s, p + |t|, end))
  }

  lemma UnitReads(u: Unit)
    requires Legal(u)
    ensures Scans(Text(u), Marks(u)) && Copies(Text(u), Meaning(u))
  {
    forall s: bytes, p: nat, skipped: nat | StandsAt(s, p, Text(u))
      ensures FindEnd(s, p, skipped) == FindEnd(s, p + |Text(u)|, skipped + Marks(u))
    {
      UnitIsScanned(s, p, u, skipped);
    }
    forall s: bytes, p: nat, end: nat | StandsAt(s, p, Text(u)) && p + |Text(u)| <= end < |s|
      ensures Decode(s, p, end) == Before(Meaning(u), Decode(s, p + |Text(u)|, end))
    {
      UnitIsPiece(s, p, end, u);
    }
  }

  lemma {:induction false} AllScanned(s: bytes, p: nat, texts: seq<bytes>, marks: seq<nat>, skipped: nat)
    requires |texts| == |marks| && (forall i | 0 <= i < |texts| :: Scans(texts[i], marks[i]))
    requires StandsAt(s, p, Flatten(texts)) && p + |Flatten(texts)| < |s| && s[p + |Flatten(texts)|] == QUOTE
    ensures FindEnd(s, p, skipped).End? && FindEnd(s, p, skipped).at == p + |Flatten(texts)|
    decreases |texts|
  {
    if texts != [] {
      StandsParts(s, p, Flatten(texts), texts[0], Flatten(texts[1..]));
      AllScanned(s, p + |texts[0]|, texts[1..], marks[1..], skipped + marks[0]);
    }
  }

  lemma {:induction false} AllCopied(s: bytes, p: nat, end: nat, texts: seq<bytes>, codes: seq<bytes>)
    requires |texts| == |codes| && (forall i | 0 <= i < |texts| :: Copies(texts[i], codes[i]))
    requires StandsAt(s, p, Flatten(texts)) && p + |Flatten(texts)| == end < |s|
    ensures Decode(s, p, end) == Copied(Flatten(codes), end, true)
    decreases |texts|
  {
    if texts != [] {
      StandsParts(s, p, Flatten(texts), texts[0], Flatten(texts[1..]));
      AllCopied(s, p + |texts[0]|, end, texts[1..], codes[1..]);
    }
  }

  lemma BodyIsFound(s: bytes, p: nat, units: seq<Unit>)
    requires AllLegal(units) && StandsAt(s, p, Body(units)) && p + |Body(units)| < |s|
    requires s[p + |Body(units)|] == QUOTE
    ensures FindEnd(s, p).End? && FindEnd(s, p).at == p + |Body(units)|
  {
    var texts := seq(|units|, i requires 0 <= i < |units| => Text(units[i]));
    var marks := seq(|units|, i requires 0 <= i < |units| => Marks(units[i]));
    forall i | 0 <= i < |units|
      ensures Scans(texts[i], marks[i])
    {
      UnitReads(units[i]);
    }
    AllScanned(s, p, texts, marks, 0);
  }

  lemma BodyIsCopied(s: bytes, p: nat, end: nat, units: seq<Unit>)
    requires AllLegal(units) && StandsAt(s, p, Body(units)) && p + |Body(units)| == end < |s|
    ensures Decode(s, p, end) == Copied(Meanings(units), end, true)
  {
    var texts := seq(|units|, i requires 0 <= i < |units| => Text(units[i]));
    var codes := seq(|units|, i requires 0 <= i < |units| => Meaning(units[i]));
    forall i | 0 <= i < |units|
      ensures Copies(texts[i], codes[i])
    {
      UnitReads(units[i]);
    }
    AllCopied(s, p, end, texts, codes);
  }

  lemma BodyIsRead(s: bytes, p: nat, units: seq<Unit>)
    requires AllLegal(units) && StandsAt(s, p, Body(units)) && p + |Body(units)| < |s|
    requires s[p + |Body(units)|] == QUOTE
    ensures FindEnd(s, p).End? && FindEnd(s, p).at == p + |Body(units)|
    ensures Decode(s, p, p + |Body(units)|) == Copied(Meanings(units), p + |Body(units)|, true)
  {
    BodyIsFound(s, p, units);
    BodyIsCopied(s, p, p + |Body(units)|, units);
  }

  lemma LiteralStands(before: bytes, body: bytes, after: bytes)
    ensures var s := before + (([QUOTE] + body) + ([QUOTE] + after)); var start := |before| + 1;
            && s[start - 1] == QUOTE && StandsAt(s, start, body)
            && start + |body| < |s| && s[start + |body|] == QUOTE
  {
    var s := before + (([QUOTE] + body) + ([QUOTE] + after));
    assert s[|before| + 1..|before| + 1 + |body|] == body;
  }

  // Every literal the grammar allows, wherever it stands, reads as what it means, and
  // the parser stops just past its closing quote.
  lemma LiteralIsRead(before: bytes, units: seq<Unit>, after: bytes)
    requires AllLegal(units)
    ensures Parse(before + (([QUOTE] + Body(units)) + ([QUOTE] + after)), |before|) ==
            Value(Meanings(units), |before| + |Body(units)| + 2)
  {
    var s := before + (([QUOTE] + Body(units)) + ([QUOTE] + after));
    var start := |before| + 1;
    LiteralStands(before, Body(units), after);
    BodyIsRead(s, start, units);
  }

  // ---- What the parser accepts ---------------------------------------------

  // A \u at p is followed by four hexadecimal digits.
  predicate HexAt(s: bytes, p: nat)
    requires p < |s|
  {
    p + 1 < |s| && s[p] == BACKSLASH && s[p + 1] == LETTER_U ==>
      p + 6 <= |s| && IsHex(s[p + 2]) && IsHex(s[p + 3]) && IsHex(s[p + 4]) && IsHex(s[p + 5])
  }

  // So is every \u the copying loop meets on its way to the end.
  predicate HexSound(s: bytes, p: nat, end: nat)
    requires end < |s|
    decreases end - p
  {
    p >= end || (HexAt(s, p) && (PieceAt(s, p, end).Good? ==> HexSound(s, p + PieceAt(s, p, end).size, end)))
  }

  ghost predicate Sounds(t: bytes) {
    forall s: bytes, p: nat, end: nat | StandsAt(s, p, t) && p + |t| <= end < |s| ::
      HexSound(s, p + |t|, end) ==> HexSound(s, p, end)
  }

  lemma UnitSounds(u: Unit)
    requires Legal(u)
    ensures Sounds(Text(u))
  {
    forall s: bytes, p: nat, end: nat | StandsAt(s, p, Text(u)) && p + |Text(u)| <= end < |s|
      ensures HexSound(s, p + |Text(u)|, end) ==> HexSound(s, p, end)
    {
      UnitIsPiece(s, p, end, u);
      StandsBytes(s, p, Text(u), 0);
      match u
      case Plain(_) =>
      case Escaped(_) => StandsBytes(s, p, Text(u), 1);
      case Code(hex) => HexStands(s, p, hex);
      case Pair(high, low) =>
        StandsParts(s, p, Text(u), Escape(high), Escape(low));
        HexStands(s, p, high);
    }
  }

  lemma {:induction false} AllSound(s: bytes, p: nat, texts: seq<bytes>)
    requires forall i | 0 <= i < |texts| :: Sounds(texts[i])
    requires StandsAt(s, p, Flatten(texts)) && p + |Flatten(texts)| < |s|
    ensures HexSound(s, p, p + |Flatten(texts)|)
    decreases |texts|
  {
    if texts != [] {
      var first, rest := texts[0], texts[1..];
      StandsParts(s, p, Flatten(texts), first, Flatten(rest));
      assert forall i | 0 <= i < |rest| :: rest[i] == texts[i + 1];
      AllSound(s, p + |first|, rest);
      assert Sounds(first);
    }
  }

  lemma BodyIsSound(s: bytes, p: nat, units: seq<Unit>)
    requires AllLegal(units) && StandsAt(s, p, Body(units)) && p + |Body(units)| < |s|
    ensures HexSound(s, p, p + |Body(units)|)
  {
    var texts := seq(|units|, i requires 0 <= i < |units| => Text(units[i]));
    forall i | 0 <= i < |units|
      ensures Sounds(texts[i])
    {
      UnitSounds(units[i]);
    }
    AllSound(s, p, texts);
  }

  predicate LiteralAt(s: bytes, offset: nat, units: seq<Unit>) {
    AllLegal(units) && StandsAt(s, offset, ([QUOTE] + Body(units)) + [QUOTE])
  }

  function Slice4(s: bytes, at: nat): bytes
    requires at + 4 <= |s|
  {
    [s[at], s[at + 1], s[at + 2], s[at + 3]]
  }

  // The legal unit a piece was read from.
  function UnitAt(s: bytes, p: nat, end: nat): Unit
    requires p < end < |s| && PieceAt(s, p, end).Good? && HexAt(s, p)
  {
    if s[p] != BACKSLASH then Plain(s[p])
    else if s[p + 1] != LETTER_U then Escaped(s[p + 1])
    else if PieceAt(s, p, end).size == 6 then Code(Slice4(s, p + 2))
    else Pair(Slice4(s, p + 2), Slice4(s, p + 8))
  }

  lemma Slice4Hex(s: bytes, at: nat)
    requires at + 4 <= |s|
    ensures Hex4(Slice4(s, at), 0) == Hex4(s, at)
    ensures Hex4(s, at) != 0 ==> IsHex4(Slice4(s, at))
  {
  }

  lemma PieceIsUnit(s: bytes, p: nat, end: nat)
    requires p < end < |s| && s[p] != QUOTE && PieceAt(s, p, end).Good? && HexAt(s, p)
    ensures var u := UnitAt(s, p, end);
            Legal(u) && |Text(u)| == PieceAt(s, p, end).size && StandsAt(s, p, Text(u))
  {
    var size := PieceAt(s, p, end).size;
    if size == 6 {
      Slice4Hex(s, p + 2);
      assert s[p..p + 6] == Escape(Slice4(s, p + 2));
    } else if size == 12 {
      Slice4Hex(s, p + 2);
      Slice4Hex(s, p + 8);
      assert s[p..p + 12] == Escape(Slice4(s, p + 2)) + Escape(Slice4(s, p + 8));
    }
  }

  lemma BodyCons(u: Unit, rest: seq<Unit>)
    ensures Body([u] + rest) == Text(u) + Body(rest)
  {
    var units := [u] + rest;
    var texts := seq(|units|, i requires 0 <= i < |units| => Text(units[i]));
    assert texts[1..] == seq(|rest|, i requires 0 <= i < |rest| => Text(rest[i]));
  }

  lemma Follows(s: bytes, p: nat, t: bytes, end: nat)
    requires StandsAt(s, p, t) && p + |t| <= end <= |s|
    ensures s[p..end] == t + s[p + |t|..end]
  {
  }

  lemma AcceptedPiece(s: bytes, p: nat, end: nat)
    requires p < end < |s| && Decode(s, p, end).ok && HexSound(s, p, end)
    ensures PieceAt(s, p, end).Good? && HexAt(s, p)
    ensures var next := p + PieceAt(s, p, end).size; Decode(s, next, end).ok && HexSound(s, next, end)
  {
  }

  // The unit at p, and what is accepted after it.
  lemma AcceptedText(s: bytes, p: nat, end: nat) returns (u: Unit)
    requires p < end < |s| && s[p] != QUOTE && Decode(s, p, end).ok && HexSound(s, p, end)
    ensures Legal(u) && StandsAt(s, p, Text(u)) && p + |Text(u)| <= end + 1
    ensures Decode(s, p + |Text(u)|, end).ok && HexSound(s, p + |Text(u)|, end)
  {
    AcceptedPiece(s, p, end);
    u := UnitAt(s, p, end);
    PieceIsUnit(s, p, end);
  }

  // A unit before the end that was found is all before it.
  lemma UnitBeforeEnd(s: bytes, p: nat, end: nat, skipped: nat, u: Unit)
    requires FindEnd(s, p, skipped).End? && FindEnd(s, p, skipped).at == end
    requires Legal(u) && StandsAt(s, p, Text(u))
    ensures var next := p + |Text(u)|;
            && p < next <= end && s[p..end] == Text(u) + s[next..end]
            && FindEnd(s, next, skipped + Marks(u)).End? && FindEnd(s, next, skipped + Marks(u)).at == end
  {
    UnitIsScanned(s, p, u, skipped);
    Follows(s, p, Text(u), end);
  }

  lemma {:induction false} AcceptedUnits(s: bytes, p: nat, end: nat, skipped: nat) returns (units: seq<Unit>)
    requires FindEnd(s, p, skipped).End? && FindEnd(s, p, skipped).at == end
    requires Decode(s, p, end).ok && HexSound(s, p, end)
    ensures AllLegal(units) && Body(units) == s[p..end]
    decreases end - p
  {
    if p == end {
      units := [];
    } else {
      var u := AcceptedText(s, p, end);
      UnitBeforeEnd(s, p, end, skipped, u);
      var rest := AcceptedUnits(s, p + |Text(u)|, end, skipped + Marks(u));
      units := [u] + rest;
      BodyCons(u, rest);
    }
  }

  lemma LiteralParts(s: bytes, offset: nat, units: seq<Unit>)
    requires LiteralAt(s, offset, units)
    ensures s[offset] == QUOTE && StandsAt(s, offset + 1, Body(units))
    ensures offset + 1 + |Body(units)| < |s| && s[offset + 1 + |Body(units)|] == QUOTE
  {
    var body := Body(units);
    StandsParts(s, offset, ([QUOTE] + body) + [QUOTE], [QUOTE] + body, [QUOTE]);
    StandsParts(s, offset, [QUOTE] + body, [QUOTE], body);
    StandsBytes(s, offset, [QUOTE], 0);
    StandsBytes(s, offset + 1 + |body|, [QUOTE], 0);
  }

  predicate AcceptsSoundly(s: bytes, offset: nat)
    requires offset < |s|
  {
    Parse(s, offset).Value? && HexSound(s, offset + 1, Parse(s, offset).next - 1)
  }

  lemma QuotedStands(s: bytes, offset: nat, end: nat, body: bytes)
    requires offset < end < |s| && s[offset] == QUOTE && s[end] == QUOTE && s[offset + 1..end] == body
    ensures StandsAt(s, offset, ([QUOTE] + body) + [QUOTE])
  {
  }

  lemma AcceptedIsLiteral(s: bytes, offset: nat) returns (units: seq<Unit>)
    requires offset < |s| && AcceptsSoundly(s, offset)
    ensures LiteralAt(s, offset, units)
  {
    var end := Parse(s, offset).next - 1;
    assert FindEnd(s, offset + 1).at == end;
    units := AcceptedUnits(s, offset + 1, end, 0);
    QuotedStands(s, offset, end, Body(units));
  }

  lemma LiteralIsAccepted(s: bytes, offset: nat, units: seq<Unit>)
    requires LiteralAt(s, offset, units)
    ensures AcceptsSoundly(s, offset)
  {
    LiteralParts(s, offset, units);
    BodyIsRead(s, offset + 1, units);
    BodyIsSound(s, offset + 1, units);
  }

  // What the parser accepts is exactly these literals, so long as every \u it meets is
  // followed by four hexadecimal digits.
  lemma AcceptedLiteralIff(s: bytes, offset: nat)
    requires offset < |s|
    ensures AcceptsSoundly(s, offset) <==> exists units :: LiteralAt(s, offset, units)
  {
    if AcceptsSoundly(s, offset) {
      var units := AcceptedIsLiteral(s, offset);
    } else if exists units :: LiteralAt(s, offset, units) {
      var units :| LiteralAt(s, offset, units);
      LiteralIsAccepted(s, offset, units);
    }
  }

  predicate NoControl(t: bytes) { forall i | 0 <= i < |t| :: t[i] >= 0x20 }

  lemma NoControlConcat(a: bytes, b: bytes)
    ensures NoControl(a + b) <==> NoControl(a) && NoControl(b)
  {
    var c := a + b;
    assert forall i | 0 <= i < |a| :: c[i] == a[i];
    assert forall i | 0 <= i < |b| :: c[|a| + i] == b[i];
  }

  lemma StrictText(u: Unit)
    requires Legal(u)
    ensures Strict(u) <==> NoControl(Text(u))
  {
    match u
    case Plain(b) => assert Text(u)[0] == b;
    case Escaped(_) =>
    case Code(hex) => NoControlConcat([BACKSLASH, LETTER_U], hex);
    case Pair(high, low) =>
      NoControlConcat([BACKSLASH, LETTER_U], high);
      NoControlConcat([BACKSLASH, LETTER_U], low);
      NoControlConcat(Escape(high), Escape(low));
  }

  lemma {:induction false} StrictBody(units: seq<Unit>)
    requires AllLegal(units)
    ensures AllStrict(units) <==> NoControl(Body(units))
  {
    if units != [] {
      var u, rest := units[0], units[1..];
      assert units == [u] + rest;
      assert forall i | 0 <= i < |rest| :: rest[i] == units[i + 1];
      BodyCons(u, rest);
      StrictText(u);
      StrictBody(rest);
      NoControlConcat(Text(u), Body(rest));
      assert AllStrict(units) <==> Strict(u) && AllStrict(rest);
    }
  }

  // What stands between the quotes of an accepted literal is its units.
  lemma LiteralBody(s: bytes, offset: nat, units: seq<Unit>)
    requires LiteralAt(s, offset, units)
    ensures Parse(s, offset).Value? && offset < Parse(s, offset).next - 1 < |s|
    ensures s[offset + 1..Parse(s, offset).next - 1] == Body(units)
  {
    LiteralParts(s, offset, units);
    BodyIsRead(s, offset + 1, units);
  }

  // What the parser accepts with every \u followed by four hexadecimal digits and no
  // control character unescaped is exactly the literals of RFC 8259 in which surrogates
  // come in pairs.
  lemma AcceptedIff(s: bytes, offset: nat)
    requires offset < |s|
    ensures AcceptsSoundly(s, offset) && NoControl(s[offset + 1..Parse(s, offset).next - 1]) <==>
            exists units :: LiteralAt(s, offset, units) && AllStrict(units)
  {
    if AcceptsSoundly(s, offset) && NoControl(s[offset + 1..Parse(s, offset).next - 1]) {
      var units := AcceptedIsLiteral(s, offset);
      LiteralBody(s, offset, units);
      StrictBody(units);
    } else if exists units :: LiteralAt(s, offset, units) && AllStrict(units) {
      var units :| LiteralAt(s, offset, units) && AllStrict(units);
      LiteralIsAccepted(s, offset, units);
      LiteralBody(s, offset, units);
      StrictBody(units);
    }
  }

  // Without the second condition it accepts more: any control character stands for
  // itself.
  lemma ControlIsAccepted(b: byte)
    requires b < 0x20
    ensures Parse([QUOTE, b, QUOTE], 0) == Value([b], 3) && AcceptsSoundly([QUOTE, b, QUOTE], 0)
    ensures !exists units :: LiteralAt([QUOTE, b, QUOTE], 0, units) && AllStrict(units)
  {
    var s := [QUOTE, b, QUOTE];
    var units := [Plain(b)];
    BodyCons(Plain(b), []);
    assert units == [Plain(b)] + [] && Body([]) == [];
    assert LiteralAt(s, 0, units);
    LiteralIsAccepted(s, 0, units);
    assert FindEnd(s, 2, 0) == End(2, 0) && FindEnd(s, 1, 0) == End(2, 0);
    assert Decode(s, 2, 2) == Copied([], 2, true) && Decode(s, 1, 2) == Copied([b] + [], 2, true);
    AcceptedIff(s, 0);
    assert s[1..2][0] == b;
  }

  // One half of a surrogate pair, which the RFC's grammar lets stand alone, is refused.
  lemma LoneSurrogateIsRefused(hex: bytes)
    requires IsHex4(hex) && (IsHigh(Hex4(hex, 0)) || IsLow(Hex4(hex, 0)))
    ensures !Parse(([QUOTE] + Escape(hex)) + [QUOTE], 0).Value?
  {
    var s := ([QUOTE] + Escape(hex)) + [QUOTE];
    assert s == [QUOTE, BACKSLASH, LETTER_U, hex[0], hex[1], hex[2], hex[3], QUOTE];
    assert FindEnd(s, 3, 1) == FindEnd(s, 4, 1) == FindEnd(s, 5, 1) == FindEnd(s, 6, 1) == End(7, 1);
    assert FindEnd(s, 1) == End(7, 1);
    assert Hex4(s, 3) == Hex4(hex, 0);
    assert Utf16(s, 1, 7).Bad?;
    assert !Decode(s, 1, 7).ok;
  }

  // Without the first it does too: parse_hex4 answers 0 for what is not
  // hexadecimal, and the copying can even run past the closing quote.
  lemma BadHexIsAccepted(a: byte)
    requires !IsHex(a) && a != QUOTE && a != BACKSLASH
    ensures Parse([QUOTE, BACKSLASH, LETTER_U, a, 48, 48, 48, QUOTE], 0) == Value([0], 8)
    ensures Parse([QUOTE, BACKSLASH, LETTER_U, 48, 48, 48, BACKSLASH, BACKSLASH, QUOTE], 0) == Value([0, QUOTE], 9)
  {
    var one := [QUOTE, BACKSLASH, LETTER_U, a, 48, 48, 48, QUOTE];
    var two := [QUOTE, BACKSLASH, LETTER_U, 48, 48, 48, BACKSLASH, BACKSLASH, QUOTE];
    assert FindEnd(one, 3, 1) == FindEnd(one, 4, 1) == FindEnd(one, 5, 1) == FindEnd(one, 6, 1) == End(7, 1);
    assert Decode(one, 1, 7) == Copied([0] + Decode(one, 7, 7).out, 7, true);
    assert FindEnd(two, 3, 1) == FindEnd(two, 4, 1) == FindEnd(two, 5, 1) == FindEnd(two, 6, 1) == End(8, 2);
    assert Decode(two, 7, 8) == Copied([QUOTE] + Decode(two, 9, 8).out, 9, true);
    assert Decode(two, 1, 8) == Copied([0] + Decode(two, 7, 8).out, 9, true);
  }

  // ---- Writing -------------------------------------------------------------

  function LowHex(d: nat): byte
    requires d < 16
  {
    if d < 10 then 48 + d else 87 + d
  }

  // What print_string_ptr writes for one byte; "u%04x" for the other control characters.
  function PrintByte(b: byte): (t: bytes)
    ensures 1 <= |t| <= 6
  {
    if b > 31 && b != QUOTE && b != BACKSLASH then [b]
    else match b
         case 92 => [BACKSLASH, 92]
         case 34 => [BACKSLASH, 34]
         case 8 => [BACKSLASH, 98]
         case 12 => [BACKSLASH, 102]
         case 10 => [BACKSLASH, 110]
         case 13 => [BACKSLASH, 114]
         case 9 => [BACKSLASH, 116]
         case _ => [BACKSLASH, LETTER_U, 48, 48, LowHex(b / 16), LowHex(b % 16)]
  }

  function Printed(s: bytes): bytes { Flatten(seq(|s|, i requires 0 <= i < |s| => PrintByte(s[i]))) }

  function Print(s: bytes): bytes { ([QUOTE] + Printed(s)) + [QUOTE] }

  lemma PrintedSnoc(s: bytes, b: byte)
    ensures Printed(s + [b]) == Printed(s) + PrintByte(b)
  {
    var whole := s + [b];
    var texts := seq(|s|, i requires 0 <= i < |s| => PrintByte(s[i]));
    assert seq(|whole|, i requires 0 <= i < |whole| => PrintByte(whole[i])) == texts + [PrintByte(b)];
    FlattenAppend(texts, [PrintByte(b)]);
    assert Flatten([PrintByte(b)]) == PrintByte(b) + [];
  }

  function UnitOf(b: byte): Unit {
    if b > 31 && b != QUOTE && b != BACKSLASH then Plain(b)
    else match b
         case 92 => Escaped(92)
         case 34 => Escaped(34)
         case 8 => Escaped(98)
         case 12 => Escaped(102)
         case 10 => Escaped(110)
         case 13 => Escaped(114)
         case 9 => Escaped(116)
         case _ => Code([48, 48, LowHex(b / 16), LowHex(b % 16)])
  }

  lemma PrintsAUnit(b: byte)
    ensures Legal(UnitOf(b)) && Text(UnitOf(b)) == PrintByte(b) && Meaning(UnitOf(b)) == [b]
  {
    if UnitOf(b).Code? {
      var hex := UnitOf(b).hex;
      assert Hex4(hex, 0) == b;
    }
  }

  lemma {:induction false} Singletons(s: bytes, codes: seq<bytes>)
    requires |codes| == |s| && forall i | 0 <= i < |s| :: codes[i] == [s[i]]
    ensures Flatten(codes) == s
  {
    if s != [] {
      Singletons(s[1..], codes[1..]);
    }
  }

  // What is printed is a literal of the strict grammar, and it means the string.
  lemma PrintIsLiteral(s: bytes) returns (units: seq<Unit>)
    ensures AllLegal(units) && AllStrict(units) && Body(units) == Printed(s) && Meanings(units) == s
  {
    units := seq(|s|, i requires 0 <= i < |s| => UnitOf(s[i]));
    forall i | 0 <= i < |s|
      ensures Legal(units[i]) && Strict(units[i]) && Text(units[i]) == PrintByte(s[i]) && Meaning(units[i]) == [s[i]]
    {
      PrintsAUnit(s[i]);
    }
    var texts := seq(|units|, i requires 0 <= i < |units| => Text(units[i]));
    assert texts == seq(|s|, i requires 0 <= i < |s| => PrintByte(s[i]));
    Singletons(s, seq(|units|, i requires 0 <= i < |units| => Meaning(units[i])));
  }

  // Reading back what was printed gives the string, and the reading stops just past the
  // closing quote.
  lemma RoundTrip(before: bytes, s: bytes, after: bytes)
    ensures Parse(before + (Print(s) + after), |before|) == Value(s, |before| + |Print(s)|)
  {
    var units := PrintIsLiteral(s);
    LiteralIsRead(before, units, after);
    Assoc([QUOTE] + Printed(s), [QUOTE], after);
  }
}
