/** What JSON escapes stand for (section 7 of RFC 8259), character by character: code
    points, their surrogate pairs and their UTF-8 bytes (section 3 of RFC 3629), and
    the one-letter escapes. */
module JsonCharacters {
  import opened Bytes
  import opened Wrappers
  import opened JsonLiteral

  // ---- UTF-8 ---------------------------------------------------------------

  predicate IsContinuation(b: int) { 0x80 <= b <= 0xBF }

  // The bytes encode the code point, in no more bytes than it takes.
  predicate Encodes(s: seq<int>, c: nat) {
    if c < 0x80 then s == [c]
    else if c < 0x800 then
      |s| == 2 && 0xC2 <= s[0] <= 0xDF && IsContinuation(s[1]) && (s[0] - 0xC0) * 0x40 + (s[1] - 0x80) == c
    else if c < 0x10000 then
      && |s| == 3 && 0xE0 <= s[0] <= 0xEF && IsContinuation(s[1]) && IsContinuation(s[2])
      && (s[0] - 0xE0) * 0x1000 + (s[1] - 0x80) * 0x40 + (s[2] - 0x80) == c
    else
      && |s| == 4 && 0xF0 <= s[0] <= 0xF4 && IsContinuation(s[1]) && IsContinuation(s[2]) && IsContinuation(s[3])
      && (s[0] - 0xF0) * 0x40000 + (s[1] - 0x80) * 0x1000 + (s[2] - 0x80) * 0x40 + (s[3] - 0x80) == c
  }

  lemma Utf8Encodes(c: nat)
    requires c <= 0x10FFFF
    ensures Encodes(Utf8(c), c)
  {
  }

  // ---- Code units ----------------------------------------------------------

  // Four hexadecimal digits of either case that spell the code unit.
  predicate IsHexOf(hex: bytes, code: nat) { Spells(hex, Nibbles(code)) }

  function Nibbles(code: nat): (values: seq<nat>)
    ensures |values| == 4
  {
    [code / 0x1000, code / 0x100 % 0x10, code / 0x10 % 0x10, code % 0x10]
  }

  lemma NibblesAddUp(code: nat)
    ensures ((code / 0x1000 * 16 + code / 0x100 % 0x10) * 16 + code / 0x10 % 0x10) * 16 + code % 0x10 == code
  {
    assert code / 0x10 / 0x10 == code / 0x100 && code / 0x100 / 0x10 == code / 0x1000;
  }

  lemma DigitsRead(hex: bytes, values: seq<nat>)
    requires |values| == 4 && Spells(hex, values)
    ensures IsHex4(hex) && Hex4(hex, 0) == ((values[0] * 16 + values[1]) * 16 + values[2]) * 16 + values[3]
  {
    forall i | 0 <= i < 4 ensures IsHex(hex[i]) && HexDigit(hex[i]) == values[i] {
      DigitsOfEitherCase(hex[i], values[i]);
    }
  }

  lemma HexReads(hex: bytes, code: nat)
    requires code < 0x10000 && IsHexOf(hex, code)
    ensures IsHex4(hex) && Hex4(hex, 0) == code
  {
    DigitsRead(hex, Nibbles(code));
    NibblesAddUp(code);
  }

  lemma OneUnit(u: Unit)
    requires Legal(u)
    ensures AllLegal([u]) && Body([u]) == Text(u) && Meanings([u]) == Meaning(u)
  {
    var units := [u];
    assert seq(|units|, i requires 0 <= i < |units| => Text(units[i])) == [Text(u)];
    assert seq(|units|, i requires 0 <= i < |units| => Meaning(units[i])) == [Meaning(u)];
    FlattenOne(Text(u));
    FlattenOne(Meaning(u));
  }

  lemma FlattenOne(s: bytes)
    ensures Flatten([s]) == s
  {
    assert [s][1..] == [] && s + [] == s;
  }

  // The literal of one unit.
  function Literal(u: Unit): bytes { [QUOTE] + Text(u) + [QUOTE] }

  lemma UnitIsRead(u: Unit, text: bytes)
    requires Legal(u) && text == Literal(u)
    ensures Parse(text, 0) == Value(Meaning(u), |Text(u)| + 2)
  {
    OneUnit(u);
    LiteralIsRead([], [u], []);
    assert [] + (([QUOTE] + Text(u)) + ([QUOTE] + [])) == text;
  }

  lemma CodeMeans(c: nat, hex: bytes)
    requires c < 0x10000 && !(0xD800 <= c <= 0xDFFF) && IsHexOf(hex, c)
    ensures Legal(Code(hex)) && Meaning(Code(hex)) == Utf8(c) && |Text(Code(hex))| == 6
    ensures [34, 92, 117] + hex + [34] == Literal(Code(hex))
  {
    HexReads(hex, c);
  }

  // The escape of any code unit that is no surrogate reads as its UTF-8 bytes.
  lemma CodeUnitIsRead(c: nat, hex: bytes, text: bytes)
    requires c < 0x10000 && !(0xD800 <= c <= 0xDFFF) && IsHexOf(hex, c) && text == [34, 92, 117] + hex + [34]
    ensures Parse(text, 0).Value? && Parse(text, 0).next == 8 && Encodes(Parse(text, 0).text, c)
  {
    CodeMeans(c, hex);
    UnitIsRead(Code(hex), text);
    Utf8Encodes(c);
  }

  lemma PairText(high: bytes, low: bytes)
    requires |high| == |low| == 4
    ensures [34, 92, 117] + high + [92, 117] + low + [34] == Literal(Pair(high, low)) && |Text(Pair(high, low))| == 12
  {
  }

  lemma PairMeans(c: nat, high: bytes, low: bytes)
    requires 0x10000 <= c <= 0x10FFFF
    requires IsHexOf(high, 0xD800 + (c - 0x10000) / 0x400) && IsHexOf(low, 0xDC00 + (c - 0x10000) % 0x400)
    ensures Legal(Pair(high, low)) && Meaning(Pair(high, low)) == Utf8(c) && |Text(Pair(high, low))| == 12
    ensures [34, 92, 117] + high + [92, 117] + low + [34] == Literal(Pair(high, low))
  {
    HexReads(high, 0xD800 + (c - 0x10000) / 0x400);
    HexReads(low, 0xDC00 + (c - 0x10000) % 0x400);
    JoinsBack(c);
    PairText(high, low);
  }

  // A code point past the basic plane, written as its two surrogates, reads as its
  // UTF-8 bytes.
  lemma SurrogatesAreRead(c: nat, high: bytes, low: bytes, text: bytes)
    requires 0x10000 <= c <= 0x10FFFF && text == [34, 92, 117] + high + [92, 117] + low + [34]
    requires IsHexOf(high, 0xD800 + (c - 0x10000) / 0x400) && IsHexOf(low, 0xDC00 + (c - 0x10000) % 0x400)
    ensures Parse(text, 0).Value? && Parse(text, 0).next == 14 && Encodes(Parse(text, 0).text, c)
  {
    PairMeans(c, high, low);
    UnitIsRead(Pair(high, low), text);
    Utf8Encodes(c);
  }

  lemma JoinsBack(c: nat)
    requires 0x10000 <= c <= 0x10FFFF
    ensures var h, l := 0xD800 + (c - 0x10000) / 0x400, 0xDC00 + (c - 0x10000) % 0x400;
            IsHigh(h) && IsLow(l) && Joined(h, l) == c
  {
    var q, r := (c - 0x10000) / 0x400, (c - 0x10000) % 0x400;
    assert q < 0x400 && (0xD800 + q) % 0x400 == q && (0xDC00 + r) % 0x400 == r;
  }

  // ---- One-letter escapes --------------------------------------------------

  // Quotation mark, reverse solidus, solidus, backspace, form feed, line feed,
  // carriage return and tab, as the RFC lists them.
  const ESCAPES: seq<(byte, byte)> :=
    [(34, 34), (92, 92), (47, 47), (98, 8), (102, 12), (110, 10), (114, 13), (116, 9)]

  lemma EscapeIsRead(i: nat)
    requires i < |ESCAPES|
    ensures Parse([34, 92, ESCAPES[i].0, 34], 0) == Value([ESCAPES[i].1], 4)
  {
    var letter := ESCAPES[i].0;
    UnitIsRead(Escaped(letter), [34, 92, letter, 34]);
  }

  // No other letter is an escape.
  lemma OtherEscapesAreRefused(letter: byte)
    requires letter != 117 && forall i | 0 <= i < |ESCAPES| :: ESCAPES[i].0 != letter
    ensures !Parse([34, 92, letter, 34], 0).Value?
  {
    var s: bytes := [34, 92, letter, 34];
    assert ESCAPES[0].0 == 34 && ESCAPES[1].0 == 92 && ESCAPES[2].0 == 47 && ESCAPES[3].0 == 98;
    assert ESCAPES[4].0 == 102 && ESCAPES[5].0 == 110 && ESCAPES[6].0 == 114 && ESCAPES[7].0 == 116;
    assert FindEnd(s, 3, 1) == End(3, 1);
    assert PieceAt(s, 1, 3) == Bad;
  }

  // ---- Where reading fails -------------------------------------------------

  // What holds just behind the text holds at it, wherever it stands.
  ghost predicate Carries(s: bytes, end: nat, t: bytes, holds: nat -> bool) {
    forall q: nat | StandsAt(s, q, t) && q + |t| <= end && holds(q + |t|) :: holds(q)
  }

  lemma {:induction false} CarriedBack(s: bytes, p: nat, end: nat, texts: seq<bytes>, holds: nat -> bool)
    requires forall i | 0 <= i < |texts| :: Carries(s, end, texts[i], holds)
    requires StandsAt(s, p, Flatten(texts)) && p + |Flatten(texts)| <= end && holds(p + |Flatten(texts)|)
    ensures holds(p)
    decreases |texts|
  {
    if texts != [] {
      var first, rest := texts[0], Flatten(texts[1..]);
      assert Flatten(texts) == first + rest;
      StandsParts(s, p, Flatten(texts), first, rest);
      CarriedBack(s, p + |first|, end, texts[1..], holds);
    }
  }

  // The copying fails at `stop`.
  predicate StopsAt(s: bytes, q: nat, end: nat, stop: nat)
    requires end < |s|
  {
    q <= end + 1 && !Decode(s, q, end).ok && Decode(s, q, end).stop == stop
  }

  lemma UnitCarriesStop(s: bytes, end: nat, stop: nat, u: Unit)
    requires Legal(u) && end < |s|
    ensures Carries(s, end, Text(u), (q: nat) => StopsAt(s, q, end, stop))
  {
    UnitReads(u);
    forall q: nat | StandsAt(s, q, Text(u)) && q + |Text(u)| <= end && StopsAt(s, q + |Text(u)|, end, stop)
      ensures StopsAt(s, q, end, stop)
    {
      assert Decode(s, q, end) == Before(Meaning(u), Decode(s, q + |Text(u)|, end));
    }
  }

  lemma StopsBehind(s: bytes, p: nat, end: nat, units: seq<Unit>, stop: nat)
    requires AllLegal(units) && StandsAt(s, p, Body(units)) && p + |Body(units)| <= end < |s|
    requires StopsAt(s, p + |Body(units)|, end, stop)
    ensures StopsAt(s, p, end, stop)
  {
    var texts := seq(|units|, i requires 0 <= i < |units| => Text(units[i]));
    var holds := (q: nat) => StopsAt(s, q, end, stop);
    forall i | 0 <= i < |units|
      ensures Carries(s, end, texts[i], holds)
    {
      UnitCarriesStop(s, end, stop, units[i]);
    }
    CarriedBack(s, p, end, texts, holds);
  }

  // The string ends at `end`, however many escapes have been counted.
  ghost predicate EndsAt(s: bytes, q: nat, end: nat) {
    forall skipped: nat :: FindEnd(s, q, skipped).End? && FindEnd(s, q, skipped).at == end
  }

  lemma UnitCarriesEnd(s: bytes, end: nat, u: Unit)
    requires Legal(u)
    ensures Carries(s, end, Text(u), (q: nat) => EndsAt(s, q, end))
  {
    UnitReads(u);
    forall q: nat, skipped: nat | StandsAt(s, q, Text(u)) && q + |Text(u)| <= end && EndsAt(s, q + |Text(u)|, end)
      ensures FindEnd(s, q, skipped).End? && FindEnd(s, q, skipped).at == end
    {
      assert FindEnd(s, q, skipped) == FindEnd(s, q + |Text(u)|, skipped + Marks(u));
    }
  }

  lemma EndsBehind(s: bytes, p: nat, end: nat, units: seq<Unit>)
    requires AllLegal(units) && StandsAt(s, p, Body(units)) && p + |Body(units)| <= end
    requires EndsAt(s, p + |Body(units)|, end)
    ensures EndsAt(s, p, end)
  {
    var texts := seq(|units|, i requires 0 <= i < |units| => Text(units[i]));
    var holds := (q: nat) => EndsAt(s, q, end);
    forall i | 0 <= i < |units|
      ensures Carries(s, end, texts[i], holds)
    {
      UnitCarriesEnd(s, end, units[i]);
    }
    CarriedBack(s, p, end, texts, holds);
  }

  predicate IsPlain(s: bytes, lo: nat, hi: nat)
    requires hi <= |s|
  {
    forall i | lo <= i < hi :: s[i] != QUOTE && s[i] != BACKSLASH
  }

  lemma {:induction false} ScansPlain(s: bytes, lo: nat, hi: nat, skipped: nat)
    requires lo <= hi <= |s| && IsPlain(s, lo, hi)
    ensures FindEnd(s, lo, skipped) == FindEnd(s, hi, skipped)
    decreases hi - lo
  {
    if lo < hi { ScansPlain(s, lo + 1, hi, skipped); }
  }

  // A text that is no string, or has no end, fails just behind its first byte.
  lemma FailsAtTheStart(s: bytes, offset: nat)
    requires offset < |s| && (s[offset] != QUOTE || IsPlain(s, offset + 1, |s|))
    ensures Parse(s, offset) == Failed(offset + 1)
  {
    if s[offset] == QUOTE { ScansPlain(s, offset + 1, |s|, 0); }
  }

  lemma NoEscape(letter: byte)
    requires forall i | 0 <= i < |ESCAPES| :: ESCAPES[i].0 != letter
    ensures Short(letter).None?
  {
    assert ESCAPES[0].0 == 34 && ESCAPES[1].0 == 92 && ESCAPES[2].0 == 47 && ESCAPES[3].0 == 98;
    assert ESCAPES[4].0 == 102 && ESCAPES[5].0 == 110 && ESCAPES[6].0 == 114 && ESCAPES[7].0 == 116;
  }

  lemma StopsThere(s: bytes, p: nat, end: nat)
    requires p + 2 <= end < |s| && s[p] == BACKSLASH && s[p + 1] != LETTER_U && Short(s[p + 1]).None?
    ensures StopsAt(s, p, end, p)
  {
  }

  lemma EndsThere(s: bytes, p: nat, end: nat)
    requires p + 2 <= end < |s| && s[p] == BACKSLASH && IsPlain(s, p + 2, end) && s[end] == QUOTE
    ensures EndsAt(s, p, end)
  {
    forall skipped: nat
      ensures FindEnd(s, p, skipped).End? && FindEnd(s, p, skipped).at == end
    {
      ScansPlain(s, p + 2, end, skipped + 1);
    }
  }

  // A string with an escape that is none fails at that escape, whatever stands before
  // it and however the string goes on.
  lemma FailsAtTheEscape(s: bytes, offset: nat, units: seq<Unit>, p: nat, end: nat)
    requires AllLegal(units) && p == offset + 1 + |Body(units)| && p + 2 <= end < |s|
    requires s[offset] == QUOTE && StandsAt(s, offset + 1, Body(units)) && s[p] == BACKSLASH && s[p + 1] != LETTER_U
    requires forall i | 0 <= i < |ESCAPES| :: ESCAPES[i].0 != s[p + 1]
    requires IsPlain(s, p + 2, end) && s[end] == QUOTE
    ensures Parse(s, offset) == Failed(p)
  {
    NoEscape(s[p + 1]);
    StopsThere(s, p, end);
    EndsThere(s, p, end);
    EndsBehind(s, offset + 1, end, units);
    StopsBehind(s, offset + 1, end, units, p);
  }

  // What has a one-letter escape is printed with it, the solidus excepted.
  lemma EscapesArePrinted(i: nat)
    requires i < |ESCAPES| && i != 2
    ensures Print([ESCAPES[i].1]) == [34, 92, ESCAPES[i].0, 34]
  {
    PrintedSnoc([], ESCAPES[i].1);
    assert [] + [ESCAPES[i].1] == [ESCAPES[i].1] && Printed([]) == [];
  }
}
