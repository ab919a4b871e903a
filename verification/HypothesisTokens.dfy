/** StableTracker::tokenize (app/server/voice_stability.cpp): a transcript as tokens that
    ignore case and punctuation, each with the place it ends in the raw text. */
module HypothesisTokens {
  import opened Bytes

  datatype Token = Token(normalized: bytes, rawEnd: nat)

  const APOSTROPHE: byte := 39

  predicate IsAlnum(b: byte) { 48 <= b <= 57 || 65 <= b <= 90 || 97 <= b <= 122 }

  // ---- Units ---------------------------------------------------------------

  // The length a UTF-8 lead byte announces; 1 for a byte that leads nothing.
  function UnitLength(b: byte): (n: nat)
    ensures 1 <= n <= 4
  {
    if 0xF0 <= b < 0xF8 then 4 else if 0xE0 <= b < 0xF0 then 3 else if 0xC0 <= b < 0xE0 then 2 else 1
  }

  function FirstUnit(text: bytes): (n: nat)
    requires text != []
    ensures 1 <= n <= |text|
  {
    if UnitLength(text[0]) <= |text| then UnitLength(text[0]) else |text|
  }

  // What one unit of text does: end the token before it, add to it, or stand alone.
  datatype Role = Ends | Adds(part: bytes) | Alone(word: bytes)

  // The block of CJK symbols and punctuation.
  predicate IsCjkPunctuation(unit: bytes) { |unit| >= 2 && unit[0] == 0xE3 && unit[1] == 0x80 }

  function RoleOf(unit: bytes): Role
    requires unit != []
  {
    var b := unit[0];
    if b < 0x80 then
      if IsSpace(b) then Ends
      else if IsAlnum(b) || b == APOSTROPHE then Adds([Lower(b)])
      else Adds([])
    else if 0xE3 <= b <= 0xE9 then
      if IsCjkPunctuation(unit) then Ends else Alone(unit)
    else if b == 0xEF then Ends
    else Adds(unit)
  }

  // ---- Tokens --------------------------------------------------------------

  function Flushed(current: bytes, end: nat): seq<Token> { if current == [] then [] else [Token(current, end)] }

  // The tokens still to come at i, with `current` begun.
  function TokensFrom(text: bytes, i: nat, current: bytes): seq<Token>
    requires i <= |text|
    decreases |text| - i
  {
    if i == |text| then Flushed(current, i)
    else
      var end := i + FirstUnit(text[i..]);
      match RoleOf(text[i..end])
      case Adds(part) => TokensFrom(text, end, current + part)
      case Ends => Flushed(current, i) + TokensFrom(text, end, [])
      case Alone(word) => Flushed(current, i) + ([Token(word, end)] + TokensFrom(text, end, []))
  }

  function Tokenize(text: bytes): seq<Token> { TokensFrom(text, 0, []) }

  // The same without places.
  function WordsFrom(text: bytes, current: bytes): seq<bytes>
    decreases |text|
  {
    if text == [] then Begun(current)
    else
      var n := FirstUnit(text);
      match RoleOf(text[..n])
      case Adds(part) => WordsFrom(text[n..], current + part)
      case Ends => Begun(current) + WordsFrom(text[n..], [])
      case Alone(word) => Begun(current) + ([word] + WordsFrom(text[n..], []))
  }

  function Begun(current: bytes): seq<bytes> { if current == [] then [] else [current] }

  function Words(tokens: seq<Token>): seq<bytes> {
    seq(|tokens|, i requires 0 <= i < |tokens| => tokens[i].normalized)
  }

  lemma WordsAppend(a: seq<Token>, b: seq<Token>)
    ensures Words(a + b) == Words(a) + Words(b)
  {
  }

  // What one unit, from i to end, emits, and what it leaves begun.
  function Emitted(role: Role, current: bytes, i: nat, end: nat): seq<Token> {
    match role
    case Adds(_) => []
    case Ends => Flushed(current, i)
    case Alone(word) => Flushed(current, i) + [Token(word, end)]
  }

  function EmittedWords(role: Role, current: bytes): seq<bytes> {
    match role
    case Adds(_) => []
    case Ends => Begun(current)
    case Alone(word) => Begun(current) + [word]
  }

  function Carried(role: Role, current: bytes): bytes { if role.Adds? then current + role.part else [] }

  lemma EmittedMeans(role: Role, current: bytes, i: nat, end: nat)
    ensures Words(Emitted(role, current, i, end)) == EmittedWords(role, current)
  {
    assert Words(Flushed(current, i)) == Begun(current);
    if role.Alone? {
      WordsAppend(Flushed(current, i), [Token(role.word, end)]);
    }
  }

  lemma TokensByUnit(text: bytes, i: nat, current: bytes)
    requires i < |text|
    ensures var end := i + FirstUnit(text[i..]); var role := RoleOf(text[i..end]);
            TokensFrom(text, i, current) ==
            Emitted(role, current, i, end) + TokensFrom(text, end, Carried(role, current))
  {
    var end := i + FirstUnit(text[i..]);
    var role := RoleOf(text[i..end]);
    if role.Alone? {
      Chain(Flushed(current, i), [Token(role.word, end)], TokensFrom(text, end, []));
    } else if role.Adds? {
      assert [] + TokensFrom(text, end, current + role.part) == TokensFrom(text, end, current + role.part);
    }
  }

  lemma WordsByUnit(text: bytes, current: bytes)
    requires text != []
    ensures var n := FirstUnit(text); var role := RoleOf(text[..n]);
            WordsFrom(text, current) == EmittedWords(role, current) + WordsFrom(text[n..], Carried(role, current))
  {
    var n := FirstUnit(text);
    var role := RoleOf(text[..n]);
    if role.Alone? {
      assert Begun(current) + ([role.word] + WordsFrom(text[n..], [])) ==
             (Begun(current) + [role.word]) + WordsFrom(text[n..], []);
    } else if role.Adds? {
      assert [] + WordsFrom(text[n..], current + role.part) == WordsFrom(text[n..], current + role.part);
    }
  }

  lemma {:induction false} TokensAreWords(text: bytes, i: nat, current: bytes)
    requires i <= |text|
    ensures Words(TokensFrom(text, i, current)) == WordsFrom(text[i..], current)
    decreases |text| - i
  {
    if i < |text| {
      var rest := text[i..];
      var end := i + FirstUnit(rest);
      assert rest[..end - i] == text[i..end] && rest[end - i..] == text[end..];
      var role := RoleOf(text[i..end]);
      TokensByUnit(text, i, current);
      WordsByUnit(rest, current);
      TokensAreWords(text, end, Carried(role, current));
      EmittedMeans(role, current, i, end);
      WordsAppend(Emitted(role, current, i, end), TokensFrom(text, end, Carried(role, current)));
    }
  }

  lemma Chain(a: seq<Token>, b: seq<Token>, c: seq<Token>)
    ensures (a + b) + c == a + (b + c)
  {
  }

  // ---- Places --------------------------------------------------------------

  predicate Increasing(tokens: seq<Token>, above: int, upTo: nat) {
    && (forall k | 0 <= k < |tokens| :: above < tokens[k].rawEnd <= upTo && tokens[k].normalized != [])
    && (forall j, k | 0 <= j < k < |tokens| :: tokens[j].rawEnd < tokens[k].rawEnd)
  }

  lemma IncreasingAppend(a: seq<Token>, b: seq<Token>, above: int, mid: nat, upTo: nat)
    requires Increasing(a, above, mid) && Increasing(b, mid, upTo) && above <= mid <= upTo
    ensures Increasing(a + b, above, upTo)
  {
  }

  // No token is empty, and each ends strictly after the one before.
  lemma {:induction false} PlacesIncrease(text: bytes, i: nat, current: bytes)
    requires i <= |text|
    ensures Increasing(TokensFrom(text, i, current), if current == [] then i else i - 1, |text|)
    decreases |text| - i
  {
    if i < |text| {
      var end := i + FirstUnit(text[i..]);
      match RoleOf(text[i..end])
      case Adds(part) => PlacesIncrease(text, end, current + part);
      case Ends =>
        PlacesIncrease(text, end, []);
        IncreasingAppend(Flushed(current, i), TokensFrom(text, end, []),
                         if current == [] then i else i - 1, i, |text|);
      case Alone(word) =>
        PlacesIncrease(text, end, []);
        IncreasingAppend([Token(word, end)], TokensFrom(text, end, []), i, end, |text|);
        IncreasingAppend(Flushed(current, i), [Token(word, end)] + TokensFrom(text, end, []),
                         if current == [] then i else i - 1, i, |text|);
    }
  }

  lemma UnitOfPrefix(text: bytes, i: nat, e: nat)
    requires i < |text| && i + FirstUnit(text[i..]) <= e <= |text|
    ensures FirstUnit(text[..e][i..]) == FirstUnit(text[i..])
    ensures text[..e][i..i + FirstUnit(text[i..])] == text[i..i + FirstUnit(text[i..])]
  {
  }

  // The text up to the end of its c-th token has exactly the first c tokens.
  lemma {:induction false} PrefixTokens(text: bytes, i: nat, current: bytes, c: nat)
    requires i <= |text| && 0 < c <= |TokensFrom(text, i, current)|
    ensures var tokens := TokensFrom(text, i, current); var e := tokens[c - 1].rawEnd;
            i <= e <= |text| && TokensFrom(text[..e], i, current) == tokens[..c]
    decreases |text| - i
  {
    if i == |text| {
      assert text[..i] == text;
    } else {
      var end := i + FirstUnit(text[i..]);
      var role := RoleOf(text[i..end]);
      var emitted, carried := Emitted(role, current, i, end), Carried(role, current);
      TokensByUnit(text, i, current);
      if c <= |emitted| {
        PrefixWithinUnit(text, i, current, c);
      } else {
        var rest := TokensFrom(text, end, carried);
        PrefixTokens(text, end, carried, c - |emitted|);
        PrefixBeyondUnit(text, i, current, rest[c - |emitted| - 1].rawEnd);
        assert (emitted + rest)[..c] == emitted + rest[..c - |emitted|];
      }
    }
  }

  lemma PrefixBeyondUnit(text: bytes, i: nat, current: bytes, e: nat)
    requires i < |text| && i + FirstUnit(text[i..]) <= e <= |text|
    ensures var end := i + FirstUnit(text[i..]); var role := RoleOf(text[i..end]);
            TokensFrom(text[..e], i, current) ==
            Emitted(role, current, i, end) + TokensFrom(text[..e], end, Carried(role, current))
  {
    var prefix, end := text[..e], i + FirstUnit(text[i..]);
    UnitOfPrefix(text, i, e);
    assert i + FirstUnit(prefix[i..]) == end && prefix[i..end] == text[i..end];
    TokensByUnit(prefix, i, current);
  }

  lemma PrefixWithinUnit(text: bytes, i: nat, current: bytes, c: nat)
    requires i < |text|
    requires var end := i + FirstUnit(text[i..]);
             0 < c <= |Emitted(RoleOf(text[i..end]), current, i, end)|
    ensures var end := i + FirstUnit(text[i..]); var emitted := Emitted(RoleOf(text[i..end]), current, i, end);
            var e := emitted[c - 1].rawEnd;
            i <= e <= |text| && TokensFrom(text[..e], i, current) == emitted[..c]
  {
    var end := i + FirstUnit(text[i..]);
    var emitted := Emitted(RoleOf(text[i..end]), current, i, end);
    if emitted[c - 1].rawEnd == i {
      assert |text[..i]| == i;
    } else {
      PrefixBeyondUnit(text, i, current, end);
      assert emitted + TokensFrom(text[..end], end, []) == emitted;
    }
  }

  // ---- What tokens ignore --------------------------------------------------

  // Texts that differ, unit by unit, in the case of ASCII letters only.
  predicate CaseVariant(a: bytes, b: bytes)
    decreases |a|
  {
    if a == [] || b == [] then a == b
    else
      var n := FirstUnit(a);
      && n == FirstUnit(b)
      && (if a[0] < 0x80 then b[0] < 0x80 && Lower(a[0]) == Lower(b[0]) else a[..n] == b[..n])
      && CaseVariant(a[n..], b[n..])
  }

  lemma CaseKeepsRole(a: bytes, b: bytes)
    requires |a| == |b| == 1 && a[0] < 0x80 && b[0] < 0x80 && Lower(a[0]) == Lower(b[0])
    ensures RoleOf(a) == RoleOf(b)
  {
  }

  lemma CaseKeepsUnit(a: bytes, b: bytes, i: nat)
    requires i < |a| == |b| && CaseVariant(a[i..], b[i..])
    ensures var n := FirstUnit(a[i..]);
            && FirstUnit(b[i..]) == n && RoleOf(a[i..i + n]) == RoleOf(b[i..i + n])
            && CaseVariant(a[i + n..], b[i + n..])
  {
    var n := FirstUnit(a[i..]);
    assert a[i..i + n] == a[i..][..n] && b[i..i + n] == b[i..][..n];
    assert a[i + n..] == a[i..][n..] && b[i + n..] == b[i..][n..];
    if a[i] < 0x80 {
      CaseKeepsRole(a[i..i + n], b[i..i + n]);
    }
  }

  // Case changes nothing: not the words, not the places.
  lemma {:induction false} CaseIsIgnored(a: bytes, b: bytes, i: nat, current: bytes)
    requires i <= |a| == |b| && CaseVariant(a[i..], b[i..])
    ensures TokensFrom(a, i, current) == TokensFrom(b, i, current)
    decreases |a| - i
  {
    if i < |a| {
      var end := i + FirstUnit(a[i..]);
      var role := RoleOf(a[i..end]);
      CaseKeepsUnit(a, b, i);
      TokensByUnit(a, i, current);
      TokensByUnit(b, i, current);
      CaseIsIgnored(a, b, end, Carried(role, current));
    }
  }

  // A text of whole units.
  predicate Complete(text: bytes)
    decreases |text|
  {
    text == [] || (UnitLength(text[0]) <= |text| && Complete(text[UnitLength(text[0])..]))
  }

  predicate IsPunctuation(b: byte) { b < 0x80 && !IsSpace(b) && !IsAlnum(b) && b != APOSTROPHE }

  // Punctuation put in at a unit boundary changes no word.
  lemma {:induction false} PunctuationIsIgnored(front: bytes, mark: byte, rest: bytes, current: bytes)
    requires Complete(front) && IsPunctuation(mark)
    ensures WordsFrom(front + ([mark] + rest), current) == WordsFrom(front + rest, current)
    decreases |front|
  {
    if front == [] {
      var text := [mark] + rest;
      assert front + text == text && front + rest == rest;
      assert text[..1] == [mark] && text[1..] == rest;
      assert current + [] == current;
    } else {
      var n := UnitLength(front[0]);
      UnitOfFront(front, [mark] + rest);
      UnitOfFront(front, rest);
      var role := RoleOf(front[..n]);
      PunctuationIsIgnored(front[n..], mark, rest, if role.Adds? then current + role.part else []);
    }
  }

  lemma UnitOfFront(front: bytes, more: bytes)
    requires front != [] && UnitLength(front[0]) <= |front|
    ensures var n := UnitLength(front[0]); var text := front + more;
            FirstUnit(text) == n && text[..n] == front[..n] && text[n..] == front[n..] + more
  {
  }

  lemma PunctuationKeepsWords(front: bytes, mark: byte, rest: bytes)
    requires Complete(front) && IsPunctuation(mark)
    ensures Words(Tokenize(front + ([mark] + rest))) == Words(Tokenize(front + rest))
  {
    var a, b := front + ([mark] + rest), front + rest;
    TokensAreWords(a, 0, []);
    TokensAreWords(b, 0, []);
    assert a[0..] == a && b[0..] == b;
    PunctuationIsIgnored(front, mark, rest, []);
  }

  // ---- The loop ------------------------------------------------------------

  method Flush(tokens: seq<Token>, current: bytes, end: nat) returns (after: seq<Token>)
    ensures after == tokens + Flushed(current, end)
  {
    after := tokens;
    if current != [] {
      after := after + [Token(current, end)];
    }
  }

  // Seeing a space or the end coming, the loop ends the token where the next round
  // would have ended it.
  lemma FlushingEarly(text: bytes, i: nat, current: bytes)
    requires i <= |text| && (i == |text| || IsSpace(text[i]))
    ensures TokensFrom(text, i, current) == Flushed(current, i) + TokensFrom(text, i, [])
  {
    if i < |text| {
      assert text[i..i + FirstUnit(text[i..])] == [text[i]];
      assert Flushed([], i) + TokensFrom(text, i + 1, []) == TokensFrom(text, i + 1, []);
    }
  }

  // The round for an ASCII byte.
  method TakeAscii(text: bytes, i: nat, tokens: seq<Token>, current: bytes)
    returns (tokens': seq<Token>, current': bytes, next: nat)
    requires i < |text| && text[i] < 0x80
    ensures i < next <= |text|
    ensures tokens' + TokensFrom(text, next, current') == tokens + TokensFrom(text, i, current)
  {
    var b := text[i];
    tokens', current', next := tokens, current, i + 1;
    assert text[i..i + FirstUnit(text[i..])] == [b];
    if IsSpace(b) {
      Chain(tokens, Flushed(current, i), TokensFrom(text, next, []));
      tokens' := Flush(tokens, current, i);
      current' := [];
      return;
    }
    if IsAlnum(b) || b == APOSTROPHE {
      current' := current + [Lower(b)];
    } else {
      assert current + [] == current;
    }
    if next == |text| || IsSpace(text[next]) {
      FlushingEarly(text, next, current');
      Chain(tokens, Flushed(current', next), TokensFrom(text, next, []));
      tokens' := Flush(tokens, current', next);
      current' := [];
    }
  }

  // The round for a longer unit.
  method TakeMultibyte(text: bytes, i: nat, tokens: seq<Token>, current: bytes)
    returns (tokens': seq<Token>, current': bytes, next: nat)
    requires i < |text| && text[i] >= 0x80
    ensures i < next <= |text|
    ensures tokens' + TokensFrom(text, next, current') == tokens + TokensFrom(text, i, current)
  {
    var b := text[i];
    var length := if 0xF0 <= b < 0xF8 then 4 else if 0xE0 <= b < 0xF0 then 3 else if 0xC0 <= b < 0xE0 then 2 else 1;
    var end := if i + length <= |text| then i + length else |text|;
    assert end == i + FirstUnit(text[i..]);
    tokens', current', next := tokens, current, end;
    if length == 3 && 0xE3 <= b <= 0xE9 {
      tokens' := Flush(tokens, current, i);
      current' := [];
      var ch := text[i..end];
      ghost var rest := TokensFrom(text, end, []);
      if IsCjkPunctuation(ch) {
        Chain(tokens, Flushed(current, i), rest);
        return;
      }
      Chain(tokens, Flushed(current, i), [Token(ch, end)] + rest);
      Chain(tokens', [Token(ch, end)], rest);
      tokens' := tokens' + [Token(ch, end)];
      return;
    }
    if length == 3 && b == 0xEF {
      Chain(tokens, Flushed(current, i), TokensFrom(text, end, []));
      tokens' := Flush(tokens, current, i);
      current' := [];
      return;
    }
    current' := current + text[i..end];
    if end == |text| {
      FlushingEarly(text, end, current');
      Chain(tokens, Flushed(current', end), TokensFrom(text, end, []));
      tokens' := Flush(tokens, current', end);
      current' := [];
    }
  }

  method TokenizeText(text: bytes) returns (tokens: seq<Token>)
    ensures tokens == Tokenize(text)
  {
    tokens := [];
    var current: bytes, i: nat := [], 0;
    while i < |text|
      invariant i <= |text|
      invariant tokens + TokensFrom(text, i, current) == Tokenize(text)
    {
      if text[i] < 0x80 {
        tokens, current, i := TakeAscii(text, i, tokens, current);
      } else {
        tokens, current, i := TakeMultibyte(text, i, tokens, current);
      }
    }
    tokens := Flush(tokens, current, |text|);
  }
}
