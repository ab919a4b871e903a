/** The tokens of a transcript (app/server/voice_stability.cpp), character by character,
    with the places they end in, and the texts the tracker makes of them. */
module HypothesisCharacters {
  import opened Bytes
  import opened HypothesisTokens
  import opened StableTracker

  // The characters of a transcript by what they do: a small letter, digit or apostrophe, a
  // capital, other ASCII punctuation or a control character, white space, a letter of two
  // to four bytes, an ideograph or kana, and CJK or full-width punctuation.
  datatype Character =
    | Letter(b: byte)
    | Capital(b: byte)
    | Mark(b: byte)
    | Blank(b: byte)
    | Accented(bytes: bytes)
    | Ideograph(x: byte, y: byte, z: byte)
    | Symbol(x: byte, y: byte, z: byte)

  predicate IsOne(c: Character) {
    match c
    case Letter(b) => 97 <= b <= 122 || 48 <= b <= 57 || b == 39
    case Capital(b) => 65 <= b <= 90
    case Mark(b) =>
      b < 9 || 14 <= b < 32 || 33 <= b < 39 || 40 <= b < 48 || 58 <= b < 65 || 91 <= b < 97 || 123 <= b < 128
    case Blank(b) => b == 32 || 9 <= b <= 13
    case Accented(s) =>
      || (|s| == 2 && 0xC0 <= s[0] <= 0xDF)
      || (|s| == 3 && (0xE0 <= s[0] <= 0xE2 || 0xEA <= s[0] <= 0xEE))
      || (|s| == 4 && 0xF0 <= s[0] <= 0xF7)
    case Ideograph(x, y, _) => 0xE3 <= x <= 0xE9 && (x == 0xE3 ==> y != 0x80)
    case Symbol(x, y, _) => (x == 0xE3 && y == 0x80) || x == 0xEF
  }

  function BytesOf(c: Character): bytes {
    match c
    case Letter(b) => [b]
    case Capital(b) => [b]
    case Mark(b) => [b]
    case Blank(b) => [b]
    case Accented(s) => s
    case Ideograph(x, y, z) => [x, y, z]
    case Symbol(x, y, z) => [x, y, z]
  }

  function TextOf(cs: seq<Character>): bytes {
    if cs == [] then [] else BytesOf(cs[0]) + TextOf(cs[1..])
  }

  function Closed(word: bytes, end: nat): seq<Token> { if word == [] then [] else [Token(word, end)] }

  // The tokens from position `at` on, with `word` begun: letters in lower case make words,
  // which white space, symbols, ideographs and the end of the text end, and each ideograph
  // is a word of its own. Marks are left out, but stand within the place of their word.
  function TokensOf(cs: seq<Character>, at: nat, word: bytes): seq<Token>
    decreases |cs|
  {
    if cs == [] then Closed(word, at)
    else
      var end := at + |BytesOf(cs[0])|;
      match cs[0]
      case Letter(b) => TokensOf(cs[1..], end, word + [b])
      case Capital(b) => TokensOf(cs[1..], end, word + [b + (if b < 0x80 then 32 else 0)])
      case Mark(_) => TokensOf(cs[1..], end, word)
      case Accented(s) => TokensOf(cs[1..], end, word + s)
      case Blank(_) => Closed(word, at) + TokensOf(cs[1..], end, [])
      case Symbol(_, _, _) => Closed(word, at) + TokensOf(cs[1..], end, [])
      case Ideograph(x, y, z) => Closed(word, at) + ([Token([x, y, z], end)] + TokensOf(cs[1..], end, []))
  }

  lemma RoleIs(c: Character)
    requires IsOne(c)
    ensures var s := BytesOf(c);
            && s != [] && UnitLength(s[0]) == |s|
            && RoleOf(s) == match c
                            case Letter(b) => Adds([b])
                            case Capital(b) => Adds([b + 32])
                            case Mark(_) => Adds([])
                            case Accented(t) => Adds(t)
                            case Blank(_) => Ends
                            case Symbol(_, _, _) => Ends
                            case Ideograph(x, y, z) => Alone([x, y, z])
  {
  }

  lemma UnitIs(before: bytes, c: Character, rest: bytes, text: bytes)
    requires IsOne(c) && text == before + BytesOf(c) + rest
    ensures var i, s := |before|, BytesOf(c);
            i < |text| && i + FirstUnit(text[i..]) == i + |s| && text[i..i + |s|] == s
  {
    RoleIs(c);
    assert text[|before|..] == BytesOf(c) + rest;
    assert text[|before|..][0] == BytesOf(c)[0];
  }

  lemma OneCharacter(cs: seq<Character>, at: nat, word: bytes)
    requires cs != [] && IsOne(cs[0])
    ensures var s := BytesOf(cs[0]);
            var end := at + |s|;
            TokensOf(cs, at, word) == Emitted(RoleOf(s), word, at, end) + TokensOf(cs[1..], end, Carried(RoleOf(s), word))
  {
    RoleIs(cs[0]);
    var s := BytesOf(cs[0]);
    var end := at + |s|;
    if cs[0].Ideograph? {
      Chain(Closed(word, at), [Token(s, end)], TokensOf(cs[1..], end, []));
    } else if !cs[0].Blank? && !cs[0].Symbol? {
      var more := TokensOf(cs[1..], end, Carried(RoleOf(s), word));
      assert [] + more == more && word + [] == word;
    }
  }

  lemma FirstCharacter(before: bytes, c: Character, rest: bytes, text: bytes, word: bytes)
    requires IsOne(c) && text == before + BytesOf(c) + rest
    ensures var i, s := |before|, BytesOf(c);
            && s != [] && i + |s| <= |text|
            && TokensFrom(text, i, word)
               == Emitted(RoleOf(s), word, i, i + |s|) + TokensFrom(text, i + |s|, Carried(RoleOf(s), word))
  {
    RoleIs(c);
    UnitIs(before, c, rest, text);
    TokensByUnit(text, |before|, word);
  }

  // The text of the characters stands in `text` from `at` to its end.
  predicate Stands(text: bytes, at: nat, cs: seq<Character>) { at <= |text| && text[at..] == TextOf(cs) }

  lemma StandsOn(text: bytes, at: nat, cs: seq<Character>)
    requires cs != [] && IsOne(cs[0]) && Stands(text, at, cs)
    ensures var s := BytesOf(cs[0]);
            s != [] && Stands(text, at + |s|, cs[1..]) && text == text[..at] + s + TextOf(cs[1..])
  {
    RoleIs(cs[0]);
    var s := BytesOf(cs[0]);
    assert text[at..] == s + TextOf(cs[1..]);
    assert text[at + |s|..] == text[at..][|s|..];
    assert text == text[..at] + text[at..];
  }

  lemma {:induction false} TokensAreOf(text: bytes, at: nat, cs: seq<Character>, word: bytes)
    requires Stands(text, at, cs) && forall i | 0 <= i < |cs| :: IsOne(cs[i])
    ensures TokensFrom(text, at, word) == TokensOf(cs, at, word)
    decreases |cs|
  {
    if cs != [] {
      var s := BytesOf(cs[0]);
      StandsOn(text, at, cs);
      FirstCharacter(text[..at], cs[0], TextOf(cs[1..]), text, word);
      OneCharacter(cs, at, word);
      TokensAreOf(text, at + |s|, cs[1..], Carried(RoleOf(s), word));
    }
  }

  // The tokens of any text made of such characters.
  lemma TokensByCharacter(cs: seq<Character>)
    requires forall i | 0 <= i < |cs| :: IsOne(cs[i])
    ensures Tokenize(TextOf(cs)) == TokensOf(cs, 0, [])
  {
    assert TextOf(cs)[0..] == TextOf(cs);
    TokensAreOf(TextOf(cs), 0, cs, []);
  }

  // ---- The texts -----------------------------------------------------------

  lemma {:induction false} SpacesAreTrimmed(s: bytes) returns (spaces: bytes)
    ensures s == spaces + TrimSpaces(s) && (forall i | 0 <= i < |spaces| :: spaces[i] == 32)
    ensures TrimSpaces(s) != [] ==> TrimSpaces(s)[0] != 32
  {
    if s != [] && s[0] == 32 {
      var more := SpacesAreTrimmed(s[1..]);
      spaces := [32] + more;
      assert s == [32] + (more + TrimSpaces(s));
    } else {
      spaces := [];
      assert [] + s == s;
    }
  }

  // What becomes of the texts: `spaces` stands between stable and tentative text.
  predicate Expresses(before: Texts, after: Texts, committed: nat, minChars: nat, newest: bytes, spaces: bytes) {
    var tokens := Tokenize(newest);
    if 0 < committed <= |tokens| && tokens[committed - 1].rawEnd >= minChars then
      && |after.stable| == tokens[committed - 1].rawEnd && newest == after.stable + spaces + after.tentative
      && (forall i | 0 <= i < |spaces| :: spaces[i] == 32) && (after.tentative != [] ==> after.tentative[0] != 32)
    else if before.stable == [] then after.stable == [] && after.tentative == newest
    else after == before
  }

  lemma SpeakExpresses(before: Texts, committed: nat, minChars: nat, newest: bytes) returns (spaces: bytes)
    ensures Expresses(before, Speak(committed, minChars, newest, before), committed, minChars, newest, spaces)
  {
    var tokens := Tokenize(newest);
    spaces := [];
    if 0 < committed <= |tokens| && tokens[committed - 1].rawEnd >= minChars {
      PrefixTokens(newest, 0, [], committed);
      var e := tokens[committed - 1].rawEnd;
      spaces := SpacesAreTrimmed(newest[e..]);
      assert newest == newest[..e] + spaces + TrimSpaces(newest[e..]);
    }
  }

  // One more text is spoken as stable up to the end of its last committed token, the rest
  // but for the spaces between as tentative, if it has that many tokens and they take
  // min_stable_chars bytes or more. Otherwise the texts stay, or it is tentative as a whole
  // if nothing is stable yet.
  lemma TextsAreExpressed(heard: seq<bytes>, newest: bytes, k: nat, minChars: nat) returns (spaces: bytes)
    requires k > 0
    ensures Expresses(Spoken(heard, k, minChars), Spoken(heard + [newest], k, minChars),
                      CommittedBy(heard + [newest], k), minChars, newest, spaces)
  {
    SpokenGrows(heard, newest, k, minChars);
    spaces := SpeakExpresses(Spoken(heard, k, minChars), CommittedBy(heard + [newest], k), minChars, newest);
  }
}
