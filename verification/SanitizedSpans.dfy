/** What the passes of the sanitizer (app/server/chat_hygiene.cpp) take out of a finished
    reply, and that they take out nothing else. */
module SanitizedSpans {
  import opened Bytes
  import opened Wrappers
  import opened Sanitizer

  // `pat` begins nowhere in s[from..upto].
  predicate Absent(s: bytes, pat: bytes, from: nat, upto: nat) { forall i | from <= i < upto :: !At(s, pat, i) }

  lemma {:induction false} FoundThere(s: bytes, pat: bytes, from: nat, at: nat)
    requires from <= at && Absent(s, pat, from, at) && At(s, pat, at)
    ensures Find(s, pat, from) == Some(at)
    decreases at - from
  {
    if from < at { FoundThere(s, pat, from + 1, at); }
  }

  lemma {:induction false} FoundNowhere(s: bytes, pat: bytes, from: nat)
    requires Absent(s, pat, from, |s|) && pat != []
    ensures Find(s, pat, from) == None
    decreases |s| - from
  {
    if from + |pat| <= |s| { FoundNowhere(s, pat, from + 1); }
  }

  // ---- Spans ---------------------------------------------------------------

  // From p on, the first opening mark stands at `begin` and the first closing one after
  // it at `end`.
  predicate SpanAt(text: bytes, open: bytes, close: bytes, p: nat, begin: nat, end: nat) {
    && open != [] && close != [] && p <= begin && begin + |open| <= end
    && At(text, open, begin) && Absent(text, open, p, begin)
    && At(text, close, end) && Absent(text, close, begin + |open|, end)
  }

  lemma SpanIs(text: bytes, open: bytes, close: bytes, p: nat, begin: nat, end: nat)
    requires SpanAt(text, open, close, p, begin, end)
    ensures NextSpan(text, open, close, p) == Closed(begin, begin + |open|, end, end + |close|)
  {
    FoundThere(text, open, p, begin);
    FoundThere(text, close, begin + |open|, end);
  }

  // A closed span that is short enough leaves a space where it stood, and a longer one
  // stays with its marks; the text before it is kept and the text behind it stripped on.
  lemma ClosedSpanIsTaken(text: bytes, open: bytes, close: bytes, maxSpan: nat, p: nat, begin: nat, body: nat, end: nat, next: nat)
    requires p <= |text| && open != [] && close != [] && NextSpan(text, open, close, p) == Closed(begin, body, end, next)
    ensures p <= begin <= body <= end <= next <= |text|
    ensures StripSpans(text, open, close, maxSpan, p)
         == text[p..begin] + (if end - body <= maxSpan then [32] else text[begin..next])
            + StripSpans(text, open, close, maxSpan, next)
  {
    assert text[p..next] == text[p..begin] + text[begin..next];
  }

  // One that is not closed goes with all that follows if that is short enough.
  lemma OpenSpanIsTaken(text: bytes, open: bytes, close: bytes, maxSpan: nat, p: nat, begin: nat)
    requires open != [] && close != [] && p <= begin && At(text, open, begin) && Absent(text, open, p, begin)
    requires Absent(text, close, begin + |open|, |text|)
    ensures StripSpans(text, open, close, maxSpan, p)
         == if |text| - (begin + |open|) <= maxSpan then text[p..begin] else text[p..]
  {
    FoundThere(text, open, p, begin);
    FoundNowhere(text, close, begin + |open|);
    assert text[p..] == text[p..begin] + text[begin..] && text[p..begin] + [] == text[p..begin];
  }

  lemma NoSpanIsTaken(text: bytes, open: bytes, close: bytes, maxSpan: nat, p: nat)
    requires p <= |text| && open != [] && close != [] && Absent(text, open, p, |text|)
    ensures StripSpans(text, open, close, maxSpan, p) == text[p..]
  {
    FoundNowhere(text, open, p);
  }

  // ---- The cuts ------------------------------------------------------------

  lemma CutKeepsTheFront(a: bytes, pat: bytes, rest: bytes, text: bytes)
    requires text == a + pat + rest && Absent(text, pat, 0, |a|)
    ensures CutAt(text, pat) == a
  {
    assert text[|a|..|a| + |pat|] == pat && text[..|a|] == a;
    FoundThere(text, pat, 0, |a|);
  }

  lemma {:induction false} LastIs(a: bytes, b: byte, rest: bytes)
    requires b !in rest
    ensures LastOf(a + [b] + rest, b) == Some(|a|)
    decreases |rest|
  {
    var s := a + [b] + rest;
    if rest != [] {
      assert s[..|s| - 1] == a + [b] + rest[..|rest| - 1] && s[|s| - 1] == rest[|rest| - 1];
      LastIs(a, b, rest[..|rest| - 1]);
    }
  }

  // The last star goes, with what follows it, if that is less than 120 bytes.
  lemma StrayIsCut(a: bytes, rest: bytes)
    requires 42 !in rest
    ensures CutStray(a + [42] + rest) == if |rest| < 120 then a else a + [42] + rest
  {
    LastIs(a, 42, rest);
    assert (a + [42] + rest)[..|a|] == a;
  }

  // ---- Actions in a reply --------------------------------------------------

  lemma StarAt(s: bytes, i: nat)
    ensures At(s, STAR, i) <==> i < |s| && s[i] == 42
  {
    if i < |s| { assert s[i..i + 1] == [s[i]]; }
  }

  lemma StarsAre(text: bytes, begin: nat, end: nat)
    requires begin < end < |text| && forall i | 0 <= i < |text| :: text[i] == 42 <==> i == begin || i == end
    ensures SpanAt(text, STAR, STAR, 0, begin, end) && Absent(text, STAR, end + 1, |text|)
  {
    forall i | 0 <= i < |text| ensures At(text, STAR, i) <==> i == begin || i == end { StarAt(text, i); }
  }

  lemma OneAction(text: bytes, a: bytes, act: bytes, b: bytes)
    requires text == a + [42] + act + [42] + b && 42 !in a && 42 !in act && 42 !in b
    ensures StripSpans(text, STAR, STAR, 120) == if |act| <= 120 then a + [32] + b else text
  {
    var begin, end := |a|, |a| + 1 + |act|;
    forall i | 0 <= i < |text| ensures text[i] == 42 <==> i == begin || i == end {
      assert i < begin ==> text[i] == a[i];
      assert begin < i < end ==> text[i] == act[i - begin - 1];
      assert end < i ==> text[i] == b[i - end - 1];
    }
    StarsAre(text, begin, end);
    SpanIs(text, STAR, STAR, 0, begin, end);
    ClosedSpanIsTaken(text, STAR, STAR, 120, 0, begin, begin + 1, end, end + 1);
    NoSpanIsTaken(text, STAR, STAR, 120, end + 1);
    PartsOf(text, a, act, b);
  }

  lemma PartsOf(text: bytes, a: bytes, act: bytes, b: bytes)
    requires text == a + [42] + act + [42] + b
    ensures var begin, end := |a|, |a| + 1 + |act|;
            && text[0..begin] == a && text[end + 1..] == b
            && text[0..begin] + text[begin..end + 1] + text[end + 1..] == text
  {
  }

  lemma NoStar(s: bytes)
    requires 42 !in s
    ensures CutStray(s) == s
  {
    NoStray(s);
  }

  // The reply holds neither a marker nor a second paragraph, no parenthesis and no quotes.
  predicate Plain(text: bytes) {
    Apart(text, 60, 124) && Apart(text, 10, 10) && OPEN[0] !in text && Unquoted(text, MARKS)
  }

  lemma KeptIsPlain(text: bytes, kept: bytes)
    requires Plain(text) && forall x | x in kept :: x == 32 || x in text
    ensures OPEN[0] !in kept && Unquoted(kept, MARKS)
  {
    assert MARKS[0].open[0] == 34 && MARKS[1].open[0] == 0xE2 && MARKS[2].open[0] == 0xE3;
  }

  lemma PlainSanitized(text: bytes, kept: bytes)
    requires Plain(text) && CutStray(StripSpans(text, STAR, STAR, 120)) == kept
    requires OPEN[0] !in kept && Unquoted(kept, MARKS)
    ensures Sanitize(text, MARKS) == CollapseSpaces(Unwrap(CollapseSpaces(kept), MARKS))
  {
    ApartNotCut(text, 60, 124);
    ApartNotCut(text, 10, 10);
    NotFound(kept, OPEN, 0);
    assert kept[0..] == kept;
    NoSpans(kept, MARKS);
  }

  // An action of at most 120 bytes in an otherwise plain reply goes, and nothing else
  // does; the space it leaves is collapsed with those around it.
  lemma ActionIsTakenOut(text: bytes, a: bytes, act: bytes, b: bytes)
    requires text == a + [42] + act + [42] + b && 42 !in a && 42 !in act && 42 !in b && Plain(text) && |act| <= 120
    ensures Sanitize(text, MARKS) == CollapseSpaces(Unwrap(CollapseSpaces(a + [32] + b), MARKS))
  {
    OneAction(text, a, act, b);
    var kept := a + [32] + b;
    NoStar(kept);
    KeptIsPlain(text, kept);
    PlainSanitized(text, kept);
  }

  // A longer one stays, but what follows it does not: its closing star is taken for a
  // stray one, and cut off with everything behind it if that is less than 120 bytes.
  lemma LongActionLosesTheRest(text: bytes, a: bytes, act: bytes, b: bytes)
    requires text == a + [42] + act + [42] + b && 42 !in a && 42 !in act && 42 !in b && Plain(text) && |act| > 120
    ensures var kept := if |b| < 120 then a + [42] + act else text;
            Sanitize(text, MARKS) == CollapseSpaces(Unwrap(CollapseSpaces(kept), MARKS))
  {
    OneAction(text, a, act, b);
    StrayIsCut(a + [42] + act, b);
    var kept := if |b| < 120 then a + [42] + act else text;
    KeptIsPlain(text, kept);
    PlainSanitized(text, kept);
  }

  // ---- Asides in a reply ---------------------------------------------------

  // A full-width parenthesis stands at i, opening or closing.
  lemma ParenthesisAt(s: bytes, i: nat)
    ensures At(s, OPEN, i) <==> i + 3 <= |s| && s[i] == 0xEF && s[i + 1] == 0xBC && s[i + 2] == 0x88
    ensures At(s, CLOSE, i) <==> i + 3 <= |s| && s[i] == 0xEF && s[i + 1] == 0xBC && s[i + 2] == 0x89
  {
    if i + 3 <= |s| { assert s[i..i + 3] == [s[i], s[i + 1], s[i + 2]]; }
  }

  lemma ParenthesesAre(text: bytes, begin: nat, end: nat)
    requires begin + 3 <= end && end + 3 <= |text|
    requires forall i | 0 <= i < |text| :: text[i] == 0xEF <==> i == begin || i == end
    requires text[begin + 1] == text[end + 1] == 0xBC && text[begin + 2] == 0x88 && text[end + 2] == 0x89
    ensures SpanAt(text, OPEN, CLOSE, 0, begin, end) && Absent(text, OPEN, end + 3, |text|)
  {
    forall i | 0 <= i < |text|
      ensures (At(text, OPEN, i) <==> i == begin) && (At(text, CLOSE, i) <==> i == end)
    {
      ParenthesisAt(text, i);
    }
  }

  lemma AsideParts(text: bytes, a: bytes, aside: bytes, b: bytes)
    requires text == a + OPEN + aside + CLOSE + b && 0xEF !in a && 0xEF !in aside && 0xEF !in b
    ensures var begin, end := |a|, |a| + 3 + |aside|;
            && end + 3 <= |text| && (forall i | 0 <= i < |text| :: text[i] == 0xEF <==> i == begin || i == end)
            && text[begin + 1] == text[end + 1] == 0xBC && text[begin + 2] == 0x88 && text[end + 2] == 0x89
            && text[0..begin] == a && text[end + 3..] == b
            && text[0..begin] + text[begin..end + 3] + text[end + 3..] == text
  {
    var begin, end := |a|, |a| + 3 + |aside|;
    forall i | 0 <= i < |text| ensures text[i] == 0xEF <==> i == begin || i == end {
      assert i < begin ==> text[i] == a[i];
      assert begin <= i < begin + 3 ==> text[i] == OPEN[i - begin];
      assert begin + 3 <= i < end ==> text[i] == aside[i - begin - 3];
      assert end <= i < end + 3 ==> text[i] == CLOSE[i - end];
      assert end + 3 <= i ==> text[i] == b[i - end - 3];
    }
  }

  // An aside of at most 80 bytes leaves a space where it stood, and a longer one stays.
  lemma OneAside(text: bytes, a: bytes, aside: bytes, b: bytes)
    requires text == a + OPEN + aside + CLOSE + b && 0xEF !in a && 0xEF !in aside && 0xEF !in b
    ensures StripSpans(text, OPEN, CLOSE, 80) == if |aside| <= 80 then a + [32] + b else text
  {
    var begin, end := |a|, |a| + 3 + |aside|;
    AsideParts(text, a, aside, b);
    ParenthesesAre(text, begin, end);
    SpanIs(text, OPEN, CLOSE, 0, begin, end);
    ClosedSpanIsTaken(text, OPEN, CLOSE, 80, 0, begin, begin + 3, end, end + 3);
    NoSpanIsTaken(text, OPEN, CLOSE, 80, end + 3);
  }

  // In an otherwise plain reply the rest is kept as it is, but for the spaces.
  lemma AsideIsTakenOut(text: bytes, a: bytes, aside: bytes, b: bytes)
    requires text == a + OPEN + aside + CLOSE + b && 0xEF !in a && 0xEF !in aside && 0xEF !in b
    requires Apart(text, 60, 124) && Apart(text, 10, 10) && 42 !in text && Unquoted(text, MARKS)
    ensures var kept := if |aside| <= 80 then a + [32] + b else text;
            Sanitize(text, MARKS) == CollapseSpaces(Unwrap(CollapseSpaces(kept), MARKS))
  {
    ApartNotCut(text, 60, 124);
    ApartNotCut(text, 10, 10);
    NotFound(text, STAR, 0);
    assert text[0..] == text;
    NoStar(text);
    OneAside(text, a, aside, b);
    UnquotedAside(text, a, aside, b);
    NoSpans(if |aside| <= 80 then a + [32] + b else text, MARKS);
  }

  lemma UnquotedAside(text: bytes, a: bytes, aside: bytes, b: bytes)
    requires text == a + OPEN + aside + CLOSE + b && Unquoted(text, MARKS)
    ensures Unquoted(a + [32] + b, MARKS)
  {
    assert MARKS[0].open[0] == 34 && MARKS[1].open[0] == 0xE2 && MARKS[2].open[0] == 0xE3;
    assert forall x | x in a + [32] + b :: x == 32 || x in text;
  }

  // ---- Quotes --------------------------------------------------------------

  // The spans of a text are what stands between its quotes, if that is two bytes or more.
  lemma SpansAreQuoted(text: bytes, mark: QuoteMark, p: nat, begin: nat, body: nat, end: nat, next: nat)
    requires mark.open != [] && mark.close != [] && NextSpan(text, mark.open, mark.close, p) == Closed(begin, body, end, next)
    ensures body <= end <= |text|
    ensures SpansOf(text, mark, p)
         == if end - body >= 2 then [text[body..end]] + SpansOf(text, mark, next) else SpansOf(text, mark, next)
  {
  }

  // There are no others: a quote that is not closed begins none.
  lemma NoMoreQuoted(text: bytes, mark: QuoteMark, p: nat)
    requires p <= |text| && mark.open != [] && mark.close != []
    requires || Absent(text, mark.open, p, |text|)
             || exists begin | p <= begin < |text| :: At(text, mark.open, begin) && Absent(text, mark.open, p, begin)
                                                      && Absent(text, mark.close, begin + |mark.open|, |text|)
    ensures SpansOf(text, mark, p) == []
  {
    if Absent(text, mark.open, p, |text|) {
      FoundNowhere(text, mark.open, p);
    } else {
      var begin :| p <= begin < |text| && At(text, mark.open, begin) && Absent(text, mark.open, p, begin)
                   && Absent(text, mark.close, begin + |mark.open|, |text|);
      FoundThere(text, mark.open, p, begin);
      FoundNowhere(text, mark.close, begin + |mark.open|);
    }
  }

  // Spans in order with one space between any two.
  function Between(spans: seq<bytes>): bytes {
    if spans == [] then [] else if |spans| == 1 then spans[0] else spans[0] + [32] + Between(spans[1..])
  }

  lemma {:induction false} JoinedIsBetween(sofar: bytes, spans: seq<bytes>)
    requires sofar != [] || forall i | 0 <= i < |spans| :: spans[i] != []
    ensures Joined(sofar, spans) == if sofar == [] then Between(spans) else if spans == [] then sofar else sofar + [32] + Between(spans)
    decreases |spans|
  {
    if spans != [] {
      var next := (if sofar == [] then [] else sofar + [SPACE]) + spans[0];
      assert [] + spans[0] == spans[0];
      assert next != [];
      JoinedIsBetween(next, spans[1..]);
      if |spans| > 1 && sofar != [] {
        Assoc(sofar + [32], spans[0], [32] + Between(spans[1..]));
        assert spans[0] + [32] + Between(spans[1..]) == spans[0] + ([32] + Between(spans[1..]));
        assert next + [32] + Between(spans[1..]) == next + ([32] + Between(spans[1..]));
      }
    }
  }

  lemma {:induction false} SpansAreNotEmpty(text: bytes, mark: QuoteMark, p: nat)
    requires mark.open != [] && mark.close != []
    ensures forall i | 0 <= i < |SpansOf(text, mark, p)| :: |SpansOf(text, mark, p)[i]| >= 2
    decreases |text| - p
  {
    match NextSpan(text, mark.open, mark.close, p)
    case Closed(_, _, _, next) => SpansAreNotEmpty(text, mark, next);
    case _ =>
  }

  lemma {:induction false} NoneIsEmpty(text: bytes, marks: seq<QuoteMark>)
    requires GoodMarks(marks)
    ensures forall i | 0 <= i < |AllSpans(text, marks)| :: AllSpans(text, marks)[i] != []
  {
    if marks != [] {
      SpansAreNotEmpty(text, marks[0], 0);
      NoneIsEmpty(text, marks[1..]);
    }
  }

  // Dialogue replaces the reply exactly if there is some and it makes up two fifths of it,
  // rounded down.
  lemma DialogueIff(text: bytes, marks: seq<QuoteMark>)
    requires GoodMarks(marks)
    ensures var spans := AllSpans(text, marks);
            RecoverQuoted(text, marks)
            == if spans != [] && 5 * (|Flatten(spans)| + 1) > 2 * |text| then Between(spans) else text
  {
    NoneIsEmpty(text, marks);
    JoinedIsBetween([], AllSpans(text, marks));
  }

  // Quotes around a whole reply are taken off; with nothing between them they stay.
  lemma QuotesAreTakenOff(open: bytes, close: bytes, body: bytes)
    ensures Unwrap(open + body + close, [QuoteMark(open, close)]) == if body == [] then open + close else body
  {
    var s := open + body + close;
    assert s[..|open|] == open && s[|s| - |close|..] == close && s[|open|..|s| - |close|] == body;
    assert At(s, open, 0) by { assert s[0..|open|] == open; }
    assert At(s, close, |s| - |close|) by { assert s[|s| - |close|..|s|] == close; }
    assert [QuoteMark(open, close)][1..] == [];
    if body == [] { assert s == open + close; }
  }

  lemma OthersStay(s: bytes, mark: QuoteMark, marks: seq<QuoteMark>)
    requires marks == [mark] && !(At(s, mark.open, 0) && |s| >= |mark.close| && At(s, mark.close, |s| - |mark.close|))
    ensures Unwrap(s, marks) == s
  {
    assert marks[1..] == [];
  }

  // ---- Spaces --------------------------------------------------------------

  // The words of a text, between spaces and tabs; `word` is the one begun before it.
  function Words(text: bytes, word: bytes := []): seq<bytes>
    decreases |text|
  {
    var done := if word == [] then [] else [word];
    if text == [] then done
    else if text[0] == 32 || text[0] == 9 then done + Words(text[1..], [])
    else Words(text[1..], word + [text[0]])
  }

  // Squeezing joins no two words, parts none and loses none.
  lemma {:induction false} SqueezeKeepsWords(text: bytes, inSpace: bool, word: bytes)
    requires inSpace ==> word == []
    ensures Words(Squeeze(text, inSpace), word) == Words(text, word)
    decreases |text|
  {
    if text != [] {
      if IsSpaceOrTab(text[0]) {
        SqueezeKeepsWords(text[1..], true, []);
        if inSpace {
          assert [] + Words(text[1..], []) == Words(text[1..], []);
          assert [] + Squeeze(text[1..], true) == Squeeze(text[1..], true);
        } else {
          assert ([SPACE] + Squeeze(text[1..], true))[1..] == Squeeze(text[1..], true);
        }
      } else {
        SqueezeKeepsWords(text[1..], false, word + [text[0]]);
        assert ([text[0]] + Squeeze(text[1..], false))[1..] == Squeeze(text[1..], false);
      }
    }
  }

  predicate AllBlanks(s: bytes) { forall i | 0 <= i < |s| :: s[i] == 32 || s[i] == 10 || s[i] == 13 || s[i] == 9 }

  // Trimming takes off the blanks at the ends and no more.
  lemma {:induction false} OnlyBlanksAreTrimmed(s: bytes) returns (before: bytes, after: bytes)
    ensures AllBlanks(before) && AllBlanks(after) && s == before + TrimBlanks(s) + after
    decreases |s|
  {
    if s == [] || (!IsBlank(s[0]) && !IsBlank(s[|s| - 1])) {
      before, after := [], [];
    } else if IsBlank(s[0]) {
      before, after := OnlyBlanksAreTrimmed(s[1..]);
      assert s == [s[0]] + (before + TrimBlanks(s) + after);
      before := [s[0]] + before;
    } else {
      before, after := OnlyBlanksAreTrimmed(s[..|s| - 1]);
      assert s == (before + TrimBlanks(s) + after) + [s[|s| - 1]];
      after := after + [s[|s| - 1]];
    }
  }
}
