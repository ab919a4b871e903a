/** sanitize_assistant_text (app/server/chat_hygiene.cpp): what a finished reply becomes
    in the history the model reads again. Unlike the stream scrubber it leaves a space
    where it takes a span out, so it can never put a marker together. */
module Sanitizer {
  import opened Bytes
  import opened Wrappers

  const LEAK: bytes := [60, 124]
  const PARAGRAPH: bytes := [10, 10]
  const STAR: bytes := [42]

  datatype QuoteMark = QuoteMark(open: bytes, close: bytes)

  const MARKS: seq<QuoteMark> := [
    QuoteMark([34], [34]),
    QuoteMark([0xE2, 0x80, 0x9C], [0xE2, 0x80, 0x9D]),
    QuoteMark([0xE3, 0x80, 0x8C], [0xE3, 0x80, 0x8D])]

  // ---- Searching -----------------------------------------------------------

  predicate At(s: bytes, pat: bytes, i: nat) { i + |pat| <= |s| && s[i..i + |pat|] == pat }

  // std::string::find
  function Find(s: bytes, pat: bytes, from: nat): (r: Option<nat>)
    ensures r.Some? ==> from <= r.value && At(s, pat, r.value)
    decreases |s| - from
  {
    if from + |pat| > |s| then None
    else if At(s, pat, from) then Some(from)
    else Find(s, pat, from + 1)
  }

  lemma {:induction false} FindIsFirst(s: bytes, pat: bytes, from: nat, i: nat)
    requires from <= i && At(s, pat, i)
    ensures Find(s, pat, from).Some? && Find(s, pat, from).value <= i
    decreases |s| - from
  {
    if !At(s, pat, from) {
      FindIsFirst(s, pat, from + 1, i);
    }
  }

  // std::string::rfind of one byte
  function LastOf(s: bytes, b: byte): (r: Option<nat>)
    ensures r.Some? ==> r.value < |s|
  {
    if s == [] then None
    else if s[|s| - 1] == b then Some(|s| - 1)
    else LastOf(s[..|s| - 1], b)
  }

  // ---- The passes ----------------------------------------------------------

  function CutAt(s: bytes, pat: bytes): bytes {
    match Find(s, pat, 0)
    case None => s
    case Some(i) => s[..i]
  }

  // The next opening mark and the mark that closes it.
  datatype Span = NoOpen | Unclosed(begin: nat) | Closed(begin: nat, body: nat, end: nat, next: nat)

  function NextSpan(text: bytes, open: bytes, close: bytes, p: nat): (r: Span)
    requires open != [] && close != []
    ensures r.Unclosed? ==> p <= r.begin && r.begin + |open| <= |text|
    ensures r.Closed? ==>
              && p <= r.begin < r.body == r.begin + |open| <= r.end < r.next == r.end + |close| <= |text|
              && At(text, close, r.end)
  {
    match Find(text, open, p)
    case None => NoOpen
    case Some(begin) =>
      match Find(text, close, begin + |open|)
      case None => Unclosed(begin)
      case Some(end) => Closed(begin, begin + |open|, end, end + |close|)
  }

  // What stays of the text from p to past a closed span.
  function Kept(text: bytes, span: Span, maxSpan: nat, p: nat): bytes
    requires span.Closed? && p <= span.begin <= span.body <= span.end <= span.next <= |text|
  {
    if span.end - span.body > maxSpan then text[p..span.next] else text[p..span.begin] + [SPACE]
  }

  function StripSpans(text: bytes, open: bytes, close: bytes, maxSpan: nat, p: nat := 0): bytes
    requires p <= |text| && open != [] && close != []
    decreases |text| - p
  {
    var span := NextSpan(text, open, close, p);
    match span
    case NoOpen => text[p..]
    case Unclosed(begin) =>
      text[p..begin] + (if |text| - (begin + |open|) > maxSpan then text[begin..] else [])
    case Closed(_, _, _, next) => Kept(text, span, maxSpan, p) + StripSpans(text, open, close, maxSpan, next)
  }

  function CutStray(s: bytes): bytes {
    match LastOf(s, STAR[0])
    case None => s
    case Some(i) => if |s| - i <= 120 then s[..i] else s
  }

  // The spans between one kind of quotes, of two bytes or more.
  function SpansOf(text: bytes, mark: QuoteMark, p: nat): seq<bytes>
    requires mark.open != [] && mark.close != []
    decreases |text| - p
  {
    match NextSpan(text, mark.open, mark.close, p)
    case Closed(_, body, end, next) => Spoken(text[body..end], SpansOf(text, mark, next))
    case _ => []
  }

  function Spoken(span: bytes, more: seq<bytes>): seq<bytes> { if |span| >= 2 then [span] + more else more }

  predicate GoodMarks(marks: seq<QuoteMark>) { forall i | 0 <= i < |marks| :: marks[i].open != [] && marks[i].close != [] }

  function AllSpans(text: bytes, marks: seq<QuoteMark>): seq<bytes>
    requires GoodMarks(marks)
  {
    if marks == [] then [] else SpansOf(text, marks[0], 0) + AllSpans(text, marks[1..])
  }

  function Total(spans: seq<bytes>): nat { |Flatten(spans)| }

  function Joined(sofar: bytes, spans: seq<bytes>): bytes
    decreases |spans|
  {
    if spans == [] then sofar
    else Joined((if sofar == [] then [] else sofar + [SPACE]) + spans[0], spans[1..])
  }

  function RecoverQuoted(text: bytes, marks: seq<QuoteMark>): bytes
    requires GoodMarks(marks)
  {
    var spans := AllSpans(text, marks);
    if spans == [] || Total(spans) < |text| * 2 / 5 then text else Joined([], spans)
  }

  predicate IsSpaceOrTab(b: byte) { b == SPACE || b == TAB }

  function Squeeze(text: bytes, inSpace: bool): bytes
    decreases |text|
  {
    if text == [] then []
    else if IsSpaceOrTab(text[0]) then (if inSpace then [] else [SPACE]) + Squeeze(text[1..], true)
    else [text[0]] + Squeeze(text[1..], false)
  }

  predicate IsBlank(b: byte) { b == SPACE || b == LF || b == CR || b == TAB }

  function TrimBlanks(s: bytes): bytes
    decreases |s|
  {
    if s == [] then s
    else if IsBlank(s[0]) then TrimBlanks(s[1..])
    else if IsBlank(s[|s| - 1]) then TrimBlanks(s[..|s| - 1])
    else s
  }

  function CollapseSpaces(text: bytes): bytes { TrimBlanks(Squeeze(text, false)) }

  function Unwrap(s: bytes, marks: seq<QuoteMark>): bytes
    decreases |marks|
  {
    if marks == [] then s
    else
      var open, close := marks[0].open, marks[0].close;
      Unwrap(if |s| > |open| + |close| && At(s, open, 0) && At(s, close, |s| - |close|)
             then s[|open|..|s| - |close|] else s, marks[1..])
  }

  function Sanitize(text: bytes, marks: seq<QuoteMark>): bytes
    requires GoodMarks(marks)
  {
    var cut := CutAt(CutAt(text, LEAK), PARAGRAPH);
    var spoken := StripSpans(CutStray(StripSpans(cut, STAR, STAR, 120)), OPEN, CLOSE, 80);
    CollapseSpaces(Unwrap(CollapseSpaces(RecoverQuoted(spoken, marks)), marks))
  }

  // ---- Nothing puts a marker together --------------------------------------

  predicate PairAt(s: bytes, i: nat, x: byte, y: byte) { i + 1 < |s| && s[i] == x && s[i + 1] == y }

  // The bytes x, y are nowhere next to each other.
  predicate Apart(s: bytes, x: byte, y: byte) { forall i | 0 <= i < |s| :: !PairAt(s, i, x, y) }

  lemma SliceApart(s: bytes, lo: nat, hi: nat, x: byte, y: byte)
    requires lo <= hi <= |s| && Apart(s, x, y)
    ensures Apart(s[lo..hi], x, y)
  {
    forall i | 0 <= i < hi - lo
      ensures PairAt(s[lo..hi], i, x, y) ==> PairAt(s, lo + i, x, y)
    {
    }
  }

  lemma DropApart(s: bytes, lo: nat, x: byte, y: byte)
    requires lo <= |s| && Apart(s, x, y)
    ensures Apart(s[lo..], x, y)
  {
    SliceApart(s, lo, |s|, x, y);
    assert s[lo..] == s[lo..|s|];
  }

  lemma JoinApart(a: bytes, b: bytes, x: byte, y: byte)
    requires Apart(a, x, y) && Apart(b, x, y) && (a != [] && b != [] && a[|a| - 1] == x ==> b[0] != y)
    ensures Apart(a + b, x, y)
  {
    forall i | 0 <= i < |a + b|
      ensures !PairAt(a + b, i, x, y)
    {
      assert i < |a| ==> !PairAt(a, i, x, y);
      assert i >= |a| ==> !PairAt(b, i - |a|, x, y);
    }
  }

  lemma {:induction false} CutMakesApart(s: bytes, x: byte, y: byte)
    ensures Apart(CutAt(s, [x, y]), x, y)
  {
    var cut := CutAt(s, [x, y]);
    forall i | 0 <= i < |cut|
      ensures !PairAt(cut, i, x, y)
    {
      if PairAt(cut, i, x, y) {
        assert s[i..i + 2] == [x, y];
        FindIsFirst(s, [x, y], 0, i);
      }
    }
  }

  lemma CutKeepsApart(s: bytes, pat: bytes, x: byte, y: byte)
    requires Apart(s, x, y)
    ensures Apart(CutAt(s, pat), x, y)
  {
    var found := Find(s, pat, 0);
    SliceApart(s, 0, if found.Some? then found.value else |s|, x, y);
    assert s[0..|s|] == s;
  }

  lemma {:induction false} CutStrayApart(s: bytes, x: byte, y: byte)
    requires Apart(s, x, y)
    ensures Apart(CutStray(s), x, y)
  {
    var found := LastOf(s, STAR[0]);
    if found.Some? {
      SliceApart(s, 0, found.value, x, y);
    }
  }

  lemma KeptApart(text: bytes, span: Span, maxSpan: nat, p: nat, rest: bytes, x: byte, y: byte)
    requires span.Closed? && p <= span.begin <= span.body <= span.end < span.next <= |text|
    requires text[span.next - 1] != x && x != SPACE && y != SPACE && Apart(text, x, y) && Apart(rest, x, y)
    ensures Apart(Kept(text, span, maxSpan, p) + rest, x, y)
  {
    SliceApart(text, p, span.begin, x, y);
    SliceApart(text, p, span.next, x, y);
    JoinApart(text[p..span.begin], [SPACE], x, y);
    assert text[p..span.next][span.next - p - 1] == text[span.next - 1];
    JoinApart(Kept(text, span, maxSpan, p), rest, x, y);
  }

  lemma LastOfMatch(text: bytes, pat: bytes, i: nat)
    requires At(text, pat, i) && pat != []
    ensures text[i + |pat| - 1] == pat[|pat| - 1]
  {
    assert text[i..i + |pat|][|pat| - 1] == pat[|pat| - 1];
  }

  lemma UnclosedApart(text: bytes, p: nat, begin: nat, x: byte, y: byte)
    requires p <= begin <= |text| && Apart(text, x, y)
    ensures Apart(text[p..begin] + text[begin..], x, y) && Apart(text[p..begin] + [], x, y)
  {
    DropApart(text, p, x, y);
    SliceApart(text, p, begin, x, y);
    assert text[p..begin] + text[begin..] == text[p..];
    assert text[p..begin] + [] == text[p..begin];
  }

  lemma {:induction false} StripKeepsApart(text: bytes, open: bytes, close: bytes, maxSpan: nat, p: nat, x: byte, y: byte)
    requires p <= |text| && open != [] && close != [] && close[|close| - 1] != x && x != SPACE && y != SPACE
    requires Apart(text, x, y)
    ensures Apart(StripSpans(text, open, close, maxSpan, p), x, y)
    decreases |text| - p
  {
    var span := NextSpan(text, open, close, p);
    match span
    case NoOpen => DropApart(text, p, x, y);
    case Unclosed(begin) => UnclosedApart(text, p, begin, x, y);
    case Closed(_, _, end, next) =>
      StripKeepsApart(text, open, close, maxSpan, next, x, y);
      LastOfMatch(text, close, end);
      KeptApart(text, span, maxSpan, p, StripSpans(text, open, close, maxSpan, next), x, y);
  }

  predicate AllApart(spans: seq<bytes>, x: byte, y: byte) {
    spans == [] || (Apart(spans[0], x, y) && AllApart(spans[1..], x, y))
  }

  lemma SpokenApart(span: bytes, more: seq<bytes>, x: byte, y: byte)
    requires Apart(span, x, y) && AllApart(more, x, y)
    ensures AllApart(Spoken(span, more), x, y)
  {
    assert ([span] + more)[1..] == more;
  }

  lemma {:induction false} SpansApart(text: bytes, mark: QuoteMark, p: nat, x: byte, y: byte)
    requires mark.open != [] && mark.close != [] && Apart(text, x, y)
    ensures AllApart(SpansOf(text, mark, p), x, y)
    decreases |text| - p
  {
    match NextSpan(text, mark.open, mark.close, p)
    case Closed(_, body, end, next) =>
      SliceApart(text, body, end, x, y);
      SpansApart(text, mark, next, x, y);
      SpokenApart(text[body..end], SpansOf(text, mark, next), x, y);
    case _ =>
  }

  lemma {:induction false} AppendApart(a: seq<bytes>, b: seq<bytes>, x: byte, y: byte)
    requires AllApart(a, x, y) && AllApart(b, x, y)
    ensures AllApart(a + b, x, y)
  {
    if a == [] {
      assert a + b == b;
    } else {
      assert (a + b)[1..] == a[1..] + b;
      AppendApart(a[1..], b, x, y);
    }
  }

  lemma {:induction false} AllSpansApart(text: bytes, marks: seq<QuoteMark>, x: byte, y: byte)
    requires GoodMarks(marks) && Apart(text, x, y)
    ensures AllApart(AllSpans(text, marks), x, y)
  {
    if marks != [] {
      SpansApart(text, marks[0], 0, x, y);
      AllSpansApart(text, marks[1..], x, y);
      AppendApart(SpansOf(text, marks[0], 0), AllSpans(text, marks[1..]), x, y);
    }
  }

  lemma {:induction false} JoinedApart(sofar: bytes, spans: seq<bytes>, x: byte, y: byte)
    requires Apart(sofar, x, y) && AllApart(spans, x, y) && x != SPACE && y != SPACE
    ensures Apart(Joined(sofar, spans), x, y)
    decreases |spans|
  {
    if spans != [] {
      JoinApart(sofar, [SPACE], x, y);
      JoinApart(sofar + [SPACE], spans[0], x, y);
      assert [] + spans[0] == spans[0];
      JoinedApart((if sofar == [] then [] else sofar + [SPACE]) + spans[0], spans[1..], x, y);
    }
  }

  lemma {:induction false} SqueezeFirst(text: bytes)
    ensures Squeeze(text, false) == [] <==> text == []
    ensures text != [] ==> Squeeze(text, false)[0] == if IsSpaceOrTab(text[0]) then SPACE else text[0]
  {
  }

  lemma {:induction false} SqueezeApart(text: bytes, inSpace: bool, x: byte, y: byte)
    requires Apart(text, x, y) && x != SPACE && y != SPACE
    ensures Apart(Squeeze(text, inSpace), x, y)
    decreases |text|
  {
    if text != [] {
      DropApart(text, 1, x, y);
      assert !PairAt(text, 0, x, y);
      if IsSpaceOrTab(text[0]) {
        SqueezeApart(text[1..], true, x, y);
        JoinApart(if inSpace then [] else [SPACE], Squeeze(text[1..], true), x, y);
      } else {
        SqueezeApart(text[1..], false, x, y);
        SqueezeFirst(text[1..]);
        JoinApart([text[0]], Squeeze(text[1..], false), x, y);
      }
    }
  }

  lemma {:induction false} TrimApart(s: bytes, x: byte, y: byte)
    requires Apart(s, x, y)
    ensures Apart(TrimBlanks(s), x, y)
    decreases |s|
  {
    if s != [] {
      if IsBlank(s[0]) {
        DropApart(s, 1, x, y);
        TrimApart(s[1..], x, y);
      } else if IsBlank(s[|s| - 1]) {
        SliceApart(s, 0, |s| - 1, x, y);
        assert s[0..|s| - 1] == s[..|s| - 1];
        TrimApart(s[..|s| - 1], x, y);
      }
    }
  }

  lemma CollapseApart(text: bytes, x: byte, y: byte)
    requires Apart(text, x, y) && x != SPACE && y != SPACE
    ensures Apart(CollapseSpaces(text), x, y)
  {
    SqueezeApart(text, false, x, y);
    TrimApart(Squeeze(text, false), x, y);
  }

  lemma {:induction false} UnwrapApart(s: bytes, marks: seq<QuoteMark>, x: byte, y: byte)
    requires Apart(s, x, y)
    ensures Apart(Unwrap(s, marks), x, y)
    decreases |marks|
  {
    if marks != [] {
      var open, close := marks[0].open, marks[0].close;
      if |s| > |open| + |close| && At(s, open, 0) && At(s, close, |s| - |close|) {
        SliceApart(s, |open|, |s| - |close|, x, y);
        UnwrapApart(s[|open|..|s| - |close|], marks[1..], x, y);
      } else {
        UnwrapApart(s, marks[1..], x, y);
      }
    }
  }

  lemma RecoverApart(text: bytes, marks: seq<QuoteMark>, x: byte, y: byte)
    requires GoodMarks(marks) && Apart(text, x, y) && x != SPACE && y != SPACE
    ensures Apart(RecoverQuoted(text, marks), x, y)
  {
    AllSpansApart(text, marks, x, y);
    JoinedApart([], AllSpans(text, marks), x, y);
  }

  // After the two cuts, no pass puts x and y next to each other.
  lemma PassesKeepApart(cut: bytes, marks: seq<QuoteMark>, x: byte, y: byte)
    requires GoodMarks(marks) && Apart(cut, x, y) && x != SPACE && y != SPACE && x != STAR[0] && x != CLOSE[2]
    ensures var spoken := StripSpans(CutStray(StripSpans(cut, STAR, STAR, 120)), OPEN, CLOSE, 80);
            Apart(CollapseSpaces(Unwrap(CollapseSpaces(RecoverQuoted(spoken, marks)), marks)), x, y)
  {
    var acted := StripSpans(cut, STAR, STAR, 120);
    StripKeepsApart(cut, STAR, STAR, 120, 0, x, y);
    CutStrayApart(acted, x, y);
    StripKeepsApart(CutStray(acted), OPEN, CLOSE, 80, 0, x, y);
    var spoken := StripSpans(CutStray(acted), OPEN, CLOSE, 80);
    RecoverApart(spoken, marks, x, y);
    CollapseApart(RecoverQuoted(spoken, marks), x, y);
    UnwrapApart(CollapseSpaces(RecoverQuoted(spoken, marks)), marks, x, y);
    CollapseApart(Unwrap(CollapseSpaces(RecoverQuoted(spoken, marks)), marks), x, y);
  }

  // Whatever the model wrote, the sanitized text holds no special-token marker and no
  // paragraph break.
  lemma SanitizedIsOneParagraph(text: bytes)
    ensures Apart(Sanitize(text, MARKS), 60, 124) && Apart(Sanitize(text, MARKS), LF, LF)
  {
    var leakless := CutAt(text, LEAK);
    CutMakesApart(text, 60, 124);
    CutKeepsApart(leakless, PARAGRAPH, 60, 124);
    CutMakesApart(leakless, LF, LF);
    PassesKeepApart(CutAt(leakless, PARAGRAPH), MARKS, 60, 124);
    PassesKeepApart(CutAt(leakless, PARAGRAPH), MARKS, LF, LF);
  }

  // ---- It is trimmed, with single spaces ------------------------------------

  predicate Tidy(s: bytes) {
    && (s != [] ==> !IsBlank(s[0]) && !IsBlank(s[|s| - 1]))
    && TAB !in s && Apart(s, SPACE, SPACE)
  }

  lemma {:induction false} SqueezeTidies(text: bytes, inSpace: bool)
    ensures var s := Squeeze(text, inSpace);
            TAB !in s && Apart(s, SPACE, SPACE) && (inSpace && s != [] ==> s[0] != SPACE)
    decreases |text|
  {
    if text != [] {
      var blank := IsSpaceOrTab(text[0]);
      SqueezeTidies(text[1..], blank);
      JoinApart(if !blank then [text[0]] else if inSpace then [] else [SPACE], Squeeze(text[1..], blank), SPACE, SPACE);
    }
  }

  lemma {:induction false} TrimTidies(s: bytes)
    ensures var t := TrimBlanks(s);
            (t != [] ==> !IsBlank(t[0]) && !IsBlank(t[|t| - 1])) && (TAB !in s ==> TAB !in t)
    decreases |s|
  {
    if s != [] {
      if IsBlank(s[0]) {
        TrimTidies(s[1..]);
      } else if IsBlank(s[|s| - 1]) {
        TrimTidies(s[..|s| - 1]);
      }
    }
  }

  lemma CollapseTidies(text: bytes)
    ensures Tidy(CollapseSpaces(text))
  {
    SqueezeTidies(text, false);
    TrimTidies(Squeeze(text, false));
    TrimApart(Squeeze(text, false), SPACE, SPACE);
  }

  lemma SanitizedIsTidy(text: bytes)
    ensures Tidy(Sanitize(text, MARKS))
  {
    var cut := CutAt(CutAt(text, LEAK), PARAGRAPH);
    var spoken := StripSpans(CutStray(StripSpans(cut, STAR, STAR, 120)), OPEN, CLOSE, 80);
    CollapseTidies(Unwrap(CollapseSpaces(RecoverQuoted(spoken, MARKS)), MARKS));
  }

  // ---- A plain reply is kept -----------------------------------------------

  lemma {:induction false} NotFound(s: bytes, pat: bytes, from: nat)
    requires pat != [] && pat[0] !in s
    ensures Find(s, pat, from) == None
    decreases |s| - from
  {
    if from + |pat| <= |s| {
      assert s[from..from + |pat|][0] == s[from];
      NotFound(s, pat, from + 1);
    }
  }

  lemma {:induction false} ApartNotCut(s: bytes, x: byte, y: byte)
    requires Apart(s, x, y)
    ensures CutAt(s, [x, y]) == s
  {
    var found := Find(s, [x, y], 0);
    if found.Some? {
      assert s[found.value..found.value + 2][0] == x && s[found.value..found.value + 2][1] == y;
      assert PairAt(s, found.value, x, y);
    }
  }

  lemma {:induction false} NoStray(s: bytes)
    requires STAR[0] !in s
    ensures LastOf(s, STAR[0]) == None
  {
    if s != [] {
      NoStray(s[..|s| - 1]);
    }
  }

  lemma {:induction false} SqueezeKeeps(s: bytes, inSpace: bool)
    requires TAB !in s && Apart(s, SPACE, SPACE) && (inSpace && s != [] ==> s[0] != SPACE)
    ensures Squeeze(s, inSpace) == s
    decreases |s|
  {
    if s != [] {
      DropApart(s, 1, SPACE, SPACE);
      assert !PairAt(s, 0, SPACE, SPACE);
      SqueezeKeeps(s[1..], s[0] == SPACE);
      assert s == [s[0]] + s[1..];
    }
  }

  lemma CollapseKeeps(s: bytes)
    requires Tidy(s)
    ensures CollapseSpaces(s) == s
  {
    SqueezeKeeps(s, false);
  }

  predicate Unquoted(s: bytes, marks: seq<QuoteMark>)
    requires GoodMarks(marks)
  {
    forall i | 0 <= i < |marks| :: marks[i].open[0] !in s
  }

  lemma {:induction false} NoSpans(s: bytes, marks: seq<QuoteMark>)
    requires GoodMarks(marks) && Unquoted(s, marks)
    ensures AllSpans(s, marks) == []
  {
    if marks != [] {
      NotFound(s, marks[0].open, 0);
      NoSpans(s, marks[1..]);
    }
  }

  lemma {:induction false} NothingToUnwrap(s: bytes, marks: seq<QuoteMark>)
    requires GoodMarks(marks) && Unquoted(s, marks)
    ensures Unwrap(s, marks) == s
    decreases |marks|
  {
    if marks != [] {
      NotFound(s, marks[0].open, 0);
      NothingToUnwrap(s, marks[1..]);
    }
  }

  // A tidy reply of one paragraph with no markup and no quotes is left exactly as it is.
  lemma {:induction false} PlainReplyIsKept(text: bytes, marks: seq<QuoteMark>)
    requires GoodMarks(marks) && Unquoted(text, marks) && Tidy(text)
    requires Apart(text, 60, 124) && Apart(text, LF, LF) && STAR[0] !in text && OPEN[0] !in text
    ensures Sanitize(text, marks) == text
  {
    ApartNotCut(text, 60, 124);
    ApartNotCut(text, LF, LF);
    NotFound(text, STAR, 0);
    NotFound(text, OPEN, 0);
    assert text[0..] == text;
    NoStray(text);
    NoSpans(text, marks);
    CollapseKeeps(text);
    NothingToUnwrap(text, marks);
  }

  // ---- The loops -----------------------------------------------------------

  method StripSpansText(text: bytes, open: bytes, close: bytes, maxSpan: nat) returns (out: bytes)
    requires open != [] && close != []
    ensures out == StripSpans(text, open, close, maxSpan)
  {
    out := [];
    ghost var whole := StripSpans(text, open, close, maxSpan);
    var position: nat := 0;
    while position < |text|
      invariant position <= |text| && whole == out + StripSpans(text, open, close, maxSpan, position)
      decreases |text| - position
    {
      var span := NextSpan(text, open, close, position);
      match span {
        case NoOpen =>
          out := out + text[position..];
          return;
        case Unclosed(begin) =>
          var tail := if |text| - (begin + |open|) > maxSpan then text[begin..] else [];
          Assoc(out, text[position..begin], tail);
          out := out + text[position..begin];
          out := out + tail;
          return;
        case Closed(_, _, _, next) =>
          Assoc(out, Kept(text, span, maxSpan, position), StripSpans(text, open, close, maxSpan, next));
          out := AppendKept(out, text, span, maxSpan, position);
          position := next;
      }
    }
    assert out + [] == out;
  }

  // The text before a closed span, then the span if it is too long or else a space.
  method AppendKept(out: bytes, text: bytes, span: Span, maxSpan: nat, p: nat) returns (longer: bytes)
    requires span.Closed? && p <= span.begin <= span.body <= span.end <= span.next <= |text|
    ensures longer == out + Kept(text, span, maxSpan, p)
  {
    longer := out + text[p..span.begin];
    if span.end - span.body > maxSpan {
      longer := longer + text[span.begin..span.next];
      assert text[p..span.begin] + text[span.begin..span.next] == text[p..span.next];
    } else {
      longer := longer + [SPACE];
    }
  }

  method CollapseSpacesText(text: bytes) returns (out: bytes)
    ensures out == CollapseSpaces(text)
  {
    out := [];
    var inSpace := false;
    for i := 0 to |text|
      invariant out + Squeeze(text[i..], inSpace) == Squeeze(text, false)
    {
      ghost var before, piece := out, if !IsSpaceOrTab(text[i]) then [text[i]] else if inSpace then [] else [SPACE];
      assert text[i..][0] == text[i] && text[i..][1..] == text[i + 1..];
      if IsSpaceOrTab(text[i]) {
        if !inSpace {
          out := out + [SPACE];
        }
        inSpace := true;
      } else {
        inSpace := false;
        out := out + [text[i]];
      }
      assert out == before + piece;
      Assoc(before, piece, Squeeze(text[i + 1..], inSpace));
    }
    assert out + [] == out;
    out := TrimBlanks(out);
  }

  lemma OneMoreSpan(spans: seq<bytes>, span: bytes, more: seq<bytes>)
    ensures spans + ([span] + more) == (spans + [span]) + more
    ensures Total(spans + [span]) == Total(spans) + |span|
  {
    FlattenAppend(spans, [span]);
    assert Flatten([span]) == span + [];
  }

  // One kind of quotes: the loop over a text's spans, with their total length.
  method CollectSpans(text: bytes, mark: QuoteMark) returns (spans: seq<bytes>, total: nat)
    requires mark.open != [] && mark.close != []
    ensures spans == SpansOf(text, mark, 0) && total == Total(spans)
  {
    spans, total := [], 0;
    var position: nat := 0;
    ghost var all, ahead := SpansOf(text, mark, 0), SpansOf(text, mark, 0);
    while true
      invariant position <= |text| && total == Total(spans)
      invariant all == spans + ahead && ahead == SpansOf(text, mark, position)
      decreases |text| - position
    {
      var found := NextSpan(text, mark.open, mark.close, position);
      if !found.Closed? {
        assert spans + [] == spans;
        return;
      }
      var span := text[found.body..found.end];
      ahead := SpansOf(text, mark, found.next);
      if |span| >= 2 {
        OneMoreSpan(spans, span, ahead);
        spans := spans + [span];
        total := total + |span|;
      }
      position := found.next;
    }
  }

  method RecoverQuotedDialogue(text: bytes, marks: seq<QuoteMark>) returns (out: bytes)
    requires GoodMarks(marks)
    ensures out == RecoverQuoted(text, marks)
  {
    var spans: seq<bytes>, total: nat := [], 0;
    for i := 0 to |marks|
      invariant spans + AllSpans(text, marks[i..]) == AllSpans(text, marks) && total == Total(spans)
    {
      var found, length := CollectSpans(text, marks[i]);
      assert marks[i..][1..] == marks[i + 1..];
      assert spans + (found + AllSpans(text, marks[i + 1..])) == (spans + found) + AllSpans(text, marks[i + 1..]);
      FlattenAppend(spans, found);
      spans := spans + found;
      total := total + length;
    }
    assert spans + [] == spans;
    if spans == [] || total < |text| * 2 / 5 {
      return text;
    }
    out := [];
    for i := 0 to |spans|
      invariant Joined(out, spans[i..]) == Joined([], spans)
    {
      assert spans[i..][1..] == spans[i + 1..];
      if out != [] {
        out := out + [SPACE];
      }
      assert [] + spans[i] == spans[i];
      out := out + spans[i];
    }
  }

  method UnwrapText(text: bytes, marks: seq<QuoteMark>) returns (out: bytes)
    ensures out == Unwrap(text, marks)
  {
    out := text;
    for i := 0 to |marks|
      invariant Unwrap(out, marks[i..]) == Unwrap(text, marks)
    {
      assert marks[i..][1..] == marks[i + 1..];
      var open, close := marks[i].open, marks[i].close;
      if |out| > |open| + |close| && At(out, open, 0) && At(out, close, |out| - |close|) {
        out := out[|open|..|out| - |close|];
      }
    }
  }

  // sanitize_assistant_text
  method SanitizeAssistantText(text: bytes) returns (out: bytes)
    ensures out == Sanitize(text, MARKS)
  {
    out := CutAt(text, LEAK);
    out := CutAt(out, PARAGRAPH);
    out := StripSpansText(out, STAR, STAR, 120);
    out := CutStray(out);
    out := StripSpansText(out, OPEN, CLOSE, 80);
    out := RecoverQuotedDialogue(out, MARKS);
    out := CollapseSpacesText(out);
    out := UnwrapText(out, MARKS);
    out := CollapseSpacesText(out);
  }
}
