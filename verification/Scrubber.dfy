/** StreamScrubber (app/server/chat_hygiene.cpp): the byte machine that keeps actions,
    asides and leaked special tokens out of a streamed reply, against a reader that has
    the whole reply before it. */
module Scrubber {
  import opened Bytes
  import opened Stream

  const STAR: byte := 42
  const LESS: byte := 60
  const BAR: byte := 124
  const LEAD: byte := 0xEF
  // How much may be held before it is taken for ordinary text.
  const HELD: nat := 120

  // ---- The machine ---------------------------------------------------------

  datatype Mode = Clean | Star | FullParen | AngleOpen | Dead

  // The members of StreamScrubber, and all it has let through.
  datatype State = State(mode: Mode, held: bytes, pending: bytes, out: bytes)

  const START := State(Clean, [], [], [])

  // A closing parenthesis ends at j.
  predicate Closes(s: bytes, j: nat) { 2 <= j < |s| && [s[j - 2], s[j - 1], s[j]] == CLOSE }

  // pending_.find(close) != npos
  predicate HoldsClose(s: bytes) { exists j | 0 <= j < |s| :: Closes(s, j) }

  function StepClean(s: State, ch: byte): State {
    if ch == STAR then s.(mode := Star, held := [STAR])
    else if ch == LESS then s.(mode := AngleOpen, held := [LESS])
    else if ch == LEAD then s.(mode := FullParen, held := [ch])
    else s.(out := s.out + [ch])
  }

  function StepStar(s: State, ch: byte): State {
    var held := s.held + [ch];
    if ch == STAR then s.(mode := Clean, held := [])
    else if ch == LF || |held| > HELD then s.(mode := Clean, held := [], out := s.out + held)
    else s.(held := held)
  }

  function StepFullParen(s: State, ch: byte): State {
    var held := s.held + [ch];
    if |held| == 3 then
      if held == OPEN then s.(held := held, pending := [])
      else s.(mode := Clean, held := [], out := s.out + held)
    else if |held| > 3 then
      var pending := s.pending + [ch];
      if HoldsClose(pending) then s.(mode := Clean, held := [], pending := [])
      else if |pending| > HELD then s.(mode := Clean, held := [], pending := [], out := s.out + held)
      else s.(held := held, pending := pending)
    else s.(held := held)
  }

  function StepAngleOpen(s: State, ch: byte): State {
    if ch == BAR then s.(mode := Dead, held := [])
    else
      var out := s.out + s.held;
      if ch == STAR then s.(mode := Star, held := [STAR], out := out)
      else if ch == LESS then s.(held := [LESS], out := out)
      else s.(mode := Clean, held := [], out := out + [ch])
  }

  function Step(s: State, ch: byte): State {
    match s.mode
    case Clean => StepClean(s, ch)
    case Star => StepStar(s, ch)
    case FullParen => StepFullParen(s, ch)
    case AngleOpen => StepAngleOpen(s, ch)
    case Dead => s
  }

  // ---- The reader ----------------------------------------------------------

  datatype Piece =
    | Kept(text: bytes)
    | Action(text: bytes)     // *...* on one line
    | Aside(text: bytes)      // a full-width parenthesis and all it holds
    | Leak(text: bytes)       // a special token and everything after it
    | Withheld(text: bytes)   // could still become any of the others

  // The byte that decides a text opening with a star, or |text|.
  function StarEnd(text: bytes, j: nat := 1): (e: nat)
    requires 1 <= j <= |text| && j <= HELD
    ensures j <= e <= |text| && e <= HELD
    ensures forall i | j <= i < e :: text[i] != STAR && text[i] != LF
    ensures e < |text| && e < HELD ==> text[e] == STAR || text[e] == LF
    decreases |text| - j
  {
    if j == |text| || j == HELD || text[j] == STAR || text[j] == LF then j else StarEnd(text, j + 1)
  }

  // It lies past an opening one.
  predicate ClosesAt(text: bytes, j: nat) { 5 <= j && Closes(text, j) }

  // The byte that decides a text opening with a full-width parenthesis, or |text|.
  function AsideEnd(text: bytes, j: nat := 3): (e: nat)
    requires 3 <= j <= |text| && j <= 3 + HELD
    ensures j <= e <= |text| && e <= 3 + HELD
    ensures forall i | j <= i < e :: !ClosesAt(text, i)
    ensures e < |text| && e < 3 + HELD ==> ClosesAt(text, e)
    decreases |text| - j
  {
    if j == |text| || j == 3 + HELD || ClosesAt(text, j) then j else AsideEnd(text, j + 1)
  }

  function FirstPiece(text: bytes): (p: Piece)
    requires text != []
    ensures p.text <= text && p.text != []
    ensures p.Leak? || p.Withheld? ==> p.text == text
  {
    if text[0] == STAR then
      var e := StarEnd(text);
      if e == |text| then Withheld(text)
      else if text[e] == STAR then Action(text[..e + 1])
      else Kept(text[..e + 1])
    else if text[0] == LESS then
      if |text| == 1 then Withheld(text)
      else if text[1] == BAR then Leak(text)
      else if text[1] == STAR || text[1] == LESS then Kept(text[..1])
      else Kept(text[..2])
    else if text[0] == LEAD then
      if |text| < 3 then Withheld(text)
      else if text[..3] != OPEN then Kept(text[..3])
      else
        var e := AsideEnd(text);
        if e == |text| then Withheld(text)
        else if ClosesAt(text, e) then Aside(text[..e + 1])
        else Kept(text[..e + 1])
    else Kept(text[..1])
  }

  function Read(text: bytes): seq<Piece>
    decreases |text|
  {
    if text == [] then []
    else
      var p := FirstPiece(text);
      [p] + Read(text[|p.text|..])
  }

  // What reaches the listener.
  function Shown(pieces: seq<Piece>): bytes {
    if pieces == [] then []
    else (if pieces[0].Kept? then pieces[0].text else []) + Shown(pieces[1..])
  }

  function Held(pieces: seq<Piece>): bytes {
    if pieces != [] && pieces[|pieces| - 1].Withheld? then pieces[|pieces| - 1].text else []
  }

  function Texts(pieces: seq<Piece>): bytes {
    if pieces == [] then [] else pieces[0].text + Texts(pieces[1..])
  }

  predicate Leaked(pieces: seq<Piece>) { pieces != [] && pieces[|pieces| - 1].Leak? }

  // ---- The reading factors the text ----------------------------------------

  // Between two stars (byte 42), of at most the held length, the marks counted.
  predicate IsAction(t: bytes) {
    && 2 <= |t| <= 121 && t[0] == 42 && t[|t| - 1] == 42
    && (forall i | 0 < i < |t| - 1 :: t[i] != STAR && t[i] != LF)
  }

  predicate IsAside(t: bytes) {
    && 6 <= |t| <= 124 && t[..3] == OPEN && ClosesAt(t, |t| - 1)
    && (forall j | 3 <= j < |t| - 1 :: !ClosesAt(t, j))
  }

  predicate WellRead(p: Piece) {
    match p
    case Kept(t) => t != [] && !IsAction(t) && !IsAside(t) && !([60, 124] <= t)
    case Action(t) => IsAction(t)
    case Aside(t) => IsAside(t)
    case Leak(t) => [60, 124] <= t
    case Withheld(t) => 0 < |t| <= 123 && (t[0] == STAR || t == [LESS] || t[0] == LEAD)
  }

  lemma ClosesInPrefix(text: bytes, n: nat)
    requires n <= |text|
    ensures forall j | 0 <= j < n :: ClosesAt(text[..n], j) <==> ClosesAt(text, j)
  {
  }

  lemma AsidePiece(text: bytes)
    requires |text| >= 3 && text[..3] == OPEN
    ensures text[0] == LEAD
    ensures var e := AsideEnd(text);
            FirstPiece(text) == if e == |text| then Withheld(text)
                                else if ClosesAt(text, e) then Aside(text[..e + 1]) else Kept(text[..e + 1])
  {
    assert text[0] == text[..3][0] == LEAD;
  }

  lemma AsideWellRead(text: bytes)
    requires |text| >= 3 && text[..3] == OPEN && AsideEnd(text) < |text|
    ensures var e := AsideEnd(text); var t := text[..e + 1];
            if ClosesAt(text, e) then IsAside(t) else !IsAside(t)
  {
    var e := AsideEnd(text);
    var t := text[..e + 1];
    assert t[..3] == OPEN;
    ClosesInPrefix(text, e + 1);
    assert ClosesAt(t, |t| - 1) <==> ClosesAt(text, e);
  }

  lemma FirstPieceWellRead(text: bytes)
    requires text != []
    ensures WellRead(FirstPiece(text))
  {
    if text[0] == LEAD && |text| >= 3 && text[..3] == OPEN {
      if AsideEnd(text) < |text| {
        AsideWellRead(text);
      }
    }
  }

  // Every text factors into pieces shown, pieces dropped for what they are and one
  // withheld suffix; only the last piece can be a leak or the suffix.
  lemma {:induction false} ReadFactors(text: bytes)
    ensures Texts(Read(text)) == text
    ensures forall i | 0 <= i < |Read(text)| :: WellRead(Read(text)[i])
    ensures forall i | 0 <= i < |Read(text)| - 1 :: !Read(text)[i].Leak? && !Read(text)[i].Withheld?
    decreases |text|
  {
    if text != [] {
      var p := FirstPiece(text);
      FirstPieceWellRead(text);
      ReadFactors(text[|p.text|..]);
      assert text == p.text + text[|p.text|..];
    }
  }

  // ---- The machine reads ---------------------------------------------------

  function CleanState(out: bytes): State { State(Clean, [], [], out) }

  function Pending(held: bytes): bytes { if |held| >= 3 && held[0] == LEAD then held[3..] else [] }

  // The machine holding a piece it cannot decide yet.
  function Holding(held: bytes, out: bytes): State
    requires held != []
  {
    State(if held[0] == STAR then Star else if held[0] == LESS then AngleOpen else FullParen,
          held, Pending(held), out)
  }

  function After(pieces: seq<Piece>, out: bytes): State {
    var shown := out + Shown(pieces);
    if pieces == [] then CleanState(shown)
    else match pieces[|pieces| - 1]
         case Withheld(text) => if text == [] then CleanState(shown) else Holding(text, shown)
         case Leak(_) => State(Dead, [], [], shown)
         case _ => CleanState(shown)
  }

  lemma FeedOne(s: State, a: bytes, ch: byte)
    ensures Feed(Step, s, a + [ch]) == Step(Feed(Step, s, a), ch)
  {
    FeedConcat(Step, s, a, [ch]);
    assert Feed(Step, Feed(Step, s, a), [ch]) == Feed(Step, Step(Feed(Step, s, a), ch), [ch][1..]);
  }

  lemma {:induction false} HoldsStar(out: bytes, text: bytes, j: nat)
    requires text != [] && text[0] == STAR && 1 <= j <= StarEnd(text)
    ensures Feed(Step, CleanState(out), text[..j]) == Holding(text[..j], out)
    decreases j
  {
    assert text[..j] == text[..j - 1] + [text[j - 1]];
    FeedOne(CleanState(out), text[..j - 1], text[j - 1]);
    if j > 1 {
      HoldsStar(out, text, j - 1);
    }
  }

  lemma PendingGrows(text: bytes, j: nat)
    requires 3 <= j < |text|
    ensures text[3..j] + [text[j]] == text[3..j + 1]
    ensures HoldsClose(text[3..j + 1]) <==> exists i | 3 <= i <= j :: ClosesAt(text, i)
  {
    var pending := text[3..j + 1];
    forall i | 3 <= i <= j
      ensures ClosesAt(text, i) <==> Closes(pending, i - 3)
    {
      if i >= 5 {
        assert pending[i - 5] == text[i - 2] && pending[i - 4] == text[i - 1] && pending[i - 3] == text[i];
      }
    }
    if HoldsClose(pending) {
      var k :| 0 <= k < |pending| && Closes(pending, k);
      assert ClosesAt(text, k + 3);
    }
  }

  // The machine inside a parenthesis that has not closed.
  lemma {:induction false} HoldsAside(out: bytes, text: bytes, j: nat)
    requires |text| >= 3 && text[..3] == OPEN && 3 <= j <= AsideEnd(text)
    ensures Feed(Step, CleanState(out), text[..j]) == Holding(text[..j], out)
    decreases j
  {
    assert text[0] == text[..3][0] == LEAD;
    if j == 3 {
      HoldsLead(out, text, 2);
      assert text[..3] == text[..2] + [text[2]];
      FeedOne(CleanState(out), text[..2], text[2]);
    } else {
      HoldsAside(out, text, j - 1);
      assert text[..j] == text[..j - 1] + [text[j - 1]];
      FeedOne(CleanState(out), text[..j - 1], text[j - 1]);
      PendingGrows(text, j - 1);
      assert text[..j - 1][3..] == text[3..j - 1] && text[..j][3..] == text[3..j];
    }
  }

  lemma HoldsLead(out: bytes, text: bytes, j: nat)
    requires |text| >= j && 1 <= j <= 2 && text[0] == LEAD
    ensures Feed(Step, CleanState(out), text[..j]) == Holding(text[..j], out)
  {
    assert text[..1] == [] + [text[0]];
    FeedOne(CleanState(out), [], text[0]);
    if j == 2 {
      assert text[..2] == text[..1] + [text[1]];
      FeedOne(CleanState(out), text[..1], text[1]);
    }
  }

  // What one piece leaves behind, from the clean state.
  function AfterPiece(p: Piece, out: bytes): State
    requires p.text != []
  {
    match p
    case Kept(text) => CleanState(out + text)
    case Withheld(text) => Holding(text, out)
    case Leak(_) => State(Dead, [], [], out)
    case _ => CleanState(out)
  }

  lemma StarFed(out: bytes, text: bytes)
    requires text != [] && text[0] == STAR
    ensures Feed(Step, CleanState(out), FirstPiece(text).text) == AfterPiece(FirstPiece(text), out)
  {
    var e := StarEnd(text);
    HoldsStar(out, text, e);
    if e == |text| {
      assert text[..e] == text;
    } else {
      assert text[..e + 1] == text[..e] + [text[e]];
      FeedOne(CleanState(out), text[..e], text[e]);
    }
  }

  lemma PendingCloses(text: bytes, e: nat)
    requires |text| >= 3 && e == AsideEnd(text) < |text|
    ensures HoldsClose(text[3..e + 1]) <==> ClosesAt(text, e)
  {
    PendingGrows(text, e);
  }

  lemma AsideDecided(out: bytes, held: bytes, ch: byte)
    requires |held| >= 3 && held[0] == LEAD && (HoldsClose(held[3..] + [ch]) || |held| == 3 + HELD)
    ensures Step(Holding(held, out), ch)
         == CleanState(if HoldsClose(held[3..] + [ch]) then out else out + (held + [ch]))
  {
  }

  lemma AsideFed(out: bytes, text: bytes)
    requires |text| >= 3 && text[..3] == OPEN
    ensures text[0] == LEAD
    ensures Feed(Step, CleanState(out), FirstPiece(text).text) == AfterPiece(FirstPiece(text), out)
  {
    AsidePiece(text);
    var e := AsideEnd(text);
    HoldsAside(out, text, e);
    if e == |text| {
      assert text[..e] == text;
    } else {
      PendingCloses(text, e);
      assert text[..e][3..] + [text[e]] == text[3..e + 1];
      AsideDecided(out, text[..e], text[e]);
      assert text[..e + 1] == text[..e] + [text[e]];
      FeedOne(CleanState(out), text[..e], text[e]);
    }
  }

  lemma LeadFed(out: bytes, text: bytes)
    requires text != [] && text[0] == LEAD
    ensures Feed(Step, CleanState(out), FirstPiece(text).text) == AfterPiece(FirstPiece(text), out)
  {
    if |text| < 3 {
      HoldsLead(out, text, |text|);
      assert text[..|text|] == text;
    } else if text[..3] == OPEN {
      AsideFed(out, text);
    } else {
      HoldsLead(out, text, 2);
      assert text[..3] == text[..2] + [text[2]];
      FeedOne(CleanState(out), text[..2], text[2]);
    }
  }

  lemma {:induction false} DeadForGood(s: State, data: bytes)
    requires s.mode == Dead
    ensures Feed(Step, s, data) == s
    decreases |data|
  {
    if data != [] {
      DeadForGood(s, data[1..]);
    }
  }

  // A lone '<' before a star or another one is the exception: the machine keeps it only
  // on the next byte.
  predicate LoneLess(p: Piece) { p == Kept([LESS]) }

  lemma LessFed(out: bytes, text: bytes)
    requires text != [] && text[0] == LESS && !LoneLess(FirstPiece(text))
    ensures Feed(Step, CleanState(out), FirstPiece(text).text) == AfterPiece(FirstPiece(text), out)
  {
    FeedConcat(Step, CleanState(out), [LESS], text[1..]);
    assert text == [LESS] + text[1..];
    FeedOne(CleanState(out), [], LESS);
    assert [] + [LESS] == [LESS];
    if |text| > 1 {
      var s := Step(Holding([LESS], out), text[1]);
      assert text[..2] == [LESS] + [text[1]];
      FeedOne(CleanState(out), [LESS], text[1]);
      if text[1] == BAR {
        DeadForGood(s, text[2..]);
        FeedConcat(Step, CleanState(out), text[..2], text[2..]);
        assert text == text[..2] + text[2..];
      } else {
        Assoc(out, [LESS], [text[1]]);
      }
    }
  }

  lemma PieceFed(out: bytes, text: bytes)
    requires text != [] && !LoneLess(FirstPiece(text))
    ensures Feed(Step, CleanState(out), FirstPiece(text).text) == AfterPiece(FirstPiece(text), out)
  {
    if text[0] == STAR {
      StarFed(out, text);
    } else if text[0] == LESS {
      LessFed(out, text);
    } else if text[0] == LEAD {
      LeadFed(out, text);
    } else {
      assert text[..1] == [] + [text[0]];
      FeedOne(CleanState(out), [], text[0]);
    }
  }

  lemma AfterCons(p: Piece, rest: seq<Piece>, out: bytes)
    requires p.text != [] && !p.Leak? && !p.Withheld?
    ensures After([p] + rest, out) == After(rest, AfterPiece(p, out).out)
  {
    var pieces := [p] + rest;
    assert pieces[1..] == rest;
    var kept := if p.Kept? then p.text else [];
    Assoc(out, kept, Shown(rest));
    assert AfterPiece(p, out).out == out + kept;
    assert Shown(pieces) == kept + Shown(rest);
    assert pieces[|pieces| - 1] == if rest == [] then p else rest[|rest| - 1];
  }

  lemma LessKept(out: bytes, text: bytes)
    requires text != [] && LoneLess(FirstPiece(text))
    ensures Feed(Step, CleanState(out), text) == Feed(Step, CleanState(out + [LESS]), text[1..])
  {
    var rest := text[1..];
    assert Step(Step(CleanState(out), LESS), rest[0]) == Step(CleanState(out + [LESS]), rest[0]);
  }

  // A leak or a withheld suffix is all of the text.
  lemma LastPieceFed(out: bytes, text: bytes)
    requires text != [] && (FirstPiece(text).Leak? || FirstPiece(text).Withheld?)
    ensures Feed(Step, CleanState(out), text) == After(Read(text), out)
  {
    var p := FirstPiece(text);
    PieceFed(out, text);
    assert p.text == text && Read(text) == [p];
    assert Shown([p]) == Shown([p][1..]) == [];
    assert out + [] == out;
  }

  // The machine fed a text byte by byte has shown, dropped and kept back exactly what
  // the reader makes of the text as a whole.
  lemma {:induction false} FeedReads(out: bytes, text: bytes)
    ensures Feed(Step, CleanState(out), text) == After(Read(text), out)
    decreases |text|
  {
    if text != [] {
      var p := FirstPiece(text);
      var rest := text[|p.text|..];
      assert text == p.text + rest;
      if LoneLess(p) {
        LessKept(out, text);
        FeedReads(out + [LESS], rest);
        AfterCons(p, Read(rest), out);
      } else if !p.Leak? && !p.Withheld? {
        PieceFed(out, text);
        FeedConcat(Step, CleanState(out), p.text, rest);
        FeedReads(AfterPiece(p, out).out, rest);
        AfterCons(p, Read(rest), out);
      } else {
        LastPieceFed(out, text);
      }
    }
  }

  // ---- What follows --------------------------------------------------------

  // The output is the pieces shown, in order, whatever the deltas were, and what is
  // held is the withheld suffix.
  lemma DeltasDoNotMatter(deltas: seq<bytes>)
    ensures var s := FeedAll(Step, START, deltas);
            var pieces := Read(Flatten(deltas));
            && s.out == Shown(pieces) && s.held == Held(pieces) && |s.held| <= 123
            && (s.mode == Dead <==> Leaked(pieces))
  {
    FragmentsDoNotMatter(Step, START, deltas);
    FeedReads([], Flatten(deltas));
    AfterMeans(Read(Flatten(deltas)));
    HeldIsShort(Flatten(deltas));
  }

  lemma AfterMeans(pieces: seq<Piece>)
    ensures var s := After(pieces, []);
            s.out == Shown(pieces) && s.held == Held(pieces) && (s.mode == Dead <==> Leaked(pieces))
  {
    assert [] + Shown(pieces) == Shown(pieces);
  }

  lemma HeldIsShort(text: bytes)
    ensures |Held(Read(text))| <= 123
  {
    ReadFactors(text);
    if text != [] {
      assert WellRead(Read(text)[|Read(text)| - 1]);
    }
  }

  lemma SpanIsOnePiece(span: bytes)
    requires IsAction(span) || IsAside(span)
    ensures FirstPiece(span) == if IsAction(span) then Action(span) else Aside(span)
  {
    if IsAction(span) {
      assert StarEnd(span) == |span| - 1;
    } else {
      assert span[0] == span[..3][0] == LEAD;
      assert AsideEnd(span) == |span| - 1;
    }
    assert span[..|span|] == span;
  }

  // A closed action or aside met in the clean state leaves no trace at all.
  lemma ClosedSpanIsDropped(before: bytes, span: bytes)
    requires IsAction(span) || IsAside(span)
    requires Feed(Step, START, before).mode == Clean
    ensures Feed(Step, START, before + span) == Feed(Step, START, before)
  {
    FeedReads([], before);
    FeedConcat(Step, START, before, span);
    SpanIsOnePiece(span);
    PieceFed(Feed(Step, START, before).out, span);
  }

  // A text with none of the openers is shown as it is.
  lemma {:induction false} PlainTextIsShown(out: bytes, text: bytes)
    requires STAR !in text && LESS !in text && LEAD !in text
    ensures Feed(Step, CleanState(out), text) == CleanState(out + text)
    decreases |text|
  {
    if text == [] {
      assert out + text == out;
    } else {
      Assoc(out, [text[0]], text[1..]);
      assert text == [text[0]] + text[1..];
      PlainTextIsShown(out + [text[0]], text[1..]);
    }
  }

  predicate MarkerAt(text: bytes, i: nat) { i + 1 < |text| && text[i] == LESS && text[i + 1] == BAR }

  // Where the first special token starts, or |text|.
  function FirstMarker(text: bytes, i: nat := 0): (m: nat)
    requires i <= |text|
    ensures i <= m <= |text|
    ensures forall k | i <= k < m :: !MarkerAt(text, k)
    ensures m < |text| ==> MarkerAt(text, m)
    decreases |text| - i
  {
    if i == |text| || MarkerAt(text, i) then i else FirstMarker(text, i + 1)
  }

  lemma FirstMarkerUnique(text: bytes, m: nat)
    requires m <= |text| && (forall k | 0 <= k < m :: !MarkerAt(text, k)) && (m < |text| ==> MarkerAt(text, m))
    ensures m == FirstMarker(text)
  {
  }

  lemma FirstMarkerShifts(a: bytes, rest: bytes)
    requires forall k | 0 <= k < |a| :: !MarkerAt(a + rest, k)
    ensures FirstMarker(a + rest) == |a| + FirstMarker(rest)
    ensures (a + rest)[..FirstMarker(a + rest)] == a + rest[..FirstMarker(rest)]
  {
    var text, m := a + rest, FirstMarker(rest);
    forall k | |a| <= k < |text|
      ensures MarkerAt(text, k) <==> MarkerAt(rest, k - |a|)
    {
    }
    FirstMarkerUnique(text, |a| + m);
  }

  // A text without a star and without the byte 0xEF is shown up to its first special
  // token, and nothing from there on.
  lemma {:induction false} LeakIsCutOff(text: bytes)
    requires STAR !in text && LEAD !in text
    ensures Shown(Read(text)) + Held(Read(text)) == text[..FirstMarker(text)]
    decreases |text|
  {
    if text != [] {
      var p := FirstPiece(text);
      var rest := text[|p.text|..];
      if p.Kept? {
        LeakIsCutOff(rest);
        assert text == p.text + rest;
        FirstMarkerShifts(p.text, rest);
        ShownCons(p, Read(rest));
      } else {
        LeakAtFront(text);
      }
    }
  }

  lemma ShownCons(p: Piece, rest: seq<Piece>)
    requires p.Kept?
    ensures Shown([p] + rest) + Held([p] + rest) == p.text + (Shown(rest) + Held(rest))
  {
    assert ([p] + rest)[1..] == rest;
    Assoc(p.text, Shown(rest), Held(rest));
  }

  lemma LeakAtFront(text: bytes)
    requires text != [] && STAR !in text && LEAD !in text && !FirstPiece(text).Kept?
    ensures Shown(Read(text)) + Held(Read(text)) == text[..FirstMarker(text)]
  {
    var p := FirstPiece(text);
    assert Read(text) == [p] && Shown([p]) == Shown([p][1..]) == [];
    FirstMarkerUnique(text, if p.Leak? then 0 else 1);
  }

  // ---- When a special token is shown after all -----------------------------

  predicate HasMarker(text: bytes) { exists i | 0 <= i < |text| :: MarkerAt(text, i) }

  // The pieces that are shown.
  function KeptTexts(pieces: seq<Piece>): seq<bytes> {
    if pieces == [] then []
    else (if pieces[0].Kept? then [pieces[0].text] else []) + KeptTexts(pieces[1..])
  }

  lemma {:induction false} ShownIsKept(pieces: seq<Piece>)
    ensures Shown(pieces) == Flatten(KeptTexts(pieces))
  {
    if pieces != [] {
      ShownIsKept(pieces[1..]);
      var first := if pieces[0].Kept? then [pieces[0].text] else [];
      FlattenAppend(first, KeptTexts(pieces[1..]));
      if pieces[0].Kept? {
        assert Flatten(first) == pieces[0].text + Flatten(first[1..]) == pieces[0].text;
      }
    }
  }

  predicate NoneEmpty(texts: seq<bytes>) { forall k | 0 <= k < |texts| :: texts[k] != [] }

  lemma {:induction false} KeptAreFull(pieces: seq<Piece>)
    requires forall i | 0 <= i < |pieces| :: WellRead(pieces[i])
    ensures NoneEmpty(KeptTexts(pieces))
  {
    if pieces != [] { KeptAreFull(pieces[1..]); }
  }

  // A marker inside one text, or half at the end of one and half at the start of the
  // next.
  predicate MarkerInside(texts: seq<bytes>) { exists k | 0 <= k < |texts| :: HasMarker(texts[k]) }

  predicate Meets(a: bytes, b: bytes) { a != [] && b != [] && a[|a| - 1] == LESS && b[0] == BAR }

  predicate MarkerAcross(texts: seq<bytes>) { exists k | 0 <= k < |texts| - 1 :: Meets(texts[k], texts[k + 1]) }

  lemma MarkerInConcat(a: bytes, b: bytes)
    ensures HasMarker(a + b) <==> HasMarker(a) || HasMarker(b) || Meets(a, b)
  {
    var c := a + b;
    forall i | 0 <= i < |a|
      ensures MarkerAt(c, i) <==> MarkerAt(a, i) || (i == |a| - 1 && Meets(a, b))
    {
    }
    forall i | 0 <= i < |b|
      ensures MarkerAt(c, |a| + i) <==> MarkerAt(b, i)
    {
    }
    if HasMarker(c) {
      var i :| 0 <= i < |c| && MarkerAt(c, i);
      if i >= |a| { assert MarkerAt(b, i - |a|); }
    }
    if HasMarker(a) {
      var i :| 0 <= i < |a| && MarkerAt(a, i);
      assert MarkerAt(c, i);
    }
    if HasMarker(b) {
      var i :| 0 <= i < |b| && MarkerAt(b, i);
      assert MarkerAt(c, |a| + i);
    }
    if Meets(a, b) { assert MarkerAt(c, |a| - 1); }
  }

  lemma AcrossCons(t: bytes, rest: seq<bytes>)
    ensures MarkerAcross([t] + rest) <==> (rest != [] && Meets(t, rest[0])) || MarkerAcross(rest)
    ensures MarkerInside([t] + rest) <==> HasMarker(t) || MarkerInside(rest)
  {
    var all := [t] + rest;
    forall k | 0 < k < |all| - 1
      ensures Meets(all[k], all[k + 1]) <==> Meets(rest[k - 1], rest[k])
    {
    }
    if MarkerAcross(rest) {
      var k :| 0 <= k < |rest| - 1 && Meets(rest[k], rest[k + 1]);
      assert Meets(all[k + 1], all[k + 2]);
    }
    if rest != [] && Meets(t, rest[0]) { assert Meets(all[0], all[1]); }
    if MarkerInside(rest) {
      var k :| 0 <= k < |rest| && HasMarker(rest[k]);
      assert HasMarker(all[k + 1]);
    }
    if HasMarker(t) { assert HasMarker(all[0]); }
  }

  lemma {:induction false} MarkerInFlatten(texts: seq<bytes>)
    requires NoneEmpty(texts)
    ensures HasMarker(Flatten(texts)) <==> MarkerInside(texts) || MarkerAcross(texts)
  {
    if texts != [] {
      var t, rest := texts[0], texts[1..];
      assert texts == [t] + rest;
      assert forall k | 0 <= k < |rest| :: rest[k] == texts[k + 1];
      MarkerInFlatten(rest);
      MarkerInConcat(t, Flatten(rest));
      AcrossCons(t, rest);
      if rest != [] { assert Flatten(rest)[0] == rest[0][0]; }
    }
  }

  // What reaches the listener holds a special-token marker exactly if one of the
  // shown pieces holds one inside, or a shown piece ends in '<' and the next one
  // shown begins with '|'.
  lemma MarkerShownIff(text: bytes)
    ensures var kept := KeptTexts(Read(text));
            HasMarker(Shown(Read(text))) <==> MarkerInside(kept) || MarkerAcross(kept)
  {
    var pieces := Read(text);
    ReadFactors(text);
    ShownIsKept(pieces);
    KeptAreFull(pieces);
    MarkerInFlatten(KeptTexts(pieces));
  }

  // A shown piece can hold one inside only if it is a star run or full-width
  // parenthesis that was let go, or three bytes with the same lead byte.
  lemma MarkerInsideWhere(text: bytes)
    requires text != [] && FirstPiece(text).Kept? && HasMarker(FirstPiece(text).text)
    ensures text[0] == STAR || text[0] == LEAD
  {
    var t := FirstPiece(text).text;
    var i :| 0 <= i < |t| && MarkerAt(t, i);
    assert t[0] == text[0];
  }

  // Letting a star run go shows the marker inside it.
  lemma ReleasedRunShowsAMarker()
    ensures Feed(Step, START, [STAR, LESS, BAR, LF]) == CleanState([STAR, LESS, BAR, LF])
  {
    var text := [STAR, LESS, BAR, LF];
    assert text[..1] == [] + [STAR] && text[..2] == text[..1] + [LESS] && text[..3] == text[..2] + [BAR] && text == text[..3] + [LF];
    FeedOne(START, [], STAR);
    FeedOne(START, text[..1], LESS);
    FeedOne(START, text[..2], BAR);
    FeedOne(START, text[..3], LF);
  }

  // Dropping a span can put a marker together.
  lemma DroppingCanMakeAMarker()
    ensures Feed(Step, START, [LESS, STAR, 97, STAR, BAR]) == CleanState([LESS, BAR])
  {
    var text := [LESS, STAR, 97, STAR, BAR];
    assert text[..2] == [] + [LESS] + [STAR] && text[..4] == text[..2] + [97] + [STAR] && text == text[..4] + [BAR];
    FeedOne(START, [], LESS);
    FeedOne(START, [] + [LESS], STAR);
    FeedOne(START, text[..2], 97);
    FeedOne(START, text[..2] + [97], STAR);
    FeedOne(START, text[..4], BAR);
  }

  lemma FedIsShown(fed: bytes)
    ensures Feed(Step, START, fed).out == Shown(Read(fed))
  {
    FeedReads([], fed);
    AfterMeans(Read(fed));
  }

  // ---- The scrubber as an object -------------------------------------------

  class StreamScrubber {
    var mode: Mode
    var held: bytes
    var pending: bytes
    ghost var fed: bytes       // since the last flush
    ghost var emitted: bytes

    ghost predicate Valid()
      reads this
    {
      State(mode, held, pending, emitted) == Stream.Feed(Step, START, fed)
    }

    constructor ()
      ensures Valid() && fed == [] && emitted == []
    {
      mode, held, pending := Clean, [], [];
      fed, emitted := [], [];
    }

    method Feed(delta: bytes) returns (out: bytes)
      requires Valid()
      modifies this
      ensures Valid()
      ensures fed == old(fed) + delta && emitted == old(emitted) + out
      ensures emitted == Shown(Read(fed))
    {
      out := [];
      assert fed + delta[..0] == fed && emitted + out == emitted;
      for i := 0 to |delta|
        invariant fed == old(fed) && emitted == old(emitted)
        invariant State(mode, held, pending, emitted + out) == Stream.Feed(Step, START, fed + delta[..i])
      {
        var ch := delta[i];
        FeedOne(START, fed + delta[..i], ch);
        assert fed + delta[..i + 1] == (fed + delta[..i]) + [ch];
        var piece := Take(ch);
        Assoc(emitted, out, piece);
        out := out + piece;
      }
      assert delta[..|delta|] == delta;
      fed, emitted := fed + delta, emitted + out;
      FedIsShown(fed);
    }

    // The body of the loop; `piece` is what it appends to the output.
    method Take(ch: byte) returns (piece: bytes)
      modifies this`mode, this`held, this`pending
      ensures forall before: bytes ::
                State(mode, held, pending, before + piece) == Step(State(old(mode), old(held), old(pending), before), ch)
    {
      piece := [];
      match mode {
        case Dead =>
        case Clean =>
          if ch == STAR {
            mode, held := Star, [STAR];
          } else if ch == LESS {
            mode, held := AngleOpen, [LESS];
          } else if ch == LEAD {
            mode, held := FullParen, [ch];
          } else {
            piece := [ch];
          }
        case Star =>
          held := held + [ch];
          if ch == STAR {
            mode, held := Clean, [];
          } else if ch == LF || |held| > HELD {
            piece := held;
            mode, held := Clean, [];
          }
        case FullParen =>
          held := held + [ch];
          if |held| == 3 {
            if held == OPEN {
              pending := [];
            } else {
              piece := held;
              mode, held := Clean, [];
            }
          } else if |held| > 3 {
            pending := pending + [ch];
            var close := HoldsClose(pending);
            if close {
              mode, held, pending := Clean, [], [];
            } else if |pending| > HELD {
              piece := held;
              mode, held, pending := Clean, [], [];
            }
          }
        case AngleOpen =>
          if ch == BAR {
            mode, held := Dead, [];
          } else {
            piece := held;
            mode, held := Clean, [];
            if ch == STAR {
              mode, held := Star, [STAR];
            } else if ch == LESS {
              mode, held := AngleOpen, [LESS];
            } else {
              piece := piece + [ch];
            }
          }
      }
    }

    // The end of the stream: of what is held only a lone '<' is let through.
    method Flush() returns (out: bytes)
      requires Valid()
      modifies this
      ensures out == if Held(Read(old(fed))) == [LESS] then [LESS] else []
      ensures Valid() && fed == [] && emitted == []
    {
      FeedReads([], fed);
      ReadFactors(fed);
      out := if mode == AngleOpen then held else [];
      mode, held, pending := Clean, [], [];
      fed, emitted := [], [];
    }
  }
}
