/** `SentenceSegmenter` (app/server/segmenter.cpp): a token stream cut into speakable
    segments. */
module Segmenter {
  import opened Bytes
  import opened Wrappers

  datatype Options = Options(firstMin: nat, firstWordCut: nat, max: nat)

  const MIN_CLAUSE: nat := 14

  predicate IsEnder(b: byte) { b == 46 || b == 33 || b == 63 }

  // What may follow an ASCII sentence ender: white space, a quote, ) or *.
  predicate IsAfter(b: byte) { IsSpace(b) || b == 34 || b == 39 || b == 41 || b == 42 }

  // The UTF-8 sequences of the CJK sentence enders and the ellipsis.
  const CJK_ENDERS: seq<bytes> := [[0xe3, 0x80, 0x82], [0xef, 0xbc, 0x81], [0xef, 0xbc, 0x9f], [0xef, 0xbc, 0x9b], [0xe2, 0x80, 0xa6]]
  const CJK_COMMAS: seq<bytes> := [[0xe3, 0x80, 0x81], [0xef, 0xbc, 0x8c]]

  // The end of the run of enders starting at i.
  function RunEnd(text: bytes, i: nat): (end: nat)
    requires i < |text|
    ensures i <= end < |text|
    decreases |text| - i
  {
    if i + 1 < |text| && IsEnder(text[i + 1]) then RunEnd(text, i + 1) else i
  }

  predicate Matches(text: bytes, i: nat, one: seq<bytes>) {
    i + 3 <= |text| && text[i..i + 3] in one
  }

  // How many bytes end a sentence at i; 0 if none do, or not yet.
  function SentenceEnd(text: bytes, i: nat): nat
    requires i < |text|
  {
    if IsEnder(text[i]) then
      var end := RunEnd(text, i);
      if end + 1 < |text| && IsAfter(text[end + 1]) then end - i + 1 else 0
    else if text[i] == LF then 1
    else if Matches(text, i, CJK_ENDERS) then 3
    else 0
  }

  predicate ClauseBreak(text: bytes, i: nat)
    requires i < |text|
  {
    if text[i] == 44 || text[i] == 59 || text[i] == 58 then i + 1 >= |text| || IsSpace(text[i + 1])
    else Matches(text, i, CJK_COMMAS)
  }

  // The first completed sentence at or after `from` ends before this position.
  function SentenceCut(text: bytes, from: nat): Option<nat>
    requires from <= |text|
    decreases |text| - from
  {
    if from == |text| then None
    else if SentenceEnd(text, from) > 0 then Some(from + SentenceEnd(text, from))
    else SentenceCut(text, from + 1)
  }

  // The last clause break below `upto`, not before MIN_CLAUSE.
  function ClauseCut(text: bytes, upto: nat): Option<nat>
    requires upto <= |text|
  {
    if upto <= MIN_CLAUSE then None
    else if ClauseBreak(text, upto - 1) then
      Some(upto - 1 + (if text[upto - 1] == 44 || text[upto - 1] == 59 || text[upto - 1] == 58 then 1 else 3))
    else ClauseCut(text, upto - 1)
  }

  // The last space below `upto`.
  function LastSpace(text: bytes, upto: nat): (at: Option<nat>)
    requires upto <= |text|
    ensures at.Some? ==> at.value < upto
  {
    if upto == 0 then None
    else if text[upto - 1] == SPACE then Some(upto - 1)
    else LastSpace(text, upto - 1)
  }

  function ForceCut(max: nat, text: bytes): nat
    requires max <= |text|
  {
    var space := LastSpace(text, if max < |text| then max + 1 else |text|);
    if space.Some? && space.value > 0 then space.value else max
  }

  function NextCut(o: Options, emitted: bool, text: bytes): Option<nat> {
    var sentence := SentenceCut(text, 0);
    var clause := if !emitted && |text| >= o.firstMin then ClauseCut(text, |text|) else None;
    var space := LastSpace(text, |text|);
    if sentence.Some? then sentence
    else if clause.Some? then clause
    else if !emitted && |text| >= o.firstWordCut && space.Some? && space.value >= MIN_CLAUSE then space
    else if |text| >= o.max then Some(ForceCut(o.max, text))
    else None
  }

  lemma {:induction false} SentenceCutBounds(text: bytes, from: nat)
    requires from <= |text|
    ensures SentenceCut(text, from).Some? ==> from < SentenceCut(text, from).value <= |text|
    decreases |text| - from
  {
    if from < |text| && SentenceEnd(text, from) == 0 { SentenceCutBounds(text, from + 1); }
  }

  lemma {:induction false} ClauseCutBounds(text: bytes, upto: nat)
    requires upto <= |text|
    ensures ClauseCut(text, upto).Some? ==> MIN_CLAUSE < ClauseCut(text, upto).value <= |text|
  {
    if upto > MIN_CLAUSE && !ClauseBreak(text, upto - 1) { ClauseCutBounds(text, upto - 1); }
  }

  // Every cut makes progress, unless max_segment_chars is 0.
  lemma CutBounds(o: Options, emitted: bool, text: bytes)
    requires o.max >= 1
    ensures NextCut(o, emitted, text).Some? ==> 0 < NextCut(o, emitted, text).value <= |text|
  {
    SentenceCutBounds(text, 0);
    ClauseCutBounds(text, |text|);
  }

  // One round of the loop: the flag and the pending text after it. None if it returns.
  function Round(o: Options, emitted: bool, text: bytes): Option<(bool, bytes)> {
    match NextCut(o, emitted, text)
    case None => None
    case Some(at) =>
      var cut := if at < |text| then at else |text|;
      Some((emitted || Trim(text[..cut]) != [], text[cut..]))
  }

  // Where the loop stands after n rounds, or None once it has returned.
  function Rounds(o: Options, emitted: bool, text: bytes, n: nat): Option<(bool, bytes)>
    decreases n
  {
    if n == 0 then Some((emitted, text))
    else
      match Round(o, emitted, text)
      case None => None
      case Some((flag, rest)) => Rounds(o, flag, rest, n - 1)
  }

  lemma RoundShortens(o: Options, emitted: bool, text: bytes)
    requires o.max >= 1 && Round(o, emitted, text).Some?
    ensures |Round(o, emitted, text).value.1| < |text|
  {
    CutBounds(o, emitted, text);
  }

  lemma {:induction false} EndsInTime(o: Options, emitted: bool, text: bytes, n: nat)
    requires o.max >= 1 && n > |text|
    ensures Rounds(o, emitted, text, n).None?
    decreases n
  {
    var next := Round(o, emitted, text);
    if next.Some? {
      RoundShortens(o, emitted, text);
      EndsInTime(o, next.value.0, next.value.1, n - 1);
    }
  }

  lemma {:induction false} NeverEnds(o: Options, emitted: bool, text: bytes, n: nat)
    requires o.max == 0
    ensures Rounds(o, emitted, text, n).Some?
    decreases n
  {
    if n > 0 {
      var next := Round(o, emitted, text);
      assert NextCut(o, emitted, text).Some?;
      NeverEnds(o, next.value.0, next.value.1, n - 1);
    }
  }

  // The loop returns, on any text, exactly if max_segment_chars is not 0.
  lemma LoopEndsIff(o: Options, emitted: bool, text: bytes)
    ensures (exists n: nat :: Rounds(o, emitted, text, n).None?) <==> o.max >= 1
  {
    if o.max >= 1 {
      EndsInTime(o, emitted, text, |text| + 1);
    } else {
      forall n: nat ensures Rounds(o, emitted, text, n).Some? { NeverEnds(o, emitted, text, n); }
    }
  }

  // With max_segment_chars 0, once the text is used up every further round leaves
  // everything as it is.
  lemma {:induction false} NoProgressAtZero(o: Options, emitted: bool, n: nat)
    requires o.max == 0
    ensures Rounds(o, emitted, [], n) == Some((emitted, []))
  {
    assert Round(o, emitted, []) == Some((emitted, []));
    if n > 0 { NoProgressAtZero(o, emitted, n - 1); }
  }

  // What one pass of the loop gives: the segments, the flag, and the pending text.
  datatype Taken = Taken(ready: seq<bytes>, emitted: bool, pending: bytes)

  function Prepend(segment: bytes, t: Taken): Taken {
    if segment == [] then t else Taken([segment] + t.ready, t.emitted, t.pending)
  }

  // First a, then b.
  function Join(a: Taken, b: Taken): Taken { Taken(a.ready + b.ready, b.emitted, b.pending) }

  lemma JoinPrepend(segment: bytes, a: Taken, b: Taken)
    ensures Join(Prepend(segment, a), b) == Prepend(segment, Join(a, b))
  {
    assert ([segment] + a.ready) + b.ready == [segment] + (a.ready + b.ready);
  }

  function TakeReady(o: Options, emitted: bool, text: bytes): Taken
    requires o.max >= 1
    decreases |text|
  {
    CutBounds(o, emitted, text);
    match NextCut(o, emitted, text)
    case None => Taken([], emitted, text)
    case Some(cut) =>
      var segment := Trim(text[..cut]);
      var more := TakeReady(o, emitted || segment != [], text[cut..]);
      Prepend(segment, more)
  }

  // -------------------------------------------------------------------------
  // Nothing but white space is lost
  // -------------------------------------------------------------------------

  predicate Blank(s: bytes) { forall i | 0 <= i < |s| :: IsSpace(s[i]) }

  // The pads and the segments in turn, then `rest`.
  function Weave(pads: seq<bytes>, segments: seq<bytes>, rest: bytes): bytes
    requires |pads| == |segments| + 1
    decreases |segments|
  {
    if segments == [] then pads[0] + rest
    else pads[0] + (segments[0] + Weave(pads[1..], segments[1..], rest))
  }

  predicate Weaves(pads: seq<bytes>, segments: seq<bytes>, rest: bytes, text: bytes) {
    |pads| == |segments| + 1 && (forall p <- pads :: Blank(p)) && text == Weave(pads, segments, rest)
  }

  // `text` is the segments in order and then `rest`, with only white space
  // between, before the first and before the rest.
  ghost predicate Spaced(segments: seq<bytes>, rest: bytes, text: bytes) {
    exists pads :: Weaves(pads, segments, rest, text)
  }

  lemma {:induction false} TrimSpaced(s: bytes) returns (front: bytes, back: bytes)
    ensures Blank(front) && Blank(back) && s == front + (Trim(s) + back)
    decreases |s|
  {
    if s == [] {
      front, back := [], [];
    } else if IsSpace(s[0]) {
      front, back := TrimSpaced(s[1..]);
      Assoc([s[0]], front, Trim(s) + back);
      assert s == [s[0]] + s[1..];
      front := [s[0]] + front;
    } else if IsSpace(s[|s| - 1]) {
      var t, last := s[..|s| - 1], [s[|s| - 1]];
      front, back := TrimSpaced(t);
      assert s == t + last;
      Assoc(front, Trim(s) + back, last);
      Assoc(Trim(s), back, last);
      back := back + last;
    } else {
      front, back := [], [];
      assert [] + (s + []) == s;
    }
  }

  // A segment put in front of a spaced text.
  lemma ConsSpaced(pad: bytes, segment: bytes, segments: seq<bytes>, rest: bytes, text: bytes)
    requires Blank(pad) && Spaced(segments, rest, text)
    ensures Spaced([segment] + segments, rest, pad + (segment + text))
  {
    var pads :| Weaves(pads, segments, rest, text);
    var all := [segment] + segments;
    assert ([pad] + pads)[1..] == pads && all[1..] == segments;
    assert Weaves([pad] + pads, all, rest, pad + (segment + text));
  }

  // A spaced text with a segment comes apart again.
  lemma UnconsSpaced(segments: seq<bytes>, rest: bytes, text: bytes) returns (pad: bytes, tail: bytes)
    requires segments != [] && Spaced(segments, rest, text)
    ensures Blank(pad) && text == pad + (segments[0] + tail) && Spaced(segments[1..], rest, tail)
  {
    var pads :| Weaves(pads, segments, rest, text);
    pad, tail := pads[0], Weave(pads[1..], segments[1..], rest);
    assert Weaves(pads[1..], segments[1..], rest, tail);
  }

  lemma NoneSpaced(pad: bytes, rest: bytes)
    requires Blank(pad)
    ensures Spaced([], rest, pad + rest)
  {
    assert Weaves([pad], [], rest, pad + rest);
  }

  lemma PadSpaced(pad: bytes, segments: seq<bytes>, rest: bytes, text: bytes)
    requires Blank(pad) && Spaced(segments, rest, text)
    ensures Spaced(segments, rest, pad + text)
  {
    if segments == [] {
      var pads :| Weaves(pads, segments, rest, text);
      assert pads[0] in pads;
      Assoc(pad, pads[0], rest);
      NoneSpaced(pad + pads[0], rest);
    } else {
      var front, tail := UnconsSpaced(segments, rest, text);
      Assoc(pad, front, segments[0] + tail);
      ConsSpaced(pad + front, segments[0], segments[1..], rest, tail);
      assert [segments[0]] + segments[1..] == segments;
    }
  }

  lemma {:induction false} SpacedCompose(a: seq<bytes>, b: seq<bytes>, middle: bytes, rest: bytes, text: bytes)
    requires Spaced(a, middle, text) && Spaced(b, rest, middle)
    ensures Spaced(a + b, rest, text)
    decreases |a|
  {
    if a == [] {
      var pads :| Weaves(pads, a, middle, text);
      PadSpaced(pads[0], b, rest, middle);
      assert a + b == b;
    } else {
      var pad, tail := UnconsSpaced(a, middle, text);
      SpacedCompose(a[1..], b, middle, rest, tail);
      ConsSpaced(pad, a[0], a[1..] + b, rest, tail);
      assert [a[0]] + (a[1..] + b) == a + b;
    }
  }

  lemma {:induction false} SpacedExtend(segments: seq<bytes>, rest: bytes, text: bytes, more: bytes)
    requires Spaced(segments, rest, text)
    ensures Spaced(segments, rest + more, text + more)
    decreases |segments|
  {
    if segments == [] {
      var pads :| Weaves(pads, segments, rest, text);
      Assoc(pads[0], rest, more);
      NoneSpaced(pads[0], rest + more);
    } else {
      var pad, tail := UnconsSpaced(segments, rest, text);
      SpacedExtend(segments[1..], rest, tail, more);
      ConsSpaced(pad, segments[0], segments[1..], rest + more, tail + more);
      assert [segments[0]] + segments[1..] == segments;
      Assoc(pad, segments[0] + tail, more);
      Assoc(segments[0], tail, more);
    }
  }

  // One segment cut off the front: `head` trimmed, or nothing if it was blank.
  lemma SegmentSpaced(head: bytes, tail: bytes)
    ensures Spaced(if Trim(head) == [] then [] else [Trim(head)], tail, head + tail)
  {
    var front, back := TrimSpaced(head);
    if Trim(head) == [] {
      assert front + ([] + back) == front + back;
      NoneSpaced(front + back, tail);
    } else {
      NoneSpaced(back, tail);
      ConsSpaced(front, Trim(head), [], tail, back + tail);
      assert [Trim(head)] + [] == [Trim(head)];
      Assoc(front, Trim(head) + back, tail);
      Assoc(Trim(head), back, tail);
    }
  }

  lemma CutSpaced(text: bytes, cut: nat, ready: seq<bytes>, pending: bytes)
    requires cut <= |text| && Spaced(ready, pending, text[cut..])
    ensures var segment := Trim(text[..cut]);
            Spaced(if segment == [] then ready else [segment] + ready, pending, text)
  {
    SegmentSpaced(text[..cut], text[cut..]);
    assert text == text[..cut] + text[cut..];
    var segment := Trim(text[..cut]);
    SpacedCompose(if segment == [] then [] else [segment], ready, text[cut..], pending, text);
    assert [] + ready == ready;
  }

  // The pending text after a pass is shorter than the limit, and with the segments
  // it is the text given, only white space apart.
  lemma {:induction false} TakeReadyLosesNothing(o: Options, emitted: bool, text: bytes)
    requires o.max >= 1
    ensures var t := TakeReady(o, emitted, text);
            && Spaced(t.ready, t.pending, text) && |t.pending| < o.max
            && (forall s <- t.ready :: s != [])
            && (t.emitted <==> emitted || t.ready != [])
    decreases |text|
  {
    CutBounds(o, emitted, text);
    match NextCut(o, emitted, text)
    case None =>
      NoneSpaced([], text);
      assert [] + text == text;
    case Some(cut) =>
      var segment := Trim(text[..cut]);
      var more := TakeReady(o, emitted || segment != [], text[cut..]);
      TakeReadyLosesNothing(o, emitted || segment != [], text[cut..]);
      CutSpaced(text, cut, more.ready, more.pending);
  }

  // ---- Any number of deltas ------------------------------------------------

  datatype State = State(pending: bytes, emitted: bool)

  function FeedAll(o: Options, s: State, deltas: seq<bytes>): Taken
    requires o.max >= 1
    decreases |deltas|
  {
    if deltas == [] then Taken([], s.emitted, s.pending)
    else
      var t := TakeReady(o, s.emitted, s.pending + deltas[0]);
      var more := FeedAll(o, State(t.pending, t.emitted), deltas[1..]);
      Taken(t.ready + more.ready, more.emitted, more.pending)
  }

  lemma {:induction false} FeedAllLosesNothing(o: Options, s: State, deltas: seq<bytes>)
    requires o.max >= 1
    ensures Spaced(FeedAll(o, s, deltas).ready, FeedAll(o, s, deltas).pending, s.pending + Flatten(deltas))
    decreases |deltas|
  {
    if deltas == [] {
      assert s.pending + [] == s.pending && [] + s.pending == s.pending;
      NoneSpaced([], s.pending);
    } else {
      var text := s.pending + deltas[0];
      var t := TakeReady(o, s.emitted, text);
      var more := FeedAll(o, State(t.pending, t.emitted), deltas[1..]);
      TakeReadyLosesNothing(o, s.emitted, text);
      SpacedExtend(t.ready, t.pending, text, Flatten(deltas[1..]));
      FeedAllLosesNothing(o, State(t.pending, t.emitted), deltas[1..]);
      SpacedCompose(t.ready, more.ready, t.pending + Flatten(deltas[1..]), more.pending, text + Flatten(deltas[1..]));
      Assoc(s.pending, deltas[0], Flatten(deltas[1..]));
    }
  }

  // A whole reply: the segments of every delta, then what flush returns.
  function Spoken(o: Options, deltas: seq<bytes>): seq<bytes>
    requires o.max >= 1
  {
    var t := FeedAll(o, State([], false), deltas);
    t.ready + (if Trim(t.pending) == [] then [] else [Trim(t.pending)])
  }

  // The segments of a reply are the reply, in order, with only white space lost
  // between them.
  lemma ReplyLosesNothing(o: Options, deltas: seq<bytes>)
    requires o.max >= 1
    ensures Spaced(Spoken(o, deltas), [], Flatten(deltas))
  {
    var t := FeedAll(o, State([], false), deltas);
    FeedAllLosesNothing(o, State([], false), deltas);
    assert [] + Flatten(deltas) == Flatten(deltas);
    SegmentSpaced(t.pending, []);
    assert t.pending + [] == t.pending;
    SpacedCompose(t.ready, if Trim(t.pending) == [] then [] else [Trim(t.pending)], t.pending, [], Flatten(deltas));
  }

  // -------------------------------------------------------------------------
  // The deltas do not matter
  // -------------------------------------------------------------------------

  lemma {:induction false} RunInPrefix(p: bytes, q: bytes, i: nat)
    requires i < |p|
    ensures RunEnd(p, i) + 1 < |p| ==> RunEnd(p + q, i) == RunEnd(p, i)
    decreases |p| - i
  {
    if i + 1 < |p| && IsEnder(p[i + 1]) { RunInPrefix(p, q, i + 1); }
  }

  // A run that reaches the end of the text takes every position after it along.
  lemma {:induction false} RunToTheEnd(p: bytes, j: nat, i: nat)
    requires j <= i < |p| && IsEnder(p[j]) && RunEnd(p, j) + 1 == |p|
    ensures IsEnder(p[i]) && RunEnd(p, i) + 1 == |p|
    decreases i - j
  {
    if j < i { RunToTheEnd(p, j + 1, i); }
  }

  lemma EndInPrefix(p: bytes, q: bytes, i: nat)
    requires i < |p| && SentenceEnd(p, i) > 0
    ensures SentenceEnd(p + q, i) == SentenceEnd(p, i)
  {
    if IsEnder(p[i]) {
      RunInPrefix(p, q, i);
    } else if p[i] != LF {
      assert (p + q)[i..i + 3] == p[i..i + 3];
    }
  }

  // More text cannot turn an earlier position into a sentence end once a later one
  // is one.
  lemma NoEarlierEnd(p: bytes, q: bytes, j: nat, i: nat)
    requires j < i < |p| && SentenceEnd(p, j) == 0 && SentenceEnd(p, i) > 0
    ensures SentenceEnd(p + q, j) == 0
  {
    var text := p + q;
    assert j + 3 <= |p| ==> text[j..j + 3] == p[j..j + 3];
    if IsEnder(p[j]) {
      if RunEnd(p, j) + 1 == |p| {
        RunToTheEnd(p, j, i);
      } else {
        RunInPrefix(p, q, j);
      }
    } else if j + 3 > |p| && Matches(text, j, CJK_ENDERS) {
      CjkTail(text, j, i - j);
    }
  }

  lemma CjkTail(text: bytes, j: nat, k: nat)
    requires Matches(text, j, CJK_ENDERS) && 1 <= k <= 2
    ensures 0x80 <= text[j + k] < 0xc0
  {
    assert text[j..j + 3][k] == text[j + k];
  }

  lemma {:induction false} SentenceCutFirst(text: bytes, from: nat) returns (i: nat)
    requires from <= |text| && SentenceCut(text, from).Some?
    ensures from <= i < |text| && SentenceEnd(text, i) > 0 && SentenceCut(text, from) == Some(i + SentenceEnd(text, i))
    ensures forall j | from <= j < i :: SentenceEnd(text, j) == 0
    decreases |text| - from
  {
    if SentenceEnd(text, from) > 0 { i := from; } else { i := SentenceCutFirst(text, from + 1); }
  }

  lemma {:induction false} SentenceCutAt(text: bytes, from: nat, i: nat)
    requires from <= i < |text| && SentenceEnd(text, i) > 0
    requires forall j | from <= j < i :: SentenceEnd(text, j) == 0
    ensures SentenceCut(text, from) == Some(i + SentenceEnd(text, i))
    decreases i - from
  {
    if from < i { SentenceCutAt(text, from + 1, i); }
  }

  lemma SentenceCutInPrefix(p: bytes, q: bytes)
    requires SentenceCut(p, 0).Some?
    ensures SentenceCut(p + q, 0) == SentenceCut(p, 0)
  {
    var i := SentenceCutFirst(p, 0);
    EndInPrefix(p, q, i);
    forall j | 0 <= j < i ensures SentenceEnd(p + q, j) == 0 {
      NoEarlierEnd(p, q, j, i);
    }
    SentenceCutAt(p + q, 0, i);
  }

  // The force split does not fire on this text once the opener is out.
  predicate NoForce(o: Options, text: bytes)
    decreases |text|
  {
    SentenceCutBounds(text, 0);
    match SentenceCut(text, 0)
    case None => |text| < o.max
    case Some(cut) => NoForce(o, text[cut..])
  }

  // A pass of the loop once the opener is out.
  function Steady(o: Options, text: bytes): Taken
    requires o.max >= 1
    decreases |text|
  {
    SentenceCutBounds(text, 0);
    match SentenceCut(text, 0)
    case Some(cut) => Prepend(Trim(text[..cut]), Steady(o, text[cut..]))
    case None =>
      if |text| < o.max then Taken([], true, text)
      else Prepend(Trim(text[..ForceCut(o.max, text)]), Steady(o, text[ForceCut(o.max, text)..]))
  }

  lemma {:induction false} SteadyIsTakeReady(o: Options, text: bytes)
    requires o.max >= 1
    ensures TakeReady(o, true, text) == Steady(o, text)
    decreases |text|
  {
    CutBounds(o, true, text);
    if NextCut(o, true, text).Some? {
      SteadyIsTakeReady(o, text[NextCut(o, true, text).value..]);
    }
  }

  lemma SteadyCut(o: Options, text: bytes, cut: nat)
    requires o.max >= 1 && SentenceCut(text, 0) == Some(cut)
    ensures cut <= |text| && Steady(o, text) == Prepend(Trim(text[..cut]), Steady(o, text[cut..]))
  {
    SentenceCutBounds(text, 0);
  }

  lemma {:induction false} SteadySplit(o: Options, p: bytes, q: bytes)
    requires o.max >= 1 && NoForce(o, p)
    ensures Steady(o, p + q) == Join(Steady(o, p), Steady(o, Steady(o, p).pending + q))
    decreases |p|
  {
    SentenceCutBounds(p, 0);
    if SentenceCut(p, 0).None? {
      assert Steady(o, p) == Taken([], true, p);
      JoinNothing(p, Steady(o, p + q));
    } else {
      var cut := SentenceCut(p, 0).value;
      SteadySplit(o, p[cut..], q);
      SentenceCutInPrefix(p, q);
      PrefixCut(p, q, cut);
      SteadyCut(o, p, cut);
      SteadyCut(o, p + q, cut);
      var more := Steady(o, p[cut..]);
      JoinPrepend(Trim(p[..cut]), more, Steady(o, more.pending + q));
    }
  }

  lemma PrefixCut(p: bytes, q: bytes, cut: nat)
    requires cut <= |p|
    ensures (p + q)[..cut] == p[..cut] && (p + q)[cut..] == p[cut..] + q
  {
  }

  lemma JoinNothing(p: bytes, t: Taken)
    ensures Join(Taken([], true, p), t) == t
  {
    assert [] + t.ready == t.ready;
  }

  // Taking from p + q is taking from p, then from what it left with q.
  lemma TakeReadySplit(o: Options, p: bytes, q: bytes)
    requires o.max >= 1 && NoForce(o, p)
    ensures var first := TakeReady(o, true, p);
            TakeReady(o, true, p + q) == Join(first, TakeReady(o, true, first.pending + q))
  {
    SteadySplit(o, p, q);
    SteadyIsTakeReady(o, p);
    SteadyIsTakeReady(o, p + q);
    SteadyIsTakeReady(o, Steady(o, p).pending + q);
  }

  lemma EmittedStays(o: Options, text: bytes)
    requires o.max >= 1
    ensures TakeReady(o, true, text).emitted
  {
    TakeReadyLosesNothing(o, true, text);
  }

  // No delta of the sequence makes the force split fire.
  predicate NeverForced(o: Options, pending: bytes, deltas: seq<bytes>)
    requires o.max >= 1
    decreases |deltas|
  {
    deltas == [] ||
    (NoForce(o, pending + deltas[0]) && NeverForced(o, TakeReady(o, true, pending + deltas[0]).pending, deltas[1..]))
  }

  // What a pass leaves pending gives nothing more by itself.
  lemma LeftoverIsQuiet(o: Options, text: bytes)
    requires o.max >= 1 && NoForce(o, text)
    ensures var t := TakeReady(o, true, text); TakeReady(o, true, t.pending) == Taken([], true, t.pending)
  {
    TakeReadySplit(o, text, []);
    EmittedStays(o, text);
    var t := TakeReady(o, true, text);
    assert text + [] == text && t.pending + [] == t.pending;
    var again := TakeReady(o, true, t.pending);
    assert |t.ready + again.ready| == |t.ready| + |again.ready|;
  }

  // After the first segment, the segments are those of the concatenated text.
  lemma {:induction false} DeltasDoNotMatter(o: Options, pending: bytes, deltas: seq<bytes>)
    requires o.max >= 1 && NeverForced(o, pending, deltas) && TakeReady(o, true, pending) == Taken([], true, pending)
    ensures FeedAll(o, State(pending, true), deltas) == TakeReady(o, true, pending + Flatten(deltas))
    decreases |deltas|
  {
    if deltas == [] {
      assert pending + [] == pending;
    } else {
      var text := pending + deltas[0];
      var t := TakeReady(o, true, text);
      EmittedStays(o, text);
      LeftoverIsQuiet(o, text);
      DeltasDoNotMatter(o, t.pending, deltas[1..]);
      TakeReadySplit(o, text, Flatten(deltas[1..]));
      Assoc(pending, deltas[0], Flatten(deltas[1..]));
    }
  }

  function Letters(n: nat): (s: bytes)
    ensures |s| == n
  {
    seq(n, _ => 97)
  }

  // Letters give no cut: the first is where they end.
  lemma {:induction false} LettersAreUncut(text: bytes, n: nat, from: nat)
    requires from <= n <= |text| && text[..n] == Letters(n) && (n < |text| ==> SentenceEnd(text, n) > 0)
    ensures SentenceCut(text, from) == if n < |text| then Some(n + SentenceEnd(text, n)) else None
    decreases n - from
  {
    if from < n {
      assert text[from] == text[..n][from] == 97;
      LettersAreUncut(text, n, from + 1);
    }
  }

  lemma {:induction false} LettersHaveNoSpace(n: nat, upto: nat)
    requires upto <= n
    ensures LastSpace(Letters(n), upto) == None
  {
    if upto > 0 { LettersHaveNoSpace(n, upto - 1); }
  }

  lemma LettersAlone(o: Options)
    requires o.max >= 1
    ensures var t := TakeReady(o, true, Letters(o.max)); |t.ready| > 0 && t.ready[0] == Letters(o.max)
  {
    var a := Letters(o.max);
    assert a[..o.max] == a;
    LettersAreUncut(a, o.max, 0);
    LettersHaveNoSpace(o.max, o.max);
    assert NextCut(o, true, a) == Some(o.max) && Trim(a) == a;
  }

  lemma LettersWithDot(o: Options)
    requires o.max >= 1
    ensures var t := TakeReady(o, true, Letters(o.max) + [46, 32]); |t.ready| > 0 && t.ready[0] == Letters(o.max) + [46]
  {
    var all, n := Letters(o.max) + [46, 32], o.max;
    assert all[n + 1] == 32 && all[n] == 46;
    assert RunEnd(all, n) == n && SentenceEnd(all, n) == 1;
    assert all[..n] == Letters(n);
    LettersAreUncut(all, n, 0);
    assert all[..n + 1] == Letters(n) + [46];
    assert Trim(Letters(n) + [46]) == Letters(n) + [46];
  }

  // With the force split the deltas can matter, whatever the limit: as many letters as
  // it allows, and ". ", fed one after the other are cut before the full stop, fed
  // together after it.
  lemma ForceSplitDependsOnDeltas(o: Options)
    requires o.max >= 1
    ensures FeedAll(o, State([], true), [Letters(o.max), [46, 32]]).ready
         != TakeReady(o, true, Flatten([Letters(o.max), [46, 32]])).ready
  {
    var a, dot: bytes := Letters(o.max), [46, 32];
    var deltas := [a, dot];
    assert [] + a == a && deltas[1..] == [dot] && [dot][1..] == [] && dot + [] == dot;
    assert Flatten(deltas) == a + Flatten(deltas[1..]) == a + dot;
    LettersAlone(o);
    LettersWithDot(o);
    assert FeedAll(o, State([], true), deltas).ready[0] == a;
  }

  // ---- The segmenter as an object ------------------------------------------

  // One round of the loop, beside the segments it has already found.
  lemma TakeOneMore(o: Options, emitted: bool, text: bytes, ready: seq<bytes>)
    requires o.max >= 1 && NextCut(o, emitted, text).Some?
    requires NextCut(o, emitted, text).value <= |text|
    ensures var cut := NextCut(o, emitted, text).value;
            var segment := Trim(text[..cut]);
            var all, more := TakeReady(o, emitted, text), TakeReady(o, emitted || segment != [], text[cut..]);
            && all.emitted == more.emitted && all.pending == more.pending
            && ready + all.ready == (if segment == [] then ready else ready + [segment]) + more.ready
  {
    var cut := NextCut(o, emitted, text).value;
    var segment := Trim(text[..cut]);
    var more := TakeReady(o, emitted || segment != [], text[cut..]);
    assert ready + ([segment] + more.ready) == (ready + [segment]) + more.ready;
  }

  class SentenceSegmenter {
    const options: Options
    var pending: bytes
    var firstEmitted: bool

    constructor (options: Options)
      requires options.max >= 1
      ensures this.options == options && pending == [] && !firstEmitted
    {
      this.options := options;
      pending, firstEmitted := [], false;
    }

    method FindCut() returns (cut: Option<nat>)
      ensures cut == NextCut(options, firstEmitted, pending)
    {
      cut := None;
      var index: nat := 0;
      while index < |pending| && cut.None?
        invariant index <= |pending|
        invariant SentenceCut(pending, 0) == if cut.Some? then cut else SentenceCut(pending, index)
      {
        var len := SentenceEnd(pending, index);
        if len > 0 { cut := Some(index + len); }
        index := index + 1;
      }
      if cut.None? && !firstEmitted && |pending| >= options.firstMin {
        index := |pending|;
        while index > MIN_CLAUSE && cut.None?
          invariant index <= |pending|
          invariant ClauseCut(pending, |pending|) == if cut.Some? then cut else ClauseCut(pending, index)
        {
          index := index - 1;
          if ClauseBreak(pending, index) {
            var ch := pending[index];
            cut := Some(index + (if ch == 44 || ch == 59 || ch == 58 then 1 else 3));
          }
        }
      }
      if cut.None? && !firstEmitted && |pending| >= options.firstWordCut {
        var space := LastSpace(pending, |pending|);
        if space.Some? && space.value >= MIN_CLAUSE { cut := space; }
      }
      if cut.None? && |pending| >= options.max {
        cut := Some(ForceCut(options.max, pending));
      }
    }

    method DrainReady() returns (ready: seq<bytes>)
      requires options.max >= 1
      modifies this
      ensures Taken(ready, firstEmitted, pending) == TakeReady(options, old(firstEmitted), old(pending))
    {
      ready := [];
      ghost var target := TakeReady(options, firstEmitted, pending);
      while true
        invariant var rest := TakeReady(options, firstEmitted, pending);
                  target == Taken(ready + rest.ready, rest.emitted, rest.pending)
        decreases |pending|
      {
        CutBounds(options, firstEmitted, pending);
        var cut := FindCut();
        if cut.None? {
          assert ready + [] == ready;
          return;
        }
        var segment := Trim(pending[..cut.value]);
        TakeOneMore(options, firstEmitted, pending, ready);
        pending := pending[cut.value..];
        if segment != [] {
          ready := ready + [segment];
          firstEmitted := true;
        }
      }
    }

    // Everything fed is in the segments and the pending text, white space apart, and
    // the pending text stays below the limit.
    method Feed(delta: bytes) returns (ready: seq<bytes>)
      requires options.max >= 1
      modifies this
      ensures Taken(ready, firstEmitted, pending) == TakeReady(options, old(firstEmitted), old(pending) + delta)
      ensures Spaced(ready, pending, old(pending) + delta) && |pending| < options.max
    {
      TakeReadyLosesNothing(options, firstEmitted, pending + delta);
      pending := pending + delta;
      ready := DrainReady();
    }

    method Flush() returns (segment: bytes)
      modifies this
      ensures segment == Trim(old(pending)) && pending == [] && firstEmitted == old(firstEmitted)
      ensures Spaced(if segment == [] then [] else [segment], [], old(pending))
    {
      SegmentSpaced(pending, []);
      assert pending + [] == pending;
      segment := Trim(pending);
      pending := [];
    }
  }
}
