/** Where the segmenter cuts (app/server/segmenter.cpp), said of the bytes of the text
    and not of the searches that find the place. */
module SegmentCuts {
  import opened Bytes
  import opened Wrappers
  import opened Segmenter

  predicate IsWhite(b: byte) { b == 32 || 9 <= b <= 13 }

  // A full stop, an exclamation mark and a question mark.
  predicate IsStop(b: byte) { b == 46 || b == 33 || b == 63 }

  // White space, either quote, a closing parenthesis or a star.
  predicate IsCloser(b: byte) { IsWhite(b) || b == 34 || b == 39 || b == 41 || b == 42 }

  // Ideographic full stop, full-width exclamation mark, question mark and semicolon, and
  // the ellipsis.
  predicate IsCjkStop(x: byte, y: byte, z: byte) {
    || (x == 0xE3 && y == 0x80 && z == 0x82)
    || (x == 0xEF && y == 0xBC && (z == 0x81 || z == 0x9F || z == 0x9B))
    || (x == 0xE2 && y == 0x80 && z == 0xA6)
  }

  // Ideographic and full-width comma.
  predicate IsCjkComma(x: byte, y: byte, z: byte) {
    (x == 0xE3 && y == 0x80 && z == 0x81) || (x == 0xEF && y == 0xBC && z == 0x8C)
  }

  lemma MatchesAre(text: bytes, i: nat)
    ensures Matches(text, i, CJK_ENDERS) <==> i + 3 <= |text| && IsCjkStop(text[i], text[i + 1], text[i + 2])
    ensures Matches(text, i, CJK_COMMAS) <==> i + 3 <= |text| && IsCjkComma(text[i], text[i + 1], text[i + 2])
  {
    if i + 3 <= |text| { assert text[i..i + 3] == [text[i], text[i + 1], text[i + 2]]; }
  }

  // ---- Sentences -----------------------------------------------------------

  // A sentence ends just before e: with a stop that something but a stop follows, with a
  // line feed, or with a CJK stop.
  predicate SentenceEndsAt(text: bytes, e: nat) {
    1 <= e <= |text| &&
    ( || (IsStop(text[e - 1]) && e < |text| && IsCloser(text[e]))
      || text[e - 1] == 10
      || (e >= 3 && IsCjkStop(text[e - 3], text[e - 2], text[e - 1])))
  }

  predicate NoSentenceBefore(text: bytes, n: nat) { forall e: nat | e < n :: !SentenceEndsAt(text, e) }

  lemma {:induction false} RunEndIs(text: bytes, i: nat)
    requires i < |text|
    ensures var end := RunEnd(text, i);
            && (forall k | i < k <= end :: IsStop(text[k]))
            && (end + 1 < |text| ==> !IsStop(text[end + 1]))
    decreases |text| - i
  {
    if i + 1 < |text| && IsEnder(text[i + 1]) { RunEndIs(text, i + 1); }
  }

  // What the search finds at i ends a sentence, and none ends inside it.
  lemma EndFromStart(text: bytes, i: nat)
    requires i < |text| && SentenceEnd(text, i) > 0
    ensures SentenceEndsAt(text, i + SentenceEnd(text, i))
    ensures forall e | i < e < i + SentenceEnd(text, i) :: !SentenceEndsAt(text, e)
  {
    MatchesAre(text, i);
    RunEndIs(text, i);
  }

  // A sentence that ends at e is found at its last character.
  lemma StartFromEnd(text: bytes, e: nat) returns (i: nat)
    requires SentenceEndsAt(text, e)
    ensures i < e && SentenceEnd(text, i) == e - i
  {
    if text[e - 1] == 10 || IsStop(text[e - 1]) {
      i := e - 1;
    } else {
      i := e - 3;
      MatchesAre(text, i);
    }
  }

  predicate NothingFrom(text: bytes, from: nat, i: nat)
    requires i <= |text|
  {
    forall k | from <= k < i :: SentenceEnd(text, k) == 0
  }

  lemma {:induction false} NothingFound(text: bytes, from: nat)
    requires from <= |text| && SentenceCut(text, from) == None
    ensures NothingFrom(text, from, |text|)
    decreases |text| - from
  {
    if from < |text| { NothingFound(text, from + 1); }
  }

  lemma {:induction false} FirstFound(text: bytes, from: nat) returns (i: nat)
    requires from <= |text| && SentenceCut(text, from).Some?
    ensures from <= i < |text| && SentenceEnd(text, i) > 0 && SentenceCut(text, from).value == i + SentenceEnd(text, i)
    ensures NothingFrom(text, from, i)
    decreases |text| - from
  {
    if SentenceEnd(text, from) > 0 {
      i := from;
    } else {
      i := FirstFound(text, from + 1);
    }
  }

  lemma EndsNoEarlier(text: bytes, i: nat, e: nat)
    requires i < |text| && SentenceEnd(text, i) > 0 && NothingFrom(text, 0, i) && SentenceEndsAt(text, e)
    ensures e >= i + SentenceEnd(text, i)
  {
    EndFromStart(text, i);
    var k := StartFromEnd(text, e);
    assert k >= i;
  }

  lemma NoCutNoEnd(text: bytes)
    requires SentenceCut(text, 0).None?
    ensures NoSentenceBefore(text, |text| + 1)
  {
    NothingFound(text, 0);
    forall e: nat ensures !SentenceEndsAt(text, e) {
      if SentenceEndsAt(text, e) { var k := StartFromEnd(text, e); }
    }
  }

  lemma CutIsEnd(text: bytes)
    requires SentenceCut(text, 0).Some?
    ensures SentenceEndsAt(text, SentenceCut(text, 0).value) && NoSentenceBefore(text, SentenceCut(text, 0).value)
  {
    var i := FirstFound(text, 0);
    EndFromStart(text, i);
    forall e: nat | SentenceEndsAt(text, e) ensures e >= SentenceCut(text, 0).value {
      EndsNoEarlier(text, i, e);
    }
  }

  // The sentence cut is the first place where a sentence ends, if there is any.
  lemma CutIsFirst(text: bytes)
    ensures SentenceCut(text, 0).None? ==> NoSentenceBefore(text, |text| + 1)
    ensures SentenceCut(text, 0).Some? ==>
              SentenceEndsAt(text, SentenceCut(text, 0).value) && NoSentenceBefore(text, SentenceCut(text, 0).value)
  {
    if SentenceCut(text, 0).Some? { CutIsEnd(text); } else { NoCutNoEnd(text); }
  }

  lemma FirstIsOne(text: bytes, c: nat, d: nat)
    requires SentenceEndsAt(text, c) && NoSentenceBefore(text, c) && SentenceEndsAt(text, d) && NoSentenceBefore(text, d)
    ensures c == d
  {
  }

  lemma SentenceCutIff(text: bytes, c: nat)
    ensures SentenceCut(text, 0) == Some(c) <==> SentenceEndsAt(text, c) && NoSentenceBefore(text, c)
    ensures SentenceCut(text, 0) == None <==> NoSentenceBefore(text, |text| + 1)
  {
    CutIsFirst(text);
    if SentenceCut(text, 0).Some? {
      var d := SentenceCut(text, 0).value;
      assert d < |text| + 1;
      if SentenceEndsAt(text, c) && NoSentenceBefore(text, c) { FirstIsOne(text, c, d); }
    }
  }

  // ---- Clauses and words ---------------------------------------------------

  // A clause of at least 14 bytes ends just before e: with a comma, semicolon or colon
  // that white space or nothing follows, or with a CJK comma.
  predicate ClauseEndsAt(text: bytes, e: nat) {
    e <= |text| &&
    ( || (e >= 15 && (text[e - 1] == 44 || text[e - 1] == 59 || text[e - 1] == 58) && (e == |text| || IsWhite(text[e])))
      || (e >= 17 && IsCjkComma(text[e - 3], text[e - 2], text[e - 1])))
  }

  lemma {:induction false} ClauseCutIs(text: bytes, upto: nat)
    requires upto <= |text|
    ensures var cut := ClauseCut(text, upto);
            && (cut.Some? ==> ClauseEndsAt(text, cut.value))
            && (forall i | 14 <= i < upto && ClauseBreak(text, i) ::
                  cut.Some? && cut.value >= i + (if text[i] == 44 || text[i] == 59 || text[i] == 58 then 1 else 3))
  {
    if upto > 14 {
      MatchesAre(text, upto - 1);
      if !ClauseBreak(text, upto - 1) {
        ClauseCutIs(text, upto - 1);
      } else {
        forall i | 14 <= i < upto - 1 && ClauseBreak(text, i)
          ensures ClauseCut(text, upto).value >= i + (if text[i] == 44 || text[i] == 59 || text[i] == 58 then 1 else 3)
        {
          MatchesAre(text, i);
        }
      }
    }
  }

  // The clause cut is the last place where such a clause ends.
  lemma ClauseCutIff(text: bytes, c: nat)
    ensures ClauseCut(text, |text|) == Some(c) <==>
            ClauseEndsAt(text, c) && forall e: nat | e > c :: !ClauseEndsAt(text, e)
    ensures ClauseCut(text, |text|) == None <==> forall e: nat :: !ClauseEndsAt(text, e)
  {
    ClauseCutIs(text, |text|);
    forall e: nat | ClauseEndsAt(text, e) ensures ClauseCut(text, |text|).Some? && e <= ClauseCut(text, |text|).value {
      if text[e - 1] == 44 || text[e - 1] == 59 || text[e - 1] == 58 {
        assert ClauseBreak(text, e - 1);
      } else {
        MatchesAre(text, e - 3);
        assert ClauseBreak(text, e - 3);
      }
    }
  }

  // p is the last space before `upto`.
  predicate IsLastSpace(text: bytes, upto: nat, p: nat)
    requires upto <= |text|
  {
    p < upto && text[p] == 32 && forall q | p < q < upto :: text[q] != 32
  }

  lemma {:induction false} LastSpaceIs(text: bytes, upto: nat)
    requires upto <= |text|
    ensures LastSpace(text, upto).Some? ==> IsLastSpace(text, upto, LastSpace(text, upto).value)
    ensures LastSpace(text, upto).None? ==> forall q | 0 <= q < upto :: text[q] != 32
  {
    if upto > 0 && text[upto - 1] != 32 { LastSpaceIs(text, upto - 1); }
  }

  // ---- Where it cuts -------------------------------------------------------

  // The first sentence's end if there is one; before the first segment the last end of a
  // clause, or the last space after 14 bytes; else, of a text that is too long, the last
  // space up to the limit, or the limit.
  ghost predicate CutsAt(o: Options, emitted: bool, text: bytes, c: nat) {
    if exists e: nat :: SentenceEndsAt(text, e) then SentenceEndsAt(text, c) && NoSentenceBefore(text, c)
    else if !emitted && |text| >= o.firstMin && exists e: nat :: ClauseEndsAt(text, e) then
      ClauseEndsAt(text, c) && forall e: nat | e > c :: !ClauseEndsAt(text, e)
    else if !emitted && |text| >= o.firstWordCut && exists p | 14 <= p < |text| :: text[p] == 32 then
      IsLastSpace(text, |text|, c)
    else if |text| >= o.max then
      var upto := if o.max < |text| then o.max + 1 else |text|;
      if exists p | 0 < p < upto :: text[p] == 32 then IsLastSpace(text, upto, c) else c == o.max
    else false
  }

  lemma ForceCutIs(max: nat, text: bytes, c: nat)
    requires max <= |text|
    ensures var upto := if max < |text| then max + 1 else |text|;
            ForceCut(max, text) == c <==>
              if exists p | 0 < p < upto :: text[p] == 32 then IsLastSpace(text, upto, c) else c == max
  {
    LastSpaceIs(text, if max < |text| then max + 1 else |text|);
  }

  lemma NextCutIff(o: Options, emitted: bool, text: bytes, c: nat)
    ensures NextCut(o, emitted, text) == Some(c) <==> CutsAt(o, emitted, text, c)
  {
    var sentence := SentenceCut(text, 0);
    SentenceCutIff(text, c);
    if sentence.Some? {
      SentenceCutIff(text, sentence.value);
    } else {
      ClauseCutIff(text, c);
      if ClauseCut(text, |text|).Some? { ClauseCutIff(text, ClauseCut(text, |text|).value); }
      LastSpaceIs(text, |text|);
      if |text| >= o.max { ForceCutIs(o.max, text, c); }
    }
  }

  // The segments of a text are what stands before the cut, trimmed, and the segments of
  // what stands behind it; a text without a cut stays pending.
  lemma SegmentsAreCut(o: Options, emitted: bool, text: bytes)
    requires o.max >= 1
    ensures (forall c: nat :: !CutsAt(o, emitted, text, c)) ==> TakeReady(o, emitted, text) == Taken([], emitted, text)
    ensures forall c: nat | CutsAt(o, emitted, text, c) ::
              && 0 < c <= |text|
              && var segment := Trim(text[..c]);
                 var more := TakeReady(o, emitted || segment != [], text[c..]);
                 TakeReady(o, emitted, text)
                 == Taken((if segment == [] then [] else [segment]) + more.ready, more.emitted, more.pending)
  {
    CutBounds(o, emitted, text);
    forall c: nat ensures NextCut(o, emitted, text) == Some(c) <==> CutsAt(o, emitted, text, c) {
      NextCutIff(o, emitted, text, c);
    }
  }

  lemma {:induction false} TrimKeeps(s: bytes, i: nat)
    requires i < |s| && !IsSpace(s[i])
    ensures Trim(s) != []
    decreases |s|
  {
    if IsSpace(s[0]) {
      TrimKeeps(s[1..], i - 1);
    } else if IsSpace(s[|s| - 1]) {
      TrimKeeps(s[..|s| - 1], i);
    }
  }

  // The first sentence of a text is the first segment, whole, unless it is white space.
  lemma FirstSentence(o: Options, emitted: bool, text: bytes, c: nat)
    requires o.max >= 1 && SentenceEndsAt(text, c) && NoSentenceBefore(text, c) && Trim(text[..c]) != []
    ensures |TakeReady(o, emitted, text).ready| > 0 && TakeReady(o, emitted, text).ready[0] == Trim(text[..c])
  {
    SegmentsAreCut(o, emitted, text);
    assert CutsAt(o, emitted, text, c);
  }

  // So is one that ends in a run of stops which a closer follows.
  lemma SentenceIsASegment(o: Options, emitted: bool, a: bytes, run: bytes, x: byte, rest: bytes, text: bytes)
    requires o.max >= 1 && text == a + run + [x] + rest
    requires run != [] && (forall i | 0 <= i < |run| :: IsStop(run[i])) && IsCloser(x)
    requires NoSentenceBefore(text, |a| + 1)
    ensures |TakeReady(o, emitted, text).ready| > 0 && TakeReady(o, emitted, text).ready[0] == Trim(a + run)
  {
    var c := |a| + |run|;
    assert forall i | |a| <= i < c :: text[i] == run[i - |a|];
    assert text[c] == x && text[..c] == a + run;
    forall e: nat | e < c ensures !SentenceEndsAt(text, e) {
      if e > |a| { assert IsStop(text[e]) && IsStop(text[e - 1]); }
    }
    TrimKeeps(a + run, |a|);
    FirstSentence(o, emitted, text, c);
  }

  // One that ends in a CJK stop, whatever follows it.
  lemma CjkSentenceIsASegment(o: Options, emitted: bool, a: bytes, x: byte, y: byte, z: byte, rest: bytes, text: bytes)
    requires o.max >= 1 && text == a + [x, y, z] + rest && IsCjkStop(x, y, z)
    requires NoSentenceBefore(text, |a| + 1)
    ensures |TakeReady(o, emitted, text).ready| > 0 && TakeReady(o, emitted, text).ready[0] == Trim(a + [x, y, z])
  {
    var n := |a|;
    assert text[n] == x && text[n + 1] == y && text[n + 2] == z && text[..n + 3] == a + [x, y, z];
    assert !SentenceEndsAt(text, n + 1) && !SentenceEndsAt(text, n + 2);
    TrimKeeps(a + [x, y, z], n);
    FirstSentence(o, emitted, text, n + 3);
  }

  // And a line, if there is anything on it but white space.
  lemma LineIsASegment(o: Options, emitted: bool, a: bytes, rest: bytes, text: bytes)
    requires o.max >= 1 && text == a + [10] + rest && NoSentenceBefore(text, |a| + 1) && Trim(a + [10]) != []
    ensures |TakeReady(o, emitted, text).ready| > 0 && TakeReady(o, emitted, text).ready[0] == Trim(a + [10])
  {
    assert text[|a|] == 10 && text[..|a| + 1] == a + [10];
    FirstSentence(o, emitted, text, |a| + 1);
  }
}
