/** StableTracker (app/server/voice_stability.cpp): how many leading tokens of a growing
    transcript have stopped moving, and the text they are spoken as. */
module StableTracker {
  import opened Bytes
  import opened HypothesisTokens

  type Hypothesis = seq<Token>

  // ---- Agreement -----------------------------------------------------------

  // Every hypothesis of the window has a token at t, and they are the same word.
  predicate AgreeAt(window: seq<Hypothesis>, t: nat) {
    forall i | 0 <= i < |window| :: t < |window[i]| && t < |window[0]| && window[i][t].normalized == window[0][t].normalized
  }

  predicate Agree(window: seq<Hypothesis>, c: nat) { forall t | 0 <= t < c :: AgreeAt(window, t) }

  // The longest prefix of words common to the whole window.
  function Common(window: seq<Hypothesis>, from: nat := 0): nat
    requires window != [] && from <= |window[0]|
    decreases |window[0]| - from
  {
    if AgreeAt(window, from) then
      assert from < |window[0]|;
      Common(window, from + 1)
    else from
  }

  lemma {:induction false} CommonMeans(window: seq<Hypothesis>, from: nat := 0)
    requires window != [] && from <= |window[0]|
    ensures var c := Common(window, from);
            && from <= c <= |window[0]| && !AgreeAt(window, c)
            && forall t | from <= t < c :: AgreeAt(window, t)
    decreases |window[0]| - from
  {
    if AgreeAt(window, from) {
      assert from < |window[0]|;
      CommonMeans(window, from + 1);
    }
  }

  lemma CommonIsLongest(window: seq<Hypothesis>, c: nat)
    requires window != []
    ensures Agree(window, c) <==> c <= Common(window)
  {
    CommonMeans(window);
    if Common(window) < c {
      assert !AgreeAt(window, Common(window));
    }
  }

  function Max(a: nat, b: nat): nat { if a < b then b else a }

  function Last(log: seq<Hypothesis>, k: nat): seq<Hypothesis> { if |log| <= k then log else log[|log| - k..] }

  // What k agreeing hypotheses in a row have committed so far.
  function Committed(log: seq<Hypothesis>, k: nat): nat
    requires k > 0
  {
    if |log| < k then 0
    else Max(Committed(log[..|log| - 1], k), Common(Last(log, k)))
  }

  // The k hypotheses from w on.
  function Window(log: seq<Hypothesis>, k: nat, w: nat): seq<Hypothesis>
    requires w + k <= |log|
  {
    log[w..w + k]
  }

  lemma WindowOfInit(log: seq<Hypothesis>, k: nat, w: nat)
    requires log != [] && w + k < |log|
    ensures Window(log[..|log| - 1], k, w) == Window(log, k, w)
  {
  }

  lemma CommittedNow(log: seq<Hypothesis>, k: nat)
    requires 0 < k <= |log|
    ensures Committed(log, k) == Max(Committed(log[..|log| - 1], k), Common(Window(log, k, |log| - k)))
  {
    assert Window(log, k, |log| - k) == Last(log, k);
  }

  lemma {:induction false} CommittedBounds(log: seq<Hypothesis>, k: nat, w: nat)
    requires k > 0 && w + k <= |log|
    ensures Common(Window(log, k, w)) <= Committed(log, k)
    decreases |log|
  {
    CommittedNow(log, k);
    if w + k < |log| {
      CommittedBounds(log[..|log| - 1], k, w);
      WindowOfInit(log, k, w);
    }
  }

  lemma {:induction false} CommittedAttained(log: seq<Hypothesis>, k: nat) returns (w: nat)
    requires k > 0 && Committed(log, k) > 0
    ensures w + k <= |log| && Common(Window(log, k, w)) == Committed(log, k)
    decreases |log|
  {
    CommittedNow(log, k);
    var init := log[..|log| - 1];
    if Committed(init, k) < Committed(log, k) {
      w := |log| - k;
    } else {
      w := CommittedAttained(init, k);
      WindowOfInit(log, k, w);
    }
  }

  // It is the maximum over all windows: a prefix of c words is committed exactly if some
  // k hypotheses in a row agreed on it.
  lemma CommittedIff(log: seq<Hypothesis>, k: nat, c: nat)
    requires k > 0 && c > 0
    ensures c <= Committed(log, k) <==> exists w: nat | w + k <= |log| :: Agree(Window(log, k, w), c)
  {
    if c <= Committed(log, k) {
      var w := CommittedAttained(log, k);
      CommonIsLongest(Window(log, k, w), c);
    }
    if exists w: nat | w + k <= |log| :: Agree(Window(log, k, w), c) {
      var w: nat :| w + k <= |log| && Agree(Window(log, k, w), c);
      CommonIsLongest(Window(log, k, w), c);
      CommittedBounds(log, k, w);
    }
  }

  // ---- The words are all that counts ---------------------------------------

  predicate SameWords(a: seq<Hypothesis>, b: seq<Hypothesis>) {
    |a| == |b| && forall i | 0 <= i < |a| :: Words(a[i]) == Words(b[i])
  }

  lemma SameWordsAgree(a: seq<Hypothesis>, b: seq<Hypothesis>, t: nat)
    requires SameWords(a, b) && AgreeAt(a, t)
    ensures AgreeAt(b, t)
  {
    forall i | 0 <= i < |b|
      ensures t < |b[i]| && t < |b[0]| && b[i][t].normalized == b[0][t].normalized
    {
      assert Words(a[i])[t] == a[i][t].normalized && Words(a[0])[t] == a[0][t].normalized;
      assert Words(b[i])[t] == b[i][t].normalized && Words(b[0])[t] == b[0][t].normalized;
    }
  }

  lemma SameWordsCommon(a: seq<Hypothesis>, b: seq<Hypothesis>)
    requires SameWords(a, b) && a != []
    ensures Common(a) == Common(b)
  {
    CommonMeans(a);
    CommonMeans(b);
    if Common(a) < Common(b) {
      SameWordsAgree(b, a, Common(a));
    } else if Common(b) < Common(a) {
      SameWordsAgree(a, b, Common(b));
    }
  }

  // Hypotheses that differ in case and punctuation only commit the same.
  lemma {:induction false} SameWordsCommit(a: seq<Hypothesis>, b: seq<Hypothesis>, k: nat)
    requires SameWords(a, b) && k > 0
    ensures Committed(a, k) == Committed(b, k)
    decreases |a|
  {
    if |a| >= k {
      SameWordsCommit(a[..|a| - 1], b[..|b| - 1], k);
      SameWordsCommon(Last(a, k), Last(b, k));
    }
  }

  // ---- The texts -----------------------------------------------------------

  datatype Texts = Texts(stable: bytes, tentative: bytes)

  function TrimSpaces(s: bytes): bytes { if s != [] && s[0] == SPACE then TrimSpaces(s[1..]) else s }

  // A C++ int taken as a size_t.
  function AsSize(n: int): int { if n < 0 then n + SIZE_LIMIT else n }

  // The newest hypothesis reaches the commit point, far enough in.
  predicate Speaks(committed: nat, minChars: int, hypothesis: bytes) {
    var tokens := Tokenize(hypothesis);
    0 < committed <= |tokens| && tokens[committed - 1].rawEnd >= AsSize(minChars)
  }

  function Speak(committed: nat, minChars: int, hypothesis: bytes, before: Texts): Texts {
    if Speaks(committed, minChars, hypothesis) then
      PrefixTokens(hypothesis, 0, [], committed);
      var e := Tokenize(hypothesis)[committed - 1].rawEnd;
      Texts(hypothesis[..e], TrimSpaces(hypothesis[e..]))
    else if before.stable == [] then before.(tentative := hypothesis)
    else before
  }

  // What is spoken as stable is the newest hypothesis's own spelling of exactly the
  // committed words; what is tentative is the rest.
  lemma StableIsTheCommittedWords(committed: nat, minChars: int, hypothesis: bytes, before: Texts)
    requires Speaks(committed, minChars, hypothesis)
    ensures var texts := Speak(committed, minChars, hypothesis, before);
            && Tokenize(texts.stable) == Tokenize(hypothesis)[..committed]
            && texts.stable <= hypothesis
            && texts.tentative == TrimSpaces(hypothesis[|texts.stable|..])
  {
    PrefixTokens(hypothesis, 0, [], committed);
  }

  function Tokenized(heard: seq<bytes>): seq<Hypothesis> {
    seq(|heard|, i requires 0 <= i < |heard| => Tokenize(heard[i]))
  }

  lemma TokenizedGrows(heard: seq<bytes>, newest: bytes)
    ensures Tokenized(heard + [newest]) == Tokenized(heard) + [Tokenize(newest)]
  {
  }

  lemma LastGrows(log: seq<Hypothesis>, tokens: Hypothesis, k: nat)
    requires k > 0
    ensures var grown := Last(log, k) + [tokens];
            Last(log + [tokens], k) == if |grown| > k then grown[1..] else grown
    ensures Committed(log + [tokens], k) ==
            if |log| + 1 < k then 0 else Max(Committed(log, k), Common(Last(log + [tokens], k)))
  {
    assert (log + [tokens])[..|log|] == log;
  }

  // What has been committed and spoken once these texts have been heard.
  function CommittedBy(heard: seq<bytes>, k: nat): nat
    requires k > 0
  {
    Committed(Tokenized(heard), k)
  }

  function Spoken(heard: seq<bytes>, k: nat, minChars: int): Texts
    requires k > 0
  {
    if heard == [] then Texts([], [])
    else
      var init, newest := heard[..|heard| - 1], heard[|heard| - 1];
      Speak(CommittedBy(heard, k), minChars, newest, Spoken(init, k, minChars))
  }

  lemma SpokenGrows(heard: seq<bytes>, newest: bytes, k: nat, minChars: int)
    requires k > 0
    ensures Spoken(heard + [newest], k, minChars)
         == Speak(CommittedBy(heard + [newest], k), minChars, newest, Spoken(heard, k, minChars))
    ensures CommittedBy(heard, k) <= CommittedBy(heard + [newest], k)
  {
    assert (heard + [newest])[..|heard|] == heard;
    TokenizedGrows(heard, newest);
    LastGrows(Tokenized(heard), Tokenize(newest), k);
  }

  // The stable text never holds more words than were committed.
  lemma {:induction false} StableWithinCommitted(heard: seq<bytes>, k: nat, minChars: int)
    requires k > 0
    ensures |Tokenize(Spoken(heard, k, minChars).stable)| <= CommittedBy(heard, k)
  {
    if heard != [] {
      var init, newest := heard[..|heard| - 1], heard[|heard| - 1];
      assert heard == init + [newest];
      StableWithinCommitted(init, k, minChars);
      SpokenGrows(init, newest, k, minChars);
      if Speaks(CommittedBy(heard, k), minChars, newest) {
        StableIsTheCommittedWords(CommittedBy(heard, k), minChars, newest, Spoken(init, k, minChars));
      }
    }
  }

  // The count only grows, but the words of the stable text are kept exactly if the
  // newest hypothesis does not reach the commit point, or still begins with them.
  lemma StableKeptIff(heard: seq<bytes>, newest: bytes, k: nat, minChars: int)
    requires k > 0
    ensures var before := Words(Tokenize(Spoken(heard, k, minChars).stable));
            var after := Words(Tokenize(Spoken(heard + [newest], k, minChars).stable));
            before <= after <==>
              !Speaks(CommittedBy(heard + [newest], k), minChars, newest) || before <= Words(Tokenize(newest))
  {
    SpokenGrows(heard, newest, k, minChars);
    StableWithinCommitted(heard, k, minChars);
    var committed, before := CommittedBy(heard + [newest], k), Spoken(heard, k, minChars);
    if Speaks(committed, minChars, newest) {
      StableIsTheCommittedWords(committed, minChars, newest, before);
      assert Words(Tokenize(newest)[..committed]) == Words(Tokenize(newest))[..committed];
    }
  }

  // What one more text changes.
  lemma HeardOneMore(heard: seq<bytes>, newest: bytes, k: nat, minChars: int)
    requires k > 0
    ensures var history, tokens := Last(Tokenized(heard), k), Tokenize(newest);
            var grown := history + [tokens];
            && Last(Tokenized(heard + [newest]), k) == (if |grown| > k then grown[1..] else grown)
            && CommittedBy(heard + [newest], k)
               == if |grown| < k then CommittedBy(heard, k)
                  else Max(CommittedBy(heard, k), Common(if |grown| > k then grown[1..] else grown))
    ensures Spoken(heard + [newest], k, minChars)
         == Speak(CommittedBy(heard + [newest], k), minChars, newest, Spoken(heard, k, minChars))
  {
    TokenizedGrows(heard, newest);
    LastGrows(Tokenized(heard), Tokenize(newest), k);
    SpokenGrows(heard, newest, k, minChars);
  }

  lemma TwoLetters(a: byte)
    requires 97 <= a <= 122
    ensures Tokenize([a, a]) == [Token([a, a], 2)]
  {
    var text := [a, a];
    assert text[0..1] == [a] && text[1..2] == [a] && [] + [a] == [a] && [a] + [a] == text;
    assert TokensFrom(text, 2, text) == Flushed(text, 2);
    assert TokensFrom(text, 1, [a]) == TokensFrom(text, 2, text);
    assert TokensFrom(text, 0, []) == TokensFrom(text, 1, [a]);
  }

  // "aa", "aa", "bb" with the default parameters: "aa" was committed, and "bb" is stable.
  lemma StableCanBeRewritten()
    ensures var a, b := [97, 97], [98, 98];
            var first := Committed([Tokenize(a), Tokenize(a)], 2);
            var then_ := Committed([Tokenize(a), Tokenize(a), Tokenize(b)], 2);
            && first == then_ == 1
            && Speak(first, 2, a, Texts([], a)).stable == a
            && Speak(then_, 2, b, Texts(a, [])).stable == b
  {
    var a, b := [97, 97], [98, 98];
    TwoLetters(97);
    TwoLetters(98);
    var one, other := Tokenize(a), Tokenize(b);
    var log := [one, one, other];
    assert log[..2] == [one, one] && log[..1] == [one] && log[..2][..1] == [one];
    assert Last(log, 2) == [one, other] && Last(log[..2], 2) == [one, one];
    OneWordAgrees(one, other);
    assert Committed([one], 2) == 0;
    assert a[..2] == a && b[..2] == b;
  }

  lemma OneWordAgrees(one: Hypothesis, other: Hypothesis)
    requires |one| == |other| == 1 && one[0].normalized != other[0].normalized
    ensures Common([one, one]) == 1 && Common([one, other]) == 0
  {
    assert [one, other][1][0].normalized != [one, other][0][0].normalized;
    assert !AgreeAt([one, other], 0);
    assert AgreeAt([one, one], 0);
    CommonMeans([one, one]);
  }

  // ---- The tracker as an object --------------------------------------------

  class Tracker {
    const stableHypothesisCount: nat
    const minStableChars: int
    var history: seq<Hypothesis>
    var committedTokens: nat
    var stable: bytes
    var tentative: bytes
    var hypothesis: bytes
    ghost var heard: seq<bytes>    // since the last reset

    ghost predicate Valid()
      reads this
    {
      && stableHypothesisCount > 0
      && history == Last(Tokenized(heard), stableHypothesisCount)
      && committedTokens == CommittedBy(heard, stableHypothesisCount)
      && CurrentTexts() == Spoken(heard, stableHypothesisCount, minStableChars)
    }

    // At every moment the stable text holds no more words than were committed.
    lemma StableWords()
      requires Valid()
      ensures |Tokenize(stable)| <= committedTokens
    {
      StableWithinCommitted(heard, stableHypothesisCount, minStableChars);
    }

    function CurrentTexts(): Texts
      reads this
    {
      Texts(stable, tentative)
    }

    constructor (count: int, minStableChars: int)
      ensures Valid() && heard == [] && CurrentTexts() == Texts([], [])
      ensures stableHypothesisCount == (if count < 1 then 1 else count) && this.minStableChars == minStableChars
    {
      stableHypothesisCount := if count < 1 then 1 else count;
      this.minStableChars := minStableChars;
      history, committedTokens := [], 0;
      stable, tentative, hypothesis := [], [], [];
      heard := [];
    }

    method Reset()
      requires Valid()
      modifies this
      ensures Valid() && heard == [] && CurrentTexts() == Texts([], []) && hypothesis == []
    {
      history, committedTokens := [], 0;
      stable, tentative, hypothesis := [], [], [];
      heard := [];
    }

    // How many leading tokens all retained hypotheses have in common.
    method CommonPrefix() returns (common: nat)
      requires history != []
      ensures common == Common(history)
    {
      var limit := |history[0]|;
      for i := 0 to |history|
        invariant limit <= |history[0]| && forall j | 0 <= j < i :: limit <= |history[j]|
        invariant limit == |history[0]| || exists j | 0 <= j < i :: limit == |history[j]|
      {
        if |history[i]| < limit {
          limit := |history[i]|;
        }
      }
      common := 0;
      while common < limit
        invariant common <= limit && Common(history, common) == Common(history)
      {
        var all := true;
        for i := 0 to |history|
          invariant all <==> forall j | 0 <= j < i :: history[j][common].normalized == history[0][common].normalized
        {
          if history[i][common].normalized != history[0][common].normalized {
            all := false;
            break;
          }
        }
        if !all {
          assert !AgreeAt(history, common);
          return;
        }
        assert AgreeAt(history, common);
        common := common + 1;
      }
      assert !AgreeAt(history, common);
    }

    // The history with the newest hypothesis, cut to the length that counts.
    method Retain(tokens: Hypothesis)
      requires stableHypothesisCount > 0 && |history| <= stableHypothesisCount
      modifies this`history
      ensures history == if |old(history)| == stableHypothesisCount then (old(history) + [tokens])[1..]
                         else old(history) + [tokens]
    {
      history := history + [tokens];
      while |history| > stableHypothesisCount
        invariant history == old(history) + [tokens] ||
                  (history == (old(history) + [tokens])[1..] && |old(history)| == stableHypothesisCount)
      {
        history := history[1..];
      }
    }

    // What is now agreed on.
    method Agreed() returns (agreed: nat)
      requires history != []
      ensures agreed == if |history| == stableHypothesisCount then Max(committedTokens, Common(history)) else committedTokens
    {
      agreed := committedTokens;
      if |history| == stableHypothesisCount {
        var common := CommonPrefix();
        if common > agreed {
          agreed := common;
        }
      }
    }

    // The committed prefix in the newest hypothesis's spelling, if it gets that far.
    method Express(newest: bytes, tokens: Hypothesis) returns (spoken: bool)
      requires tokens == Tokenize(newest)
      modifies this`stable, this`tentative
      ensures spoken == Speaks(committedTokens, minStableChars, newest)
      ensures CurrentTexts() == Speak(committedTokens, minStableChars, newest, old(CurrentTexts()))
    {
      if committedTokens > 0 && |tokens| >= committedTokens {
        var rawEnd := tokens[committedTokens - 1].rawEnd;
        PrefixTokens(newest, 0, [], committedTokens);
        if rawEnd >= AsSize(minStableChars) {
          stable := newest[..rawEnd];
          tentative := newest[rawEnd..];
          while tentative != [] && tentative[0] == SPACE
            modifies this`tentative
            invariant TrimSpaces(tentative) == TrimSpaces(newest[rawEnd..])
          {
            tentative := tentative[1..];
          }
          return true;
        }
      }
      if stable == [] {
        tentative := newest;
      }
      return false;
    }

    method Update(newest: bytes) returns (advanced: bool)
      requires Valid()
      modifies this
      ensures Valid() && heard == old(heard) + [newest] && hypothesis == newest
      ensures committedTokens >= old(committedTokens)
      ensures advanced <==> committedTokens > old(committedTokens) && Speaks(committedTokens, minStableChars, newest)
    {
      hypothesis := newest;
      var tokens := TokenizeText(newest);
      heard := heard + [newest];
      HeardOneMore(old(heard), newest, stableHypothesisCount, minStableChars);
      Retain(tokens);
      var agreed := Agreed();
      var grew := agreed > committedTokens;
      committedTokens := agreed;
      var spoken := Express(newest, tokens);
      return spoken && grew;
    }
  }
}
