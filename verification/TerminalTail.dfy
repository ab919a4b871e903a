/** The tail of a draft (app/server/runtime.cpp): the run of listed endings typed after
    it, stripped one ending at a time. */
module TerminalTail {
  import opened Bytes

  predicate EndsWith(text: bytes, tail: bytes) {
    |tail| <= |text| && text[|text| - |tail|..] == tail
  }

  predicate AllTails(tails: seq<bytes>, run: seq<bytes>) { forall i | 0 <= i < |run| :: run[i] in tails }

  predicate EndsInTail(tails: seq<bytes>, text: bytes) { exists i | 0 <= i < |tails| :: EndsWith(text, tails[i]) }

  // No tail is empty and no two end in the same byte.
  predicate Distinct(tails: seq<bytes>) {
    && (forall i | 0 <= i < |tails| :: tails[i] != [])
    && (forall i, j | 0 <= i < j < |tails| :: tails[i][|tails[i]| - 1] != tails[j][|tails[j]| - 1])
  }

  // The first tail listed from `from` on that the text ends with.
  function TailOf(tails: seq<bytes>, text: bytes, from: nat := 0): (k: nat)
    requires from <= |tails|
    ensures from <= k <= |tails|
    ensures k < |tails| ==> EndsWith(text, tails[k])
    ensures forall i | from <= i < k :: !EndsWith(text, tails[i])
    decreases |tails| - from
  {
    if from == |tails| || EndsWith(text, tails[from]) then from else TailOf(tails, text, from + 1)
  }

  function StripTerminalTail(tails: seq<bytes>, text: bytes): bytes
    requires Distinct(tails)
    decreases |text|
  {
    var k := TailOf(tails, text);
    if k < |tails| then StripTerminalTail(tails, text[..|text| - |tails[k]|]) else text
  }

  lemma StripAppend(tails: seq<bytes>, text: bytes, tail: bytes)
    requires Distinct(tails) && tail in tails
    ensures StripTerminalTail(tails, text + tail) == StripTerminalTail(tails, text)
  {
    var i :| 0 <= i < |tails| && tails[i] == tail;
    var whole := text + tail;
    assert EndsWith(whole, tails[i]);
    var k := TailOf(tails, whole);
    assert whole[|whole| - 1] == tails[i][|tails[i]| - 1] == tails[k][|tails[k]| - 1];
    assert whole[..|whole| - |tail|] == text;
  }

  // Typing any run of tails changes nothing.
  lemma {:induction false} StripIgnoresTails(tails: seq<bytes>, text: bytes, run: seq<bytes>)
    requires Distinct(tails) && AllTails(tails, run)
    ensures StripTerminalTail(tails, text + Flatten(run)) == StripTerminalTail(tails, text)
    decreases |run|
  {
    if run == [] {
      assert text + Flatten(run) == text;
    } else {
      Assoc(text, run[0], Flatten(run[1..]));
      StripIgnoresTails(tails, text + run[0], run[1..]);
      StripAppend(tails, text, run[0]);
    }
  }

  // What is removed is a run of tails, and all of it.
  lemma {:induction false} StripRemovesTheRun(tails: seq<bytes>, text: bytes) returns (run: seq<bytes>)
    requires Distinct(tails)
    ensures AllTails(tails, run) && text == StripTerminalTail(tails, text) + Flatten(run)
    ensures !EndsInTail(tails, StripTerminalTail(tails, text))
    decreases |text|
  {
    var k := TailOf(tails, text);
    if k == |tails| {
      run := [];
    } else {
      var rest := text[..|text| - |tails[k]|];
      var before := StripRemovesTheRun(tails, rest);
      run := before + [tails[k]];
      FlattenAppend(before, [tails[k]]);
      assert Flatten([tails[k]]) == tails[k] + [];
      assert text == rest + tails[k];
      Assoc(StripTerminalTail(tails, rest), Flatten(before), tails[k]);
    }
  }

  lemma StripIdempotent(tails: seq<bytes>, text: bytes)
    requires Distinct(tails)
    ensures StripTerminalTail(tails, StripTerminalTail(tails, text)) == StripTerminalTail(tails, text)
  {
    var _ := StripRemovesTheRun(tails, text);
  }

  // Two texts are one text with different runs of tails typed after it.
  ghost predicate SameUpToTails(tails: seq<bytes>, a: bytes, b: bytes) {
    exists core, runA, runB ::
      && AllTails(tails, runA) && AllTails(tails, runB)
      && a == core + Flatten(runA) && b == core + Flatten(runB)
  }

  lemma StripEqualIff(tails: seq<bytes>, a: bytes, b: bytes)
    requires Distinct(tails)
    ensures StripTerminalTail(tails, a) == StripTerminalTail(tails, b) <==> SameUpToTails(tails, a, b)
  {
    if StripTerminalTail(tails, a) == StripTerminalTail(tails, b) {
      var runA := StripRemovesTheRun(tails, a);
      var runB := StripRemovesTheRun(tails, b);
      assert a == StripTerminalTail(tails, a) + Flatten(runA) && b == StripTerminalTail(tails, a) + Flatten(runB);
    }
    if SameUpToTails(tails, a, b) {
      var core, runA, runB :|
        && AllTails(tails, runA) && AllTails(tails, runB)
        && a == core + Flatten(runA) && b == core + Flatten(runB);
      StripIgnoresTails(tails, core, runA);
      StripIgnoresTails(tails, core, runB);
    }
  }

  // The inner loop of strip_terminal_tail.
  method FindTail(tails: seq<bytes>, text: bytes) returns (k: nat)
    ensures k == TailOf(tails, text)
  {
    k := 0;
    while k < |tails| && !EndsWith(text, tails[k])
      invariant k <= |tails| && TailOf(tails, text, k) == TailOf(tails, text)
    {
      k := k + 1;
    }
  }

  method StripTail(tails: seq<bytes>, text: bytes) returns (stripped: bytes)
    requires Distinct(tails)
    ensures stripped == StripTerminalTail(tails, text)
  {
    stripped := text;
    var changed := true;
    while changed
      invariant StripTerminalTail(tails, stripped) == StripTerminalTail(tails, text)
      invariant !changed ==> StripTerminalTail(tails, stripped) == stripped
      decreases |stripped|, changed
    {
      var k := FindTail(tails, stripped);
      changed := k < |tails|;
      if changed {
        stripped := stripped[..|stripped| - |tails[k]|];
      }
    }
  }
}
