/** Which requests are read as a chunked stream (app/server/http.cpp): the transfer
    codings of a header, however they are spread over field lines (section 5.2 of
    RFC 9110). */
module TransferCoding {
  import opened Bytes

  const COMMA: byte := 44
  const CHUNKED: bytes := [99, 104, 117, 110, 107, 101, 100]

  // lower_ascii(coding) == "chunked"
  predicate IsChunked(coding: bytes) {
    |coding| == |CHUNKED| && forall i | 0 <= i < |coding| :: Lower(coding[i]) == CHUNKED[i]
  }

  // The first comma, or the end.
  function Comma(v: bytes, from: nat := 0): (c: nat)
    requires from <= |v|
    ensures from <= c <= |v| && (c < |v| ==> v[c] == COMMA)
    decreases |v| - from
  {
    if from == |v| || v[from] == COMMA then from else Comma(v, from + 1)
  }

  // A list element in front of a list, unless it is empty.
  function Put(text: bytes, codings: seq<bytes>): seq<bytes> {
    var coding := Trim(text);
    if coding == [] then codings else [coding] + codings
  }

  // The codings a field value lists.
  function Codings(v: bytes): seq<bytes>
    decreases |v|
  {
    var c := Comma(v);
    Put(v[..c], if c == |v| then [] else Codings(v[c + 1..]))
  }

  predicate OnlyChunked(codings: seq<bytes>) { |codings| == 1 && IsChunked(codings[0]) }

  // ---- Field lines ---------------------------------------------------------

  // How repeated lines are appended to one value.
  function Combine(slot: bytes, values: seq<bytes>): bytes
    decreases |values|
  {
    if values == [] then slot
    else Combine(if slot == [] then values[0] else (slot + [COMMA, SPACE]) + values[0], values[1..])
  }

  function AllCodings(values: seq<bytes>): seq<bytes> {
    if values == [] then [] else Codings(values[0]) + AllCodings(values[1..])
  }

  lemma {:induction false} CommaIsFirst(v: bytes, from: nat)
    requires from <= |v|
    ensures forall i | from <= i < Comma(v, from) :: v[i] != COMMA
    decreases |v| - from
  {
    if from < |v| && v[from] != COMMA {
      CommaIsFirst(v, from + 1);
    }
  }

  lemma {:induction false} FirstComma(v: bytes, c: nat)
    requires c <= |v| && (c < |v| ==> v[c] == COMMA) && forall i | 0 <= i < c :: v[i] != COMMA
    ensures Comma(v) == c
  {
    CommaIsFirst(v, 0);
  }

  lemma Nothing()
    ensures Codings([]) == []
  {
    FirstComma([], 0);
  }

  lemma {:induction false} LeadingSpace(v: bytes)
    ensures Codings([SPACE] + v) == Codings(v)
  {
    var c := Comma(v);
    CommaIsFirst(v, 0);
    var spaced := [SPACE] + v;
    FirstComma(spaced, c + 1);
    assert spaced[..c + 1][1..] == v[..c];
    assert c < |v| ==> spaced[c + 2..] == v[c + 1..];
  }

  // Where the first element of a list ends when the list is cut at a comma.
  lemma {:induction false} CutAt(v: bytes, k: nat)
    requires k < |v| && v[k] == COMMA
    ensures Comma(v) <= k && Comma(v[..k]) == Comma(v)
  {
    CommaIsFirst(v, 0);
    FirstComma(v[..k], Comma(v));
  }

  lemma Slices(v: bytes, c: nat, k: nat)
    requires c < k < |v|
    ensures v[..k][..c] == v[..c]
    ensures v[..k][c + 1..] == v[c + 1..][..k - c - 1]
    ensures v[c + 1..][k - c..] == v[k + 1..]
  {
  }

  lemma PutAppend(text: bytes, a: seq<bytes>, b: seq<bytes>)
    ensures Put(text, a + b) == Put(text, a) + b
  {
    assert [Trim(text)] + (a + b) == ([Trim(text)] + a) + b;
  }

  // A list cut at any of its commas is two lists.
  lemma {:induction false} CodingsSplit(v: bytes, k: nat)
    requires k < |v| && v[k] == COMMA
    ensures Codings(v) == Codings(v[..k]) + Codings(v[k + 1..])
    decreases |v|
  {
    var c := Comma(v);
    var after := Codings(v[k + 1..]);
    CutAt(v, k);
    if c == k {
      assert v[..k][..c] == v[..c] && [] + after == after;
      PutAppend(v[..c], [], after);
    } else {
      Slices(v, c, k);
      CodingsSplit(v[c + 1..], k - c - 1);
      PutAppend(v[..c], Codings(v[c + 1..][..k - c - 1]), after);
    }
  }

  lemma {:induction false} CodingsJoin(a: bytes, b: bytes)
    ensures Codings(a + ([COMMA] + b)) == Codings(a) + Codings(b)
  {
    var whole := a + ([COMMA] + b);
    CodingsSplit(whole, |a|);
    assert whole[..|a|] == a && whole[|a| + 1..] == b;
  }

  lemma {:induction false} CombineListsAll(slot: bytes, values: seq<bytes>)
    ensures Codings(Combine(slot, values)) == Codings(slot) + AllCodings(values)
    decreases |values|
  {
    if values != [] {
      var v := values[0];
      if slot == [] {
        Nothing();
        CombineListsAll(v, values[1..]);
      } else {
        assert (slot + [COMMA, SPACE]) + v == slot + ([COMMA] + ([SPACE] + v));
        CodingsJoin(slot, [SPACE] + v);
        LeadingSpace(v);
        CombineListsAll((slot + [COMMA, SPACE]) + v, values[1..]);
      }
    }
  }

  // Splitting the codings over lines hides none of them: the combined value passes
  // exactly if all lines together list the one coding "chunked".
  lemma LinesAreOneList(values: seq<bytes>)
    ensures OnlyChunked(Codings(Combine([], values))) <==> OnlyChunked(AllCodings(values))
  {
    Nothing();
    CombineListsAll([], values);
    assert [] + AllCodings(values) == AllCodings(values);
  }

  method CombineLines(values: seq<bytes>) returns (slot: bytes)
    ensures slot == Combine([], values)
  {
    slot := [];
    for i := 0 to |values|
      invariant Combine(slot, values[i..]) == Combine([], values)
    {
      assert values[i..][1..] == values[i + 1..];
      if slot != [] {
        slot := slot + [COMMA, SPACE];
        slot := slot + values[i];
      } else {
        slot := values[i];
      }
    }
  }

  // ---- The check -----------------------------------------------------------

  // Whether a list, after what was seen of it, passes.
  predicate Passes(sawCoding: bool, codings: seq<bytes>) {
    if sawCoding then codings == [] else OnlyChunked(codings)
  }

  lemma {:induction false} PassesStep(sawCoding: bool, text: bytes, codings: seq<bytes>)
    ensures var coding := Trim(text);
            Passes(sawCoding, Put(text, codings)) <==>
            if coding == [] then Passes(sawCoding, codings)
            else !sawCoding && IsChunked(coding) && Passes(true, codings)
  {
  }

  lemma {:induction false} CodingsFrom(value: bytes, start: nat, comma: nat)
    requires start <= comma <= |value| && comma == Comma(value, start)
    ensures Codings(value[start..]) ==
            Put(value[start..comma], if comma == |value| then [] else Codings(value[comma + 1..]))
  {
    var rest := value[start..];
    CommaIsFirst(value, start);
    FirstComma(rest, comma - start);
    assert rest[..comma - start] == value[start..comma];
    assert comma < |value| ==> rest[comma - start + 1..] == value[comma + 1..];
  }

  // Whether the list passes from a place on; behind its end nothing is left.
  predicate PassesFrom(sawCoding: bool, value: bytes, start: nat) {
    Passes(sawCoding, if start > |value| then [] else Codings(value[start..]))
  }

  // One round of the loop.
  lemma PassesOne(sawCoding: bool, value: bytes, start: nat, comma: nat)
    requires start <= comma <= |value| && comma == Comma(value, start)
    ensures var coding := Trim(value[start..comma]);
            PassesFrom(sawCoding, value, start) <==>
            if coding == [] then PassesFrom(sawCoding, value, comma + 1)
            else !sawCoding && IsChunked(coding) && PassesFrom(true, value, comma + 1)
  {
    CodingsFrom(value, start, comma);
    PassesStep(sawCoding, value[start..comma], if comma == |value| then [] else Codings(value[comma + 1..]));
  }

  method IsChunkedOnly(value: bytes) returns (only: bool)
    ensures only <==> OnlyChunked(Codings(value))
  {
    var sawCoding, start: nat := false, 0;
    ghost var passes := PassesFrom(false, value, 0);
    assert passes <==> OnlyChunked(Codings(value)) by {
      assert value[0..] == value;
    }
    while start <= |value|
      invariant start <= |value|
      invariant passes <==> PassesFrom(sawCoding, value, start)
      decreases |value| - start
    {
      var comma := Comma(value, start);
      var coding := Trim(value[start..comma]);
      PassesOne(sawCoding, value, start, comma);
      if coding != [] {
        if sawCoding || !IsChunked(coding) {
          return false;
        }
        sawCoding := true;
      }
      if comma == |value| {
        return sawCoding;
      }
      start := comma + 1;
    }
  }
}
