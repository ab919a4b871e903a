/** An event as a server may send it, line by line (section 9.2.6 of the WHATWG HTML
    standard), and what `SseDeltaParser` (app/server/llm_client.cpp) makes of it. */
module EventFields {
  import opened Bytes
  import opened Stream
  import opened EventStream

  // A data line, with or without the space after the colon, or any other line that is not
  // empty: a comment or another field. Either may end in CR LF.
  datatype Field = Data(value: bytes, space: bool, cr: bool) | Other(line: bytes, cr: bool)

  // data:
  const NAME: bytes := [100, 97, 116, 97, 58]

  function End(cr: bool): bytes { if cr then [13] else [] }

  function LineOf(f: Field): bytes {
    match f
    case Data(value, space, cr) => NAME + (if space then [32] else []) + value + End(cr)
    case Other(line, cr) => line + End(cr)
  }

  // The line is one line, and says what it is meant to.
  predicate Fits(f: Field) {
    match f
    case Data(value, space, cr) =>
      10 !in value && (value != [] && !cr ==> value[|value| - 1] != 13) && (value != [] && !space ==> value[0] != 32)
    case Other(line, cr) => 10 !in line && line != [] && !(NAME <= line) && (!cr ==> line[|line| - 1] != 13)
  }

  lemma WithoutEnd(line: bytes, cr: bool)
    requires !cr && line != [] ==> line[|line| - 1] != 13
    ensures WithoutCr(line + End(cr)) == line
  {
    if cr { assert (line + [13])[..|line|] == line; } else { assert line + [] == line; }
  }

  lemma OtherTaken(p: Parser, f: Field)
    requires p.buffer == [] && f.Other? && Fits(f)
    ensures 10 !in LineOf(f) && TakeLine(p.(buffer := []), LineOf(f)) == p
  {
    WithoutEnd(f.line, f.cr);
  }

  // A line that carries no data changes nothing, wherever it stands.
  lemma OtherLineIsIgnored(p: Parser, f: Field, rest: bytes)
    requires p.buffer == [] && f.Other? && Fits(f)
    ensures Feed(Step, p, LineOf(f) + [10] + rest) == Feed(Step, p, rest)
  {
    var line := LineOf(f);
    OtherTaken(p, f);
    FeedLine(p, line, rest);
    assert [] + line == line;
  }

  // The data so far with one value more: a line feed between, if there is data so far.
  function Extended(data: bytes, value: bytes): bytes { if data == [] then value else data + [10] + value }

  lemma ValueRead(line: bytes, space: bool, value: bytes)
    requires line == NAME + (if space then [32] else []) + value && (value != [] && !space ==> value[0] != 32)
    ensures DATA <= line && FieldValue(line) == value
  {
    assert line[..5] == NAME;
    if space {
      assert line[5..] == [32] + value && ([32] + value)[1..] == value;
    } else {
      assert line[5..] == value;
    }
  }

  lemma ValueIs(f: Field)
    requires f.Data? && Fits(f)
    ensures var line := WithoutCr(LineOf(f));
            line != [] && DATA <= line && FieldValue(line) == f.value && 10 !in LineOf(f)
  {
    var line := NAME + (if f.space then [32] else []) + f.value;
    if f.value != [] { assert line[|line| - 1] == f.value[|f.value| - 1]; }
    WithoutEnd(line, f.cr);
    ValueRead(line, f.space, f.value);
  }

  lemma DataLineExtends(p: Parser, f: Field, rest: bytes)
    requires p.buffer == [] && f.Data? && Fits(f)
    ensures Feed(Step, p, LineOf(f) + [10] + rest) == Feed(Step, p.(eventData := Extended(p.eventData, f.value)), rest)
  {
    var line := LineOf(f);
    ValueIs(f);
    FeedLine(p, line, rest);
    assert [] + line == line && [] + f.value == f.value;
  }

  function Lines(fields: seq<Field>): bytes {
    if fields == [] then [] else LineOf(fields[0]) + [10] + Lines(fields[1..])
  }

  function Values(fields: seq<Field>): seq<bytes> {
    if fields == [] then []
    else (if fields[0].Data? then [fields[0].value] else []) + Values(fields[1..])
  }

  // The values with a line feed between any two, from the first one on that is not empty.
  function Message(values: seq<bytes>): bytes {
    if values == [] then [] else if values[0] == [] then Message(values[1..]) else Joined(values)
  }

  function Joined(values: seq<bytes>): bytes {
    if values == [] then [] else if |values| == 1 then values[0] else values[0] + [10] + Joined(values[1..])
  }

  function ExtendedAll(data: bytes, values: seq<bytes>): bytes
    decreases |values|
  {
    if values == [] then data else ExtendedAll(Extended(data, values[0]), values[1..])
  }

  lemma {:induction false} ExtendedIsMessage(data: bytes, values: seq<bytes>)
    ensures ExtendedAll(data, values)
         == if data == [] then Message(values) else if values == [] then data else data + [10] + Joined(values)
    decreases |values|
  {
    if values != [] {
      var next := Extended(data, values[0]);
      ExtendedIsMessage(next, values[1..]);
      if data != [] && |values| > 1 {
        assert data + [10] + values[0] + [10] + Joined(values[1..]) == data + [10] + (values[0] + [10] + Joined(values[1..]));
      }
    }
  }

  lemma {:induction false} FieldsExtend(p: Parser, fields: seq<Field>, rest: bytes)
    requires p.buffer == [] && forall i | 0 <= i < |fields| :: Fits(fields[i])
    ensures Feed(Step, p, Lines(fields) + rest) == Feed(Step, p.(eventData := ExtendedAll(p.eventData, Values(fields))), rest)
    decreases |fields|
  {
    if fields == [] {
      assert Lines(fields) + rest == rest;
    } else {
      var f, tail := fields[0], Lines(fields[1..]) + rest;
      Assoc(LineOf(f) + [10], Lines(fields[1..]), rest);
      if f.Data? {
        DataLineExtends(p, f, tail);
        FieldsExtend(p.(eventData := Extended(p.eventData, f.value)), fields[1..], rest);
        assert Values(fields)[1..] == Values(fields[1..]);
      } else {
        OtherLineIsIgnored(p, f, tail);
        FieldsExtend(p, fields[1..], rest);
        assert Values(fields) == Values(fields[1..]);
      }
    }
  }

  // The lines of an event and the empty line behind them dispatch its message, or nothing
  // if that is empty, and leave the parser as it was before the event.
  lemma EventIsDispatched(dispatched: seq<bytes>, fields: seq<Field>, cr: bool, rest: bytes)
    requires forall i | 0 <= i < |fields| :: Fits(fields[i])
    ensures var message := Message(Values(fields));
            Feed(Step, Parser([], [], dispatched), Lines(fields) + (End(cr) + [10] + rest))
            == Feed(Step, Parser([], [], dispatched + if message == [] then [] else [message]), rest)
  {
    var p := Parser([], [], dispatched);
    FieldsExtend(p, fields, End(cr) + [10] + rest);
    ExtendedIsMessage([], Values(fields));
    var q := p.(eventData := Message(Values(fields)));
    FeedLine(q, End(cr), rest);
    assert [] + End(cr) == End(cr);
    WithoutEnd([], cr);
    assert [] + End(cr) == End(cr) && dispatched + [] == dispatched;
  }
}
