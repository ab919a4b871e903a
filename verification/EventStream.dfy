/** Server-sent events (section 9.2.6 of the WHATWG HTML standard): `write_sse`
    (app/server/runtime.cpp) and `SseDeltaParser` (app/server/llm_client.cpp). */
module EventStream {
  import opened Bytes
  import opened Stream

  const DATA: bytes := [100, 97, 116, 97, 58]
  const PREFIX: bytes := [100, 97, 116, 97, 58, 32]

  // The text `write_sse` writes for one payload.
  function EventText(payload: bytes): bytes { PREFIX + payload + [LF, LF] }

  // The parser's fields, and the payload of every event dispatched so far.
  datatype Parser = Parser(buffer: bytes, eventData: bytes, dispatched: seq<bytes>)

  const START := Parser([], [], [])

  function WithoutCr(line: bytes): bytes {
    if line != [] && line[|line| - 1] == CR then line[..|line| - 1] else line
  }

  function FieldValue(line: bytes): bytes
    requires DATA <= line
  {
    var value := line[5..];
    if value != [] && value[0] == SPACE then value[1..] else value
  }

  function TakeLine(p: Parser, raw: bytes): Parser {
    var line := WithoutCr(raw);
    if line == [] then
      if p.eventData == [] then p else Parser(p.buffer, [], p.dispatched + [p.eventData])
    else if DATA <= line then
      p.(eventData := (if p.eventData == [] then [] else p.eventData + [LF]) + FieldValue(line))
    else p
  }

  function Step(p: Parser, b: byte): Parser {
    if b == LF then TakeLine(p.(buffer := []), p.buffer) else p.(buffer := p.buffer + [b])
  }

  lemma {:induction false} FeedLine(p: Parser, line: bytes, rest: bytes)
    requires LF !in line
    ensures Feed(Step, p, line + [LF] + rest) == Feed(Step, TakeLine(p.(buffer := []), p.buffer + line), rest)
    decreases |line|
  {
    var data := line + [LF] + rest;
    if line == [] {
      assert p.buffer + line == p.buffer;
      assert data[0] == LF && data[1..] == rest;
    } else {
      assert data[0] == line[0] && data[1..] == line[1..] + [LF] + rest;
      assert p.buffer + [line[0]] + line[1..] == p.buffer + line;
      FeedLine(Step(p, line[0]), line[1..], rest);
    }
  }

  // A payload the framing can carry.
  predicate Framable(payload: bytes) {
    payload != [] && LF !in payload && payload[|payload| - 1] != CR
  }

  lemma DataField(value: bytes)
    ensures DATA <= PREFIX + value && FieldValue(PREFIX + value) == value
  {
    var line := PREFIX + value;
    assert line[..5] == DATA;
    assert line[5..][0] == SPACE && line[5..][1..] == value;
  }

  // The data line of a payload gives the payload without its last CR, if any.
  lemma DataLine(dispatched: seq<bytes>, payload: bytes)
    ensures TakeLine(Parser([], [], dispatched), PREFIX + payload) == Parser([], WithoutCr(payload), dispatched)
  {
    var line := PREFIX + payload;
    assert WithoutCr(line) == PREFIX + WithoutCr(payload) by {
      if payload != [] {
        assert line[|line| - 1] == payload[|payload| - 1];
        assert line[..|line| - 1] == PREFIX + payload[..|payload| - 1];
      } else {
        assert line == PREFIX && payload == WithoutCr(payload);
      }
    }
    DataField(WithoutCr(payload));
    assert [] + WithoutCr(payload) == WithoutCr(payload);
  }

  lemma EventRoundTrip(dispatched: seq<bytes>, payload: bytes, rest: bytes)
    requires Framable(payload)
    ensures Feed(Step, Parser([], [], dispatched), EventText(payload) + rest)
         == Feed(Step, Parser([], [], dispatched + [payload]), rest)
  {
    var p := Parser([], [], dispatched);
    var line := PREFIX + payload;
    var tail := [LF] + rest;
    assert EventText(payload) + rest == line + [LF] + tail;
    FeedLine(p, line, tail);
    assert [] + line == line;
    var q := Parser([], payload, dispatched);
    DataLine(dispatched, payload);
    FeedLine(q, [], rest);
    assert [] + [LF] + rest == tail && q.buffer + [] == [];
  }

  // ---- Which payloads survive ----------------------------------------------

  function Weight(dispatched: seq<bytes>): nat {
    if dispatched == [] then 0 else Weight(dispatched[..|dispatched| - 1]) + |dispatched[|dispatched| - 1]|
  }

  function Held(p: Parser): nat { |p.buffer| + |p.eventData| + Weight(p.dispatched) }

  // The parser never holds or hands out more bytes than it was given.
  lemma {:induction false} HeldBounded(p: Parser, data: bytes)
    ensures Held(Feed(Step, p, data)) <= Held(p) + |data|
    decreases |data|
  {
    if data != [] {
      var q := Step(p, data[0]);
      if q.dispatched != p.dispatched {
        assert q.dispatched[..|p.dispatched|] == p.dispatched;
      }
      HeldBounded(q, data[1..]);
    }
  }

  lemma FirstLine(payload: bytes, at: nat)
    requires at < |payload| && payload[at] == LF && LF !in payload[..at]
    ensures var q := TakeLine(START, PREFIX + payload[..at]);
            Held(q) <= at && Feed(Step, START, EventText(payload)) == Feed(Step, q, payload[at + 1..] + [LF, LF])
  {
    var line := PREFIX + payload[..at];
    var rest := payload[at + 1..] + [LF, LF];
    assert EventText(payload) == line + [LF] + rest;
    FeedLine(START, line, rest);
    assert [] + line == line;
    DataLine([], payload[..at]);
  }

  lemma LostAtLf(payload: bytes)
    requires LF in payload
    ensures Feed(Step, START, EventText(payload)).dispatched != [payload]
  {
    var at := FindLf(payload, 0);
    assert payload[0..at] == payload[..at];
    FirstLine(payload, at);
    var q := TakeLine(START, PREFIX + payload[..at]);
    var tail: bytes := [LF, LF];
    FeedConcat(Step, q, payload[at + 1..], tail);
    HeldBounded(q, payload[at + 1..]);
    var r := Feed(Step, q, payload[at + 1..]);
    FeedTwo(r);
    BlankLineKeepsHeld(r);
    BlankLineKeepsHeld(Step(r, LF));
    assert [payload][..0] == [];
    assert Weight([payload]) == |payload|;
  }

  lemma FeedTwo(p: Parser)
    ensures Feed(Step, p, [LF, LF]) == Step(Step(p, LF), LF)
  {
    assert [LF, LF][1..] == [LF] && [LF][1..] == [];
    assert Feed(Step, p, [LF, LF]) == Feed(Step, Step(p, LF), [LF]);
    assert Feed(Step, Step(p, LF), [LF]) == Feed(Step, Step(Step(p, LF), LF), []);
  }

  lemma BlankLineKeepsHeld(p: Parser)
    ensures Held(Step(p, LF)) <= Held(p)
  {
    var q := Step(p, LF);
    if q.dispatched != p.dispatched {
      assert q.dispatched[..|p.dispatched|] == p.dispatched;
    }
  }

  lemma WholeEvent(payload: bytes)
    requires LF !in payload
    ensures Feed(Step, START, EventText(payload)) == Step(TakeLine(START, PREFIX + payload), LF)
  {
    var line := PREFIX + payload;
    var q := TakeLine(START, line);
    assert EventText(payload) == line + [LF] + [LF] && [] + line == line;
    FeedLine(START, line, [LF]);
    assert [LF][1..] == [];
    assert Feed(Step, q, [LF]) == Feed(Step, Step(q, LF), []);
  }

  // A payload without a newline that is empty or ends in CR loses that CR.
  lemma LostAtCr(payload: bytes)
    requires LF !in payload && (payload == [] || payload[|payload| - 1] == CR)
    ensures Feed(Step, START, EventText(payload)).dispatched != [payload]
  {
    WholeEvent(payload);
    DataLine([], payload);
    var dispatched := Step(Parser([], WithoutCr(payload), []), LF).dispatched;
    assert dispatched == [] || (dispatched[0] == WithoutCr(payload) && payload != []);
    assert [payload][0] == payload;
  }

  // A payload comes back as the one event it was sent as exactly when it is
  // framable.
  lemma RoundTripIffFramable(payload: bytes)
    ensures Feed(Step, START, EventText(payload)).dispatched == [payload] <==> Framable(payload)
  {
    if Framable(payload) {
      EventRoundTrip([], payload, []);
      assert EventText(payload) + [] == EventText(payload) && [] + [payload] == [payload];
    } else if LF in payload {
      LostAtLf(payload);
    } else {
      LostAtCr(payload);
    }
  }

  function Texts(payloads: seq<bytes>): seq<bytes> {
    if payloads == [] then [] else [EventText(payloads[0])] + Texts(payloads[1..])
  }

  lemma {:induction false} EventsRoundTrip(dispatched: seq<bytes>, payloads: seq<bytes>)
    requires forall p <- payloads :: Framable(p)
    ensures Feed(Step, Parser([], [], dispatched), Flatten(Texts(payloads))) == Parser([], [], dispatched + payloads)
    decreases |payloads|
  {
    if payloads == [] {
      assert dispatched + payloads == dispatched;
    } else {
      var t := Texts(payloads);
      assert t[1..] == Texts(payloads[1..]);
      EventRoundTrip(dispatched, payloads[0], Flatten(t[1..]));
      EventsRoundTrip(dispatched + [payloads[0]], payloads[1..]);
      assert dispatched + [payloads[0]] + payloads[1..] == dispatched + payloads;
    }
  }

  // ---- The parser as an object ---------------------------------------------

  // The first newline at or after `start`, or |s|.
  function FindLf(s: bytes, start: nat): (at: nat)
    requires start <= |s|
    ensures start <= at <= |s| && LF !in s[start..at] && (at < |s| ==> s[at] == LF)
    decreases |s| - start
  {
    if start == |s| || s[start] == LF then start
    else
      var at := FindLf(s, start + 1);
      assert s[start..at] == [s[start]] + s[start + 1..at];
      at
  }

  lemma {:induction false} FeedPartial(p: Parser, text: bytes)
    requires LF !in text
    ensures Feed(Step, p, text) == p.(buffer := p.buffer + text)
    decreases |text|
  {
    if text == [] {
      assert p.buffer + text == p.buffer;
    } else {
      assert p.buffer + [text[0]] + text[1..] == p.buffer + text;
      FeedPartial(Step(p, text[0]), text[1..]);
    }
  }

  function Map<T>(f: bytes -> T, s: seq<bytes>): seq<T> { seq(|s|, i requires 0 <= i < |s| => f(s[i])) }

  class SseDeltaParser<Event> {
    // `parse_payload`: what a payload means is not part of this model.
    const parsePayload: bytes -> Event
    var buffer: bytes
    var eventData: bytes
    ghost var dispatched: seq<bytes>

    ghost function View(): Parser
      reads this
    {
      Parser(buffer, eventData, dispatched)
    }

    constructor (parsePayload: bytes -> Event)
      ensures View() == START && this.parsePayload == parsePayload
    {
      this.parsePayload := parsePayload;
      buffer, eventData, dispatched := [], [], [];
    }

    // One complete line: the event it dispatches, if any.
    method HandleLine(raw: bytes) returns (events: seq<Event>, ghost added: seq<bytes>)
      modifies this`eventData, this`dispatched
      ensures Parser([], eventData, dispatched) == TakeLine(Parser([], old(eventData), old(dispatched)), raw)
      ensures dispatched == old(dispatched) + added && events == Map(parsePayload, added)
    {
      events, added := [], [];
      var line := WithoutCr(raw);
      if line == [] {
        if eventData != [] {
          events, added := [parsePayload(eventData)], [eventData];
          dispatched := dispatched + [eventData];
          eventData := [];
        }
        return;
      }
      if DATA <= line {
        var payload := line[5..];
        if payload != [] && payload[0] == SPACE {
          payload := payload[1..];
        }
        if eventData != [] {
          eventData := eventData + [LF];
        }
        eventData := eventData + payload;
        assert [] + payload == payload;
      }
    }

    method FeedBytes(data: bytes) returns (events: seq<Event>)
      requires LF !in buffer
      modifies this
      ensures View() == Feed(Step, old(View()), data) && LF !in buffer
      ensures old(dispatched) <= dispatched && events == Map(parsePayload, dispatched[|old(dispatched)|..])
    {
      events := [];
      ghost var target, mine := Feed(Step, View(), data), [];
      Buffered(Parser([], eventData, dispatched), buffer, data);
      buffer := buffer + data;
      var start := 0;
      while true
        invariant start <= |buffer|
        invariant Feed(Step, Parser([], eventData, dispatched), buffer[start..]) == target
        invariant dispatched == old(dispatched) + mine && events == Map(parsePayload, mine)
        decreases |buffer| - start
      {
        var newline := FindLf(buffer, start);
        if newline == |buffer| {
          break;
        }
        NextLine(Parser([], eventData, dispatched), buffer, start, newline);
        ghost var added;
        var found;
        found, added := HandleLine(buffer[start..newline]);
        start := newline + 1;
        events := events + found;
        MapConcat(parsePayload, mine, added);
        mine := mine + added;
      }
      FeedPartial(Parser([], eventData, dispatched), buffer[start..]);
      buffer := buffer[start..];
      assert [] + buffer == buffer;
      assert dispatched[|old(dispatched)|..] == mine;
    }
  }

  lemma MapConcat<T>(f: bytes -> T, a: seq<bytes>, b: seq<bytes>)
    ensures Map(f, a) + Map(f, b) == Map(f, a + b)
  {
  }

  // What is kept in the buffer was fed already.
  lemma Buffered(p: Parser, kept: bytes, data: bytes)
    requires LF !in kept && p.buffer == []
    ensures Feed(Step, p, kept + data) == Feed(Step, p.(buffer := kept), data)
  {
    FeedPartial(p, kept);
    FeedConcat(Step, p, kept, data);
    assert [] + kept == kept;
  }

  lemma NextLine(p: Parser, buffer: bytes, start: nat, newline: nat)
    requires start <= newline < |buffer| && LF !in buffer[start..newline] && buffer[newline] == LF && p.buffer == []
    ensures Feed(Step, p, buffer[start..]) == Feed(Step, TakeLine(p, buffer[start..newline]), buffer[newline + 1..])
  {
    var line, rest := buffer[start..newline], buffer[newline + 1..];
    assert buffer[start..] == line + [LF] + rest;
    assert [] + line == line;
    FeedLine(p, line, rest);
  }
}
