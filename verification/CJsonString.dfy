/** parse_string and print_string_ptr of cJSON (external/cJSON/cJSON.c) on their
    buffers: every write below is inside its allocation because the verifier says so. */
module CJsonString {
  import opened Bytes
  import opened Wrappers
  import opened JsonLiteral

  // ---- Parsing -------------------------------------------------------------

  method ParseHex4(input: bytes, at: nat) returns (h: nat)
    requires at + 4 <= |input|
    ensures h == Hex4(input, at)
  {
    h := 0;
    for i := 0 to 4
      invariant forall k | at <= k < at + i :: IsHex(input[k])
      invariant i == 0 ==> h == 0
      invariant i == 1 ==> h == HexDigit(input[at]) * 16
      invariant i == 2 ==> h == (HexDigit(input[at]) * 16 + HexDigit(input[at + 1])) * 16
      invariant i == 3 ==>
        h == ((HexDigit(input[at]) * 16 + HexDigit(input[at + 1])) * 16 + HexDigit(input[at + 2])) * 16
      invariant i == 4 ==> h == Hex4(input, at)
    {
      var c := input[at + i];
      if 48 <= c <= 57 {
        h := h + c - 48;
      } else if 65 <= c <= 70 {
        h := h + 10 + c - 65;
      } else if 97 <= c <= 102 {
        h := h + 10 + c - 97;
      } else {
        return 0;
      }
      if i < 3 {
        h := h * 16;
      }
    }
  }

  // codepoint >> (6 * n)
  function Shifted(c: nat, n: nat): nat { if n == 0 then c else Shifted(c, n - 1) / 64 }

  function Mark(length: nat): nat {
    if length == 1 then 0 else if length == 2 then 0xC0 else if length == 3 then 0xE0 else 0xF0
  }

  // The bytes of a character by their place: six bits each, from the last to the
  // second, and what is left in the first.
  lemma Utf8Byte(c: nat, k: nat)
    requires c <= 0x10FFFF && k < |Utf8(c)|
    ensures var six := Shifted(c, |Utf8(c)| - 1 - k);
            Utf8(c)[k] == if k > 0 then 0x80 + six % 64 else six + Mark(|Utf8(c)|)
  {
    assert Shifted(c, 0) == c;
    assert Shifted(c, 1) == c / 64;
    assert Shifted(c, 2) == c / 64 / 64;
    assert Shifted(c, 3) == c / 64 / 64 / 64;
  }

  method FirstMark(codepoint: nat) returns (length: nat, mark: nat)
    requires codepoint <= 0x10FFFF
    ensures length == |Utf8(codepoint)| && mark == Mark(length)
  {
    if codepoint < 0x80 {
      return 1, 0;
    } else if codepoint < 0x800 {
      return 2, 0xC0;
    } else if codepoint < 0x10000 {
      return 3, 0xE0;
    }
    return 4, 0xF0;
  }

  // The encoding loop of utf16_literal_to_utf8: continuation bytes from the last to the
  // second. (c | 0x80) & 0xBF keeps six bits and marks them. `c` is what is left.
  method WriteTail(output: array<byte>, at: nat, codepoint: nat, length: nat) returns (c: nat)
    requires codepoint <= 0x10FFFF && length == |Utf8(codepoint)| && at + length <= output.Length
    modifies output
    ensures c == Shifted(codepoint, length - 1)
    ensures forall k | 0 < k < length :: output[at + k] == Utf8(codepoint)[k]
    ensures forall k | 0 <= k < at || at + length <= k < output.Length :: output[k] == old(output[k])
  {
    ghost var utf8 := Utf8(codepoint);
    var position := length - 1;
    c := codepoint;
    while position > 0
      invariant 0 <= position < length
      invariant c == Shifted(codepoint, length - 1 - position)
      invariant forall k | position < k < length :: output[at + k] == utf8[k]
      invariant forall k | 0 <= k < at || at + length <= k < output.Length :: output[k] == old(output[k])
    {
      Utf8Byte(codepoint, position);
      output[at + position] := 0x80 + c % 64;
      c := c / 64;
      position := position - 1;
    }
  }

  // Then the first byte.
  method WriteUtf8(output: array<byte>, at: nat, codepoint: nat) returns (length: nat)
    requires codepoint <= 0x10FFFF && at + |Utf8(codepoint)| <= output.Length
    modifies output
    ensures length == |Utf8(codepoint)| && output[at..at + length] == Utf8(codepoint)
    ensures forall k | 0 <= k < at || at + length <= k < output.Length :: output[k] == old(output[k])
  {
    var mark;
    length, mark := FirstMark(codepoint);
    var c := WriteTail(output, at, codepoint, length);
    Utf8Byte(codepoint, 0);
    output[at] := if length > 1 then c + mark else c;
  }

  // The code point of one escape or of a surrogate pair.
  method ReadCode(input: bytes, p: nat, end: nat) returns (size: nat, codepoint: nat)
    requires p < end <= |input|
    ensures codepoint <= 0x10FFFF
    ensures Utf16(input, p, end) == if size == 0 then Bad else Good(size, Utf8(codepoint))
  {
    if end - p < 6 {
      return 0, 0;
    }
    var first := ParseHex4(input, p + 2);
    if 0xDC00 <= first <= 0xDFFF {
      return 0, 0;
    }
    if first < 0xD800 || first > 0xDBFF {
      return 6, first;
    }
    if end - (p + 6) < 6 || input[p + 6] != BACKSLASH || input[p + 7] != LETTER_U {
      return 0, 0;
    }
    var second := ParseHex4(input, p + 8);
    if second < 0xDC00 || second > 0xDFFF {
      return 0, 0;
    }
    return 12, 0x10000 + (first % 1024) * 1024 + second % 1024;
  }

  method Utf16LiteralToUtf8(input: bytes, p: nat, end: nat, output: array<byte>, at: nat)
    returns (size: nat, written: nat)
    requires p < end <= |input|
    requires Utf16(input, p, end).Good? ==> at + |Utf16(input, p, end).code| <= output.Length
    requires at <= output.Length
    modifies output
    ensures size == match Utf16(input, p, end) case Bad => 0 case Good(n, _) => n
    ensures match Utf16(input, p, end)
            case Bad => written == 0
            case Good(_, code) => written == |code| && output[at..at + written] == code
    ensures forall k | 0 <= k < at :: output[k] == old(output[k])
  {
    var codepoint;
    size, codepoint := ReadCode(input, p, end);
    if size == 0 {
      return 0, 0;
    }
    written := WriteUtf8(output, at, codepoint);
  }

  // The sizing loop.
  method FindStringEnd(content: bytes, start: nat) returns (found: bool, end: nat, skipped: nat)
    requires start <= |content|
    ensures found == FindEnd(content, start).End?
    ensures found ==> FindEnd(content, start) == End(end, skipped)
  {
    end, skipped := start, 0;
    while end < |content| && content[end] != QUOTE
      invariant FindEnd(content, end, skipped) == FindEnd(content, start)
      decreases |content| - end
    {
      if content[end] == BACKSLASH {
        if end + 1 >= |content| {
          return false, end, skipped;
        }
        skipped := skipped + 1;
        end := end + 1;
      }
      end := end + 1;
    }
    found := end < |content|;
  }

  // One round of the copying loop; the size is 0 when the text cannot be read.
  method CopyPiece(content: bytes, p: nat, end: nat, output: array<byte>, n: nat)
    returns (size: nat, written: nat)
    requires p < end < |content| && n <= output.Length
    requires PieceAt(content, p, end).Good? ==> n + |PieceAt(content, p, end).code| <= output.Length
    modifies output
    ensures match PieceAt(content, p, end)
            case Bad => size == 0
            case Good(k, code) =>
              size == k && written == |code| && output[..n + written] == old(output[..n]) + code
    ensures forall k | 0 <= k < n :: output[k] == old(output[k])
  {
    size, written := 2, 1;
    if content[p] != BACKSLASH {
      output[n] := content[p];
      size := 1;
    } else if content[p + 1] == LETTER_U {
      size, written := Utf16LiteralToUtf8(content, p, end, output, n);
    } else {
      match content[p + 1] {
        case 98 => output[n] := 8;
        case 102 => output[n] := 12;
        case 110 => output[n] := 10;
        case 114 => output[n] := 13;
        case 116 => output[n] := 9;
        case 34 => output[n] := 34;
        case 92 => output[n] := 92;
        case 47 => output[n] := 47;
        case _ => size := 0;
      }
    }
  }

  lemma BeforePiece(content: bytes, p: nat, end: nat, sofar: bytes)
    requires p < end < |content|
    ensures match PieceAt(content, p, end)
            case Bad => Before(sofar, Decode(content, p, end)) == Copied(sofar, p, false)
            case Good(size, code) =>
              Before(sofar, Decode(content, p, end)) == Before(sofar + code, Decode(content, p + size, end))
  {
    if PieceAt(content, p, end).Good? {
      Assoc(sofar, PieceAt(content, p, end).code, Decode(content, p + PieceAt(content, p, end).size, end).out);
    }
  }

  lemma CopiedNone(whole: Copy, sofar: bytes)
    requires sofar == []
    ensures Before(sofar, whole) == whole
  {
    assert sofar + whole.out == whole.out;
  }

  lemma CopiedAll(content: bytes, end: nat, stop: nat, sofar: bytes)
    requires end < |content| && end <= stop <= end + 1
    ensures Before(sofar, Decode(content, stop, end)) == Copied(sofar, stop, true)
  {
    assert sofar + [] == sofar;
  }

  // One round of the copying loop, within a reading that gives `whole`.
  method CopyNext(content: bytes, stop: nat, end: nat, output: array<byte>, n: nat, ghost whole: Copy)
    returns (size: nat, written: nat)
    requires stop < end < |content| && n <= output.Length && |whole.out| < output.Length
    requires whole == Before(output[..n], Decode(content, stop, end))
    modifies output
    ensures size == 0 ==> whole == Copied(output[..n], stop, false)
    ensures size > 0 ==>
              && n + written < output.Length && stop + size <= end + 1
              && whole == Before(output[..n + written], Decode(content, stop + size, end))
  {
    BeforePiece(content, stop, end, output[..n]);
    size, written := CopyPiece(content, stop, end, output, n);
    assert output[..n] == old(output[..n]);
  }

  // The copying loop, within a reading that gives `whole`.
  method CopyPieces(content: bytes, start: nat, end: nat, output: array<byte>, ghost whole: Copy)
    returns (ok: bool, n: nat, stop: nat)
    requires start <= end < |content| && |whole.out| < output.Length
    requires whole == Before([], Decode(content, start, end))
    modifies output
    ensures n <= output.Length && (ok ==> end <= stop <= end + 1)
    ensures whole == if ok then Before(output[..n], Decode(content, stop, end)) else Copied(output[..n], stop, false)
  {
    n, stop := 0, start;
    assert output[..0] == [];
    while stop < end
      invariant stop <= end + 1 && n <= output.Length
      invariant whole == Before(output[..n], Decode(content, stop, end))
      decreases end + 1 - stop
    {
      var size, written := CopyNext(content, stop, end, output, n, whole);
      if size == 0 {
        return false, n, stop;
      }
      stop, n := stop + size, n + written;
    }
    return true, n, stop;
  }

  method CopyString(content: bytes, start: nat, end: nat, output: array<byte>) returns (ok: bool, n: nat, stop: nat)
    requires start <= end < |content| && |Decode(content, start, end).out| < output.Length
    modifies output
    ensures n < output.Length && Decode(content, start, end) == Copied(output[..n], stop, ok)
  {
    ghost var whole := Decode(content, start, end);
    CopiedNone(whole, []);
    ok, n, stop := CopyPieces(content, start, end, output, whole);
    if ok { CopiedAll(content, end, stop, output[..n]); }
  }

  // parse_string. `allocates` is whether the allocator has the memory; `next` is the
  // offset it leaves in the input.
  method ParseString(content: bytes, offset: nat, allocates: bool)
    returns (ok: bool, valueString: array?<byte>, next: nat)
    requires offset < |content|
    ensures ok == (allocates && Parse(content, offset).Value?) == (valueString != null)
    ensures ok ==> var r := Parse(content, offset);
              && |r.text| < valueString.Length && valueString[..|r.text|] == r.text
              && valueString[|r.text|] == 0 && next == r.next
    ensures ok ==> valueString.Length == next - offset - FindEnd(content, offset + 1).skipped
    ensures !ok ==> next == if allocates then Parse(content, offset).at else offset + 1
    ensures valueString != null ==> fresh(valueString)
  {
    ok, valueString := false, null;
    var start := offset + 1;
    next := start;
    if content[offset] != QUOTE {
      return;
    }
    var found, end, skipped := FindStringEnd(content, start);
    if !found || !allocates {
      return;
    }
    ParseFitsItsAllocation(content, offset);
    var output := new byte[end - offset - skipped + 1];
    var copied, n, stop := CopyString(content, start, end, output);
    if !copied {
      return false, null, stop;
    }
    output[n] := 0;
    return true, output, end + 1;
  }

  // ---- Printing ------------------------------------------------------------

  // printbuffer, as far as strings need it. cJSON_PrintPreallocated may be given an
  // empty buffer, and cJSON_PrintBuffered makes one when it is asked for no bytes.
  class PrintBuffer {
    var buffer: array?<byte>
    var length: nat
    var offset: nat
    const noAlloc: bool
    const reallocates: bool    // hooks.reallocate is set

    ghost predicate Valid()
      reads this
    {
      && length <= INT_MAX
      && (if buffer == null then length == 0 else buffer.Length == length)
      && (buffer != null && length == 0 ==> offset == 0)
    }

    constructor (buffer: array<byte>, noAlloc: bool, reallocates: bool)
      requires buffer.Length <= INT_MAX
      ensures Valid() && this.buffer == buffer && offset == 0
      ensures this.noAlloc == noAlloc && this.reallocates == reallocates
    {
      this.buffer, length, offset, this.noAlloc, this.reallocates := buffer, buffer.Length, 0, noAlloc, reallocates;
    }

    function Contents(): bytes
      reads this, buffer
    {
      if buffer == null then [] else buffer[..]
    }

    // Whether `needed` bytes and a terminator fit, as they are or after growing.
    predicate Fits(needed: nat)
      reads this
    {
      buffer != null && (length > 0 ==> offset < length) && needed <= INT_MAX && needed + offset + 1 <= length
    }

    predicate Grows(needed: nat)
      reads this
    {
      && buffer != null && (length > 0 ==> offset < length) && needed <= INT_MAX
      && length < needed + offset + 1 <= INT_MAX && !noAlloc
    }

    // ensure, with an allocator that has the memory or not. A reallocating hook keeps
    // the whole old buffer, a manual copy what is up to the offset and the byte there.
    // `copied` is how many bytes of the old buffer that reads: all of them are there
    // unless an empty buffer is copied by hand.
    method Ensure(needed: nat, allocates: bool) returns (ok: bool, ghost copied: nat)
      requires Valid()
      modifies this`buffer, this`length
      ensures Valid()
      ensures ok == old(Fits(needed) || (Grows(needed) && allocates))
      ensures ok ==> buffer != null && offset + needed + 1 <= length
      ensures ok ==> offset <= |old(Contents())| && forall k | 0 <= k < offset :: buffer[k] == old(Contents())[k]
      ensures !old(Grows(needed)) ==> buffer == old(buffer) && length == old(length)
      ensures old(Grows(needed)) && allocates ==>
                fresh(buffer) && (length == 2 * (needed + offset + 1) || length == INT_MAX)
      ensures old(Grows(needed)) && allocates && reallocates ==> buffer[..old(length)] == old(Contents())
      ensures old(Grows(needed)) && !allocates ==> buffer == null
      ensures copied == if old(Grows(needed)) && allocates then (if reallocates then old(length) else offset + 1) else 0
      ensures copied <= |old(Contents())| <==> !(old(Grows(needed)) && allocates && !reallocates && old(length) == 0)
    {
      if buffer == null || (length > 0 && offset >= length) || needed > INT_MAX {
        return false, 0;
      }
      var total := needed + offset + 1;
      if total <= length {
        return true, 0;
      }
      if noAlloc {
        return false, 0;
      }
      var newSize;
      if total > INT_MAX / 2 {
        if total > INT_MAX {
          return false, 0;
        }
        newSize := INT_MAX;
      } else {
        newSize := total * 2;
      }
      if !allocates {
        length, buffer := 0, null;
        return false, 0;
      }
      var newBuffer := new byte[newSize];
      var kept := if reallocates then length else offset + 1;
      forall i | 0 <= i < kept && i < length {
        newBuffer[i] := buffer[i];
      }
      length, buffer := newSize, newBuffer;
      return true, kept;
    }
  }

  // A C string.
  ghost predicate IsCString(input: array<byte>, s: bytes)
    reads input
  {
    |s| < input.Length && input[..|s|] == s && input[|s|] == 0 && 0 !in s
  }

  lemma TerminatorEnds(input: array<byte>, s: bytes, i: nat)
    requires IsCString(input, s) && i <= |s| && input[i] == 0
    ensures i == |s|
  {
    assert forall k | 0 <= k < |s| :: input[k] == s[k] && s[k] in s;
  }

  lemma PrintedLonger(s: bytes, i: nat)
    requires i < |s|
    ensures Printed(s[..i + 1]) == Printed(s[..i]) + PrintByte(s[i])
    ensures |Printed(s[..i + 1])| <= |Printed(s)|
  {
    assert s[..i + 1] == s[..i] + [s[i]];
    PrintedSnoc(s[..i], s[i]);
    PrintedGrows(s, i + 1);
  }

  lemma {:induction false} PrintedGrows(s: bytes, i: nat)
    requires i <= |s|
    ensures i <= |Printed(s[..i])| <= |Printed(s)|
    ensures i + |Printed(s)| - |Printed(s[..i])| >= |s|
    decreases |s|
  {
    if i == |s| {
      assert s[..i] == s;
      if s != [] {
        PrintedGrows(s[..|s| - 1], |s| - 1);
        assert s[..|s| - 1] + [s[|s| - 1]] == s;
        PrintedSnoc(s[..|s| - 1], s[|s| - 1]);
      }
    } else {
      PrintedGrows(s[..|s| - 1], i);
      assert s[..|s| - 1][..i] == s[..i];
      assert s[..|s| - 1] + [s[|s| - 1]] == s;
      PrintedSnoc(s[..|s| - 1], s[|s| - 1]);
    }
  }

  // Where nothing has to be escaped the text is copied as it is.
  lemma {:induction false} PrintedPlain(s: bytes)
    requires |Printed(s)| == |s|
    ensures Printed(s) == s
    decreases |s|
  {
    if s != [] {
      var front, last := s[..|s| - 1], s[|s| - 1];
      assert front + [last] == s;
      PrintedSnoc(front, last);
      PrintedGrows(front, |front|);
      assert front[..|front|] == front;
      PrintedPlain(front);
    }
  }

  // The counting loop: the length of the string and how much escaping adds to it.
  method CountEscapes(input: array<byte>, ghost s: bytes) returns (length: nat, escapes: nat)
    requires IsCString(input, s)
    ensures length == |s| && length + escapes == |Printed(s)|
  {
    length, escapes := 0, 0;
    assert s[..0] == [];
    while input[length] != 0
      invariant length <= |s| && length + escapes == |Printed(s[..length])|
      decreases |s| - length
    {
      var b := input[length];
      assert b == s[length];
      PrintedLonger(s, length);
      match b {
        case 34 => escapes := escapes + 1;
        case 92 => escapes := escapes + 1;
        case 8 => escapes := escapes + 1;
        case 12 => escapes := escapes + 1;
        case 10 => escapes := escapes + 1;
        case 13 => escapes := escapes + 1;
        case 9 => escapes := escapes + 1;
        case _ =>
          if b < 32 {
            escapes := escapes + 5;
          }
      }
      length := length + 1;
    }
    TerminatorEnds(input, s, length);
    assert s[..length] == s;
  }

  // One round of the writing loop.
  method WriteByte(output: array<byte>, at: nat, b: byte) returns (next: nat)
    requires at + |PrintByte(b)| < output.Length
    modifies output
    ensures next == at + |PrintByte(b)| && output[at..next] == PrintByte(b)
    ensures forall k | 0 <= k < at || next < k < output.Length :: output[k] == old(output[k])
  {
    next := at;
    if b > 31 && b != QUOTE && b != BACKSLASH {
      output[next] := b;
    } else {
      output[next] := BACKSLASH;
      next := next + 1;
      match b {
        case 92 => output[next] := 92;
        case 34 => output[next] := 34;
        case 8 => output[next] := 98;
        case 12 => output[next] := 102;
        case 10 => output[next] := 110;
        case 13 => output[next] := 114;
        case 9 => output[next] := 116;
        case _ =>
          WriteHex(output, next, b);
          next := next + 4;
      }
    }
    next := next + 1;
    assert output[at..next] == PrintByte(b);
  }

  // sprintf's "u%04x", whose terminator the next byte or the closing quote replaces.
  method WriteHex(output: array<byte>, at: nat, b: byte)
    requires at + 5 < output.Length
    modifies output
    ensures output[at..at + 5] == [LETTER_U, 48, 48, LowHex(b / 16), LowHex(b % 16)]
    ensures forall k | 0 <= k < at || at + 6 <= k < output.Length :: output[k] == old(output[k])
  {
    output[at], output[at + 1], output[at + 2] := LETTER_U, 48, 48;
    output[at + 3], output[at + 4], output[at + 5] := LowHex(b / 16), LowHex(b % 16), 0;
  }

  lemma Extended(before: bytes, after: bytes, start: nat, here: nat, at: nat)
    requires start <= here <= at <= |before| == |after| && forall k | 0 <= k < here :: after[k] == before[k]
    ensures after[start..at] == before[start..here] + after[here..at]
  {
  }

  // The writing loop.
  method WriteAll(input: array<byte>, output: array<byte>, start: nat, ghost s: bytes)
    requires input != output && IsCString(input, s) && start + |Printed(s)| < output.Length
    modifies output
    ensures output[start..start + |Printed(s)|] == Printed(s)
    ensures forall k | 0 <= k < start || start + |Printed(s)| < k < output.Length :: output[k] == old(output[k])
  {
    var i: nat, at: nat := 0, start;
    assert s[..0] == [] && Printed([]) == [];
    while input[i] != 0
      invariant i <= |s| && at == start + |Printed(s[..i])| <= start + |Printed(s)|
      invariant IsCString(input, s)
      invariant output[..][start..at] == Printed(s[..i])
      invariant forall k | 0 <= k < start || start + |Printed(s)| < k < output.Length :: output[k] == old(output[k])
      decreases |s| - i
    {
      PrintedLonger(s, i);
      ghost var before, here := output[..], at;
      at := WriteByte(output, at, input[i]);
      Extended(before, output[..], start, here, at);
      assert output[..][here..at] == output[here..at];
      i := i + 1;
    }
    TerminatorEnds(input, s, i);
    assert s[..i] == s && output[..][start..at] == output[start..at];
  }

  // Between the quotes: as it is, if nothing has to be escaped.
  method WriteBody(input: array<byte>, output: array<byte>, start: nat, length: nat, escapes: nat, ghost s: bytes)
    requires input != output && IsCString(input, s) && length == |s| && length + escapes == |Printed(s)|
    requires start + |Printed(s)| < output.Length
    modifies output
    ensures output[start..start + |Printed(s)|] == Printed(s)
    ensures forall k | 0 <= k < start || start + |Printed(s)| < k < output.Length :: output[k] == old(output[k])
  {
    if escapes == 0 {
      PrintedPlain(s);
      forall i | 0 <= i < length {
        output[start + i] := input[i];
      }
    } else {
      WriteAll(input, output, start, s);
    }
  }

  lemma Enclosed(all: bytes, base: nat, s: bytes)
    requires base + |Print(s)| + 1 <= |all|
    requires all[base] == QUOTE && all[base + 1..base + 1 + |Printed(s)|] == Printed(s)
    requires all[base + |Print(s)| - 1] == QUOTE && all[base + |Print(s)|] == 0
    ensures all[base..base + |Print(s)| + 1] == Print(s) + [0]
  {
  }

  // The quotes, what is between them and the terminator, once there is room.
  method WriteLiteral(input: array<byte>, output: array<byte>, base: nat, length: nat, escapes: nat, ghost s: bytes)
    requires input != output && IsCString(input, s) && length == |s| && length + escapes == |Printed(s)|
    requires base + length + escapes + 3 <= output.Length
    modifies output
    ensures output[base..base + |Print(s)| + 1] == Print(s) + [0]
    ensures forall k | 0 <= k < base || base + |Print(s)| < k < output.Length :: output[k] == old(output[k])
  {
    WriteBody(input, output, base + 1, length, escapes, s);
    var end := base + length + escapes + 1;
    output[base], output[end], output[end + 1] := QUOTE, QUOTE, 0;
    Enclosed(output[..], base, s);
    assert output[base..base + |Print(s)| + 1] == output[..][base..base + |Print(s)| + 1];
  }

  method WriteEmpty(output: array<byte>, base: nat)
    requires base + 3 <= output.Length
    modifies output
    ensures output[base..base + 3] == [QUOTE, QUOTE, 0]
    ensures forall k | 0 <= k < base || base + 3 <= k < output.Length :: output[k] == old(output[k])
  {
    output[base], output[base + 1], output[base + 2] := QUOTE, QUOTE, 0;
  }

  // print_string_ptr: the literal and a terminator from the buffer's offset on, and
  // nothing else touched.
  method PrintStringPtr(input: array?<byte>, p: PrintBuffer, allocates: bool, ghost s: bytes)
    returns (ok: bool, ghost copied: nat)
    requires p.Valid() && (input != null ==> input != p.buffer && IsCString(input, s)) && (input == null ==> s == [])
    modifies p`buffer, p`length, p.buffer
    ensures p.Valid()
    ensures ok == old(p.Fits(|Print(s)| + 1) || (p.Grows(|Print(s)| + 1) && allocates))
    ensures ok ==> p.buffer != null && p.offset + |Print(s)| + 1 <= p.length
    ensures ok ==> p.buffer[p.offset..p.offset + |Print(s)| + 1] == Print(s) + [0]
    ensures ok ==> p.offset <= |old(p.Contents())| && forall k | 0 <= k < p.offset :: p.buffer[k] == old(p.Contents())[k]
    ensures copied <= |old(p.Contents())| <==>
              !(old(p.Grows(|Print(s)| + 1)) && allocates && !p.reallocates && old(p.length) == 0)
    ensures ok && p.buffer == old(p.buffer) ==>
              forall k | p.offset + |Print(s)| < k < p.length :: p.buffer[k] == old(p.Contents())[k]
  {
    if input == null {
      assert Print(s) == [QUOTE, QUOTE];
      ok, copied := p.Ensure(3, allocates);
      if ok {
        WriteEmpty(p.buffer, p.offset);
      }
      return;
    }
    var length, escapes := CountEscapes(input, s);
    ok, copied := p.Ensure(length + escapes + 3, allocates);
    if ok {
      WriteLiteral(input, p.buffer, p.offset, length, escapes, s);
    }
  }
}
