/** Bytes, and the few facts about byte strings the stream machines share. */
module Bytes {
  type byte = b: int | 0 <= b < 0x100
  type bytes = seq<byte>

  // The source's size_t.
  const SIZE_LIMIT: nat := 0x1_0000_0000_0000_0000
  type size_t = n: int | 0 <= n < SIZE_LIMIT

  // The largest value of a 32-bit int.
  const INT_MAX: nat := 0x7FFF_FFFF

  const TAB: byte := 9
  const LF: byte := 10
  const CR: byte := 13
  const SPACE: byte := 32
  const CRLF: bytes := [13, 10]
  // Full-width parentheses.
  const OPEN: bytes := [0xEF, 0xBC, 0x88]
  const CLOSE: bytes := [0xEF, 0xBC, 0x89]

  // std::isspace in the C locale.
  predicate IsSpace(b: byte) { b == SPACE || 9 <= b <= 13 }

  // Tab, line feed, vertical tab, form feed, carriage return and space, and nothing else.
  lemma SpaceIff(b: byte)
    ensures IsSpace(b) <==> b in [9, 10, 11, 12, 13, 32]
  {
  }

  // ASCII letters in lower case.
  function Lower(b: byte): byte { if 65 <= b <= 90 then b + 32 else b }

  function Flatten(pieces: seq<bytes>): bytes {
    if pieces == [] then [] else pieces[0] + Flatten(pieces[1..])
  }

  lemma {:induction false} FlattenAppend(a: seq<bytes>, b: seq<bytes>)
    ensures Flatten(a + b) == Flatten(a) + Flatten(b)
  {
    if a == [] {
      assert a + b == b;
    } else {
      assert (a + b)[1..] == a[1..] + b;
      FlattenAppend(a[1..], b);
    }
  }

  lemma Assoc(a: bytes, b: bytes, c: bytes)
    ensures (a + b) + c == a + (b + c)
  {
  }

  // A stretch of what is left of `s`, whatever follows it.
  lemma Within(s: bytes, pos: nat, more: bytes, lo: nat, hi: nat)
    requires lo <= hi && pos + hi <= |s|
    ensures (s[pos..] + more)[lo..hi] == s[pos + lo..pos + hi]
  {
    var left := s[pos..] + more;
    forall i | 0 <= i < hi - lo
      ensures left[lo..hi][i] == s[pos + lo..pos + hi][i]
    {
      assert left[lo + i] == s[pos..][lo + i];
    }
  }

  function Trim(s: bytes): bytes
    decreases |s|
  {
    if s == [] then s
    else if IsSpace(s[0]) then Trim(s[1..])
    else if IsSpace(s[|s| - 1]) then Trim(s[..|s| - 1])
    else s
  }

  // ---- Hexadecimal ---------------------------------------------------------

  predicate IsHex(b: byte) { 48 <= b <= 57 || 65 <= b <= 70 || 97 <= b <= 102 }

  function HexDigit(b: byte): (d: nat)
    requires IsHex(b)
    ensures d < 16
  {
    if b <= 57 then b - 48 else if b <= 70 then b - 55 else b - 87
  }

  predicate AllHex(s: bytes) { forall i | 0 <= i < |s| :: IsHex(s[i]) }

  function HexValue(s: bytes): nat
    requires AllHex(s)
  {
    if s == [] then 0 else HexValue(s[..|s| - 1]) * 16 + HexDigit(s[|s| - 1])
  }

  lemma {:induction false} HexValuePrefix(s: bytes, n: nat)
    requires AllHex(s) && n <= |s|
    ensures HexValue(s[..n]) <= HexValue(s)
    decreases |s|
  {
    if n < |s| {
      HexValuePrefix(s[..|s| - 1], n);
      assert s[..|s| - 1][..n] == s[..n];
    } else {
      assert s[..n] == s;
    }
  }

  const UPPER: bytes := [48, 49, 50, 51, 52, 53, 54, 55, 56, 57, 65, 66, 67, 68, 69, 70]
  const LOWER: bytes := [48, 49, 50, 51, 52, 53, 54, 55, 56, 57, 97, 98, 99, 100, 101, 102]

  // A digit in either case is its place in the alphabet, and nothing else is a digit.
  lemma DigitsOfEitherCase(b: byte, d: nat)
    requires d < 16
    ensures IsHex(UPPER[d]) && IsHex(LOWER[d]) && HexDigit(UPPER[d]) == HexDigit(LOWER[d]) == d
    ensures IsHex(b) <==> b in UPPER || b in LOWER
  {
    if IsHex(b) {
      assert UPPER[HexDigit(b)] == b || LOWER[HexDigit(b)] == b;
    }
  }

  // Digit by digit the same number, most significant digit first.
  predicate Spells(digits: bytes, values: seq<nat>) {
    |digits| == |values| &&
    forall i | 0 <= i < |digits| :: values[i] < 16 && (digits[i] == UPPER[values[i]] || digits[i] == LOWER[values[i]])
  }
}
