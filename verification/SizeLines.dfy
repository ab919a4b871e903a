/** How the size of a chunk may be written (section 7.1 of RFC 9112), and what the
    de-framer makes of it. */
module SizeLines {
  import opened Bytes
  import opened ChunkedFormat

  function Number(values: seq<nat>): nat {
    if values == [] then 0 else 16 * Number(values[..|values| - 1]) + values[|values| - 1]
  }

  lemma {:induction false} SpelledValue(digits: bytes, values: seq<nat>)
    requires Spells(digits, values)
    ensures AllHex(digits) && HexValue(digits) == Number(values)
  {
    if digits != [] {
      var n := |digits| - 1;
      SpelledValue(digits[..n], values[..n]);
      DigitsOfEitherCase(digits[n], values[n]);
      assert digits == digits[..n] + [digits[n]];
    }
  }

  // Any of the white space of C: tab to carriage return, and the space.
  predicate AllBlank(s: bytes) { forall i | 0 <= i < |s| :: s[i] == 32 || 9 <= s[i] <= 13 }

  lemma {:induction false} ExtensionIsCut(text: bytes, ext: bytes)
    requires 59 !in text && (ext == [] || ext[0] == 59)
    ensures BeforeExtension(text + ext) == text
  {
    if text == [] {
      assert text + ext == ext;
    } else {
      assert (text + ext)[1..] == text[1..] + ext;
      ExtensionIsCut(text[1..], ext);
    }
  }

  lemma {:induction false} BlanksAreCut(before: bytes, text: bytes, after: bytes)
    requires AllBlank(before) && AllBlank(after)
    requires text != [] && !IsSpace(text[0]) && !IsSpace(text[|text| - 1])
    ensures Trim(before + text + after) == text
    decreases |before| + |after|
  {
    var all := before + text + after;
    if before != [] {
      assert all[1..] == before[1..] + text + after;
      BlanksAreCut(before[1..], text, after);
    } else if after != [] {
      assert all[0] == text[0] && all[|all| - 1] == after[|after| - 1];
      assert all[..|all| - 1] == before + text + after[..|after| - 1];
      BlanksAreCut(before, text, after[..|after| - 1]);
    } else {
      assert all == text;
    }
  }

  lemma {:induction false} BlanksAreEmpty(blanks: bytes)
    requires AllBlank(blanks)
    ensures Trim(blanks) == []
  {
    if blanks != [] { BlanksAreEmpty(blanks[1..]); }
  }

  // A size line: white space, what is written, white space and an extension or nothing.
  function SizeText(before: bytes, text: bytes, after: bytes, ext: bytes): bytes { before + text + after + ext }

  lemma SizeTextIs(before: bytes, text: bytes, after: bytes, ext: bytes)
    requires AllBlank(before) && AllBlank(after) && (ext == [] || ext[0] == 59) && 59 !in text
    requires text == [] || (!IsSpace(text[0]) && !IsSpace(text[|text| - 1]))
    ensures Trim(BeforeExtension(SizeText(before, text, after, ext))) == text
  {
    ExtensionIsCut(before + text + after, ext);
    if text == [] {
      assert before + text + after == before + after;
      BlanksAreEmpty(before + after);
    } else {
      BlanksAreCut(before, text, after);
    }
  }

  // A number in hexadecimal digits of either case, with any leading zeros, white space
  // around it and any extension behind it, is read as that number, or refused if it is
  // more than the cap.
  lemma SizeIsRead(cap: nat, before: bytes, digits: bytes, values: seq<nat>, after: bytes, ext: bytes)
    requires AllBlank(before) && AllBlank(after) && (ext == [] || ext[0] == 59)
    requires digits != [] && Spells(digits, values)
    ensures HeaderSize(cap, SizeText(before, digits, after, ext))
         == if Number(values) <= cap then Ok(Number(values)) else Err(SizeTooLarge)
  {
    SpelledValue(digits, values);
    assert forall i | 0 <= i < |digits| :: IsHex(digits[i]);
    SizeTextIs(before, digits, after, ext);
    if Number(values) <= cap {
      SizeOfMeaning(cap, digits);
    } else {
      TooLarge(cap, digits);
    }
  }

  lemma {:induction false} TooLarge(cap: nat, digits: bytes)
    requires AllHex(digits) && HexValue(digits) > cap
    ensures SizeOf(cap, digits) == Err(SizeTooLarge)
  {
    var init := digits[..|digits| - 1];
    if HexValue(init) > cap {
      TooLarge(cap, init);
    } else {
      SizeOfMeaning(cap, init);
    }
  }

  // Nothing written at all is an empty size. The first byte that is no digit makes it
  // invalid, unless the digits before it are too much already.
  lemma BadSizeIsRefused(cap: nat, before: bytes, good: bytes, rest: bytes, after: bytes, ext: bytes)
    requires AllBlank(before) && AllBlank(after) && (ext == [] || ext[0] == 59)
    requires AllHex(good) && 59 !in rest && (rest == [] ==> good == [])
    requires rest != [] ==> !IsHex(rest[0]) && !IsSpace((good + rest)[0]) && !IsSpace(rest[|rest| - 1])
    ensures HeaderSize(cap, SizeText(before, good + rest, after, ext))
         == Err(if rest == [] then EmptySize else if HexValue(good) <= cap then InvalidSize else SizeTooLarge)
  {
    assert 59 !in good by {
      forall i | 0 <= i < |good| ensures good[i] != 59 { assert IsHex(good[i]); }
    }
    SizeTextIs(before, good + rest, after, ext);
    if rest != [] {
      assert (good + rest)[..|good|] == good && (good + rest)[..|good| + 1] == good + [rest[0]];
      if HexValue(good) <= cap {
        SizeOfMeaning(cap, good);
        assert (good + [rest[0]])[..|good|] == good;
        ErrorStays(cap, good + rest, |good| + 1);
      } else {
        TooLarge(cap, good);
        ErrorStays(cap, good + rest, |good|);
      }
    }
  }

  lemma {:induction false} ErrorStays(cap: nat, digits: bytes, n: nat)
    requires n <= |digits| && SizeOf(cap, digits[..n]).Err?
    ensures SizeOf(cap, digits) == SizeOf(cap, digits[..n])
    decreases |digits|
  {
    if n < |digits| {
      assert digits[..|digits| - 1][..n] == digits[..n];
      ErrorStays(cap, digits[..|digits| - 1], n);
    } else {
      assert digits[..n] == digits;
    }
  }

  // Two lines that differ in the case of ASCII letters only.
  predicate SameButCase(a: bytes, b: bytes) {
    |a| == |b| && forall i | 0 <= i < |a| :: a[i] == b[i] || (65 <= a[i] <= 90 && b[i] == a[i] + 32)
  }

  lemma {:induction false} CutsAlike(a: bytes, b: bytes)
    requires SameButCase(a, b)
    ensures SameButCase(BeforeExtension(a), BeforeExtension(b))
  {
    if a != [] { CutsAlike(a[1..], b[1..]); }
  }

  lemma {:induction false} TrimsAlike(a: bytes, b: bytes)
    requires SameButCase(a, b)
    ensures SameButCase(Trim(a), Trim(b))
    decreases |a|
  {
    if a != [] && IsSpace(a[0]) {
      TrimsAlike(a[1..], b[1..]);
    } else if a != [] && IsSpace(a[|a| - 1]) {
      TrimsAlike(a[..|a| - 1], b[..|b| - 1]);
    }
  }

  lemma {:induction false} ReadsAlike(cap: nat, a: bytes, b: bytes)
    requires SameButCase(a, b)
    ensures SizeOf(cap, a) == SizeOf(cap, b)
  {
    if a != [] { ReadsAlike(cap, a[..|a| - 1], b[..|b| - 1]); }
  }

  // The case of a size line's letters does not matter.
  lemma CaseDoesNotMatter(cap: nat, a: bytes, b: bytes)
    requires SameButCase(a, b)
    ensures HeaderSize(cap, a) == HeaderSize(cap, b)
  {
    CutsAlike(a, b);
    TrimsAlike(BeforeExtension(a), BeforeExtension(b));
    ReadsAlike(cap, Trim(BeforeExtension(a)), Trim(BeforeExtension(b)));
  }
}
