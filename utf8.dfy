/**
 * Strict UTF-8 well-formedness (the well-formed byte sequences of the Unicode
 * Standard, table 3-7), which is what Python's bytes.decode() accepts: no
 * overlong forms, no surrogates, nothing above U+10FFFF.
 */
module Utf8 {
  import opened Bytes

  predicate IsContinuation(b: Byte)
  {
    0x80 <= b <= 0xBF
  }

  /** Length of the well-formed sequence that starts at s[i], or 0 when it starts ill-formed there. */
  function SequenceLength(s: seq<Byte>, i: nat): (n: nat)
    requires i < |s|
    ensures i + n <= |s| && n <= 4
  {
    var b0 := s[i];
    if b0 < 0x80 then 1
    else if 0xC2 <= b0 <= 0xDF then
      if i + 2 <= |s| && IsContinuation(s[i + 1]) then 2 else 0
    else if 0xE0 <= b0 <= 0xEF then
      var lo := if b0 == 0xE0 then 0xA0 else 0x80;
      var hi := if b0 == 0xED then 0x9F else 0xBF;
      if i + 3 <= |s| && lo <= s[i + 1] <= hi && IsContinuation(s[i + 2]) then 3 else 0
    else if 0xF0 <= b0 <= 0xF4 then
      var lo := if b0 == 0xF0 then 0x90 else 0x80;
      var hi := if b0 == 0xF4 then 0x8F else 0xBF;
      if i + 4 <= |s| && lo <= s[i + 1] <= hi && IsContinuation(s[i + 2]) && IsContinuation(s[i + 3]) then 4 else 0
    else 0
  }

  /** s[i..] splits into well-formed sequences. */
  predicate ValidFrom(s: seq<Byte>, i: nat)
    requires i <= |s|
    decreases |s| - i
  {
    i == |s| || (SequenceLength(s, i) > 0 && ValidFrom(s, i + SequenceLength(s, i)))
  }

  /** s decodes as UTF-8. */
  predicate Valid(s: seq<Byte>)
  {
    ValidFrom(s, 0)
  }

  /** Every ASCII string decodes. */
  lemma AsciiIsValid(s: seq<Byte>)
    requires forall k :: 0 <= k < |s| ==> s[k] < 0x80
    ensures Valid(s)
  {
    AsciiIsValidFrom(s, 0);
  }

  lemma {:induction false} AsciiIsValidFrom(s: seq<Byte>, i: nat)
    requires i <= |s| && forall k :: 0 <= k < |s| ==> s[k] < 0x80
    ensures ValidFrom(s, i)
    decreases |s| - i
  {
    if i < |s| {
      assert SequenceLength(s, i) == 1;
      AsciiIsValidFrom(s, i + 1);
    }
  }

  /** A byte that can only continue a sequence cannot start one. */
  lemma StrayContinuationIsInvalid(s: seq<Byte>)
    requires |s| > 0 && IsContinuation(s[0])
    ensures !Valid(s)
  {
  }

  /** Bytes C0, C1 and F5..FF never occur in well-formed UTF-8. */
  lemma ValidExcludesBytes(s: seq<Byte>)
    requires Valid(s)
    ensures forall k :: 0 <= k < |s| ==> s[k] != 0xC0 && s[k] != 0xC1 && s[k] < 0xF5
  {
    ValidFromExcludesBytes(s, 0);
  }

  lemma {:induction false} ValidFromExcludesBytes(s: seq<Byte>, i: nat)
    requires i <= |s| && ValidFrom(s, i)
    ensures forall k :: i <= k < |s| ==> s[k] != 0xC0 && s[k] != 0xC1 && s[k] < 0xF5
    decreases |s| - i
  {
    if i < |s| {
      var n := SequenceLength(s, i);
      ValidFromExcludesBytes(s, i + n);
    }
  }
}
