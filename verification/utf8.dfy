/** UTF-8 well-formedness, the check `String::from_utf8` performs on a name
    read from the manifest. Names are kept as their bytes: `name.len()` in the
    writer is this byte count. */
module Utf8 {
  import opened Bytes

  predicate IsContinuation(b: u8) {
    0x80 <= b <= 0xBF
  }

  /** Width of the well-formed code-unit sequence at the head of `s`, following
      table 3-7 of the Unicode Standard (no overlong forms, no surrogates,
      nothing above U+10FFFF), or 0 when the head is ill-formed. */
  function LeadWidth(s: seq<u8>): (w: nat)
    requires |s| > 0
    ensures w <= 4 && w <= |s|
    ensures w > 0 ==> forall k :: 1 <= k < w ==> IsContinuation(s[k])
    ensures w > 0 ==> !IsContinuation(s[0]) && !NeverUtf8(s[0])
  {
    var b := s[0];
    if b <= 0x7F then 1
    else if 0xC2 <= b <= 0xDF then
      if 2 <= |s| && IsContinuation(s[1]) then 2 else 0
    else if 0xE0 <= b <= 0xEF then
      var lo := if b == 0xE0 then 0xA0 else 0x80;
      var hi := if b == 0xED then 0x9F else 0xBF;
      if 3 <= |s| && lo <= s[1] <= hi && IsContinuation(s[2]) then 3 else 0
    else if 0xF0 <= b <= 0xF4 then
      var lo := if b == 0xF0 then 0x90 else 0x80;
      var hi := if b == 0xF4 then 0x8F else 0xBF;
      if 4 <= |s| && lo <= s[1] <= hi && IsContinuation(s[2]) && IsContinuation(s[3]) then 4 else 0
    else 0
  }

  /** Bytes that occur nowhere in well-formed UTF-8: C0 and C1 could only
      start overlong forms, F5 to FF only code points above U+10FFFF. */
  predicate NeverUtf8(b: u8) {
    b == 0xC0 || b == 0xC1 || b >= 0xF5
  }

  /** Well-formed UTF-8: a sequence of well-formed code-unit sequences. It
      never starts with a continuation byte and never holds a byte that UTF-8
      cannot use. */
  predicate ValidUtf8(s: seq<u8>)
    ensures ValidUtf8(s) && |s| > 0 ==> !IsContinuation(s[0])
    ensures ValidUtf8(s) ==> forall k :: 0 <= k < |s| ==> !NeverUtf8(s[k])
    decreases |s|
  {
    |s| == 0 || (LeadWidth(s) > 0 && ValidUtf8(s[LeadWidth(s)..]))
  }

  /** A Rust `String`'s bytes. */
  type Str = s: seq<u8> | ValidUtf8(s)

  /** Every ASCII byte string is well-formed UTF-8. */
  lemma {:induction false} AsciiIsValid(s: seq<u8>)
    requires forall k :: 0 <= k < |s| ==> s[k] < 0x80
    ensures ValidUtf8(s)
    decreases |s|
  {
    if |s| > 0 {
      assert LeadWidth(s) == 1;
      AsciiIsValid(s[1..]);
    }
  }

  /** "é" is the two bytes C3 A9; a lone lead byte, an overlong "/" and an
      encoded surrogate are rejected. U+10FFFF (F4 8F BF BF) is the last code
      point accepted; F4 90 80 80 lies above it and F0 8F BF BF is an overlong
      four-byte form, so both are rejected. */
  lemma Examples()
    ensures ValidUtf8([0xC3, 0xA9])
    ensures !ValidUtf8([0xC3])
    ensures !ValidUtf8([0xC0, 0xAF])
    ensures !ValidUtf8([0xED, 0xA0, 0x80])
    ensures ValidUtf8([0xF4, 0x8F, 0xBF, 0xBF])
    ensures !ValidUtf8([0xF4, 0x90, 0x80, 0x80])
    ensures !ValidUtf8([0xF0, 0x8F, 0xBF, 0xBF])
  {
    assert [0xC3, 0xA9][2..] == [];
    assert [0xF4, 0x8F, 0xBF, 0xBF][4..] == [];
  }
}
