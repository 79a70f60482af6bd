/**
 Well-formed UTF-8, the check behind Rust's `std::str::from_utf8` and
 `String::from_utf8`: the byte sequences of Table 3-7 of the Unicode Standard
 (RFC 3629), so no overlong forms, no surrogates and nothing above U+10FFFF.
 */
module Utf8 {
  import opened Bytes

  /** `b` lies in `lo..=hi`. */
  predicate InRange(b: u8, lo: int, hi: int) {
    lo <= b <= hi
  }

  /**
   The length of the well-formed character that starts at index `i` of `bs`,
   or 0 when `i` is the end of `bs` or no well-formed character starts there.
   */
  function CharLengthAt(bs: seq<u8>, i: nat): (n: nat)
    requires i <= |bs|
    ensures n <= 4 && i + n <= |bs|
    ensures n > 0 ==> (bs[i] < 0x80 <==> n == 1)
  {
    if i == |bs| then 0
    else if bs[i] < 0x80 then 1
    else if InRange(bs[i], 0xC2, 0xDF) then
      if |bs| - i >= 2 && InRange(bs[i + 1], 0x80, 0xBF) then 2 else 0
    else if InRange(bs[i], 0xE0, 0xEF) then
      var lo := if bs[i] == 0xE0 then 0xA0 else 0x80;
      var hi := if bs[i] == 0xED then 0x9F else 0xBF;
      if |bs| - i >= 3 && InRange(bs[i + 1], lo, hi) && InRange(bs[i + 2], 0x80, 0xBF) then 3 else 0
    else if InRange(bs[i], 0xF0, 0xF4) then
      var lo := if bs[i] == 0xF0 then 0x90 else 0x80;
      var hi := if bs[i] == 0xF4 then 0x8F else 0xBF;
      if |bs| - i >= 4 && InRange(bs[i + 1], lo, hi) && InRange(bs[i + 2], 0x80, 0xBF)
         && InRange(bs[i + 3], 0x80, 0xBF) then 4 else 0
    else 0
  }

  /** From index `i` on, `bs` is a sequence of well-formed UTF-8 characters. */
  predicate ValidFrom(bs: seq<u8>, i: nat)
    requires i <= |bs|
    decreases |bs| - i
  {
    i == |bs| || (CharLengthAt(bs, i) > 0 && ValidFrom(bs, i + CharLengthAt(bs, i)))
  }

  /** `bs` is a sequence of well-formed UTF-8 characters. */
  predicate ValidUtf8(bs: seq<u8>) {
    ValidFrom(bs, 0)
  }

  /** A Rust `String`: bytes that are valid UTF-8. */
  type Text = s: seq<u8> | ValidUtf8(s)

  /** Every byte is below 0x80. */
  predicate IsAsciiBytes(bs: seq<u8>) {
    forall i :: 0 <= i < |bs| ==> bs[i] < 0x80
  }

  /** Every ASCII byte string is valid UTF-8. */
  lemma AsciiIsValid(bs: seq<u8>)
    requires IsAsciiBytes(bs)
    ensures ValidUtf8(bs)
  {
    AsciiIsValidFrom(bs, 0);
  }

  /** ASCII bytes are valid UTF-8 from every position. */
  lemma {:induction false} AsciiIsValidFrom(bs: seq<u8>, i: nat)
    requires IsAsciiBytes(bs) && i <= |bs|
    ensures ValidFrom(bs, i)
    decreases |bs| - i
  {
    if i < |bs| {
      assert CharLengthAt(bs, i) == 1;
      AsciiIsValidFrom(bs, i + 1);
    }
  }

  /** A byte that can never occur in UTF-8 makes the whole string invalid. */
  lemma ForbiddenByteIsInvalid(bs: seq<u8>, i: nat)
    requires i < |bs| && bs[i] >= 0xF5
    ensures !ValidUtf8(bs)
  {
    ForbiddenByteIsInvalidFrom(bs, 0, i);
  }

  /** A byte 0xF5 or above makes the bytes invalid UTF-8 from every earlier position. */
  lemma {:induction false} ForbiddenByteIsInvalidFrom(bs: seq<u8>, j: nat, i: nat)
    requires j <= i < |bs| && bs[i] >= 0xF5
    ensures !ValidFrom(bs, j)
    decreases |bs| - j
  {
    var n := CharLengthAt(bs, j);
    if n > 0 && j + n <= i {
      ForbiddenByteIsInvalidFrom(bs, j + n, i);
    }
  }

  /** Every character is below U+0080. */
  predicate IsAsciiText(s: string) {
    forall i :: 0 <= i < |s| ==> s[i] < 128 as char
  }

  /** `str::as_bytes` of an ASCII literal; used for the keys and names the crates spell as `&str`. */
  function AsciiBytes(s: string): (r: seq<u8>)
    requires IsAsciiText(s)
    ensures |r| == |s| && IsAsciiBytes(r)
    ensures forall i :: 0 <= i < |s| ==> r[i] == s[i] as int
  {
    seq(|s|, i requires 0 <= i < |s| => s[i] as int)
  }
}
