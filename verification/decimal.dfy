/**
 Decimal text for unsigned integers: what `format!("{}", n)` prints and what
 `str::parse::<u64>()` / `str::parse::<usize>()` accept.

 Rust's unsigned `from_str` admits one optional leading `+` (but not `-`),
 then requires at least one ASCII digit and nothing else; leading zeros are
 accepted; a value above the type's maximum is an error. The model admits
 the `+` as Rust does.
 */
module Decimal {
  import opened Bytes
  import opened Wrappers

  const ZERO: u8 := 0x30
  const PLUS: u8 := 0x2B
  const MINUS: u8 := 0x2D

  /** An ASCII digit `0` to `9`. */
  predicate IsDigit(b: u8) {
    ZERO <= b <= ZERO + 9
  }

  /** Every byte is an ASCII digit. */
  predicate AllDigits(bs: seq<u8>) {
    forall i :: 0 <= i < |bs| ==> IsDigit(bs[i])
  }

  /** The value of a string of ASCII digits, most significant first. */
  function DigitsValue(bs: seq<u8>): nat
    requires AllDigits(bs)
  {
    if |bs| == 0 then 0 else DigitsValue(bs[..|bs| - 1]) * 10 + (bs[|bs| - 1] - ZERO)
  }

  /** `format!("{}", n)`: the shortest decimal spelling of `n`, without sign or leading zero. */
  function Digits(n: nat): (r: seq<u8>)
    ensures |r| > 0 && AllDigits(r)
    ensures DigitsValue(r) == n
    ensures |r| > 1 ==> r[0] != ZERO
  {
    if n < 10 then [ZERO + n]
    else
      var init := Digits(n / 10);
      var r := init + [ZERO + n % 10];
      assert r[..|r| - 1] == init;
      r
  }

  /**
   `str::parse` of an unsigned integer type whose largest value is `max`:
   an optional `+`, then one or more digits whose value is at most `max`.
   */
  function ParseUnsigned(bs: seq<u8>, max: nat): (r: Option<nat>)
    ensures r.Some? ==> r.value <= max
    ensures r.Some? <==> ValidUnsigned(bs, max)
    ensures r.Some? ==>
      |bs| > 0 && (var digits := if bs[0] == PLUS then bs[1..] else bs; AllDigits(digits) && r.value == DigitsValue(digits))
  {
    var sign := if |bs| > 0 && bs[0] == PLUS then [PLUS] else [];
    var digits := bs[|sign|..];
    assert bs == sign + digits;
    if |digits| > 0 && AllDigits(digits) && DigitsValue(digits) <= max
    then Some(DigitsValue(digits))
    else None
  }

  /** Independent statement of the grammar `ParseUnsigned` accepts. */
  ghost predicate ValidUnsigned(bs: seq<u8>, max: nat) {
    exists sign: seq<u8>, digits: seq<u8> {:trigger sign + digits} ::
      && bs == sign + digits
      && (sign == [] || sign == [PLUS])
      && |digits| > 0 && AllDigits(digits) && DigitsValue(digits) <= max
  }

  /** Printing then parsing gives the number back, so integer and length prefixes round-trip. */
  lemma DigitsRoundTrip(n: nat, max: nat)
    requires n <= max
    ensures ParseUnsigned(Digits(n), max) == Some(n)
  {
    assert Digits(n)[0] != PLUS;
  }

  /** A leading `+` is accepted, as by Rust's unsigned `from_str`. */
  lemma PlusSignAccepted(n: nat, max: nat)
    requires n <= max
    ensures ParseUnsigned([PLUS] + Digits(n), max) == Some(n)
  {
    assert ([PLUS] + Digits(n))[1..] == Digits(n);
  }

  /** A leading `-` is rejected, even for zero. */
  lemma MinusSignRejected(bs: seq<u8>, max: nat)
    ensures ParseUnsigned([MINUS] + bs, max) == None
  {
    var s := [MINUS] + bs;
    assert !IsDigit(s[0]);
  }

  /** Leading zeros do not change the value and are not rejected. */
  lemma {:induction false} LeadingZeroAccepted(n: nat, max: nat)
    requires n <= max
    ensures ParseUnsigned([ZERO] + Digits(n), max) == Some(n)
  {
    var ds := Digits(n);
    LeadingZeroValue(ds);
  }

  /** A leading zero does not change a numeral's value. */
  lemma {:induction false} LeadingZeroValue(ds: seq<u8>)
    requires AllDigits(ds)
    ensures AllDigits([ZERO] + ds)
    ensures DigitsValue([ZERO] + ds) == DigitsValue(ds)
  {
    var s := [ZERO] + ds;
    assert AllDigits(s) by {
      forall i | 0 <= i < |s| ensures IsDigit(s[i]) {
        if i > 0 { assert s[i] == ds[i - 1]; }
      }
    }
    if |ds| > 0 {
      var init := ds[..|ds| - 1];
      assert s[..|s| - 1] == [ZERO] + init;
      LeadingZeroValue(init);
    }
  }
}
