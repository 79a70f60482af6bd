/**
 Fixed-width integers and the big-endian ("network order") byte layout that the
 peer-wire codecs use for every multi-byte integer.

 Rust's `u8`, `u32`, `u64` and `usize` are modelled as subset types of `int`;
 `usize` is taken to be 64 bits wide.
 */
module Bytes {

  type u8 = x: int | 0 <= x < 0x100
  type u32 = x: int | 0 <= x < 0x1_0000_0000
  type u64 = x: int | 0 <= x < 0x1_0000_0000_0000_0000

  const U32_MAX: int := 0xFFFF_FFFF
  const U64_MAX: int := 0xFFFF_FFFF_FFFF_FFFF
  /** `usize::MAX` on the 64-bit targets the crates are built for. */
  const USIZE_MAX: int := U64_MAX

  /** The bytes of `data` from `from` up to `to` are exactly `bytes`. */
  predicate Spans(data: seq<u8>, from: nat, to: nat, bytes: seq<u8>) {
    from <= to <= |data| && data[from..to] == bytes
  }

  /** 256 to the power `width`: the number of values `width` bytes can hold. */
  function Pow256(width: nat): (r: nat)
    ensures r > 0
  {
    if width == 0 then 1 else 256 * Pow256(width - 1)
  }

  /** `value` written in `width` bytes, most significant byte first. */
  function BigEndian(value: nat, width: nat): (r: seq<u8>)
    requires value < Pow256(width)
    ensures |r| == width
  {
    if width == 0 then [] else BigEndian(value / 256, width - 1) + [value % 256]
  }

  /** The number that `bs` denotes when read most significant byte first. */
  function FromBigEndian(bs: seq<u8>): (v: nat)
    ensures v < Pow256(|bs|)
  {
    if |bs| == 0 then 0 else FromBigEndian(bs[..|bs| - 1]) * 256 + bs[|bs| - 1]
  }

  /** Reading back what was written gives the original number. */
  lemma {:induction false} BigEndianRoundTrip(value: nat, width: nat)
    requires value < Pow256(width)
    ensures FromBigEndian(BigEndian(value, width)) == value
  {
    if width > 0 {
      var bs := BigEndian(value, width);
      assert bs[..|bs| - 1] == BigEndian(value / 256, width - 1);
      BigEndianRoundTrip(value / 256, width - 1);
    }
  }

  /** Writing back what was read gives the original bytes: the layout is a bijection. */
  lemma {:induction false} FromBigEndianRoundTrip(bs: seq<u8>)
    ensures BigEndian(FromBigEndian(bs), |bs|) == bs
  {
    if |bs| > 0 {
      var init := bs[..|bs| - 1];
      FromBigEndianRoundTrip(init);
      var v := FromBigEndian(bs);
      assert v / 256 == FromBigEndian(init);
      assert v % 256 == bs[|bs| - 1];
      assert bs == init + [bs[|bs| - 1]];
    }
  }

  /** Reading the two halves of a slice that holds `x + y`. */
  lemma {:induction false} SliceSplit(data: seq<u8>, a: nat, b: nat, c: nat, x: seq<u8>, y: seq<u8>)
    requires a <= b <= c <= |data| && |x| == b - a
    requires data[a..c] == x + y
    ensures data[a..b] == x && data[b..c] == y
  {
    assert data[a..b] == data[a..c][..b - a];
    assert data[b..c] == data[a..c][b - a..];
  }

  /** Two adjacent slices make up the slice that spans them. */
  lemma {:induction false} SliceJoin(data: seq<u8>, a: nat, b: nat, c: nat)
    requires a <= b <= c <= |data|
    ensures data[a..b] + data[b..c] == data[a..c]
  {
    assert forall i :: 0 <= i < c - a ==> (data[a..b] + data[b..c])[i] == data[a..c][i];
  }
}
