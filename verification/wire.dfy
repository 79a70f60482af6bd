/**
 The primitive peer-wire codec of `bitrain-core/src/messages.rs`: the
 `Encode` and `Decode` implementations for `u8`, the big-endian integers,
 byte vectors, strings and fixed-size byte arrays, and
 `decode_or_discard_from`.

 A reader is a byte stream: `data` is everything it will ever deliver and
 `pos` how much of it has been read. A `decode_from` call takes the length
 hint (`len_hint`, the number of bytes the enclosing frame still holds) and
 the reader, and gives back an `Outcome`: an I/O failure when `read_exact`
 runs out of input, or a value (`None` when the frame cannot hold one)
 together with the new read position and the updated hint. Writes go to an
 in-memory buffer and cannot fail.

 The trait documentation asks every decoder to leave the hint at
 `len_hint - bytes_consumed`. The `u8` decoder checks the hint but never
 lowers it. The decoders take a flag `chargesByte`: `false` is the code as
 written, `true` the documented contract.
 */
module Wire {
  import opened Bytes
  import opened Wrappers
  import opened Utf8

  /** What a `decode_from` call leaves: an I/O failure, or a value or `None`, the read position and the hint. */
  datatype Outcome<+T> = IoError | Done(value: Option<T>, pos: nat, hint: nat)

  /** `r` is the value `v`, with the reader at `pos` and the hint at `hint`. */
  predicate Yields<T(==)>(r: Outcome<T>, v: T, pos: nat, hint: nat) {
    r.Done? && r.value == Some(v) && r.pos == pos && r.hint == hint
  }

  /** What a `recv_from` call leaves: an I/O failure, or a message or `None` and the read position. */
  datatype Received<+T> = Failed | Received(value: Option<T>, pos: nat)

  /** The unsigned integer types wider than a byte, written big-endian. */
  datatype IntType = U16 | U32 | U64 | U128

  /** `size_of` the integer type. */
  function IntBytes(t: IntType): nat {
    match t
    case U16 => 2
    case U32 => 4
    case U64 => 8
    case U128 => 16
  }

  /** One more than the integer type's `MAX`. */
  function IntLimit(t: IntType): nat {
    match t
    case U16 => 0x1_0000
    case U32 => 0x1_0000_0000
    case U64 => 0x1_0000_0000_0000_0000
    case U128 => 0x1_0000_0000_0000_0000_0000_0000_0000_0000
  }

  /** The values of the type are exactly what its bytes can hold. */
  lemma IntLimitIsPow256(t: IntType)
    ensures IntLimit(t) == Pow256(IntBytes(t))
  {
    assert Pow256(4) == 0x1_0000_0000;
    assert Pow256(8) == 0x1_0000_0000_0000_0000;
    assert Pow256(16) == Pow256(8) * Pow256(8) by {
      assert Pow256(16) == 0x1_0000_0000 * Pow256(12);
    }
  }

  /** The field types with `Encode` and `Decode` implementations. */
  datatype Kind =
    | U8                    // u8
    | UInt(t: IntType)      // u16, u32, u64, u128
    | ByteVec               // Vec<u8> and Box<[u8]>, written as [u8]
    | Str                   // String, written as &str
    | ByteArray(size: nat)  // [u8; D] and Box<[u8; D]>

  /** A field value: a byte, a number, or a run of bytes. */
  datatype Value = Byte(byte: u8) | Number(n: nat) | Blob(bytes: seq<u8>)

  /** `v` is a value of the Rust type `k`. */
  predicate Fits(k: Kind, v: Value) {
    match k
    case U8 => v.Byte?
    case UInt(t) => v.Number? && v.n < IntLimit(t)
    case ByteVec => v.Blob?
    case Str => v.Blob? && ValidUtf8(v.bytes)
    case ByteArray(d) => v.Blob? && |v.bytes| == d
  }

  /**
   `Encode::size`: `size_of` for the integers, the length for the byte runs.
   A fixed-width type's size is its width whatever the value, and with the
   size as hint the decoder asks for exactly that many bytes.
   */
  function Size(k: Kind, v: Value): (r: nat)
    requires Fits(k, v)
    ensures Width(k) > 0 ==> r == Width(k)
    ensures Width(k) == 0 ==> v.Blob? && r == |v.bytes|
    ensures Demand(k, r) == r
  {
    match k
    case U8 => 1
    case UInt(t) => IntBytes(t)
    case ByteVec => |v.bytes|
    case Str => |v.bytes|
    case ByteArray(d) => d
  }

  /** `Encode::encode_to`: the bytes written; exactly `size()` of them. */
  function Encode(k: Kind, v: Value): (r: seq<u8>)
    requires Fits(k, v)
    ensures |r| == Size(k, v)
  {
    match k
    case U8 => [v.byte]
    case UInt(t) =>
      IntLimitIsPow256(t);
      BigEndian(v.n, IntBytes(t))
    case _ => v.bytes
  }

  /**
   The number of bytes `decode_from` asks `read_exact` for: nothing when the
   hint is below a fixed width, the width otherwise, the whole hint for the
   variable-length types.
   */
  function Demand(k: Kind, hint: nat): nat {
    match k
    case U8 => if hint < 1 then 0 else 1
    case UInt(t) => if hint < IntBytes(t) then 0 else IntBytes(t)
    case ByteVec => hint
    case Str => hint
    case ByteArray(d) => if hint < d then 0 else d
  }

  /**
   What a decoder makes of the `Demand(k, hint)` bytes it has read: `None`
   when the hint is below a fixed width, or for a string that is not UTF-8.
   */
  function Parse(k: Kind, hint: nat, bytes: seq<u8>): (r: Option<Value>)
    requires |bytes| == Demand(k, hint)
    ensures r.Some? ==> Fits(k, r.value)
    ensures r.None? <==> if k.Str? then !ValidUtf8(bytes) else !k.ByteVec? && |bytes| == 0 && hint < Width(k)
  {
    match k
    case U8 => if hint < 1 then None else Some(Byte(bytes[0]))
    case UInt(t) =>
      if hint < IntBytes(t) then None
      else
        IntLimitIsPow256(t);
        Some(Number(FromBigEndian(bytes)))
    case ByteVec => Some(Blob(bytes))
    case Str => if ValidUtf8(bytes) then Some(Blob(bytes)) else None
    case ByteArray(d) => if hint < d then None else Some(Blob(bytes))
  }

  /** The size of every value of a fixed-width type; zero for the variable-length ones. */
  function Width(k: Kind): nat {
    match k
    case U8 => 1
    case UInt(t) => IntBytes(t)
    case ByteArray(d) => d
    case _ => 0
  }

  /**
   `Decode::decode_from` for the primitive types. Each checks the hint,
   asks `read_exact` for `Demand(k, hint)` bytes and makes a value of them;
   all but the `u8` decoder take what they read off the hint.
   */
  function Decode(chargesByte: bool, k: Kind, hint: nat, data: seq<u8>, pos: nat): (r: Outcome<Value>)
    requires pos <= |data|
    ensures r.Done? ==> pos <= r.pos <= |data|
    ensures r.Done? && r.value.Some? ==> Fits(k, r.value.value)
    ensures r.Done? && r.value.Some? ==>
      Fits(k, r.value.value) && Spans(data, pos, r.pos, Encode(k, r.value.value))
    ensures r.Done? ==> r.pos - pos <= hint
    ensures pos + hint <= |data| ==> r.Done?
    ensures r.Done? && (chargesByte || !k.U8?) ==> r.hint + (r.pos - pos) == hint
    ensures r.Done? && !chargesByte && k.U8? ==> r.hint == hint
  {
    var n := Demand(k, hint);
    if |data| - pos < n then IoError
    else
      var v := Parse(k, hint, data[pos..pos + n]);
      assert v.Some? ==> Fits(k, v.value) && Encode(k, v.value) == data[pos..pos + n] by {
        if k.UInt? && IntBytes(k.t) <= hint {
          FromBigEndianRoundTrip(data[pos..pos + n]);
        }
      }
      Done(v, pos + n, if k.U8? && !chargesByte then hint else hint - n)
  }

  /**
   `utils::discard_bytes`: `io::copy` of at most `count` bytes into a sink;
   running out of input ends the copy without an error.
   */
  function Discard(data: seq<u8>, pos: nat, count: nat): (r: nat)
    requires pos <= |data|
    ensures pos <= r <= |data| && r <= pos + count
    ensures r == pos + count || r == |data|
  {
    if |data| - pos <= count then |data| else pos + count
  }

  /** `decode_or_discard_from`: after a `None`, the bytes the hint still counts are thrown away. */
  function DecodeOrDiscard<T>(o: Outcome<T>, data: seq<u8>): (r: Outcome<T>)
    requires o.Done? ==> o.pos <= |data|
    ensures o.IoError? <==> r.IoError?
    ensures o.Done? && o.value.Some? ==> r == o
    ensures o.Done? && o.value.None? ==> r == Done(None, Discard(data, o.pos, o.hint), o.hint)
  {
    match o
    case IoError => IoError
    case Done(None, p, h) => Done(None, Discard(data, p, h), h)
    case Done(Some(_), _, _) => o
  }

  /** The bytes a decoder takes off its hint for `v`: as written, a `u8` takes none. */
  function Charged(chargesByte: bool, k: Kind, v: Value): nat
    requires Fits(k, v)
  {
    if k.U8? && !chargesByte then 0 else Size(k, v)
  }

  /**
   The stream holds the encoding of `v` at `pos`, and the hint covers it: a
   byte run needs the hint to be exactly its length, since it reads all of
   it, a fixed-width value only needs the hint to be at least its size.
   */
  predicate Framed(k: Kind, v: Value, hint: nat, data: seq<u8>, pos: nat) {
    && Fits(k, v)
    && Size(k, v) <= hint
    && (k.ByteVec? || k.Str? ==> hint == Size(k, v))
    && pos + Size(k, v) <= |data|
    && data[pos..pos + Size(k, v)] == Encode(k, v)
  }

  /** Decoding what was encoded gives the value back and moves past it. */
  lemma {:induction false} DecodeInvertsEncode(chargesByte: bool, k: Kind, v: Value, hint: nat, data: seq<u8>, pos: nat)
    requires Framed(k, v, hint, data, pos)
    ensures Yields(Decode(chargesByte, k, hint, data, pos), v, pos + Size(k, v), hint - Charged(chargesByte, k, v))
  {
    if k.UInt? {
      IntLimitIsPow256(k.t);
      BigEndianRoundTrip(v.n, IntBytes(k.t));
    }
  }

  /** What a decoder gives back re-encodes to exactly the bytes it read. */
  lemma {:induction false} EncodeInvertsDecode(chargesByte: bool, k: Kind, hint: nat, data: seq<u8>, pos: nat)
    requires pos <= |data|
    ensures var r := Decode(chargesByte, k, hint, data, pos);
      r.Done? && r.value.Some? ==> Encode(k, r.value.value) == data[pos..r.pos]
  {
    var n := Demand(k, hint);
    if n <= |data| - pos && k.UInt? && IntBytes(k.t) <= hint {
      FromBigEndianRoundTrip(data[pos..pos + n]);
    }
  }

  /**
   No decoder asks for more bytes than its hint: within a frame that still
   holds `hint` bytes, a decoder never fails for lack of input.
   */
  lemma {:induction false} DecodeWithinHint(chargesByte: bool, k: Kind, hint: nat, data: seq<u8>, pos: nat)
    requires pos <= |data|
    ensures var r := Decode(chargesByte, k, hint, data, pos); r.Done? ==> r.pos - pos <= hint
    ensures pos + hint <= |data| ==> Decode(chargesByte, k, hint, data, pos).Done?
  {
  }

  /**
   The documented hint contract for one decoder: whether it gives a value or
   `None`, the hint goes down by exactly the bytes it read. Every decoder but
   the `u8` one as written keeps it; that one leaves the hint as it was.
   */
  lemma {:induction false} DecodeChargesHint(chargesByte: bool, k: Kind, hint: nat, data: seq<u8>, pos: nat)
    requires pos <= |data|
    ensures var r := Decode(chargesByte, k, hint, data, pos);
      r.Done? && (chargesByte || !k.U8?) ==> r.hint + (r.pos - pos) == hint
    ensures var r := Decode(chargesByte, k, hint, data, pos);
      r.Done? && !chargesByte && k.U8? ==> r.hint == hint
  {
  }
}
