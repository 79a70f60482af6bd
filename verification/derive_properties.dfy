/**
 What the derived struct codec guarantees: the size it reports is the number
 of bytes it writes, decoding a frame holding an encoding gives the fields
 back, what it decodes re-encodes to the bytes it read, and a decoder
 accounts for the bytes it consumes in the hint, which the `u8` decoder as
 written does not.

 The struct-level facts hold for any field decoders with the matching
 field-level fact (`InvertsEncode`, `Reencodes`); the `Primitive…` lemmas
 prove those of the wire codec's decoders.
 */
module DeriveProperties {
  import opened Bytes
  import opened Wrappers
  import opened Wire
  import opened Derive

  /** The hint beyond the encoding once field `k` is read: as written, a `u8` leaves its byte in it. */
  function NextExtra(chargesByte: bool, k: Kind, extra: nat): nat {
    if k.U8? && !chargesByte then extra + 1 else extra
  }

  // ---------------------------------------------------------------------------
  // The field decoders' part

  /**
   Every field decoder of `dec` gives back the value whose encoding the
   stream holds, moves past it, and takes `Charged` bytes off the hint.
   */
  ghost predicate InvertsEncode(dec: FieldDecoder, chargesByte: bool) {
    forall k: Kind, v: Value, hint: nat, data: seq<u8>, pos: nat {:trigger Framed(k, v, hint, data, pos), dec(k, hint, data, pos)} :: Framed(k, v, hint, data, pos) ==>
      Yields(dec(k, hint, data, pos), v, pos + Size(k, v), hint - Charged(chargesByte, k, v))
  }

  /** The wire codec's decoders invert its encoders. */
  lemma PrimitiveInvertsEncode(chargesByte: bool)
    ensures InvertsEncode(Primitive(chargesByte), chargesByte)
  {
    forall k: Kind, v: Value, hint: nat, data: seq<u8>, pos: nat | Framed(k, v, hint, data, pos)
      ensures Yields(Primitive(chargesByte)(k, hint, data, pos), v, pos + Size(k, v), hint - Charged(chargesByte, k, v))
    {
      DecodeInvertsEncode(chargesByte, k, v, hint, data, pos);
    }
  }

  // ---------------------------------------------------------------------------
  // Round trips

  /** The first field's bytes, then the others'. */
  lemma {:induction false} Layout(k: Kind, later: Schema, v: Value, rest: List<Value>, data: seq<u8>, pos: nat)
    requires FitsAll(Cons(k, later), Cons(v, rest))
    requires Spans(data, pos, pos + SizeFields(Cons(k, later), Cons(v, rest)), EncodeFields(Cons(k, later), Cons(v, rest)))
    ensures Fits(k, v) && FitsAll(later, rest)
    ensures Spans(data, pos, pos + Size(k, v), Encode(k, v))
    ensures Spans(data, pos + Size(k, v), pos + Size(k, v) + SizeFields(later, rest), EncodeFields(later, rest))
  {
    SliceSplit(data, pos, pos + Size(k, v), pos + Size(k, v) + SizeFields(later, rest), Encode(k, v), EncodeFields(later, rest));
  }

  /** The round trip's assumptions carry over to the fields after the first. */
  lemma {:induction false} TailAssumptions(chargesByte: bool, k: Kind, later: Schema, extra: nat)
    requires VariableLast(Cons(k, later))
    requires EndsVariable(Cons(k, later)) ==> extra == 0 && Kept(chargesByte, Cons(k, later)) == 0
    ensures VariableLast(later)
    ensures IsVariable(k) ==> later.Nil? && extra == 0
    ensures EndsVariable(later) ==> NextExtra(chargesByte, k, extra) == 0 && Kept(chargesByte, later) == 0
  {
  }

  /**
   The first field of an encoded struct decodes to its value. Only a trailing
   byte vector or string needs the hint to be exactly what is left.
   */
  lemma {:induction false} FirstField(dec: FieldDecoder, chargesByte: bool, k: Kind, later: Schema, v: Value, rest: List<Value>,
                                      extra: nat, data: seq<u8>, pos: nat)
    requires InvertsEncode(dec, chargesByte)
    requires FitsAll(Cons(k, later), Cons(v, rest))
    requires IsVariable(k) ==> later.Nil? && extra == 0
    requires Spans(data, pos, pos + Size(k, v), Encode(k, v))
    ensures Yields(dec(k, SizeFields(Cons(k, later), Cons(v, rest)) + extra, data, pos),
                   v, pos + Size(k, v), SizeFields(later, rest) + NextExtra(chargesByte, k, extra))
  {
    assert Framed(k, v, SizeFields(Cons(k, later), Cons(v, rest)) + extra, data, pos);
  }

  /** One field decoded, then the rest of the struct. */
  lemma {:induction false} ConsStep(dec: FieldDecoder, k: Kind, later: Schema, hint: nat, data: seq<u8>, pos: nat,
                                    v: Value, p: nat, h: nat, vs: List<Value>, p': nat, h': nat)
    requires Yields(dec(k, hint, data, pos), v, p, h)
    requires Yields(DecodeFields(dec, later, h, data, p), vs, p', h')
    ensures Yields(DecodeFields(dec, Cons(k, later), hint, data, pos), Cons(v, vs), p', h')
  {
  }

  /** The sizes and the hint left add up the same way field by field as for the whole struct. */
  lemma {:induction false} Accounting(chargesByte: bool, k: Kind, later: Schema, v: Value, rest: List<Value>, extra: nat, pos: nat)
    requires FitsAll(Cons(k, later), Cons(v, rest))
    ensures pos + Size(k, v) + SizeFields(later, rest) == pos + SizeFields(Cons(k, later), Cons(v, rest))
    ensures NextExtra(chargesByte, k, extra) + Kept(chargesByte, later) == extra + Kept(chargesByte, Cons(k, later))
  {
  }

  /** The first field decoded, then the others as the round trip for them promises. */
  lemma {:induction false} ConsRoundTrip(dec: FieldDecoder, chargesByte: bool, schema: Schema, vs: List<Value>, extra: nat, data: seq<u8>, pos: nat)
    requires InvertsEncode(dec, chargesByte)
    requires FitsAll(schema, vs) && VariableLast(schema) && schema.Cons?
    requires EndsVariable(schema) ==> extra == 0 && Kept(chargesByte, schema) == 0
    requires Spans(data, pos, pos + SizeFields(schema, vs), EncodeFields(schema, vs))
    requires var k, later, v, rest := schema.head, schema.tail, vs.head, vs.tail;
      Yields(DecodeFields(dec, later, SizeFields(later, rest) + NextExtra(chargesByte, k, extra), data, pos + Size(k, v)),
             rest, pos + Size(k, v) + SizeFields(later, rest), NextExtra(chargesByte, k, extra) + Kept(chargesByte, later))
    ensures Yields(DecodeFields(dec, schema, SizeFields(schema, vs) + extra, data, pos),
                   vs, pos + SizeFields(schema, vs), extra + Kept(chargesByte, schema))
  {
    var k, later, v, rest := schema.head, schema.tail, vs.head, vs.tail;
    Layout(k, later, v, rest, data, pos);
    TailAssumptions(chargesByte, k, later, extra);
    FirstField(dec, chargesByte, k, later, v, rest, extra, data, pos);
    Accounting(chargesByte, k, later, v, rest, extra, pos);
    ConsStep(dec, k, later, SizeFields(schema, vs) + extra, data, pos,
             v, pos + Size(k, v), SizeFields(later, rest) + NextExtra(chargesByte, k, extra),
             rest, pos + SizeFields(schema, vs), extra + Kept(chargesByte, schema));
  }


  /**
   Decoding a frame that holds an encoding gives the fields back and moves
   past it. `extra` is hint beyond the encoding, harmless unless the struct
   ends in a byte vector or string, which reads all of the hint. The hint
   left is the extra one, plus, as written, one per `u8` field; with a
   trailing byte vector or string that needs no `u8` field.
   */
  lemma {:induction false} FieldsRoundTrip(dec: FieldDecoder, chargesByte: bool, schema: Schema, vs: List<Value>, extra: nat, data: seq<u8>, pos: nat)
    requires InvertsEncode(dec, chargesByte)
    requires FitsAll(schema, vs) && VariableLast(schema)
    requires EndsVariable(schema) ==> extra == 0 && Kept(chargesByte, schema) == 0
    requires Spans(data, pos, pos + SizeFields(schema, vs), EncodeFields(schema, vs))
    ensures Yields(DecodeFields(dec, schema, SizeFields(schema, vs) + extra, data, pos),
                   vs, pos + SizeFields(schema, vs), extra + Kept(chargesByte, schema))
    decreases schema, 1
  {
    if schema.Nil? {
      UnitStruct(dec, extra, data, pos);
    } else {
      FieldsConsRoundTrip(dec, chargesByte, schema, vs, extra, data, pos);
    }
  }
  /** The round trip for a struct with at least one field: the first field, then the others by the round trip for them. */
  lemma {:induction false} FieldsConsRoundTrip(dec: FieldDecoder, chargesByte: bool, schema: Schema, vs: List<Value>, extra: nat, data: seq<u8>, pos: nat)
    requires InvertsEncode(dec, chargesByte)
    requires FitsAll(schema, vs) && VariableLast(schema) && schema.Cons?
    requires EndsVariable(schema) ==> extra == 0 && Kept(chargesByte, schema) == 0
    requires Spans(data, pos, pos + SizeFields(schema, vs), EncodeFields(schema, vs))
    ensures Yields(DecodeFields(dec, schema, SizeFields(schema, vs) + extra, data, pos),
                   vs, pos + SizeFields(schema, vs), extra + Kept(chargesByte, schema))
    decreases schema, 0
  {
    var k, later, v, rest := schema.head, schema.tail, vs.head, vs.tail;
    Layout(k, later, v, rest, data, pos);
    TailAssumptions(chargesByte, k, later, extra);
    FieldsRoundTrip(dec, chargesByte, later, rest, NextExtra(chargesByte, k, extra), data, pos + Size(k, v));
    ConsRoundTrip(dec, chargesByte, schema, vs, extra, data, pos);
  }



  /**
   `Decode::decode` of an encoding gives the value back, as the crate's
   `encode_decode` test expects, for every struct whose byte vector or
   string, if any, comes last, and leaves the hint at what the `u8` fields
   keep. As written, a struct that ends in a byte vector or string needs to
   have no `u8` field; with the byte charged, every such struct decodes.
   */
  lemma {:induction false} DecodeAllInvertsEncode(chargesByte: bool, schema: Schema, vs: List<Value>)
    requires FitsAll(schema, vs) && VariableLast(schema)
    requires EndsVariable(schema) ==> Kept(chargesByte, schema) == 0
    ensures var bytes := EncodeFields(schema, vs);
      Yields(DecodeAll(chargesByte, schema, bytes), vs, |bytes|, Kept(chargesByte, schema))
  {
    var data := EncodeFields(schema, vs);
    assert data[0..|data|] == data;
    PrimitiveInvertsEncode(chargesByte);
    FieldsRoundTrip(Primitive(chargesByte), chargesByte, schema, vs, 0, data, 0);
  }

  /** `Decode::decode` of a struct gives back exactly what re-encodes to the bytes it read. */
  lemma {:induction false} DecodeAllReencodes(chargesByte: bool, schema: Schema, bytes: seq<u8>)
    ensures var r := DecodeAll(chargesByte, schema, bytes);
      r.Done? && r.value.Some? ==> EncodeFields(schema, r.value.value) == bytes[..r.pos]
  {
    PrimitiveReencodes(chargesByte);
    EncodeInvertsDecodeFields(Primitive(chargesByte), schema, |bytes|, bytes, 0);
  }

  // ---------------------------------------------------------------------------
  // Particular shapes

  /** A unit struct writes nothing, reports size 0, and decodes without reading or touching the hint. */
  lemma {:induction false} UnitStruct(dec: FieldDecoder, hint: nat, data: seq<u8>, pos: nat)
    ensures EncodeFields(Nil, Nil) == [] && SizeFields(Nil, Nil) == 0
    ensures DecodeFields(dec, Nil, hint, data, pos) == Done(Some(Nil), pos, hint)
  {
  }

  /** The first field that gives `None` ends the decoding there, whatever fields follow it. */
  lemma {:induction false} NoneStopsDecoding(dec: FieldDecoder, k: Kind, later: Schema, hint: nat, data: seq<u8>, pos: nat)
    requires var first := dec(k, hint, data, pos); first.Done? && first.value.None?
    ensures var first := dec(k, hint, data, pos);
      DecodeFields(dec, Cons(k, later), hint, data, pos) == Done(None, first.pos, first.hint)
  {
  }

  // ---------------------------------------------------------------------------
  // The `u8` decoder keeps its byte in the hint

  /** As written, a `u8` is consumed but the hint still counts it. */
  lemma {:induction false} ByteDecodeKeepsHint(data: seq<u8>, pos: nat)
    requires pos < |data|
    ensures Decode(false, U8, 1, data, pos) == Done(Some(Byte(data[pos])), pos + 1, 1)
    ensures Decode(true, U8, 1, data, pos) == Done(Some(Byte(data[pos])), pos + 1, 0)
  {
  }

  /**
   A struct with a `u8` field followed by a byte vector, `{ a: u8, b: Vec<u8> }`,
   encodes `{ a: 1, b: [2] }` as `[1, 2]`. As written, decoding that frame
   asks for two bytes for `b` with one left, an I/O failure; charging the
   byte gives the struct back.
   */
  lemma {:induction false} ByteFieldOverreads()
    ensures EncodeFields(Cons(U8, Cons(ByteVec, Nil)), Cons(Byte(1), Cons(Blob([2]), Nil))) == [1, 2]
    ensures DecodeAll(false, Cons(U8, Cons(ByteVec, Nil)), [1, 2]) == IoError
    ensures DecodeAll(true, Cons(U8, Cons(ByteVec, Nil)), [1, 2]) == Done(Some(Cons(Byte(1), Cons(Blob([2]), Nil))), 2, 0)
  {
    var data: seq<u8> := [1, 2];
    assert data[0..1] == [1] && data[1..2] == [2];
    assert Decode(false, U8, 2, data, 0) == Done(Some(Byte(1)), 1, 2);
    assert Decode(true, U8, 2, data, 0) == Done(Some(Byte(1)), 1, 1);
    assert Decode(true, ByteVec, 1, data, 1) == Done(Some(Blob([2])), 2, 0);
  }
}
