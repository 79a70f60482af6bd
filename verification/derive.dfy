/**
 The bodies the `Encode` and `Decode` derives of
 `bitrain-derive/src/messages/{encode,decode}.rs` emit for a struct: a
 `Schema` is the struct's field types in declaration order, its value the
 field values in the same order.

 `encode_to` writes the fields one after another, `size` adds up their sizes
 (starting from `0usize`), and `decode_from` decodes them one after another
 from one shared length hint, giving up with `None` at the first field that
 gives `None`. A unit struct is the empty schema.

 The emitted `decode_from` is generic: it calls `<T as Decode>::decode_from`
 for each field type `T`. `DecodeFields` takes that choice of field decoders
 as a parameter; `Primitive` is the one the primitive implementations of
 the wire codec make up.

 What the struct decoder reads is fixed here too: it re-encodes to the
 bytes read, and the hint drops by exactly those bytes unless a `u8` keeps
 its byte. The round trips are in `DeriveProperties`.
 */
module Derive {
  import opened Bytes
  import opened Wrappers
  import opened Wire

  /** A list built front to back, one field at a time. */
  datatype List<+T> = Nil | Cons(head: T, tail: List<T>)

  /** The number of elements of a list. */
  function Length<T>(xs: List<T>): nat {
    match xs
    case Nil => 0
    case Cons(_, tail) => 1 + Length(tail)
  }

  type Schema = List<Kind>

  /** `vs` holds one value of the right type per field. */
  predicate FitsAll(schema: Schema, vs: List<Value>) {
    match schema
    case Nil => vs.Nil?
    case Cons(k, later) => vs.Cons? && Fits(k, vs.head) && FitsAll(later, vs.tail)
  }

  /** The bytes the fixed-width fields of `schema` take, whatever their values. */
  function FixedWidths(schema: Schema): nat {
    match schema
    case Nil => 0
    case Cons(k, later) => Width(k) + FixedWidths(later)
  }

  /** No field of `schema` is a byte vector or a string. */
  predicate AllFixed(schema: Schema) {
    match schema
    case Nil => true
    case Cons(k, later) => !IsVariable(k) && AllFixed(later)
  }

  /**
   The emitted `size`: the sum of the fields' sizes, plus `0usize`. It is at
   least what the fixed-width fields take, and exactly that when there is no
   variable-length field.
   */
  function SizeFields(schema: Schema, vs: List<Value>): (r: nat)
    requires FitsAll(schema, vs)
    ensures r >= FixedWidths(schema)
    ensures AllFixed(schema) ==> r == FixedWidths(schema)
  {
    match schema
    case Nil => 0
    case Cons(k, later) => Size(k, vs.head) + SizeFields(later, vs.tail)
  }

  /** The emitted `encode_to`: each field's bytes in declaration order; exactly `size()` of them. */
  function EncodeFields(schema: Schema, vs: List<Value>): (r: seq<u8>)
    requires FitsAll(schema, vs)
    ensures |r| == SizeFields(schema, vs)
  {
    match schema
    case Nil => []
    case Cons(k, later) => Encode(k, vs.head) + EncodeFields(later, vs.tail)
  }

  /** `<T as Decode>::decode_from` for each field type `T`: the type, the hint, the stream and the read position. */
  type FieldDecoder = (Kind, nat, seq<u8>, nat) -> Outcome<Value>

  /** The wire codec's primitive decoders; a read position past the end of the stream is an I/O failure. */
  function Primitive(chargesByte: bool): FieldDecoder {
    (k: Kind, hint: nat, data: seq<u8>, pos: nat) =>
      if pos <= |data| then Decode(chargesByte, k, hint, data, pos) else IoError
  }

  /** What a decoder for field type `k` called at `pos` leaves: a read position no earlier and within the stream, and a value of type `k`. */
  predicate Lands(k: Kind, r: Outcome<Value>, pos: nat, end: nat) {
    r.Done? ==> pos <= r.pos <= end && (r.value.Some? ==> Fits(k, r.value.value))
  }

  /** Every field decoder of `dec` stays within the stream and gives values of its type. */
  ghost predicate Sound(dec: FieldDecoder) {
    forall k: Kind, hint: nat, data: seq<u8>, pos: nat :: pos <= |data| ==> Lands(k, dec(k, hint, data, pos), pos, |data|)
  }

  /** `Lands` for a whole struct: within the stream, one value of the right type per field. */
  predicate LandsAll(schema: Schema, r: Outcome<List<Value>>, pos: nat, end: nat) {
    r.Done? ==> pos <= r.pos <= end && (r.value.Some? ==> FitsAll(schema, r.value.value))
  }

  /** The primitive decoders stay within the stream and give values of their types. */
  lemma PrimitiveSound(chargesByte: bool)
    ensures Sound(Primitive(chargesByte))
  {
  }

  /**
   The emitted `decode_from`: the fields in declaration order from one shared
   hint, and `None` as soon as one of them gives `None`. What it gives back
   has one value per field; with sound field decoders, they are of the
   fields' types and the reader stays within the stream.
   */
  function DecodeFields(dec: FieldDecoder, schema: Schema, hint: nat, data: seq<u8>, pos: nat): (r: Outcome<List<Value>>)
    ensures r.Done? && r.value.Some? ==> Length(r.value.value) == Length(schema)
    ensures Sound(dec) && pos <= |data| ==> LandsAll(schema, r, pos, |data|)
  {
    match schema
    case Nil => Done(Some(Nil), pos, hint)
    case Cons(k, later) =>
      match dec(k, hint, data, pos)
      case IoError => IoError
      case Done(None, p, h) => Done(None, p, h)
      case Done(Some(v), p, h) =>
        match DecodeFields(dec, later, h, data, p)
        case IoError => IoError
        case Done(None, p', h') => Done(None, p', h')
        case Done(Some(vs), p', h') => Done(Some(Cons(v, vs)), p', h')
  }

  /** The number of `u8` fields: each is a byte the as-written hint still counts. */
  function CountBytes(schema: Schema): nat {
    match schema
    case Nil => 0
    case Cons(k, later) => (if k.U8? then 1 else 0) + CountBytes(later)
  }

  /** The byte vectors and strings read the whole hint. */
  predicate IsVariable(k: Kind) {
    k.ByteVec? || k.Str?
  }

  /** A byte vector or string may only come last: any field after it would find the hint used up. */
  predicate VariableLast(schema: Schema) {
    match schema
    case Nil => true
    case Cons(k, later) => (IsVariable(k) ==> later.Nil?) && VariableLast(later)
  }

  /** The last field is a byte vector or string. */
  predicate EndsVariable(schema: Schema) {
    match schema
    case Nil => false
    case Cons(k, later) => if later.Nil? then IsVariable(k) else EndsVariable(later)
  }

  /**
   `Decode::decode` for a derived struct: the whole byte slice is the reader,
   and the hint is its length.
   */
  function DecodeAll(chargesByte: bool, schema: Schema, bytes: seq<u8>): (r: Outcome<List<Value>>)
    ensures r.Done? ==> r.pos <= |bytes|
    ensures r.Done? && r.value.Some? ==> FitsAll(schema, r.value.value)
  {
    PrimitiveSound(chargesByte);
    DecodeFields(Primitive(chargesByte), schema, |bytes|, bytes, 0)
  }

  // ---------------------------------------------------------------------------
  // What the struct decoder reads

  /** The hint a struct's `u8` fields leave behind: one each as written, none when the byte is charged. */
  function Kept(chargesByte: bool, schema: Schema): nat {
    if chargesByte then 0 else CountBytes(schema)
  }

  /** What a field decoder called at `pos` gives back re-encodes to exactly the bytes it read. */
  predicate Reencoded(k: Kind, r: Outcome<Value>, data: seq<u8>, pos: nat) {
    r.Done? && r.value.Some? ==>
      pos <= r.pos <= |data| && Fits(k, r.value.value) && Encode(k, r.value.value) == data[pos..r.pos]
  }

  /** Every field decoder of `dec` gives back values that re-encode to the bytes it read. */
  ghost predicate Reencodes(dec: FieldDecoder) {
    forall k: Kind, hint: nat, data: seq<u8>, pos: nat :: pos <= |data| ==> Reencoded(k, dec(k, hint, data, pos), data, pos)
  }

  /** What the wire codec's decoders give back re-encodes to the bytes they read. */
  lemma PrimitiveReencodes(chargesByte: bool)
    ensures Reencodes(Primitive(chargesByte))
  {
    forall k: Kind, hint: nat, data: seq<u8>, pos: nat | pos <= |data|
      ensures Reencoded(k, Primitive(chargesByte)(k, hint, data, pos), data, pos)
    {
      EncodeInvertsDecode(chargesByte, k, hint, data, pos);
    }
  }

  /** What the struct decoder gives back re-encodes to exactly the bytes it read. */
  lemma {:induction false} EncodeInvertsDecodeFields(dec: FieldDecoder, schema: Schema, hint: nat, data: seq<u8>, pos: nat)
    requires Reencodes(dec) && pos <= |data|
    ensures var r := DecodeFields(dec, schema, hint, data, pos);
      r.Done? && r.value.Some? ==>
        pos <= r.pos <= |data| && FitsAll(schema, r.value.value) && EncodeFields(schema, r.value.value) == data[pos..r.pos]
    decreases schema
  {
    match schema
    case Nil =>
    case Cons(k, later) =>
      var first := dec(k, hint, data, pos);
      assert Reencoded(k, first, data, pos);
      if first.Done? && first.value.Some? {
        EncodeInvertsDecodeFields(dec, later, first.hint, data, first.pos);
        var r := DecodeFields(dec, later, first.hint, data, first.pos);
        if r.Done? && r.value.Some? {
          SliceJoin(data, pos, first.pos, r.pos);
        }
      }
  }

  /**
   The documented hint contract for a whole struct: the hint goes down by
   exactly the bytes consumed, whether the struct decodes or gives `None`,
   as long as the `u8` decoder charges its byte or no field is a `u8`. So
   the struct never reads past its hint, and within a frame holding `hint`
   bytes it never fails for lack of input.
   */
  lemma {:induction false} DecodeFieldsChargesHint(chargesByte: bool, schema: Schema, hint: nat, data: seq<u8>, pos: nat)
    requires pos <= |data|
    requires Kept(chargesByte, schema) == 0
    ensures var r := DecodeFields(Primitive(chargesByte), schema, hint, data, pos);
      r.Done? ==> pos <= r.pos && r.hint + (r.pos - pos) == hint
    ensures pos + hint <= |data| ==> DecodeFields(Primitive(chargesByte), schema, hint, data, pos).Done?
    decreases schema
  {
    match schema
    case Nil =>
    case Cons(k, later) =>
      DecodeChargesHint(chargesByte, k, hint, data, pos);
      DecodeWithinHint(chargesByte, k, hint, data, pos);
      var first := Decode(chargesByte, k, hint, data, pos);
      if first.Done? && first.value.Some? {
        DecodeFieldsChargesHint(chargesByte, later, first.hint, data, first.pos);
      }
  }
}
