/**
 The peer messages of `bitrain-core/src/messages.rs` and the framing around
 them: `Container` (a four-byte big-endian length, the one-byte standalone
 id, the payload), the `Message` enum's derived `Recv` and `Send`
 (`bitrain-derive/src/messages/{recv,send}.rs`), and `Handshake`.

 Each payload struct is a derived struct over the wire codec's primitives:
 `SchemaOf(id)` is the field list of the struct whose standalone id is `id`,
 `Fields` and `FromFields` convert between a message and its field values.

 When a frame's id is not the one expected (`Container`) or not known at
 all (`Message`), the code as written returns `None` with the rest of the
 frame still unread. The receivers take a flag `skipsUnknown`: `false` is
 the code as written, `true` discards the `len - 1` bytes the frame still
 holds, as the `Decode` documentation asks of every `None`.
 */
module PeerMessages {
  import opened Bytes
  import opened Wrappers
  import opened Wire
  import opened Derive

  /** `BTInt`, the protocol's integer: a `u32`. */
  const BtInt: Kind := UInt(U32)

  /** The nine standalone message kinds and their payloads. */
  datatype Message =
    | Choke
    | Unchoke
    | Interested
    | NotInterested
    | Have(pieceIndex: u32)
    | Bitfield(bits: seq<u8>)
    | Request(pieceIndex: u32, offset: u32, dataLength: u32)
    | Piece(pieceIndex: u32, offset: u32, data: seq<u8>)
    | Cancel(pieceIndex: u32, offset: u32, dataLength: u32)

  /** The ids with a payload struct: `Choke = 0` up to `Cancel = 8`. */
  predicate KnownId(id: u8) {
    id <= 8
  }

  /** The ids of the field-less flag messages. */
  predicate FlagId(id: u8) {
    id <= 3
  }

  /** `Standalone::ID` of the message's payload struct. */
  function Id(m: Message): (id: u8)
    ensures KnownId(id)
    ensures FlagId(id) <==> m.Choke? || m.Unchoke? || m.Interested? || m.NotInterested?
  {
    match m
    case Choke => 0
    case Unchoke => 1
    case Interested => 2
    case NotInterested => 3
    case Have(_) => 4
    case Bitfield(_) => 5
    case Request(_, _, _) => 6
    case Piece(_, _, _) => 7
    case Cancel(_, _, _) => 8
  }

  /** The field types of the payload struct with standalone id `id`, in declaration order. */
  function SchemaOf(id: u8): (r: Schema)
    requires KnownId(id)
    ensures r.Nil? <==> FlagId(id)
  {
    if FlagId(id) then Nil
    else if id == 4 then Cons(UInt(U32), Nil)
    else if id == 5 then Cons(ByteVec, Nil)
    else if id == 7 then Cons(UInt(U32), Cons(UInt(U32), Cons(ByteVec, Nil)))
    else Cons(UInt(U32), Cons(UInt(U32), Cons(UInt(U32), Nil)))
  }

  /** Three values of three field types, one each. */
  lemma {:induction false} FitsThree(k1: Kind, k2: Kind, k3: Kind, vs: List<Value>)
    ensures FitsAll(Cons(k1, Cons(k2, Cons(k3, Nil))), vs) <==>
      && vs.Cons? && vs.tail.Cons? && vs.tail.tail.Cons? && vs.tail.tail.tail.Nil?
      && Fits(k1, vs.head) && Fits(k2, vs.tail.head) && Fits(k3, vs.tail.tail.head)
  {
    if vs.Cons? {
      assert FitsAll(Cons(k1, Cons(k2, Cons(k3, Nil))), vs) <==> Fits(k1, vs.head) && FitsAll(Cons(k2, Cons(k3, Nil)), vs.tail);
      if vs.tail.Cons? {
        assert FitsAll(Cons(k2, Cons(k3, Nil)), vs.tail) <==> Fits(k2, vs.tail.head) && FitsAll(Cons(k3, Nil), vs.tail.tail);
        if vs.tail.tail.Cons? {
          assert FitsAll(Cons(k3, Nil), vs.tail.tail) <==> Fits(k3, vs.tail.tail.head) && vs.tail.tail.tail.Nil?;
        }
      }
    }
  }

  /** The payload's field values, in declaration order; they are of the payload struct's field types. */
  function Fields(m: Message): (r: List<Value>)
    ensures FitsAll(SchemaOf(Id(m)), r)
  {
    match m
    case Have(i) => Cons(Number(i), Nil)
    case Bitfield(bits) => Cons(Blob(bits), Nil)
    case Request(i, o, n) =>
      FitsThree(UInt(U32), UInt(U32), UInt(U32), Cons(Number(i), Cons(Number(o), Cons(Number(n), Nil))));
      Cons(Number(i), Cons(Number(o), Cons(Number(n), Nil)))
    case Piece(i, o, d) =>
      FitsThree(UInt(U32), UInt(U32), ByteVec, Cons(Number(i), Cons(Number(o), Cons(Blob(d), Nil))));
      Cons(Number(i), Cons(Number(o), Cons(Blob(d), Nil)))
    case Cancel(i, o, n) =>
      FitsThree(UInt(U32), UInt(U32), UInt(U32), Cons(Number(i), Cons(Number(o), Cons(Number(n), Nil))));
      Cons(Number(i), Cons(Number(o), Cons(Number(n), Nil)))
    case _ => Nil
  }

  /** The variant a match arm builds from a decoded payload: the message with that id and those fields. */
  function FromFields(id: u8, vs: List<Value>): (m: Message)
    requires KnownId(id) && FitsAll(SchemaOf(id), vs)
    ensures Id(m) == id && Fields(m) == vs
  {
    if id == 0 then Choke
    else if id == 1 then Unchoke
    else if id == 2 then Interested
    else if id == 3 then NotInterested
    else if id == 4 then
      assert FitsAll(Nil, vs.tail);
      Have(vs.head.n)
    else if id == 5 then
      assert FitsAll(Nil, vs.tail);
      Bitfield(vs.head.bytes)
    else if id == 7 then
      FitsThree(UInt(U32), UInt(U32), ByteVec, vs);
      Piece(vs.head.n, vs.tail.head.n, vs.tail.tail.head.bytes)
    else
      FitsThree(UInt(U32), UInt(U32), UInt(U32), vs);
      if id == 6 then Request(vs.head.n, vs.tail.head.n, vs.tail.tail.head.n)
      else Cancel(vs.head.n, vs.tail.head.n, vs.tail.tail.head.n)
  }

  /** A message is determined by its id and its fields. */
  lemma {:induction false} FromFieldsOfFields(m: Message)
    ensures FromFields(Id(m), Fields(m)) == m
  {
  }

  /** Every payload struct has no `u8` field and at most a trailing byte vector. */
  lemma {:induction false} PayloadShape(id: u8)
    requires KnownId(id)
    ensures VariableLast(SchemaOf(id)) && CountBytes(SchemaOf(id)) == 0
  {
  }

  /** The derived `encode` of the payload struct; a flag's unit struct writes nothing. */
  function Payload(m: Message): (r: seq<u8>)
    ensures |r| == SizeFields(SchemaOf(Id(m)), Fields(m))
    ensures FlagId(Id(m)) ==> r == []
  {
    EncodeFields(SchemaOf(Id(m)), Fields(m))
  }

  /** The derived `size` of the payload struct: the number of bytes its `encode` writes. */
  function PayloadSize(m: Message): (r: nat)
    ensures r == |Payload(m)|
    ensures FlagId(Id(m)) ==> r == 0
  {
    SizeFields(SchemaOf(Id(m)), Fields(m))
  }

  // ---------------------------------------------------------------------------
  // Container

  /**
   The payload size must fit the `u32` length field together with the id
   byte: `try_into` panics above `u32::MAX`, and `data_len + 1` overflows
   at it.
   */
  predicate Sendable(m: Message) {
    PayloadSize(m) < U32_MAX
  }

  /** The frame header: the length `size + 1` as a big-endian `u32`, then the id. */
  function Header(size: nat, id: u8): (r: seq<u8>)
    requires size < U32_MAX
    ensures |r| == 5 && r[4] == id
  {
    Encode(BtInt, Number(size + 1)) + [id]
  }

  /** `Container::send_to`: the header, then the payload; five bytes more than the payload. */
  function ContainerSend(m: Message): (r: seq<u8>)
    requires Sendable(m)
    ensures |r| == 5 + PayloadSize(m)
  {
    Header(PayloadSize(m), Id(m)) + Payload(m)
  }

  /** What a frame's length field says: the four bytes at `pos`, big-endian. */
  function FrameLength(data: seq<u8>, pos: nat): (len: nat)
    requires pos + 4 <= |data|
    ensures len <= U32_MAX
  {
    IntLimitIsPow256(U32);
    FromBigEndian(data[pos..pos + 4])
  }

  /**
   The match arm of a payload type: `decode_or_discard_from` of the payload
   struct with the hint `len - 1`, its value wrapped in the variant.
   */
  function PayloadRecv(id: u8, hint: nat, data: seq<u8>, pos: nat): (r: Received<Message>)
    requires KnownId(id) && pos <= |data|
    ensures r.Received? ==> pos <= r.pos <= |data|
    ensures r.Received? && r.value.Some? ==> Id(r.value.value) == id
    ensures r.Received? && r.value.Some? ==>
      r.pos - pos <= hint && Spans(data, pos, r.pos, Payload(r.value.value))
    ensures pos + hint <= |data| ==> r.Received? && (r.value.None? ==> r.pos == pos + hint)
  {
    PrimitiveSound(false);
    PrimitiveReencodes(false);
    EncodeInvertsDecodeFields(Primitive(false), SchemaOf(id), hint, data, pos);
    PayloadShape(id);
    DecodeFieldsChargesHint(false, SchemaOf(id), hint, data, pos);
    match DecodeOrDiscard(DecodeFields(Primitive(false), SchemaOf(id), hint, data, pos), data)
    case IoError => Failed
    case Done(None, q, _) => Received(None, q)
    case Done(Some(vs), q, _) => Received(Some(FromFields(id, vs)), q)
  }

  /** Where the reader is left after a frame's id turned out not to be wanted. */
  function SkipRest(skipsUnknown: bool, data: seq<u8>, pos: nat, hint: nat): (r: nat)
    requires pos <= |data|
    ensures pos <= r <= |data|
  {
    if skipsUnknown then Discard(data, pos, hint) else pos
  }

  /**
   `Container::<R>::recv_from` for the payload type with id `id`: the
   length (an I/O failure when fewer than four bytes come), `None` for a
   keep-alive of length 0, then the id byte; `None` when it is another id,
   else the payload with the hint `len - 1`.
   */
  function ContainerRecv(skipsUnknown: bool, id: u8, data: seq<u8>, pos: nat): (r: Received<Message>)
    requires KnownId(id) && pos <= |data|
    ensures r.Received? ==> pos <= r.pos <= |data|
    ensures r.Received? && r.value.Some? ==> Id(r.value.value) == id
    ensures r.Received? && r.value.Some? ==> pos + 5 <= r.pos <= |data| && data[pos + 4] == id
    ensures r.Received? && r.value.Some? ==>
      pos + 5 <= |data| && r.pos - (pos + 5) < FrameLength(data, pos) && Spans(data, pos + 5, r.pos, Payload(r.value.value))
  {
    if |data| - pos < 4 then Failed
    else
      var len := FrameLength(data, pos);
      if len == 0 then Received(None, pos + 4)
      else if |data| - pos < 5 then Failed
      else if data[pos + 4] != id then Received(None, SkipRest(skipsUnknown, data, pos + 5, len - 1))
      else PayloadRecv(id, len - 1, data, pos + 5)
  }

  // ---------------------------------------------------------------------------
  // The derived `Message` codec

  /**
   The emitted `Message::send_to`: a flag writes `1u32` and its id, every
   other variant delegates to `Container::send_to` of its payload.
   */
  function MessageSend(m: Message): (r: seq<u8>)
    requires Sendable(m)
    ensures |r| == 5 + PayloadSize(m) && r[4] == Id(m)
    ensures FlagId(Id(m)) ==> r == [0, 0, 0, 1, Id(m)]
    ensures !FlagId(Id(m)) ==> r[5..] == Payload(m)
  {
    if FlagId(Id(m)) then
      assert Encode(BtInt, Number(1)) == [0, 0, 0, 1];
      Encode(BtInt, Number(1)) + Encode(U8, Byte(Id(m)))
    else ContainerSend(m)
  }

  /** The arms of the emitted match on the id, after the id byte; `hint` is `len - 1`. */
  function Dispatch(skipsUnknown: bool, id: u8, hint: nat, data: seq<u8>, pos: nat): (r: Received<Message>)
    requires pos <= |data|
    ensures r.Received? ==> pos <= r.pos <= |data|
    ensures r.Received? && r.value.Some? ==> Id(r.value.value) == id
    ensures FlagId(id) ==> r == Received(Some(FromFields(id, Nil)), pos)
    ensures !FlagId(id) && !KnownId(id) ==> r.Received? && r.value.None?
    ensures !FlagId(id) && !KnownId(id) && !skipsUnknown ==> r.pos == pos
    ensures r.Received? && r.value.Some? ==>
      r.pos - pos <= hint && Spans(data, pos, r.pos, Payload(r.value.value))
  {
    if FlagId(id) then Received(Some(FromFields(id, Nil)), pos)
    else if KnownId(id) then PayloadRecv(id, hint, data, pos)
    else Received(None, SkipRest(skipsUnknown, data, pos, hint))
  }

  /**
   The emitted `Message::recv_from`: the length through `u32`'s
   `decode_or_discard_from` with hint 4, `None` for a keep-alive, the id
   through `u8`'s with hint 1, then the arm for that id with hint `len - 1`.
   */
  function MessageRecv(skipsUnknown: bool, data: seq<u8>, pos: nat): (r: Received<Message>)
    requires pos <= |data|
    ensures r.Received? ==> pos <= r.pos <= |data|
    ensures r.Received? && r.value.Some? ==> pos + 5 <= r.pos <= |data| && data[pos + 4] == Id(r.value.value)
    ensures r.Received? && r.value.Some? ==>
      pos + 5 <= |data| && r.pos - (pos + 5) < FrameLength(data, pos) && Spans(data, pos + 5, r.pos, Payload(r.value.value))
  {
    match DecodeOrDiscard(Decode(false, BtInt, 4, data, pos), data)
    case IoError => Failed
    case Done(None, p, _) => Received(None, p)
    case Done(Some(length), p, _) =>
      if length.n == 0 then Received(None, p)
      else
        match DecodeOrDiscard(Decode(false, U8, 1, data, p), data)
        case IoError => Failed
        case Done(None, q, _) => Received(None, q)
        case Done(Some(id), q, _) => Dispatch(skipsUnknown, id.byte, length.n - 1, data, q)
  }

  // ---------------------------------------------------------------------------
  // Handshake

  /** The handshake: 8 reserved bytes, the 20-byte info hash and the 20-byte peer id. */
  datatype Handshake = Handshake(reserved: seq<u8>, infoHash: seq<u8>, peerId: seq<u8>)

  /** The handshake's fields have the lengths the protocol fixes: 8, 20 and 20 bytes. */
  predicate ValidHandshake(h: Handshake) {
    |h.reserved| == 8 && |h.infoHash| == 20 && |h.peerId| == 20
  }

  /** `"BitTorrent protocol".as_bytes()`. */
  const PROTOCOL: seq<u8> := [66, 105, 116, 84, 111, 114, 114, 101, 110, 116, 32, 112, 114, 111, 116, 111, 99, 111, 108]

  /** `Handshake::send_to`: the name's length as a `u8`, the name, the reserved bytes, the info hash and the peer id. */
  function HandshakeSend(h: Handshake): (r: seq<u8>)
    requires ValidHandshake(h)
    ensures |r| == 68
  {
    [|PROTOCOL| as u8] + PROTOCOL + h.reserved + h.infoHash + h.peerId
  }

  /** `decode_or_discard_from` of a `[u8; d]` or `Box<[u8; d]>`. */
  function ReadArray(d: nat, hint: nat, data: seq<u8>, pos: nat): (r: Outcome<Value>)
    requires pos <= |data|
    ensures r.Done? ==> pos <= r.pos <= |data|
    ensures r.Done? && r.value.Some? ==> r.pos == pos + d && r.value.value == Blob(data[pos..pos + d])
    ensures r.Done? && r.value.None? ==> r.hint == hint
  {
    DecodeOrDiscard(Decode(false, ByteArray(d), hint, data, pos), data)
  }

  /** After the protocol name: the reserved bytes, info hash and peer id, from one hint of 48. */
  function HandshakeBody(data: seq<u8>, pos: nat): (r: Received<Handshake>)
    requires pos <= |data|
    ensures r.Received? ==> pos <= r.pos <= |data|
    ensures r.Received? && r.value.Some? ==> ValidHandshake(r.value.value)
    ensures r.Received? && r.value.Some? ==>
      r.pos == pos + 48 && r.value.value == Handshake(data[pos..pos + 8], data[pos + 8..pos + 28], data[pos + 28..pos + 48])
    ensures pos + 48 <= |data| ==> r.Received? && r.value.Some?
  {
    match ReadArray(8, 48, data, pos)
    case IoError => Failed
    case Done(None, p, _) => Received(None, p)
    case Done(Some(reserved), p, h) =>
      match ReadArray(20, h, data, p)
      case IoError => Failed
      case Done(None, q, _) => Received(None, q)
      case Done(Some(infoHash), q, h') =>
        match ReadArray(20, h', data, q)
        case IoError => Failed
        case Done(None, q', _) => Received(None, q')
        case Done(Some(peerId), q', _) => Received(Some(Handshake(reserved.bytes, infoHash.bytes, peerId.bytes)), q')
  }

  /**
   `Handshake::recv_from`: the name's length as a `u8`, that many bytes of
   name, `None` when they are not `BitTorrent protocol`, else the body.
   */
  function HandshakeRecv(data: seq<u8>, pos: nat): (r: Received<Handshake>)
    requires pos <= |data|
    ensures r.Received? ==> pos <= r.pos <= |data|
    ensures r.Received? && r.value.Some? ==> ValidHandshake(r.value.value)
    ensures r.Received? && r.value.Some? ==>
      ValidHandshake(r.value.value) && Spans(data, pos, r.pos, HandshakeSend(r.value.value))
  {
    match DecodeOrDiscard(Decode(false, U8, 1, data, pos), data)
    case IoError => Failed
    case Done(None, p, _) => Received(None, p)
    case Done(Some(n), p, _) =>
      var name := DecodeOrDiscard(Decode(false, ByteVec, n.byte, data, p), data);
      if name.IoError? then Failed
      else if name.value.None? || name.value.value.bytes != PROTOCOL then Received(None, name.pos)
      else
        var q := name.pos;
        var b := HandshakeBody(data, q);
        assert b.Received? && b.value.Some? ==> HandshakeSend(b.value.value) == data[pos..b.pos] by {
          if b.Received? && b.value.Some? {
            HandshakeBytes(data, pos, p, q, b.value.value);
          }
        }
        b
  }

  /** The length byte, the name and the body the receiver read, laid end to end, are what the sender writes. */
  lemma {:induction false} HandshakeBytes(data: seq<u8>, pos: nat, p: nat, q: nat, h: Handshake)
    requires pos < p <= q && q + 48 <= |data| && ValidHandshake(h)
    requires data[pos..p] == [|PROTOCOL| as u8] && data[p..q] == PROTOCOL
    requires h == Handshake(data[q..q + 8], data[q + 8..q + 28], data[q + 28..q + 48])
    ensures HandshakeSend(h) == data[pos..q + 48]
  {
    SliceJoin(data, q, q + 8, q + 28);
    SliceJoin(data, q, q + 28, q + 48);
    SliceJoin(data, pos, p, q);
    SliceJoin(data, pos, q, q + 48);
  }

  /** `Reserved::EXTENSION`: byte 5, mask `0x10`. */
  const EXTENSION_BYTE: nat := 5
  const EXTENSION_MASK: bv8 := 0x10

  /** `Reserved::supports_extensions`: the extension bit of the reserved bytes is set. */
  predicate SupportsExtensions(reserved: seq<u8>)
    requires |reserved| == 8
  {
    (reserved[EXTENSION_BYTE] as bv8) & EXTENSION_MASK == EXTENSION_MASK
  }

  // ---------------------------------------------------------------------------
  // Derive-time validation

  /** How a variant carries its data. */
  datatype Style = Unit | Tuple | Struct

  /** What the derives see of a variant: its style, its number of fields and its `#[standalone(id = …)]`. */
  datatype Variant = Variant(style: Style, fieldCount: nat, id: Option<u8>)

  datatype DeriveError = MissingId | UnsupportedShape

  /**
   Why the `Recv` and `Send` derives reject a variant: a unit variant
   without an id, a data variant with other than one field.
   */
  function VariantError(v: Variant): (r: Option<DeriveError>)
    ensures r.None? <==> if v.style.Unit? then v.id.Some? else v.fieldCount == 1
  {
    if v.id.None? && v.style.Unit? then Some(MissingId)
    else if !v.style.Unit? && v.fieldCount != 1 then Some(UnsupportedShape)
    else None
  }

  /** The errors one stage of the derive collects for `kind`: one per variant rejected for it, in declaration order. */
  function ErrorsOfKind(vs: seq<Variant>, kind: DeriveError): (r: seq<DeriveError>)
    ensures |r| <= |vs|
    ensures forall e :: e in r ==> e == kind
    ensures r == [] <==> forall i :: 0 <= i < |vs| ==> VariantError(vs[i]) != Some(kind)
  {
    if |vs| == 0 then []
    else
      assert forall i :: 1 <= i < |vs| ==> vs[i] == vs[1..][i - 1];
      (if VariantError(vs[0]) == Some(kind) then [kind] else []) + ErrorsOfKind(vs[1..], kind)
  }

  /**
   The errors the derive reports. `from_derive_input` runs each variant's
   `validate` first and returns every missing id at once; only when there
   is none does `from_params` report the data variants without exactly one
   field.
   */
  function DeriveErrors(vs: seq<Variant>): (r: seq<DeriveError>)
    ensures |r| <= |vs|
    ensures r == [] <==> forall i :: 0 <= i < |vs| ==> VariantError(vs[i]).None?
    ensures (exists i :: 0 <= i < |vs| && VariantError(vs[i]) == Some(MissingId)) ==> forall e :: e in r ==> e == MissingId
    ensures (forall i :: 0 <= i < |vs| ==> VariantError(vs[i]) != Some(MissingId)) ==> forall e :: e in r ==> e == UnsupportedShape
  {
    var missing := ErrorsOfKind(vs, MissingId);
    if missing != [] then missing else ErrorsOfKind(vs, UnsupportedShape)
  }

  /** The `Message` enum as the derives see it: four flags with ids, five one-field tuple variants. */
  const MessageVariants: seq<Variant> := [
    Variant(Unit, 0, Some(0)), Variant(Unit, 0, Some(1)), Variant(Unit, 0, Some(2)), Variant(Unit, 0, Some(3)),
    Variant(Tuple, 1, None), Variant(Tuple, 1, None), Variant(Tuple, 1, None), Variant(Tuple, 1, None), Variant(Tuple, 1, None)
  ]
}
