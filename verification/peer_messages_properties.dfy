/**
 What the peer-message framing guarantees: every message sent is received
 back, through `Container` and through the derived `Message` codec; a
 length of 0 is a keep-alive; a flag is five bytes. Every receive stays
 within the frame its length announces. With the rest of a frame
 discarded, every `None` leaves the reader exactly at the next frame. As
 written, an unknown or unexpected id leaves the payload behind, and the
 next receive reads it as a frame.
 */
module PeerMessageProperties {
  import opened Bytes
  import opened Wrappers
  import opened Wire
  import opened Derive
  import opened DeriveProperties
  import opened PeerMessages

  // ---------------------------------------------------------------------------
  // Reading a header

  /** Reading the header back: the length is the payload size plus one, then the id. */
  lemma {:induction false} HeaderRead(size: nat, id: u8, data: seq<u8>, pos: nat)
    requires size < U32_MAX
    requires pos + 5 <= |data| && data[pos..pos + 5] == Header(size, id)
    ensures FrameLength(data, pos) == size + 1 && data[pos + 4] == id
  {
    IntLimitIsPow256(U32);
    var length := Encode(BtInt, Number(size + 1));
    SliceSplit(data, pos, pos + 4, pos + 5, length, [id]);
    BigEndianRoundTrip(size + 1, 4);
    assert data[pos + 4] == data[pos + 4..pos + 5][0];
  }

  /** A small length field: three zero bytes, then the length. */
  lemma {:induction false} LengthValue(n: u8)
    ensures FromBigEndian([0, 0, 0, n]) == n
  {
    assert BigEndian(n, 4) == [0, 0, 0, n];
    BigEndianRoundTrip(n, 4);
  }

  /** The length `Message::recv_from` reads through `u32`'s decoder is the frame's length field. */
  lemma {:induction false} LengthRead(data: seq<u8>, pos: nat)
    requires pos + 4 <= |data|
    ensures Yields(DecodeOrDiscard(Decode(false, BtInt, 4, data, pos), data), Number(FrameLength(data, pos)), pos + 4, 0)
  {
  }

  /** The id `Message::recv_from` reads through `u8`'s decoder is the byte after the length. */
  lemma {:induction false} IdRead(data: seq<u8>, pos: nat)
    requires pos < |data|
    ensures Yields(DecodeOrDiscard(Decode(false, U8, 1, data, pos), data), Byte(data[pos]), pos + 1, 1)
  {
    assert data[pos..pos + 1] == [data[pos]];
  }

  /** A sent frame: the header, then the payload. */
  lemma {:induction false} FrameParts(m: Message, data: seq<u8>, pos: nat)
    requires Sendable(m)
    requires pos + |ContainerSend(m)| <= |data| && data[pos..pos + |ContainerSend(m)|] == ContainerSend(m)
    ensures FrameLength(data, pos) == PayloadSize(m) + 1 && data[pos + 4] == Id(m)
    ensures pos + 5 + PayloadSize(m) <= |data| && data[pos + 5..pos + 5 + PayloadSize(m)] == Payload(m)
  {
    SliceSplit(data, pos, pos + 5, pos + 5 + PayloadSize(m), Header(PayloadSize(m), Id(m)), Payload(m));
    HeaderRead(PayloadSize(m), Id(m), data, pos);
  }

  // ---------------------------------------------------------------------------
  // Round trips

  /** `Decode::decode` of every payload's `encode` gives it back, as the crate's `encode_decode` test expects. */
  lemma {:induction false} PayloadRoundTrip(m: Message)
    ensures var r := DecodeAll(false, SchemaOf(Id(m)), Payload(m));
      Yields(r, Fields(m), |Payload(m)|, 0)
  {
    PayloadShape(Id(m));
    DecodeAllInvertsEncode(false, SchemaOf(Id(m)), Fields(m));
  }

  /** The payload decoder of the right type reads a payload back and stops right after it. */
  lemma {:induction false} PayloadRecvInvertsEncode(m: Message, data: seq<u8>, pos: nat)
    requires pos + PayloadSize(m) <= |data| && data[pos..pos + PayloadSize(m)] == Payload(m)
    ensures PayloadRecv(Id(m), PayloadSize(m), data, pos) == Received(Some(m), pos + PayloadSize(m))
  {
    PayloadFieldsRoundTrip(m, data, pos);
    PayloadRecvOfFields(Id(m), PayloadSize(m), data, pos, Fields(m), pos + PayloadSize(m));
    FromFieldsOfFields(m);
  }

  /** The payload struct's fields decode back from its `encode`, using up the hint. */
  lemma {:induction false} PayloadFieldsRoundTrip(m: Message, data: seq<u8>, pos: nat)
    requires pos + PayloadSize(m) <= |data| && data[pos..pos + PayloadSize(m)] == Payload(m)
    ensures DecodeFields(Primitive(false), SchemaOf(Id(m)), PayloadSize(m), data, pos) == Done(Some(Fields(m)), pos + PayloadSize(m), 0)
  {
    PayloadShape(Id(m));
    PrimitiveFieldsRoundTrip(SchemaOf(Id(m)), Fields(m), data, pos);
  }

  /** The primitive decoders read back the encoding of a schema with no `u8` field and the hint exactly its size. */
  lemma {:induction false} PrimitiveFieldsRoundTrip(schema: Schema, vs: List<Value>, data: seq<u8>, pos: nat)
    requires FitsAll(schema, vs) && VariableLast(schema) && CountBytes(schema) == 0
    requires Spans(data, pos, pos + SizeFields(schema, vs), EncodeFields(schema, vs))
    ensures Yields(DecodeFields(Primitive(false), schema, SizeFields(schema, vs), data, pos), vs, pos + SizeFields(schema, vs), 0)
  {
    PrimitiveInvertsEncode(false);
    FieldsRoundTrip(Primitive(false), false, schema, vs, 0, data, pos);
  }

  /** When the payload struct's fields decode to `vs` with nothing left of the hint, the arm yields the message of `vs`. */
  lemma {:induction false} PayloadRecvOfFields(id: u8, hint: nat, data: seq<u8>, pos: nat, vs: List<Value>, q: nat)
    requires KnownId(id) && pos <= |data|
    requires DecodeFields(Primitive(false), SchemaOf(id), hint, data, pos) == Done(Some(vs), q, 0)
    ensures PayloadRecv(id, hint, data, pos) == Received(Some(FromFields(id, vs)), q)
  {
    var o := DecodeFields(Primitive(false), SchemaOf(id), hint, data, pos);
    assert DecodeOrDiscard(o, data) == o;
  }

  /** `Container(&x).send_to` then `Container::recv_from` gives `x` back, as the crate's `container` test expects. */
  lemma {:induction false} ContainerRoundTrip(skipsUnknown: bool, m: Message, data: seq<u8>, pos: nat)
    requires Sendable(m)
    requires pos + |ContainerSend(m)| <= |data| && data[pos..pos + |ContainerSend(m)|] == ContainerSend(m)
    ensures ContainerRecv(skipsUnknown, Id(m), data, pos) == Received(Some(m), pos + |ContainerSend(m)|)
  {
    assert |ContainerSend(m)| == 5 + PayloadSize(m);
    FrameParts(m, data, pos);
    ContainerOfParts(skipsUnknown, m, data, pos);
  }

  /** A frame whose length, id and payload are those of `m` is read back as `m` by a `Container` of its kind. */
  lemma {:induction false} ContainerOfParts(skipsUnknown: bool, m: Message, data: seq<u8>, pos: nat)
    requires pos + 5 + PayloadSize(m) <= |data|
    requires FrameLength(data, pos) == PayloadSize(m) + 1 && data[pos + 4] == Id(m)
    requires data[pos + 5..pos + 5 + PayloadSize(m)] == Payload(m)
    ensures ContainerRecv(skipsUnknown, Id(m), data, pos) == Received(Some(m), pos + 5 + PayloadSize(m))
  {
    assert PayloadRecv(Id(m), PayloadSize(m), data, pos + 5) == Received(Some(m), pos + 5 + PayloadSize(m)) by {
      PayloadRecvInvertsEncode(m, data, pos + 5);
    }
    ContainerRecvOfHeader(skipsUnknown, Id(m), PayloadSize(m), data, pos);
  }

  /** A frame whose header carries the wanted id goes to the payload decoder with the rest of the frame as hint. */
  lemma {:induction false} ContainerRecvOfHeader(skipsUnknown: bool, id: u8, size: nat, data: seq<u8>, pos: nat)
    requires KnownId(id) && pos + 5 + size <= |data|
    requires FrameLength(data, pos) == size + 1 && data[pos + 4] == id
    ensures ContainerRecv(skipsUnknown, id, data, pos) == PayloadRecv(id, size, data, pos + 5)
  {
  }

  /** A flag is sent as the frame a `Container` of its field-less struct makes. */
  lemma {:induction false} FlagSendIsContainerSend(m: Message)
    requires Sendable(m) && FlagId(Id(m))
    ensures MessageSend(m) == ContainerSend(m)
  {
    assert Payload(m) == [];
  }

  /** A flag is five bytes: the length 1, then its id. */
  lemma {:induction false} FlagFrame(m: Message)
    requires FlagId(Id(m))
    ensures Sendable(m) && MessageSend(m) == [0, 0, 0, 1, Id(m)]
  {
    assert Encode(BtInt, Number(1)) == [0, 0, 0, 1];
  }

  /** The derived `Message::send_to` writes exactly the frame `Container::send_to` writes for the payload. */
  lemma {:induction false} MessageSendIsContainerSend(m: Message)
    requires Sendable(m)
    ensures MessageSend(m) == ContainerSend(m)
  {
    if FlagId(Id(m)) {
      FlagSendIsContainerSend(m);
    }
  }

  /** The derived `send_to` then `recv_from` gives the message back, as the crate's `send_recv` test expects. */
  lemma {:induction false} MessageRoundTrip(skipsUnknown: bool, m: Message, data: seq<u8>, pos: nat)
    requires Sendable(m)
    requires pos + |MessageSend(m)| <= |data| && data[pos..pos + |MessageSend(m)|] == MessageSend(m)
    ensures MessageRecv(skipsUnknown, data, pos) == Received(Some(m), pos + |MessageSend(m)|)
  {
    MessageSendIsContainerSend(m);
    FrameRoundTrip(skipsUnknown, m, data, pos);
  }

  /** The derived receiver reads a whole sent frame back as its message. */
  lemma {:induction false} FrameRoundTrip(skipsUnknown: bool, m: Message, data: seq<u8>, pos: nat)
    requires Sendable(m)
    requires pos + |ContainerSend(m)| <= |data| && data[pos..pos + |ContainerSend(m)|] == ContainerSend(m)
    ensures MessageRecv(skipsUnknown, data, pos) == Received(Some(m), pos + 5 + PayloadSize(m))
  {
    FrameParts(m, data, pos);
    FrameOfParts(skipsUnknown, m, data, pos);
  }

  /** A frame whose length, id and payload are those of `m` is read back as `m`. */
  lemma {:induction false} FrameOfParts(skipsUnknown: bool, m: Message, data: seq<u8>, pos: nat)
    requires pos + 5 + PayloadSize(m) <= |data|
    requires FrameLength(data, pos) == PayloadSize(m) + 1 && data[pos + 4] == Id(m)
    requires data[pos + 5..pos + 5 + PayloadSize(m)] == Payload(m)
    ensures MessageRecv(skipsUnknown, data, pos) == Received(Some(m), pos + 5 + PayloadSize(m))
  {
    var dispatched := Dispatch(skipsUnknown, Id(m), PayloadSize(m), data, pos + 5);
    assert dispatched == Received(Some(m), pos + 5 + PayloadSize(m)) by {
      DispatchInvertsEncode(skipsUnknown, m, data, pos + 5);
    }
    assert MessageRecv(skipsUnknown, data, pos) == dispatched by {
      MessageRecvOfHeader(skipsUnknown, Id(m), PayloadSize(m), data, pos);
    }
  }

  /** The arm for a message's own id reads its payload back. */
  lemma {:induction false} DispatchInvertsEncode(skipsUnknown: bool, m: Message, data: seq<u8>, pos: nat)
    requires pos + PayloadSize(m) <= |data| && data[pos..pos + PayloadSize(m)] == Payload(m)
    ensures Dispatch(skipsUnknown, Id(m), PayloadSize(m), data, pos) == Received(Some(m), pos + PayloadSize(m))
  {
    if FlagId(Id(m)) {
      FromFieldsOfFields(m);
    } else {
      PayloadRecvInvertsEncode(m, data, pos);
    }
  }

  /** A frame with a nonzero length goes to the arm of its id, with the rest of the frame as hint. */
  lemma {:induction false} MessageRecvOfHeader(skipsUnknown: bool, id: u8, size: nat, data: seq<u8>, pos: nat)
    requires pos + 5 + size <= |data|
    requires FrameLength(data, pos) == size + 1 && data[pos + 4] == id
    ensures MessageRecv(skipsUnknown, data, pos) == Dispatch(skipsUnknown, id, size, data, pos + 5)
  {
    LengthRead(data, pos);
    IdRead(data, pos + 4);
    assert DecodeOrDiscard(Decode(false, BtInt, 4, data, pos), data) == Done(Some(Number(size + 1)), pos + 4, 0);
    assert DecodeOrDiscard(Decode(false, U8, 1, data, pos + 4), data) == Done(Some(Byte(id)), pos + 5, 1);
  }

  // ---------------------------------------------------------------------------
  // Keep-alives and frame accounting

  /** A length of 0 is a keep-alive: `None`, with nothing read past the length. */
  lemma {:induction false} KeepAlive(skipsUnknown: bool, id: u8, data: seq<u8>, pos: nat)
    requires KnownId(id)
    requires pos + 4 <= |data| && data[pos..pos + 4] == [0, 0, 0, 0]
    ensures MessageRecv(skipsUnknown, data, pos) == Received(None, pos + 4)
    ensures ContainerRecv(skipsUnknown, id, data, pos) == Received(None, pos + 4)
  {
    LengthRead(data, pos);
    LengthValue(0);
  }

  /** The frame at `pos` is all there: its length field and the `len` bytes it announces. */
  predicate CompleteFrame(data: seq<u8>, pos: nat) {
    pos + 4 <= |data| && pos + 4 + FrameLength(data, pos) <= |data|
  }

  /**
   Within a frame holding `hint` more bytes, the payload decoder never runs
   out of input and never reads past the frame; with the rest discarded on
   `None`, a `None` ends exactly at the frame's end.
   */
  lemma {:induction false} PayloadRecvWithinFrame(id: u8, hint: nat, data: seq<u8>, pos: nat)
    requires KnownId(id) && pos + hint <= |data|
    ensures var r := PayloadRecv(id, hint, data, pos);
      && r.Received?
      && (r.value.None? ==> r.pos == pos + hint)
      && (r.value.Some? ==> r.pos <= pos + hint)
  {
    PayloadShape(id);
    DecodeFieldsChargesHint(false, SchemaOf(id), hint, data, pos);
  }

  /**
   The derived `Message::recv_from` on a complete frame never fails and
   never reads past the frame. When the rest of a frame is discarded, as the
   `Decode` contract asks, every `None` ends exactly where the next frame
   starts.
   */
  lemma {:induction false} MessageRecvKeepsFraming(skipsUnknown: bool, data: seq<u8>, pos: nat)
    requires CompleteFrame(data, pos)
    ensures var r := MessageRecv(skipsUnknown, data, pos);
      && r.Received?
      && r.pos <= pos + 4 + FrameLength(data, pos)
      && (skipsUnknown && r.value.None? ==> r.pos == pos + 4 + FrameLength(data, pos))
  {
    var len := FrameLength(data, pos);
    LengthRead(data, pos);
    if len > 0 {
      MessageRecvOfHeader(skipsUnknown, data[pos + 4], len - 1, data, pos);
      DispatchWithinFrame(skipsUnknown, data[pos + 4], len - 1, data, pos + 5);
    }
  }

  /** The arm for any id, within a frame holding `hint` more bytes: the same guarantees. */
  lemma {:induction false} DispatchWithinFrame(skipsUnknown: bool, id: u8, hint: nat, data: seq<u8>, pos: nat)
    requires pos + hint <= |data|
    ensures var r := Dispatch(skipsUnknown, id, hint, data, pos);
      && r.Received?
      && r.pos <= pos + hint
      && (skipsUnknown && r.value.None? ==> r.pos == pos + hint)
  {
    if !FlagId(id) && KnownId(id) {
      PayloadRecvWithinFrame(id, hint, data, pos);
    }
  }

  /** `Container::recv_from` on a complete frame: the same guarantees as the derived receiver. */
  lemma {:induction false} ContainerRecvKeepsFraming(skipsUnknown: bool, id: u8, data: seq<u8>, pos: nat)
    requires KnownId(id) && CompleteFrame(data, pos)
    ensures var r := ContainerRecv(skipsUnknown, id, data, pos);
      && r.Received?
      && r.pos <= pos + 4 + FrameLength(data, pos)
      && (skipsUnknown && r.value.None? ==> r.pos == pos + 4 + FrameLength(data, pos))
  {
    var len := FrameLength(data, pos);
    if len > 0 && data[pos + 4] == id {
      PayloadRecvWithinFrame(id, len - 1, data, pos + 5);
    }
  }

  // ---------------------------------------------------------------------------
  // Unknown and unexpected ids

  /**
   A frame whose id is not one of the nine gives `None`. As written, the
   reader stops right after the id, with the `len - 1` payload bytes still
   unread; discarding them puts it at the next frame.
   */
  lemma {:induction false} UnknownIdLeavesPayload(skipsUnknown: bool, data: seq<u8>, pos: nat)
    requires CompleteFrame(data, pos) && FrameLength(data, pos) > 0 && !KnownId(data[pos + 4])
    ensures !skipsUnknown ==> MessageRecv(skipsUnknown, data, pos) == Received(None, pos + 5)
    ensures skipsUnknown ==> MessageRecv(skipsUnknown, data, pos) == Received(None, pos + 4 + FrameLength(data, pos))
  {
    LengthRead(data, pos);
    IdRead(data, pos + 4);
  }

  /**
   A flag's arm reads nothing after the id, whatever the length said: a
   flag frame longer than 1 gives the flag, with the reader left inside the
   frame and its `len - 1` extra bytes unread, even when the receiver
   discards the rest of `None` frames.
   */
  lemma {:induction false} LongFlagFrameLeavesPayload(skipsUnknown: bool, data: seq<u8>, pos: nat)
    requires CompleteFrame(data, pos) && FrameLength(data, pos) > 1 && FlagId(data[pos + 4])
    ensures MessageRecv(skipsUnknown, data, pos) == Received(Some(FromFields(data[pos + 4], Nil)), pos + 5)
    ensures pos + 5 < pos + 4 + FrameLength(data, pos)
  {
    MessageRecvOfHeader(skipsUnknown, data[pos + 4], FrameLength(data, pos) - 1, data, pos);
  }

  /** `Container::recv_from` for one type meeting a frame of another: the same as an unknown id. */
  lemma {:induction false} MismatchedIdLeavesPayload(skipsUnknown: bool, id: u8, data: seq<u8>, pos: nat)
    requires KnownId(id) && CompleteFrame(data, pos) && FrameLength(data, pos) > 0 && data[pos + 4] != id
    ensures !skipsUnknown ==> ContainerRecv(skipsUnknown, id, data, pos) == Received(None, pos + 5)
    ensures skipsUnknown ==> ContainerRecv(skipsUnknown, id, data, pos) == Received(None, pos + 4 + FrameLength(data, pos))
  {
  }

  /** An unknown-id frame with one payload byte 0, then a `Choke` frame. */
  const UnknownThenChoke: seq<u8> := [0, 0, 0, 2, 9, 0, 0, 0, 0, 1, 0]

  /**
   As written, the first receive stops before the unknown frame's payload
   byte, and the second reads that byte and the start of the `Choke` frame,
   `[0, 0, 0, 0]`, as a keep-alive: the `Choke` is lost.
   */
  lemma {:induction false} UnknownIdLosesNextMessage()
    ensures MessageRecv(false, UnknownThenChoke, 0) == Received(None, 5)
    ensures MessageRecv(false, UnknownThenChoke, 5) == Received(None, 9)
  {
    var data := UnknownThenChoke;
    assert data[0..4] == [0, 0, 0, 2] && data[5..9] == [0, 0, 0, 0];
    LengthValue(2);
    UnknownIdLeavesPayload(false, data, 0);
    LengthValue(0);
    KeepAlive(false, 0, data, 5);
  }

  /** Discarding the unknown frame's payload, the second receive gives the `Choke`. */
  lemma {:induction false} SkippingUnknownIdKeepsNextMessage()
    ensures MessageRecv(true, UnknownThenChoke, 0) == Received(None, 6)
    ensures MessageRecv(true, UnknownThenChoke, 6) == Received(Some(Choke), 11)
  {
    var data := UnknownThenChoke;
    assert data[0..4] == [0, 0, 0, 2] && data[6..11] == [0, 0, 0, 1, 0];
    LengthValue(2);
    UnknownIdLeavesPayload(true, data, 0);
    FlagFrame(Choke);
    MessageRoundTrip(true, Choke, data, 6);
  }

  // ---------------------------------------------------------------------------
  // Handshake

  /** Reading a byte array of `d` bytes back, from a hint that covers it. */
  lemma {:induction false} ArrayRead(d: nat, hint: nat, bytes: seq<u8>, data: seq<u8>, pos: nat)
    requires |bytes| == d && d <= hint
    requires pos + d <= |data| && data[pos..pos + d] == bytes
    ensures Yields(ReadArray(d, hint, data, pos), Blob(bytes), pos + d, hint - d)
  {
    DecodeInvertsEncode(false, ByteArray(d), Blob(bytes), hint, data, pos);
  }

  /** `Handshake::send_to` then `recv_from` gives the handshake back, after exactly 68 bytes. */
  lemma {:induction false} HandshakeRoundTrip(h: Handshake, data: seq<u8>, pos: nat)
    requires ValidHandshake(h)
    requires pos + 68 <= |data| && data[pos..pos + 68] == HandshakeSend(h)
    ensures HandshakeRecv(data, pos) == Received(Some(h), pos + 68)
  {
    var name := [19 as u8] + PROTOCOL;
    SliceSplit(data, pos, pos + 20, pos + 68, name, h.reserved + h.infoHash + h.peerId);
    SliceSplit(data, pos, pos + 1, pos + 20, [19], PROTOCOL);
    IdRead(data, pos);
    DecodeInvertsEncode(false, ByteVec, Blob(PROTOCOL), 19, data, pos + 1);
    SliceSplit(data, pos + 20, pos + 48, pos + 68, h.reserved + h.infoHash, h.peerId);
    SliceSplit(data, pos + 20, pos + 28, pos + 48, h.reserved, h.infoHash);
    ArrayRead(8, 48, h.reserved, data, pos + 20);
    ArrayRead(20, 40, h.infoHash, data, pos + 28);
    ArrayRead(20, 20, h.peerId, data, pos + 48);
  }

  /**
   A name other than `BitTorrent protocol` gives `None` once the name is
   read: the rest of the handshake is left alone, since its length is not
   known for another protocol.
   */
  lemma {:induction false} HandshakeWrongProtocol(data: seq<u8>, pos: nat)
    requires pos < |data| && pos + 1 + data[pos] <= |data|
    requires data[pos + 1..pos + 1 + data[pos]] != PROTOCOL
    ensures HandshakeRecv(data, pos) == Received(None, pos + 1 + data[pos])
  {
    IdRead(data, pos);
  }

  /** `supports_extensions` holds exactly when bit 4 (value `0x10`) of reserved byte 5 is set. */
  lemma {:induction false} SupportsExtensionsIsBit4(reserved: seq<u8>)
    requires |reserved| == 8
    ensures SupportsExtensions(reserved) <==> (reserved[5] / 16) % 2 == 1
  {
    var b := reserved[5];
    assert forall x: u8 {:trigger x as bv8} :: ((x as bv8) & 0x10 == 0x10) <==> (x / 16) % 2 == 1;
  }

  // ---------------------------------------------------------------------------
  // Derive-time validation

  /** The `Message` enum passes both derives' checks. */
  lemma {:induction false} MessageVariantsAccepted()
    ensures DeriveErrors(MessageVariants) == []
  {
    assert forall i :: 0 <= i < |MessageVariants| ==> VariantError(MessageVariants[i]).None?;
  }

  /**
   A unit variant without an id, or a tuple variant with two fields, is
   rejected; every missing id is reported, and when one is, the shape
   errors are not.
   */
  lemma {:induction false} BadVariantsRejected()
    ensures DeriveErrors([Variant(Unit, 0, None)]) == [MissingId]
    ensures DeriveErrors([Variant(Tuple, 2, None), Variant(Struct, 0, Some(4))]) == [UnsupportedShape, UnsupportedShape]
    ensures DeriveErrors([Variant(Unit, 0, None), Variant(Tuple, 2, None), Variant(Unit, 0, None)]) == [MissingId, MissingId]
  {
    assert [Variant(Unit, 0, None)][1..] == [];
    var vs := [Variant(Tuple, 2, None), Variant(Struct, 0, Some(4))];
    assert vs[1..] == [Variant(Struct, 0, Some(4))] && vs[1..][1..] == [];
    var mixed := [Variant(Unit, 0, None), Variant(Tuple, 2, None), Variant(Unit, 0, None)];
    assert mixed[1..] == [Variant(Tuple, 2, None), Variant(Unit, 0, None)];
    assert mixed[1..][1..] == [Variant(Unit, 0, None)] && mixed[1..][1..][1..] == [];
  }
}
