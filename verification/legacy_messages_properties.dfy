/**
 What the earlier crate's peer-wire codec guarantees, and where it misses
 its own contracts: every struct with a fixed size reads back what it
 sends; a bit field or piece is read one byte too long; a `None` from
 `Message::recv_from` reports one byte more than is left of the frame; a
 frame's length goes out as one byte where four are read. Each
 `corrected` receive and send meets the contract the code states.
 */
module LegacyMessageProperties {
  import opened Bytes
  import opened Wrappers
  import W = Wire
  import D = Derive
  import Core = PeerMessages
  import CoreProperties = PeerMessageProperties
  import opened DeriveProperties
  import opened LegacyMessages

  // ---------------------------------------------------------------------------
  // Ids and words

  /** `Id::from` is the inverse of `Id::X as u8` on the nine kinds and `Unknown`. */
  lemma {:induction false} KindOfKindByte(k: Kind)
    ensures KindOf(KindByte(k)) == k
  {
  }

  /** Both crates number a message the same way, and `Id::from` of that number is `Message::id`. */
  lemma {:induction false} KindOfMessageId(m: Core.Message)
    ensures KindOf(Core.Id(m)) == MessageKind(m)
  {
    KindOfKindByte(MessageKind(m));
  }

  /** Reading back a big-endian `u32` that was written. */
  lemma {:induction false} WordOf(n: nat, data: seq<u8>, p: nat)
    requires n <= U32_MAX && p + 4 <= |data|
    requires data[p..p + 4] == BigEndian(n, 4)
    ensures Word(data, p) == n
  {
    BigEndianRoundTrip(n, 4);
  }

  /** Three big-endian `u32`s in a row. */
  lemma {:induction false} WordsOf(a: u32, b: u32, c: u32, data: seq<u8>, p: nat)
    requires p + 12 <= |data| && data[p..p + 12] == BigEndian(a, 4) + BigEndian(b, 4) + BigEndian(c, 4)
    ensures Word(data, p) == a && Word(data, p + 4) == b && Word(data, p + 8) == c
  {
    SliceSplit(data, p, p + 8, p + 12, BigEndian(a, 4) + BigEndian(b, 4), BigEndian(c, 4));
    SliceSplit(data, p, p + 4, p + 8, BigEndian(a, 4), BigEndian(b, 4));
    WordOf(a, data, p);
    WordOf(b, data, p + 4);
    WordOf(c, data, p + 8);
  }

  // ---------------------------------------------------------------------------
  // The structs' own round trips

  /** A flag's one byte is read back. */
  lemma {:induction false} FlagRoundTrip(corrected: bool, m: Core.Message, data: seq<u8>, pos: nat)
    requires IsFlag(MessageKind(m))
    requires pos + 1 <= |data| && data[pos..pos + 1] == InnerSend(m)
    ensures InnerRecv(corrected, MessageKind(m), Some(1), data, pos) == Parsed(Some(m), pos + 1, Some(0))
  {
    assert data[pos] == data[pos..pos + 1][0];
  }

  /** `Have`'s id and index are read back. */
  lemma {:induction false} HaveRoundTrip(corrected: bool, index: u32, data: seq<u8>, pos: nat)
    requires pos + HAVE_LEN <= |data| && data[pos..pos + HAVE_LEN] == InnerSend(Core.Have(index))
    ensures InnerRecv(corrected, Have, Some(HAVE_LEN), data, pos) == Parsed(Some(Core.Have(index)), pos + HAVE_LEN, Some(0))
  {
    SliceSplit(data, pos, pos + 1, pos + HAVE_LEN, [4], BigEndian(index, 4));
    assert data[pos] == data[pos..pos + 1][0];
    WordOf(index, data, pos + 1);
  }

  /** `Request`'s or `Cancel`'s id and three words are read back. */
  lemma {:induction false} TripleRoundTrip(corrected: bool, m: Core.Message, data: seq<u8>, pos: nat)
    requires m.Request? || m.Cancel?
    requires pos + TRIPLE_LEN <= |data| && data[pos..pos + TRIPLE_LEN] == InnerSend(m)
    ensures InnerRecv(corrected, MessageKind(m), Some(TRIPLE_LEN), data, pos) == Parsed(Some(m), pos + TRIPLE_LEN, Some(0))
  {
    assert InnerRecv(corrected, MessageKind(m), Some(TRIPLE_LEN), data, pos) == TripleRecv(MessageKind(m), Some(TRIPLE_LEN), data, pos);
    var words := BigEndian(m.pieceIndex, 4) + BigEndian(m.offset, 4) + BigEndian(m.dataLength, 4);
    assert InnerSend(m) == [Core.Id(m)] + words;
    SliceSplit(data, pos, pos + 1, pos + TRIPLE_LEN, [Core.Id(m)], words);
    assert data[pos] == data[pos..pos + 1][0];
    WordsOf(m.pieceIndex, m.offset, m.dataLength, data, pos + 1);
  }

  /** Corrected, a bit field's id and bits are read back. */
  lemma {:induction false} BitfieldRoundTrip(bits: seq<u8>, data: seq<u8>, pos: nat)
    requires pos + 1 + |bits| <= |data| && data[pos..pos + 1 + |bits|] == InnerSend(Core.Bitfield(bits))
    ensures InnerRecv(true, Bitfield, Some(1 + |bits|), data, pos) == Parsed(Some(Core.Bitfield(bits)), pos + 1 + |bits|, Some(0))
  {
    SliceSplit(data, pos, pos + 1, pos + 1 + |bits|, [5], bits);
    assert data[pos] == data[pos..pos + 1][0];
  }

  /** Corrected, a piece's id, index, offset and block are read back. */
  lemma {:induction false} PieceRoundTrip(index: u32, offset: u32, block: seq<u8>, data: seq<u8>, pos: nat)
    requires pos + 9 + |block| <= |data| && data[pos..pos + 9 + |block|] == InnerSend(Core.Piece(index, offset, block))
    ensures InnerRecv(true, Piece, Some(9 + |block|), data, pos)
         == Parsed(Some(Core.Piece(index, offset, block)), pos + 9 + |block|, Some(0))
  {
    var end := pos + 9 + |block|;
    var words := BigEndian(index, 4) + BigEndian(offset, 4);
    assert InnerSend(Core.Piece(index, offset, block)) == [7] + (words + block);
    SliceSplit(data, pos, pos + 1, end, [7], words + block);
    assert data[pos] == data[pos..pos + 1][0];
    SliceSplit(data, pos + 1, pos + 9, end, words, block);
    SliceSplit(data, pos + 1, pos + 5, pos + 9, BigEndian(index, 4), BigEndian(offset, 4));
    WordOf(index, data, pos + 1);
    WordOf(offset, data, pos + 5);
  }

  /**
   The crate's `vise_versa` test: a struct's `send_to`, received with the
   hint set to the bytes written, gives the struct back, with nothing
   left. As written this holds for every kind but `Bitfield` and `Piece`;
   corrected, for all nine.
   */
  lemma {:induction false} InnerRoundTrip(corrected: bool, m: Core.Message, data: seq<u8>, pos: nat)
    requires corrected || !(m.Bitfield? || m.Piece?)
    requires pos + |InnerSend(m)| <= |data| && data[pos..pos + |InnerSend(m)|] == InnerSend(m)
    ensures InnerRecv(corrected, MessageKind(m), Some(|InnerSend(m)|), data, pos)
         == Parsed(Some(m), pos + |InnerSend(m)|, Some(0))
  {
    match m
    case Have(index) =>
      HaveRoundTrip(corrected, index, data, pos);
    case Bitfield(bits) =>
      BitfieldRoundTrip(bits, data, pos);
    case Request(_, _, _) =>
      TripleRoundTrip(corrected, m, data, pos);
    case Cancel(_, _, _) =>
      TripleRoundTrip(corrected, m, data, pos);
    case Piece(index, offset, block) =>
      PieceRoundTrip(index, offset, block, data, pos);
    case _ =>
      FlagRoundTrip(corrected, m, data, pos);
  }

  /**
   As written, a `Bitfield` or `Piece` received from exactly the bytes it
   sent runs out of input: it asks for one byte after the end.
   */
  lemma {:induction false} VariableOverreads(m: Core.Message)
    requires m.Bitfield? || m.Piece?
    ensures InnerRecv(false, MessageKind(m), Some(|InnerSend(m)|), InnerSend(m), 0) == IoFailure
  {
  }

  /**
   As written, with one more byte `b` after it, a sent bit field is read
   back with `b` appended: the next frame's first byte is taken.
   */
  lemma {:induction false} BitfieldTakesNextByte(bits: seq<u8>, b: u8)
    ensures var data := InnerSend(Core.Bitfield(bits)) + [b];
      InnerRecv(false, Bitfield, Some(|bits| + 1), data, 0) == Parsed(Some(Core.Bitfield(bits + [b])), |data|, Some(0))
  {
    var data := InnerSend(Core.Bitfield(bits)) + [b];
    assert data[1..|data|] == bits + [b];
  }

  /** A struct with a fixed size meets a hint of any other size with `None`, reading nothing and keeping the hint. */
  lemma {:induction false} LengthCheckRejects(corrected: bool, k: Kind, h: nat, data: seq<u8>, pos: nat)
    requires IsFlag(k) || k.Have? || k.Request? || k.Cancel?
    requires pos <= |data|
    requires h != (if IsFlag(k) then 1 else if k.Have? then HAVE_LEN else TRIPLE_LEN)
    ensures InnerRecv(corrected, k, Some(h), data, pos) == Parsed(None, pos, Some(h))
  {
  }

  /**
   A struct whose id byte is another's gives `None` with the bytes the
   struct would have had left: 4 after `Have`'s id, 12 after
   `Request`'s or `Cancel`'s, `len - 1` after `Piece`'s.
   */
  lemma {:induction false} WrongIdResidual(corrected: bool, k: Kind, h: nat, data: seq<u8>, pos: nat)
    requires k.Have? || k.Request? || k.Cancel? || k.Piece?
    requires pos < |data| && data[pos] != KindByte(k)
    requires k.Have? ==> h == HAVE_LEN
    requires k.Request? || k.Cancel? ==> h == TRIPLE_LEN
    requires k.Piece? ==> h >= PIECE_MIN_LEN + 1
    ensures InnerRecv(corrected, k, Some(h), data, pos) == Parsed(None, pos + 1, Some(h - 1))
  {
  }

  // ---------------------------------------------------------------------------
  // Frames: keep-alives and flags

  /** The frame at `pos` is all there: its length field and the bytes it announces. */
  predicate CompleteFrame(data: seq<u8>, pos: nat) {
    pos + 4 <= |data| && pos + 4 + Word(data, pos) <= |data|
  }

  /** Where the frame at `pos` ends. */
  function FrameEnd(data: seq<u8>, pos: nat): nat
    requires pos + 4 <= |data|
  {
    pos + 4 + Word(data, pos)
  }

  /**
   The hint's contract: a receive within the frame never fails, stops
   within it, and on `None` reports exactly the bytes left of it.
   */
  predicate Accounts<T>(r: Parsed<T>, end: nat) {
    && r.Parsed?
    && r.pos <= end
    && (r.value.None? ==> r.hint.Some? && r.pos + r.hint.value == end)
  }

  /** A length of 0: `Message::recv_from` gives `None` with hint 0, and `Container::<()>` the keep-alive. */
  lemma {:induction false} KeepAlive(corrected: bool, data: seq<u8>, pos: nat)
    requires pos + 4 <= |data| && data[pos..pos + 4] == [0, 0, 0, 0]
    ensures MessageRecv(corrected, data, pos) == Parsed(None, pos + 4, Some(0))
    ensures KeepAliveRecv(data, pos) == Parsed(Some(()), pos + 4, Some(0))
  {
    WordOf(0, data, pos);
  }

  /** `Container::<()>` takes only an empty frame, and leaves any other for discarding. */
  lemma {:induction false} KeepAliveAccounts(data: seq<u8>, pos: nat)
    requires CompleteFrame(data, pos)
    ensures Accounts(KeepAliveRecv(data, pos), FrameEnd(data, pos))
    ensures KeepAliveRecv(data, pos).value.Some? <==> Word(data, pos) == 0
  {
  }

  /**
   Ids 0 to 3 are a flag whatever the length: `Message::recv_from` reads
   the id only and leaves the hint at the whole length.
   */
  lemma {:induction false} FlagIgnoresLength(corrected: bool, data: seq<u8>, pos: nat)
    requires pos + 5 <= |data| && Word(data, pos) > 0 && data[pos + 4] <= 3
    ensures MessageRecv(corrected, data, pos) == Parsed(Some(FlagMessage(KindOf(data[pos + 4]))), pos + 5, Some(Word(data, pos)))
  {
  }

  // ---------------------------------------------------------------------------
  // Residuals

  /**
   Corrected, a struct's receive within a frame of `len` bytes from its id
   keeps the hint's contract.
   */
  lemma {:induction false} InnerAccounts(k: Kind, len: nat, data: seq<u8>, p: nat)
    requires !k.Unknown? && p + len <= |data|
    ensures Accounts(InnerRecv(true, k, Some(len), data, p), p + len)
  {
    if k.Piece? && len >= PIECE_MIN_LEN + 1 && data[p] == KindByte(Piece) {
      assert p + 1 + PIECE_MIN_LEN + (len - (PIECE_MIN_LEN + 1)) == p + len;
    }
  }

  /** Corrected, `RecvContainer::recv_from` keeps the hint's contract on every complete frame. */
  lemma {:induction false} ContainerAccounts(k: Kind, data: seq<u8>, pos: nat)
    requires !k.Unknown? && CompleteFrame(data, pos)
    ensures Accounts(ContainerRecv(true, k, data, pos), FrameEnd(data, pos))
  {
    InnerAccounts(k, Word(data, pos), data, pos + 4);
  }

  /** Corrected, `Message::recv_from` keeps the hint's contract on every complete frame. */
  lemma {:induction false} MessageAccounts(data: seq<u8>, pos: nat)
    requires CompleteFrame(data, pos)
    ensures Accounts(MessageRecv(true, data, pos), FrameEnd(data, pos))
  {
    var len := Word(data, pos);
    if len > 0 {
      var k := KindOf(data[pos + 4]);
      if !IsFlag(k) && !k.Unknown? {
        InnerAccounts(k, len, data, pos + 4);
      }
    }
  }

  /**
   As written, every `None` that `Message::recv_from` gives for a frame
   with an id reports one byte more than is left of the frame: the id
   byte, already read, is still counted.
   */
  lemma {:induction false} MessageOvercounts(data: seq<u8>, pos: nat)
    requires CompleteFrame(data, pos) && Word(data, pos) > 0
    ensures var r := MessageRecv(false, data, pos);
      r.Parsed? && r.value.None? ==> r.hint.Some? && r.pos + r.hint.value == FrameEnd(data, pos) + 1
  {
  }

  /** As written, an unknown id 9 in a frame of length 1: `None` at its end, with one byte still to discard. */
  lemma {:induction false} UnknownIdOvercounts()
    ensures MessageRecv(false, [0, 0, 0, 1, 9], 0) == Parsed(None, 5, Some(1))
    ensures MessageRecv(true, [0, 0, 0, 1, 9], 0) == Parsed(None, 5, Some(0))
  {
    WordOf(1, [0, 0, 0, 1, 9], 0);
  }

  /**
   As written, `RecvContainer` of a flag or of `Bitfield` meeting another
   id reports the id byte, already read, as still to discard.
   */
  lemma {:induction false} ContainerMismatchOvercounts(k: Kind, data: seq<u8>, pos: nat)
    requires IsFlag(k) || k.Bitfield?
    requires CompleteFrame(data, pos)
    requires if IsFlag(k) then Word(data, pos) == 1 else Word(data, pos) >= 1
    requires data[pos + 4] != KindByte(k)
    ensures var r := ContainerRecv(false, k, data, pos);
      r == Parsed(None, pos + 5, Some(Word(data, pos))) && r.pos + r.hint.value == FrameEnd(data, pos) + 1
  {
  }

  // ---------------------------------------------------------------------------
  // Sending

  /**
   As written, the declared sizes disagree with the bytes written:
   `Piece::size` leaves out the id, and `Message::size` counts the 4 bytes
   of a length twice while `send_to` writes one byte of it.
   */
  lemma {:induction false} SizesDisagree(m: Core.Message)
    requires InnerSize(false, m) <= 255
    ensures InnerSize(false, m) + (if m.Piece? then 1 else 0) == |InnerSend(m)|
    ensures MessageSize(false, m) == |MessageSend(m)| + (if m.Piece? then 6 else 7)
  {
  }

  /** Corrected, every declared size is the number of bytes written. */
  lemma {:induction false} CorrectedSizesAgree(m: Core.Message)
    requires |InnerSend(m)| <= U32_MAX
    ensures InnerSize(true, m) == |InnerSend(m)|
    ensures MessageSize(true, m) == |CorrectedMessageSend(m)|
  {
  }

  /**
   As written, a sent frame is not read back: `Choke`'s two bytes are too
   few for the length, and `Have(0)`'s length byte and id are read as part
   of a length, its index's first byte as the id of a `Choke`.
   */
  lemma {:induction false} SentFramesMisread()
    ensures MessageSend(Core.Choke) == [1, 0]
    ensures MessageRecv(false, MessageSend(Core.Choke), 0) == IoFailure
    ensures MessageSend(Core.Have(0)) == [5, 4, 0, 0, 0, 0]
    ensures var r := MessageRecv(false, MessageSend(Core.Have(0)), 0);
      r.Parsed? && r.value == Some(Core.Choke) && r.pos == 5
  {
    assert BigEndian(0, 4) == [0, 0, 0, 0];
    var data := MessageSend(Core.Have(0));
    assert data == [5, 4, 0, 0, 0, 0];
    assert data[0..4] == [5, 4, 0, 0] != BigEndian(0, 4);
  }

  /**
   Corrected, `Message::send_to` with a `u32` length, then
   `Message::recv_from`, gives every message back and stops at the end of
   its frame.
   */
  lemma {:induction false} CorrectedRoundTrip(m: Core.Message, data: seq<u8>, pos: nat)
    requires |InnerSend(m)| <= U32_MAX
    requires pos + |CorrectedMessageSend(m)| <= |data| && data[pos..pos + |CorrectedMessageSend(m)|] == CorrectedMessageSend(m)
    ensures var r := MessageRecv(true, data, pos);
      r.Parsed? && r.value == Some(m) && r.pos == pos + |CorrectedMessageSend(m)|
  {
    var s := InnerSend(m);
    SliceSplit(data, pos, pos + 4, pos + 4 + |s|, BigEndian(|s|, 4), s);
    WordOf(|s|, data, pos);
    assert data[pos + 4] == s[0];
    KindOfMessageId(m);
    if IsFlag(MessageKind(m)) {
      assert |s| == 1;
    } else {
      InnerRoundTrip(true, m, data, pos + 4);
    }
  }

  /** A `u32` field of the later crate's derived encoding is the big-endian word this crate writes. */
  lemma {:induction false} WordField(n: u32, later: D.Schema, rest: D.List<W.Value>)
    requires D.FitsAll(later, rest)
    ensures D.FitsAll(D.Cons(W.UInt(W.U32), later), D.Cons(W.Number(n), rest))
    ensures D.EncodeFields(D.Cons(W.UInt(W.U32), later), D.Cons(W.Number(n), rest)) == BigEndian(n, 4) + D.EncodeFields(later, rest)
  {
    W.IntLimitIsPow256(W.U32);
  }

  /** Three `u32` fields of the later crate's derived encoding are three big-endian words. */
  lemma {:induction false} ThreeWordFields(i: u32, o: u32, n: u32)
    ensures var schema := D.Cons(W.UInt(W.U32), D.Cons(W.UInt(W.U32), D.Cons(W.UInt(W.U32), D.Nil)));
      var vs := D.Cons(W.Number(i), D.Cons(W.Number(o), D.Cons(W.Number(n), D.Nil)));
      D.FitsAll(schema, vs) && D.EncodeFields(schema, vs) == BigEndian(i, 4) + BigEndian(o, 4) + BigEndian(n, 4)
  {
    var word := D.Cons(W.UInt(W.U32), D.Nil);
    WordField(n, D.Nil, D.Nil);
    WordField(o, word, D.Cons(W.Number(n), D.Nil));
    WordField(i, D.Cons(W.UInt(W.U32), word), D.Cons(W.Number(o), D.Cons(W.Number(n), D.Nil)));
  }

  /** A piece's fields in the later crate's derived encoding: two big-endian words and the block. */
  lemma {:induction false} PieceFields(i: u32, o: u32, block: seq<u8>)
    ensures var schema := D.Cons(W.UInt(W.U32), D.Cons(W.UInt(W.U32), D.Cons(W.ByteVec, D.Nil)));
      var vs := D.Cons(W.Number(i), D.Cons(W.Number(o), D.Cons(W.Blob(block), D.Nil)));
      D.FitsAll(schema, vs) && D.EncodeFields(schema, vs) == BigEndian(i, 4) + BigEndian(o, 4) + block
  {
    var blob := D.Cons(W.ByteVec, D.Nil);
    assert D.EncodeFields(blob, D.Cons(W.Blob(block), D.Nil)) == block + [];
    WordField(o, blob, D.Cons(W.Blob(block), D.Nil));
    WordField(i, D.Cons(W.UInt(W.U32), blob), D.Cons(W.Number(o), D.Cons(W.Blob(block), D.Nil)));
  }

  /** Both crates write a message's struct the same way: the id, then the later crate's derived payload. */
  lemma {:induction false} InnerSendIsCorePayload(m: Core.Message)
    ensures InnerSend(m) == [Core.Id(m)] + Core.Payload(m)
  {
    match m
    case Have(i) =>
      assert Core.Payload(m) == BigEndian(i, 4) + [] by { WordField(i, D.Nil, D.Nil); }
    case Bitfield(bits) =>
      assert Core.Payload(m) == bits + [];
    case Request(i, o, n) =>
      assert Core.Payload(m) == BigEndian(i, 4) + BigEndian(o, 4) + BigEndian(n, 4) by { ThreeWordFields(i, o, n); }
    case Cancel(i, o, n) =>
      assert Core.Payload(m) == BigEndian(i, 4) + BigEndian(o, 4) + BigEndian(n, 4) by { ThreeWordFields(i, o, n); }
    case Piece(i, o, block) =>
      assert Core.Payload(m) == BigEndian(i, 4) + BigEndian(o, 4) + block by { PieceFields(i, o, block); }
    case _ =>
  }

  /**
   Corrected, this crate sends every message exactly as the later crate's
   derived `Message::send_to` does, and the size limit is the same.
   */
  lemma {:induction false} CorrectedSendIsCoreSend(m: Core.Message)
    ensures |InnerSend(m)| <= U32_MAX <==> Core.Sendable(m)
    ensures Core.Sendable(m) ==> CorrectedMessageSend(m) == Core.MessageSend(m)
  {
    InnerSendIsCorePayload(m);
    if Core.Sendable(m) {
      var header := BigEndian(Core.PayloadSize(m) + 1, 4) + [Core.Id(m)];
      CoreFrame(m, header);
      CorrectedFrame(m, header);
    }
  }

  /** The later crate's frame: a `u32` of the payload size plus one, the id, then the payload. */
  lemma {:induction false} CoreFrame(m: Core.Message, header: seq<u8>)
    requires Core.Sendable(m) && header == BigEndian(Core.PayloadSize(m) + 1, 4) + [Core.Id(m)]
    ensures Core.MessageSend(m) == header + Core.Payload(m)
  {
    CoreProperties.MessageSendIsContainerSend(m);
    W.IntLimitIsPow256(W.U32);
    assert Pow256(4) == 0x1_0000_0000;
    assert Core.Header(Core.PayloadSize(m), Core.Id(m)) == header;
  }

  /** The corrected legacy frame: a `u32` of the struct's length, then the struct, id first. */
  lemma {:induction false} CorrectedFrame(m: Core.Message, header: seq<u8>)
    requires InnerSend(m) == [Core.Id(m)] + Core.Payload(m) && |InnerSend(m)| <= U32_MAX
    requires header == BigEndian(Core.PayloadSize(m) + 1, 4) + [Core.Id(m)]
    ensures CorrectedMessageSend(m) == header + Core.Payload(m)
  {
    assert Core.PayloadSize(m) == |Core.Payload(m)|;
    assert Pow256(4) == 0x1_0000_0000;
    LengthPrefixed(InnerSend(m), Core.Id(m), Core.Payload(m), header);
  }

  /** A `u32` length before a struct that starts with its id is a header of the payload size plus one. */
  lemma {:induction false} LengthPrefixed(inner: seq<u8>, id: u8, payload: seq<u8>, header: seq<u8>)
    requires inner == [id] + payload && |inner| < Pow256(4)
    requires header == BigEndian(|payload| + 1, 4) + [id]
    ensures BigEndian(|inner|, 4) + inner == header + payload
  {
  }

  // ---------------------------------------------------------------------------
  // Handshake

  /**
   `Handshake::send_to` writes the 68 bytes `size` promises exactly when
   the info hash and the peer id have 40 bytes between them, as
   `Handshake::new` ensures; a valid handshake is sent as the later crate
   sends it.
   */
  lemma {:induction false} HandshakeSendSize(h: Core.Handshake)
    requires |h.reserved| == RESERVED_LEN
    ensures |HandshakeSend(h)| == HANDSHAKE_SIZE <==> |h.infoHash| + |h.peerId| == 2 * ID_LEN
    ensures Core.ValidHandshake(h) ==> HandshakeSend(h) == Core.HandshakeSend(h)
  {
  }

  /** `Handshake::send_to` then `recv_from` gives a handshake made by `Handshake::new` back, with hint 0. */
  lemma {:induction false} HandshakeRoundTrip(h: Core.Handshake, data: seq<u8>, pos: nat)
    requires Core.ValidHandshake(h)
    requires pos + HANDSHAKE_SIZE <= |data| && data[pos..pos + HANDSHAKE_SIZE] == HandshakeSend(h)
    ensures HandshakeRecv(data, pos) == Parsed(Some(h), pos + HANDSHAKE_SIZE, Some(0))
  {
    var name := [|Core.PROTOCOL| as u8] + Core.PROTOCOL;
    var q := pos + 20;
    assert HandshakeSend(h) == name + (h.reserved + h.infoHash + h.peerId);
    SliceSplit(data, pos, q, pos + HANDSHAKE_SIZE, name, h.reserved + h.infoHash + h.peerId);
    SliceSplit(data, pos, pos + 1, q, [|Core.PROTOCOL| as u8], Core.PROTOCOL);
    assert data[pos] == 19;
    SliceSplit(data, q, q + 28, q + 48, h.reserved + h.infoHash, h.peerId);
    SliceSplit(data, q, q + 8, q + 28, h.reserved, h.infoHash);
  }

  /** Another protocol name gives `None` and no hint at all, since the rest of the handshake has no known length. */
  lemma {:induction false} HandshakeWrongProtocol(data: seq<u8>, pos: nat)
    requires pos < |data| && pos + 1 + data[pos] <= |data|
    requires data[pos + 1..pos + 1 + data[pos]] != Core.PROTOCOL
    ensures HandshakeRecv(data, pos) == Parsed(None, pos + 1 + data[pos], None)
  {
  }
}
