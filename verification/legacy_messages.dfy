/**
 The peer-wire codec of the earlier crate (`build_torrent_core`): an
 explicit byte-to-kind table, one `recv_from`/`send_to` pair per message
 struct, and an `Option<usize>` hint that on `None` should say how many
 bytes of the frame are still to be discarded.

 The messages and the handshake are the same values the later crate
 sends, so they are `PeerMessages`' `Message` and `Handshake`.

 A reader is the input and a position in it. Every receive gives an I/O
 failure when a read runs past the input, or a value or `None` together
 with the new position and the hint it leaves. Several receives are
 parameterised by `corrected`: `false` is the code as written, `true`
 counts the id byte the way the hint's contract asks.
 */
module LegacyMessages {
  import opened Bytes
  import opened Wrappers
  import Core = PeerMessages

  // ---------------------------------------------------------------------------
  // Ids

  /** The crate's `Id`: the nine kinds, and `Unknown` for every other byte. */
  datatype Kind = Choke | Unchoke | Interested | NotInterested | Have | Bitfield | Request | Piece | Cancel | Unknown

  /** `Id::X as u8`: the kinds are numbered 0 to 8, `Unknown` is `u8::MAX`. */
  function KindByte(k: Kind): (b: u8)
    ensures b <= 8 <==> !k.Unknown?
  {
    match k
    case Choke => 0
    case Unchoke => 1
    case Interested => 2
    case NotInterested => 3
    case Have => 4
    case Bitfield => 5
    case Request => 6
    case Piece => 7
    case Cancel => 8
    case Unknown => 255
  }

  /** `Id::from(u8)`: the table from a byte to its kind. */
  function KindOf(b: u8): (k: Kind)
    ensures k.Unknown? <==> b > 8
    ensures !k.Unknown? ==> KindByte(k) == b
  {
    if b == 0 then Choke
    else if b == 1 then Unchoke
    else if b == 2 then Interested
    else if b == 3 then NotInterested
    else if b == 4 then Have
    else if b == 5 then Bitfield
    else if b == 6 then Request
    else if b == 7 then Piece
    else if b == 8 then Cancel
    else Unknown
  }

  /** `Message::id`: the kind of a message, numbered as the later crate numbers it. */
  function MessageKind(m: Core.Message): (k: Kind)
    ensures !k.Unknown? && KindByte(k) == Core.Id(m)
  {
    match m
    case Choke => Choke
    case Unchoke => Unchoke
    case Interested => Interested
    case NotInterested => NotInterested
    case Have(_) => Have
    case Bitfield(_) => Bitfield
    case Request(_, _, _) => Request
    case Piece(_, _, _) => Piece
    case Cancel(_, _, _) => Cancel
  }

  /** The four kinds without a payload. */
  predicate IsFlag(k: Kind) {
    k.Choke? || k.Unchoke? || k.Interested? || k.NotInterested?
  }

  /** The unit struct of a flag kind, as a message. */
  function FlagMessage(k: Kind): (m: Core.Message)
    requires IsFlag(k)
    ensures MessageKind(m) == k
  {
    match k
    case Choke => Core.Choke
    case Unchoke => Core.Unchoke
    case Interested => Core.Interested
    case NotInterested => Core.NotInterested
  }

  // ---------------------------------------------------------------------------
  // Handshake

  /** `Reserved::BYTES_COUNT`, and the length of the info hash and of the peer id. */
  const RESERVED_LEN: nat := 8
  const ID_LEN: nat := 20

  /** `Handshake::send_to`'s size: always 68. */
  const HANDSHAKE_SIZE: nat := 68

  /** `Handshake::new`: `None` unless the info hash and the peer id are 20 bytes each. */
  function HandshakeNew(reserved: seq<u8>, infoHash: seq<u8>, peerId: seq<u8>): (r: Option<Core.Handshake>)
    requires |reserved| == RESERVED_LEN
    ensures r.Some? <==> |infoHash| == ID_LEN && |peerId| == ID_LEN
    ensures r.Some? ==> r.value == Core.Handshake(reserved, infoHash, peerId) && Core.ValidHandshake(r.value)
  {
    if |infoHash| != ID_LEN || |peerId| != ID_LEN then None
    else Some(Core.Handshake(reserved, infoHash, peerId))
  }

  /** `Handshake::send_to`: the name's length, the name, the reserved bytes, the info hash, the peer id. */
  function HandshakeSend(h: Core.Handshake): (r: seq<u8>)
    requires |h.reserved| == RESERVED_LEN
    ensures |r| == 1 + |Core.PROTOCOL| + RESERVED_LEN + |h.infoHash| + |h.peerId|
  {
    [|Core.PROTOCOL| as u8] + Core.PROTOCOL + h.reserved + h.infoHash + h.peerId
  }

  /**
   `Handshake::recv_from`: a one-byte name length and the name; another
   name gives `None` with no hint at all; otherwise the reserved bytes,
   the info hash and the peer id, through `Handshake::new`, with hint 0.
   */
  function HandshakeRecv(data: seq<u8>, pos: nat): (r: Parsed<Core.Handshake>)
    requires pos <= |data|
    ensures r.Parsed? ==> pos < r.pos <= |data|
    ensures r.Parsed? && r.value.Some? ==>
      Core.ValidHandshake(r.value.value) && Spans(data, pos, r.pos, HandshakeSend(r.value.value))
    ensures r.Parsed? && r.value.None? ==> r.hint.None?
  {
    if pos == |data| then IoFailure
    else
      var q := pos + 1 + data[pos];
      if |data| < q then IoFailure
      else if data[pos + 1..q] != Core.PROTOCOL then Parsed(None, q, None)
      else if |data| < q + RESERVED_LEN + 2 * ID_LEN then IoFailure
      else
        var h := HandshakeNew(data[q..q + 8], data[q + 8..q + 28], data[q + 28..q + 48]);
        assert h.Some? ==> Spans(data, pos, q + 48, HandshakeSend(h.value)) by {
          if h.Some? { HandshakeBytes(data, pos, q); }
        }
        Parsed(h, q + 48, Some(0))
  }

  /** The bytes a handshake was read from: the name's length, the name, then 8, 20 and 20 bytes. */
  lemma {:induction false} HandshakeBytes(data: seq<u8>, pos: nat, q: nat)
    requires pos < |data| && q == pos + 1 + data[pos] && q + 48 <= |data| && data[pos + 1..q] == Core.PROTOCOL
    ensures data[pos..q + 48]
         == [|Core.PROTOCOL| as u8] + Core.PROTOCOL + data[q..q + 8] + data[q + 8..q + 28] + data[q + 28..q + 48]
  {
    var tail := data[q..q + 8] + data[q + 8..q + 28] + data[q + 28..q + 48];
    assert data[q + 8..q + 48] == data[q + 8..q + 28] + data[q + 28..q + 48];
    assert data[q..q + 48] == data[q..q + 8] + data[q + 8..q + 48];
    assert data[q..q + 48] == tail;
    assert data[pos..q] == [data[pos]] + Core.PROTOCOL;
    assert data[pos..q + 48] == data[pos..q] + data[q..q + 48];
    assert [|Core.PROTOCOL| as u8] + Core.PROTOCOL + tail
        == [|Core.PROTOCOL| as u8] + Core.PROTOCOL + data[q..q + 8] + data[q + 8..q + 28] + data[q + 28..q + 48];
  }

  // ---------------------------------------------------------------------------
  // Receiving

  /** What a `recv_from` call leaves: an I/O failure, or a value or `None`, the read position and the hint. */
  datatype Parsed<+T> = IoFailure | Parsed(value: Option<T>, pos: nat, hint: Option<nat>)

  /** A big-endian `u32` at `p`, as `read_u32::<NetworkEndian>` reads it. */
  function Word(data: seq<u8>, p: nat): (w: u32)
    requires p + 4 <= |data|
    ensures BigEndian(w, 4) == data[p..p + 4]
  {
    assert Pow256(4) == 0x1_0000_0000;
    FromBigEndianRoundTrip(data[p..p + 4]);
    FromBigEndian(data[p..p + 4])
  }

  /** `check_length_exact!`: a hint, when there is one, must be exactly `len`. */
  predicate LengthMatches(hint: Option<nat>, len: nat) {
    match hint
    case None => true
    case Some(h) => h == len
  }

  /** `Have::EXPECTED_LEN`: the id and one `u32`. */
  const HAVE_LEN: nat := 5
  /** `Request::EXPECTED_LEN` and `Cancel::EXPECTED_LEN`: the id and three `u32`s. */
  const TRIPLE_LEN: nat := 13
  /** `Bitfield::MIN_LEN`. */
  const BITFIELD_MIN_LEN: nat := 1
  /** `Piece::MIN_LEN`: the two `u32`s, without the id byte. */
  const PIECE_MIN_LEN: nat := 8

  /**
   `Recv` of a flag struct: the hint must be 1 if given, then the id byte
   must be the flag's. As written, a wrong id leaves the hint as it was,
   counting the id byte already read; corrected, it says 0 bytes remain.
   */
  function FlagRecv(corrected: bool, k: Kind, hint: Option<nat>, data: seq<u8>, pos: nat): (r: Parsed<Core.Message>)
    requires IsFlag(k) && pos <= |data|
    ensures r.Parsed? ==> pos <= r.pos <= |data|
    ensures r.Parsed? && r.value.Some? ==> MessageKind(r.value.value) == k && r.hint == Some(0)
    ensures r.Parsed? && r.value.Some? ==> Spans(data, pos, r.pos, InnerSend(r.value.value))
  {
    if !LengthMatches(hint, 1) then Parsed(None, pos, hint)
    else if pos == |data| then IoFailure
    else if data[pos] == KindByte(k) then Parsed(Some(FlagMessage(k)), pos + 1, Some(0))
    else Parsed(None, pos + 1, if corrected then Some(0) else hint)
  }

  /** `Have::recv_from`: the hint must be 5 if given, the id 4, then the piece index. */
  function HaveRecv(hint: Option<nat>, data: seq<u8>, pos: nat): (r: Parsed<Core.Message>)
    requires pos <= |data|
    ensures r.Parsed? ==> pos <= r.pos <= |data|
    ensures r.Parsed? && r.value.Some? ==> MessageKind(r.value.value) == Have && r.hint == Some(0)
    ensures r.Parsed? && r.value.Some? ==> Spans(data, pos, r.pos, InnerSend(r.value.value))
  {
    if !LengthMatches(hint, HAVE_LEN) then Parsed(None, pos, hint)
    else if pos == |data| then IoFailure
    else if data[pos] != KindByte(Have) then Parsed(None, pos + 1, Some(HAVE_LEN - 1))
    else if |data| < pos + HAVE_LEN then IoFailure
    else Parsed(Some(Core.Have(Word(data, pos + 1))), pos + HAVE_LEN, Some(0))
  }

  /**
   `Request::recv_from` and `Cancel::recv_from`: the hint must be 13 if
   given, the id the kind's, then the piece index, offset and length.
   */
  function TripleRecv(k: Kind, hint: Option<nat>, data: seq<u8>, pos: nat): (r: Parsed<Core.Message>)
    requires (k.Request? || k.Cancel?) && pos <= |data|
    ensures r.Parsed? ==> pos <= r.pos <= |data|
    ensures r.Parsed? && r.value.Some? ==> MessageKind(r.value.value) == k && r.hint == Some(0)
    ensures r.Parsed? && r.value.Some? ==> Spans(data, pos, r.pos, InnerSend(r.value.value))
  {
    if !LengthMatches(hint, TRIPLE_LEN) then Parsed(None, pos, hint)
    else if pos == |data| then IoFailure
    else if data[pos] != KindByte(k) then Parsed(None, pos + 1, Some(TRIPLE_LEN - 1))
    else if |data| < pos + TRIPLE_LEN then IoFailure
    else Parsed(Some(TripleAt(k, data, pos)), pos + TRIPLE_LEN, Some(0))
  }

  /** The `Request` or `Cancel` whose id byte is at `pos`: the index, offset and length after it. */
  function TripleAt(k: Kind, data: seq<u8>, pos: nat): (m: Core.Message)
    requires (k.Request? || k.Cancel?) && pos + TRIPLE_LEN <= |data| && data[pos] == KindByte(k)
    ensures MessageKind(m) == k && InnerSend(m) == data[pos..pos + TRIPLE_LEN]
  {
    var index, offset, length := Word(data, pos + 1), Word(data, pos + 5), Word(data, pos + 9);
    var m := if k.Request? then Core.Request(index, offset, length) else Core.Cancel(index, offset, length);
    assert data[pos + 5..pos + 13] == data[pos + 5..pos + 9] + data[pos + 9..pos + 13];
    assert data[pos + 1..pos + 13] == data[pos + 1..pos + 5] + data[pos + 5..pos + 13];
    assert data[pos..pos + 13] == [data[pos]] + data[pos + 1..pos + 13];
    assert InnerSend(m) == [data[pos]] + (data[pos + 1..pos + 5] + (data[pos + 5..pos + 9] + data[pos + 9..pos + 13]));
    m
  }

  /**
   `Bitfield::recv_from`: the hint is required (`expect` panics without
   one) and counts the id byte. As written, `len` bytes of bits follow the
   id, one more than the frame holds, and a wrong id leaves the hint
   counting the id byte; corrected, `len - 1` bytes follow and a wrong id
   leaves `len - 1`.
   */
  function BitfieldRecv(corrected: bool, hint: Option<nat>, data: seq<u8>, pos: nat): (r: Parsed<Core.Message>)
    requires hint.Some? && pos <= |data|
    ensures r.Parsed? ==> pos <= r.pos <= |data|
    ensures r.Parsed? && r.value.Some? ==> MessageKind(r.value.value) == Bitfield && r.hint == Some(0)
    ensures r.Parsed? && r.value.Some? ==> Spans(data, pos, r.pos, InnerSend(r.value.value))
  {
    var len := hint.value;
    if len < BITFIELD_MIN_LEN then Parsed(None, pos, hint)
    else if pos == |data| then IoFailure
    else if data[pos] != KindByte(Bitfield) then Parsed(None, pos + 1, Some(if corrected then len - 1 else len))
    else
      var count := if corrected then len - 1 else len;
      if |data| < pos + 1 + count then IoFailure
      else Parsed(Some(Core.Bitfield(data[pos + 1..pos + 1 + count])), pos + 1 + count, Some(0))
  }

  /**
   `Piece::recv_from`: the hint is required and counts the id byte. As
   written, the minimum and the block length leave the id out, so
   `8 + (len - 8)` bytes follow the id, one more than the frame holds;
   corrected, the minimum is 9 and `len - 9` block bytes follow the two
   `u32`s.
   */
  function PieceRecv(corrected: bool, hint: Option<nat>, data: seq<u8>, pos: nat): (r: Parsed<Core.Message>)
    requires hint.Some? && pos <= |data|
    ensures r.Parsed? ==> pos <= r.pos <= |data|
    ensures r.Parsed? && r.value.Some? ==> MessageKind(r.value.value) == Piece && r.hint == Some(0)
    ensures r.Parsed? && r.value.Some? ==> Spans(data, pos, r.pos, InnerSend(r.value.value))
  {
    var len := hint.value;
    var head := if corrected then PIECE_MIN_LEN + 1 else PIECE_MIN_LEN;
    if len < head then Parsed(None, pos, hint)
    else if pos == |data| then IoFailure
    else if data[pos] != KindByte(Piece) then Parsed(None, pos + 1, Some(len - 1))
    else
      var end := pos + 1 + PIECE_MIN_LEN + (len - head);
      if |data| < end then IoFailure
      else Parsed(Some(PieceAt(data, pos, end)), end, Some(0))
  }

  /** The `Piece` whose id byte is at `pos`: the index, the offset, then the block up to `end`. */
  function PieceAt(data: seq<u8>, pos: nat, end: nat): (m: Core.Message)
    requires pos + 1 + PIECE_MIN_LEN <= end <= |data| && data[pos] == KindByte(Piece)
    ensures MessageKind(m) == Piece && InnerSend(m) == data[pos..end]
  {
    var m := Core.Piece(Word(data, pos + 1), Word(data, pos + 5), data[pos + 9..end]);
    assert data[pos + 5..end] == data[pos + 5..pos + 9] + data[pos + 9..end];
    assert data[pos + 1..end] == data[pos + 1..pos + 5] + data[pos + 5..end];
    assert data[pos..end] == [data[pos]] + data[pos + 1..end];
    assert InnerSend(m) == [data[pos]] + (data[pos + 1..pos + 5] + (data[pos + 5..pos + 9] + data[pos + 9..end]));
    m
  }

  /** `R::recv_from` for the struct of kind `k`, as a message. */
  function InnerRecv(corrected: bool, k: Kind, hint: Option<nat>, data: seq<u8>, pos: nat): (r: Parsed<Core.Message>)
    requires !k.Unknown? && pos <= |data|
    requires k.Bitfield? || k.Piece? ==> hint.Some?
    ensures r.Parsed? ==> pos <= r.pos <= |data|
    ensures r.Parsed? && r.value.Some? ==> MessageKind(r.value.value) == k && r.hint == Some(0)
    ensures r.Parsed? && r.value.Some? ==> Spans(data, pos, r.pos, InnerSend(r.value.value))
  {
    if IsFlag(k) then FlagRecv(corrected, k, hint, data, pos)
    else if k.Have? then HaveRecv(hint, data, pos)
    else if k.Bitfield? then BitfieldRecv(corrected, hint, data, pos)
    else if k.Piece? then PieceRecv(corrected, hint, data, pos)
    else TripleRecv(k, hint, data, pos)
  }

  /**
   `RecvContainer::<R>::recv_from`: the frame length, which becomes the
   hint, then `R::recv_from`.
   */
  function ContainerRecv(corrected: bool, k: Kind, data: seq<u8>, pos: nat): (r: Parsed<Core.Message>)
    requires !k.Unknown? && pos <= |data|
    ensures r.Parsed? ==> pos + 4 <= r.pos <= |data|
    ensures r.Parsed? && r.value.Some? ==>
      MessageKind(r.value.value) == k && Spans(data, pos + 4, r.pos, InnerSend(r.value.value))
  {
    if |data| < pos + 4 then IoFailure
    else InnerRecv(corrected, k, Some(Word(data, pos)), data, pos + 4)
  }

  /**
   `RecvContainer::<()>::recv_from`, the keep-alive: the frame length must
   be 0; nothing else is read and the hint is the length.
   */
  function KeepAliveRecv(data: seq<u8>, pos: nat): (r: Parsed<()>)
    requires pos <= |data|
    ensures r.Parsed? <==> pos + 4 <= |data|
    ensures r.Parsed? ==>
      pos + 4 <= |data| && r.pos == pos + 4 && r.hint == Some(Word(data, pos)) && (r.value.Some? <==> Word(data, pos) == 0)
  {
    if |data| < pos + 4 then IoFailure
    else
      var len := Word(data, pos);
      Parsed(if len == 0 then Some(()) else None, pos + 4, Some(len))
  }

  /**
   After the id byte has been read, `Message::recv_from` hands the
   sub-receiver a reader that yields that byte again and then the rest.
   The real reader is past the id in any case; corrected, a hint that
   still counts the unread copy of the id is brought down by one.
   */
  function Chained(corrected: bool, idPos: nat, sub: Parsed<Core.Message>): (r: Parsed<Core.Message>)
    requires sub.Parsed? ==> idPos <= sub.pos
    ensures r.Parsed? <==> sub.Parsed?
    ensures r.Parsed? ==> r.value == sub.value && idPos < r.pos && (sub.pos > idPos ==> r == sub)
    ensures r.Parsed? && !corrected ==> r.hint == sub.hint
    ensures r.Parsed? && corrected && sub.pos == idPos && sub.hint.Some? && sub.hint.value > 0 ==>
      r.hint == Some(sub.hint.value - 1)
  {
    match sub
    case IoFailure => IoFailure
    case Parsed(v, q, h) =>
      if q != idPos then sub
      else Parsed(v, idPos + 1, if corrected && h.Some? && h.value > 0 then Some(h.value - 1) else h)
  }

  /**
   `Message::recv_from`: the length (`None` with hint 0 when it is 0), the
   id byte, the hint set to the length, then per kind of the id: a flag
   at once, an unknown id as `None` with the hint still the whole length,
   any other kind through its struct's receiver.
   */
  function MessageRecv(corrected: bool, data: seq<u8>, pos: nat): (r: Parsed<Core.Message>)
    requires pos <= |data|
    ensures r.Parsed? ==> pos + 4 <= r.pos <= |data|
    ensures r.Parsed? && r.value.Some? ==>
      Spans(data, pos + 4, r.pos, InnerSend(r.value.value)) && Core.Id(r.value.value) == data[pos + 4]
  {
    if |data| < pos + 4 then IoFailure
    else
      var len := Word(data, pos);
      if len == 0 then Parsed(None, pos + 4, Some(0))
      else if |data| == pos + 4 then IoFailure
      else
        var k := KindOf(data[pos + 4]);
        if IsFlag(k) then Parsed(Some(FlagMessage(k)), pos + 5, Some(len))
        else if k.Unknown? then Parsed(None, pos + 5, Some(if corrected then len - 1 else len))
        else Chained(corrected, pos + 4, InnerRecv(corrected, k, Some(len), data, pos + 4))
  }

  // ---------------------------------------------------------------------------
  // Sending

  /** `send_to` of a message's struct: the id, then its fields, big-endian. */
  function InnerSend(m: Core.Message): (r: seq<u8>)
    ensures |r| >= 1 && r[0] == Core.Id(m)
  {
    [Core.Id(m)] +
    match m
    case Choke => []
    case Unchoke => []
    case Interested => []
    case NotInterested => []
    case Have(index) => BigEndian(index, 4)
    case Bitfield(bits) => bits
    case Request(index, offset, length) => BigEndian(index, 4) + BigEndian(offset, 4) + BigEndian(length, 4)
    case Piece(index, offset, block) => BigEndian(index, 4) + BigEndian(offset, 4) + block
    case Cancel(index, offset, length) => BigEndian(index, 4) + BigEndian(offset, 4) + BigEndian(length, 4)
  }

  /**
   `size` of a message's struct as declared; `corrected` counts the id
   byte of `Piece`, which `Piece::size` leaves out.
   */
  function InnerSize(corrected: bool, m: Core.Message): (n: nat)
    ensures corrected ==> n == |InnerSend(m)|
    ensures !corrected ==> n == |InnerSend(m)| - (if m.Piece? then 1 else 0)
  {
    match m
    case Choke => 1
    case Unchoke => 1
    case Interested => 1
    case NotInterested => 1
    case Have(_) => HAVE_LEN
    case Bitfield(bits) => |bits| + 1
    case Request(_, _, _) => TRIPLE_LEN
    case Piece(_, _, block) => (if corrected then PIECE_MIN_LEN + 1 else PIECE_MIN_LEN) + |block|
    case Cancel(_, _, _) => TRIPLE_LEN
  }

  /**
   `Message::size`: `Message::MIN_LEN` plus `SendContainer::size`, itself
   the inner size plus 4. Corrected, the 4 bytes of the length are counted
   once, and the id byte of `Piece` is counted.
   */
  function MessageSize(corrected: bool, m: Core.Message): (n: nat)
    ensures corrected ==> n == 4 + |InnerSend(m)|
    ensures !corrected && InnerSize(false, m) <= 255 ==> n == |MessageSend(m)| + (if m.Piece? then 6 else 7)
  {
    if corrected then 4 + InnerSize(true, m) else 4 + (InnerSize(false, m) + 4)
  }

  /**
   `Message::send_to` through `SendContainer::send_to`: the inner size as
   one byte (`try_into` panics above 255), then the struct.
   */
  function MessageSend(m: Core.Message): (r: seq<u8>)
    requires InnerSize(false, m) <= 255
    ensures |r| == 1 + |InnerSend(m)| && r[0] == InnerSize(false, m)
  {
    [InnerSize(false, m) as u8] + InnerSend(m)
  }

  /**
   The frame the `SendMessage` contract asks for: the struct's length as a
   big-endian `u32`, then the struct.
   */
  function CorrectedMessageSend(m: Core.Message): (r: seq<u8>)
    requires |InnerSend(m)| <= U32_MAX
    ensures |r| == 4 + |InnerSend(m)| && r[4..] == InnerSend(m)
  {
    BigEndian(|InnerSend(m)|, 4) + InnerSend(m)
  }
}
