# bitrain: bencode, metainfo and peer-wire codecs in Dafny

This project models the byte-level codecs of the bitrain BitTorrent client
and proves properties about them. There are four parts.

- **Bencode** (`bitrain-core/src/bencoded/encoding.rs`).
  - `Entry` is an integer, a byte string, a list or a dictionary.
  - Decoding takes bytes and returns the entry together with the input it did not read.
  - A dictionary is written with its keys in ascending byte order.
  - Modules: `Bytes`, `Decimal`, `Utf8`, `LexOrder`, `Bencode`, `BencodeProperties`.
- **Metainfo** (`build_torrent_core/src/bencoded/custom.rs`). This reads a decoded `.torrent` dictionary into `Metainfo`, `Info` and `FileInfo`.
  - A required field reports `MissingField` when it is absent and `InvalidFormat` when it has the wrong shape.
  - An optional field with the wrong shape is dropped.
  - Modules: `TorrentFile`, `TorrentFileProperties`.
- **Peer wire, current crate** (`bitrain-core/src/messages.rs`, together with the code that the `Encode`, `Decode`, `Send` and `Recv` derives in `bitrain-derive/src/messages/` emit).
  - `Wire` models the primitive encoders and decoders, and `decode_or_discard_from`.
  - `Derive` models the emitted struct bodies. The emitted field-by-field `size`, `encode_to` and `decode_from` are taken over a schema, which is the list of field types.
  - `PeerMessages` models the `Message` enum, `Container` and `Handshake`.
- **Peer wire, legacy crate** (`build_torrent_core/src/messages.rs`).
  - This is an older hand-written codec. Every message carries its own id byte, and receivers take an `Option` length hint.
  - It reuses the `Message` and `Handshake` datatypes of `PeerMessages`, which hold the same fields.

## How the model represents the source

- **Readers** are a byte sequence `data` and a read position `pos`.
  - Running out of input, the only I/O failure the model knows, is `IoError`, `Failed` or `IoFailure`.
  - Writers are in-memory buffers and never fail.
- **Decoders** in the current crate return an `Outcome`: a value or `None`, the new position, and the updated `len_hint`.
- **Generic field types.** The emitted struct decoder is generic in its field types. `Derive.DecodeFields` therefore takes a `FieldDecoder` for each field type.
  - `Derive.Primitive` supplies the real one.
  - Lemmas that hold for any decoder that inverts encoding state that assumption with `DeriveProperties.InvertsEncode`.
- **Panics become preconditions.** A panic or an integer conversion that would fail is a precondition.
  - `PeerMessages.Sendable`: the payload size plus the id byte must fit a `u32`.
  - Legacy `MessageSend`: the struct size must fit a `u8`.
  - Legacy `BitfieldRecv` and `PieceRecv`: a hint must be given.
- **As-written and corrected behaviour.** Where the source disagrees with its own documented contract, the function takes a flag, and the flag's first value is the code as written:
  - `dictOpen`: `l` is as written, `d` is corrected.
  - `chargesByte`: `false` is as written, `true` is corrected.
  - `skipsUnknown`: `false` is as written, `true` is corrected.
  - `corrected` in the legacy crate: `false` is as written, `true` is corrected.

  Both behaviours are proved about; see "## Findings".
- **Integers and constants.** Integers are `nat` bounded by the Rust type's range. `usize` is taken to be 64 bits wide. The frame constants come from the source: the legacy expected lengths 5, 13, 1 and 8, the handshake's 68 bytes, and the protocol name `BitTorrent protocol`.

## Model

| member | source | states |
|---|---|---|
| Bytes.BigEndianRoundTrip | bitrain-core/src/messages.rs:384-407 | reading back a big-endian integer that `write_u32::<NetworkEndian>` and its kin wrote gives the number back |
| Bytes.FromBigEndianRoundTrip | bitrain-core/src/messages.rs:384-407 | writing back a big-endian number that was read gives the same bytes, so the fixed-width layout is a bijection |
| Decimal.Digits | bitrain-core/src/bencoded/encoding.rs:168-176 | the decimal text of `n` is non-empty, all ASCII digits, denotes `n`, and has no leading zero |
| Decimal.ParseUnsigned | bitrain-core/src/bencoded/encoding.rs:320-324 | `str::parse` of an unsigned type accepts exactly an optional `+` followed by one or more digits whose value is at most the type's maximum, and returns the decimal value of those digits, leading zeros included |
| Decimal.DigitsRoundTrip | bitrain-core/src/bencoded/encoding.rs:154-176 | an integer or length prefix that is printed and parsed again gives the same number |
| Decimal.PlusSignAccepted | bitrain-core/src/bencoded/encoding.rs:320-324 | a leading `+` is accepted |
| Decimal.MinusSignRejected | bitrain-core/src/bencoded/encoding.rs:320-324 | a leading `-` is rejected, even before zero |
| Decimal.LeadingZeroAccepted | bitrain-core/src/bencoded/encoding.rs:320-324 | a leading zero is accepted and does not change the value |
| LexOrder.LexIsTotalOrder | bitrain-core/src/bencoded/encoding.rs:316-318 | the byte-slice comparison the key sort uses is reflexive, antisymmetric, transitive and total |
| LexOrder.SortedEntries | bitrain-core/src/bencoded/encoding.rs:284-294 | the ascending listing of a map holds each entry exactly once, with keys strictly ascending |
| LexOrder.SortKeyValueEntries | bitrain-core/src/bencoded/encoding.rs:316-318 | `sort_key_value_entries` returns a permutation of its input that is sorted by key |
| LexOrder.AscendingEnumerationUnique | bitrain-core/src/bencoded/encoding.rs:284-294 | two key-ascending listings of the same map are equal |
| LexOrder.SortIsCanonical | bitrain-core/src/bencoded/encoding.rs:316-318 | sorting any listing of a map's entries gives the map's ascending listing, whatever order the `HashMap` iterates in |
| Bencode.CollectUpTo | bitrain-core/src/bencoded/encoding.rs:326-330 | returns the bytes before the first delimiter and drops that delimiter; without a delimiter it returns all the input and leaves nothing |
| Bencode.ParseUtf8Bytes | bitrain-core/src/bencoded/encoding.rs:320-324 | succeeds exactly when the text is an unsigned number in range, and fails with `InvalidValue` otherwise |
| Bencode.DecodeInteger | bitrain-core/src/bencoded/encoding.rs:154-166 | input not starting with `i` is `InvalidFormat`; on success at least one byte is consumed, and the unread rest is preceded by a closing `e` exactly when the input after the `i` holds one |
| Bencode.DecodeBytes | bitrain-core/src/bencoded/encoding.rs:178-191 | on success, at least one byte was consumed and the rest of the input is what remains |
| Bencode.DecodeEntry | bitrain-core/src/bencoded/encoding.rs:127-141 | empty input is `InvalidFormat`; on success the entry is an integer, a list or a dictionary exactly when the first byte is `i`, `l` or `d`, and at least one byte is consumed |
| Bencode.Decode | bitrain-core/src/bencoded/encoding.rs:238-242 | `Entry::decode` as written: empty input and every input that starts with `d` are `InvalidFormat`, because the dictionary decoder demands `l`; no dictionary is ever decoded, and at least one byte is consumed |
| Bencode.DecodeIntended | bitrain-core/src/bencoded/encoding.rs:127-141 | `Entry::decode` with `d` demanded: empty input is `InvalidFormat`, and a decoded entry is a dictionary exactly when the input starts with `d`, with at least one byte consumed |
| Bencode.DecodeList | bitrain-core/src/bencoded/encoding.rs:203-222 | a decoded list started with `l` and ended with the `e` just before the unread rest |
| Bencode.DecodeDictionary | bitrain-core/src/bencoded/encoding.rs:238-265 | a decoded dictionary started with the prefix the decoder demands and ended with the `e` just before the unread rest |
| Bencode.Encode | bitrain-core/src/bencoded/encoding.rs:143-152 | every encoding is non-empty, and its first byte is `i`, `l`, `d` or a digit exactly when the entry is an integer, list, dictionary or byte string |
| Bencode.EncodeBytes | bitrain-core/src/bencoded/encoding.rs:193-201 | a byte string's encoding starts with a digit of its length prefix |
| Bencode.AsDictionary | bitrain-core/src/bencoded/encoding.rs:65-75 | the conversion succeeds exactly on a dictionary, and on failure hands the entry back |
| Bencode.AsList | bitrain-core/src/bencoded/encoding.rs:77-87 | the conversion succeeds exactly on a list, and on failure hands the entry back |
| Bencode.AsBytes | bitrain-core/src/bencoded/encoding.rs:89-99 | the conversion succeeds exactly on a byte string, and on failure hands the entry back |
| Bencode.AsInteger | bitrain-core/src/bencoded/encoding.rs:101-111 | the conversion succeeds exactly on an integer, and on failure hands the entry back |
| Bencode.AsText | bitrain-core/src/bencoded/encoding.rs:113-125 | the conversion succeeds exactly on a byte string that is valid UTF-8 |
| BencodeProperties.CollectUpToDelimited | bitrain-core/src/bencoded/encoding.rs:326-330 | `collect_up_to` stops at the first delimiter |
| BencodeProperties.IntegerRoundTrip | bitrain-core/src/bencoded/encoding.rs:154-176 | `i<n>e` decodes to `n` and leaves whatever follows untouched |
| BencodeProperties.BytesRoundTrip | bitrain-core/src/bencoded/encoding.rs:178-201 | `<len>:<bytes>` decodes to the bytes and leaves whatever follows untouched |
| BencodeProperties.UnterminatedIntegerReadsToEnd | bitrain-core/src/bencoded/encoding.rs:154-166 | an integer with no closing `e` runs to the end of the input and still decodes |
| BencodeProperties.NegativeIntegerRejected | bitrain-core/src/bencoded/encoding.rs:154-166 | a negative integer is `InvalidValue` |
| BencodeProperties.TruncatedBytesRejected | bitrain-core/src/bencoded/encoding.rs:178-191 | a byte string shorter than its prefix is `UnexpectedEOF` |
| BencodeProperties.InvalidIntegerTextRejected | bitrain-core/src/bencoded/encoding.rs:154-166 | integer text that is empty or not an unsigned 64-bit number is `InvalidValue` |
| BencodeProperties.EmptyIntegerRejected | bitrain-core/src/bencoded/encoding.rs:154-166 | `ie`, with no digits, is `InvalidValue`, whatever follows |
| BencodeProperties.InvalidLengthPrefixRejected | bitrain-core/src/bencoded/encoding.rs:127-141 | input starting with none of `i`, `l`, `d` whose text before the first `:` is not a `usize` is `InvalidValue` |
| BencodeProperties.ItemsUnterminated | bitrain-core/src/bencoded/encoding.rs:212-217 | list items that run to the end of the input without an `e` are `UnexpectedEOF` |
| BencodeProperties.UnterminatedListRejected | bitrain-core/src/bencoded/encoding.rs:203-222 | a list without its closing `e` is `UnexpectedEOF` |
| BencodeProperties.PairsUnterminated | bitrain-core/src/bencoded/encoding.rs:247-260 | dictionary pairs that run to the end of the input without an `e` are `UnexpectedEOF` |
| BencodeProperties.UnterminatedDictionaryRejected | bitrain-core/src/bencoded/encoding.rs:238-265 | with the `d` prefix, a dictionary without its closing `e` is `UnexpectedEOF` |
| BencodeProperties.EntryRoundTrip | bitrain-core/src/bencoded/encoding.rs:127-152 | decoding an encoded entry gives it back and leaves the rest of the input, for any decoder that accepts the dictionaries the entry contains |
| BencodeProperties.ListRoundTrip | bitrain-core/src/bencoded/encoding.rs:203-236 | decoding an encoded list gives the same items in the same order |
| BencodeProperties.DictionaryRoundTrip | bitrain-core/src/bencoded/encoding.rs:238-294 | with the `d` prefix, decoding an encoded dictionary gives back the same map |
| BencodeProperties.DecodeIntendedInvertsEncode | bitrain-core/src/bencoded/encoding.rs:238-265 | with the dictionary decoder demanding `d`, decoding inverts encoding for every entry |
| BencodeProperties.DecodeInvertsEncodeWithoutDictionaries | bitrain-core/src/bencoded/encoding.rs:127-236 | as written, decoding still inverts encoding for every entry that contains no dictionary |
| BencodeProperties.DecodeRejectsEveryDictionary | bitrain-core/src/bencoded/encoding.rs:238-242 | as written, every input that starts with `d` is `InvalidFormat` |
| BencodeProperties.DecodeSucceedsIffDictionaryFree | bitrain-core/src/bencoded/encoding.rs:238-265 | as written, an encoded entry decodes exactly when it contains no dictionary |
| BencodeProperties.DictionaryDecoderTakesListPrefix | bitrain-core/src/bencoded/encoding.rs:238-265 | as written, the dictionary decoder, when called directly, accepts an `l`-prefixed body as a dictionary |
| BencodeProperties.RepeatedKeyLastValueWins | bitrain-core/src/bencoded/encoding.rs:253-257 | a key that appears twice keeps its last value |
| BencodeProperties.DictionaryEncodingIsCanonical | bitrain-core/src/bencoded/encoding.rs:267-294 | a dictionary encodes to the same bytes whatever order its entries are collected in |
| TorrentFile.ParseOptionalPrimitive | build_torrent_core/src/bencoded/custom.rs:126-134 | gives a value exactly when the key is present and its value converts, and that value is the converted one |
| TorrentFile.ParseRequiredPrimitive | build_torrent_core/src/bencoded/custom.rs:137-146 | gives `MissingField` exactly when the key is absent, `InvalidFormat` exactly when the value does not convert, and otherwise the converted value |
| TorrentFile.ParseRequired | build_torrent_core/src/bencoded/custom.rs:149-158 | gives `MissingField` when the key is absent, and otherwise whatever the parser makes of the value |
| TorrentFile.AllTexts | build_torrent_core/src/bencoded/custom.rs:44-49 | gives a list exactly when every item is UTF-8 text, and that list holds the same texts in the same order |
| TorrentFile.ParsePath | build_torrent_core/src/bencoded/custom.rs:107-110 | a path is accepted exactly when every component is text; otherwise the error is `InvalidFormat("path")` |
| TorrentFile.ParseAnnounceList | build_torrent_core/src/bencoded/custom.rs:40-53 | there are tiers exactly when the field was there; there are never more tiers than elements, and as many exactly when every element is a list of texts |
| TorrentFile.AnnounceTiers | build_torrent_core/src/bencoded/custom.rs:41-50 | the filter keeps at most one tier per element, and keeps every element exactly when each one is a list of texts |
| TorrentFile.AnnounceTier | build_torrent_core/src/bencoded/custom.rs:43-49 | an element is kept as a tier exactly when it is a list of texts, and the tier holds those texts in order |
| TorrentFile.ParseFileInfo | build_torrent_core/src/bencoded/custom.rs:104-119 | a non-dictionary is `InvalidFormat("files")`; accepted exactly when the entry is a dictionary whose `path` is a list of texts and whose `length` is an integer; then the length and the path components are those values, and `md5sum` is present exactly when it is a text |
| TorrentFile.ParseFiles | build_torrent_core/src/bencoded/custom.rs:92-95 | succeeds exactly when every file does, with one `FileInfo` per entry in order; otherwise it reports the error of the first failing file |
| TorrentFile.ParseFileList | build_torrent_core/src/bencoded/custom.rs:79-99 | without `files`, accepted exactly when `length` is an integer, giving one file with an empty path and that length; with `files`, a value that is not a list is `InvalidFormat("files")`, and an accepted list gives one parsed file per entry in order |
| TorrentFile.ParseInfo | build_torrent_core/src/bencoded/custom.rs:58-77 | a non-dictionary is `InvalidFormat("info")`; an accepted `info` holds the `piece length`, `pieces` and `name` values of the dictionary, its private flag, and the parsed file list |
| TorrentFile.PrivateFlag | build_torrent_core/src/bencoded/custom.rs:65-66 | `private` is true exactly when it is the integer 1, and unknown exactly when it is absent or not an integer |
| TorrentFile.ParseMetainfo | build_torrent_core/src/bencoded/custom.rs:13-38 | a non-dictionary is `InvalidFormat("metainfo")`; an accepted torrent's `info` is the parse of the `info` value and its `announce` is the `announce` text |
| TorrentFile.WithOptionalFields | build_torrent_core/src/bencoded/custom.rs:19-27 | each optional field is present exactly when its key is there with the right shape, and the creation date and the texts then hold those values; `info` and `announce` never change |
| TorrentFileProperties.FileInfoRoundTrip | build_torrent_core/src/bencoded/custom.rs:104-119 | every file dictionary built from a `FileInfo` parses back to it |
| TorrentFileProperties.FilesRoundTrip | build_torrent_core/src/bencoded/custom.rs:90-97 | every list of file dictionaries parses back to its files |
| TorrentFileProperties.PrivateFlagRoundTrip | build_torrent_core/src/bencoded/custom.rs:65-66 | `private` written as 1, 0 or absent reads back as true, false or unknown |
| TorrentFileProperties.FileListRoundTrip | build_torrent_core/src/bencoded/custom.rs:79-99 | both the single-file and the multi-file layout read back the files they were built from |
| TorrentFileProperties.InfoRoundTrip | build_torrent_core/src/bencoded/custom.rs:58-77 | every `info` dictionary built from an `Info` parses back to it |
| TorrentFileProperties.AnnounceListField | build_torrent_core/src/bencoded/custom.rs:19-22 | the announce tiers read back as written |
| TorrentFileProperties.CreationDateField | build_torrent_core/src/bencoded/custom.rs:23-24 | the creation date reads back as written |
| TorrentFileProperties.CommentField | build_torrent_core/src/bencoded/custom.rs:25-25 | the comment reads back as written |
| TorrentFileProperties.CreatedByField | build_torrent_core/src/bencoded/custom.rs:26-26 | `created by` reads back as written |
| TorrentFileProperties.EncodingField | build_torrent_core/src/bencoded/custom.rs:27-27 | the encoding reads back as written |
| TorrentFileProperties.MetainfoRoundTrip | build_torrent_core/src/bencoded/custom.rs:13-38 | every metadata dictionary built from a `Metainfo` parses back to it |
| TorrentFileProperties.MetainfoAcceptance | build_torrent_core/src/bencoded/custom.rs:13-38 | a metadata dictionary is accepted exactly when `info` parses and `announce` is text; optional fields never cause a failure |
| TorrentFileProperties.MetainfoErrorOrder | build_torrent_core/src/bencoded/custom.rs:13-17 | `info` is checked before `announce`, and the first failure is the one reported |
| TorrentFileProperties.InfoErrorOrder | build_torrent_core/src/bencoded/custom.rs:58-68 | `piece length`, `pieces`, `name` and the files are checked in that order: a missing or non-integer `piece length`, a non-bytes `pieces` (`InvalidFormat("pieces")`), a missing `name` (`MissingField("name")`), and a file-list error reported as it is; `info` is accepted exactly when all four are well-formed |
| TorrentFileProperties.SingleFileLayout | build_torrent_core/src/bencoded/custom.rs:80-88 | without `files` there is a single file of `length` with an empty path, and a missing or ill-shaped `length` is reported |
| TorrentFileProperties.MultiFileLayout | build_torrent_core/src/bencoded/custom.rs:89-98 | with `files` there is one `FileInfo` per element, or the error of a failing element |
| TorrentFileProperties.FileInfoErrorOrder | build_torrent_core/src/bencoded/custom.rs:104-112 | `path` is checked before `length`; a missing path, a path that is not a list, and a non-text component are each reported, and an empty path is accepted |
| TorrentFileProperties.AnnounceTiersAppend | build_torrent_core/src/bencoded/custom.rs:41-50 | the announce list is filtered element by element |
| TorrentFileProperties.AnnounceTiersDropsInvalidTier | build_torrent_core/src/bencoded/custom.rs:41-50 | an element that is not a list of texts is dropped without a trace |
| TorrentFileProperties.AnnounceTiersKeepsTier | build_torrent_core/src/bencoded/custom.rs:41-50 | a list of texts is kept as a tier, in its place |
| TorrentFileProperties.AnnounceTiersOfTierEntries | build_torrent_core/src/bencoded/custom.rs:40-53 | every announce list written as lists of texts reads back unchanged |
| Wire.Encode | bitrain-core/src/messages.rs:384-454 | `encode_to` writes exactly `size()` bytes |
| Wire.Size | bitrain-core/src/messages.rs:384-454 | `size()` of a fixed-width type is its width whatever the value, of a byte run its length; with the size as hint, the decoder asks for exactly that many bytes |
| Wire.Parse | bitrain-core/src/messages.rs:396-526 | a decoder gives `None` exactly for a string that is not UTF-8, or when a fixed-width type meets a hint below its width; every value it gives is of its type |
| Wire.Decode | bitrain-core/src/messages.rs:396-504 | a decoder stays inside the stream and never reads more than its hint, and inside a frame that holds the hint it never runs out of input; every value it gives is of its type and re-encodes to exactly the bytes it read; the hint drops by the bytes read, except for the `u8` decoder as written, which leaves it unchanged |
| Wire.Discard | bitrain-core/src/messages.rs:531-535 | discarding skips `count` bytes, or stops at the end of the input without an error |
| Wire.DecodeOrDiscard | bitrain-core/src/messages.rs:235-243 | a value or an I/O failure is passed through unchanged; after `None`, the bytes the hint still counts are thrown away |
| Wire.DecodeInvertsEncode | bitrain-core/src/messages.rs:384-526 | decoding an encoded value whose frame the hint covers gives the value back, moves past it, and lowers the hint by the bytes charged |
| Wire.EncodeInvertsDecode | bitrain-core/src/messages.rs:384-526 | any value a decoder gives re-encodes to exactly the bytes it read |
| Wire.DecodeWithinHint | bitrain-core/src/messages.rs:396-504 | no decoder reads more than its hint, so inside a frame that holds the hint a decoder never runs out of input |
| Wire.DecodeChargesHint | bitrain-core/src/messages.rs:216-219 | the hint drops by exactly the bytes read, for every decoder except the `u8` one as written, which leaves the hint unchanged |
| Derive.EncodeFields | bitrain-derive/src/messages/encode.rs:86-98 | the emitted `encode_to` writes exactly the emitted `size()` bytes |
| Derive.SizeFields | bitrain-derive/src/messages/encode.rs:158-169 | the emitted `size()` is at least the widths of the fixed-width fields, and exactly that when no field is a byte vector or string |
| Derive.DecodeFields | bitrain-derive/src/messages/decode.rs:128-137 | a decoded struct has one value per field; with sound field decoders, each value has its field's type and the reader stays inside the stream |
| Derive.DecodeAll | bitrain-core/src/messages.rs:230-233 | `Decode::decode` never reads past the slice, and gives one value of the right type per field |
| Derive.EncodeInvertsDecodeFields | bitrain-derive/src/messages/decode.rs:128-137 | a decoded struct re-encodes to exactly the bytes read |
| Derive.DecodeFieldsChargesHint | bitrain-core/src/messages.rs:216-219 | when no `u8` hint goes uncharged, a struct lowers the hint by exactly the bytes it consumed, and inside a frame it never runs out of input |
| DeriveProperties.PrimitiveInvertsEncode | bitrain-core/src/messages.rs:384-526 | the primitive decoders invert the primitive encoders |
| DeriveProperties.FieldsRoundTrip | bitrain-derive/src/messages/decode.rs:40-48 | decoding an encoded struct gives its fields back and moves past them; the hint left is the surplus plus, as written, one per `u8` field |
| DeriveProperties.DecodeAllInvertsEncode | bitrain-core/src/messages.rs:567-572 | `decode(encode(x)) == x` for every struct whose byte vector or string, if it has one, comes last |
| DeriveProperties.DecodeAllReencodes | bitrain-core/src/messages.rs:230-233 | what `Decode::decode` gives back re-encodes to the prefix of the slice it read |
| DeriveProperties.UnitStruct | bitrain-derive/src/messages/encode.rs:158-168 | a field-less struct writes nothing, has size 0, and decodes without reading |
| DeriveProperties.NoneStopsDecoding | bitrain-derive/src/messages/decode.rs:40-48 | the first field that gives `None` ends the struct's decoding at that point |
| DeriveProperties.ByteDecodeKeepsHint | bitrain-core/src/messages.rs:419-427 | as written, a `u8` is consumed but the hint still counts it; charged, the hint drops to 0 |
| DeriveProperties.ByteFieldOverreads | bitrain-core/src/messages.rs:419-427 | as written, `{ a: u8, b: Vec<u8> }` fails to decode its own encoding `[1, 2]`; charged, it decodes |
| PeerMessages.Id | bitrain-core/src/messages.rs:106-155 | every message's standalone id is between 0 and 8, and it is a flag id exactly for the four unit variants |
| PeerMessages.SchemaOf | bitrain-core/src/messages.rs:106-155 | a payload struct has no fields exactly when its id is a flag id |
| PeerMessages.Fields | bitrain-core/src/messages.rs:113-155 | a message's fields have the types of its payload struct's fields |
| PeerMessages.FromFields | bitrain-derive/src/messages/recv.rs:100-107 | the variant a match arm builds has the arm's id and the decoded fields |
| PeerMessages.FromFieldsOfFields | bitrain-core/src/messages.rs:27-41 | a message is determined by its id and its fields |
| PeerMessages.Payload | bitrain-derive/src/messages/encode.rs:86-98 | the payload struct's `encode_to` writes its `size()` bytes, and nothing for a flag's unit struct |
| PeerMessages.PayloadSize | bitrain-derive/src/messages/encode.rs:158-169 | the payload struct's `size()` is the number of bytes its `encode_to` writes, 0 for a flag |
| PeerMessages.PayloadShape | bitrain-core/src/messages.rs:113-155 | no payload struct has a `u8` field, and a byte vector appears only as the last field |
| PeerMessages.Header | bitrain-core/src/messages.rs:311-323 | the frame header is five bytes and ends with the id |
| PeerMessages.ContainerSend | bitrain-core/src/messages.rs:311-323 | `Container::send_to` writes five bytes more than the payload |
| PeerMessages.MessageSend | bitrain-derive/src/messages/send.rs:94-118 | the emitted `Message::send_to` writes a five-byte header ending with the id and then the payload; a flag is exactly `[0, 0, 0, 1, id]` |
| PeerMessages.PayloadRecv | bitrain-derive/src/messages/recv.rs:100-107 | a payload arm stays inside the stream and within its hint, and any message it gives carries the arm's id and re-encodes to exactly the bytes read; inside a frame it never fails, and a `None` ends at the frame's end |
| PeerMessages.ContainerRecv | bitrain-core/src/messages.rs:294-309 | `Container::recv_from` stays inside the stream; any message it gives carries the wanted id, sits after a length and that id, fits inside the frame the length announces, and re-encodes to the payload bytes read |
| PeerMessages.Dispatch | bitrain-derive/src/messages/recv.rs:186-191 | a flag id gives its flag without reading further; an id that is not one of the nine gives `None`, and as written leaves the reader right after the id; any message it gives carries the id read, stays within the hint and re-encodes to the bytes read |
| PeerMessages.MessageRecv | bitrain-derive/src/messages/recv.rs:162-194 | the derived `recv_from` stays inside the stream; any message it gives has the id of the byte after the length, fits inside the frame the length announces, and re-encodes to the payload bytes read |
| PeerMessages.HandshakeSend | bitrain-core/src/messages.rs:358-366 | a handshake is 68 bytes |
| PeerMessages.ReadArray | bitrain-core/src/messages.rs:472-504 | a fixed-size array decoder that gives a value gives exactly the next `D` bytes and moves past them |
| PeerMessages.HandshakeBody | bitrain-core/src/messages.rs:339-354 | a decoded body is the next 8 reserved bytes, 20-byte info hash and 20-byte peer id, and any 48 bytes are decoded as one |
| PeerMessages.HandshakeRecv | bitrain-core/src/messages.rs:325-356 | a received handshake is well-formed and `send_to` of it writes exactly the bytes read |
| PeerMessages.VariantError | bitrain-derive/src/messages/recv.rs:68-124 | a variant is accepted exactly when it is a unit variant with an id or a data variant with exactly one field |
| PeerMessages.ErrorsOfKind | bitrain-derive/src/messages/recv.rs:146-160 | the error accumulator of one stage holds only errors of that stage's kind, at most one per variant, and is empty exactly when no variant is rejected for that kind |
| PeerMessages.DeriveErrors | bitrain-derive/src/messages/recv.rs:211-215 | the derive succeeds exactly when every variant is accepted; when some unit variant lacks an id, `from_derive_input` stops it with only missing-id errors, and only otherwise are the shape errors of `from_params` reported; at most one error per variant |
| PeerMessageProperties.HeaderRead | bitrain-core/src/messages.rs:311-323 | the header reads back as the payload size plus one, followed by the id |
| PeerMessageProperties.LengthRead | bitrain-derive/src/messages/recv.rs:164-171 | the length the derived receiver reads is the frame's length field |
| PeerMessageProperties.IdRead | bitrain-derive/src/messages/recv.rs:177-184 | the id the derived receiver reads is the byte after the length |
| PeerMessageProperties.FrameParts | bitrain-core/src/messages.rs:311-323 | a sent frame is the header followed by the payload |
| PeerMessageProperties.PayloadRoundTrip | bitrain-core/src/messages.rs:557-572 | `decode(encode(p)) == p` for every payload struct, with nothing left of the hint |
| PeerMessageProperties.PayloadRecvInvertsEncode | bitrain-derive/src/messages/recv.rs:100-107 | the payload arm reads a payload back and stops right after it |
| PeerMessageProperties.ContainerRoundTrip | bitrain-core/src/messages.rs:584-593 | `Container(&x).send_to` followed by `Container::recv_from` gives `x` back and stops at the end of the frame |
| PeerMessageProperties.FlagSendIsContainerSend | bitrain-derive/src/messages/send.rs:112-116 | a flag is sent as the same frame a `Container` of its unit struct would make |
| PeerMessageProperties.FlagFrame | bitrain-derive/src/messages/send.rs:112-116 | a flag is the five bytes `0 0 0 1 id` |
| PeerMessageProperties.MessageSendIsContainerSend | bitrain-derive/src/messages/send.rs:162-167 | the derived `send_to` writes exactly the `Container` frame of the payload |
| PeerMessageProperties.MessageRoundTrip | bitrain-core/src/messages.rs:595-613 | the derived `send_to` followed by `recv_from` gives the message back and stops at the end of the frame |
| PeerMessageProperties.FrameRoundTrip | bitrain-derive/src/messages/recv.rs:162-194 | the derived receiver reads a whole `Container` frame back as its message |
| PeerMessageProperties.DispatchInvertsEncode | bitrain-derive/src/messages/recv.rs:186-191 | the arm for a message's own id reads its payload back and stops right after it |
| PeerMessageProperties.KeepAlive | bitrain-core/src/messages.rs:294-299 | a zero length is a keep-alive: `None`, with nothing read after the length |
| PeerMessageProperties.PayloadRecvWithinFrame | bitrain-core/src/messages.rs:235-243 | inside a frame, a payload arm never runs out of input and never reads past the frame, and a `None` ends exactly at the frame's end |
| PeerMessageProperties.MessageRecvKeepsFraming | bitrain-derive/src/messages/recv.rs:162-194 | on a complete frame, the derived receiver never fails and never reads past the frame; when unknown frames are skipped, every `None` ends where the next frame starts |
| PeerMessageProperties.DispatchWithinFrame | bitrain-derive/src/messages/recv.rs:186-191 | inside a frame, the arm for any id never fails and never reads past the frame; when unknown frames are skipped, a `None` ends at the frame's end |
| PeerMessageProperties.ContainerRecvKeepsFraming | bitrain-core/src/messages.rs:294-309 | `Container::recv_from` gives the same framing guarantees |
| PeerMessageProperties.UnknownIdLeavesPayload | bitrain-derive/src/messages/recv.rs:186-191 | as written, an unknown id stops the reader right after the id, with the payload unread; skipping puts the reader at the next frame |
| PeerMessageProperties.LongFlagFrameLeavesPayload | bitrain-derive/src/messages/recv.rs:110-123 | a flag frame whose length is above 1 gives the flag, with the reader left right after the id and the frame's extra bytes unread |
| PeerMessageProperties.MismatchedIdLeavesPayload | bitrain-core/src/messages.rs:301-302 | as written, a `Container` meeting another id stops after the id, with the payload unread; skipping puts the reader at the next frame |
| PeerMessageProperties.UnknownIdLosesNextMessage | bitrain-derive/src/messages/recv.rs:186-191 | as written, a `Choke` that follows a frame with an unknown id is read as a keep-alive and lost |
| PeerMessageProperties.SkippingUnknownIdKeepsNextMessage | bitrain-derive/src/messages/recv.rs:186-191 | when the unknown frame's payload is discarded, the following `Choke` is received |
| PeerMessageProperties.ArrayRead | bitrain-core/src/messages.rs:472-504 | a byte array covered by the hint is read back, and the hint drops by its size |
| PeerMessageProperties.HandshakeRoundTrip | bitrain-core/src/messages.rs:325-366 | `send_to` followed by `recv_from` of a handshake gives it back after exactly 68 bytes |
| PeerMessageProperties.HandshakeWrongProtocol | bitrain-core/src/messages.rs:334-337 | another protocol name gives `None` once the name has been read |
| PeerMessageProperties.SupportsExtensionsIsBit4 | bitrain-core/src/messages.rs:92-103 | `supports_extensions` holds exactly when bit 4 of reserved byte 5 is set |
| PeerMessageProperties.MessageVariantsAccepted | bitrain-core/src/messages.rs:25-41 | the `Message` enum passes the checks of both derives |
| PeerMessageProperties.BadVariantsRejected | bitrain-derive/src/messages/recv.rs:45-124 | a unit variant without an id is rejected, and so is a data variant with two fields; every missing id is reported, and an enum with both kinds of bad variant reports only its missing ids |
| LegacyMessages.KindByte | build_torrent_core/src/messages.rs:12-23 | the nine kinds are numbered 0 to 8, and `Unknown` is above them |
| LegacyMessages.KindOf | build_torrent_core/src/messages.rs:25-40 | a byte is `Unknown` exactly when it is above 8, and otherwise it maps to the kind with that number |
| LegacyMessages.MessageKind | build_torrent_core/src/messages.rs:71-83 | `Message::id` is never `Unknown` and numbers each message as the current crate does |
| LegacyMessages.FlagMessage | build_torrent_core/src/messages.rs:622-626 | the unit message built for a flag id has that kind |
| LegacyMessages.Word | build_torrent_core/src/messages.rs:445-445 | `read_u32::<NetworkEndian>` is the inverse of the big-endian layout |
| LegacyMessages.FlagRecv | build_torrent_core/src/messages.rs:345-358 | a flag receiver stays inside the stream, and gives its own flag with 0 bytes left, after reading exactly the bytes `send_to` writes for it |
| LegacyMessages.HaveRecv | build_torrent_core/src/messages.rs:436-450 | `Have::recv_from` stays inside the stream, and gives a `Have` with 0 bytes left, after reading exactly the bytes `send_to` writes for it |
| LegacyMessages.TripleRecv | build_torrent_core/src/messages.rs:495-515 | `Request` and `Cancel` receivers stay inside the stream, and give their own kind with 0 bytes left, after reading exactly the bytes `send_to` writes for it |
| LegacyMessages.TripleAt | build_torrent_core/src/messages.rs:504-513 | after a matching id, the three network-order `u32`s read make a message of the wanted kind whose `send_to` bytes are exactly the 13 bytes read |
| LegacyMessages.BitfieldRecv | build_torrent_core/src/messages.rs:463-481 | `Bitfield::recv_from` stays inside the stream, and gives a `Bitfield` with 0 bytes left, after reading exactly the bytes `send_to` writes for it |
| LegacyMessages.PieceRecv | build_torrent_core/src/messages.rs:565-593 | `Piece::recv_from` stays inside the stream, and gives a `Piece` with 0 bytes left, after reading exactly the bytes `send_to` writes for it |
| LegacyMessages.PieceAt | build_torrent_core/src/messages.rs:578-591 | after a matching id, the index, the offset and the block read make a `Piece` whose `send_to` bytes are exactly the bytes read |
| LegacyMessages.InnerRecv | build_torrent_core/src/messages.rs:622-648 | every struct receiver stays inside the stream, and gives its own kind with 0 bytes left, after reading exactly the bytes `send_to` writes for it |
| LegacyMessages.ContainerRecv | build_torrent_core/src/messages.rs:421-432 | `RecvContainer::recv_from` reads at least the four length bytes and stays inside the stream; a message it gives has the wanted kind, and the bytes after the length are exactly what `send_to` writes for it |
| LegacyMessages.KeepAliveRecv | build_torrent_core/src/messages.rs:421-432 | `RecvContainer::<()>::recv_from` fails exactly when fewer than four bytes remain; otherwise it reads just the length, sets the hint to it, and gives `()` exactly when the length is 0, as `()`'s `check_length_exact!(0)` demands |
| LegacyMessages.Chained | build_torrent_core/src/messages.rs:618-620 | after `from_ref(&id).chain(reader)` the real reader is always past the id and the value is the sub-receiver's; once the sub-receiver has read the id again nothing changes; as written the hint is the sub-receiver's, and corrected it drops the unread copy of the id |
| LegacyMessages.MessageRecv | build_torrent_core/src/messages.rs:608-652 | `Message::recv_from` reads at least the four length bytes and stays inside the stream; a message it gives has the id of the byte after the length, and the bytes from that id on are exactly what `send_to` writes for it |
| LegacyMessages.InnerSend | build_torrent_core/src/messages.rs:452-601 | every struct is written as its id byte followed by its fields |
| LegacyMessages.MessageSend | build_torrent_core/src/messages.rs:408-417 | the frame is the struct's declared size as one byte, followed by the struct |
| LegacyMessages.InnerSize | build_torrent_core/src/messages.rs:603-605 | corrected, a struct's `size` is the number of bytes its `send_to` writes; as written, `Piece::size` is one short and every other struct's is exact |
| LegacyMessages.MessageSize | build_torrent_core/src/messages.rs:671-684 | corrected, `Message::size` is the four length bytes plus the struct; as written it exceeds the bytes `send_to` writes by 7, or by 6 for `Piece` |
| LegacyMessages.CorrectedMessageSend | build_torrent_core/src/messages.rs:320-327 | the frame the `SendMessage` contract asks for is a four-byte length followed by the struct |
| LegacyMessages.HandshakeNew | build_torrent_core/src/messages.rs:127-139 | gives a handshake exactly when the info hash and the peer id are 20 bytes each |
| LegacyMessages.HandshakeSend | build_torrent_core/src/messages.rs:724-730 | the handshake is the name length, the name, 8 reserved bytes, the info hash and the peer id |
| LegacyMessages.HandshakeRecv | build_torrent_core/src/messages.rs:690-715 | the handshake receiver always reads the name-length byte and stays inside the stream; a handshake it gives is well-formed and is exactly the bytes `send_to` writes for it, and a `None` leaves no hint |
| LegacyMessageProperties.KindOfKindByte | build_torrent_core/src/messages.rs:12-40 | `Id::from` inverts `Id as u8` |
| LegacyMessageProperties.KindOfMessageId | build_torrent_core/src/messages.rs:71-83 | `Id::from` of the current crate's id is the legacy `Message::id` |
| LegacyMessageProperties.WordOf | build_torrent_core/src/messages.rs:445-455 | a written big-endian `u32` reads back as the same number |
| LegacyMessageProperties.FlagRoundTrip | build_torrent_core/src/messages.rs:340-370 | a flag's single byte is read back as that flag |
| LegacyMessageProperties.HaveRoundTrip | build_torrent_core/src/messages.rs:436-461 | `Have` is read back with 0 bytes left |
| LegacyMessageProperties.TripleRoundTrip | build_torrent_core/src/messages.rs:495-563 | `Request` and `Cancel` are read back with 0 bytes left |
| LegacyMessageProperties.BitfieldRoundTrip | build_torrent_core/src/messages.rs:463-493 | corrected, a bit field is read back with 0 bytes left |
| LegacyMessageProperties.PieceRoundTrip | build_torrent_core/src/messages.rs:565-606 | corrected, a piece is read back with 0 bytes left |
| LegacyMessageProperties.InnerRoundTrip | build_torrent_core/src/messages.rs:771-779 | the `vise_versa` test holds: as written for every kind except `Bitfield` and `Piece`, and corrected for all nine |
| LegacyMessageProperties.VariableOverreads | build_torrent_core/src/messages.rs:463-593 | as written, a `Bitfield` or `Piece` received from exactly the bytes it sent asks for one byte too many |
| LegacyMessageProperties.BitfieldTakesNextByte | build_torrent_core/src/messages.rs:476-480 | as written, a bit field takes the next frame's first byte as one of its bits |
| LegacyMessageProperties.LengthCheckRejects | build_torrent_core/src/messages.rs:330-338 | a fixed-size struct whose hint has the wrong size gives `None`, reads nothing and keeps the hint |
| LegacyMessageProperties.WrongIdResidual | build_torrent_core/src/messages.rs:436-576 | a wrong id gives `None`, with the hint set to the bytes the struct would have had left |
| LegacyMessageProperties.KeepAlive | build_torrent_core/src/messages.rs:611-616 | a zero length gives `None` with hint 0, and `()` accepts it as a keep-alive |
| LegacyMessageProperties.KeepAliveAccounts | build_torrent_core/src/messages.rs:746-752 | `()` accepts exactly an empty frame, and leaves any other frame to be discarded |
| LegacyMessageProperties.FlagIgnoresLength | build_torrent_core/src/messages.rs:618-626 | ids 0 to 3 give the flag whatever the length, leaving the whole length in the hint |
| LegacyMessageProperties.InnerAccounts | build_torrent_core/src/messages.rs:284-290 | corrected, every struct receiver inside a frame never fails, stops inside it, and on `None` reports exactly what is left of it |
| LegacyMessageProperties.ContainerAccounts | build_torrent_core/src/messages.rs:421-432 | corrected, `RecvContainer` keeps the hint contract on every complete frame |
| LegacyMessageProperties.MessageAccounts | build_torrent_core/src/messages.rs:608-652 | corrected, `Message::recv_from` keeps the hint contract on every complete frame |
| LegacyMessageProperties.MessageOvercounts | build_torrent_core/src/messages.rs:618-648 | as written, every `None` for a frame with an id reports one byte more than the frame has left |
| LegacyMessageProperties.UnknownIdOvercounts | build_torrent_core/src/messages.rs:647-647 | as written, an unknown id reports one byte to discard after the frame has ended; corrected, none |
| LegacyMessageProperties.ContainerMismatchOvercounts | build_torrent_core/src/messages.rs:340-358 | as written, a flag or `Bitfield` container that meets another id still counts the id byte it has read |
| LegacyMessageProperties.SizesDisagree | build_torrent_core/src/messages.rs:603-605 | as written, `Piece::size` leaves out the id, and `Message::size` is 6 or 7 more than the bytes `send_to` writes |
| LegacyMessageProperties.CorrectedSizesAgree | build_torrent_core/src/messages.rs:231-233 | corrected, every declared size equals the number of bytes written |
| LegacyMessageProperties.SentFramesMisread | build_torrent_core/src/messages.rs:413-416 | as written, `Choke`'s frame is too short to be received, and `Have(0)`'s frame is received as a `Choke` |
| LegacyMessageProperties.CorrectedRoundTrip | build_torrent_core/src/messages.rs:608-669 | corrected, `send_to` followed by `recv_from` gives every message back and stops at the end of its frame |
| LegacyMessageProperties.InnerSendIsCorePayload | build_torrent_core/src/messages.rs:452-601 | both crates write a message's struct the same way: the id followed by the derived payload |
| LegacyMessageProperties.CorrectedSendIsCoreSend | build_torrent_core/src/messages.rs:656-669 | corrected, the legacy crate sends every message exactly as the current crate does, with the same size limit |
| LegacyMessageProperties.HandshakeSendSize | build_torrent_core/src/messages.rs:719-731 | the declared size of 68 holds exactly when the two ids have 40 bytes between them; a valid handshake is sent as the current crate sends it |
| LegacyMessageProperties.HandshakeRoundTrip | build_torrent_core/src/messages.rs:690-731 | a valid handshake is sent and received back with hint 0 |
| LegacyMessageProperties.HandshakeWrongProtocol | build_torrent_core/src/messages.rs:697-701 | another protocol name gives `None` with no hint at all |

## Left out

- I/O errors other than running out of input are not modelled. Writers go to memory and cannot fail. Input is a fixed byte sequence, not a socket.
- `BEncode::encode` and `encode_into_stream` (encoding.rs 24-35) produce the same bytes, so one `Encode` function models both.
- `Entry::parse` and `parse_or_err` (encoding.rs 49-63) are modelled only through the `As*` conversions they call.
- `serde.rs`, `peer.rs` in both crates, `lib.rs` and the `bencoded.rs` type declarations are not part of this model; their types are restated where the core uses them.
- The conversion from the creation date's seconds to `NaiveDateTime` is a call into chrono that cannot be seen here. `creationDate` keeps the integer.
- The proc-macro machinery (darling attribute parsing, `syn` token building, generic bounds) is left out. The code it emits is modelled, per field schema, by `Derive`. Per-variant attribute validation is modelled by `PeerMessages.VariantError`, and the two stages that report its errors by `PeerMessages.DeriveErrors`.
- The `Standalone` derive (`standalone.rs`) is represented only by the ids `PeerMessages.Id` assigns.
- Panics are not modelled; they are preconditions:
  - `Container::send_to` panics through `expect` when the size does not fit a `u32`, and `data_len + 1` overflows at `u32::MAX`. `Sendable` excludes both.
  - The legacy `SendContainer::send_to` panics above 255. This is the precondition of `LegacyMessages.MessageSend`.
  - The legacy `Bitfield` and `Piece` receivers panic without a hint. This is the `hint.Some?` precondition.
- `usize` is taken to be 64 bits wide, so byte-string lengths above `u64::MAX` are out of range.
- Some members' own contracts are weaker than what the source promises. Each line below starts with such a member and names the lemmas that state the rest.
- Bencode.DecodeInteger: its contract gives the prefix check, progress and where the closing `e` is, but not the value. The value and the errors are stated by `IntegerRoundTrip`, `NegativeIntegerRejected`, `InvalidIntegerTextRejected`, `EmptyIntegerRejected` and `UnterminatedIntegerReadsToEnd`.
- Bencode.DecodeBytes: its contract promises only progress. A stronger contract would have to place the bytes before the unread rest, and that made the dictionary decoder too expensive to verify. What it returns is stated by `BytesRoundTrip`, and its errors by `TruncatedBytesRejected` and `InvalidLengthPrefixRejected`.
- Bencode.DecodeEntry: its contract gives the kind of entry from the first byte, and the error for empty input. The entry decoded is stated by `EntryRoundTrip`, `DecodeIntendedInvertsEncode` and `DecodeInvertsEncodeWithoutDictionaries`. The other errors are stated by the `…Rejected` lemmas and `DecodeRejectsEveryDictionary`.
- Bencode.DecodeList: its contract gives the brackets, not the items. The items are stated by `ListRoundTrip` and `ItemsRoundTrip`. The missing `e` is stated by `UnterminatedListRejected`.
- Bencode.DecodeDictionary: its contract gives the brackets, not the map. The map is stated by `DictionaryRoundTrip`, `PairsDecodeToMap` and `RepeatedKeyLastValueWins`. The missing `e` is stated by `UnterminatedDictionaryRejected`, and the as-written `l` prefix by `DictionaryDecoderTakesListPrefix`.
- TorrentFile.ParseAnnounceList: its contract counts the tiers, but does not list them. The tiers are stated by `AnnounceTier`, `AnnounceTiersAppend`, `AnnounceTiersKeepsTier`, `AnnounceTiersDropsInvalidTier` and `AnnounceTiersOfTierEntries`.
- TorrentFile.ParseInfo: its contract gives the fields of an accepted `info`. The order in which errors are reported is stated by `InfoErrorOrder`, and the round trip by `InfoRoundTrip`.
- TorrentFile.ParseMetainfo: its contract gives `info` and `announce` of an accepted torrent. The errors are stated by `MetainfoErrorOrder` and `MetainfoAcceptance`, and the round trip by `MetainfoRoundTrip`.
- TorrentFile.ParseFileInfo: its contract says when a file entry is accepted and what it holds, but not which error a rejected one reports. That is stated by `FileInfoErrorOrder`.
- TorrentFile.WithOptionalFields: its contract says when `announce-list` is kept, but not which tiers it holds. That is stated by `ParseAnnounceList`'s partners and `AnnounceListField`.
- TorrentFile.ParseFileList: its contract does not say which error a failing file list reports. That is stated by `ParseFiles` and `FileInfoErrorOrder`.
- Derive.DecodeFields: it is generic over the field decoders. Its contract gives only the arity and, for sound decoders, the types and bounds. Re-encoding and hint accounting need hypotheses about the decoders, and those are stated by `Derive.EncodeInvertsDecodeFields`, `Derive.DecodeFieldsChargesHint` and `DeriveProperties.FieldsRoundTrip`.
- Derive.DecodeAll: its contract gives bounds and types. The round trip and re-encoding are stated by `DecodeAllInvertsEncode` and `DecodeAllReencodes`.
- PeerMessages.ContainerRecv: its contract covers a message it gives, but not where a `None` leaves the reader. That is stated by `KeepAlive`, `ContainerRecvKeepsFraming` and `MismatchedIdLeavesPayload`. The round trip is stated by `ContainerRoundTrip`.
- PeerMessages.MessageRecv: its contract covers a message it gives, but not where a `None` leaves the reader. That is stated by `MessageRecvKeepsFraming`, `UnknownIdLeavesPayload` and `LongFlagFrameLeavesPayload`. The round trip is stated by `MessageRoundTrip`.
- PeerMessages.HandshakeRecv: its contract covers a handshake it gives. A wrong protocol name is stated by `HandshakeWrongProtocol`, and the round trip by `HandshakeRoundTrip`.
- LegacyMessages.InnerRecv: its contract covers a message it gives. The hint it leaves on `None` and the as-written overreads are stated by `InnerAccounts`, `VariableOverreads`, `BitfieldTakesNextByte`, `LengthCheckRejects` and `WrongIdResidual`. The round trip is stated by `InnerRoundTrip`.
- LegacyMessages.ContainerRecv: its contract covers a message it gives. The hint accounting is stated by `ContainerAccounts` and `ContainerMismatchOvercounts`.
- LegacyMessages.MessageRecv: its contract covers a message it gives. The hint accounting is stated by `MessageAccounts`, `MessageOvercounts`, `UnknownIdOvercounts` and `FlagIgnoresLength`. The round trip is stated by `CorrectedRoundTrip`, and the misread of sent frames by `SentFramesMisread`.
- LegacyMessages.HandshakeRecv: its contract covers a handshake it gives. A wrong protocol name is stated by `HandshakeWrongProtocol`, and the round trip by `HandshakeRoundTrip`.

## Findings

Both halves of each row are proved: the as-written member exhibits the discrepancy, and the corrected member proves the intended property.

| source | as written | input that shows it | evidently intended | confidence | as-written member | corrected member |
|---|---|---|---|---|---|---|
| bitrain-core/src/bencoded/encoding.rs:240 | the dictionary decoder demands the list prefix `l` | `d1:ai1ee`, the encoding of `{a: 1}`, and every other input that starts with `d`, decodes to `InvalidFormat` | demand `DICTIONARY_PREFIX` (`d`), which the encoder writes | high, not executed | BencodeProperties.DecodeRejectsEveryDictionary | BencodeProperties.DecodeIntendedInvertsEncode |
| bitrain-core/src/messages.rs:419-427 | the `u8` decoder reads a byte but does not take it off `len_hint` | `{ a: u8, b: Vec<u8> }` encodes `{1, [2]}` as `[1, 2]`; decoding it asks for 2 bytes for `b` with 1 left, an I/O failure | lower the hint by `size_of::<u8>()`, as the other integer decoders do and as the `Decode` documentation asks | high, not executed | DeriveProperties.ByteFieldOverreads | DeriveProperties.DecodeAllInvertsEncode |
| bitrain-derive/src/messages/recv.rs:190 | an unknown id gives `None` and leaves the frame's `len - 1` payload bytes unread | `00 00 00 02 09 00` then `Choke` (`00 00 00 01 00`): the second receive reads `00 00 00 00` as a keep-alive and the `Choke` is lost | discard the rest of the frame, as the `Message` documentation says unknown messages are discarded | medium, not executed | PeerMessageProperties.UnknownIdLosesNextMessage | PeerMessageProperties.SkippingUnknownIdKeepsNextMessage |
| bitrain-core/src/messages.rs:301-302 | `Container::recv_from` meeting a frame of another id gives `None` and leaves the frame's `len - 1` payload bytes unread | `00 00 00 05 04 00 00 00 07`, a `Have(7)` frame, received as `Container<Request>`: `None` after 5 bytes, and the next receive reads `00 00 00 07` as a length | discard the rest of the frame, as `decode_or_discard_from` does for a `None` payload | medium, not executed | PeerMessageProperties.MismatchedIdLeavesPayload | PeerMessageProperties.ContainerRecvKeepsFraming |
| build_torrent_core/src/messages.rs:619 | the hint is set to the whole length after the id byte has been read, so every `None` reports one byte too many to discard | `00 00 00 01 09`, an unknown id in a frame of length 1: `None` with residual 1 at the end of the frame | `Some(len - 1)` | high, not executed | LegacyMessageProperties.UnknownIdOvercounts | LegacyMessageProperties.MessageAccounts |
| build_torrent_core/src/messages.rs:354-356 | a flag receiver meeting another id leaves the hint at 1, counting the id byte it has read | `00 00 00 01 01` received as `RecvContainer<Choke>`: `None` with residual 1 after the frame has ended | set the hint to 0 | high, not executed | LegacyMessageProperties.ContainerMismatchOvercounts | LegacyMessageProperties.ContainerAccounts |
| build_torrent_core/src/messages.rs:476 | `Bitfield` reads `len` bytes of bits after the id, although `len` counts the id | `Bitfield([])` sent as `05` and received with hint 1 asks for 1 more byte; with a following byte, that byte becomes a bit | read `len - 1` bytes | high, not executed | LegacyMessageProperties.BitfieldTakesNextByte | LegacyMessageProperties.BitfieldRoundTrip |
| build_torrent_core/src/messages.rs:581 | `Piece` takes `len - 8` block bytes after the id, index and offset, which together are 9 bytes | `Piece(0, 0, [])` sent as 9 bytes and received with hint 9 asks for 1 more byte | `len - 9` block bytes, with a minimum length of 9 | high, not executed | LegacyMessageProperties.VariableOverreads | LegacyMessageProperties.PieceRoundTrip |
| build_torrent_core/src/messages.rs:414 | `SendContainer` writes the length as one byte, while every receiver reads a four-byte length | `Choke` is sent as `01 00`, too short to receive; `Have(0)` is sent as `05 04 00 00 00 00` and received as a `Choke` | write the length as a big-endian `u32`, as `RecvContainer` (line 423) reads it | high, not executed | LegacyMessageProperties.SentFramesMisread | LegacyMessageProperties.CorrectedRoundTrip |
| build_torrent_core/src/messages.rs:603-605 | `Piece::size` is `MIN_LEN + data.len()`, which leaves out the id byte `send_to` writes | `Piece(0, 0, [])`: size 8, 9 bytes written | `9 + data.len()` | high, not executed | LegacyMessageProperties.SizesDisagree | LegacyMessageProperties.CorrectedSizesAgree |
| build_torrent_core/src/messages.rs:671-684 | `Message::size` adds `MIN_LEN` (4) to `SendContainer::size`, which already adds 4, while `send_to` writes one length byte | `Choke`: size 9, 2 bytes written | size equal to the bytes written | high, not executed | LegacyMessageProperties.SizesDisagree | LegacyMessageProperties.CorrectedSizesAgree |

In the current crate's message receivers, the payload structs have no `u8` field (`PeerMessages.PayloadShape`). So the uncharged `u8` hint does not affect them, and they use the decoders as written.
