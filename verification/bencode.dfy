/**
 The bencode value codec of `bitrain-core/src/bencoded/encoding.rs`: the
 recursive `Entry` value, its decoder over a byte stream, its encoder, and the
 typed conversions out of an `Entry`.

 The byte stream is the remaining input as a sequence; a decoder returns the
 decoded value together with the input it left unread.

 The source's dictionary decoder demands that a dictionary open with the list
 prefix `l` instead of `d`. The decoders here take that opening byte as a
 parameter `dictOpen`: `Decode` is the codec as written (`dictOpen == 'l'`),
 `DecodeIntended` the evidently intended one (`dictOpen == 'd'`).
 */
module Bencode {
  import opened Bytes
  import opened Wrappers
  import opened Utf8
  import opened Decimal
  import opened LexOrder

  const INT_PREFIX: u8 := 0x69         // 'i'
  const LIST_PREFIX: u8 := 0x6C        // 'l'
  const DICTIONARY_PREFIX: u8 := 0x64  // 'd'
  const STRING_INFIX: u8 := 0x3A       // ':'
  const END_SUFFIX: u8 := 0x65         // 'e'

  /** `Entry`: `Integer(u64)`, a byte `String`, a `List` or a `Dictionary` keyed by byte strings. */
  datatype Entry =
    | Integer(value: u64)
    | String(bytes: seq<u8>)
    | List(items: seq<Entry>)
    | Dictionary(dict: map<seq<u8>, Entry>)

  datatype Error = InvalidFormat | InvalidValue | UnexpectedEOF

  /** A decoded value and the input left after it. */
  type Decoded<T> = Result<(T, seq<u8>), Error>

  /** `rest` is what is left of `bs` after at least one byte was taken from its front. */
  predicate ProperSuffix(rest: seq<u8>, bs: seq<u8>) {
    |rest| < |bs| && bs[|bs| - |rest|..] == rest
  }

  /** The last byte of `bs` taken before `rest` is the closing `e`. */
  predicate ClosedBefore(rest: seq<u8>, bs: seq<u8>)
    requires |rest| < |bs|
  {
    bs[|bs| - |rest| - 1] == END_SUFFIX
  }

  /** A proper suffix of a proper suffix of `bs` is a proper suffix of `bs`. */
  lemma SuffixOfSuffix(tail: seq<u8>, rest: seq<u8>, bs: seq<u8>)
    requires ProperSuffix(rest, bs) && ProperSuffix(tail, rest)
    ensures ProperSuffix(tail, bs)
  {
    assert bs[|bs| - |tail|..] == bs[|bs| - |rest|..][|rest| - |tail|..];
  }

  /** A closing `e` found further on in a suffix of `bs` closes `bs` as well. */
  lemma ClosedAfter(tail: seq<u8>, rest: seq<u8>, bs: seq<u8>)
    requires ProperSuffix(rest, bs) && ProperSuffix(tail, rest) && ClosedBefore(tail, rest)
    ensures ProperSuffix(tail, bs) && ClosedBefore(tail, bs)
  {
    assert bs[|bs| - |rest|..] == rest;
    assert bs[|bs| - |tail| - 1] == rest[|rest| - |tail| - 1];
  }

  // ---------------------------------------------------------------------------
  // utils

  /**
   `collect_up_to`: the bytes before the first `delimiter`, and the input
   after that delimiter; without a delimiter, all of the input and nothing left.
   */
  function CollectUpTo(bs: seq<u8>, delimiter: u8): (r: (seq<u8>, seq<u8>))
    ensures delimiter !in r.0
    ensures delimiter in bs ==> bs == r.0 + [delimiter] + r.1
    ensures delimiter !in bs ==> r.0 == bs && r.1 == []
  {
    if |bs| == 0 then ([], [])
    else if bs[0] == delimiter then ([], bs[1..])
    else
      var (taken, rest) := CollectUpTo(bs[1..], delimiter);
      assert bs == [bs[0]] + bs[1..];
      ([bs[0]] + taken, rest)
  }

  /**
   `parse_utf8_bytes`: UTF-8 check, then `str::parse` of an unsigned integer
   type whose largest value is `max`; both failures are `InvalidValue`.
   */
  function ParseUtf8Bytes(bs: seq<u8>, max: nat): (r: Result<nat, Error>)
    ensures r.Ok? <==> ParseUnsigned(bs, max).Some?
    ensures r.Ok? ==> r.value == ParseUnsigned(bs, max).value
    ensures r.Err? ==> r.error == InvalidValue
  {
    if !ValidUtf8(bs) then
      assert ParseUnsigned(bs, max).None? by { UnsignedTextIsUtf8(bs, max); }
      Err(InvalidValue)
    else match ParseUnsigned(bs, max)
      case Some(n) => Ok(n)
      case None => Err(InvalidValue)
  }

  /** A numeral the decimal parser accepts is ASCII, hence valid UTF-8. */
  lemma UnsignedTextIsUtf8(bs: seq<u8>, max: nat)
    ensures ParseUnsigned(bs, max).Some? ==> ValidUtf8(bs)
  {
    if ParseUnsigned(bs, max).Some? {
      assert IsAsciiBytes(bs) by {
        forall i | 0 <= i < |bs| ensures bs[i] < 0x80 {
          if !(bs[0] == PLUS && i == 0) {
            var digits := if bs[0] == PLUS then bs[1..] else bs;
            assert bs[i] in digits;
          }
        }
      }
      AsciiIsValid(bs);
    }
  }

  // ---------------------------------------------------------------------------
  // Decoding

  /** `<BInt as BDecode>::decode`: `i`, then the text up to the first `e` (or the end) as a `u64`. */
  function DecodeInteger(bs: seq<u8>): (r: Decoded<u64>)
    ensures r.Ok? ==> ProperSuffix(r.value.1, bs)
    ensures |bs| == 0 || bs[0] != INT_PREFIX ==> r == Err(InvalidFormat)
    ensures r.Ok? ==> (ClosedBefore(r.value.1, bs) <==> END_SUFFIX in bs[1..])
  {
    if |bs| == 0 || bs[0] != INT_PREFIX then Err(InvalidFormat)
    else
      var (repr, rest) := CollectUpTo(bs[1..], END_SUFFIX);
      assert |rest| < |bs| && bs[|bs| - |rest|..] == rest by {
        if END_SUFFIX in bs[1..] {
          assert bs[1..] == repr + [END_SUFFIX] + rest;
          assert bs == [bs[0]] + repr + [END_SUFFIX] + rest;
        }
      }
      match ParseUtf8Bytes(repr, U64_MAX)
      case Ok(n) => Ok((n, rest))
      case Err(e) => Err(e)
  }

  /**
   `<BString as BDecode>::decode`: a decimal length up to the first `:`, then
   exactly that many raw bytes.
   */
  function DecodeBytes(bs: seq<u8>): (r: Decoded<seq<u8>>)
    requires |bs| > 0
    ensures r.Ok? ==> ProperSuffix(r.value.1, bs)
  {
    var (lenText, after) := CollectUpTo(bs, STRING_INFIX);
    CollectedLeavesSuffix(bs, STRING_INFIX);
    match ParseUtf8Bytes(lenText, USIZE_MAX)
    case Err(e) => Err(e)
    case Ok(len) =>
      if |after| < len then Err(UnexpectedEOF)
      else
        assert after[len..] == after[|after| - (|after| - len)..];
        Ok((after[..len], after[len..]))
  }

  /** What `collect_up_to` leaves unread is a proper suffix of non-empty input. */
  lemma CollectedLeavesSuffix(bs: seq<u8>, delimiter: u8)
    requires |bs| > 0
    ensures ProperSuffix(CollectUpTo(bs, delimiter).1, bs)
  {
    var (taken, rest) := CollectUpTo(bs, delimiter);
    if delimiter in bs {
      assert bs == (taken + [delimiter]) + rest;
      assert bs[|taken| + 1..] == rest;
    }
  }

  /**
   `<Entry as BDecode>::decode`: dispatch on the first byte without consuming it:
   `i` integer, `l` list, `d` dictionary, anything else a byte string; empty
   input is `InvalidFormat`.
   */
  function DecodeEntry(dictOpen: u8, bs: seq<u8>): (r: Decoded<Entry>)
    ensures r.Ok? ==> ProperSuffix(r.value.1, bs)
    ensures |bs| == 0 ==> r == Err(InvalidFormat)
    ensures r.Ok? ==> (r.value.0.Integer? <==> bs[0] == INT_PREFIX)
    ensures r.Ok? ==> (r.value.0.List? <==> bs[0] == LIST_PREFIX)
    ensures r.Ok? ==> (r.value.0.Dictionary? <==> bs[0] == DICTIONARY_PREFIX)
    decreases |bs|, 2
  {
    if |bs| == 0 then Err(InvalidFormat)
    else if bs[0] == INT_PREFIX then
      match DecodeInteger(bs)
      case Ok((n, rest)) => Ok((Integer(n), rest))
      case Err(e) => Err(e)
    else if bs[0] == LIST_PREFIX then
      match DecodeList(dictOpen, bs)
      case Ok((items, rest)) => Ok((List(items), rest))
      case Err(e) => Err(e)
    else if bs[0] == DICTIONARY_PREFIX then
      match DecodeDictionary(dictOpen, bs)
      case Ok((m, rest)) => Ok((Dictionary(m), rest))
      case Err(e) => Err(e)
    else
      match DecodeBytes(bs)
      case Ok((s, rest)) => Ok((String(s), rest))
      case Err(e) => Err(e)
  }

  /** `<BList as BDecode>::decode`: `l`, then entries until a peeked `e`, which is consumed. */
  function DecodeList(dictOpen: u8, bs: seq<u8>): (r: Decoded<seq<Entry>>)
    ensures r.Ok? ==> ProperSuffix(r.value.1, bs)
    ensures r.Ok? ==> bs[0] == LIST_PREFIX && ClosedBefore(r.value.1, bs)
    decreases |bs|, 1
  {
    if |bs| == 0 || bs[0] != LIST_PREFIX then Err(InvalidFormat)
    else
      var items := DecodeItems(dictOpen, bs[1..], []);
      assert items.Ok? ==> ProperSuffix(items.value.1, bs) && ClosedBefore(items.value.1, bs) by {
        if items.Ok? { ClosedAfter(items.value.1, bs[1..], bs); }
      }
      items
  }

  /** The item loop of the list decoder: entries up to a closing `e`, which it consumes. */
  function DecodeItems(dictOpen: u8, bs: seq<u8>, acc: seq<Entry>): (r: Decoded<seq<Entry>>)
    ensures r.Ok? ==> ProperSuffix(r.value.1, bs) && ClosedBefore(r.value.1, bs)
    decreases |bs|, 3
  {
    if |bs| == 0 then Err(UnexpectedEOF)
    else if bs[0] == END_SUFFIX then Ok((acc, bs[1..]))
    else
      match DecodeEntry(dictOpen, bs)
      case Err(e) => Err(e)
      case Ok((item, rest)) =>
        var items := DecodeItems(dictOpen, rest, acc + [item]);
        assert items.Ok? ==> ProperSuffix(items.value.1, bs) && ClosedBefore(items.value.1, bs) by {
          if items.Ok? { ClosedAfter(items.value.1, rest, bs); }
        }
        items
  }

  /**
   `<BDictionary as BDecode>::decode`: the opening byte must equal `dictOpen`
   (the source demands `l`); then key/value pairs until a peeked `e`. A key
   that repeats overwrites the earlier value.
   */
  function DecodeDictionary(dictOpen: u8, bs: seq<u8>): (r: Decoded<map<seq<u8>, Entry>>)
    ensures r.Ok? ==> ProperSuffix(r.value.1, bs)
    ensures r.Ok? ==> bs[0] == dictOpen && ClosedBefore(r.value.1, bs)
    decreases |bs|, 1
  {
    if |bs| == 0 || bs[0] != dictOpen then Err(InvalidFormat)
    else
      var pairs := DecodePairs(dictOpen, bs[1..], map[]);
      assert pairs.Ok? ==> ProperSuffix(pairs.value.1, bs) && ClosedBefore(pairs.value.1, bs) by {
        if pairs.Ok? { ClosedAfter(pairs.value.1, bs[1..], bs); }
      }
      pairs
  }

  /** The pair loop of the dictionary decoder: keys and values up to a closing `e`; a repeated key overwrites. */
  function DecodePairs(dictOpen: u8, bs: seq<u8>, acc: map<seq<u8>, Entry>): (r: Decoded<map<seq<u8>, Entry>>)
    ensures r.Ok? ==> ProperSuffix(r.value.1, bs) && ClosedBefore(r.value.1, bs)
    decreases |bs|, 3
  {
    if |bs| == 0 then Err(UnexpectedEOF)
    else if bs[0] == END_SUFFIX then Ok((acc, bs[1..]))
    else
      match DecodeBytes(bs)
      case Err(e) => Err(e)
      case Ok((key, afterKey)) =>
        match DecodeEntry(dictOpen, afterKey)
        case Err(e) => Err(e)
        case Ok((value, rest)) =>
          SuffixOfSuffix(rest, afterKey, bs);
          var pairs := DecodePairs(dictOpen, rest, acc[key := value]);
          assert pairs.Ok? ==> ProperSuffix(pairs.value.1, bs) && ClosedBefore(pairs.value.1, bs) by {
            if pairs.Ok? { ClosedAfter(pairs.value.1, rest, bs); }
          }
          pairs
  }

  /**
   `Entry::decode` as written: the dictionary decoder demands `l`, so input
   that starts with `d` is rejected and no dictionary is ever decoded.
   */
  function Decode(bs: seq<u8>): (r: Decoded<Entry>)
    ensures |bs| == 0 ==> r == Err(InvalidFormat)
    ensures |bs| > 0 && bs[0] == DICTIONARY_PREFIX ==> r == Err(InvalidFormat)
    ensures r.Ok? ==> ProperSuffix(r.value.1, bs) && !r.value.0.Dictionary?
  {
    assert |bs| > 0 && bs[0] == DICTIONARY_PREFIX ==> DecodeDictionary(LIST_PREFIX, bs) == Err(InvalidFormat);
    DecodeEntry(LIST_PREFIX, bs)
  }

  /**
   `Entry::decode` with the dictionary decoder demanding `d`, as the format
   requires: the first byte decides the kind of entry.
   */
  function DecodeIntended(bs: seq<u8>): (r: Decoded<Entry>)
    ensures |bs| == 0 ==> r == Err(InvalidFormat)
    ensures r.Ok? ==> ProperSuffix(r.value.1, bs) && (r.value.0.Dictionary? <==> bs[0] == DICTIONARY_PREFIX)
  {
    DecodeEntry(DICTIONARY_PREFIX, bs)
  }

  // ---------------------------------------------------------------------------
  // Encoding

  /**
   `BEncode` for `&Entry`. The first byte of the encoding is the one the
   decoder dispatches on.
   */
  function Encode(e: Entry): (r: seq<u8>)
    ensures |r| > 0
    ensures r[0] == INT_PREFIX <==> e.Integer?
    ensures r[0] == LIST_PREFIX <==> e.List?
    ensures r[0] == DICTIONARY_PREFIX <==> e.Dictionary?
    ensures e.String? <==> IsDigit(r[0])
    decreases e, 1
  {
    match e
    case Integer(n) => [INT_PREFIX] + Digits(n) + [END_SUFFIX]
    case String(s) => EncodeBytes(s)
    case List(items) => [LIST_PREFIX] + EncodeItems(items) + [END_SUFFIX]
    case Dictionary(m) => [DICTIONARY_PREFIX] + EncodePairs(m, SortedEntries(m)) + [END_SUFFIX]
  }

  /** `BEncode` for `&BStr`: decimal length, `:`, the raw bytes. */
  function EncodeBytes(s: seq<u8>): (r: seq<u8>)
    ensures |r| > 0 && IsDigit(r[0])
  {
    Digits(|s|) + [STRING_INFIX] + s
  }

  /** The items' encodings, one after the other. */
  function EncodeItems(items: seq<Entry>): seq<u8>
    decreases items
  {
    if |items| == 0 then [] else Encode(items[0]) + EncodeItems(items[1..])
  }

  /** The key/value pairs `ps` of `m`, in the order given. */
  function EncodePairs(m: map<seq<u8>, Entry>, ps: seq<(seq<u8>, Entry)>): seq<u8>
    requires forall i :: 0 <= i < |ps| ==> ps[i].0 in m && m[ps[i].0] == ps[i].1
    decreases Dictionary(m), 0, |ps|
  {
    if |ps| == 0 then []
    else
      assert ps[0].1 == m[ps[0].0];
      EncodeBytes(ps[0].0) + Encode(ps[0].1) + EncodePairs(m, ps[1..])
  }

  /**
   `BEncode` for `&mut [(&K, &Entry)]`, reached from `&BDictionary` by
   collecting the map's entries in its iteration order `ps`: sort by key,
   then `d`, the pairs, `e`.
   */
  function EncodeKeyValueEntries(m: map<seq<u8>, Entry>, ps: seq<(seq<u8>, Entry)>): seq<u8>
    requires Enumerates(ps, m)
  {
    var sorted := SortKeyValueEntries(ps);
    assert forall i :: 0 <= i < |sorted| ==> sorted[i] in multiset(ps);
    [DICTIONARY_PREFIX] + EncodePairs(m, sorted) + [END_SUFFIX]
  }

  // ---------------------------------------------------------------------------
  // Typed conversions (`TryFrom<Entry>`): the original entry comes back on a mismatch.

  function AsDictionary(e: Entry): (r: Result<map<seq<u8>, Entry>, Entry>)
    ensures r.Ok? <==> e.Dictionary?
    ensures r.Ok? ==> e == Dictionary(r.value)
    ensures r.Err? ==> r.error == e
  {
    if e.Dictionary? then Ok(e.dict) else Err(e)
  }

  /** `TryFrom<Entry>` for a list. */
  function AsList(e: Entry): (r: Result<seq<Entry>, Entry>)
    ensures r.Ok? <==> e.List?
    ensures r.Ok? ==> e == List(r.value)
    ensures r.Err? ==> r.error == e
  {
    if e.List? then Ok(e.items) else Err(e)
  }

  /** `TryFrom<Entry>` for a byte string. */
  function AsBytes(e: Entry): (r: Result<seq<u8>, Entry>)
    ensures r.Ok? <==> e.String?
    ensures r.Ok? ==> e == String(r.value)
    ensures r.Err? ==> r.error == e
  {
    if e.String? then Ok(e.bytes) else Err(e)
  }

  /** `TryFrom<Entry>` for an integer. */
  function AsInteger(e: Entry): (r: Result<u64, Entry>)
    ensures r.Ok? <==> e.Integer?
    ensures r.Ok? ==> e == Integer(r.value)
    ensures r.Err? ==> r.error == e
  {
    if e.Integer? then Ok(e.value) else Err(e)
  }

  /** `TryFrom<Entry> for String`: a byte string that is also valid UTF-8. */
  function AsText(e: Entry): (r: Result<Text, Entry>)
    ensures r.Ok? <==> e.String? && ValidUtf8(e.bytes)
    ensures r.Ok? ==> e == String(r.value)
    ensures r.Err? ==> r.error == e
  {
    match AsBytes(e)
    case Err(original) => Err(original)
    case Ok(bytes) => if ValidUtf8(bytes) then Ok(bytes) else Err(String(bytes))
  }
}
