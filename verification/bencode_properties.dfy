/**
 What the bencode codec guarantees, and where it falls short.

 The round trip is proved for the decoder family as a whole (any `dictOpen`)
 and then read off twice: with the dictionary prefix the format uses (`d`)
 every well-sized entry decodes back from its encoding; as written (`l`)
 exactly the entries that contain no dictionary do.
 */
module BencodeProperties {
  import opened Bytes
  import opened Wrappers
  import opened Decimal
  import opened LexOrder
  import opened Bencode

  /** Every byte-string length and key length fits the `usize` the length prefix is parsed as. */
  ghost predicate WellSized(e: Entry) {
    match e
    case Integer(_) => true
    case String(s) => |s| <= USIZE_MAX
    case List(items) => forall i :: 0 <= i < |items| ==> WellSized(items[i])
    case Dictionary(m) => forall k :: k in m ==> |k| <= USIZE_MAX && WellSized(m[k])
  }

  /** No dictionary occurs anywhere inside `e`. */
  ghost predicate DictionaryFree(e: Entry) {
    match e
    case Integer(_) => true
    case String(_) => true
    case List(items) => forall i :: 0 <= i < |items| ==> DictionaryFree(items[i])
    case Dictionary(_) => false
  }

  // ---------------------------------------------------------------------------
  // Sequence steps, proved once away from the decoder definitions

  /** The first element of `[x] + body + tail`, and what follows it. */
  lemma AfterHead<T>(x: T, body: seq<T>, tail: seq<T>)
    ensures ([x] + body + tail)[0] == x
    ensures ([x] + body + tail)[1..] == body + tail
  {
  }

  /** Inserting the same key twice keeps the later value. */
  lemma OverwriteKey<K, V>(k: K, v1: V, v2: V)
    ensures map[k := v1][k := v2] == map[k := v2]
  {
  }

  /** The empty map is a left unit of map union. */
  lemma EmptyUnion<K, V>(m: map<K, V>)
    ensures map[] + m == m
  {
  }

  /** Moving the first item onto the accumulator keeps the concatenation. */
  lemma ConsSplit<T>(acc: seq<T>, items: seq<T>)
    requires |items| > 0
    ensures acc + [items[0]] + items[1..] == acc + items
  {
  }

  // ---------------------------------------------------------------------------
  // Scalars

  /** `collect_up_to` stops at the first delimiter and drops it. */
  lemma {:induction false} CollectUpToDelimited(pre: seq<u8>, d: u8, post: seq<u8>)
    requires d !in pre
    ensures CollectUpTo(pre + [d] + post, d) == (pre, post)
    decreases |pre|
  {
    var bs := pre + [d] + post;
    if |pre| == 0 {
      assert bs == [d] + post;
    } else {
      assert bs[0] == pre[0];
      assert bs[1..] == pre[1..] + [d] + post;
      CollectUpToDelimited(pre[1..], d, post);
      assert [pre[0]] + pre[1..] == pre;
    }
  }

  /** A decimal numeral holds neither the `e` nor the `:` delimiter. */
  lemma DigitsHaveNoDelimiter(n: nat)
    ensures END_SUFFIX !in Digits(n) && STRING_INFIX !in Digits(n)
  {
    var ds := Digits(n);
    forall i | 0 <= i < |ds| ensures ds[i] != END_SUFFIX && ds[i] != STRING_INFIX {
      assert IsDigit(ds[i]);
    }
  }

  /** The integer decoder on `i` followed by a body whose digits parse. */
  lemma IntegerStep(body: seq<u8>, n: u64, rest: seq<u8>)
    requires CollectUpTo(body, END_SUFFIX).1 == rest
    requires ParseUnsigned(CollectUpTo(body, END_SUFFIX).0, U64_MAX) == Some(n)
    ensures DecodeInteger([INT_PREFIX] + body) == Ok((n, rest))
  {
    assert ([INT_PREFIX] + body)[1..] == body;
  }

  /** `i<n>e` decodes to `n` and leaves what follows. */
  lemma IntegerRoundTrip(n: u64, tail: seq<u8>)
    ensures DecodeInteger(Encode(Integer(n)) + tail) == Ok((n, tail))
  {
    var ds := Digits(n);
    assert Encode(Integer(n)) == [INT_PREFIX] + ds + [END_SUFFIX];
    Bracket(INT_PREFIX, ds, END_SUFFIX, tail);
    DigitsHaveNoDelimiter(n);
    CollectUpToDelimited(ds, END_SUFFIX, tail);
    assert ds + [END_SUFFIX] + tail == ds + ([END_SUFFIX] + tail);
    DigitsRoundTrip(n, U64_MAX);
    IntegerStep(ds + ([END_SUFFIX] + tail), n, tail);
  }

  /** `<len>:<bytes>` decodes to the bytes and leaves what follows. */
  lemma BytesRoundTrip(s: seq<u8>, tail: seq<u8>)
    requires |s| <= USIZE_MAX
    ensures DecodeBytes(EncodeBytes(s) + tail) == Ok((s, tail))
  {
    var bs := EncodeBytes(s) + tail;
    assert bs == Digits(|s|) + [STRING_INFIX] + (s + tail);
    DigitsHaveNoDelimiter(|s|);
    CollectUpToDelimited(Digits(|s|), STRING_INFIX, s + tail);
    DigitsRoundTrip(|s|, USIZE_MAX);
    assert (s + tail)[..|s|] == s && (s + tail)[|s|..] == tail;
  }

  /** An integer without its closing `e` runs to the end of the input, and still decodes. */
  lemma UnterminatedIntegerReadsToEnd(n: u64)
    ensures DecodeInteger([INT_PREFIX] + Digits(n)) == Ok((n, []))
  {
    var bs := [INT_PREFIX] + Digits(n);
    assert bs[1..] == Digits(n);
    DigitsHaveNoDelimiter(n);
    DigitsRoundTrip(n, U64_MAX);
  }

  /** A negative integer is `InvalidValue`: a `u64` has no sign. */
  lemma NegativeIntegerRejected(bs: seq<u8>)
    ensures DecodeInteger([INT_PREFIX, MINUS] + bs) == Err(InvalidValue)
  {
    var input := [INT_PREFIX, MINUS] + bs;
    assert input[1..] == [MINUS] + bs;
    assert ([MINUS] + bs)[1..] == bs;
    var digits := CollectUpTo(bs, END_SUFFIX).0;
    assert CollectUpTo(input[1..], END_SUFFIX).0 == [MINUS] + digits;
    MinusSignRejected(digits, U64_MAX);
  }

  /** A byte string shorter than its length prefix is `UnexpectedEOF`. */
  lemma TruncatedBytesRejected(n: nat, s: seq<u8>)
    requires |s| < n <= USIZE_MAX
    ensures DecodeBytes(Digits(n) + [STRING_INFIX] + s) == Err(UnexpectedEOF)
  {
    DigitsHaveNoDelimiter(n);
    CollectUpToDelimited(Digits(n), STRING_INFIX, s);
    DigitsRoundTrip(n, USIZE_MAX);
  }

  /** Integer text that is empty or not an unsigned 64-bit number is `InvalidValue`. */
  lemma InvalidIntegerTextRejected(dictOpen: u8, body: seq<u8>)
    requires ParseUnsigned(CollectUpTo(body, END_SUFFIX).0, U64_MAX).None?
    ensures DecodeEntry(dictOpen, [INT_PREFIX] + body) == Err(InvalidValue)
  {
    assert ([INT_PREFIX] + body)[1..] == body;
  }

  /** `ie`, an integer with no digits, is `InvalidValue`. */
  lemma EmptyIntegerRejected(dictOpen: u8, tail: seq<u8>)
    ensures DecodeEntry(dictOpen, [INT_PREFIX, END_SUFFIX] + tail) == Err(InvalidValue)
  {
    assert [INT_PREFIX, END_SUFFIX] + tail == [INT_PREFIX] + ([END_SUFFIX] + tail);
    CollectUpToDelimited([], END_SUFFIX, tail);
    assert [] + [END_SUFFIX] + tail == [END_SUFFIX] + tail;
    InvalidIntegerTextRejected(dictOpen, [END_SUFFIX] + tail);
  }

  /**
   Input that starts with none of `i`, `l`, `d` is read as a byte string; when
   the text before its first `:` is not a `usize` length, it is `InvalidValue`.
   */
  lemma InvalidLengthPrefixRejected(dictOpen: u8, bs: seq<u8>)
    requires |bs| > 0 && bs[0] != INT_PREFIX && bs[0] != LIST_PREFIX && bs[0] != DICTIONARY_PREFIX
    requires ParseUnsigned(CollectUpTo(bs, STRING_INFIX).0, USIZE_MAX).None?
    ensures DecodeEntry(dictOpen, bs) == Err(InvalidValue)
  {
  }

  // ---------------------------------------------------------------------------
  // Round trip

  /** Inserting `ps` into `acc` one after the other, later pairs overwriting earlier ones. */
  ghost function FoldInsert(acc: map<seq<u8>, Entry>, ps: seq<(seq<u8>, Entry)>): map<seq<u8>, Entry>
    decreases |ps|
  {
    if |ps| == 0 then acc else FoldInsert(acc[ps[0].0 := ps[0].1], ps[1..])
  }

  /** Inserting a listing of `m` into `acc` yields `acc` updated with `m`. */
  lemma {:induction false} FoldInsertEnumeration(acc: map<seq<u8>, Entry>, ps: seq<(seq<u8>, Entry)>, m: map<seq<u8>, Entry>)
    requires Enumerates(ps, m)
    ensures FoldInsert(acc, ps) == acc + m
    decreases |ps|
  {
    if |ps| == 0 {
      assert m.Keys == {};
      assert m == map[];
    } else {
      var (k, v) := ps[0];
      EnumeratesTail(ps, m);
      FoldInsertEnumeration(acc[k := v], ps[1..], m - {k});
      assert acc[k := v] + (m - {k}) == acc + m;
    }
  }

  // One unfolding of the decoders each, so that the proofs below never unfold them.

  /** No encoding starts with the `e` that closes a container. */
  lemma NoEncodingStartsWithEnd(e: Entry)
    ensures Encode(e)[0] != END_SUFFIX
  {
  }

  /** The entry decoder on `l` hands the rest to the item loop and wraps its items in a list. */
  lemma ListStep(dictOpen: u8, body: seq<u8>, items: seq<Entry>, rest: seq<u8>)
    requires DecodeItems(dictOpen, body, []) == Ok((items, rest))
    ensures DecodeEntry(dictOpen, [LIST_PREFIX] + body) == Ok((List(items), rest))
  {
    assert ([LIST_PREFIX] + body)[1..] == body;
  }

  /** The entry decoder on `l` fails when the item loop fails. */
  lemma ListFailStep(dictOpen: u8, body: seq<u8>)
    requires DecodeItems(dictOpen, body, []).Err?
    ensures DecodeEntry(dictOpen, [LIST_PREFIX] + body).Err?
  {
    assert ([LIST_PREFIX] + body)[1..] == body;
  }

  /** The entry decoder on `d`, with the `d` prefix, hands the rest to the pair loop and wraps its map. */
  lemma DictionaryStep(body: seq<u8>, m: map<seq<u8>, Entry>, rest: seq<u8>)
    requires DecodePairs(DICTIONARY_PREFIX, body, map[]) == Ok((m, rest))
    ensures DecodeEntry(DICTIONARY_PREFIX, [DICTIONARY_PREFIX] + body) == Ok((Dictionary(m), rest))
  {
    assert ([DICTIONARY_PREFIX] + body)[1..] == body;
  }

  /** The item loop stops at `e` with the items gathered so far. */
  lemma ItemsEndStep(dictOpen: u8, tail: seq<u8>, acc: seq<Entry>)
    ensures DecodeItems(dictOpen, [END_SUFFIX] + tail, acc) == Ok((acc, tail))
  {
    assert ([END_SUFFIX] + tail)[1..] == tail;
  }

  /** The item loop appends one decoded entry and goes on after it. */
  lemma ItemsStep(dictOpen: u8, bs: seq<u8>, item: Entry, rest: seq<u8>, acc: seq<Entry>)
    requires |bs| > 0 && bs[0] != END_SUFFIX
    requires DecodeEntry(dictOpen, bs) == Ok((item, rest))
    ensures DecodeItems(dictOpen, bs, acc) == DecodeItems(dictOpen, rest, acc + [item])
  {
  }

  /** The item loop fails when an item fails to decode. */
  lemma ItemsFailStep(dictOpen: u8, bs: seq<u8>, acc: seq<Entry>)
    requires |bs| > 0 && bs[0] != END_SUFFIX
    requires DecodeEntry(dictOpen, bs).Err?
    ensures DecodeItems(dictOpen, bs, acc).Err?
  {
  }

  /** The pair loop stops at `e` with the map gathered so far. */
  lemma PairsEndStep(dictOpen: u8, tail: seq<u8>, acc: map<seq<u8>, Entry>)
    ensures DecodePairs(dictOpen, [END_SUFFIX] + tail, acc) == Ok((acc, tail))
  {
    assert ([END_SUFFIX] + tail)[1..] == tail;
  }

  /** The pair loop inserts one decoded key and value and goes on after them. */
  lemma PairsStep(
    dictOpen: u8, bs: seq<u8>, key: seq<u8>, afterKey: seq<u8>, value: Entry, rest: seq<u8>,
    acc: map<seq<u8>, Entry>)
    requires |bs| > 0 && bs[0] != END_SUFFIX
    requires DecodeBytes(bs) == Ok((key, afterKey))
    requires DecodeEntry(dictOpen, afterKey) == Ok((value, rest))
    ensures DecodePairs(dictOpen, bs, acc) == DecodePairs(dictOpen, rest, acc[key := value])
  {
  }

  // How the encodings are laid out, one unfolding of the encoder each.

  /** A list's encoding is `l`, its items, then `e`. */
  lemma ListLayout(items: seq<Entry>, tail: seq<u8>)
    ensures Encode(List(items)) + tail == [LIST_PREFIX] + (EncodeItems(items) + ([END_SUFFIX] + tail))
  {
    assert Encode(List(items)) == [LIST_PREFIX] + EncodeItems(items) + [END_SUFFIX];
    Bracket(LIST_PREFIX, EncodeItems(items), END_SUFFIX, tail);
  }

  /** A dictionary's encoding is `d`, its pairs in key order, then `e`. */
  lemma DictionaryLayout(m: map<seq<u8>, Entry>, tail: seq<u8>)
    ensures Encode(Dictionary(m)) + tail
         == [DICTIONARY_PREFIX] + (EncodePairs(m, SortedEntries(m)) + ([END_SUFFIX] + tail))
  {
    var body := EncodePairs(m, SortedEntries(m));
    assert Encode(Dictionary(m)) == [DICTIONARY_PREFIX] + body + [END_SUFFIX];
    Bracket(DICTIONARY_PREFIX, body, END_SUFFIX, tail);
  }

  /** The items' encoding is the first item's, then the others'. */
  lemma ItemsLayout(items: seq<Entry>, tail: seq<u8>)
    requires |items| > 0
    ensures EncodeItems(items) + tail == Encode(items[0]) + (EncodeItems(items[1..]) + tail)
  {
  }

  /** The pairs' encoding is the first key's and value's, then the others'. */
  lemma PairsLayout(m: map<seq<u8>, Entry>, ps: seq<(seq<u8>, Entry)>, tail: seq<u8>)
    requires forall i :: 0 <= i < |ps| ==> ps[i].0 in m && m[ps[i].0] == ps[i].1
    requires |ps| > 0
    ensures EncodePairs(m, ps) + tail
         == EncodeBytes(ps[0].0) + (Encode(ps[0].1) + (EncodePairs(m, ps[1..]) + tail))
  {
  }

  /** Regrouping a bracketed body followed by a tail. */
  lemma Bracket<T>(x: T, body: seq<T>, y: T, tail: seq<T>)
    ensures [x] + body + [y] + tail == [x] + (body + ([y] + tail))
  {
  }

  /** Regrouping a bracketed four-part body followed by a tail. */
  lemma FiveParts<T>(x: T, a: seq<T>, b: seq<T>, c: seq<T>, d: seq<T>, y: T, t: seq<T>)
    ensures [x] + a + b + c + d + [y] + t == [x] + (a + (b + (c + (d + ([y] + t)))))
  {
  }

  /**
   Encoding followed by decoding gives the entry back and leaves the rest of
   the input untouched, for every decoder that accepts the dictionaries
   occurring in `e`.
   */
  lemma {:induction false} EntryRoundTrip(dictOpen: u8, e: Entry, tail: seq<u8>)
    requires WellSized(e)
    requires dictOpen == DICTIONARY_PREFIX || DictionaryFree(e)
    ensures DecodeEntry(dictOpen, Encode(e) + tail) == Ok((e, tail))
    decreases e, 3
  {
    match e
    case Integer(n) =>
      IntegerRoundTrip(n, tail);
    case String(s) =>
      BytesRoundTrip(s, tail);
    case List(items) =>
      ListRoundTrip(dictOpen, items, tail);
    case Dictionary(m) =>
      DictionaryRoundTrip(m, tail);
  }

  /** A list's encoding decodes back to the list and leaves the tail. */
  lemma {:induction false} ListRoundTrip(dictOpen: u8, items: seq<Entry>, tail: seq<u8>)
    requires WellSized(List(items))
    requires dictOpen == DICTIONARY_PREFIX || DictionaryFree(List(items))
    ensures DecodeEntry(dictOpen, Encode(List(items)) + tail) == Ok((List(items), tail))
    decreases List(items), 2
  {
    var body := EncodeItems(items) + ([END_SUFFIX] + tail);
    assert Encode(List(items)) + tail == [LIST_PREFIX] + body by { ListLayout(items, tail); }
    assert DecodeItems(dictOpen, body, []) == Ok((items, tail)) by {
      assert forall i :: 0 <= i < |items| ==> WellSized(items[i]);
      assert forall i :: 0 <= i < |items| ==> dictOpen == DICTIONARY_PREFIX || DictionaryFree(items[i]);
      ItemsRoundTrip(dictOpen, items, [], tail);
      assert [] + items == items;
    }
    ListStep(dictOpen, body, items, tail);
  }

  /** With the `d` prefix, a dictionary's encoding decodes back to the dictionary and leaves the tail. */
  lemma {:induction false} DictionaryRoundTrip(m: map<seq<u8>, Entry>, tail: seq<u8>)
    requires WellSized(Dictionary(m))
    ensures DecodeEntry(DICTIONARY_PREFIX, Encode(Dictionary(m)) + tail) == Ok((Dictionary(m), tail))
    decreases Dictionary(m), 2
  {
    var ps := SortedEntries(m);
    var body := EncodePairs(m, ps) + ([END_SUFFIX] + tail);
    DictionaryLayout(m, tail);
    PairsDecodeToMap(m, tail);
    DictionaryStep(body, m, tail);
  }

  /** The pair loop over a dictionary's sorted pairs rebuilds the dictionary. */
  lemma {:induction false} PairsDecodeToMap(m: map<seq<u8>, Entry>, tail: seq<u8>)
    requires WellSized(Dictionary(m))
    ensures DecodePairs(DICTIONARY_PREFIX, EncodePairs(m, SortedEntries(m)) + ([END_SUFFIX] + tail), map[])
         == Ok((m, tail))
    decreases Dictionary(m), 1
  {
    var ps := SortedEntries(m);
    PairsRoundTrip(m, ps, map[], tail);
    FoldInsertEnumeration(map[], ps, m);
    EmptyUnion(m);
  }

  /** The item loop decodes an encoded item and goes on right after it. */
  lemma {:induction false} ItemHead(dictOpen: u8, item: Entry, rest: seq<u8>, acc: seq<Entry>)
    requires WellSized(item) && (dictOpen == DICTIONARY_PREFIX || DictionaryFree(item))
    ensures DecodeItems(dictOpen, Encode(item) + rest, acc) == DecodeItems(dictOpen, rest, acc + [item])
    decreases item, 4
  {
    EntryRoundTrip(dictOpen, item, rest);
    NoEncodingStartsWithEnd(item);
    ItemsStep(dictOpen, Encode(item) + rest, item, rest, acc);
  }

  /** The item loop over encoded items and a closing `e` appends exactly those items. */
  lemma {:induction false} ItemsRoundTrip(dictOpen: u8, items: seq<Entry>, acc: seq<Entry>, tail: seq<u8>)
    requires forall i :: 0 <= i < |items| ==> WellSized(items[i])
    requires forall i :: 0 <= i < |items| ==> dictOpen == DICTIONARY_PREFIX || DictionaryFree(items[i])
    ensures DecodeItems(dictOpen, EncodeItems(items) + ([END_SUFFIX] + tail), acc) == Ok((acc + items, tail))
    decreases items
  {
    if |items| == 0 {
      assert EncodeItems(items) + ([END_SUFFIX] + tail) == [END_SUFFIX] + tail;
      ItemsEndStep(dictOpen, tail, acc);
      assert acc + items == acc;
    } else {
      ItemsLayout(items, [END_SUFFIX] + tail);
      ItemHead(dictOpen, items[0], EncodeItems(items[1..]) + ([END_SUFFIX] + tail), acc);
      ItemsRoundTrip(dictOpen, items[1..], acc + [items[0]], tail);
      ConsSplit(acc, items);
    }
  }

  /** The pair loop decodes an encoded key and value and goes on right after them. */
  lemma {:induction false} PairHead(k: seq<u8>, v: Entry, rest: seq<u8>, acc: map<seq<u8>, Entry>)
    requires |k| <= USIZE_MAX && WellSized(v)
    ensures DecodePairs(DICTIONARY_PREFIX, EncodeBytes(k) + (Encode(v) + rest), acc)
         == DecodePairs(DICTIONARY_PREFIX, rest, acc[k := v])
    decreases v, 4
  {
    BytesRoundTrip(k, Encode(v) + rest);
    EntryRoundTrip(DICTIONARY_PREFIX, v, rest);
    PairsStep(DICTIONARY_PREFIX, EncodeBytes(k) + (Encode(v) + rest), k, Encode(v) + rest, v, rest, acc);
  }

  /** The pair loop over encoded pairs and a closing `e` inserts exactly those pairs. */
  lemma {:induction false} PairsRoundTrip(
    m: map<seq<u8>, Entry>, ps: seq<(seq<u8>, Entry)>, acc: map<seq<u8>, Entry>, tail: seq<u8>)
    requires WellSized(Dictionary(m))
    requires forall i :: 0 <= i < |ps| ==> ps[i].0 in m && m[ps[i].0] == ps[i].1
    ensures DecodePairs(DICTIONARY_PREFIX, EncodePairs(m, ps) + ([END_SUFFIX] + tail), acc)
         == Ok((FoldInsert(acc, ps), tail))
    decreases Dictionary(m), 0, |ps|
  {
    if |ps| == 0 {
      assert EncodePairs(m, ps) + ([END_SUFFIX] + tail) == [END_SUFFIX] + tail;
      PairsEndStep(DICTIONARY_PREFIX, tail, acc);
    } else {
      var (k, v) := ps[0];
      assert v == m[k] && |k| <= USIZE_MAX && WellSized(v);
      PairsLayout(m, ps, [END_SUFFIX] + tail);
      PairHead(k, v, EncodePairs(m, ps[1..]) + ([END_SUFFIX] + tail), acc);
      PairsRoundTrip(m, ps[1..], acc[k := v], tail);
    }
  }

  /** With the dictionary prefix the format uses, decoding inverts encoding for every entry. */
  lemma DecodeIntendedInvertsEncode(e: Entry, tail: seq<u8>)
    requires WellSized(e)
    ensures DecodeIntended(Encode(e) + tail) == Ok((e, tail))
  {
    EntryRoundTrip(DICTIONARY_PREFIX, e, tail);
  }

  /** As written, decoding still inverts encoding for entries without dictionaries. */
  lemma DecodeInvertsEncodeWithoutDictionaries(e: Entry, tail: seq<u8>)
    requires WellSized(e) && DictionaryFree(e)
    ensures Decode(Encode(e) + tail) == Ok((e, tail))
  {
    EntryRoundTrip(LIST_PREFIX, e, tail);
  }

  // ---------------------------------------------------------------------------
  // Unterminated containers

  /** The entry decoder on `l` passes the item loop's error on. */
  lemma ListErrStep(dictOpen: u8, body: seq<u8>, e: Error)
    requires DecodeItems(dictOpen, body, []) == Err(e)
    ensures DecodeEntry(dictOpen, [LIST_PREFIX] + body) == Err(e)
  {
    assert ([LIST_PREFIX] + body)[1..] == body;
  }

  /** The entry decoder on `d`, with the `d` prefix, passes the pair loop's error on. */
  lemma DictionaryErrStep(body: seq<u8>, e: Error)
    requires DecodePairs(DICTIONARY_PREFIX, body, map[]) == Err(e)
    ensures DecodeEntry(DICTIONARY_PREFIX, [DICTIONARY_PREFIX] + body) == Err(e)
  {
    assert ([DICTIONARY_PREFIX] + body)[1..] == body;
  }

  /** The item loop over encoded items that run to the end of the input is `UnexpectedEOF`. */
  lemma {:induction false} ItemsUnterminated(dictOpen: u8, items: seq<Entry>, acc: seq<Entry>)
    requires forall i :: 0 <= i < |items| ==> WellSized(items[i])
    requires forall i :: 0 <= i < |items| ==> dictOpen == DICTIONARY_PREFIX || DictionaryFree(items[i])
    ensures DecodeItems(dictOpen, EncodeItems(items), acc) == Err(UnexpectedEOF)
    decreases |items|
  {
    if |items| == 0 {
      assert EncodeItems(items) == [];
    } else {
      var rest := EncodeItems(items[1..]);
      ItemsLayout(items, []);
      assert EncodeItems(items) + [] == EncodeItems(items) && rest + [] == rest;
      ItemHead(dictOpen, items[0], rest, acc);
      ItemsUnterminated(dictOpen, items[1..], acc + [items[0]]);
    }
  }

  /** A list whose items run to the end of the input without a closing `e` is `UnexpectedEOF`. */
  lemma UnterminatedListRejected(dictOpen: u8, items: seq<Entry>)
    requires WellSized(List(items))
    requires dictOpen == DICTIONARY_PREFIX || DictionaryFree(List(items))
    ensures DecodeEntry(dictOpen, [LIST_PREFIX] + EncodeItems(items)) == Err(UnexpectedEOF)
  {
    ItemsUnterminated(dictOpen, items, []);
    ListErrStep(dictOpen, EncodeItems(items), UnexpectedEOF);
  }

  /** The pair loop over encoded pairs that run to the end of the input is `UnexpectedEOF`. */
  lemma {:induction false} PairsUnterminated(
    m: map<seq<u8>, Entry>, ps: seq<(seq<u8>, Entry)>, acc: map<seq<u8>, Entry>)
    requires WellSized(Dictionary(m))
    requires forall i :: 0 <= i < |ps| ==> ps[i].0 in m && m[ps[i].0] == ps[i].1
    ensures DecodePairs(DICTIONARY_PREFIX, EncodePairs(m, ps), acc) == Err(UnexpectedEOF)
    decreases |ps|
  {
    if |ps| == 0 {
      assert EncodePairs(m, ps) == [];
    } else {
      var (k, v) := ps[0];
      assert v == m[k] && |k| <= USIZE_MAX && WellSized(v);
      var rest := EncodePairs(m, ps[1..]);
      PairsLayout(m, ps, []);
      assert EncodePairs(m, ps) + [] == EncodePairs(m, ps) && rest + [] == rest;
      PairHead(k, v, rest, acc);
      PairsUnterminated(m, ps[1..], acc[k := v]);
    }
  }

  /** With the `d` prefix, a dictionary whose pairs run to the end of the input is `UnexpectedEOF`. */
  lemma UnterminatedDictionaryRejected(m: map<seq<u8>, Entry>)
    requires WellSized(Dictionary(m))
    ensures DecodeIntended([DICTIONARY_PREFIX] + EncodePairs(m, SortedEntries(m))) == Err(UnexpectedEOF)
  {
    var body := EncodePairs(m, SortedEntries(m));
    PairsUnterminated(m, SortedEntries(m), map[]);
    DictionaryErrStep(body, UnexpectedEOF);
  }

  // ---------------------------------------------------------------------------
  // The dictionary prefix as written

  /** As written, no input that starts with `d` decodes: the dictionary decoder wants `l`. */
  lemma DecodeRejectsEveryDictionary(bs: seq<u8>)
    requires |bs| > 0 && bs[0] == DICTIONARY_PREFIX
    ensures Decode(bs) == Err(InvalidFormat)
  {
    assert DecodeDictionary(LIST_PREFIX, bs) == Err(InvalidFormat);
  }

  /** As written, the encoding of an entry decodes exactly when the entry holds no dictionary. */
  lemma DecodeSucceedsIffDictionaryFree(e: Entry, tail: seq<u8>)
    requires WellSized(e)
    ensures Decode(Encode(e) + tail).Ok? <==> DictionaryFree(e)
  {
    if DictionaryFree(e) {
      EntryRoundTrip(LIST_PREFIX, e, tail);
    } else {
      EntryFailsOnDictionary(e, tail);
    }
  }

  /** As written, the encoding of an entry holding a dictionary does not decode. */
  lemma {:induction false} EntryFailsOnDictionary(e: Entry, tail: seq<u8>)
    requires WellSized(e) && !DictionaryFree(e)
    ensures DecodeEntry(LIST_PREFIX, Encode(e) + tail).Err?
    decreases e, 1
  {
    match e
    case List(items) =>
      var body := EncodeItems(items) + ([END_SUFFIX] + tail);
      ListLayout(items, tail);
      ItemsFailOnDictionary(items, [], [END_SUFFIX] + tail);
      ListFailStep(LIST_PREFIX, body);
    case Dictionary(_) =>
      DecodeRejectsEveryDictionary(Encode(e) + tail);
  }

  /** As written, the item loop fails when one of the encoded items holds a dictionary. */
  lemma {:induction false} ItemsFailOnDictionary(items: seq<Entry>, acc: seq<Entry>, tail: seq<u8>)
    requires forall i :: 0 <= i < |items| ==> WellSized(items[i])
    requires exists i :: 0 <= i < |items| && !DictionaryFree(items[i])
    ensures DecodeItems(LIST_PREFIX, EncodeItems(items) + tail, acc).Err?
    decreases items
  {
    var rest := EncodeItems(items[1..]) + tail;
    ItemsLayout(items, tail);
    if DictionaryFree(items[0]) {
      ItemHead(LIST_PREFIX, items[0], rest, acc);
      var i :| 0 <= i < |items| && !DictionaryFree(items[i]);
      assert items[1..][i - 1] == items[i];
      ItemsFailOnDictionary(items[1..], acc + [items[0]], tail);
    } else {
      EntryFailsOnDictionary(items[0], rest);
      NoEncodingStartsWithEnd(items[0]);
      ItemsFailStep(LIST_PREFIX, Encode(items[0]) + rest, acc);
    }
  }

  /** The as-written dictionary decoder, reached directly, takes an `l`-prefixed body as a dictionary. */
  lemma DictionaryDecoderTakesListPrefix(k: seq<u8>, v: Entry)
    requires |k| <= USIZE_MAX && WellSized(v) && DictionaryFree(v)
    ensures DecodeDictionary(LIST_PREFIX, [LIST_PREFIX] + EncodeBytes(k) + Encode(v) + [END_SUFFIX])
         == Ok((map[k := v], []))
  {
    var rest := [END_SUFFIX];
    var bs := EncodeBytes(k) + (Encode(v) + rest);
    assert [LIST_PREFIX] + EncodeBytes(k) + Encode(v) + [END_SUFFIX] == [LIST_PREFIX] + bs;
    assert ([LIST_PREFIX] + bs)[1..] == bs;
    BytesRoundTrip(k, Encode(v) + rest);
    EntryRoundTrip(LIST_PREFIX, v, rest);
    PairsStep(LIST_PREFIX, bs, k, Encode(v) + rest, v, rest, map[]);
    PairsEndStep(LIST_PREFIX, [], map[k := v]);
    assert rest == [END_SUFFIX] + [];
  }

  // ---------------------------------------------------------------------------
  // Dictionaries

  /** A key that repeats keeps the value that comes last. */
  lemma RepeatedKeyLastValueWins(k: seq<u8>, v1: Entry, v2: Entry, tail: seq<u8>)
    requires |k| <= USIZE_MAX && WellSized(v1) && WellSized(v2)
    ensures DecodeIntended([DICTIONARY_PREFIX] + EncodeBytes(k) + Encode(v1) + EncodeBytes(k) + Encode(v2) + [END_SUFFIX] + tail)
         == Ok((Dictionary(map[k := v2]), tail))
  {
    var r2 := [END_SUFFIX] + tail;
    var b2 := EncodeBytes(k) + (Encode(v2) + r2);
    var b1 := EncodeBytes(k) + (Encode(v1) + b2);
    FiveParts(DICTIONARY_PREFIX, EncodeBytes(k), Encode(v1), EncodeBytes(k), Encode(v2), END_SUFFIX, tail);
    BytesRoundTrip(k, Encode(v1) + b2);
    EntryRoundTrip(DICTIONARY_PREFIX, v1, b2);
    PairsStep(DICTIONARY_PREFIX, b1, k, Encode(v1) + b2, v1, b2, map[]);
    BytesRoundTrip(k, Encode(v2) + r2);
    EntryRoundTrip(DICTIONARY_PREFIX, v2, r2);
    PairsStep(DICTIONARY_PREFIX, b2, k, Encode(v2) + r2, v2, r2, map[k := v1]);
    PairsEndStep(DICTIONARY_PREFIX, tail, map[k := v1][k := v2]);
    OverwriteKey(k, v1, v2);
    DictionaryStep(b1, map[k := v2], tail);
  }

  /**
   Encoding a dictionary from its entries in any iteration order gives the
   same bytes: keys are written in ascending byte order.
   */
  lemma DictionaryEncodingIsCanonical(m: map<seq<u8>, Entry>, ps: seq<(seq<u8>, Entry)>)
    requires Enumerates(ps, m)
    ensures EncodeKeyValueEntries(m, ps) == Encode(Dictionary(m))
  {
    SortIsCanonical(ps, m);
  }
}
