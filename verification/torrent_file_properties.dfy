/**
 What the metainfo mapping guarantees: a reference encoding of each typed
 value as the dictionary a `.torrent` file carries, the round trip from it,
 which dictionaries are accepted at all, which error is reported first, and
 how the announce list is filtered.
 */
module TorrentFileProperties {
  import opened Bytes
  import opened Wrappers
  import opened Utf8
  import opened Bencode
  import opened TorrentFile

  // ---------------------------------------------------------------------------
  // Key distinctness

  /** The keys of a file dictionary differ. */
  lemma FileKeysDistinct()
    ensures Key(PATH) != Key(LENGTH) && Key(PATH) != Key(MD5SUM) && Key(LENGTH) != Key(MD5SUM)
  {
    KeyHead(LENGTH); KeyHead(MD5SUM);
  }

  // ---------------------------------------------------------------------------
  // A reference encoding of the typed values

  /** Texts as byte-string entries. */
  function Texts(ts: seq<Text>): seq<Entry> {
    seq(|ts|, i requires 0 <= i < |ts| => String(ts[i]))
  }

  /** Announce tiers as lists of byte strings. */
  function TierEntries(tiers: seq<seq<Text>>): seq<Entry> {
    seq(|tiers|, i requires 0 <= i < |tiers| => List(Texts(tiers[i])))
  }

  /** `d` with `name` set to the value when there is one. */
  function WithOptional(d: Dict, name: FieldName, v: Option<Entry>): Dict {
    match v
    case None => d
    case Some(x) => d[Key(name) := x]
  }

  /** An optional byte string as an optional entry. */
  function OptionalBytes(o: Option<seq<u8>>): Option<Entry> {
    match o
    case None => None
    case Some(b) => Some(String(b))
  }

  /** An optional integer as an optional entry. */
  function OptionalInteger(o: Option<u64>): Option<Entry> {
    match o
    case None => None
    case Some(n) => Some(Integer(n))
  }

  /** `private` as the integer 1 or 0. */
  function OptionalFlag(o: Option<bool>): Option<Entry> {
    match o
    case None => None
    case Some(b) => Some(Integer(if b then 1 else 0))
  }

  /** Optional announce tiers as an optional list entry. */
  function OptionalTiers(o: Option<seq<seq<Text>>>): Option<Entry> {
    match o
    case None => None
    case Some(tiers) => Some(List(TierEntries(tiers)))
  }

  /** `length` and, when known, `md5sum`. */
  function LengthFields(d: Dict, length: u64, md5sum: Option<seq<u8>>): Dict {
    WithOptional(d[Key(LENGTH) := Integer(length)], MD5SUM, OptionalBytes(md5sum))
  }

  /** A file's dictionary: `path`, `length` and, when known, `md5sum`. */
  function FileInfoEntry(f: FileInfo): Entry {
    Dictionary(LengthFields(map[Key(PATH) := List(Texts(f.path))], f.length, f.md5sum))
  }

  /** The files' dictionaries, in order. */
  function FileEntries(fs: seq<FileInfo>): seq<Entry> {
    seq(|fs|, i requires 0 <= i < |fs| => FileInfoEntry(fs[i]))
  }

  /** The single-file layout: one file that has no path of its own. */
  predicate SingleFile(fs: seq<FileInfo>) {
    |fs| == 1 && fs[0].path == []
  }

  /** The `info` dictionary: the single-file layout inline, otherwise a `files` list. */
  function InfoEntry(info: Info): Entry {
    var flagged := InfoHead(info);
    if SingleFile(info.files) then Dictionary(LengthFields(flagged, info.files[0].length, info.files[0].md5sum))
    else Dictionary(flagged[Key(FILES) := List(FileEntries(info.files))])
  }

  /** The top-level dictionary with every field that is present. */
  function MetainfoEntry(m: Metainfo): Entry {
    Dictionary(WithOptional(MetainfoUpToCreatedBy(m), ENCODING, OptionalBytes(m.encoding)))
  }

  /** The two required top-level fields, `info` and `announce`. */
  function MetainfoBase(m: Metainfo): Dict {
    map[Key(INFO) := InfoEntry(m.info), Key(ANNOUNCE) := String(m.announce)]
  }

  /** The required fields, then `announce-list` and `creation date` when present. */
  function MetainfoUpToCreationDate(m: Metainfo): Dict {
    var withList := WithOptional(MetainfoBase(m), ANNOUNCE_LIST, OptionalTiers(m.announceList));
    WithOptional(withList, CREATION_DATE, OptionalInteger(m.creationDate))
  }

  /** The fields up to `creation date`, then `comment` and `created by` when present. */
  function MetainfoUpToCreatedBy(m: Metainfo): Dict {
    var withComment := WithOptional(MetainfoUpToCreationDate(m), COMMENT, OptionalBytes(m.comment));
    WithOptional(withComment, CREATED_BY, OptionalBytes(m.createdBy))
  }

  // ---------------------------------------------------------------------------
  // Round trips

  /** Setting an optional field leaves every other key as it was. */
  lemma WithOptionalLookup(d: Dict, name: FieldName, v: Option<Entry>, other: FieldName)
    requires Key(other) != Key(name)
    ensures Key(other) in WithOptional(d, name, v) <==> Key(other) in d
    ensures Key(other) in d ==> WithOptional(d, name, v)[Key(other)] == d[Key(other)]
  {
  }

  /** Texts encoded as byte strings read back as the same texts. */
  lemma AllTextsOfTexts(ts: seq<Text>)
    ensures AllTexts(Texts(ts)) == Some(ts)
  {
    var r := AllTexts(Texts(ts));
    assert forall i :: 0 <= i < |ts| ==> AsText(Texts(ts)[i]) == Ok(ts[i]);
    assert r.value == ts;
  }

  /** `FileInfo::parse` reads back every file dictionary built from a `FileInfo`. */
  lemma FileInfoRoundTrip(f: FileInfo)
    ensures ParseFileInfo(FileInfoEntry(f)) == Ok(f)
  {
    FileKeysDistinct();
    AllTextsOfTexts(f.path);
    var d := FileInfoEntry(f).dict;
    assert Key(PATH) in d && d[Key(PATH)] == List(Texts(f.path));
    assert Key(LENGTH) in d && d[Key(LENGTH)] == Integer(f.length);
    assert f.md5sum.None? <==> Key(MD5SUM) !in d;
    assert f.md5sum.Some? ==> d[Key(MD5SUM)] == String(f.md5sum.value);
  }

  /** The files' dictionaries parse back to the files. */
  lemma FilesRoundTrip(fs: seq<FileInfo>)
    ensures ParseFiles(FileEntries(fs)) == Ok(fs)
  {
    forall i | 0 <= i < |fs| ensures ParseFileInfo(FileEntries(fs)[i]) == Ok(fs[i]) {
      FileInfoRoundTrip(fs[i]);
    }
    assert ParseFiles(FileEntries(fs)).value == fs;
  }

  /** `length` and `md5sum` read back from `LengthFields`. */
  lemma LengthFieldsLookup(d: Dict, length: u64, md5sum: Option<seq<u8>>)
    requires Key(LENGTH) != Key(MD5SUM) && Key(MD5SUM) !in d
    ensures var l := LengthFields(d, length, md5sum);
      && Key(LENGTH) in l && l[Key(LENGTH)] == Integer(length)
      && ParseOptionalPrimitive(l, MD5SUM, AsBytes) == md5sum
  {
  }

  /** Both layouts of the `info` dictionary share `piece length`, `pieces`, `name` and `private`. */
  function InfoHead(info: Info): Dict {
    WithOptional(InfoBase(info), PRIVATE, OptionalFlag(info.isPrivate))
  }

  /** The three required `info` fields. */
  function InfoBase(info: Info): Dict {
    map[Key(PIECE_LENGTH) := Integer(info.pieceLength), Key(PIECES) := String(info.pieces), Key(NAME) := String(info.name)]
  }

  /** `private` reads back as written: 1 for true, 0 for false, absent for unknown. */
  lemma PrivateFlagRoundTrip(d: Dict, o: Option<bool>)
    requires Key(PRIVATE) !in d
    ensures PrivateFlag(WithOptional(d, PRIVATE, OptionalFlag(o))) == o
  {
  }

  /** The `info` head holds the piece length, pieces and name as given. */
  lemma InfoHeadFields(info: Info)
    ensures var d := InfoHead(info);
      && Key(PIECE_LENGTH) in d && d[Key(PIECE_LENGTH)] == Integer(info.pieceLength)
      && Key(PIECES) in d && d[Key(PIECES)] == String(info.pieces)
      && Key(NAME) in d && d[Key(NAME)] == String(info.name)
      && PrivateFlag(d) == info.isPrivate
      && Key(FILES) !in d && Key(MD5SUM) !in d
  {
    var b := InfoBase(info);
    assert Key(MD5SUM) != Key(PIECES) by { KeyHead(MD5SUM); KeyHead(PIECES); }
    PrivateFlagRoundTrip(b, info.isPrivate);
  }

  /** The file part of an `info` dictionary, in whichever layout `InfoEntry` chose. */
  lemma FileListRoundTrip(info: Info)
    ensures ParseFileList(InfoEntry(info).dict) == Ok(info.files)
  {
    InfoHeadFields(info);
    if SingleFile(info.files) {
      var f := info.files[0];
      KeyHead(LENGTH); KeyHead(MD5SUM);
      LengthFieldsLookup(InfoHead(info), f.length, f.md5sum);
      assert [FileInfo(f.length, f.md5sum, [])] == info.files;
    } else {
      FilesRoundTrip(info.files);
    }
  }

  /** `LengthFields` leaves every other key as it was. */
  lemma LengthFieldsKeep(d: Dict, length: u64, md5sum: Option<seq<u8>>, other: FieldName)
    requires Key(other) != Key(LENGTH) && Key(other) != Key(MD5SUM)
    ensures var l := LengthFields(d, length, md5sum);
      (Key(other) in l <==> Key(other) in d) && (Key(other) in d ==> l[Key(other)] == d[Key(other)])
  {
  }

  /** Either layout of `info` holds the piece length, pieces and name as given. */
  lemma InfoFields(info: Info)
    ensures var d := InfoEntry(info).dict;
      && Key(PIECE_LENGTH) in d && d[Key(PIECE_LENGTH)] == Integer(info.pieceLength)
      && Key(PIECES) in d && d[Key(PIECES)] == String(info.pieces)
      && Key(NAME) in d && d[Key(NAME)] == String(info.name)
      && PrivateFlag(d) == info.isPrivate
  {
    InfoHeadFields(info);
    var h := InfoHead(info);
    if SingleFile(info.files) {
      var f := info.files[0];
      LengthFieldsKeep(h, f.length, f.md5sum, PIECE_LENGTH);
      KeyHead(PIECES); KeyHead(LENGTH); KeyHead(MD5SUM);
      LengthFieldsKeep(h, f.length, f.md5sum, PIECES);
      LengthFieldsKeep(h, f.length, f.md5sum, NAME);
      LengthFieldsKeep(h, f.length, f.md5sum, PRIVATE);
    }
  }

  /** `Info::parse` reads back the `info` dictionary of either layout. */
  lemma InfoRoundTrip(info: Info)
    ensures ParseInfo(InfoEntry(info)) == Ok(info)
  {
    InfoFields(info);
    FileListRoundTrip(info);
  }

  /** A later optional field leaves the lookup of an earlier one as it was. */
  lemma OptionalUnaffected<T>(d: Dict, name: FieldName, v: Option<Entry>, other: FieldName, convert: Entry -> Result<T, Entry>)
    requires Key(other) != Key(name)
    ensures ParseOptionalPrimitive(WithOptional(d, name, v), other, convert) == ParseOptionalPrimitive(d, other, convert)
  {
  }

  /** Setting an optional field adds at most its own key. */
  lemma WithOptionalKeys(d: Dict, name: FieldName, v: Option<Entry>)
    ensures WithOptional(d, name, v).Keys <= d.Keys + {Key(name)}
  {
  }

  /** An optional text written under a fresh key reads back as written. */
  lemma OptionalTextRoundTrip(d: Dict, name: FieldName, t: Option<Text>)
    requires Key(name) !in d
    ensures ParseOptionalPrimitive(WithOptional(d, name, OptionalBytes(t)), name, AsText) == t
  {
  }

  /** The top-level keys that differ only after their first letter. */
  lemma MetainfoKeyHeads()
    ensures Key(ANNOUNCE) != Key(ENCODING) && Key(ANNOUNCE_LIST) != Key(CREATION_DATE)
  {
    KeyHead(ANNOUNCE); KeyHead(ENCODING); KeyHead(ANNOUNCE_LIST); KeyHead(CREATION_DATE);
  }

  /** `info` and `announce` survive every optional layer, whose keys all differ from theirs. */
  lemma RequiredFieldSurvives(m: Metainfo, name: FieldName)
    requires name == INFO || name == ANNOUNCE
    ensures Key(name) in MetainfoEntry(m).dict && MetainfoEntry(m).dict[Key(name)] == MetainfoBase(m)[Key(name)]
  {
    MetainfoKeyHeads();
    var withList := WithOptional(MetainfoBase(m), ANNOUNCE_LIST, OptionalTiers(m.announceList));
    var withDate := MetainfoUpToCreationDate(m);
    var withComment := WithOptional(withDate, COMMENT, OptionalBytes(m.comment));
    WithOptionalLookup(MetainfoBase(m), ANNOUNCE_LIST, OptionalTiers(m.announceList), name);
    WithOptionalLookup(withList, CREATION_DATE, OptionalInteger(m.creationDate), name);
    WithOptionalLookup(withDate, COMMENT, OptionalBytes(m.comment), name);
    WithOptionalLookup(withComment, CREATED_BY, OptionalBytes(m.createdBy), name);
    WithOptionalLookup(MetainfoUpToCreatedBy(m), ENCODING, OptionalBytes(m.encoding), name);
  }

  /** The top-level dictionary holds `info` and `announce` as given. */
  lemma MetainfoRequiredFields(m: Metainfo)
    ensures var d := MetainfoEntry(m).dict;
      && Key(INFO) in d && d[Key(INFO)] == InfoEntry(m.info)
      && Key(ANNOUNCE) in d && d[Key(ANNOUNCE)] == String(m.announce)
  {
    RequiredFieldSurvives(m, INFO);
    RequiredFieldSurvives(m, ANNOUNCE);
  }

  /** The `announce-list` field reads back as written. */
  lemma AnnounceListField(m: Metainfo)
    ensures ParseAnnounceList(ParseOptionalPrimitive(MetainfoEntry(m).dict, ANNOUNCE_LIST, AsList)) == m.announceList
  {
    MetainfoKeyHeads();
    var withList := WithOptional(MetainfoBase(m), ANNOUNCE_LIST, OptionalTiers(m.announceList));
    var withDate := MetainfoUpToCreationDate(m);
    var withComment := WithOptional(withDate, COMMENT, OptionalBytes(m.comment));
    OptionalUnaffected(withList, CREATION_DATE, OptionalInteger(m.creationDate), ANNOUNCE_LIST, AsList);
    OptionalUnaffected(withDate, COMMENT, OptionalBytes(m.comment), ANNOUNCE_LIST, AsList);
    OptionalUnaffected(withComment, CREATED_BY, OptionalBytes(m.createdBy), ANNOUNCE_LIST, AsList);
    OptionalUnaffected(MetainfoUpToCreatedBy(m), ENCODING, OptionalBytes(m.encoding), ANNOUNCE_LIST, AsList);
    if m.announceList.Some? {
      AnnounceTiersOfTierEntries(m.announceList.value);
    }
  }

  /** The `creation date` field reads back as written. */
  lemma CreationDateField(m: Metainfo)
    ensures ParseOptionalPrimitive(MetainfoEntry(m).dict, CREATION_DATE, AsInteger) == m.creationDate
  {
    MetainfoKeyHeads();
    var withList := WithOptional(MetainfoBase(m), ANNOUNCE_LIST, OptionalTiers(m.announceList));
    var withDate := MetainfoUpToCreationDate(m);
    var withComment := WithOptional(withDate, COMMENT, OptionalBytes(m.comment));
    WithOptionalKeys(MetainfoBase(m), ANNOUNCE_LIST, OptionalTiers(m.announceList));
    assert Key(CREATION_DATE) !in withList;
    OptionalUnaffected(withDate, COMMENT, OptionalBytes(m.comment), CREATION_DATE, AsInteger);
    OptionalUnaffected(withComment, CREATED_BY, OptionalBytes(m.createdBy), CREATION_DATE, AsInteger);
    OptionalUnaffected(MetainfoUpToCreatedBy(m), ENCODING, OptionalBytes(m.encoding), CREATION_DATE, AsInteger);
  }

  /** The `comment` field reads back as written. */
  lemma CommentField(m: Metainfo)
    ensures ParseOptionalPrimitive(MetainfoEntry(m).dict, COMMENT, AsText) == m.comment
  {
    var withDate := MetainfoUpToCreationDate(m);
    var withComment := WithOptional(withDate, COMMENT, OptionalBytes(m.comment));
    UpToCreationDateKeys(m);
    OptionalTextRoundTrip(withDate, COMMENT, m.comment);
    OptionalUnaffected(withComment, CREATED_BY, OptionalBytes(m.createdBy), COMMENT, AsText);
    OptionalUnaffected(MetainfoUpToCreatedBy(m), ENCODING, OptionalBytes(m.encoding), COMMENT, AsText);
  }

  /** The `created by` field reads back as written. */
  lemma CreatedByField(m: Metainfo)
    ensures ParseOptionalPrimitive(MetainfoEntry(m).dict, CREATED_BY, AsText) == m.createdBy
  {
    var withDate := MetainfoUpToCreationDate(m);
    var withComment := WithOptional(withDate, COMMENT, OptionalBytes(m.comment));
    UpToCreationDateKeys(m);
    WithOptionalKeys(withDate, COMMENT, OptionalBytes(m.comment));
    OptionalTextRoundTrip(withComment, CREATED_BY, m.createdBy);
    assert Key(CREATED_BY) != Key(ENCODING);
    OptionalUnaffected(MetainfoUpToCreatedBy(m), ENCODING, OptionalBytes(m.encoding), CREATED_BY, AsText);
  }

  /** Up to `creation date`, only the first four top-level keys are set. */
  lemma UpToCreationDateKeys(m: Metainfo)
    ensures MetainfoUpToCreationDate(m).Keys <= {Key(INFO), Key(ANNOUNCE), Key(ANNOUNCE_LIST), Key(CREATION_DATE)}
  {
    var withList := WithOptional(MetainfoBase(m), ANNOUNCE_LIST, OptionalTiers(m.announceList));
    WithOptionalKeys(MetainfoBase(m), ANNOUNCE_LIST, OptionalTiers(m.announceList));
    WithOptionalKeys(withList, CREATION_DATE, OptionalInteger(m.creationDate));
  }

  /** The `encoding` field reads back as written. */
  lemma EncodingField(m: Metainfo)
    ensures ParseOptionalPrimitive(MetainfoEntry(m).dict, ENCODING, AsText) == m.encoding
  {
    var withDate := MetainfoUpToCreationDate(m);
    var withComment := WithOptional(withDate, COMMENT, OptionalBytes(m.comment));
    UpToCreationDateKeys(m);
    WithOptionalKeys(withDate, COMMENT, OptionalBytes(m.comment));
    WithOptionalKeys(withComment, CREATED_BY, OptionalBytes(m.createdBy));
    assert Key(ENCODING) !in MetainfoUpToCreatedBy(m) by {
      KeyHead(ANNOUNCE); KeyHead(ENCODING);
    }
    OptionalTextRoundTrip(MetainfoUpToCreatedBy(m), ENCODING, m.encoding);
  }

  /** `Metainfo::parse` reads back every metadata file built from a `Metainfo`. */
  lemma MetainfoRoundTrip(m: Metainfo)
    ensures ParseMetainfo(MetainfoEntry(m)) == Ok(m)
  {
    MetainfoRequiredFields(m);
    InfoRoundTrip(m.info);
    AnnounceListField(m);
    CreationDateField(m);
    CommentField(m);
    CreatedByField(m);
    EncodingField(m);
  }

  // ---------------------------------------------------------------------------
  // Which dictionaries are accepted, and which error is reported

  /**
   A metadata dictionary is accepted exactly when `info` parses and
   `announce` is text: the optional fields never make it fail.
   */
  lemma MetainfoAcceptance(d: Dict)
    ensures ParseMetainfo(Dictionary(d)).Ok? <==>
      Key(INFO) in d && ParseInfo(d[Key(INFO)]).Ok? && Key(ANNOUNCE) in d && AsText(d[Key(ANNOUNCE)]).Ok?
  {
  }

  /** `info` is looked at first, then `announce`; the first failure is the one reported. */
  lemma MetainfoErrorOrder(d: Dict)
    ensures Key(INFO) !in d ==> ParseMetainfo(Dictionary(d)) == Err(MissingField(INFO))
    ensures Key(INFO) in d && ParseInfo(d[Key(INFO)]).Err? ==>
      ParseMetainfo(Dictionary(d)) == Err(ParseInfo(d[Key(INFO)]).error)
    ensures Key(INFO) in d && ParseInfo(d[Key(INFO)]).Ok? && Key(ANNOUNCE) !in d ==>
      ParseMetainfo(Dictionary(d)) == Err(MissingField(ANNOUNCE))
    ensures Key(INFO) in d && ParseInfo(d[Key(INFO)]).Ok? && Key(ANNOUNCE) in d && AsText(d[Key(ANNOUNCE)]).Err? ==>
      ParseMetainfo(Dictionary(d)) == Err(MetaError.InvalidFormat(ANNOUNCE))
  {
  }

  /** `piece length`, then `pieces`, then `name`, then the files: the first failure is the one reported. */
  lemma InfoErrorOrder(d: Dict)
    ensures Key(PIECE_LENGTH) !in d ==> ParseInfo(Dictionary(d)) == Err(MissingField(PIECE_LENGTH))
    ensures Key(PIECE_LENGTH) in d && !d[Key(PIECE_LENGTH)].Integer? ==>
      ParseInfo(Dictionary(d)) == Err(MetaError.InvalidFormat(PIECE_LENGTH))
    ensures Key(PIECE_LENGTH) in d && d[Key(PIECE_LENGTH)].Integer? && Key(PIECES) !in d ==>
      ParseInfo(Dictionary(d)) == Err(MissingField(PIECES))
    ensures Key(PIECE_LENGTH) in d && d[Key(PIECE_LENGTH)].Integer? && Key(PIECES) in d && !d[Key(PIECES)].String? ==>
      ParseInfo(Dictionary(d)) == Err(MetaError.InvalidFormat(PIECES))
    ensures Key(PIECE_LENGTH) in d && d[Key(PIECE_LENGTH)].Integer? && Key(PIECES) in d && d[Key(PIECES)].String?
            && Key(NAME) !in d ==>
      ParseInfo(Dictionary(d)) == Err(MissingField(NAME))
    ensures Key(PIECE_LENGTH) in d && d[Key(PIECE_LENGTH)].Integer? && Key(PIECES) in d && d[Key(PIECES)].String?
            && Key(NAME) in d && AsText(d[Key(NAME)]).Err? ==>
      ParseInfo(Dictionary(d)) == Err(MetaError.InvalidFormat(NAME))
    ensures Key(PIECE_LENGTH) in d && d[Key(PIECE_LENGTH)].Integer? && Key(PIECES) in d && d[Key(PIECES)].String?
            && Key(NAME) in d && AsText(d[Key(NAME)]).Ok? && ParseFileList(d).Err? ==>
      ParseInfo(Dictionary(d)) == Err(ParseFileList(d).error)
    ensures ParseInfo(Dictionary(d)).Ok? <==>
      && Key(PIECE_LENGTH) in d && d[Key(PIECE_LENGTH)].Integer?
      && Key(PIECES) in d && d[Key(PIECES)].String?
      && Key(NAME) in d && AsText(d[Key(NAME)]).Ok?
      && ParseFileList(d).Ok?
  {
  }

  /** Without `files`, the single-file layout: one file of `length`, with an empty path. */
  lemma SingleFileLayout(d: Dict)
    requires Key(FILES) !in d
    ensures Key(LENGTH) !in d ==> ParseFileList(d) == Err(MissingField(LENGTH))
    ensures Key(LENGTH) in d && !d[Key(LENGTH)].Integer? ==> ParseFileList(d) == Err(MetaError.InvalidFormat(LENGTH))
    ensures Key(LENGTH) in d && d[Key(LENGTH)].Integer? ==>
      ParseFileList(d) == Ok([FileInfo(d[Key(LENGTH)].value, ParseOptionalPrimitive(d, MD5SUM, AsBytes), [])])
  {
  }

  /** With `files`, one `FileInfo` per element, or the first element's error. */
  lemma MultiFileLayout(d: Dict)
    requires Key(FILES) in d && d[Key(FILES)].List?
    ensures var items := d[Key(FILES)].items;
      && (ParseFileList(d).Ok? <==> forall i :: 0 <= i < |items| ==> ParseFileInfo(items[i]).Ok?)
      && (ParseFileList(d).Ok? ==> |ParseFileList(d).value| == |items|)
      && (ParseFileList(d).Err? ==> exists i :: 0 <= i < |items| && ParseFileInfo(items[i]) == Err(ParseFileList(d).error))
  {
  }

  /**
   A file dictionary: `path` first (missing, not a list, or holding a
   non-text component are each reported), then `length`; an empty path is
   accepted.
   */
  lemma FileInfoErrorOrder(d: Dict)
    ensures Key(PATH) !in d ==> ParseFileInfo(Dictionary(d)) == Err(MissingField(PATH))
    ensures Key(PATH) in d && !d[Key(PATH)].List? ==> ParseFileInfo(Dictionary(d)) == Err(MetaError.InvalidFormat(PATH))
    ensures Key(PATH) in d && d[Key(PATH)].List? && AllTexts(d[Key(PATH)].items).None? ==>
      ParseFileInfo(Dictionary(d)) == Err(MetaError.InvalidFormat(PATH))
    ensures Key(PATH) in d && d[Key(PATH)] == List([]) && Key(LENGTH) in d && d[Key(LENGTH)].Integer? ==>
      ParseFileInfo(Dictionary(d)) == Ok(FileInfo(d[Key(LENGTH)].value, ParseOptionalPrimitive(d, MD5SUM, AsBytes), []))
    ensures Key(PATH) in d && d[Key(PATH)].List? && AllTexts(d[Key(PATH)].items).Some? && Key(LENGTH) !in d ==>
      ParseFileInfo(Dictionary(d)) == Err(MissingField(LENGTH))
  {
  }

  // ---------------------------------------------------------------------------
  // The announce list

  /**
   The announce list is filtered element by element: the tiers kept from a
   concatenation are the tiers kept from each part, in order.
   */
  lemma {:induction false} AnnounceTiersAppend(a: seq<Entry>, b: seq<Entry>)
    ensures AnnounceTiers(a + b) == AnnounceTiers(a) + AnnounceTiers(b)
  {
    if |a| == 0 {
      assert a + b == b;
    } else {
      assert (a + b)[1..] == a[1..] + b;
      AnnounceTiersAppend(a[1..], b);
    }
  }

  /** A one-element announce list keeps what its element gives. */
  lemma {:induction false} AnnounceTiersSingle(x: Entry)
    ensures AnnounceTiers([x]) == AnnounceTier(x)
  {
    assert [x][1..] == [];
  }

  /** An element that is not a list of texts is dropped without a trace. */
  lemma {:induction false} AnnounceTiersDropsInvalidTier(before: seq<Entry>, x: Entry, after: seq<Entry>)
    requires !x.List? || AllTexts(x.items).None?
    ensures AnnounceTiers(before + [x] + after) == AnnounceTiers(before) + AnnounceTiers(after)
  {
    AnnounceTiersAppend(before + [x], after);
    AnnounceTiersAppend(before, [x]);
    AnnounceTiersSingle(x);
  }

  /** A list of texts is kept as a tier, in its place. */
  lemma {:induction false} AnnounceTiersKeepsTier(before: seq<Entry>, tier: seq<Text>, after: seq<Entry>)
    ensures AnnounceTiers(before + [List(Texts(tier))] + after) == AnnounceTiers(before) + [tier] + AnnounceTiers(after)
  {
    var x := List(Texts(tier));
    AnnounceTiersAppend(before + [x], after);
    AnnounceTiersAppend(before, [x]);
    AllTextsOfTexts(tier);
    AnnounceTiersSingle(x);
  }

  /** Every announce list written as lists of texts reads back unchanged. */
  lemma {:induction false} AnnounceTiersOfTierEntries(tiers: seq<seq<Text>>)
    ensures AnnounceTiers(TierEntries(tiers)) == tiers
  {
    if |tiers| > 0 {
      var xs := TierEntries(tiers);
      assert xs[1..] == TierEntries(tiers[1..]);
      AllTextsOfTexts(tiers[0]);
      AnnounceTiersOfTierEntries(tiers[1..]);
    }
  }
}
