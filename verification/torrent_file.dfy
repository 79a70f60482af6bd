/**
 The mapping from a decoded `.torrent` dictionary to typed metadata in
 `build_torrent_core/src/bencoded/custom.rs`: `Metainfo::parse`,
 `Info::parse`, `Info::parse_file_info`, `FileInfo::parse`,
 `Metainfo::parse_announce_list` and the three lookup helpers of `utils`.

 The source removes each key from the dictionary as it reads it; every key
 is read at most once, so the model looks keys up instead.
 */
module TorrentFile {
  import opened Bytes
  import opened Wrappers
  import opened Utf8
  import opened Bencode

  type Dict = map<seq<u8>, Entry>

  /** A field name as the source spells it: an ASCII `&'static str`. */
  type FieldName = s: string | IsAsciiText(s) witness ""

  // The field names the parsers look up or report.
  const INFO: FieldName := "info"
  const ANNOUNCE: FieldName := "announce"
  const ANNOUNCE_LIST: FieldName := "announce-list"
  const CREATION_DATE: FieldName := "creation date"
  const COMMENT: FieldName := "comment"
  const CREATED_BY: FieldName := "created by"
  const ENCODING: FieldName := "encoding"
  const PIECE_LENGTH: FieldName := "piece length"
  const PIECES: FieldName := "pieces"
  const NAME: FieldName := "name"
  const PRIVATE: FieldName := "private"
  const FILES: FieldName := "files"
  const LENGTH: FieldName := "length"
  const MD5SUM: FieldName := "md5sum"
  const PATH: FieldName := "path"
  const METAINFO: FieldName := "metainfo"

  /** The dictionary key for a field name: its bytes. */
  function Key(name: FieldName): (k: seq<u8>)
    ensures |k| == |name|
  {
    AsciiBytes(name)
  }

  /** The first byte of a key is the first letter of its name. */
  lemma KeyHead(name: FieldName)
    requires |name| > 0
    ensures Key(name)[0] == name[0] as int
  {
  }

  datatype MetaError = MissingField(field: FieldName) | InvalidFormat(field: FieldName)

  /** `FileInfo`: one file of the torrent; `path` is empty in the single-file layout. */
  datatype FileInfo = FileInfo(length: u64, md5sum: Option<seq<u8>>, path: seq<Text>)

  /** `Info`: the `info` dictionary. `isPrivate` is the source's `private`. */
  datatype Info = Info(pieceLength: u64, pieces: seq<u8>, isPrivate: Option<bool>, name: Text, files: seq<FileInfo>)

  /**
   `Metainfo`: the whole metadata file. `creationDate` is the raw number of
   seconds the source hands to `NaiveDateTime::from_timestamp`.
   */
  datatype Metainfo = Metainfo(
    info: Info,
    announce: Text,
    announceList: Option<seq<seq<Text>>>,
    creationDate: Option<u64>,
    comment: Option<Text>,
    createdBy: Option<Text>,
    encoding: Option<Text>)

  // ---------------------------------------------------------------------------
  // utils

  /** `parse_optional_primitive`: the value under `name` when present and of the requested shape. */
  function ParseOptionalPrimitive<T>(d: Dict, name: FieldName, convert: Entry -> Result<T, Entry>): (r: Option<T>)
    ensures r.Some? <==> Key(name) in d && convert(d[Key(name)]).Ok?
    ensures r.Some? ==> r.value == convert(d[Key(name)]).value
  {
    if Key(name) in d then convert(d[Key(name)]).ToOption() else None
  }

  /** `parse_required_primitive`: absent is `MissingField`, the wrong shape `InvalidFormat`. */
  function ParseRequiredPrimitive<T>(d: Dict, name: FieldName, convert: Entry -> Result<T, Entry>): (r: Result<T, MetaError>)
    ensures r == Err(MissingField(name)) <==> Key(name) !in d
    ensures r == Err(MetaError.InvalidFormat(name)) <==> Key(name) in d && convert(d[Key(name)]).Err?
    ensures r.Ok? ==> Key(name) in d && convert(d[Key(name)]) == Ok(r.value)
  {
    if Key(name) !in d then Err(MissingField(name))
    else match convert(d[Key(name)])
      case Ok(v) => Ok(v)
      case Err(_) => Err(MetaError.InvalidFormat(name))
  }

  /** `parse_required`: absent is `MissingField`; otherwise whatever `parser` makes of the value. */
  function ParseRequired<T>(d: Dict, name: FieldName, parser: Entry -> Result<T, MetaError>): (r: Result<T, MetaError>)
    ensures Key(name) !in d ==> r == Err(MissingField(name))
    ensures Key(name) in d ==> r == parser(d[Key(name)])
  {
    if Key(name) !in d then Err(MissingField(name)) else parser(d[Key(name)])
  }

  // ---------------------------------------------------------------------------
  // Collecting texts

  /**
   `collect::<Option<Vec<String>>>()` over `Entry::parse::<String>`: every
   item as UTF-8 text, or nothing when any one is not.
   */
  function AllTexts(items: seq<Entry>): (r: Option<seq<Text>>)
    ensures r.Some? <==> forall i :: 0 <= i < |items| ==> AsText(items[i]).Ok?
    ensures r.Some? ==> |r.value| == |items| && forall i :: 0 <= i < |items| ==> items[i] == String(r.value[i])
  {
    if |items| == 0 then Some([])
    else match AsText(items[0])
      case Err(_) => None
      case Ok(t) =>
        match AllTexts(items[1..])
        case None =>
          assert forall i :: 0 < i < |items| ==> items[i] == items[1..][i - 1];
          None
        case Some(ts) =>
          assert forall i :: 0 < i < |items| ==> items[i] == items[1..][i - 1];
          Some([t] + ts)
  }

  /** The list of the path components of `FileInfo::parse`; any non-text component is `InvalidFormat(PATH)`. */
  function ParsePath(items: seq<Entry>): (r: Result<seq<Text>, MetaError>)
    ensures r.Ok? <==> forall i :: 0 <= i < |items| ==> AsText(items[i]).Ok?
    ensures r.Err? ==> r.error == MetaError.InvalidFormat(PATH)
  {
    match AllTexts(items)
    case Some(ts) => Ok(ts)
    case None => Err(MetaError.InvalidFormat(PATH))
  }

  /**
   `parse_announce_list`: from the list under `announce-list`, the elements
   that are lists of texts, in order; everything else is dropped.
   */
  function ParseAnnounceList(blist: Option<seq<Entry>>): (r: Option<seq<seq<Text>>>)
    ensures r.Some? <==> blist.Some?
    ensures r.Some? ==> |r.value| <= |blist.value|
    ensures r.Some? ==> (|r.value| == |blist.value| <==> forall i :: 0 <= i < |blist.value| ==> TierEntry(blist.value[i]))
  {
    match blist
    case None => None
    case Some(xs) => Some(AnnounceTiers(xs))
  }

  /** The elements of `xs` that are tiers, in order. */
  function AnnounceTiers(xs: seq<Entry>): (r: seq<seq<Text>>)
    ensures |r| <= |xs|
    ensures |r| == |xs| <==> forall i :: 0 <= i < |xs| ==> TierEntry(xs[i])
  {
    if |xs| == 0 then []
    else
      var tiers := AnnounceTier(xs[0]) + AnnounceTiers(xs[1..]);
      assert (forall i :: 0 <= i < |xs| ==> TierEntry(xs[i])) <==>
             TierEntry(xs[0]) && forall i :: 0 <= i < |xs[1..]| ==> TierEntry(xs[1..][i]) by {
        if forall i :: 0 <= i < |xs[1..]| ==> TierEntry(xs[1..][i]) {
          forall i | 1 <= i < |xs| ensures TierEntry(xs[i]) {
            assert xs[i] == xs[1..][i - 1];
          }
        }
      }
      tiers
  }

  /** An element of the announce list that is kept: a list of texts. */
  predicate TierEntry(x: Entry) {
    x.List? && AllTexts(x.items).Some?
  }

  /** One element of the announce list: kept as a tier when it is a list of texts. */
  function AnnounceTier(x: Entry): (r: seq<seq<Text>>)
    ensures |r| <= 1
    ensures |r| == 1 <==> TierEntry(x)
    ensures |r| == 1 ==> |r[0]| == |x.items| && forall i :: 0 <= i < |x.items| ==> x.items[i] == String(r[0][i])
  {
    match AsList(x)
    case Err(_) => []
    case Ok(tier) =>
      match AllTexts(tier)
      case None => []
      case Some(ts) => [ts]
  }

  // ---------------------------------------------------------------------------
  // Parsers

  /** `FileInfo::parse`: `path` (a list of texts), then `length`, then an optional `md5sum`. */
  function ParseFileInfo(e: Entry): (r: Result<FileInfo, MetaError>)
    ensures !e.Dictionary? ==> r == Err(MetaError.InvalidFormat(FILES))
    ensures r.Ok? <==>
      && e.Dictionary?
      && Key(PATH) in e.dict && e.dict[Key(PATH)].List? && AllTexts(e.dict[Key(PATH)].items).Some?
      && Key(LENGTH) in e.dict && e.dict[Key(LENGTH)].Integer?
    ensures r.Ok? ==>
      && e.Dictionary?
      && e.dict[Key(LENGTH)] == Integer(r.value.length)
      && |r.value.path| == |e.dict[Key(PATH)].items|
      && (forall i :: 0 <= i < |r.value.path| ==> e.dict[Key(PATH)].items[i] == String(r.value.path[i]))
      && (r.value.md5sum.Some? <==> Key(MD5SUM) in e.dict && e.dict[Key(MD5SUM)].String?)
      && (r.value.md5sum.Some? ==> e.dict[Key(MD5SUM)] == String(r.value.md5sum.value))
  {
    match AsDictionary(e)
    case Err(_) => Err(MetaError.InvalidFormat(FILES))
    case Ok(d) =>
      var items :- ParseRequiredPrimitive(d, PATH, AsList);
      var path :- ParsePath(items);
      var length :- ParseRequiredPrimitive(d, LENGTH, AsInteger);
      var md5sum := ParseOptionalPrimitive(d, MD5SUM, AsBytes);
      Ok(FileInfo(length, md5sum, path))
  }

  /** `collect::<Result<Vec<FileInfo>>>()` over `FileInfo::parse`: all of them, or the first error. */
  function ParseFiles(entries: seq<Entry>): (r: Result<seq<FileInfo>, MetaError>)
    ensures r.Ok? <==> forall i :: 0 <= i < |entries| ==> ParseFileInfo(entries[i]).Ok?
    ensures r.Ok? ==> |r.value| == |entries|
    ensures r.Ok? ==> forall i :: 0 <= i < |entries| ==> ParseFileInfo(entries[i]) == Ok(r.value[i])
    ensures r.Err? ==> exists i :: 0 <= i < |entries| && ParseFileInfo(entries[i]) == Err(r.error)
                                 && forall j :: 0 <= j < i ==> ParseFileInfo(entries[j]).Ok?
  {
    if |entries| == 0 then Ok([])
    else
      match ParseFileInfo(entries[0])
      case Err(err) => Err(err)
      case Ok(f) =>
        match ParseFiles(entries[1..])
        case Err(err) =>
          FirstErrorShifts(entries, err);
          Err(err)
        case Ok(fs) =>
          FilesShift(entries, f, fs);
          Ok([f] + fs)
  }

  /** The files of the tail, after the first file, are the files of the whole list. */
  lemma {:induction false} FilesShift(entries: seq<Entry>, f: FileInfo, fs: seq<FileInfo>)
    requires |entries| > 0 && ParseFileInfo(entries[0]) == Ok(f) && |fs| == |entries[1..]|
    requires forall i :: 0 <= i < |entries[1..]| ==> ParseFileInfo(entries[1..][i]) == Ok(fs[i])
    ensures |[f] + fs| == |entries|
    ensures forall i :: 0 <= i < |entries| ==> ParseFileInfo(entries[i]) == Ok(([f] + fs)[i])
  {
    forall i | 0 < i < |entries|
      ensures ParseFileInfo(entries[i]) == Ok(([f] + fs)[i])
    {
      assert entries[i] == entries[1..][i - 1];
    }
  }

  /** The first failing file of the tail, one place further on, is the first failing file of the whole list. */
  lemma {:induction false} FirstErrorShifts(entries: seq<Entry>, err: MetaError)
    requires |entries| > 0 && ParseFileInfo(entries[0]).Ok?
    requires exists i :: 0 <= i < |entries[1..]| && ParseFileInfo(entries[1..][i]) == Err(err)
                         && forall j :: 0 <= j < i ==> ParseFileInfo(entries[1..][j]).Ok?
    ensures exists i :: 0 <= i < |entries| && ParseFileInfo(entries[i]) == Err(err)
                        && forall j :: 0 <= j < i ==> ParseFileInfo(entries[j]).Ok?
  {
    var i :| 0 <= i < |entries[1..]| && ParseFileInfo(entries[1..][i]) == Err(err)
             && forall j :: 0 <= j < i ==> ParseFileInfo(entries[1..][j]).Ok?;
    assert ParseFileInfo(entries[i + 1]) == Err(err);
    forall j | 0 <= j < i + 1
      ensures ParseFileInfo(entries[j]).Ok?
    {
      if j > 0 { assert entries[j] == entries[1..][j - 1]; }
    }
  }

  /**
   `Info::parse_file_info`: without a `files` key, one file of `length` (and
   optional `md5sum`) with an empty path; with one, the list of file
   dictionaries under it.
   */
  function ParseFileList(d: Dict): (r: Result<seq<FileInfo>, MetaError>)
    ensures Key(FILES) in d && !d[Key(FILES)].List? ==> r == Err(MetaError.InvalidFormat(FILES))
    ensures Key(FILES) !in d ==> (r.Ok? <==> Key(LENGTH) in d && d[Key(LENGTH)].Integer?)
    ensures Key(FILES) !in d && r.Ok? ==>
      |r.value| == 1 && r.value[0].path == [] && d[Key(LENGTH)] == Integer(r.value[0].length)
    ensures Key(FILES) in d && r.Ok? ==>
      && d[Key(FILES)].List? && |r.value| == |d[Key(FILES)].items|
      && forall i :: 0 <= i < |r.value| ==> ParseFileInfo(d[Key(FILES)].items[i]) == Ok(r.value[i])
  {
    if Key(FILES) !in d then
      var length :- ParseRequiredPrimitive(d, LENGTH, AsInteger);
      var md5sum := ParseOptionalPrimitive(d, MD5SUM, AsBytes);
      Ok([FileInfo(length, md5sum, [])])
    else
      var entries :- ParseRequiredPrimitive(d, FILES, AsList);
      ParseFiles(entries)
  }

  /** `Info::parse`: `piece length`, `pieces`, `name`, optional `private` (true exactly when 1), the files. */
  function ParseInfo(e: Entry): (r: Result<Info, MetaError>)
    ensures !e.Dictionary? ==> r == Err(MetaError.InvalidFormat(INFO))
    ensures r.Ok? ==>
      && e.Dictionary?
      && Key(PIECE_LENGTH) in e.dict && e.dict[Key(PIECE_LENGTH)] == Integer(r.value.pieceLength)
      && Key(PIECES) in e.dict && e.dict[Key(PIECES)] == String(r.value.pieces)
      && Key(NAME) in e.dict && e.dict[Key(NAME)] == String(r.value.name)
      && r.value.isPrivate == PrivateFlag(e.dict)
      && ParseFileList(e.dict) == Ok(r.value.files)
  {
    match AsDictionary(e)
    case Err(_) => Err(MetaError.InvalidFormat(INFO))
    case Ok(d) =>
      var pieceLength :- ParseRequiredPrimitive(d, PIECE_LENGTH, AsInteger);
      var pieces :- ParseRequiredPrimitive(d, PIECES, AsBytes);
      var name :- ParseRequiredPrimitive(d, NAME, AsText);
      var isPrivate := PrivateFlag(d);
      var files :- ParseFileList(d);
      Ok(Info(pieceLength, pieces, isPrivate, name, files))
  }

  /** `private`: `Some(true)` exactly when the integer is 1; absent or not an integer is `None`. */
  function PrivateFlag(d: Dict): (r: Option<bool>)
    ensures r == Some(true) <==> Key(PRIVATE) in d && d[Key(PRIVATE)] == Integer(1)
    ensures r == None <==> Key(PRIVATE) !in d || !d[Key(PRIVATE)].Integer?
  {
    match ParseOptionalPrimitive(d, PRIVATE, AsInteger)
    case Some(i) => Some(i == 1)
    case None => None
  }

  /**
   `Metainfo::parse`: `info` and `announce` are required; `announce-list`,
   `creation date`, `comment`, `created by` and `encoding` are optional and
   are dropped, never reported, when they have the wrong shape.
   */
  function ParseMetainfo(e: Entry): (r: Result<Metainfo, MetaError>)
    ensures !e.Dictionary? ==> r == Err(MetaError.InvalidFormat(METAINFO))
    ensures r.Ok? ==>
      && e.Dictionary?
      && Key(INFO) in e.dict && ParseInfo(e.dict[Key(INFO)]) == Ok(r.value.info)
      && Key(ANNOUNCE) in e.dict && e.dict[Key(ANNOUNCE)] == String(r.value.announce)
  {
    match AsDictionary(e)
    case Err(_) => Err(MetaError.InvalidFormat(METAINFO))
    case Ok(d) =>
      var info :- ParseRequired(d, INFO, ParseInfo);
      var announce :- ParseRequiredPrimitive(d, ANNOUNCE, AsText);
      Ok(WithOptionalFields(d, info, announce))
  }

  /** The optional part of `Metainfo::parse`: a missing or ill-shaped field is `None`. */
  function WithOptionalFields(d: Dict, info: Info, announce: Text): (r: Metainfo)
    ensures r.info == info && r.announce == announce
    ensures r.announceList.Some? <==> Key(ANNOUNCE_LIST) in d && d[Key(ANNOUNCE_LIST)].List?
    ensures r.creationDate.Some? <==> Key(CREATION_DATE) in d && d[Key(CREATION_DATE)].Integer?
    ensures r.creationDate.Some? ==> d[Key(CREATION_DATE)] == Integer(r.creationDate.value)
    ensures r.comment.Some? <==> Key(COMMENT) in d && AsText(d[Key(COMMENT)]).Ok?
    ensures r.comment.Some? ==> d[Key(COMMENT)] == String(r.comment.value)
    ensures r.createdBy.Some? <==> Key(CREATED_BY) in d && AsText(d[Key(CREATED_BY)]).Ok?
    ensures r.createdBy.Some? ==> d[Key(CREATED_BY)] == String(r.createdBy.value)
    ensures r.encoding.Some? <==> Key(ENCODING) in d && AsText(d[Key(ENCODING)]).Ok?
    ensures r.encoding.Some? ==> d[Key(ENCODING)] == String(r.encoding.value)
  {
    var announceList := ParseAnnounceList(ParseOptionalPrimitive(d, ANNOUNCE_LIST, AsList));
    var creationDate := ParseOptionalPrimitive(d, CREATION_DATE, AsInteger);
    var comment := ParseOptionalPrimitive(d, COMMENT, AsText);
    var createdBy := ParseOptionalPrimitive(d, CREATED_BY, AsText);
    var encoding := ParseOptionalPrimitive(d, ENCODING, AsText);
    Metainfo(info, announce, announceList, creationDate, comment, createdBy, encoding)
  }
}
