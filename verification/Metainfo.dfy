/**
 * peer/metainfo.py: validation of the JSON metainfo and the info hash. JSON has been read
 * already: an object is a `Dict` with text keys, a number an `Int` or a `Float`.
 */
module Metainfo {
  import opened Wrappers
  import opened ByteStrings
  import opened HexText
  import opened PyText
  import BencodeCanonical
  import Utf8
  import opened BencodeEncoder
  import opened Storage
  import opened Torrents

  datatype MetainfoError =
    | BadAnnounce | InfoNotObject | MissingFields | BadName | BadPieceLength | NotExactlyOneLayout
    | BadLength | BadFiles | BadEntry | BadFileLength | BadFilePath | DuplicatePath
    | BadPieces | PieceCountMismatch | BadPieceHash | NotEncodable(error: BencodeEncoder.Error)

  // ---- Python accessors --------------------------------------------------------

  /** `d.get(name)` on a dictionary with text keys. */
  function Get(entries: seq<Entry>, name: string): Option<Value> {
    if entries == [] then None
    else if entries[0].key == TextKey(name) then Some(entries[0].value)
    else Get(entries[1..], name)
  }

  lemma {:induction false} GetAt(entries: seq<Entry>, name: string, k: nat)
    requires k < |entries| && entries[k].key == TextKey(name)
    requires forall j :: 0 <= j < k ==> entries[j].key != TextKey(name)
    ensures Get(entries, name) == Some(entries[k].value)
  {
    if k > 0 { GetAt(entries[1..], name, k - 1); }
  }

  lemma {:induction false} GetNothing(entries: seq<Entry>, name: string)
    requires forall j :: 0 <= j < |entries| ==> entries[j].key != TextKey(name)
    ensures Get(entries, name) == None
  {
    if entries != [] { GetNothing(entries[1..], name); }
  }

  predicate Has(entries: seq<Entry>, name: string) { Get(entries, name).Some? }

  // ---- Validation --------------------------------------------------------------

  /** `_validate_path_component`. */
  predicate SafeComponent(v: Value) {
    && v.Text? && !IsBlank(v.text) && v.text == Strip(v.text)
    && v.text != "." && v.text != ".."
    && '/' !in v.text && '\\' !in v.text && ':' !in v.text && '\0' !in v.text
  }

  predicate NaturalNumber(v: Value) { v.Int? && v.n >= 0 }

  /** The announce URLs, stripped; the first one is used. */
  function AnnounceUrl(v: Option<Value>): Option<string> {
    match v
    case Some(Text(url)) => if IsBlank(url) then None else Some(Strip(url))
    case Some(List(urls)) =>
      if urls != [] && forall k :: 0 <= k < |urls| ==> urls[k].Text? && !IsBlank(urls[k].text)
      then Some(Strip(urls[0].text)) else None
    case _ => None
  }

  function EntryFrom(v: Value): Result<FileEntry, MetainfoError> {
    if !v.Dict? then Err(BadEntry)
    else
      var length, parts := Get(v.entries, "length"), Get(v.entries, "path");
      if length.None? || !NaturalNumber(length.value) then Err(BadFileLength)
      else if parts.None? || !parts.value.List? || parts.value.items == [] then Err(BadFilePath)
      else if exists k :: 0 <= k < |parts.value.items| && !SafeComponent(parts.value.items[k])
      then Err(BadFilePath)
      else Ok(FileEntry(Texts(parts.value.items), length.value.n))
  }

  function Texts(items: seq<Value>): (texts: seq<string>)
    requires forall k :: 0 <= k < |items| ==> items[k].Text?
    ensures |texts| == |items|
    ensures forall k :: 0 <= k < |items| ==> texts[k] == items[k].text
  {
    seq(|items|, k requires 0 <= k < |items| => items[k].text)
  }

  /** `_validate_multiple_files` on the entries, keeping what it validated. */
  function FilesFrom(items: seq<Value>): (r: Result<seq<FileEntry>, MetainfoError>)
    ensures r.Ok? ==> |r.value| == |items| && DistinctFiles(r.value)
  {
    if items == [] then Ok([])
    else match FilesFrom(items[..|items| - 1])
      case Err(e) => Err(e)
      case Ok(files) =>
        match EntryFrom(items[|items| - 1])
        case Err(e) => Err(e)
        case Ok(entry) =>
          if exists k :: 0 <= k < |files| && files[k].path == entry.path then Err(DuplicatePath)
          else Ok(files + [entry])
  }

  function LayoutFrom(info: seq<Entry>): (r: Result<Layout, MetainfoError>)
    ensures r.Ok? && r.value.MultiFile? ==> DistinctFiles(r.value.files)
  {
    var length, files := Get(info, "length"), Get(info, "files");
    if length.Some? == files.Some? then Err(NotExactlyOneLayout)
    else if length.Some? then
      if NaturalNumber(length.value) then Ok(SingleFile(length.value.n)) else Err(BadLength)
    else if !files.value.List? || files.value.items == [] then Err(BadFiles)
    else match FilesFrom(files.value.items)
      case Err(e) => Err(e)
      case Ok(entries) => Ok(MultiFile(entries))
  }

  /** `_normalize_pieces`. */
  function PieceValues(v: Value): Result<seq<Value>, MetainfoError> {
    match v
    case List(items) => Ok(items)
    case Text(text) => if |text| % 40 != 0 then Err(BadPieces) else Ok(Chunks(text))
    case _ => Err(BadPieces)
  }

  function Chunks(text: string): seq<Value>
    requires |text| % 40 == 0
  {
    if text == "" then [] else [Text(text[..40])] + Chunks(text[40..])
  }

  function HashFrom(v: Value): Result<string, MetainfoError> {
    if !v.Text? then Err(BadPieceHash)
    else
      var normalized := Lower(v.text);
      if |normalized| != 40 || FromHex(normalized).None? then Err(BadPieceHash) else Ok(normalized)
  }

  function HashesFrom(items: seq<Value>): (r: Result<seq<string>, MetainfoError>)
    ensures r.Ok? ==> |r.value| == |items|
  {
    if items == [] then Ok([])
    else match HashesFrom(items[..|items| - 1])
      case Err(e) => Err(e)
      case Ok(hashes) =>
        match HashFrom(items[|items| - 1])
        case Err(e) => Err(e)
        case Ok(hash) => Ok(hashes + [hash])
  }

  /** `load` after the JSON has been read: validation and then the info hash. */
  function Load(raw: Value, sha1: Hash): (r: Result<Torrent, MetainfoError>)
    requires raw.Dict?
    ensures r.Ok? ==> WellFormed(r.value)
  {
    var announce, info := AnnounceUrl(Get(raw.entries, "announce")), Get(raw.entries, "info");
    if announce.None? then Err(BadAnnounce)
    else if info.None? || !info.value.Dict? then Err(InfoNotObject)
    else LoadInfo(announce.value, info.value, sha1)
  }

  function LoadInfo(announce: string, info: Value, sha1: Hash): (r: Result<Torrent, MetainfoError>)
    requires info.Dict?
    ensures r.Ok? ==> WellFormed(r.value)
    ensures r.Ok? ==> Bencode(info).Ok? && r.value.infoHash == sha1(Bencode(info).value)
  {
    var es := info.entries;
    if !Has(es, "name") || !Has(es, "piece length") || !Has(es, "pieces") then Err(MissingFields)
    else
      var name, pieceLength := Get(es, "name").value, Get(es, "piece length").value;
      if !SafeComponent(name) then Err(BadName)
      else if !pieceLength.Int? || pieceLength.n <= 0 then Err(BadPieceLength)
      else match LayoutFrom(es)
        case Err(e) => Err(e)
        case Ok(layout) => LoadPieces(announce, info, name.text, pieceLength.n, layout, sha1)
  }

  function LoadPieces(
    announce: string, info: Value, name: string, pieceLength: nat, layout: Layout, sha1: Hash)
    : (r: Result<Torrent, MetainfoError>)
    requires info.Dict? && Has(info.entries, "pieces") && pieceLength > 0
    requires layout.MultiFile? ==> DistinctFiles(layout.files)
    ensures r.Ok? ==> WellFormed(r.value)
    ensures r.Ok? ==> Bencode(info).Ok? && r.value.infoHash == sha1(Bencode(info).value)
  {
    var count := ExpectedPieceCount(LayoutLength(layout), pieceLength);
    match PieceValues(Get(info.entries, "pieces").value)
    case Err(e) => Err(e)
    case Ok(pieces) =>
      if |pieces| != count then Err(PieceCountMismatch)
      else match HashesFrom(pieces)
        case Err(e) => Err(e)
        case Ok(hashes) =>
          match Bencode(info)
          case Err(e) => Err(NotEncodable(e))
          case Ok(encoded) =>
            Ok(Torrent(announce, name, layout, pieceLength, hashes, LayoutLength(layout), count, sha1(encoded)))
  }

  /** A path component that stays below the directory it is joined to, with no space at either end. */
  predicate StaysBelow(part: string) {
    && part != "" && part != "." && part != ".." && '/' !in part && '\\' !in part && ':' !in part && '\0' !in part
    && !IsSpace(part[0]) && !IsSpace(part[|part| - 1])
  }

  /** Exactly these components are accepted. */
  lemma SafeComponents(v: Value)
    ensures SafeComponent(v) <==> v.Text? && StaysBelow(v.text)
  {
    hide IsSpace;
    if v.Text? {
      StripKeeps(v.text);
      if v.text != "" && AllSpace(v.text) { assert IsSpace(v.text[0]); }
    }
  }

  /** Every file of a loaded torrent is stored at a path of safe components, at least one. */
  lemma LoadedPathsStayBelow(raw: Value, sha1: Hash)
    requires raw.Dict?
    ensures Load(raw, sha1).Ok? ==>
      var segs := Segments(Load(raw, sha1).value);
      forall k :: 0 <= k < |segs| ==>
        segs[k].path != [] && forall j :: 0 <= j < |segs[k].path| ==> StaysBelow(segs[k].path[j])
  {
    hide StaysBelow, SafeComponent, HashesFrom, Bencode, AnnounceUrl, FilesFrom, WellFormed, FileSegments;
    if Load(raw, sha1).Ok? {
      var t := Load(raw, sha1).value;
      var info := Get(raw.entries, "info").value.entries;
      SafeComponents(Get(info, "name").value);
      if t.layout.MultiFile? {
        FilesStayBelow(Get(info, "files").value.items);
        FileSegmentPaths(t.name, t.layout.files);
      }
    }
  }

  lemma {:induction false} FilesStayBelow(items: seq<Value>)
    ensures FilesFrom(items).Ok? ==>
      forall k, j :: 0 <= k < |items| && 0 <= j < |FilesFrom(items).value[k].path| ==>
        StaysBelow(FilesFrom(items).value[k].path[j])
  {
    hide StaysBelow, SafeComponent;
    if items != [] {
      FilesStayBelow(items[..|items| - 1]);
      EntryStaysBelow(items[|items| - 1]);
    }
  }

  lemma EntryStaysBelow(v: Value)
    ensures EntryFrom(v).Ok? ==>
      forall j :: 0 <= j < |EntryFrom(v).value.path| ==> StaysBelow(EntryFrom(v).value.path[j])
  {
    hide StaysBelow, SafeComponent;
    if EntryFrom(v).Ok? {
      var parts := Get(v.entries, "path").value.items;
      forall j | 0 <= j < |parts| ensures parts[j].Text? && StaysBelow(parts[j].text) { SafeComponents(parts[j]); }
    }
  }

  // ---- What is loaded is what was declared -------------------------------------

  /** The file is stored below the torrent's name at the path the entry lists, and has its length. */
  predicate Declares(entry: Value, name: string, seg: FileSegment) {
    && entry.Dict?
    && Get(entry.entries, "length") == Some(Int(seg.length))
    && var path := Get(entry.entries, "path");
       && path.Some? && path.value.List?
       && |seg.path| == |path.value.items| + 1 && seg.path[0] == name
       && forall j :: 0 <= j < |path.value.items| ==> path.value.items[j] == Text(seg.path[j + 1])
  }

  /**
   * The files of an accepted metainfo are those it declares, in the same order: one file of
   * the declared length under the torrent's name, or one for each entry, at that entry's
   * path below the name.
   */
  lemma LoadedFilesAreDeclared(raw: Value, sha1: Hash)
    requires raw.Dict?
    ensures Load(raw, sha1).Ok? ==>
      var t := Load(raw, sha1).value;
      var segs := Segments(t);
      var info := Get(raw.entries, "info");
      && info.Some? && info.value.Dict?
      && var length, files := Get(info.value.entries, "length"), Get(info.value.entries, "files");
         if files == None then
           |segs| == 1 && segs[0].path == [t.name] && length == Some(Int(segs[0].length))
         else
           && length == None && files.value.List? && |files.value.items| == |segs|
           && forall k :: 0 <= k < |segs| ==> Declares(files.value.items[k], t.name, segs[k])
  {
    hide SafeComponent, HashesFrom, Bencode, AnnounceUrl, FilesFrom, WellFormed, FileSegments, Declares;
    if Load(raw, sha1).Ok? {
      var t := Load(raw, sha1).value;
      if t.layout.MultiFile? {
        FilesAreDeclared(Get(Get(raw.entries, "info").value.entries, "files").value.items, t.name);
      }
    }
  }

  lemma {:induction false} FilesAreDeclared(items: seq<Value>, name: string)
    ensures FilesFrom(items).Ok? ==>
      var segs := FileSegments(name, FilesFrom(items).value);
      |segs| == |items| && forall k :: 0 <= k < |segs| ==> Declares(items[k], name, segs[k])
  {
    hide Declares, EntryFrom;
    if items != [] && FilesFrom(items).Ok? {
      var n := |items| - 1;
      FilesAreDeclared(items[..n], name);
      var files := FilesFrom(items).value;
      assert files[..n] == FilesFrom(items[..n]).value && files[n] == EntryFrom(items[n]).value;
      EntryIsDeclared(items[n], name, Total(FileSegments(name, files[..n])));
    }
  }

  lemma EntryIsDeclared(entry: Value, name: string, start: nat)
    ensures EntryFrom(entry).Ok? ==>
      var file := EntryFrom(entry).value;
      Declares(entry, name, FileSegment([name] + file.path, file.length, start, start + file.length))
  {
    hide SafeComponent;
    if EntryFrom(entry).Ok? {
      var parts := Get(entry.entries, "path").value.items;
      forall j | 0 <= j < |parts| ensures parts[j].Text? { SafeIsText(parts[j]); }
    }
  }

  lemma SafeIsText(v: Value)
    ensures SafeComponent(v) ==> v.Text?
  {
  }

  /** The first announce URL, its name, its piece length and its piece hashes are those of the metainfo. */
  lemma LoadedFieldsAreDeclared(raw: Value, sha1: Hash)
    requires raw.Dict?
    ensures Load(raw, sha1).Ok? ==>
      var t := Load(raw, sha1).value;
      var announce, info := Get(raw.entries, "announce"), Get(raw.entries, "info");
      && announce.Some?
      && (announce.value.Text? ==> t.announce == Strip(announce.value.text))
      && (!announce.value.Text? ==>
            announce.value.List? && announce.value.items != []
            && announce.value.items[0].Text? && t.announce == Strip(announce.value.items[0].text))
      && t.announce != ""
      && info.Some? && info.value.Dict?
      && Get(info.value.entries, "name") == Some(Text(t.name))
      && Get(info.value.entries, "piece length") == Some(Int(t.pieceLength))
      && var pieces := Get(info.value.entries, "pieces");
         && pieces.Some?
         && (pieces.value.Text? ==>
               && |pieces.value.text| == 40 * |t.pieceHashes|
               && forall k :: 0 <= k < |t.pieceHashes| ==>
                    t.pieceHashes[k] == Lower(pieces.value.text[40 * k..40 * k + 40]))
         && (!pieces.value.Text? ==>
               && pieces.value.List? && |pieces.value.items| == |t.pieceHashes|
               && forall k :: 0 <= k < |t.pieceHashes| ==>
                    pieces.value.items[k].Text? && t.pieceHashes[k] == Lower(pieces.value.items[k].text))
         && forall k :: 0 <= k < |t.pieceHashes| ==>
              |t.pieceHashes[k]| == 40 && FromHex(t.pieceHashes[k]).Some?
  {
    hide HashesFrom, Bencode, LayoutFrom, WellFormed, Chunks, Lower, Strip, FromHex, ExpectedPieceCount;
    if Load(raw, sha1).Ok? {
      SafeIsText(Get(Get(raw.entries, "info").value.entries, "name").value);
      var pieces := Get(Get(raw.entries, "info").value.entries, "pieces").value;
      HashesAreLowered(PieceValues(pieces).value);
      if pieces.Text? { ChunksAreSlices(pieces.text); }
    }
  }

  lemma {:induction false} HashesAreLowered(items: seq<Value>)
    ensures HashesFrom(items).Ok? ==> forall k :: 0 <= k < |items| ==>
      && items[k].Text? && HashesFrom(items).value[k] == Lower(items[k].text)
      && |HashesFrom(items).value[k]| == 40 && FromHex(HashesFrom(items).value[k]).Some?
  {
    hide Lower, FromHex;
    if items != [] { HashesAreLowered(items[..|items| - 1]); }
  }

  lemma {:induction false} ChunksAreSlices(text: string)
    requires |text| % 40 == 0
    ensures |text| == 40 * |Chunks(text)|
    ensures forall k :: 0 <= k < |Chunks(text)| ==> Chunks(text)[k] == Text(text[40 * k..40 * k + 40])
  {
    if text != "" {
      var rest := text[40..];
      ChunksAreSlices(rest);
      forall k | 0 < k < |Chunks(text)| ensures Chunks(text)[k] == Text(text[40 * k..40 * k + 40]) {
        assert Chunks(text)[k] == Chunks(rest)[k - 1];
        assert rest[40 * (k - 1)..40 * (k - 1) + 40] == text[40 * k..40 * k + 40];
      }
    }
  }

  // ---- What is accepted --------------------------------------------------------

  predicate GoodUrl(v: Value) { v.Text? && !IsBlank(v.text) }

  predicate GoodAnnounce(v: Option<Value>) {
    v.Some? && (GoodUrl(v.value) || (v.value.List? && v.value.items != [] && AllUrls(v.value.items)))
  }

  predicate AllUrls(items: seq<Value>) { forall k :: 0 <= k < |items| ==> GoodUrl(items[k]) }

  predicate SafePath(v: Option<Value>) {
    v.Some? && v.value.List? && v.value.items != [] &&
    forall k :: 0 <= k < |v.value.items| ==> SafeComponent(v.value.items[k])
  }

  predicate GoodLength(v: Option<Value>) { v.Some? && NaturalNumber(v.value) }

  predicate GoodEntry(v: Value) { v.Dict? && GoodLength(Get(v.entries, "length")) && SafePath(Get(v.entries, "path")) }

  /** Every entry is in order, and no two list the same path. */
  predicate GoodFiles(items: seq<Value>) {
    && (forall k :: 0 <= k < |items| ==> GoodEntry(items[k]))
    && (forall j, k {:trigger items[j], items[k]} :: 0 <= j < k < |items| ==>
          Get(items[j].entries, "path") != Get(items[k].entries, "path"))
  }

  /** The length an entry declares, if it does. */
  function DeclaredLength(v: Value): nat {
    if v.Dict? && GoodLength(Get(v.entries, "length")) then Get(v.entries, "length").value.n else 0
  }

  function DeclaredSum(items: seq<Value>): nat {
    if items == [] then 0 else DeclaredSum(items[..|items| - 1]) + DeclaredLength(items[|items| - 1])
  }

  /** The declared total length, if exactly one layout is declared and it is in order. */
  function DeclaredTotal(info: seq<Entry>): Option<nat> {
    match (Get(info, "length"), Get(info, "files"))
    case (Some(length), None) => if NaturalNumber(length) then Some(length.n) else None
    case (None, Some(List(items))) => if items != [] && GoodFiles(items) then Some(DeclaredSum(items)) else None
    case _ => None
  }

  predicate GoodHash(v: Value) { v.Text? && |v.text| == 40 && FromHex(v.text).Some? }

  /** A list of 40-digit hashes, or all of them in one text. */
  predicate GoodPieces(v: Value, count: nat) {
    || (v.List? && |v.items| == count && forall k :: 0 <= k < count ==> GoodHash(v.items[k]))
    || (v.Text? && |v.text| == 40 * count && forall k :: 0 <= k < count ==> GoodHash(Text(v.text[40 * k..40 * k + 40])))
  }

  predicate GoodInfo(info: Value)
    requires info.Dict?
  {
    var name, pieceLength := Get(info.entries, "name"), Get(info.entries, "piece length");
    var total, pieces := DeclaredTotal(info.entries), Get(info.entries, "pieces");
    && name.Some? && SafeComponent(name.value)
    && pieceLength.Some? && pieceLength.value.Int? && pieceLength.value.n > 0
    && total.Some?
    && pieces.Some? && GoodPieces(pieces.value, ExpectedPieceCount(total.value, pieceLength.value.n))
    && Supported(info)
  }

  /**
   * Exactly which metainfo is accepted: good announce URLs, and an info object with a safe
   * name, a positive piece length, one layout in order, as many good hashes as the total
   * length needs, and nothing that cannot be encoded. The total length is the declared one.
   */
  lemma AcceptedMetainfo(raw: Value, sha1: Hash)
    requires raw.Dict?
    ensures var info := Get(raw.entries, "info");
      Load(raw, sha1).Ok? <==>
        GoodAnnounce(Get(raw.entries, "announce")) && info.Some? && info.value.Dict? && GoodInfo(info.value)
    ensures Load(raw, sha1).Ok? ==>
      DeclaredTotal(Get(raw.entries, "info").value.entries) == Some(Load(raw, sha1).value.totalLength)
  {
    hide GoodAnnounce, AnnounceUrl, GoodInfo, LoadInfo, DeclaredTotal;
    var announce, info := Get(raw.entries, "announce"), Get(raw.entries, "info");
    UrlIsGood(announce);
    if AnnounceUrl(announce).Some? && info.Some? && info.value.Dict? {
      AcceptedInfo(AnnounceUrl(announce).value, info.value, sha1);
    }
  }

  lemma UrlIsGood(v: Option<Value>)
    ensures AnnounceUrl(v).Some? <==> GoodAnnounce(v)
  {
    hide IsBlank, Strip;
  }

  lemma AcceptedInfo(announce: string, info: Value, sha1: Hash)
    requires info.Dict?
    ensures LoadInfo(announce, info, sha1).Ok? <==> GoodInfo(info)
    ensures LoadInfo(announce, info, sha1).Ok? ==>
      DeclaredTotal(info.entries) == Some(LoadInfo(announce, info, sha1).value.totalLength)
  {
    hide SafeComponent, LayoutFrom, DeclaredTotal, GoodPieces, PieceValues, HashesFrom, Bencode, Supported,
      ExpectedPieceCount, LayoutLength;
    BencodePrintsNormalForm(info);
    LayoutIsGood(info.entries);
    if LayoutFrom(info.entries).Ok? && Has(info.entries, "pieces") && Has(info.entries, "piece length")
       && Get(info.entries, "piece length").value.Int? && Get(info.entries, "piece length").value.n > 0
    {
      var count :=
        ExpectedPieceCount(LayoutLength(LayoutFrom(info.entries).value), Get(info.entries, "piece length").value.n);
      PiecesAreGood(Get(info.entries, "pieces").value, count);
    }
  }

  lemma LayoutIsGood(info: seq<Entry>)
    ensures LayoutFrom(info).Ok? <==> DeclaredTotal(info).Some?
    ensures LayoutFrom(info).Ok? ==> DeclaredTotal(info) == Some(LayoutLength(LayoutFrom(info).value))
  {
    hide GoodFiles, FilesFrom, SumLengths, DeclaredSum, DeclaredLength;
    match Get(info, "files")
    case Some(List(items)) => FilesAreGood(items);
    case _ =>
  }

  lemma {:induction false} FilesAreGood(items: seq<Value>)
    ensures FilesFrom(items).Ok? <==> GoodFiles(items)
    ensures FilesFrom(items).Ok? ==>
      && (forall k :: 0 <= k < |items| ==> EntryFrom(items[k]) == Ok(FilesFrom(items).value[k]))
      && SumLengths(FilesFrom(items).value) == DeclaredSum(items)
  {
    hide GoodEntry, EntryFrom, GoodFiles, DistinctFiles, DeclaredLength;
    if items == [] {
      GoodAreDictionaries(items);
    } else {
      var n := |items| - 1;
      FilesAreGood(items[..n]);
      EntryIsGood(items[n]);
      OneMoreEntry(items);
      GoodAreDictionaries(items[..n]);
      GoodAreDictionaries([items[n]]);
      if FilesFrom(items[..n]).Ok? && EntryFrom(items[n]).Ok? {
        var files, entry := FilesFrom(items[..n]).value, EntryFrom(items[n]).value;
        assert forall k :: 0 <= k < n ==> items[..n][k] == items[k];
        NewPath(items, files);
        if FilesFrom(items).Ok? {
          var longer := files + [entry];
          assert FilesFrom(items) == Ok(longer) && longer[..n] == files;
        }
      }
    }
  }

  lemma NewPath(items: seq<Value>, files: seq<FileEntry>)
    requires items != [] && |files| == |items| - 1 && EntryFrom(items[|items| - 1]).Ok?
    requires forall k :: 0 <= k < |files| ==> EntryFrom(items[k]) == Ok(files[k])
    requires forall k :: 0 <= k < |items| ==> items[k].Dict?
    ensures var n := |items| - 1;
      (exists k :: 0 <= k < n && files[k].path == EntryFrom(items[n]).value.path) <==>
      (exists k :: 0 <= k < n && Get(items[k].entries, "path") == Get(items[n].entries, "path"))
  {
    hide EntryFrom;
    var n := |items| - 1;
    forall k | 0 <= k < n
      ensures (files[k].path == EntryFrom(items[n]).value.path) <==>
        (Get(items[k].entries, "path") == Get(items[n].entries, "path"))
    {
      SamePath(items[k], items[n]);
    }
  }

  lemma GoodAreDictionaries(items: seq<Value>)
    ensures GoodFiles(items) ==> forall k :: 0 <= k < |items| ==> items[k].Dict?
    ensures |items| == 1 && GoodEntry(items[0]) ==> items[0].Dict?
    ensures items == [] ==> GoodFiles(items)
  {
  }

  lemma OneMoreEntry(items: seq<Value>)
    requires items != []
    ensures var n := |items| - 1;
      GoodFiles(items) <==>
        && GoodFiles(items[..n]) && GoodEntry(items[n])
        && forall k :: 0 <= k < n ==> Get(items[k].entries, "path") != Get(items[n].entries, "path")
  {
    hide GoodEntry;
    var n := |items| - 1;
    assert forall k :: 0 <= k < n ==> items[..n][k] == items[k];
  }

  lemma EntryIsGood(v: Value)
    ensures EntryFrom(v).Ok? <==> GoodEntry(v)
    ensures EntryFrom(v).Ok? ==> EntryFrom(v).value.length == DeclaredLength(v)
  {
    hide SafeComponent;
  }

  lemma SamePath(a: Value, b: Value)
    requires EntryFrom(a).Ok? && EntryFrom(b).Ok?
    ensures a.Dict? && b.Dict?
    ensures EntryFrom(a).value.path == EntryFrom(b).value.path <==> Get(a.entries, "path") == Get(b.entries, "path")
  {
    hide SafeComponent;
    var p, q := Get(a.entries, "path").value.items, Get(b.entries, "path").value.items;
    forall k | 0 <= k < |p| ensures p[k].Text? { SafeIsText(p[k]); }
    forall k | 0 <= k < |q| ensures q[k].Text? { SafeIsText(q[k]); }
    if Texts(p) == Texts(q) {
      assert forall k :: 0 <= k < |p| ==> p[k].text == Texts(p)[k] && q[k].text == Texts(q)[k];
      assert p == q;
    }
  }

  lemma PiecesAreGood(v: Value, count: nat)
    ensures GoodPieces(v, count) <==>
      PieceValues(v).Ok? && |PieceValues(v).value| == count && HashesFrom(PieceValues(v).value).Ok?
  {
    hide HashesFrom, Chunks, GoodHash;
    match v
    case List(items) => HashesAreGood(items);
    case Text(text) => if |text| % 40 == 0 { TextIsGood(text); }
    case _ =>
  }

  lemma TextIsGood(text: string)
    requires |text| % 40 == 0
    ensures |text| == 40 * |Chunks(text)|
    ensures HashesFrom(Chunks(text)).Ok? <==>
      forall k :: 0 <= k < |Chunks(text)| ==> GoodHash(Text(text[40 * k..40 * k + 40]))
  {
    hide HashesFrom, Chunks, GoodHash;
    HashesAreGood(Chunks(text));
    ChunksAreSlices(text);
    var items := Chunks(text);
    if forall k :: 0 <= k < |items| ==> GoodHash(Text(text[40 * k..40 * k + 40])) {
      forall k | 0 <= k < |items| ensures GoodHash(items[k]) {
        assert items[k] == Text(text[40 * k..40 * k + 40]);
      }
    }
    if forall k :: 0 <= k < |items| ==> GoodHash(items[k]) {
      forall k | 0 <= k < |items| ensures GoodHash(Text(text[40 * k..40 * k + 40])) {
        assert items[k] == Text(text[40 * k..40 * k + 40]);
      }
    }
  }

  lemma {:induction false} HashesAreGood(items: seq<Value>)
    ensures HashesFrom(items).Ok? <==> forall k :: 0 <= k < |items| ==> GoodHash(items[k])
  {
    hide GoodHash, HashFrom;
    if items != [] {
      HashesAreGood(items[..|items| - 1]);
      HashIsGood(items[|items| - 1]);
    }
  }

  lemma HashIsGood(v: Value)
    ensures HashFrom(v).Ok? <==> GoodHash(v)
  {
    hide FromHex, Lower;
    if v.Text? { FromHexIgnoresCase(v.text); }
  }

  function Concatenated(hashes: seq<string>): string {
    if hashes == [] then "" else hashes[0] + Concatenated(hashes[1..])
  }

  function TextValues(texts: seq<string>): (values: seq<Value>)
    ensures |values| == |texts|
    ensures forall k :: 0 <= k < |texts| ==> values[k] == Text(texts[k])
  {
    seq(|texts|, k requires 0 <= k < |texts| => Text(texts[k]))
  }

  /** The concatenated form of `pieces` means the same hashes as the list form. */
  lemma {:induction false} PieceFormsAgree(hashes: seq<string>)
    requires forall k :: 0 <= k < |hashes| ==> |hashes[k]| == 40
    ensures |Concatenated(hashes)| == 40 * |hashes|
    ensures PieceValues(Text(Concatenated(hashes))) == PieceValues(List(TextValues(hashes)))
  {
    if hashes != [] {
      var text, rest := Concatenated(hashes), Concatenated(hashes[1..]);
      PieceFormsAgree(hashes[1..]);
      assert text[..40] == hashes[0] && text[40..] == rest;
      assert TextValues(hashes) == [Text(hashes[0])] + TextValues(hashes[1..]);
    }
  }

  // ---- The loops of validation -------------------------------------------------

  /** `_validate_multiple_files`: the running total and the set of paths seen. */
  method ValidateMultipleFiles(items: seq<Value>)
    returns (r: Result<seq<FileEntry>, MetainfoError>, totalLength: nat)
    ensures r == FilesFrom(items)
    ensures r.Ok? ==> totalLength == SumLengths(r.value)
  {
    hide EntryFrom, DistinctFiles;
    var seenPaths: set<Path> := {};
    var files: seq<FileEntry> := [];
    totalLength := 0;
    for i := 0 to |items|
      invariant FilesFrom(items[..i]) == Ok(files)
      invariant seenPaths == set k | 0 <= k < |files| :: files[k].path
      invariant totalLength == SumLengths(files)
    {
      assert items[..i + 1][..i] == items[..i] && items[..i + 1][i] == items[i];
      var entry := EntryFrom(items[i]);
      if entry.Err? {
        FilesFromFails(items, i + 1);
        return Err(entry.error), 0;
      }
      if entry.value.path in seenPaths {
        FilesFromFails(items, i + 1);
        return Err(DuplicatePath), 0;
      }
      seenPaths := seenPaths + {entry.value.path};
      OneMorePath(files, entry.value);
      files := files + [entry.value];
      totalLength := totalLength + entry.value.length;
    }
    assert items[..|items|] == items;
    r := Ok(files);
  }

  lemma {:induction false} FilesFromFails(items: seq<Value>, i: nat)
    requires i <= |items| && FilesFrom(items[..i]).Err?
    ensures FilesFrom(items) == FilesFrom(items[..i])
  {
    hide EntryFrom;
    if i == |items| {
      assert items[..i] == items;
    } else {
      assert items[..|items| - 1][..i] == items[..i];
      FilesFromFails(items[..|items| - 1], i);
    }
  }

  lemma OneMorePath(files: seq<FileEntry>, entry: FileEntry)
    ensures var longer := files + [entry];
      && (set k | 0 <= k < |longer| :: longer[k].path) == (set k | 0 <= k < |files| :: files[k].path) + {entry.path}
      && SumLengths(longer) == SumLengths(files) + entry.length
  {
    var longer := files + [entry];
    assert longer[..|longer| - 1] == files;
    assert longer[|files|].path == entry.path;
    assert forall k :: 0 <= k < |files| ==> longer[k].path == files[k].path;
  }

  /** The loop that checks and lower-cases the piece hashes. */
  method NormalizeHashes(pieces: seq<Value>) returns (r: Result<seq<string>, MetainfoError>)
    ensures r == HashesFrom(pieces)
  {
    hide HashFrom;
    var hashes: seq<string> := [];
    for i := 0 to |pieces|
      invariant HashesFrom(pieces[..i]) == Ok(hashes)
    {
      assert pieces[..i + 1][..i] == pieces[..i] && pieces[..i + 1][i] == pieces[i];
      var hash := HashFrom(pieces[i]);
      if hash.Err? {
        HashesFromFails(pieces, i + 1);
        return Err(hash.error);
      }
      hashes := hashes + [hash.value];
    }
    assert pieces[..|pieces|] == pieces;
    r := Ok(hashes);
  }

  lemma {:induction false} HashesFromFails(items: seq<Value>, i: nat)
    requires i <= |items| && HashesFrom(items[..i]).Err?
    ensures HashesFrom(items) == HashesFrom(items[..i])
  {
    hide HashFrom;
    if i == |items| {
      assert items[..i] == items;
    } else {
      assert items[..|items| - 1][..i] == items[..i];
      HashesFromFails(items[..|items| - 1], i);
    }
  }

  /** The object whose fields validation fills in, all at once and only when it succeeds. */
  class MetainfoFile {
    const sha1: Hash
    var torrent: Option<Torrent>

    constructor (sha1: Hash)
      ensures this.sha1 == sha1 && torrent == None
    {
      this.sha1 := sha1;
      torrent := None;
    }

    method LoadFrom(raw: Value) returns (error: Option<MetainfoError>)
      requires raw.Dict?
      modifies this
      ensures error == if Load(raw, sha1).Ok? then None else Some(Load(raw, sha1).error)
      ensures torrent == if Load(raw, sha1).Ok? then Some(Load(raw, sha1).value) else old(torrent)
    {
      hide AnnounceUrl, WellFormed, Bencode, FilesFrom, HashesFrom;
      var announce, info := AnnounceUrl(Get(raw.entries, "announce")), Get(raw.entries, "info");
      if announce.None? { return Some(BadAnnounce); }
      if info.None? || !info.value.Dict? { return Some(InfoNotObject); }
      var es := info.value.entries;
      if !Has(es, "name") || !Has(es, "piece length") || !Has(es, "pieces") { return Some(MissingFields); }
      var name, pieceLength := Get(es, "name").value, Get(es, "piece length").value;
      if !SafeComponent(name) { return Some(BadName); }
      if !pieceLength.Int? || pieceLength.n <= 0 { return Some(BadPieceLength); }
      var layout, total, failure := ValidateLayout(es);
      if failure.Some? { return failure; }
      var count := ExpectedPieceCount(total, pieceLength.n);
      var pieces := PieceValues(Get(es, "pieces").value);
      if pieces.Err? { return Some(pieces.error); }
      if |pieces.value| != count { return Some(PieceCountMismatch); }
      var hashes := NormalizeHashes(pieces.value);
      if hashes.Err? { return Some(hashes.error); }
      var encoded := Encoder(info.value);
      if encoded.Err? { return Some(NotEncodable(encoded.error)); }
      torrent := Some(Torrent(announce.value, name.text, layout, pieceLength.n, hashes.value, total, count,
                              sha1(encoded.value)));
      error := None;
    }
  }

  method ValidateLayout(info: seq<Entry>)
    returns (layout: Layout, total: nat, failure: Option<MetainfoError>)
    ensures failure == if LayoutFrom(info).Ok? then None else Some(LayoutFrom(info).error)
    ensures failure.None? ==> layout == LayoutFrom(info).value && total == LayoutLength(layout)
  {
    hide FilesFrom;
    var length, files := Get(info, "length"), Get(info, "files");
    layout, total := SingleFile(0), 0;
    if length.Some? == files.Some? { return layout, total, Some(NotExactlyOneLayout); }
    if length.Some? {
      if !NaturalNumber(length.value) { return layout, total, Some(BadLength); }
      return SingleFile(length.value.n), length.value.n, None;
    }
    if !files.value.List? || files.value.items == [] { return layout, total, Some(BadFiles); }
    var entries, sum := ValidateMultipleFiles(files.value.items);
    if entries.Err? { return layout, total, Some(entries.error); }
    layout, total, failure := MultiFile(entries.value), sum, None;
  }

  // ---- The info hash -----------------------------------------------------------

  /** What `json.load` can return: objects have distinct text keys. */
  predicate IsJson(v: Value)
    decreases v
  {
    && !v.Raw? && !v.Tuple?
    && (v.Dict? ==>
          && (forall k :: 0 <= k < |v.entries| ==> v.entries[k].key.TextKey?)
          && (forall i, j {:trigger v.entries[i], v.entries[j]} ::
                0 <= i < j < |v.entries| ==> v.entries[i].key != v.entries[j].key))
    && forall k :: 0 <= k < |Children(v)| ==> IsJson(Children(v)[k])
  }

  /** Text keys never collide in UTF-8. */
  lemma {:induction false} JsonKeysDistinct(v: Value)
    requires IsJson(v)
    ensures KeysDistinct(v)
    decreases v
  {
    if v.Dict? {
      forall i, j | 0 <= i < j < |v.entries| ensures Keys(v.entries)[i] != Keys(v.entries)[j] {
        if Keys(v.entries)[i] == Keys(v.entries)[j] {
          Utf8.EncodeIsInjective(v.entries[i].key.text, v.entries[j].key.text);
        }
      }
    }
    forall k | 0 <= k < |Children(v)| ensures KeysDistinct(Children(v)[k]) {
      JsonKeysDistinct(Children(v)[k]);
    }
  }

  /** The info hash does not depend on the order of JSON keys, at any depth. */
  lemma InfoHashIgnoresKeyOrder(a: Value, b: Value, urlA: string, urlB: string, sha1: Hash)
    requires a.Dict? && b.Dict? && IsJson(a) && IsJson(b) && BencodeCanonical.SameUpToOrder(a, b)
    ensures LoadInfo(urlA, a, sha1).Ok? && LoadInfo(urlB, b, sha1).Ok? ==>
      LoadInfo(urlA, a, sha1).value.infoHash == LoadInfo(urlB, b, sha1).value.infoHash
  {
    hide LoadInfo;
    if LoadInfo(urlA, a, sha1).Ok? && LoadInfo(urlB, b, sha1).Ok? {
      BencodePrintsNormalForm(a);
      BencodePrintsNormalForm(b);
      JsonKeysDistinct(a);
      JsonKeysDistinct(b);
      BencodeCanonical.OrderIndependent(a, b);
    }
  }

  /**
   * Equal info hashes mean equal normal forms, unless the two encodings are themselves a
   * SHA-1 collision: nothing in the encoding loses a difference.
   */
  lemma InfoHashDeterminesInfo(a: Value, b: Value, urlA: string, urlB: string, sha1: Hash)
    requires a.Dict? && b.Dict?
    ensures
      && LoadInfo(urlA, a, sha1).Ok? && LoadInfo(urlB, b, sha1).Ok?
      && LoadInfo(urlA, a, sha1).value.infoHash == LoadInfo(urlB, b, sha1).value.infoHash
      ==>
        && Supported(a) && Supported(b)
        && (Normalize(a) == Normalize(b) ||
            (Bencode(a).value != Bencode(b).value && sha1(Bencode(a).value) == sha1(Bencode(b).value)))
  {
    hide LoadInfo;
    BencodePrintsNormalForm(a);
    BencodePrintsNormalForm(b);
    if Supported(a) && Supported(b) { BencodeCanonical.EqualEncodingsIffEqualNormalForms(a, b); }
  }
}
