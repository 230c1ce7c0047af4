/**
 * tools/create_metainfo.py and the peer that seeds what it describes: generated metainfo
 * validates, and a piece manager over the same files finds every piece.
 */
module Seeder {
  import opened Wrappers
  import opened ByteStrings
  import opened HexText
  import opened PyText
  import opened BencodeEncoder
  import opened Storage
  import opened Torrents
  import opened PieceStore
  import opened Metainfo
  import opened MetainfoGenerator

  datatype InputFile = InputFile(name: string, content: Bytes)

  datatype GenerateError = NoInput | BlankTracker | PieceLengthNotPositive | NameRequired

  function Contents(files: seq<InputFile>): Bytes {
    if files == [] then [] else Contents(files[..|files| - 1]) + files[|files| - 1].content
  }

  /** The torrent name: `torrent_name or source.name` for one file, else the given one. */
  function TorrentName(files: seq<InputFile>, name: Option<string>): string
    requires files != []
  {
    if |files| == 1 && (name.None? || name.value == "") then files[0].name
    else if name.None? then "" else name.value
  }

  function HashValues(hashes: seq<string>): seq<Value> {
    seq(|hashes|, k requires 0 <= k < |hashes| => Text(hashes[k]))
  }

  function FileValue(file: InputFile): Value {
    Dict([Entry(TextKey("length"), Int(|file.content|)), Entry(TextKey("path"), List([Text(file.name)]))])
  }

  function FileValues(files: seq<InputFile>): seq<Value> {
    seq(|files|, k requires 0 <= k < |files| => FileValue(files[k]))
  }

  /** The `info` object, with its keys in the order the tool writes them. */
  function InfoEntries(files: seq<InputFile>, name: string, p: int, hashes: seq<string>): seq<Entry>
    requires files != []
  {
    if |files| == 1 then
      [Entry(TextKey("name"), Text(name)), Entry(TextKey("length"), Int(|files[0].content|)),
       Entry(TextKey("piece length"), Int(p)), Entry(TextKey("pieces"), List(HashValues(hashes)))]
    else
      [Entry(TextKey("name"), Text(name)), Entry(TextKey("files"), List(FileValues(files))),
       Entry(TextKey("piece length"), Int(p)), Entry(TextKey("pieces"), List(HashValues(hashes)))]
  }

  /** `create_metainfo`, up to the JSON file it writes. */
  function CreateMetainfo(
    files: seq<InputFile>, tracker: string, p: int, name: Option<string>, sha1: Hash)
    : Result<Value, GenerateError>
  {
    if files == [] then Err(NoInput)
    else if IsBlank(tracker) then Err(BlankTracker)
    else if p <= 0 then Err(PieceLengthNotPositive)
    else if |files| > 1 && (name.None? || IsBlank(name.value)) then Err(NameRequired)
    else Ok(Dict([
      Entry(TextKey("announce"), Text(tracker)),
      Entry(TextKey("info"), Dict(InfoEntries(files, TorrentName(files, name), p,
                                              SliceHashes(Contents(files), p, sha1))))]))
  }

  /** The tool itself: `chunks[k]` are the chunks that reading file k returns. */
  method Generate(
    files: seq<InputFile>, chunks: seq<seq<Bytes>>, tracker: string, p: int, name: Option<string>, sha1: Hash)
    returns (r: Result<Value, GenerateError>)
    requires |chunks| == |files| && forall k :: 0 <= k < |files| ==> Concat(chunks[k]) == files[k].content
    ensures r == CreateMetainfo(files, tracker, p, name, sha1)
  {
    hide SliceHashes, Contents;
    if files == [] { return Err(NoInput); }
    if IsBlank(tracker) { return Err(BlankTracker); }
    if p <= 0 { return Err(PieceLengthNotPositive); }
    var hashes := CalculatePieceHashes(chunks, p, sha1);
    ChunksAreContents(files, chunks);
    if |files| > 1 && (name.None? || IsBlank(name.value)) { return Err(NameRequired); }
    var info := Dict(InfoEntries(files, TorrentName(files, name), p, hashes.value));
    r := Ok(Dict([Entry(TextKey("announce"), Text(tracker)), Entry(TextKey("info"), info)]));
  }

  lemma {:induction false} ChunksAreContents(files: seq<InputFile>, chunks: seq<seq<Bytes>>)
    requires |chunks| == |files| && forall k :: 0 <= k < |files| ==> Concat(chunks[k]) == files[k].content
    ensures ConcatFiles(chunks) == Contents(files)
  {
    hide Concat;
    if files == [] {
    } else {
      var n := |files| - 1;
      ChunksAreContents(files[..n], chunks[..n]);
      LastFile(chunks);
    }
  }

  lemma {:induction false} LastFile(chunks: seq<seq<Bytes>>)
    requires chunks != []
    ensures ConcatFiles(chunks) == ConcatFiles(chunks[..|chunks| - 1]) + Concat(chunks[|chunks| - 1])
  {
    hide Concat;
    var n := |chunks| - 1;
    if n == 0 {
      assert chunks[1..] == [] && chunks[..0] == [];
    } else {
      LastFile(chunks[1..]);
      assert chunks[1..][..n - 1] == chunks[..n][1..];
    }
  }

  // ---- Generated metainfo validates --------------------------------------------

  predicate SafeName(name: string) { SafeComponent(Text(name)) }

  /** What the names must satisfy for the result to be loadable. */
  ghost predicate LoadableNames(files: seq<InputFile>, name: Option<string>)
    requires files != []
  {
    && SafeName(TorrentName(files, name))
    && (|files| > 1 ==>
          && (forall k :: 0 <= k < |files| ==> SafeName(files[k].name))
          && (forall i, j :: 0 <= i < j < |files| ==> files[i].name != files[j].name))
  }

  lemma {:induction false} HexIsLowerCase(d: Bytes)
    ensures forall k :: 0 <= k < |Hex(d)| ==> LowerChar(Hex(d)[k]) == Hex(d)[k]
  {
    if d != [] {
      HexIsLowerCase(d[1..]);
      AlphabetDigit(d[0] / 16);
      AlphabetDigit(d[0] % 16);
    }
  }

  lemma HexHashAccepted(d: Digest)
    ensures HashFrom(Text(Hex(d))) == Ok(Hex(d))
  {
    HexIsLowerCase(d);
    FromHexOfHex(d);
    assert Lower(Hex(d)) == Hex(d);
  }

  lemma {:induction false} HashesAccepted(hashes: seq<string>)
    requires forall k :: 0 <= k < |hashes| ==> HashFrom(Text(hashes[k])) == Ok(hashes[k])
    ensures HashesFrom(HashValues(hashes)) == Ok(hashes)
  {
    hide HashFrom;
    var values := HashValues(hashes);
    if hashes != [] {
      var n := |hashes| - 1;
      HashesAccepted(hashes[..n]);
      assert values[..n] == HashValues(hashes[..n]);
      assert hashes[..n] + [hashes[n]] == hashes;
    }
  }

  function Entries(files: seq<InputFile>): (entries: seq<FileEntry>)
    ensures |entries| == |files|
    ensures forall k :: 0 <= k < |entries| ==> entries[k] == FileEntry([files[k].name], |files[k].content|)
  {
    seq(|files|, k requires 0 <= k < |files| => FileEntry([files[k].name], |files[k].content|))
  }

  lemma EntryAccepted(file: InputFile)
    ensures EntryFrom(FileValue(file)) ==
      if SafeName(file.name) then Ok(FileEntry([file.name], |file.content|)) else Err(BadFilePath)
  {
    hide SafeComponent;
    var es := FileValue(file).entries;
    assert es[1..] == [Entry(TextKey("path"), List([Text(file.name)]))];
    assert Get(es, "length") == Some(Int(|file.content|));
    assert Get(es, "path") == Some(List([Text(file.name)]));
    var items := [Text(file.name)];
    assert items[0] == Text(file.name);
    if SafeName(file.name) { assert Texts(items) == [file.name]; }
  }

  /** The file list is accepted exactly when the names are safe and distinct. */
  lemma {:induction false} FilesAccepted(files: seq<InputFile>)
    ensures FilesFrom(FileValues(files)).Ok? <==>
      && (forall k :: 0 <= k < |files| ==> SafeName(files[k].name))
      && (forall i, j :: 0 <= i < j < |files| ==> files[i].name != files[j].name)
    ensures FilesFrom(FileValues(files)).Ok? ==> FilesFrom(FileValues(files)) == Ok(Entries(files))
  {
    hide EntryFrom, SafeComponent, SafeName, DistinctFiles;
    var values := FileValues(files);
    if files != [] {
      var n := |files| - 1;
      var front := files[..n];
      FilesAccepted(front);
      assert values[..n] == FileValues(front);
      EntryAccepted(files[n]);
      assert Entries(files) == Entries(front) + [FileEntry([files[n].name], |files[n].content|)];
      assert forall k :: 0 <= k < n ==> files[k] == front[k];
      assert forall k :: 0 <= k < n ==>
        (Entries(front)[k].path == [files[n].name] <==> files[k].name == files[n].name);
    }
  }

  lemma TextsSupported(hashes: seq<string>)
    ensures Supported(List(HashValues(hashes)))
  {
  }

  lemma FilesSupported(files: seq<InputFile>)
    ensures Supported(List(FileValues(files)))
  {
    forall k | 0 <= k < |files| ensures Supported(FileValue(files[k])) {
      FileSupported(files[k]);
    }
  }

  lemma FileSupported(file: InputFile)
    ensures Supported(FileValue(file))
  {
    var v := FileValue(file);
    assert Children(List([Text(file.name)])) == [Text(file.name)];
    assert Supported(Text(file.name));
    assert Children(v) == [Int(|file.content|), List([Text(file.name)])];
    assert Supported(Int(|file.content|));
  }

  lemma InfoSupported(files: seq<InputFile>, name: string, p: int, hashes: seq<string>)
    requires files != []
    ensures Bencode(Dict(InfoEntries(files, name, p, hashes))).Ok?
  {
    hide HashValues, FileValues;
    var v := Dict(InfoEntries(files, name, p, hashes));
    TextsSupported(hashes);
    FilesSupported(files);
    assert Supported(Text(name)) && Supported(Int(p)) && Supported(Int(|files[0].content|));
    var layout := if |files| == 1 then Int(|files[0].content|) else List(FileValues(files));
    assert Children(v) == [Text(name), layout, Int(p), List(HashValues(hashes))];
    BencodePrintsNormalForm(v);
  }

  /** The info object's fields, as validation looks them up. */
  lemma InfoLookups(files: seq<InputFile>, name: string, p: int, hashes: seq<string>)
    requires files != []
    ensures var es := InfoEntries(files, name, p, hashes);
      && Get(es, "name") == Some(Text(name)) && Get(es, "piece length") == Some(Int(p))
      && Get(es, "pieces") == Some(List(HashValues(hashes)))
      && Get(es, "length") == (if |files| == 1 then Some(Int(|files[0].content|)) else None)
      && Get(es, "files") == (if |files| == 1 then None else Some(List(FileValues(files))))
  {
    hide HashValues, FileValues, Get;
    var es := InfoEntries(files, name, p, hashes);
    GetAt(es, "name", 0);
    if |files| == 1 {
      GetAt(es, "length", 1);
      GetNothing(es, "files");
    } else {
      GetAt(es, "files", 1);
      GetNothing(es, "length");
    }
    GetAt(es, "piece length", 2);
    GetAt(es, "pieces", 3);
  }

  function LayoutOf(files: seq<InputFile>): Layout
    requires files != []
  {
    if |files| == 1 then SingleFile(|files[0].content|) else MultiFile(Entries(files))
  }

  lemma {:induction false} LayoutLengthIsContents(files: seq<InputFile>)
    ensures SumLengths(Entries(files)) == |Contents(files)|
  {
    if files != [] {
      var n := |files| - 1;
      LayoutLengthIsContents(files[..n]);
      assert Entries(files)[..n] == Entries(files[..n]);
    }
  }

  lemma OneFile(files: seq<InputFile>)
    requires |files| == 1
    ensures Contents(files) == files[0].content
  {
    assert files[..0] == [];
  }

  /** What a torrent generated from these files must be. */
  ghost predicate Describes(t: Torrent, files: seq<InputFile>, name: Option<string>, p: int, sha1: Hash)
    requires files != []
  {
    && WellFormed(t) && p > 0 && t.pieceLength == p
    && t.name == TorrentName(files, name) && t.layout == LayoutOf(files)
    && (if |files| == 1 && (name == None || name == Some("")) then t.name == files[0].name else name == Some(t.name))
    && t.totalLength == |Contents(files)|
    && t.pieceHashes == SliceHashes(Contents(files), p, sha1)
  }

  /**
   * Metainfo made by the tool is accepted by validation exactly when the torrent name is
   * safe and, for several files, so are the file names, which must also be distinct.
   */
  lemma GeneratedMetainfoValidates(
    files: seq<InputFile>, tracker: string, p: int, name: Option<string>, sha1: Hash)
    requires CreateMetainfo(files, tracker, p, name, sha1).Ok?
    ensures var raw := CreateMetainfo(files, tracker, p, name, sha1).value;
      && raw.Dict? && files != []
      && (Load(raw, sha1).Ok? <==> LoadableNames(files, name))
      && (Load(raw, sha1).Ok? ==> Describes(Load(raw, sha1).value, files, name, p, sha1))
  {
    hide SliceHashes, Contents, SafeComponent, HashesFrom, FilesFrom, WellFormed, Bencode, HashValues, FileValues,
      ExpectedPieceCount, InfoEntries, IsBlank, Strip;
    var raw := CreateMetainfo(files, tracker, p, name, sha1).value;
    var torrentName := TorrentName(files, name);
    var hashes := SliceHashes(Contents(files), p, sha1);
    var info := Dict(InfoEntries(files, torrentName, p, hashes));
    assert raw.entries == [Entry(TextKey("announce"), Text(tracker)), Entry(TextKey("info"), info)];
    assert raw.entries[1..] == [Entry(TextKey("info"), info)];
    assert Get(raw.entries, "announce") == Some(Text(tracker));
    assert Get(raw.entries, "info") == Some(info);
    InfoLookups(files, torrentName, p, hashes);
    InfoSupported(files, torrentName, p, hashes);
    SliceHashesAreSlices(Contents(files), p, sha1);
    forall k | 0 <= k < |hashes| ensures HashFrom(Text(hashes[k])) == Ok(hashes[k]) {
      HexHashAccepted(sha1(Clamped(Contents(files), k * p, k * p + p)));
    }
    HashesAccepted(hashes);
    HashValuesLength(hashes);
    FileValuesLength(files);
    if |files| == 1 { OneFile(files); } else {
      FilesAccepted(files);
      LayoutLengthIsContents(files);
    }
  }

  lemma HashValuesLength(hashes: seq<string>)
    ensures |HashValues(hashes)| == |hashes|
  {
  }

  lemma FileValuesLength(files: seq<InputFile>)
    ensures |FileValues(files)| == |files|
  {
  }

  // ---- The seeding peer --------------------------------------------------------

  function PathOf(files: seq<InputFile>, torrentName: string, k: nat): Path
    requires k < |files|
  {
    if |files| == 1 then [torrentName] else [torrentName, files[k].name]
  }

  /** The disk holds the shared files at the places the metainfo gives them. */
  ghost predicate HoldsFiles(disk: Disk, files: seq<InputFile>, torrentName: string) {
    forall k :: 0 <= k < |files| ==>
      PathOf(files, torrentName, k) in disk && disk[PathOf(files, torrentName, k)] == files[k].content
  }

  lemma {:induction false} StreamOfFiles(disk: Disk, files: seq<InputFile>, torrentName: string)
    requires forall k :: 0 <= k < |files| ==>
      [torrentName, files[k].name] in disk && disk[[torrentName, files[k].name]] == files[k].content
    ensures Flat(disk, FileSegments(torrentName, Entries(files))) == Contents(files)
    ensures AllBacked(disk, FileSegments(torrentName, Entries(files)))
  {
    var segs := FileSegments(torrentName, Entries(files));
    if files != [] {
      var n := |files| - 1;
      var last := files[n];
      StreamOfFiles(disk, files[..n], torrentName);
      assert Entries(files)[..n] == Entries(files[..n]);
      var front := FileSegments(torrentName, Entries(files[..n]));
      assert segs[..|segs| - 1] == front;
      assert [torrentName] + [last.name] == [torrentName, last.name];
      assert Padded(last.content, |last.content|) == last.content;
      assert segs == front + [segs[|segs| - 1]];
    }
  }

  lemma StreamOfHeldFiles(disk: Disk, files: seq<InputFile>, name: Option<string>, t: Torrent, p: int, sha1: Hash)
    requires files != [] && Describes(t, files, name, p, sha1)
    requires HoldsFiles(disk, files, TorrentName(files, name))
    ensures Flat(disk, Segments(t)) == Contents(files) && AllBacked(disk, Segments(t))
  {
    hide WellFormed, SliceHashes, TorrentName;
    if |files| == 1 {
      OneFile(files);
      var seg := FileSegment([t.name], t.totalLength, 0, t.totalLength);
      assert Segments(t) == [seg] && [seg][..0] == [];
      assert PathOf(files, t.name, 0) in disk;
      assert Flat(disk, [seg][..0]) == [];
      assert Padded(files[0].content, |files[0].content|) == files[0].content;
    } else {
      forall k | 0 <= k < |files|
        ensures [t.name, files[k].name] in disk && disk[[t.name, files[k].name]] == files[k].content
      {
        assert PathOf(files, t.name, k) in disk;
      }
      StreamOfFiles(disk, files, t.name);
    }
  }

  /**
   * Seeder completeness: a piece manager over the files the metainfo was made from finds
   * every piece available and has nothing left to download.
   */
  lemma SeederIsComplete(
    files: seq<InputFile>, tracker: string, p: int, name: Option<string>, sha1: Hash, disk: Disk, createMissing: bool)
    requires CreateMetainfo(files, tracker, p, name, sha1).Ok? && files != [] && LoadableNames(files, name)
    requires HoldsFiles(disk, files, TorrentName(files, name))
    ensures var raw := CreateMetainfo(files, tracker, p, name, sha1).value;
      && raw.Dict? && Load(raw, sha1).Ok?
      && var c := Config(Load(raw, sha1).value, sha1);
         var s := Open(c, disk, createMissing);
         AllSet(s.bits) && LeftBytes(c.torrent, s.bits) == 0
  {
    hide CreateMetainfo, Load, LoadableNames, HoldsFiles, TorrentName, SliceHashes, Contents, Segments, Flat, AllBacked,
      Scan, Prepare, LeftBytes, AllReadable, WellFormed;
    GeneratedMetainfoValidates(files, tracker, p, name, sha1);
    var t := Load(CreateMetainfo(files, tracker, p, name, sha1).value, sha1).value;
    var c := Config(t, sha1);
    var s := Open(c, disk, createMissing);
    StreamOfHeldFiles(disk, files, name, t, p, sha1);
    PrepareBacks(disk, Segments(t));
    PreparedStream(disk, Segments(t));
    EveryPieceFound(c, s.disk, Contents(files));
    LeftIsZeroIffComplete(t, s.bits);
  }

  lemma EveryPieceFound(c: Config, disk: Disk, stream: Bytes)
    requires WellFormed(c.torrent) && |stream| == c.torrent.totalLength
    requires Flat(disk, Segments(c.torrent)) == stream && AllBacked(disk, Segments(c.torrent))
    requires c.torrent.pieceHashes == SliceHashes(stream, c.torrent.pieceLength, c.sha1)
    ensures |Scan(c, disk)| == c.torrent.pieceCount && AllSet(Scan(c, disk))
  {
    hide SliceHashes, Segments, Flat, AllBacked, Available, AllReadable, PieceStart, Piece, PieceOf;
    var t := c.torrent;
    SegmentsTile(t);
    SegmentEnds(Segments(t));
    SliceHashesAreSlices(stream, t.pieceLength, c.sha1);
    forall i | 0 <= i < t.pieceCount ensures Available(c, disk, i) {
      AvailableMeaning(c, disk, i);
      BackedIsReadable(disk, Segments(t), PieceStart(t, i), PieceEnd(t, i));
      SliceIsPiece(t, stream, i);
      assert Piece(c, disk, i) == PieceOf(t, stream, i) by { StreamPiece(c, disk, i); }
    }
  }

  lemma StreamPiece(c: Config, disk: Disk, i: nat)
    requires WellFormed(c.torrent) && i < c.torrent.pieceCount
    ensures Piece(c, disk, i) == PieceOf(c.torrent, Flat(disk, Segments(c.torrent)), i)
  {
  }

  lemma PreparedStream(disk: Disk, segs: seq<FileSegment>)
    requires OnlyPadded(disk, Prepare(disk, segs))
    ensures Flat(Prepare(disk, segs), segs) == Flat(disk, segs)
  {
    hide Padded, Prepare;
    FlatOfPrepared(Prepare(disk, segs), disk, segs);
  }

  lemma SliceIsPiece(t: Torrent, stream: Bytes, i: nat)
    requires WellFormed(t) && i < t.pieceCount && |stream| == t.totalLength
    ensures Clamped(stream, i * t.pieceLength, i * t.pieceLength + t.pieceLength) == PieceOf(t, stream, i)
  {
    hide WellFormed, PieceSize;
    PieceInside(t, i);
    Next(i, t.pieceLength);
  }
}
