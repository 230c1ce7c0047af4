/**
 * From published files to received files: the metainfo tool, validation, the seeder's piece
 * manager and server, and a downloader that meets any number of hostile peers before it
 * meets the seeder.
 */
module Publication {
  import opened Wrappers
  import opened ByteStrings
  import opened HexText
  import opened Storage
  import opened Torrents
  import opened PieceStore
  import opened Metainfo
  import opened MetainfoGenerator
  import opened Seeder
  import opened PieceClients
  import D = DownloadTheorems
  import P = PieceTheorems
  import Server = PeerServers
  import X = PeerExchange
  import Framing
  import PeerWire
  import PyText

  /** The published torrent. */
  function Published(files: seq<InputFile>, tracker: string, p: int, name: Option<string>, sha1: Hash): Torrent
    requires CreateMetainfo(files, tracker, p, name, sha1).Ok?
    requires Load(CreateMetainfo(files, tracker, p, name, sha1).value, sha1).Ok?
  {
    Load(CreateMetainfo(files, tracker, p, name, sha1).value, sha1).value
  }

  lemma GeneratedHashes(c: Config, stream: Bytes)
    requires WellFormed(c.torrent) && |stream| == c.torrent.totalLength
    requires c.torrent.pieceHashes == SliceHashes(stream, c.torrent.pieceLength, c.sha1)
    ensures P.HashesOf(c, stream)
  {
    hide SliceHashes, PieceOf, WellFormed, ExpectedPieceCount, SliceHash;
    CountsMatch(c.torrent);
    SliceHashesAreSlices(stream, c.torrent.pieceLength, c.sha1);
    forall i | 0 <= i < c.torrent.pieceCount
      ensures c.torrent.pieceHashes[i] == Hex(c.sha1(PieceOf(c.torrent, stream, i)))
    {
      SliceHashOfPiece(c.torrent, stream, c.sha1, i);
    }
  }

  lemma SliceHashOfPiece(t: Torrent, stream: Bytes, sha1: Hash, i: nat)
    requires WellFormed(t) && i < t.pieceCount && |stream| == t.totalLength
    ensures t.pieceLength > 0 && SliceHash(stream, t.pieceLength, sha1, i) == Hex(sha1(PieceOf(t, stream, i)))
  {
    hide WellFormed, PieceOf, Clamped, Hex;
    CountsMatch(t);
    SliceIsPiece(t, stream, i);
  }

  lemma CountsMatch(t: Torrent)
    requires WellFormed(t)
    ensures t.pieceLength > 0 && |t.pieceHashes| == t.pieceCount
  {
  }

  /** The k-th file is the k-th segment, and its bytes are that slice of the published stream. */
  lemma SegmentOfFile(
      disk: Disk, files: seq<InputFile>, name: Option<string>, t: Torrent, p: int, sha1: Hash, k: nat)
    requires files != [] && Describes(t, files, name, p, sha1) && k < |files|
    requires HoldsFiles(disk, files, TorrentName(files, name))
    ensures |Segments(t)| == |files|
    ensures var seg := Segments(t)[k];
      && seg.path == PathOf(files, t.name, k) && seg.length == |files[k].content|
      && 0 <= seg.start <= seg.end <= |Contents(files)|
      && Contents(files)[seg.start..seg.end] == files[k].content
  {
    hide SliceHashes, Flat, Contents, TorrentName;
    StreamOfHeldFiles(disk, files, name, t, p, sha1);
    SegmentsTile(t);
    SegmentPath(files, name, t, p, sha1, k);
    FlatSlice(disk, Segments(t), k);
    assert PathOf(files, t.name, k) in disk;
    assert Padded(files[k].content, |files[k].content|) == files[k].content;
  }

  lemma SegmentPath(files: seq<InputFile>, name: Option<string>, t: Torrent, p: int, sha1: Hash, k: nat)
    requires files != [] && Describes(t, files, name, p, sha1) && k < |files|
    ensures |Segments(t)| == |files|
    ensures Segments(t)[k].path == PathOf(files, t.name, k) && Segments(t)[k].length == |files[k].content|
  {
    hide SliceHashes, Contents, TorrentName, WellFormed, FileSegments;
    if |files| > 1 {
      FileSegmentPaths(t.name, Entries(files));
      assert [t.name] + [files[k].name] == [t.name, files[k].name];
    }
  }

  lemma ExactIsSound(c: Config, s: Store)
    requires Exact(c, s)
    ensures Sound(c, s) && Shaped(c, s)
  {
  }

  /** A downloader that has met only hostile peers so far is still sound. */
  lemma StillSound(cl: Client, disk: Disk, remotes: seq<Remote>)
    requires WellFormed(cl.config.torrent)
    ensures var start := Session(Open(cl.config, disk, true), 0);
      && Ready(cl, start)
      && Sound(cl.config, D.Downloads(cl, start, remotes).store)
  {
    hide Open, Sound, Exact, WellFormed, D.Downloads;
    P.OpenIsExact(cl.config, disk);
    ExactIsSound(cl.config, Open(cl.config, disk, true));
    D.DownloadsKeep(cl, Session(Open(cl.config, disk, true), 0), remotes);
  }

  /** One download from the seeder keeps a sound store sound, and completes it exactly when all messages fit. */
  lemma HonestDownloadCompletes(cl: Client, session: Session, sc: Server.ServerConfig, s: Server.Shared)
    requires Ready(cl, session) && Sound(cl.config, session.store)
    requires X.Matching(cl, sc, s) && Server.Ready(sc, s) && AllSet(s.store.bits)
    ensures |s.store.bits| == |session.store.bits| && X.Askable(sc, s, X.WantedFrom(session, s))
    ensures var wanted := X.WantedFrom(session, s);
      var (after, r) := Download(cl, session, X.HonestRemote(sc, s, cl, wanted));
      && Sound(cl.config, after.store)
      && (r.Ok? && r.value.complete <==> X.AllFit(cl, sc, s, wanted))
      && (r.Ok? && r.value.complete ==> r.value.errors == [] && AllSet(after.store.bits))
  {
    hide X.Matching, Download, Sound, AllSet, X.HonestRemote, Wanted, Missing, LeftBytes, WellFormed, X.ServerAfter,
      X.AllFit, X.Connects, X.OwnsWhatFits, X.ErrorsAre, X.Serving;
    X.HonestDownload(cl, session, sc, s);
    var remote := X.HonestRemote(sc, s, cl, X.WantedFrom(session, s));
    D.DownloadKeepsStore(cl, session, remote);
    D.DownloadAccounts(cl, session, remote);
    LeftIsZeroIffComplete(cl.config.torrent, Download(cl, session, remote).0.store.bits);
  }

  /** A seeder of the published files, a downloader of the same torrent, and the two libraries between them. */
  ghost predicate Participants(
    files: seq<InputFile>, tracker: string, p: int, name: Option<string>, sha1: Hash,
    seederDisk: Disk, sc: Server.ServerConfig, cl: Client)
  {
    && CreateMetainfo(files, tracker, p, name, sha1).Ok? && files != [] && LoadableNames(files, name)
    && Load(CreateMetainfo(files, tracker, p, name, sha1).value, sha1).Ok?
    && HoldsFiles(seederDisk, files, TorrentName(files, name))
    && cl.config == Config(Published(files, tracker, p, name, sha1), sha1)
    && cl.infoHash == cl.config.torrent.infoHash && sc.manager == Some(cl.config)
    && X.DecodesEncoded(cl.decode, sc.encode) && PeerWire.FaithfulCodec(sc.codec)
  }

  lemma ParticipantsFacts(
    files: seq<InputFile>, tracker: string, p: int, name: Option<string>, sha1: Hash,
    seederDisk: Disk, sc: Server.ServerConfig, cl: Client)
    requires Participants(files, tracker, p, name, sha1, seederDisk, sc, cl)
    ensures files != [] && WellFormed(cl.config.torrent) && cl.config.torrent.pieceLength == p
    ensures cl.config.torrent.totalLength == |Contents(files)|
    ensures P.HashesOf(cl.config, Contents(files))
    ensures Describes(cl.config.torrent, files, name, p, sha1)
    ensures var s := Server.Shared(Open(cl.config, seederDisk, true), {}, 0);
      X.Matching(cl, sc, s) && Server.Ready(sc, s) && AllSet(s.store.bits)
  {
    hide CreateMetainfo, Load, LoadableNames, HoldsFiles, TorrentName, Contents, Open, Sound, Exact, AllSet, WellFormed,
      Describes, P.HashesOf, LeftBytes, X.DecodesEncoded, PeerWire.FaithfulCodec;
    PublishedFacts(files, tracker, p, name, sha1);
    SeederIsComplete(files, tracker, p, name, sha1, seederDisk, true);
    P.OpenIsExact(cl.config, seederDisk);
    ExactIsSound(cl.config, Open(cl.config, seederDisk, true));
    GeneratedHashes(cl.config, Contents(files));
  }

  /**
   * Publish files, seed them, and download them: whatever files the downloader starts with
   * and whatever hostile peers it meets first, one download from the seeder completes if and
   * only if every message of it fits the size limits; and then it has reported no error, and
   * every published file that is not empty is on the downloader's disk, byte for byte, unless
   * a stored piece is a SHA-1 collision with the published one.
   */
  lemma OneHonestPeerSuffices(
      files: seq<InputFile>, tracker: string, p: int, name: Option<string>, sha1: Hash,
      seederDisk: Disk, sc: Server.ServerConfig, cl: Client, leecherDisk: Disk, remotes: seq<Remote>, k: nat)
    requires Participants(files, tracker, p, name, sha1, seederDisk, sc, cl)
    requires k < |files| && files[k].content != []
    ensures var c := cl.config;
      var s := Server.Shared(Open(c, seederDisk, true), {}, 0);
      var start := Session(Open(c, leecherDisk, true), 0);
      && Server.Ready(sc, s) && Ready(cl, start) && |Contents(files)| == c.torrent.totalLength
      && var session := D.Downloads(cl, start, remotes);
         && |s.store.bits| == |session.store.bits| && X.Askable(sc, s, X.WantedFrom(session, s))
         && var wanted := X.WantedFrom(session, s);
            var (after, r) := Download(cl, session, X.HonestRemote(sc, s, cl, wanted));
            var path := PathOf(files, c.torrent.name, k);
            && (r.Ok? && r.value.complete <==> X.AllFit(cl, sc, s, wanted))
            && (r.Ok? && r.value.complete ==>
                  && r.value.errors == []
                  && (|| P.Collides(c, after.store.disk, Contents(files))
                      || (&& path in after.store.disk && |after.store.disk[path]| >= |files[k].content|
                          && after.store.disk[path][..|files[k].content|] == files[k].content)))
  {
    ParticipantsFacts(files, tracker, p, name, sha1, seederDisk, sc, cl);
    hide CreateMetainfo, Load, LoadableNames, HoldsFiles, TorrentName, Contents, Open, Download, Sound, Exact, AllSet,
      WellFormed, Describes, PathOf, Segments, P.Collides, P.HashesOf, X.HonestRemote, D.Downloads, Wanted, Missing,
      LeftBytes, X.Matching, X.AllFit, X.Askable, Ready, Server.Ready;
    var c := cl.config;
    var s := Server.Shared(Open(c, seederDisk, true), {}, 0);
    StillSound(cl, leecherDisk, remotes);
    var session := D.Downloads(cl, Session(Open(c, leecherDisk, true), 0), remotes);
    HonestDownloadCompletes(cl, session, sc, s);
    var (after, r) := Download(cl, session, X.HonestRemote(sc, s, cl, X.WantedFrom(session, s)));
    if r.Ok? && r.value.complete {
      SegmentOfFile(seederDisk, files, name, c.torrent, p, sha1, k);
      P.CompleteFilesAreOriginal(c, after.store, Contents(files), k);
    }
  }

  /**
   * The tool accepts piece lengths that the exchange cannot carry: publish with pieces of more
   * than 6291456 bytes, and a downloader that misses the first piece misses it after any
   * download from the seeder.
   */
  lemma LargePiecesAreNotReceived(
      files: seq<InputFile>, tracker: string, p: int, name: Option<string>, sha1: Hash,
      seederDisk: Disk, sc: Server.ServerConfig, cl: Client, session: Session)
    requires Participants(files, tracker, p, name, sha1, seederDisk, sc, cl)
    requires X.Base64Length(sc.encode) && X.CarriesContent(sc.codec)
    requires X.LARGEST_PIECE < p <= |Contents(files)|
    requires Ready(cl, session) && |session.store.bits| > 0 && !session.store.bits[0]
    ensures var s := Server.Shared(Open(cl.config, seederDisk, true), {}, 0);
      && Server.Ready(sc, s) && |s.store.bits| == |session.store.bits|
      && var (after, r) := Download(cl, session, X.HonestRemote(sc, s, cl, X.WantedFrom(session, s)));
         !(r.Ok? && r.value.complete) && |after.store.bits| == |session.store.bits| && !after.store.bits[0]
  {
    ParticipantsFacts(files, tracker, p, name, sha1, seederDisk, sc, cl);
    hide CreateMetainfo, Load, LoadableNames, HoldsFiles, TorrentName, Contents, Open, Download, Exact, AllSet,
      WellFormed, Describes, X.HonestRemote, Wanted, Missing, LeftBytes, X.Matching, PieceSize, P.HashesOf, X.Base64Length,
      X.CarriesContent;
    var s := Server.Shared(Open(cl.config, seederDisk, true), {}, 0);
    FirstPieceIsLarge(cl.config.torrent);
    X.CountsAgree(cl, sc, s);
    SeederHasAll(s.store.bits);
    X.LargePieceStaysMissing(cl, session, sc, s, 0);
    var remote := X.HonestRemote(sc, s, cl, X.WantedFrom(session, s));
    D.DownloadAccounts(cl, session, remote);
    LeftIsZeroIffComplete(cl.config.torrent, Download(cl, session, remote).0.store.bits);
    SomeMissing(Download(cl, session, remote).0.store.bits);
  }

  lemma FirstPieceIsLarge(t: Torrent)
    requires WellFormed(t) && 0 < t.pieceLength <= t.totalLength
    ensures t.pieceCount > 0 && PieceSize(t, 0) >= t.pieceLength
  {
    CountBounds(t.totalLength, t.pieceLength);
  }

  lemma SeederHasAll(bits: seq<bool>)
    requires AllSet(bits)
    ensures |bits| > 0 ==> bits[0]
  {
  }

  lemma SomeMissing(bits: seq<bool>)
    ensures |bits| > 0 && !bits[0] ==> !AllSet(bits)
  {
  }

  lemma PublishedFacts(files: seq<InputFile>, tracker: string, p: int, name: Option<string>, sha1: Hash)
    requires CreateMetainfo(files, tracker, p, name, sha1).Ok? && files != []
    requires Load(CreateMetainfo(files, tracker, p, name, sha1).value, sha1).Ok?
    ensures var t := Published(files, tracker, p, name, sha1);
      && Describes(t, files, name, p, sha1) && WellFormed(t) && t.pieceLength == p
      && t.totalLength == |Contents(files)| && t.name == TorrentName(files, name)
      && t.pieceHashes == SliceHashes(Contents(files), p, sha1)
  {
    hide CreateMetainfo, Load, WellFormed, SliceHashes, Contents, TorrentName, LoadableNames;
    GeneratedMetainfoValidates(files, tracker, p, name, sha1);
  }

  // ---- An instance -------------------------------------------------------------

  const ONE_FILE: seq<InputFile> := [InputFile("f", [7])]

  /** Participants exist: one file of one byte, Base64 played by hexadecimal. */
  lemma OneByteIsPublished(
      sha1: Hash, peerId: Digest, wording: Server.ServerError -> string, codec: Framing.Codec, limit: Framing.Limit)
    requires PeerWire.FaithfulCodec(codec)
    ensures var created := CreateMetainfo(ONE_FILE, "http://t", 1, None, sha1);
      && created.Ok? && created.value.Dict? && Load(created.value, sha1).Ok?
      && var c := Config(Load(created.value, sha1).value, sha1);
         Participants(ONE_FILE, "http://t", 1, None, sha1, map[["f"] := [7]],
                      Server.ServerConfig(peerId, Some(c), Hex, wording, codec, limit),
                      Client(c, peerId, c.torrent.infoHash, FromHex))
  {
    hide SliceHashes, Load, Hex, FromHex, InfoEntries, PeerWire.FaithfulCodec;
    NotBlank();
    GeneratedMetainfoValidates(ONE_FILE, "http://t", 1, None, sha1);
    OneFile(ONE_FILE);
    forall data: Bytes ensures FromHex(Hex(data)) == Some(data) { FromHexOfHex(data); }
  }

  lemma NotBlank()
    ensures !PyText.IsBlank("http://t") && SafeName("f")
  {
  }
}
