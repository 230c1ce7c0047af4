/**
 * The state machine behind peer/piece_manager.py: a disk and a bitfield, changed by
 * reading, writing and rescanning pieces.
 */
module PieceStore {
  import opened Wrappers
  import opened ByteStrings
  import opened HexText
  import opened Storage
  import opened Torrents

  datatype Config = Config(torrent: Torrent, sha1: Hash)

  datatype Store = Store(disk: Disk, bits: seq<bool>)

  datatype StoreError = BadIndex | PieceUnavailable | PieceHashMismatch | FileMissing | VirtualWriteShort

  function PieceEnd(t: Torrent, i: nat): (end: nat)
    requires WellFormed(t) && i < t.pieceCount
    ensures PieceStart(t, i) < end <= t.totalLength && end == PieceStart(t, i) + PieceSize(t, i)
  {
    PieceInside(t, i);
    PieceStart(t, i) + PieceSize(t, i)
  }

  // ---- The operations ----------------------------------------------------------

  /** `verify_piece(index, data)` for an index in range. */
  predicate VerifyPiece(c: Config, i: nat, data: Bytes)
    requires WellFormed(c.torrent) && i < c.torrent.pieceCount
  {
    |data| == PieceSize(c.torrent, i) && Hex(c.sha1(data)) == c.torrent.pieceHashes[i]
  }

  /** `_read_piece_bytes(index)`. */
  function ReadPieceBytes(c: Config, disk: Disk, i: nat): Result<Bytes, StoreError>
    requires WellFormed(c.torrent) && i < c.torrent.pieceCount
  {
    match ReadVirtual(disk, Segments(c.torrent), PieceStart(c.torrent, i), PieceEnd(c.torrent, i))
    case Err(FileNotFound) => Err(FileMissing)
    case Err(FileTooShort) => Err(PieceUnavailable)
    case Ok(data) => if |data| != PieceSize(c.torrent, i) then Err(PieceUnavailable) else Ok(data)
  }

  predicate Available(c: Config, disk: Disk, i: nat)
    requires WellFormed(c.torrent) && i < c.torrent.pieceCount
  {
    ReadPieceBytes(c, disk, i).Ok? && VerifyPiece(c, i, ReadPieceBytes(c, disk, i).value)
  }

  /** The bitfield that `scan_existing` builds. */
  function Scan(c: Config, disk: Disk): (bits: seq<bool>)
    requires WellFormed(c.torrent)
    ensures |bits| == c.torrent.pieceCount
    ensures forall i :: 0 <= i < |bits| ==> bits[i] == Available(c, disk, i)
  {
    seq(c.torrent.pieceCount, i requires 0 <= i < c.torrent.pieceCount => Available(c, disk, i))
  }

  predicate Shaped(c: Config, s: Store) {
    WellFormed(c.torrent) && |s.bits| == c.torrent.pieceCount
  }

  /** `read_piece(index)`: the store it leaves and its result. */
  function ReadPiece(c: Config, s: Store, i: int): (Store, Result<Bytes, StoreError>)
    requires Shaped(c, s)
  {
    if !(0 <= i < c.torrent.pieceCount) then (s, Err(BadIndex))
    else if !s.bits[i] then (s, Err(PieceUnavailable))
    else match ReadPieceBytes(c, s.disk, i)
      case Err(e) => (s, Err(e))
      case Ok(data) =>
        if !VerifyPiece(c, i, data) then (s.(bits := s.bits[i := false]), Err(PieceHashMismatch))
        else (s, Ok(data))
  }

  /** `write_piece(index, data)`: the store it leaves, and its exception if any. */
  function WritePiece(c: Config, s: Store, i: int, data: Bytes): (Store, Option<StoreError>)
    requires Shaped(c, s)
  {
    if !(0 <= i < c.torrent.pieceCount) then (s, Some(BadIndex))
    else if |data| != PieceSize(c.torrent, i) then (s, Some(PieceHashMismatch))
    else if Hex(c.sha1(data)) != c.torrent.pieceHashes[i] then (s, Some(PieceHashMismatch))
    else
      var w := WriteVirtual(s.disk, Segments(c.torrent), PieceStart(c.torrent, i), data);
      if w.consumed != |data| then (s.(disk := w.disk), Some(VirtualWriteShort))
      else (Store(w.disk, s.bits[i := true]), None)
  }

  /** `PieceManager(...)` over what is on the disk. */
  function Open(c: Config, disk: Disk, createMissing: bool): Store
    requires WellFormed(c.torrent)
  {
    var prepared := if createMissing then Prepare(disk, Segments(c.torrent)) else disk;
    Store(prepared, Scan(c, prepared))
  }

  // ---- Invariants --------------------------------------------------------------

  /** Every file is as long as declared, and the bitfield is what a scan would find. */
  ghost predicate Exact(c: Config, s: Store) {
    Shaped(c, s) && AllBacked(s.disk, Segments(c.torrent)) && s.bits == Scan(c, s.disk)
  }

  /** No bit is set for a piece that a scan would reject. */
  ghost predicate Sound(c: Config, s: Store) {
    Shaped(c, s) && forall i :: 0 <= i < |s.bits| ==> s.bits[i] ==> Available(c, s.disk, i)
  }

  /** The bytes of piece i in a stream. */
  function PieceOf(t: Torrent, stream: Bytes, i: nat): Bytes
    requires WellFormed(t) && i < t.pieceCount
  {
    Clamped(stream, PieceStart(t, i), PieceEnd(t, i))
  }

  /** The bytes of piece i on a disk. */
  function Piece(c: Config, disk: Disk, i: nat): Bytes
    requires WellFormed(c.torrent) && i < c.torrent.pieceCount
  {
    PieceOf(c.torrent, Flat(disk, Segments(c.torrent)), i)
  }

  lemma PieceOfIsSlice(t: Torrent, stream: Bytes, i: nat)
    requires WellFormed(t) && i < t.pieceCount && |stream| == t.totalLength
    ensures |PieceOf(t, stream, i)| == PieceSize(t, i)
    ensures PieceOf(t, stream, i) == stream[PieceStart(t, i)..PieceEnd(t, i)]
  {
    hide PieceStart, PieceSize;
  }

  lemma PieceLength(c: Config, disk: Disk, i: nat)
    requires WellFormed(c.torrent) && i < c.torrent.pieceCount
    ensures |Flat(disk, Segments(c.torrent))| == c.torrent.totalLength
    ensures |Piece(c, disk, i)| == PieceSize(c.torrent, i)
    ensures Piece(c, disk, i) == Flat(disk, Segments(c.torrent))[PieceStart(c.torrent, i)..PieceEnd(c.torrent, i)]
  {
    hide PieceStart, PieceSize, Segments, Flat;
    SegmentsTile(c.torrent);
    FlatLength(disk, Segments(c.torrent));
    PieceOfIsSlice(c.torrent, Flat(disk, Segments(c.torrent)), i);
  }

  /** A piece is available exactly when its files reach it and its bytes have its hash. */
  lemma AvailableMeaning(c: Config, disk: Disk, i: nat)
    requires WellFormed(c.torrent) && i < c.torrent.pieceCount
    ensures Available(c, disk, i) <==>
      && AllReadable(disk, Segments(c.torrent), PieceStart(c.torrent, i), PieceEnd(c.torrent, i))
      && Hex(c.sha1(Piece(c, disk, i))) == c.torrent.pieceHashes[i]
    ensures ReadPieceBytes(c, disk, i).Ok? ==> ReadPieceBytes(c, disk, i).value == Piece(c, disk, i)
  {
    hide PieceStart, PieceSize, Segments, Flat, AllReadable, ReadVirtual;
    SegmentsTile(c.torrent);
    PieceLength(c, disk, i);
    ReadIsSlice(disk, Segments(c.torrent), PieceStart(c.torrent, i), PieceEnd(c.torrent, i));
  }

  lemma BackedIsReadable(disk: Disk, segs: seq<FileSegment>, start: nat, end: nat)
    requires AllBacked(disk, segs)
    requires forall k :: 0 <= k < |segs| ==> segs[k].end == segs[k].start + segs[k].length
    ensures AllReadable(disk, segs, start, end)
  {
    forall k | 0 <= k < |segs| ensures Readable(disk, segs[k], start, end) {
      assert Backed(disk, segs[k]);
    }
  }

  lemma {:induction false} SegmentEnds(segs: seq<FileSegment>)
    requires Contiguous(segs)
    ensures forall k :: 0 <= k < |segs| ==> segs[k].end == segs[k].start + segs[k].length
  {
    if segs != [] {
      SegmentEnds(segs[..|segs| - 1]);
      assert segs == segs[..|segs| - 1] + [segs[|segs| - 1]];
    }
  }

  /** In an exact store, bit i says precisely that the stored bytes of piece i have its hash. */
  lemma ExactBits(c: Config, s: Store, i: nat)
    requires Exact(c, s) && i < c.torrent.pieceCount
    ensures s.bits[i] <==> Hex(c.sha1(Piece(c, s.disk, i))) == c.torrent.pieceHashes[i]
  {
    hide Available, Piece, PieceStart, Segments, AllReadable;
    AvailableMeaning(c, s.disk, i);
    SegmentsTile(c.torrent);
    SegmentEnds(Segments(c.torrent));
    BackedIsReadable(s.disk, Segments(c.torrent), PieceStart(c.torrent, i), PieceEnd(c.torrent, i));
  }

  // ---- What a write does to the pieces -----------------------------------------

  /** What holds of files before a write still holds after it. */
  lemma WriteKeepsReadable(before: Disk, after: Disk, segs: seq<FileSegment>, start: nat, end: nat, from: nat, to: nat)
    requires AllKept(before, after, segs, start, end)
    requires forall k :: 0 <= k < |segs| ==> segs[k].end == segs[k].start + segs[k].length
    ensures AllReadable(before, segs, from, to) ==> AllReadable(after, segs, from, to)
    ensures AllBacked(before, segs) ==> AllBacked(after, segs)
  {
    forall k | 0 <= k < |segs|
      ensures Readable(before, segs[k], from, to) ==> Readable(after, segs[k], from, to)
      ensures Backed(before, segs[k]) ==> Backed(after, segs[k])
    {
      assert FileKept(before, after, segs[k], start, end);
    }
  }

  /** Writing verified bytes as piece i puts them there and leaves every other piece alone. */
  lemma WriteChangesOnePiece(c: Config, disk: Disk, i: nat, data: Bytes)
    requires WellFormed(c.torrent) && i < c.torrent.pieceCount && |data| == PieceSize(c.torrent, i)
    ensures var w := WriteVirtual(disk, Segments(c.torrent), PieceStart(c.torrent, i), data);
      && w.consumed == |data|
      && Piece(c, w.disk, i) == data
      && (forall j :: 0 <= j < c.torrent.pieceCount && j != i ==> Piece(c, w.disk, j) == Piece(c, disk, j))
      && (forall j :: 0 <= j < c.torrent.pieceCount && Available(c, disk, j) ==> j == i || Available(c, w.disk, j))
      && (AllBacked(disk, Segments(c.torrent)) ==> AllBacked(w.disk, Segments(c.torrent)))
  {
    hide PieceStart, PieceSize, Segments, Flat, AllReadable, AllBacked, WriteVirtual, Piece, Available, AllKept,
      SameOutside;
    var segs, start := Segments(c.torrent), PieceStart(c.torrent, i);
    var end := PieceEnd(c.torrent, i);
    var w := WriteVirtual(disk, segs, start, data);
    SegmentsTile(c.torrent);
    SegmentEnds(segs);
    WriteIsOverlay(disk, segs, start, data);
    PieceLength(c, disk, i);
    PieceLength(c, w.disk, i);
    WriteKeepsReadable(disk, w.disk, segs, start, end, 0, 0);
    assert Piece(c, w.disk, i) == data;
    forall j | 0 <= j < c.torrent.pieceCount && j != i
      ensures Piece(c, w.disk, j) == Piece(c, disk, j)
      ensures Available(c, disk, j) ==> Available(c, w.disk, j)
    {
      PieceLength(c, disk, j);
      PieceLength(c, w.disk, j);
      if i < j { PiecesInOrder(c.torrent, i, j); } else { PiecesInOrder(c.torrent, j, i); }
      AvailableMeaning(c, disk, j);
      AvailableMeaning(c, w.disk, j);
      WriteKeepsReadable(disk, w.disk, segs, start, end, PieceStart(c.torrent, j), PieceEnd(c.torrent, j));
    }
  }
}
