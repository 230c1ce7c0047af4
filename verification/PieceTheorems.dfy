/** What stays true of a piece store over every sequence of operations. */
module PieceTheorems {
  import opened Wrappers
  import opened ByteStrings
  import opened HexText
  import opened Storage
  import opened Torrents
  import opened PieceStore

  // ---- One operation -----------------------------------------------------------

  /**
   * A write is accepted exactly when the index is in range and the data has the piece's
   * length and hash; the "consumed" error never happens; a refused write changes nothing.
   */
  lemma WriteAccepts(c: Config, s: Store, i: int, data: Bytes)
    requires Shaped(c, s)
    ensures var (after, error) := WritePiece(c, s, i, data);
      && (error.None? <==> 0 <= i < c.torrent.pieceCount && VerifyPiece(c, i, data))
      && error != Some(VirtualWriteShort)
      && (error.Some? ==> after == s)
      && (error.None? ==> after.bits == s.bits[i := true] && Piece(c, after.disk, i) == data)
      && Shaped(c, after)
  {
    hide PieceSize, Segments, WriteVirtual, Piece, PieceStart;
    if 0 <= i < c.torrent.pieceCount && VerifyPiece(c, i, data) {
      WriteChangesOnePiece(c, s.disk, i, data);
    }
  }

  /** Writing keeps the bitfield exact. */
  lemma WriteKeepsExact(c: Config, s: Store, i: int, data: Bytes)
    requires Exact(c, s)
    ensures Exact(c, WritePiece(c, s, i, data).0)
  {
    hide PieceSize, Segments, WriteVirtual, Piece, PieceStart, AllBacked, Available;
    var after := WritePiece(c, s, i, data).0;
    WriteAccepts(c, s, i, data);
    if after != s {
      WriteChangesOnePiece(c, s.disk, i, data);
      forall j | 0 <= j < c.torrent.pieceCount ensures after.bits[j] == Available(c, after.disk, j) {
        var written := Store(after.disk, Scan(c, after.disk));
        ExactBits(c, s, j);
        ExactBits(c, written, j);
      }
      assert after.bits == Scan(c, after.disk);
    }
  }

  /** Writing keeps the bitfield sound, whatever the state of the files. */
  lemma WriteKeepsSound(c: Config, s: Store, i: int, data: Bytes)
    requires Sound(c, s)
    ensures Sound(c, WritePiece(c, s, i, data).0)
  {
    hide PieceSize, Segments, WriteVirtual, Piece, PieceStart, AllBacked, AllReadable;
    var after := WritePiece(c, s, i, data).0;
    WriteAccepts(c, s, i, data);
    if after != s {
      WriteChangesOnePiece(c, s.disk, i, data);
      WriteMakesAvailable(c, s.disk, i, data);
    }
  }

  lemma WriteMakesAvailable(c: Config, disk: Disk, i: nat, data: Bytes)
    requires WellFormed(c.torrent) && i < c.torrent.pieceCount && VerifyPiece(c, i, data)
    ensures Available(c, WriteVirtual(disk, Segments(c.torrent), PieceStart(c.torrent, i), data).disk, i)
  {
    hide PieceSize, Segments, WriteVirtual, Piece, PieceStart, Available, Readable;
    var segs, start, end := Segments(c.torrent), PieceStart(c.torrent, i), PieceEnd(c.torrent, i);
    var w := WriteVirtual(disk, segs, start, data);
    WriteChangesOnePiece(c, disk, i, data);
    SegmentsTile(c.torrent);
    SegmentEnds(segs);
    WriteIsOverlay(disk, segs, start, data);
    forall k | 0 <= k < |segs| ensures Readable(w.disk, segs[k], start, end) {
      assert FileKept(disk, w.disk, segs[k], start, end);
      KeptIsReadable(disk, w.disk, segs[k], start, end);
    }
    AvailableMeaning(c, w.disk, i);
  }

  lemma KeptIsReadable(before: Disk, after: Disk, seg: FileSegment, start: nat, end: nat)
    requires FileKept(before, after, seg, start, end) && seg.end == seg.start + seg.length
    ensures Readable(after, seg, start, end)
  {
  }

  /**
   * With an exact bitfield, `read_piece` changes nothing, never finds a mismatch, and
   * returns the piece exactly when its bit is set.
   */
  lemma ReadInExactStore(c: Config, s: Store, i: int)
    requires Exact(c, s)
    ensures var (after, r) := ReadPiece(c, s, i);
      && after == s
      && (r.Ok? <==> 0 <= i < c.torrent.pieceCount && s.bits[i])
      && (r.Ok? ==> r.value == Piece(c, s.disk, i) && VerifyPiece(c, i, r.value))
      && (r.Err? ==> r.error == if 0 <= i < c.torrent.pieceCount then PieceUnavailable else BadIndex)
  {
    hide PieceSize, Segments, Piece, PieceStart, AllBacked, ReadPieceBytes, VerifyPiece;
    if 0 <= i < c.torrent.pieceCount { AvailableMeaning(c, s.disk, i); }
  }

  /** The files reach as far as piece i wants. */
  predicate Reached(c: Config, disk: Disk, i: nat)
    requires WellFormed(c.torrent) && i < c.torrent.pieceCount
  {
    AllReadable(disk, Segments(c.torrent), PieceStart(c.torrent, i), PieceEnd(c.torrent, i))
  }

  /**
   * What a read does in any store, whatever has become of the files since the bitfield was
   * built. It returns the piece exactly when its bit is set, its files reach it and the hash
   * matches; if only the hash does not match, its bit is cleared and nothing else happens;
   * otherwise nothing happens at all.
   */
  lemma ReadOutcome(c: Config, s: Store, i: int)
    requires Shaped(c, s)
    ensures var (after, r) := ReadPiece(c, s, i);
      var readable := 0 <= i < c.torrent.pieceCount && s.bits[i] && Reached(c, s.disk, i);
      var genuine := readable && Hex(c.sha1(Piece(c, s.disk, i))) == c.torrent.pieceHashes[i];
      && (r.Ok? <==> genuine)
      && (genuine ==> r.value == Piece(c, s.disk, i))
      && (r == Err(PieceHashMismatch) <==> readable && !genuine)
      && after.disk == s.disk && |after.bits| == |s.bits|
      && forall j :: 0 <= j < |s.bits| ==> (after.bits[j] <==> s.bits[j] && !(j == i && readable && !genuine))
  {
    hide PieceSize, Segments, Piece, PieceStart, AllReadable, ReadPieceBytes, VerifyPiece;
    if 0 <= i < c.torrent.pieceCount {
      AvailableMeaning(c, s.disk, i);
      ReadBytesReach(c, s.disk, i);
    }
  }

  lemma ReadBytesReach(c: Config, disk: Disk, i: nat)
    requires WellFormed(c.torrent) && i < c.torrent.pieceCount
    ensures ReadPieceBytes(c, disk, i).Ok? <==> Reached(c, disk, i)
    ensures ReadPieceBytes(c, disk, i).Err? ==> ReadPieceBytes(c, disk, i).error in {FileMissing, PieceUnavailable}
  {
    hide PieceStart, PieceSize, Segments, Flat, AllReadable, ReadVirtual;
    SegmentsTile(c.torrent);
    PieceLength(c, disk, i);
    ReadIsSlice(disk, Segments(c.torrent), PieceStart(c.torrent, i), PieceEnd(c.torrent, i));
  }

  /**
   * How a read that changes nothing fails: the index is out of range, the bit is clear, or
   * the first file that does not reach the piece is missing or too short.
   */
  lemma ReadFailure(c: Config, s: Store, i: int, k: nat)
    requires Shaped(c, s)
    ensures !(0 <= i < c.torrent.pieceCount) ==> ReadPiece(c, s, i).1 == Err(BadIndex)
    ensures 0 <= i < c.torrent.pieceCount && !s.bits[i] ==> ReadPiece(c, s, i).1 == Err(PieceUnavailable)
    ensures
      && 0 <= i < c.torrent.pieceCount && s.bits[i]
      && FirstUnreadable(s.disk, Segments(c.torrent), PieceStart(c.torrent, i), PieceEnd(c.torrent, i), k)
      ==>
        ReadPiece(c, s, i).1
          == Err(if Segments(c.torrent)[k].path in s.disk then PieceUnavailable else FileMissing)
  {
    hide PieceSize, Segments, PieceStart, AllReadable, VerifyPiece, ReadVirtual, Readable, WellFormed;
    SegmentsTile(c.torrent);
    if
      && 0 <= i < c.torrent.pieceCount
      && FirstUnreadable(s.disk, Segments(c.torrent), PieceStart(c.torrent, i), PieceEnd(c.torrent, i), k)
    {
      ReadFailsAtFirst(s.disk, Segments(c.torrent), PieceStart(c.torrent, i), PieceEnd(c.torrent, i), k);
    }
  }

  /** A piece found to have changed on the disk counts as missing again, by exactly its size. */
  lemma MismatchIsMissing(c: Config, s: Store, i: int)
    requires Shaped(c, s) && ReadPiece(c, s, i).1 == Err(PieceHashMismatch)
    ensures var after := ReadPiece(c, s, i).0;
      && 0 <= i < c.torrent.pieceCount
      && i in Missing(after.bits)
      && LeftBytes(c.torrent, after.bits) == LeftBytes(c.torrent, s.bits) + PieceSize(c.torrent, i)
  {
    hide PieceSize, Segments, Piece, PieceStart, Reached, ReadPiece, WellFormed, VerifyPiece;
    ReadOutcome(c, s, i);
    var after := ReadPiece(c, s, i).0;
    assert after.bits[i := true] == s.bits;
    SettingOneBit(c.torrent, after.bits, i);
  }

  lemma ReadKeepsSound(c: Config, s: Store, i: int)
    requires Sound(c, s)
    ensures Sound(c, ReadPiece(c, s, i).0)
  {
    hide Available, ReadPieceBytes, VerifyPiece;
  }

  /** Opening with `create_missing` gives an exact store and leaves the stream as it was. */
  lemma OpenIsExact(c: Config, disk: Disk)
    requires WellFormed(c.torrent)
    ensures Exact(c, Open(c, disk, true))
    ensures Flat(Open(c, disk, true).disk, Segments(c.torrent)) == Flat(disk, Segments(c.torrent))
  {
    hide Segments, Scan, Prepare, AllBacked, Available;
    var segs := Segments(c.torrent);
    PrepareBacks(disk, segs);
    FlatOfPrepared(Prepare(disk, segs), disk, segs);
  }

  lemma OpenIsSound(c: Config, disk: Disk, createMissing: bool)
    requires WellFormed(c.torrent)
    ensures Sound(c, Open(c, disk, createMissing))
  {
    hide Segments, Prepare, Available;
  }

  // ---- Every run ---------------------------------------------------------------

  datatype Op = Read(index: int) | Write(index: int, data: Bytes) | Rescan

  function Step(c: Config, s: Store, op: Op): (after: Store)
    requires Shaped(c, s)
    ensures Shaped(c, after)
  {
    match op
    case Read(i) => ReadPiece(c, s, i).0
    case Write(i, data) => WritePiece(c, s, i, data).0
    case Rescan => Store(s.disk, Scan(c, s.disk))
  }

  function Run(c: Config, s: Store, ops: seq<Op>): (after: Store)
    requires Shaped(c, s)
    ensures Shaped(c, after)
    decreases ops
  {
    if ops == [] then s else Run(c, Step(c, s, ops[0]), ops[1..])
  }

  /** Bitfield exactness in every state reachable by reads, writes and rescans. */
  lemma {:induction false} RunKeepsExact(c: Config, s: Store, ops: seq<Op>)
    requires Exact(c, s)
    ensures Exact(c, Run(c, s, ops))
    decreases ops
  {
    hide AllBacked, Segments, Scan, WritePiece, ReadPiece;
    if ops != [] {
      match ops[0] {
        case Read(i) => ReadInExactStore(c, s, i);
        case Write(i, data) => WriteKeepsExact(c, s, i, data);
        case Rescan =>
      }
      RunKeepsExact(c, Step(c, s, ops[0]), ops[1..]);
    }
  }

  /** In any mode and whatever the files, no run ever sets a bit it should not. */
  lemma {:induction false} RunKeepsSound(c: Config, s: Store, ops: seq<Op>)
    requires Sound(c, s)
    ensures Sound(c, Run(c, s, ops))
    decreases ops
  {
    hide Available, WritePiece, ReadPiece;
    if ops != [] {
      match ops[0] {
        case Read(i) => ReadKeepsSound(c, s, i);
        case Write(i, data) => WriteKeepsSound(c, s, i, data);
        case Rescan =>
      }
      RunKeepsSound(c, Step(c, s, ops[0]), ops[1..]);
    }
  }

  /** From a fresh `PieceManager(create_missing=True)`, a rescan never changes a bit. */
  lemma RescanFindsNothingNew(c: Config, disk: Disk, ops: seq<Op>)
    requires WellFormed(c.torrent)
    ensures var s := Run(c, Open(c, disk, true), ops); Step(c, s, Rescan) == s
  {
    hide AllBacked, Segments, Scan, Open, Run;
    OpenIsExact(c, disk);
    RunKeepsExact(c, Open(c, disk, true), ops);
  }

  // ---- Reading everything back -------------------------------------------------

  /** A read of every piece from `from` on, in order. */
  function ReadsFrom(c: Config, from: nat): seq<Op>
    requires from <= c.torrent.pieceCount
    decreases c.torrent.pieceCount - from
  {
    if from == c.torrent.pieceCount then [] else [Read(from)] + ReadsFrom(c, from + 1)
  }

  /** The bit that reading piece j leaves. */
  predicate BitOnceRead(c: Config, s: Store, j: nat)
    requires Shaped(c, s) && j < |s.bits|
  {
    s.bits[j] && (Available(c, s.disk, j) || !Reached(c, s.disk, j))
  }

  /**
   * Files may have changed in any way since they were scanned. Reading every piece once
   * clears exactly the bits whose pieces can be read and are no longer what they were, so
   * over files that are long enough the bitfield is sound again.
   */
  lemma ReadingAllRepairs(c: Config, s: Store)
    requires Shaped(c, s)
    ensures var after := Run(c, s, ReadsFrom(c, 0));
      && after.disk == s.disk
      && (forall j :: 0 <= j < |s.bits| ==> (after.bits[j] <==> BitOnceRead(c, s, j)))
      && (AllBacked(s.disk, Segments(c.torrent)) ==> Sound(c, after))
  {
    hide Available, Run, ReadsFrom, Segments, AllBacked, AllReadable, PieceStart;
    ReadsRepair(c, s, 0);
    if AllBacked(s.disk, Segments(c.torrent)) {
      SegmentsTile(c.torrent);
      SegmentEnds(Segments(c.torrent));
      forall j | 0 <= j < |s.bits| ensures Reached(c, s.disk, j) {
        BackedIsReadable(s.disk, Segments(c.torrent), PieceStart(c.torrent, j), PieceEnd(c.torrent, j));
      }
    }
  }

  lemma {:induction false} ReadsRepair(c: Config, s: Store, from: nat)
    requires Shaped(c, s) && from <= c.torrent.pieceCount
    ensures var after := Run(c, s, ReadsFrom(c, from));
      && after.disk == s.disk
      && forall j :: 0 <= j < |s.bits| ==>
           (after.bits[j] <==> if j < from then s.bits[j] else BitOnceRead(c, s, j))
    decreases c.torrent.pieceCount - from
  {
    hide Available, ReadPiece, Reached, WritePiece, Scan;
    if from < c.torrent.pieceCount {
      var next := Step(c, s, Read(from));
      ReadLeavesBit(c, s, from);
      assert ReadsFrom(c, from)[1..] == ReadsFrom(c, from + 1);
      ReadsRepair(c, next, from + 1);
    }
  }

  lemma ReadLeavesBit(c: Config, s: Store, i: nat)
    requires Shaped(c, s) && i < |s.bits|
    ensures var after := Step(c, s, Read(i));
      && after.disk == s.disk && |after.bits| == |s.bits|
      && forall j :: 0 <= j < |s.bits| ==> (after.bits[j] <==> if j == i then BitOnceRead(c, s, j) else s.bits[j])
  {
    hide Available, ReadPiece, Reached, Piece, Segments, PieceStart, WellFormed;
    ReadOutcome(c, s, i);
    AvailableIffGenuine(c, s.disk, i);
  }

  lemma AvailableIffGenuine(c: Config, disk: Disk, i: nat)
    requires WellFormed(c.torrent) && i < c.torrent.pieceCount
    ensures Available(c, disk, i) <==>
      Reached(c, disk, i) && Hex(c.sha1(Piece(c, disk, i))) == c.torrent.pieceHashes[i]
  {
    hide PieceStart, PieceSize, Segments, AllReadable, Available, Piece;
    AvailableMeaning(c, disk, i);
  }

  // ---- Completeness and the original bytes -------------------------------------

  /** The hashes are those of the pieces of `original`. */
  ghost predicate HashesOf(c: Config, original: Bytes)
    requires WellFormed(c.torrent)
  {
    |original| == c.torrent.totalLength &&
    forall i :: 0 <= i < c.torrent.pieceCount ==>
      c.torrent.pieceHashes[i] == Hex(c.sha1(PieceOf(c.torrent, original, i)))
  }

  /** Some stored piece differs from the original one and has the same SHA-1: an actual collision. */
  ghost predicate Collides(c: Config, disk: Disk, original: Bytes)
    requires WellFormed(c.torrent) && |original| == c.torrent.totalLength
  {
    exists i :: 0 <= i < c.torrent.pieceCount && Piece(c, disk, i) != PieceOf(c.torrent, original, i)
      && c.sha1(Piece(c, disk, i)) == c.sha1(PieceOf(c.torrent, original, i))
  }

  /** A complete store's stream is the original, unless the store itself exhibits a collision. */
  lemma CompleteStreamIsOriginal(c: Config, s: Store, original: Bytes)
    requires Sound(c, s) && AllSet(s.bits) && HashesOf(c, original)
    ensures Flat(s.disk, Segments(c.torrent)) == original || Collides(c, s.disk, original)
  {
    hide Segments, Piece, PieceOf, PieceStart, PieceSize, Available, AllReadable, Flat;
    var flat := Flat(s.disk, Segments(c.torrent));
    SegmentsTile(c.torrent);
    FlatLength(s.disk, Segments(c.torrent));
    forall x | 0 <= x < |original| ensures flat[x] == original[x] || Collides(c, s.disk, original) {
      var i := PieceContaining(c.torrent, x);
      PieceLength(c, s.disk, i);
      assert s.bits[i];
      AvailableMeaning(c, s.disk, i);
      var piece := PieceOf(c.torrent, original, i);
      PieceOfIsSlice(c.torrent, original, i);
      HexIsInjective(c.sha1(Piece(c, s.disk, i)), c.sha1(piece));
      if Piece(c, s.disk, i) == piece {
        assert piece[x - PieceStart(c.torrent, i)] == original[x];
      }
    }
  }

  /** A complete store has every non-empty file at its full declared length. */
  lemma CompleteIsBacked(c: Config, s: Store, k: nat)
    requires Sound(c, s) && AllSet(s.bits)
    requires k < |Segments(c.torrent)| && Segments(c.torrent)[k].length > 0
    ensures Backed(s.disk, Segments(c.torrent)[k])
  {
    hide Segments, Piece, PieceStart, PieceSize, Available, Flat;
    var segs := Segments(c.torrent);
    SegmentsTile(c.torrent);
    SegmentEnds(segs);
    SegmentInside(segs, k);
    var i := PieceContaining(c.torrent, segs[k].end - 1);
    assert s.bits[i];
    AvailableMeaning(c, s.disk, i);
    assert Readable(s.disk, segs[k], PieceStart(c.torrent, i), PieceEnd(c.torrent, i));
  }

  lemma SegmentInside(segs: seq<FileSegment>, k: nat)
    requires Contiguous(segs) && k < |segs|
    ensures segs[k].end <= Total(segs)
  {
    FlatSlice(map[], segs, k);
    FlatLength(map[], segs);
  }

  /**
   * Download safety: a complete store holds, in every file, exactly the declared bytes of
   * the original, unless a stored piece and its original are a SHA-1 collision.
   */
  lemma CompleteFilesAreOriginal(c: Config, s: Store, original: Bytes, k: nat)
    requires Sound(c, s) && AllSet(s.bits) && HashesOf(c, original)
    requires k < |Segments(c.torrent)| && Segments(c.torrent)[k].length > 0
    ensures var seg := Segments(c.torrent)[k];
      || Collides(c, s.disk, original)
      || (&& seg.path in s.disk && |s.disk[seg.path]| >= seg.length
          && 0 <= seg.start <= seg.end <= |original|
          && s.disk[seg.path][..seg.length] == original[seg.start..seg.end])
  {
    hide Segments, Available, HashesOf, Collides, Flat;
    CompleteStreamIsOriginal(c, s, original);
    CompleteIsBacked(c, s, k);
    SegmentsTile(c.torrent);
    FlatSlice(s.disk, Segments(c.torrent), k);
  }

  // ---- Without create_missing --------------------------------------------------

  /** The bitfield is what a scan would find, whether or not the files are long enough. */
  ghost predicate Scanned(c: Config, s: Store) { Shaped(c, s) && s.bits == Scan(c, s.disk) }

  /** Every file that piece j lies in reaches it already, or is grown by writing piece i. */
  predicate ReachedOnceWritten(c: Config, disk: Disk, i: nat, j: nat)
    requires WellFormed(c.torrent) && i < c.torrent.pieceCount && j < c.torrent.pieceCount
  {
    var segs := Segments(c.torrent);
    forall k :: 0 <= k < |segs| ==>
      || Readable(disk, segs[k], PieceStart(c.torrent, j), PieceEnd(c.torrent, j))
      || Overlaps(segs[k], PieceStart(c.torrent, i), PieceEnd(c.torrent, i))
  }

  /** Writing piece i would make the clear piece j match: all it lacks is the length of its files. */
  predicate Wakes(c: Config, s: Store, i: nat, j: nat)
    requires Shaped(c, s) && i < c.torrent.pieceCount && j < c.torrent.pieceCount
  {
    && j != i && !s.bits[j]
    && Hex(c.sha1(Piece(c, s.disk, j))) == c.torrent.pieceHashes[j]
    && ReachedOnceWritten(c, s.disk, i, j)
  }

  ghost predicate WakesSome(c: Config, s: Store, i: nat)
    requires Shaped(c, s) && i < c.torrent.pieceCount
  {
    exists j :: 0 <= j < c.torrent.pieceCount && Wakes(c, s, i, j)
  }

  lemma ReadableAfterWrite(before: Disk, after: Disk, seg: FileSegment, start: nat, end: nat, from: nat, to: nat)
    requires FileKept(before, after, seg, start, end) && seg.end == seg.start + seg.length
    ensures Readable(after, seg, from, to) <==> Readable(before, seg, from, to) || Overlaps(seg, start, end)
  {
  }

  lemma AvailableAfterWrite(c: Config, disk: Disk, i: nat, data: Bytes, j: nat)
    requires WellFormed(c.torrent) && i < c.torrent.pieceCount && VerifyPiece(c, i, data)
    requires j < c.torrent.pieceCount && j != i
    ensures var after := WriteVirtual(disk, Segments(c.torrent), PieceStart(c.torrent, i), data).disk;
      Available(c, after, j) <==>
        ReachedOnceWritten(c, disk, i, j) && Hex(c.sha1(Piece(c, disk, j))) == c.torrent.pieceHashes[j]
  {
    hide PieceSize, Segments, WriteVirtual, Piece, PieceStart, Available, Readable, Overlaps, FileKept;
    var segs, start, end := Segments(c.torrent), PieceStart(c.torrent, i), PieceEnd(c.torrent, i);
    var after := WriteVirtual(disk, segs, start, data).disk;
    WriteChangesOnePiece(c, disk, i, data);
    SegmentsTile(c.torrent);
    SegmentEnds(segs);
    WriteIsOverlay(disk, segs, start, data);
    AvailableMeaning(c, after, j);
    ReadablesAfterWrite(disk, after, segs, start, end, PieceStart(c.torrent, j), PieceEnd(c.torrent, j));
  }

  lemma ReadablesAfterWrite(
      before: Disk, after: Disk, segs: seq<FileSegment>, start: nat, end: nat, from: nat, to: nat)
    requires forall k :: 0 <= k < |segs| ==> FileKept(before, after, segs[k], start, end)
    requires forall k :: 0 <= k < |segs| ==> segs[k].end == segs[k].start + segs[k].length
    ensures AllReadable(after, segs, from, to) <==>
      forall k :: 0 <= k < |segs| ==> Readable(before, segs[k], from, to) || Overlaps(segs[k], start, end)
  {
    hide Readable, Overlaps, FileKept;
    forall k | 0 <= k < |segs|
      ensures Readable(after, segs[k], from, to) <==> Readable(before, segs[k], from, to) || Overlaps(segs[k], start, end)
    {
      ReadableAfterWrite(before, after, segs[k], start, end, from, to);
    }
  }

  /**
   * Over files of any length, an accepted write leaves the bitfield what a scan would find
   * exactly when it wakes no other piece.
   */
  lemma WriteKeepsScannedIff(c: Config, s: Store, i: nat, data: Bytes)
    requires Scanned(c, s) && i < c.torrent.pieceCount && VerifyPiece(c, i, data)
    ensures Scanned(c, WritePiece(c, s, i, data).0) <==> !WakesSome(c, s, i)
  {
    hide PieceSize, Segments, WriteVirtual, Piece, PieceStart, Available, VerifyPiece, ReachedOnceWritten;
    var after := WritePiece(c, s, i, data).0;
    WriteAccepts(c, s, i, data);
    WrittenDisk(c, s, i, data);
    WriteChangesOnePiece(c, s.disk, i, data);
    WriteMakesAvailable(c, s.disk, i, data);
    forall j | 0 <= j < c.torrent.pieceCount
      ensures after.bits[j] == Available(c, after.disk, j) <==> !Wakes(c, s, i, j)
    {
      if j != i { AvailableAfterWrite(c, s.disk, i, data, j); }
    }
    if WakesSome(c, s, i) {
      var j :| 0 <= j < c.torrent.pieceCount && Wakes(c, s, i, j);
      assert after.bits[j] != Scan(c, after.disk)[j];
    } else {
      assert forall j :: 0 <= j < c.torrent.pieceCount ==> !Wakes(c, s, i, j);
      assert after.bits == Scan(c, after.disk);
    }
  }

  lemma WrittenDisk(c: Config, s: Store, i: nat, data: Bytes)
    requires Shaped(c, s) && i < c.torrent.pieceCount && VerifyPiece(c, i, data)
    ensures |data| == PieceSize(c.torrent, i)
    ensures WritePiece(c, s, i, data).0.disk
      == WriteVirtual(s.disk, Segments(c.torrent), PieceStart(c.torrent, i), data).disk
  {
    hide PieceSize, Segments, WriteVirtual, PieceStart;
    WriteAccepts(c, s, i, data);
  }

  lemma ReadKeepsScanned(c: Config, s: Store, i: int)
    requires Scanned(c, s)
    ensures ReadPiece(c, s, i).0 == s
  {
    hide ReadPieceBytes, VerifyPiece;
  }

  /** The operation is an accepted write that wakes a piece. */
  ghost predicate WakingOp(c: Config, s: Store, op: Op)
    requires Shaped(c, s)
  {
    op.Write? && 0 <= op.index < c.torrent.pieceCount && VerifyPiece(c, op.index, op.data) && WakesSome(c, s, op.index)
  }

  ghost predicate StaysScanned(c: Config, s: Store, ops: seq<Op>)
    requires Shaped(c, s)
    decreases ops
  {
    Scanned(c, s) && (ops != [] ==> StaysScanned(c, Step(c, s, ops[0]), ops[1..]))
  }

  ghost predicate NothingWakes(c: Config, s: Store, ops: seq<Op>)
    requires Shaped(c, s)
    decreases ops
  {
    ops != [] ==> !WakingOp(c, s, ops[0]) && NothingWakes(c, Step(c, s, ops[0]), ops[1..])
  }

  /**
   * Exactness without `create_missing`: along a run over files of any length the bitfield
   * stays what a scan would find exactly when no accepted write of the run wakes a piece.
   */
  lemma {:induction false} RunStaysScannedIff(c: Config, s: Store, ops: seq<Op>)
    requires Scanned(c, s)
    ensures StaysScanned(c, s, ops) <==> NothingWakes(c, s, ops)
    decreases ops
  {
    hide Scan, WritePiece, ReadPiece, VerifyPiece, WakesSome;
    if ops != [] {
      var after := Step(c, s, ops[0]);
      match ops[0] {
        case Read(i) => ReadKeepsScanned(c, s, i);
        case Write(i, data) =>
          WriteAccepts(c, s, i, data);
          if 0 <= i < c.torrent.pieceCount && VerifyPiece(c, i, data) { WriteKeepsScannedIff(c, s, i, data); }
        case Rescan =>
      }
      assert Scanned(c, after) <==> !WakingOp(c, s, ops[0]);
      if Scanned(c, after) { RunStaysScannedIff(c, after, ops[1..]); } else { NotScannedNow(c, after, ops[1..]); }
    }
  }

  lemma NotScannedNow(c: Config, s: Store, ops: seq<Op>)
    requires Shaped(c, s) && !Scanned(c, s)
    ensures !StaysScanned(c, s, ops)
  {
  }

  /** Files that are all long enough have nothing to wake. */
  lemma BackedNeverWakes(c: Config, s: Store, i: nat)
    requires Exact(c, s) && i < c.torrent.pieceCount
    ensures !WakesSome(c, s, i)
  {
    hide Available, Piece, PieceStart, Segments, AllReadable, ReachedOnceWritten;
    forall j | 0 <= j < c.torrent.pieceCount ensures !Wakes(c, s, i, j) { ExactBits(c, s, j); }
  }

  /** A file of two bytes, 0 and 7, in pieces of one byte. */
  function TwoPieces(hash: Hash): Config {
    Config(Torrent("http://t", "f", SingleFile(2), 1, [Hex(hash([0])), Hex(hash([7]))], 2, 2, hash([])), hash)
  }

  lemma TwoPiecesFacts(hash: Hash)
    ensures var t := TwoPieces(hash).torrent;
      && WellFormed(t) && Segments(t) == [FileSegment(["f"], 2, 0, 2)]
      && PieceStart(t, 0) == 0 && PieceSize(t, 0) == 1 && PieceStart(t, 1) == 1 && PieceSize(t, 1) == 1
  {
  }

  /**
   * Exactness needs `create_missing`. Here the file is missing, piece 1 is written, and
   * growing the file makes the zeros of piece 0 match their hash while bit 0 stays clear.
   */
  lemma UnpreparedStoreLosesExactness(hash: Hash)
    ensures var c := TwoPieces(hash);
      && WellFormed(c.torrent)
      && var s := Open(c, map[], false);
         var (after, error) := WritePiece(c, s, 1, [7]);
         && s.bits == Scan(c, s.disk)
         && error == None
         && !after.bits[0] && Available(c, after.disk, 0)
  {
    TwoPiecesFacts(hash);
    hide PieceStart, PieceSize, ReadVirtual, WriteVirtual, Flat, AllReadable, Padded, WellFormed, Segments, IsOverlay,
      SameOutside, Available, AllBacked;
    var c := TwoPieces(hash);
    var none: Disk := map[];
    var s := Open(c, none, false);
    NothingAvailable(c, none);
    WriteAccepts(c, s, 1, [7]);
    WrittenSecondPiece(hash, none);
  }

  lemma NothingAvailable(c: Config, none: Disk)
    requires none == map[] && WellFormed(c.torrent) && Segments(c.torrent) == [FileSegment(["f"], 2, 0, 2)]
    requires c.torrent.pieceCount > 0 && PieceStart(c.torrent, 0) == 0 && PieceSize(c.torrent, 0) == 1
    ensures !Available(c, none, 0)
  {
    hide PieceStart, PieceSize, ReadVirtual, WellFormed, Segments;
    NothingReadable(none, FileSegment(["f"], 2, 0, 2));
  }

  lemma WrittenSecondPiece(hash: Hash, none: Disk)
    requires none == map[] && WellFormed(TwoPieces(hash).torrent)
    ensures var c := TwoPieces(hash);
      Available(c, WriteVirtual(none, Segments(c.torrent), PieceStart(c.torrent, 1), [7]).disk, 0)
  {
    TwoPiecesFacts(hash);
    hide PieceStart, PieceSize, ReadVirtual, WriteVirtual, Flat, AllReadable, Padded, WellFormed, Segments, IsOverlay,
      SameOutside, Available;
    var c := TwoPieces(hash);
    var segs := Segments(c.torrent);
    var w := WriteVirtual(none, segs, 1, [7]);
    WriteChangesOnePiece(c, none, 1, [7]);
    SegmentsTile(c.torrent);
    WriteIsOverlay(none, segs, 1, [7]);
    assert FileKept(none, w.disk, segs[0], 1, 2);
    NothingReadable(none, FileSegment(["f"], 2, 0, 2));
    PieceLength(c, none, 0);
    assert Piece(c, none, 0) == [0];
    AvailableMeaning(c, w.disk, 0);
    BackedIsReadable(w.disk, segs, 0, 1);
  }

  lemma NothingReadable(none: Disk, seg: FileSegment)
    requires none == map[] && seg == FileSegment(["f"], 2, 0, 2)
    ensures ReadVirtual(none, [seg], 0, 1) == Err(FileNotFound)
    ensures Flat(none, [seg]) == [0, 0]
  {
    assert [seg][..0] == [];
    assert ReadVirtual(none, [], 0, 1) == Ok([]);
  }
}
