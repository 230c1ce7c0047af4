/** peer/piece_manager.py: the class, proved against the state machine of PieceStore. */
module PieceManagers {
  import opened Wrappers
  import opened ByteStrings
  import opened HexText
  import opened Storage
  import opened Torrents
  import opened PieceStore

  class PieceManager {
    const config: Config
    const segments: seq<FileSegment>
    var disk: Disk
    var bitfield: seq<bool>

    ghost predicate Valid()
      reads this
    {
      && WellFormed(config.torrent)
      && segments == Segments(config.torrent)
      && |bitfield| == config.torrent.pieceCount
    }

    function State(): Store
      reads this
    {
      Store(disk, bitfield)
    }

    constructor (config: Config, disk: Disk, createMissing: bool)
      requires WellFormed(config.torrent)
      ensures Valid() && this.config == config
      ensures State() == Open(config, disk, createMissing)
    {
      this.config := config;
      this.disk := disk;
      this.bitfield := seq(config.torrent.pieceCount, _ => false);
      var built := BuildSegments(config.torrent);
      this.segments := built;
      new;
      if createMissing {
        PrepareStorage();
      }
      ScanExisting();
    }

    /** Create or grow each file to its declared length. */
    method PrepareStorage()
      requires Valid()
      modifies this`disk
      ensures Valid() && disk == Prepare(old(disk), segments)
    {
      assert segments[..|segments|] == segments;
      for i := 0 to |segments|
        invariant disk == Prepare(old(disk), segments[..i])
      {
        assert segments[..i + 1][..i] == segments[..i];
        var segment := segments[i];
        if segment.path !in disk {
          disk := disk[segment.path := Padded([], segment.length)];
        } else if |disk[segment.path]| < segment.length {
          disk := disk[segment.path := Padded(disk[segment.path], segment.length)];
        }
      }
    }

    /** Rebuild the bitfield from what is on the disk. */
    method ScanExisting()
      requires Valid()
      modifies this`bitfield
      ensures Valid() && bitfield == Scan(config, disk)
    {
      for i := 0 to config.torrent.pieceCount
        invariant Valid()
        invariant forall k :: 0 <= k < i ==> bitfield[k] == Available(config, disk, k)
      {
        var data := PieceBytes(i);
        var available := data.Ok? && VerifyPiece(config, i, data.value);
        bitfield := bitfield[i := available];
      }
    }

    /** `_read_piece_bytes(index)`. */
    method PieceBytes(i: nat) returns (r: Result<Bytes, StoreError>)
      requires Valid() && i < config.torrent.pieceCount
      ensures r == ReadPieceBytes(config, disk, i)
    {
      PieceInside(config.torrent, i);
      var size := PieceSize(config.torrent, i);
      var data := VirtualRead(PieceStart(config.torrent, i), size);
      match data {
        case Err(FileNotFound) => r := Err(FileMissing);
        case Err(FileTooShort) => r := Err(PieceUnavailable);
        case Ok(bytes) => r := if |bytes| != size then Err(PieceUnavailable) else Ok(bytes);
      }
    }

    /** `_read_virtual(start, size)`. */
    method VirtualRead(start: nat, size: nat) returns (r: ReadResult)
      requires Valid()
      ensures r == ReadVirtual(disk, segments, start, start + size)
    {
      hide ReadVirtual, Segments, WellFormed, ReadAt;
      var end := start + size;
      var output: Bytes := [];
      SegmentsTile(config.torrent);
      SegmentEnds(segments);
      NothingReadYet(disk, start, end);
      assert segments[..0] == [];
      for i := 0 to |segments|
        invariant ReadVirtual(disk, segments[..i], start, end) == Ok(output)
      {
        ReadGoesOn(disk, segments, i, start, end);
        var segment := segments[i];
        assert output + [] == output;
        if segment.length == 0 { continue; }
        if segment.end <= start || segment.start >= end { continue; }
        var overlapStart, overlapEnd := Max(start, segment.start), Min(end, segment.end);
        var localOffset, readSize := overlapStart - segment.start, overlapEnd - overlapStart;
        if segment.path !in disk {
          ReadStops(disk, segments, i + 1, start, end);
          return Err(FileNotFound);
        }
        var chunk := ReadAt(disk[segment.path], localOffset, readSize);
        if |chunk| != readSize {
          ReadStops(disk, segments, i + 1, start, end);
          return Err(FileTooShort);
        }
        output := output + chunk;
      }
      assert segments[..|segments|] == segments;
      r := Ok(output);
    }

    /** `_write_virtual(start, data)`; false is its "consumed" error. */
    method VirtualWrite(start: nat, data: Bytes) returns (ok: bool)
      requires Valid()
      modifies this`disk
      ensures var w := WriteVirtual(old(disk), segments, start, data);
        disk == w.disk && ok == (w.consumed == |data|)
    {
      hide WriteVirtual, WriteSegment, Segments, WellFormed, WriteAt, Padded, Grown, Content, Contiguous, DistinctPaths;
      var end := start + |data|;
      var consumed: nat := 0;
      SegmentsTile(config.torrent);
      SegmentEnds(segments);
      NothingWrittenYet(disk, start, data);
      assert segments[..0] == [];
      for i := 0 to |segments|
        invariant WriteVirtual(old(disk), segments[..i], start, data) == Written(disk, consumed)
      {
        WriteGoesOn(old(disk), segments, i, start, data);
        var segment := segments[i];
        SegmentStep(Written(disk, consumed), segment, start, data);
        GrownContent(disk, segment.path, segment.length);
        if segment.length == 0 { continue; }
        if segment.end <= start || segment.start >= end { continue; }
        var overlapStart, overlapEnd := Max(start, segment.start), Min(end, segment.end);
        var localOffset, chunkSize := overlapStart - segment.start, overlapEnd - overlapStart;
        var chunk := data[Min(consumed, |data|)..Min(consumed + chunkSize, |data|)];
        var file := if segment.path in disk then disk[segment.path] else [];
        if |file| < segment.length {
          file := Padded(file, segment.length);
        }
        disk := disk[segment.path := WriteAt(file, localOffset, chunk)];
        consumed := consumed + chunkSize;
      }
      assert segments[..|segments|] == segments;
      ok := consumed == |data|;
    }

    /** `read_piece(index)`. */
    method ReadPieceAt(i: int) returns (r: Result<Bytes, StoreError>)
      requires Valid()
      modifies this`bitfield
      ensures Valid() && (State(), r) == ReadPiece(config, old(State()), i)
    {
      if !(0 <= i < config.torrent.pieceCount) { return Err(BadIndex); }
      if !bitfield[i] { return Err(PieceUnavailable); }
      r := PieceBytes(i);
      if r.Ok? && !VerifyPiece(config, i, r.value) {
        bitfield := bitfield[i := false];
        r := Err(PieceHashMismatch);
      }
    }

    /** `write_piece(index, data)`. */
    method WritePieceAt(i: int, data: Bytes) returns (error: Option<StoreError>)
      requires Valid()
      modifies this
      ensures Valid() && (State(), error) == WritePiece(config, old(State()), i, data)
    {
      if !(0 <= i < config.torrent.pieceCount) { return Some(BadIndex); }
      if |data| != PieceSize(config.torrent, i) { return Some(PieceHashMismatch); }
      var actualHash := Hex(config.sha1(data));
      if actualHash != config.torrent.pieceHashes[i] { return Some(PieceHashMismatch); }
      var ok := VirtualWrite(PieceStart(config.torrent, i), data);
      if !ok { return Some(VirtualWriteShort); }
      bitfield := bitfield[i := true];
      error := None;
    }

    /** `left`, from a sum over the set bits. */
    method Left() returns (left: int)
      requires Valid()
      ensures left == LeftBytes(config.torrent, bitfield)
      ensures 0 <= left <= config.torrent.totalLength && (left == 0 <==> AllSet(bitfield))
    {
      var downloaded := 0;
      for i := 0 to |bitfield|
        invariant downloaded == OwnedBytes(config.torrent, bitfield[..i])
      {
        assert bitfield[..i + 1][..i] == bitfield[..i];
        if bitfield[i] { downloaded := downloaded + PieceSize(config.torrent, i); }
      }
      assert bitfield[..|bitfield|] == bitfield;
      LeftIsZeroIffComplete(config.torrent, bitfield);
      left := config.torrent.totalLength - downloaded;
    }

    /** `missing_piece_indices()`. */
    method MissingPieceIndices() returns (indices: seq<nat>)
      requires Valid()
      ensures indices == Missing(bitfield)
    {
      indices := [];
      for i := 0 to |bitfield|
        invariant indices == Missing(bitfield[..i])
      {
        assert bitfield[..i + 1][..i] == bitfield[..i];
        if !bitfield[i] { indices := indices + [i]; }
      }
      assert bitfield[..|bitfield|] == bitfield;
    }
  }

  lemma NothingReadYet(disk: Disk, start: nat, end: nat)
    ensures ReadVirtual(disk, [], start, end) == Ok([])
  {
  }

  lemma NothingWrittenYet(disk: Disk, start: nat, data: Bytes)
    ensures WriteVirtual(disk, [], start, data) == Written(disk, 0)
  {
  }

  /** One more segment of a read that has succeeded so far. */
  lemma ReadGoesOn(disk: Disk, segs: seq<FileSegment>, i: nat, start: nat, end: nat)
    requires i < |segs| && ReadVirtual(disk, segs[..i], start, end).Ok?
    ensures ReadVirtual(disk, segs[..i + 1], start, end) ==
      match ReadSegment(disk, segs[i], start, end)
      case Err(e) => Err(e)
      case Ok(chunk) => Ok(ReadVirtual(disk, segs[..i], start, end).value + chunk)
  {
    hide ReadSegment;
    assert segs[..i + 1][..i] == segs[..i];
  }

  lemma WriteGoesOn(disk: Disk, segs: seq<FileSegment>, i: nat, start: nat, data: Bytes)
    requires i < |segs|
    ensures WriteVirtual(disk, segs[..i + 1], start, data)
      == WriteSegment(WriteVirtual(disk, segs[..i], start, data), segs[i], start, data)
  {
    hide WriteSegment;
    assert segs[..i + 1][..i] == segs[..i];
  }

  /** What one segment takes of a write, in the terms of the loop body. */
  lemma SegmentStep(w: Written, seg: FileSegment, start: nat, data: Bytes)
    requires seg.end == seg.start + seg.length
    ensures var end := start + |data|;
      var from, to := Max(start, seg.start), Min(end, seg.end);
      var r := WriteSegment(w, seg, start, data);
      if seg.length == 0 || seg.end <= start || seg.start >= end then r == w
      else
        && seg.start <= from <= to
        && r == Written(
             w.disk[seg.path := WriteAt(Grown(Content(w.disk, seg.path), seg.length), from - seg.start,
                                        data[Min(w.consumed, |data|)..Min(w.consumed + (to - from), |data|)])],
             w.consumed + (to - from))
  {
    hide WriteAt, Grown, Content;
  }

  lemma GrownContent(disk: Disk, path: Path, length: nat)
    ensures var file := if path in disk then disk[path] else [];
      Grown(Content(disk, path), length) == if |file| < length then Padded(file, length) else file
  {
    hide Padded;
  }

  /** A read that failed on a prefix of the segments fails the same way on all of them. */
  lemma {:induction false} ReadStops(disk: Disk, segs: seq<FileSegment>, i: nat, start: nat, end: nat)
    requires i <= |segs| && ReadVirtual(disk, segs[..i], start, end).Err?
    ensures ReadVirtual(disk, segs, start, end) == ReadVirtual(disk, segs[..i], start, end)
  {
    hide ReadSegment;
    if i == |segs| {
      assert segs[..i] == segs;
    } else {
      assert segs[..|segs| - 1][..i] == segs[..i];
      ReadStops(disk, segs[..|segs| - 1], i, start, end);
    }
  }
}
