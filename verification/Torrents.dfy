/** A validated torrent, and the tiling of its byte stream by pieces and by files. */
module Torrents {
  import opened ByteStrings
  import opened HexText
  import opened Storage

  datatype FileEntry = FileEntry(path: Path, length: nat)

  datatype Layout = SingleFile(length: nat) | MultiFile(files: seq<FileEntry>)

  /** What `Metainfo.load` leaves in its fields. */
  datatype Torrent = Torrent(
    announce: string,
    name: string,
    layout: Layout,
    pieceLength: nat,
    pieceHashes: seq<string>,
    totalLength: nat,
    pieceCount: nat,
    infoHash: Digest)

  function SumLengths(files: seq<FileEntry>): nat {
    if files == [] then 0 else SumLengths(files[..|files| - 1]) + files[|files| - 1].length
  }

  function LayoutLength(layout: Layout): nat {
    match layout
    case SingleFile(length) => length
    case MultiFile(files) => SumLengths(files)
  }

  /** The number of pieces that `Metainfo.validate` requires. */
  function ExpectedPieceCount(total: nat, pieceLength: nat): nat
    requires pieceLength > 0
  {
    if total == 0 then 0 else (total + pieceLength - 1) / pieceLength
  }

  predicate DistinctFiles(files: seq<FileEntry>) {
    forall i, j :: 0 <= i < j < |files| ==> files[i].path != files[j].path
  }

  /** What validation guarantees about a loaded torrent. */
  predicate WellFormed(t: Torrent) {
    && t.pieceLength > 0
    && t.totalLength == LayoutLength(t.layout)
    && t.pieceCount == |t.pieceHashes| == ExpectedPieceCount(t.totalLength, t.pieceLength)
    && (t.layout.MultiFile? ==> DistinctFiles(t.layout.files))
  }

  // ---- Pieces tile the stream --------------------------------------------------

  /** `piece_size(index)`. */
  function PieceSize(t: Torrent, i: nat): int {
    if i < t.pieceCount - 1 then t.pieceLength
    else t.totalLength - t.pieceLength * (t.pieceCount - 1)
  }

  function PieceStart(t: Torrent, i: nat): nat { i * t.pieceLength }

  lemma CountBounds(total: nat, p: nat)
    requires p > 0 && total > 0
    ensures var n := ExpectedPieceCount(total, p); n >= 1 && (n - 1) * p < total <= n * p
  {
    var n, r := (total + p - 1) / p, (total + p - 1) % p;
    assert total + p - 1 == n * p + r;
    assert (n - 1) * p == n * p - p;
  }

  lemma Scale(a: int, b: int, p: nat)
    requires a <= b
    ensures a * p <= b * p
  {
  }

  lemma Next(i: int, p: int)
    ensures (i + 1) * p == i * p + p
  {
  }

  /** Every piece is non-empty, at most a piece length, inside the stream, next to its neighbour. */
  lemma PieceInside(t: Torrent, i: nat)
    requires WellFormed(t) && i < t.pieceCount
    ensures 1 <= PieceSize(t, i) <= t.pieceLength
    ensures PieceStart(t, i) + PieceSize(t, i) <= t.totalLength
    ensures i < t.pieceCount - 1 ==> PieceStart(t, i) + PieceSize(t, i) == PieceStart(t, i + 1)
    ensures i == t.pieceCount - 1 ==> PieceStart(t, i) + PieceSize(t, i) == t.totalLength
  {
    var p, n := t.pieceLength, t.pieceCount;
    CountBounds(t.totalLength, p);
    Next(i, p);
    Next(n - 1, p);
    if i < n - 1 { Scale(i + 1, n - 1, p); }
  }

  lemma PiecesInOrder(t: Torrent, i: nat, j: nat)
    requires WellFormed(t) && i < j < t.pieceCount
    ensures PieceStart(t, i) + PieceSize(t, i) <= PieceStart(t, j)
  {
    PieceInside(t, i);
    Next(i, t.pieceLength);
    Scale(i + 1, j, t.pieceLength);
  }

  /** Every byte of the stream lies in a piece. */
  lemma PieceContaining(t: Torrent, x: nat) returns (i: nat)
    requires WellFormed(t) && x < t.totalLength
    ensures i < t.pieceCount && PieceStart(t, i) <= x < PieceStart(t, i) + PieceSize(t, i)
  {
    var p, n := t.pieceLength, t.pieceCount;
    CountBounds(t.totalLength, p);
    i := x / p;
    assert x == i * p + x % p;
    if i >= n { Scale(n, i, p); }
    PieceInside(t, i);
    Next(i, p);
  }

  // ---- Sizes add up ------------------------------------------------------------

  /** Total size of the pieces whose bit is set: `downloaded_bytes`. */
  function OwnedBytes(t: Torrent, bits: seq<bool>): int {
    if bits == [] then 0 else
      var i := |bits| - 1;
      OwnedBytes(t, bits[..i]) + if bits[i] then PieceSize(t, i) else 0
  }

  /** `left`. */
  function LeftBytes(t: Torrent, bits: seq<bool>): int { t.totalLength - OwnedBytes(t, bits) }

  /** `missing_piece_indices()`: the clear bits, in order. */
  function Missing(bits: seq<bool>): (indices: seq<nat>)
    ensures forall k :: 0 <= k < |indices| ==> indices[k] < |bits| && !bits[indices[k]]
    ensures forall j, k :: 0 <= j < k < |indices| ==> indices[j] < indices[k]
    ensures forall i :: 0 <= i < |bits| && !bits[i] ==> i in indices
  {
    if bits == [] then [] else
      var i := |bits| - 1;
      Missing(bits[..i]) + if bits[i] then [] else [i]
  }

  predicate AllSet(bits: seq<bool>) { forall i :: 0 <= i < |bits| ==> bits[i] }

  lemma {:induction false} OwnedBounds(t: Torrent, bits: seq<bool>)
    requires WellFormed(t) && |bits| <= t.pieceCount
    ensures 0 <= OwnedBytes(t, bits)
    ensures |bits| < t.pieceCount ==> OwnedBytes(t, bits) <= PieceStart(t, |bits|)
    ensures |bits| == t.pieceCount ==> OwnedBytes(t, bits) <= t.totalLength
    ensures AllSet(bits) && |bits| == t.pieceCount ==> OwnedBytes(t, bits) == t.totalLength
    ensures AllSet(bits) && |bits| < t.pieceCount ==> OwnedBytes(t, bits) == PieceStart(t, |bits|)
    ensures !AllSet(bits) && |bits| == t.pieceCount ==> OwnedBytes(t, bits) < t.totalLength
    ensures !AllSet(bits) && |bits| < t.pieceCount ==> OwnedBytes(t, bits) < PieceStart(t, |bits|)
  {
    hide PieceSize, PieceStart, WellFormed;
    if bits == [] {
      EmptyBounds(t);
    } else {
      var i := |bits| - 1;
      OwnedBounds(t, bits[..i]);
      PieceInside(t, i);
      AllSetSplits(bits);
    }
  }

  lemma AllSetSplits(bits: seq<bool>)
    requires bits != []
    ensures AllSet(bits) <==> AllSet(bits[..|bits| - 1]) && bits[|bits| - 1]
  {
    assert bits == bits[..|bits| - 1] + [bits[|bits| - 1]];
  }

  lemma EmptyBounds(t: Torrent)
    requires WellFormed(t)
    ensures PieceStart(t, 0) == 0
    ensures t.pieceCount == 0 ==> t.totalLength == 0
  {
    if t.totalLength > 0 { CountBounds(t.totalLength, t.pieceLength); }
  }

  /** `left` is never negative, and is zero exactly when every bit is set. */
  lemma LeftIsZeroIffComplete(t: Torrent, bits: seq<bool>)
    requires WellFormed(t) && |bits| == t.pieceCount
    ensures 0 <= LeftBytes(t, bits) <= t.totalLength
    ensures LeftBytes(t, bits) == 0 <==> AllSet(bits)
  {
    OwnedBounds(t, bits);
  }

  /** Setting one bit lowers `left` by that piece's size, if the bit was clear. */
  lemma {:induction false} SettingOneBit(t: Torrent, bits: seq<bool>, i: nat)
    requires i < |bits|
    ensures OwnedBytes(t, bits[i := true]) == OwnedBytes(t, bits) + if bits[i] then 0 else PieceSize(t, i)
  {
    hide PieceSize;
    var n := |bits| - 1;
    if i == n {
      assert bits[i := true][..n] == bits[..n];
    } else {
      SettingOneBit(t, bits[..n], i);
      assert bits[i := true][..n] == bits[..n][i := true];
    }
  }

  // ---- Files tile the stream ---------------------------------------------------

  /** `_build_segments` for the multi-file form. */
  function FileSegments(name: string, files: seq<FileEntry>): seq<FileSegment> {
    if files == [] then [] else
      var front := FileSegments(name, files[..|files| - 1]);
      var last := files[|files| - 1];
      front + [FileSegment([name] + last.path, last.length, Total(front), Total(front) + last.length)]
  }

  function Segments(t: Torrent): seq<FileSegment> {
    match t.layout
    case SingleFile(length) => [FileSegment([t.name], length, 0, length)]
    case MultiFile(files) => FileSegments(t.name, files)
  }

  lemma {:induction false} FileSegmentsTile(name: string, files: seq<FileEntry>)
    ensures Contiguous(FileSegments(name, files))
    ensures Total(FileSegments(name, files)) == SumLengths(files)
  {
    if files != [] {
      var n := |files| - 1;
      FileSegmentsTile(name, files[..n]);
      var segs := FileSegments(name, files);
      assert segs[..|segs| - 1] == FileSegments(name, files[..n]);
    }
  }

  lemma {:induction false} FileSegmentPaths(name: string, files: seq<FileEntry>)
    ensures |FileSegments(name, files)| == |files|
    ensures forall k :: 0 <= k < |files| ==>
      && FileSegments(name, files)[k].path == [name] + files[k].path
      && FileSegments(name, files)[k].length == files[k].length
  {
    if files != [] { FileSegmentPaths(name, files[..|files| - 1]); }
  }

  lemma FileSegmentsDistinct(name: string, files: seq<FileEntry>)
    requires DistinctFiles(files)
    ensures DistinctPaths(FileSegments(name, files))
  {
    hide FileSegments;
    var segs := FileSegments(name, files);
    FileSegmentPaths(name, files);
    forall i, j | 0 <= i < j < |segs| ensures segs[i].path != segs[j].path {
      assert segs[i].path[1..] == files[i].path && segs[j].path[1..] == files[j].path;
    }
  }

  /** The files of a torrent tile its stream, and no two of them share a path. */
  lemma SegmentsTile(t: Torrent)
    requires WellFormed(t)
    ensures Contiguous(Segments(t)) && DistinctPaths(Segments(t))
    ensures Total(Segments(t)) == t.totalLength
  {
    match t.layout
    case SingleFile(length) =>
      var segs := Segments(t);
      assert segs[..|segs| - 1] == [];
    case MultiFile(files) =>
      FileSegmentsTile(t.name, files);
      FileSegmentsDistinct(t.name, files);
  }

  /** `_build_segments`, the loop that keeps a running offset. */
  method BuildSegments(t: Torrent) returns (segments: seq<FileSegment>)
    ensures segments == Segments(t)
  {
    if t.layout.SingleFile? {
      return [FileSegment([t.name], t.layout.length, 0, t.layout.length)];
    }
    var files := t.layout.files;
    var offset := 0;
    segments := [];
    for i := 0 to |files|
      invariant segments == FileSegments(t.name, files[..i])
      invariant offset == Total(segments)
    {
      assert files[..i + 1][..i] == files[..i];
      var entry := files[i];
      segments := segments + [FileSegment([t.name] + entry.path, entry.length, offset, offset + entry.length)];
      offset := offset + entry.length;
    }
    assert files[..|files|] == files;
  }
}
