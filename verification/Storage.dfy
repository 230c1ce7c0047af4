/**
 * Virtual storage of peer/piece_manager.py: many files presented as one flat byte stream.
 * A disk maps paths to contents; file operations do not fail.
 */
module Storage {
  import opened Wrappers
  import opened ByteStrings

  type Path = seq<string>

  type Disk = map<Path, Bytes>

  datatype FileSegment = FileSegment(path: Path, length: nat, start: nat, end: nat)

  // ---- Files -------------------------------------------------------------------

  function Min(a: int, b: int): int { if a <= b then a else b }

  function Max(a: int, b: int): int { if a <= b then b else a }

  /** A missing file reads as an empty one. */
  function Content(disk: Disk, path: Path): Bytes {
    if path in disk then disk[path] else []
  }

  /** The first n bytes, zeros standing in for those past the end: `truncate(n)`. */
  function Padded(f: Bytes, n: nat): (r: Bytes)
    ensures |r| == n
    ensures forall k :: 0 <= k < n ==> r[k] == if k < |f| then f[k] else 0
  {
    if |f| >= n then f[..n] else f + seq(n - |f|, _ => 0)
  }

  /** `file.seek(offset); file.read(n)`. */
  function ReadAt(f: Bytes, offset: nat, n: nat): Bytes {
    f[Min(offset, |f|)..Min(offset + n, |f|)]
  }

  /** `file.seek(offset); file.write(chunk)`. */
  function WriteAt(f: Bytes, offset: nat, chunk: Bytes): (r: Bytes)
    ensures |r| == Max(|f|, offset + |chunk|)
    ensures forall k :: 0 <= k < |r| ==>
      r[k] == if offset <= k < offset + |chunk| then chunk[k - offset] else if k < |f| then f[k] else 0
  {
    Padded(f, offset) + chunk + (if offset + |chunk| < |f| then f[offset + |chunk|..] else [])
  }

  /** Growing a file that is shorter than its declared length. */
  function Grown(f: Bytes, length: nat): (r: Bytes)
    ensures |r| == Max(|f|, length)
  {
    if |f| < length then Padded(f, length) else f
  }

  // ---- Segments ----------------------------------------------------------------

  function Total(segs: seq<FileSegment>): nat {
    if segs == [] then 0 else segs[|segs| - 1].end
  }

  /** Each segment starts where the one before it ends. */
  predicate Contiguous(segs: seq<FileSegment>) {
    segs == [] ||
    (var front, last := segs[..|segs| - 1], segs[|segs| - 1];
     Contiguous(front) && last.start == Total(front) && last.end == last.start + last.length)
  }

  predicate DistinctPaths(segs: seq<FileSegment>) {
    forall i, j :: 0 <= i < j < |segs| ==> segs[i].path != segs[j].path
  }

  /** The flat stream the segments present. */
  function Flat(disk: Disk, segs: seq<FileSegment>): Bytes {
    if segs == [] then [] else
      var last := segs[|segs| - 1];
      Flat(disk, segs[..|segs| - 1]) + Padded(Content(disk, last.path), last.length)
  }

  lemma {:induction false} FlatLength(disk: Disk, segs: seq<FileSegment>)
    requires Contiguous(segs)
    ensures |Flat(disk, segs)| == Total(segs)
  {
    if segs != [] {
      FlatLength(disk, segs[..|segs| - 1]);
    }
  }

  /** Each segment's file is the slice of the stream between its start and its end. */
  lemma {:induction false} FlatSlice(disk: Disk, segs: seq<FileSegment>, k: nat)
    requires Contiguous(segs) && k < |segs|
    ensures 0 <= segs[k].start <= segs[k].end <= |Flat(disk, segs)|
    ensures Flat(disk, segs)[segs[k].start..segs[k].end] == Padded(Content(disk, segs[k].path), segs[k].length)
  {
    hide Padded, Content;
    var n := |segs| - 1;
    var front, last := segs[..n], segs[n];
    FlatLength(disk, front);
    var flat, own := Flat(disk, front), Padded(Content(disk, last.path), last.length);
    if k < n {
      FlatSlice(disk, front, k);
      assert front[k] == segs[k];
      assert (flat + own)[segs[k].start..segs[k].end] == flat[segs[k].start..segs[k].end];
    } else {
      assert (flat + own)[|flat|..|flat| + |own|] == own;
    }
  }

  /** The stream depends only on the files of its segments. */
  lemma {:induction false} FlatFrame(a: Disk, b: Disk, segs: seq<FileSegment>)
    requires forall k :: 0 <= k < |segs| ==> Content(a, segs[k].path) == Content(b, segs[k].path)
    ensures Flat(a, segs) == Flat(b, segs)
  {
    if segs != [] { FlatFrame(a, b, segs[..|segs| - 1]); }
  }

  predicate Overlaps(seg: FileSegment, start: nat, end: nat) {
    seg.length != 0 && start < seg.end && seg.start < end
  }

  /** A segment's file exists and reaches as far as its declared length. */
  predicate Backed(disk: Disk, seg: FileSegment) {
    seg.path in disk && |disk[seg.path]| >= seg.length
  }

  predicate AllBacked(disk: Disk, segs: seq<FileSegment>) {
    forall k :: 0 <= k < |segs| ==> Backed(disk, segs[k])
  }

  // ---- Reading -----------------------------------------------------------------

  datatype ReadError = FileNotFound | FileTooShort

  type ReadResult = Result<Bytes, ReadError>

  /** The part of the read that one segment supplies. */
  function ReadSegment(disk: Disk, seg: FileSegment, start: nat, end: nat): ReadResult {
    if !Overlaps(seg, start, end) then Ok([])
    else
      var from, to := Max(start, seg.start), Min(end, seg.end);
      if seg.path !in disk then Err(FileNotFound)
      else if seg.start <= from <= to then
        var chunk := ReadAt(disk[seg.path], from - seg.start, to - from);
        if |chunk| != to - from then Err(FileTooShort) else Ok(chunk)
      else Ok([])
  }

  /** `_read_virtual(start, end - start)` over the given segments. */
  function ReadVirtual(disk: Disk, segs: seq<FileSegment>, start: nat, end: nat): ReadResult {
    if segs == [] then Ok([])
    else match ReadVirtual(disk, segs[..|segs| - 1], start, end)
      case Err(e) => Err(e)
      case Ok(output) =>
        match ReadSegment(disk, segs[|segs| - 1], start, end)
        case Err(e) => Err(e)
        case Ok(chunk) => Ok(output + chunk)
  }

  /** The file reaches as far as the bytes wanted from it. */
  predicate Readable(disk: Disk, seg: FileSegment, start: nat, end: nat) {
    Overlaps(seg, start, end) ==>
      seg.path in disk && (start < end ==> |disk[seg.path]| >= Min(end, seg.end) - seg.start)
  }

  lemma ReadSegmentIsSlice(disk: Disk, seg: FileSegment, start: nat, end: nat)
    requires start <= end && seg.end == seg.start + seg.length
    ensures ReadSegment(disk, seg, start, end).Ok? <==> Readable(disk, seg, start, end)
    ensures ReadSegment(disk, seg, start, end).Ok? ==>
      ReadSegment(disk, seg, start, end).value ==
        Clamped(Padded(Content(disk, seg.path), seg.length), Max(start - seg.start, 0), Max(end - seg.start, 0))
  {
  }

  /** Every file the range touches is long enough. */
  predicate AllReadable(disk: Disk, segs: seq<FileSegment>, start: nat, end: nat) {
    forall k :: 0 <= k < |segs| ==> Readable(disk, segs[k], start, end)
  }

  lemma AllReadableSplits(disk: Disk, segs: seq<FileSegment>, start: nat, end: nat)
    requires segs != []
    ensures AllReadable(disk, segs, start, end) <==>
      AllReadable(disk, segs[..|segs| - 1], start, end) && Readable(disk, segs[|segs| - 1], start, end)
  {
    hide Readable;
    var front := segs[..|segs| - 1];
    assert segs == front + [segs[|segs| - 1]];
    assert forall k :: 0 <= k < |front| ==> front[k] == segs[k];
  }

  /**
   * A read succeeds exactly when every file it touches is long enough, and then returns
   * exactly the requested slice of the flat stream, whatever the number of files.
   */
  lemma {:induction false} ReadIsSlice(disk: Disk, segs: seq<FileSegment>, start: nat, end: nat)
    requires Contiguous(segs) && start <= end
    ensures |Flat(disk, segs)| == Total(segs)
    ensures ReadVirtual(disk, segs, start, end).Ok? <==> AllReadable(disk, segs, start, end)
    ensures ReadVirtual(disk, segs, start, end).Ok? ==>
      ReadVirtual(disk, segs, start, end).value == Clamped(Flat(disk, segs), start, end)
  {
    hide Readable, AllReadable, Padded, ReadSegment, Content, Clamped;
    FlatLength(disk, segs);
    if segs == [] {
      NothingRead(disk, start, end);
    } else {
      var last, front := segs[|segs| - 1], segs[..|segs| - 1];
      var flat, own := Flat(disk, front), Padded(Content(disk, last.path), last.length);
      ReadIsSlice(disk, front, start, end);
      ReadSegmentIsSlice(disk, last, start, end);
      AllReadableSplits(disk, segs, start, end);
      SliceOfSum(flat, own, start, end);
    }
  }

  /** Segment k is the first whose file does not reach as far as the range wants. */
  predicate FirstUnreadable(disk: Disk, segs: seq<FileSegment>, start: nat, end: nat, k: nat) {
    k < |segs| && !Readable(disk, segs[k], start, end) && AllReadable(disk, segs[..k], start, end)
  }

  /**
   * A read that fails does so at the first file that is not long enough, and says whether
   * that file is missing or only too short.
   */
  lemma {:induction false} ReadFailsAtFirst(disk: Disk, segs: seq<FileSegment>, start: nat, end: nat, k: nat)
    requires Contiguous(segs) && start <= end && FirstUnreadable(disk, segs, start, end, k)
    ensures ReadVirtual(disk, segs, start, end) == Err(if segs[k].path in disk then FileTooShort else FileNotFound)
  {
    hide AllReadable, ReadSegment, Readable;
    var n := |segs| - 1;
    if k < n {
      assert segs[..n][..k] == segs[..k] && segs[..n][k] == segs[k];
      ReadFailsAtFirst(disk, segs[..n], start, end, k);
    } else {
      ReadIsSlice(disk, segs[..k], start, end);
      ReadSegmentFails(disk, segs[k], start, end);
    }
  }

  lemma ReadSegmentFails(disk: Disk, seg: FileSegment, start: nat, end: nat)
    requires start <= end && seg.end == seg.start + seg.length && !Readable(disk, seg, start, end)
    ensures ReadSegment(disk, seg, start, end) == Err(if seg.path in disk then FileTooShort else FileNotFound)
  {
    ReadSegmentIsSlice(disk, seg, start, end);
  }

  /** The slice of a stream between two offsets, cut off at its end. */
  function Clamped(stream: Bytes, start: nat, end: nat): Bytes
    requires start <= end
  {
    stream[Min(start, |stream|)..Min(end, |stream|)]
  }

  lemma NothingRead(disk: Disk, start: nat, end: nat)
    requires start <= end
    ensures AllReadable(disk, [], start, end) && Clamped([], start, end) == []
  {
  }

  /** A clamped slice of a concatenation is the concatenation of the clamped slices. */
  lemma SliceOfSum(a: Bytes, b: Bytes, start: nat, end: nat)
    requires start <= end
    ensures Clamped(a + b, start, end) ==
      Clamped(a, start, end) + Clamped(b, Max(start - |a|, 0), Max(end - |a|, 0))
  {
    if end <= |a| {
      assert (a + b)[start..end] == a[start..end];
    } else if start >= |a| {
      var n := Min(start, |a + b|);
      var m := Min(end, |a + b|);
      assert (a + b)[n..m] == b[n - |a|..m - |a|];
    } else {
      var m := Min(end, |a + b|);
      SliceAcross(a, b, start, m);
    }
  }

  lemma SliceAcross(a: Bytes, b: Bytes, start: nat, m: nat)
    requires start <= |a| <= m <= |a + b|
    ensures (a + b)[start..m] == a[start..] + b[..m - |a|]
  {
    var whole, parts := (a + b)[start..m], a[start..] + b[..m - |a|];
    forall x | 0 <= x < m - start ensures whole[x] == parts[x] {
      assert whole[x] == (a + b)[start + x];
    }
    assert |whole| == |parts| == m - start;
  }

  // ---- Writing -----------------------------------------------------------------

  datatype Written = Written(disk: Disk, consumed: nat)

  function WriteSegment(w: Written, seg: FileSegment, start: nat, data: Bytes): Written {
    var end := start + |data|;
    if !Overlaps(seg, start, end) then w
    else
      var from, to := Max(start, seg.start), Min(end, seg.end);
      if from <= to then
        var size := to - from;
        var chunk := data[Min(w.consumed, |data|)..Min(w.consumed + size, |data|)];
        var file := Grown(Content(w.disk, seg.path), seg.length);
        Written(w.disk[seg.path := WriteAt(file, from - seg.start, chunk)], w.consumed + size)
      else w
  }

  /** `_write_virtual(start, data)` over the given segments, before its final check. */
  function WriteVirtual(disk: Disk, segs: seq<FileSegment>, start: nat, data: Bytes): Written {
    if segs == [] then Written(disk, 0)
    else WriteSegment(WriteVirtual(disk, segs[..|segs| - 1], start, data), segs[|segs| - 1], start, data)
  }

  /** The bytes of a file past its declared length. */
  function Beyond(f: Bytes, length: nat): Bytes {
    if |f| > length then f[length..] else []
  }

  /** `stream` with `data` laid over it from `start` on. */
  predicate IsOverlay(result: Bytes, stream: Bytes, start: nat, data: Bytes) {
    && |result| == |stream|
    && forall x :: 0 <= x < |stream| ==>
         result[x] == if start <= x < start + |data| then data[x - start] else stream[x]
  }

  ghost predicate SameOutside(a: Disk, b: Disk, segs: seq<FileSegment>) {
    forall p :: (forall k :: 0 <= k < |segs| ==> segs[k].path != p) ==>
      (p in a <==> p in b) && Content(a, p) == Content(b, p)
  }

  /** What a write may do to the file of one segment. */
  predicate FileKept(before: Disk, after: Disk, seg: FileSegment, start: nat, end: nat) {
    && Beyond(Content(after, seg.path), seg.length) == Beyond(Content(before, seg.path), seg.length)
    && (Overlaps(seg, start, end) ==> Backed(after, seg))
    && (!Overlaps(seg, start, end) ==>
          (seg.path in after <==> seg.path in before)
          && Content(after, seg.path) == Content(before, seg.path))
  }

  /** The bytes of one file within its declared length, before and after a write. */
  predicate SegmentOverlay(before: Disk, after: Disk, seg: FileSegment, start: nat, data: Bytes) {
    var oldBytes := Padded(Content(before, seg.path), seg.length);
    var newBytes := Padded(Content(after, seg.path), seg.length);
    forall y :: 0 <= y < seg.length ==>
      newBytes[y] == if start <= seg.start + y < start + |data| then data[seg.start + y - start] else oldBytes[y]
  }

  ghost predicate SameExcept(a: Disk, b: Disk, path: Path) {
    forall p :: p != path ==> (p in a <==> p in b) && Content(a, p) == Content(b, p)
  }

  lemma WriteSegmentIsOverlay(w: Written, seg: FileSegment, start: nat, data: Bytes)
    requires seg.end == seg.start + seg.length
    requires w.consumed == Min(start + |data|, seg.start) - Min(start, seg.start)
    ensures var r := WriteSegment(w, seg, start, data);
      && r.consumed == Min(start + |data|, seg.end) - Min(start, seg.end)
      && SameExcept(r.disk, w.disk, seg.path)
      && FileKept(w.disk, r.disk, seg, start, start + |data|)
      && SegmentOverlay(w.disk, r.disk, seg, start, data)
  {
    if Overlaps(seg, start, start + |data|) {
      hide *;
      Touched(w, seg, start, data);
    } else {
      NotTouched(w, seg, start, data);
    }
  }

  lemma Touched(w: Written, seg: FileSegment, start: nat, data: Bytes)
    requires Overlaps(seg, start, start + |data|)
    requires seg.end == seg.start + seg.length
    requires w.consumed == Min(start + |data|, seg.start) - Min(start, seg.start)
    ensures var r := WriteSegment(w, seg, start, data);
      && r.consumed == Min(start + |data|, seg.end) - Min(start, seg.end)
      && SameExcept(r.disk, w.disk, seg.path)
      && FileKept(w.disk, r.disk, seg, start, start + |data|)
      && SegmentOverlay(w.disk, r.disk, seg, start, data)
  {
    hide Padded, WriteAt, Grown, WriteSegment, Content, FileKept, SegmentOverlay, SameExcept, Overlaps, Beyond, Min, Max;
    OverlapBounds(seg, start, |data|);
    var from, to := Max(start, seg.start), Min(start + |data|, seg.end);
    var before := Content(w.disk, seg.path);
    var chunk := data[from - start..to - start];
    var after := WriteAt(Grown(before, seg.length), from - seg.start, chunk);
    WriteSegmentDisk(w, seg, start, data);
    Replaced(w.disk, seg.path, after);
    WriteWithin(before, seg.length, from - seg.start, chunk);
    AtLeast(|before|, seg.length);
    TouchedFileKept(w.disk, seg, after, start, start + |data|);
    ChunkInPlace(Padded(before, seg.length), Padded(after, seg.length), seg, start, data);
    TouchedOverlay(w.disk, seg, after, start, data);
  }

  lemma TouchedFileKept(disk: Disk, seg: FileSegment, after: Bytes, start: nat, end: nat)
    requires Overlaps(seg, start, end)
    requires Beyond(after, seg.length) == Beyond(Content(disk, seg.path), seg.length)
    requires |after| >= seg.length
    ensures FileKept(disk, disk[seg.path := after], seg, start, end)
  {
    hide Overlaps, Beyond;
  }

  lemma TouchedOverlay(disk: Disk, seg: FileSegment, after: Bytes, start: nat, data: Bytes)
    requires var oldBytes, newBytes := Padded(Content(disk, seg.path), seg.length), Padded(after, seg.length);
      forall y :: 0 <= y < seg.length ==>
        newBytes[y] == if start <= seg.start + y < start + |data| then data[seg.start + y - start] else oldBytes[y]
    ensures SegmentOverlay(disk, disk[seg.path := after], seg, start, data)
  {
    hide Padded;
  }

  lemma ChunkInPlace(oldBytes: Bytes, newBytes: Bytes, seg: FileSegment, start: nat, data: Bytes)
    requires |oldBytes| == |newBytes| == seg.length && seg.end == seg.start + seg.length
    requires Overlaps(seg, start, start + |data|)
    requires var from, to := Max(start, seg.start), Min(start + |data|, seg.end);
      var chunk := data[from - start..to - start];
      forall y :: 0 <= y < seg.length ==>
        newBytes[y] == if from - seg.start <= y < from - seg.start + |chunk| then chunk[y - (from - seg.start)] else oldBytes[y]
    ensures forall y :: 0 <= y < seg.length ==>
      newBytes[y] == if start <= seg.start + y < start + |data| then data[seg.start + y - start] else oldBytes[y]
  {
    var from, to := Max(start, seg.start), Min(start + |data|, seg.end);
    var chunk := data[from - start..to - start];
    forall y | 0 <= y < seg.length
      ensures newBytes[y] == if start <= seg.start + y < start + |data| then data[seg.start + y - start] else oldBytes[y]
    {
      if start <= seg.start + y < start + |data| {
        assert chunk[y - (from - seg.start)] == data[seg.start + y - start];
      }
    }
  }

  lemma Replaced(disk: Disk, path: Path, f: Bytes)
    ensures Content(disk[path := f], path) == f && SameExcept(disk[path := f], disk, path)
  {
  }

  lemma NotTouched(w: Written, seg: FileSegment, start: nat, data: Bytes)
    requires !Overlaps(seg, start, start + |data|) && seg.end == seg.start + seg.length
    ensures WriteSegment(w, seg, start, data) == w
    ensures SegmentOverlay(w.disk, w.disk, seg, start, data)
  {
    hide Padded;
  }

  lemma WriteSegmentDisk(w: Written, seg: FileSegment, start: nat, data: Bytes)
    requires seg.end == seg.start + seg.length && Overlaps(seg, start, start + |data|)
    requires w.consumed == Min(start + |data|, seg.start) - Min(start, seg.start)
    ensures var from, to := Max(start, seg.start), Min(start + |data|, seg.end);
      && from <= to
      && WriteSegment(w, seg, start, data) == Written(
           w.disk[seg.path := WriteAt(Grown(Content(w.disk, seg.path), seg.length), from - seg.start,
                                      data[from - start..to - start])],
           w.consumed + (to - from))
  {
    hide Padded, WriteAt, Grown, Content, Overlaps, Min, Max;
    OverlapBounds(seg, start, |data|);
    var from, to := Max(start, seg.start), Min(start + |data|, seg.end);
    Least(w.consumed, |data|);
    Least(w.consumed + (to - from), |data|);
  }

  lemma Least(a: int, b: int)
    requires a <= b
    ensures Min(a, b) == a
  {
  }

  lemma AtLeast(a: int, b: int)
    ensures Max(a, b) >= b
  {
  }

  /** Where a range meets a segment, and what the segments before it have consumed. */
  lemma OverlapBounds(seg: FileSegment, start: nat, n: nat)
    requires seg.end == seg.start + seg.length && Overlaps(seg, start, start + n)
    ensures var from, to := Max(start, seg.start), Min(start + n, seg.end);
      && start <= from <= to <= start + n && seg.start <= from && to <= seg.end
      && from - start == Min(start + n, seg.start) - Min(start, seg.start)
      && Min(start, seg.end) == start
  {
  }

  /** Writing inside the declared length of a grown file. */
  lemma WriteWithin(f: Bytes, length: nat, offset: nat, chunk: Bytes)
    requires offset + |chunk| <= length
    ensures var r := WriteAt(Grown(f, length), offset, chunk);
      && |r| == Max(|f|, length)
      && Beyond(r, length) == Beyond(f, length)
      && forall y :: 0 <= y < length ==>
           Padded(r, length)[y] ==
             if offset <= y < offset + |chunk| then chunk[y - offset] else Padded(f, length)[y]
  {
  }

  ghost predicate AllKept(before: Disk, after: Disk, segs: seq<FileSegment>, start: nat, end: nat) {
    forall k :: 0 <= k < |segs| ==> FileKept(before, after, segs[k], start, end)
  }

  /**
   * A write changes exactly its slice of the flat stream. Bytes beyond each declared
   * length, files it does not touch and paths outside the torrent stay as they were, and
   * it consumes all its data whenever the slice lies inside the stream.
   */
  lemma {:induction false} WriteIsOverlay(disk: Disk, segs: seq<FileSegment>, start: nat, data: Bytes)
    requires Contiguous(segs) && DistinctPaths(segs)
    ensures var r := WriteVirtual(disk, segs, start, data);
      && r.consumed == Min(start + |data|, Total(segs)) - Min(start, Total(segs))
      && IsOverlay(Flat(r.disk, segs), Flat(disk, segs), start, data)
      && SameOutside(r.disk, disk, segs)
      && AllKept(disk, r.disk, segs, start, start + |data|)
  {
    hide Padded, FileKept, SegmentOverlay, WriteSegment, IsOverlay;
    if segs == [] {
      NothingWritten(start, data);
    } else {
      var n := |segs| - 1;
      var last, front := segs[n], segs[..n];
      WriteIsOverlay(disk, front, start, data);
      var w := WriteVirtual(disk, front, start, data);
      var r := WriteSegment(w, last, start, data);
      WriteSegmentIsOverlay(w, last, start, data);
      assert forall k :: 0 <= k < n ==> front[k] == segs[k] && front[k].path != last.path;
      FlatFrame(r.disk, w.disk, front);
      FlatLength(disk, front);
      assert Content(w.disk, last.path) == Content(disk, last.path);
      JoinOverlays(disk, w.disk, r.disk, Flat(disk, front), Flat(r.disk, front), last, start, data);
      KeptForward(disk, w.disk, r.disk, segs, start, start + |data|);
    }
  }

  lemma NothingWritten(start: nat, data: Bytes)
    ensures IsOverlay([], [], start, data)
  {
  }

  lemma JoinOverlays(a: Disk, b: Disk, c: Disk, flat: Bytes, flat': Bytes, last: FileSegment, start: nat, data: Bytes)
    requires |flat| == last.start && IsOverlay(flat', flat, start, data)
    requires Content(b, last.path) == Content(a, last.path)
    requires SegmentOverlay(b, c, last, start, data)
    ensures IsOverlay(flat' + Padded(Content(c, last.path), last.length),
                      flat + Padded(Content(a, last.path), last.length), start, data)
  {
    hide Padded, Content;
  }

  lemma KeptForward(a: Disk, b: Disk, c: Disk, segs: seq<FileSegment>, start: nat, end: nat)
    requires segs != [] && DistinctPaths(segs)
    requires AllKept(a, b, segs[..|segs| - 1], start, end) && SameOutside(b, a, segs[..|segs| - 1])
    requires FileKept(b, c, segs[|segs| - 1], start, end) && SameExcept(c, b, segs[|segs| - 1].path)
    ensures AllKept(a, c, segs, start, end) && SameOutside(c, a, segs)
    ensures Content(b, segs[|segs| - 1].path) == Content(a, segs[|segs| - 1].path)
  {
    hide Beyond, Overlaps;
    var n := |segs| - 1;
    var front, last := segs[..n], segs[n];
    assert forall k :: 0 <= k < n ==> front[k] == segs[k] && front[k].path != last.path;
    assert (last.path in b <==> last.path in a) && Content(b, last.path) == Content(a, last.path);
    forall k | 0 <= k < |segs| ensures FileKept(a, c, segs[k], start, end) {
      if k < n {
        assert FileKept(a, b, front[k], start, end);
        assert (segs[k].path in c <==> segs[k].path in b) && Content(c, segs[k].path) == Content(b, segs[k].path);
        SameBacked(b, c, segs[k]);
      }
    }
    forall p | forall k :: 0 <= k < |segs| ==> segs[k].path != p
      ensures (p in c <==> p in a) && Content(c, p) == Content(a, p)
    {
      assert segs[n].path != p;
      assert forall k :: 0 <= k < |front| ==> front[k].path == segs[k].path;
    }
  }

  lemma SameBacked(a: Disk, b: Disk, seg: FileSegment)
    requires (seg.path in a <==> seg.path in b) && Content(a, seg.path) == Content(b, seg.path)
    ensures Backed(a, seg) <==> Backed(b, seg)
  {
  }

  // ---- Preparing ---------------------------------------------------------------

  /** `_prepare_storage`: every file created or grown to its declared length. */
  function Prepare(disk: Disk, segs: seq<FileSegment>): Disk {
    if segs == [] then disk
    else PrepareFile(Prepare(disk, segs[..|segs| - 1]), segs[|segs| - 1])
  }

  /** One file created or grown: its first bytes, padded, are what they were. */
  ghost predicate OnlyPadded(before: Disk, after: Disk) {
    && (forall p :: p in before ==> p in after && before[p] <= after[p])
    && (forall p, n: nat :: Padded(Content(after, p), n) == Padded(Content(before, p), n))
  }

  /** Preparing backs every segment, only ever pads, and leaves other paths alone. */
  lemma {:induction false} PrepareBacks(disk: Disk, segs: seq<FileSegment>)
    ensures AllBacked(Prepare(disk, segs), segs)
    ensures OnlyPadded(disk, Prepare(disk, segs))
    ensures SameOutside(Prepare(disk, segs), disk, segs)
  {
    hide Padded, Content, OnlyPadded, PrepareFile, SameOutside, AllBacked;
    if segs == [] {
      NothingPrepared(disk);
    } else {
      var front, last := segs[..|segs| - 1], segs[|segs| - 1];
      PrepareBacks(disk, front);
      assert segs == front + [last];
      PrepareOne(Prepare(disk, front), last);
      PrepareForward(disk, Prepare(disk, front), Prepare(disk, segs), segs);
    }
  }

  lemma PrepareForward(a: Disk, b: Disk, c: Disk, segs: seq<FileSegment>)
    requires segs != []
    requires AllBacked(b, segs[..|segs| - 1]) && OnlyPadded(a, b) && SameOutside(b, a, segs[..|segs| - 1])
    requires Backed(c, segs[|segs| - 1]) && OnlyPadded(b, c) && SameExcept(c, b, segs[|segs| - 1].path)
    ensures AllBacked(c, segs) && OnlyPadded(a, c) && SameOutside(c, a, segs)
  {
    hide Padded, Content;
    var n := |segs| - 1;
    var front := segs[..n];
    assert forall k :: 0 <= k < n ==> front[k] == segs[k];
    forall k | 0 <= k < |segs| ensures Backed(c, segs[k]) {
      if k < n { assert Backed(b, front[k]); }
    }
    forall p | forall k :: 0 <= k < |segs| ==> segs[k].path != p
      ensures (p in c <==> p in a) && Content(c, p) == Content(a, p)
    {
      assert segs[n].path != p;
      assert forall k :: 0 <= k < |front| ==> front[k].path == segs[k].path;
    }
  }

  lemma NothingPrepared(disk: Disk)
    ensures AllBacked(disk, []) && OnlyPadded(disk, disk) && SameOutside(disk, disk, [])
  {
  }

  function PrepareFile(d: Disk, seg: FileSegment): Disk {
    if seg.path !in d then d[seg.path := Padded([], seg.length)]
    else if |d[seg.path]| < seg.length then d[seg.path := Padded(d[seg.path], seg.length)]
    else d
  }

  lemma PrepareOne(d: Disk, seg: FileSegment)
    ensures Backed(PrepareFile(d, seg), seg)
    ensures OnlyPadded(d, PrepareFile(d, seg))
    ensures SameExcept(PrepareFile(d, seg), d, seg.path)
  {
  }

  lemma {:induction false} FlatOfPrepared(a: Disk, b: Disk, segs: seq<FileSegment>)
    requires forall k :: 0 <= k < |segs| ==>
      Padded(Content(a, segs[k].path), segs[k].length) == Padded(Content(b, segs[k].path), segs[k].length)
    ensures Flat(a, segs) == Flat(b, segs)
  {
    if segs != [] { FlatOfPrepared(a, b, segs[..|segs| - 1]); }
  }
}
