/** tools/create_metainfo.py: the streaming piece hasher and the metainfo it goes into. */
module MetainfoGenerator {
  import opened Wrappers
  import opened ByteStrings
  import opened HexText
  import opened BencodeEncoder
  import opened Storage
  import opened Torrents
  import opened PieceStore
  import opened Metainfo

  // ---- The streaming hasher ----------------------------------------------------

  /** All bytes of the chunks, in order. */
  function Concat(chunks: seq<Bytes>): Bytes {
    if chunks == [] then [] else chunks[0] + Concat(chunks[1..])
  }

  /** A file is the chunks that successive reads of it return. */
  function ConcatFiles(files: seq<seq<Bytes>>): Bytes {
    if files == [] then [] else Concat(files[0]) + ConcatFiles(files[1..])
  }

  /** The hashes of consecutive slices of a piece length, the last one possibly shorter. */
  function SliceHashes(stream: Bytes, p: nat, sha1: Hash): seq<string>
    requires p > 0
  {
    if stream == [] then []
    else [Hex(sha1(stream[..Min(p, |stream|)]))] + SliceHashes(stream[Min(p, |stream|)..], p, sha1)
  }

  /**
   * `calculate_piece_hashes`: pieces cross the boundaries of files and of read chunks, and
   * the result is the same as hashing the slices of the whole concatenation.
   */
  method CalculatePieceHashes(files: seq<seq<Bytes>>, p: int, sha1: Hash) returns (r: Option<seq<string>>)
    ensures r.None? <==> p <= 0
    ensures p > 0 ==> r == Some(SliceHashes(ConcatFiles(files), p, sha1))
  {
    if p <= 0 { return None; }
    hide Concat, ConcatFiles, Hashed, SliceHashes;
    var hashes: seq<string> := [];
    var buffer: Bytes := [];
    ghost var stream := ConcatFiles(files);
    StartHashing(files, p, sha1);
    for i := 0 to |files|
      invariant |buffer| < p
      invariant Hashed(stream, hashes, buffer + ConcatFiles(files[i..]), p, sha1)
    {
      ghost var later := ConcatFiles(files[i + 1..]);
      OpenFile(files, i);
      for j := 0 to |files[i]|
        invariant |buffer| < p
        invariant Hashed(stream, hashes, buffer + (Concat(files[i][j..]) + later), p, sha1)
      {
        ghost var rest := Concat(files[i][j + 1..]) + later;
        NextChunk(buffer, files[i], j, later);
        buffer := buffer + files[i][j];
        while |buffer| >= p
          invariant Hashed(stream, hashes, buffer + rest, p, sha1)
        {
          TakeSlice(stream, hashes, buffer, rest, p, sha1);
          var piece := buffer[..p];
          buffer := buffer[p..];
          hashes := hashes + [Hex(sha1(piece))];
        }
      }
      CloseFile(files[i], later);
    }
    FinishHashing(files, stream, hashes, buffer, p, sha1);
    assert hashes + [] == hashes;
    if buffer != [] { hashes := hashes + [Hex(sha1(buffer))]; }
    r := Some(hashes);
  }

  lemma StartHashing(files: seq<seq<Bytes>>, p: nat, sha1: Hash)
    requires p > 0
    ensures Hashed(ConcatFiles(files), [], [] + ConcatFiles(files[0..]), p, sha1)
  {
    assert files[0..] == files && [] + ConcatFiles(files) == ConcatFiles(files);
  }

  lemma OpenFile(files: seq<seq<Bytes>>, i: nat)
    requires i < |files|
    ensures ConcatFiles(files[i..]) == Concat(files[i][0..]) + ConcatFiles(files[i + 1..])
  {
    hide Concat;
    assert files[i..][1..] == files[i + 1..] && files[i][0..] == files[i];
  }

  lemma NextChunk(buffer: Bytes, chunks: seq<Bytes>, j: nat, later: Bytes)
    requires j < |chunks|
    ensures buffer + (Concat(chunks[j..]) + later) == buffer + chunks[j] + (Concat(chunks[j + 1..]) + later)
  {
    assert chunks[j..][1..] == chunks[j + 1..];
  }

  lemma CloseFile(chunks: seq<Bytes>, later: Bytes)
    ensures Concat(chunks[|chunks|..]) + later == later
  {
    assert chunks[|chunks|..] == [];
  }

  lemma FinishHashing(files: seq<seq<Bytes>>, stream: Bytes, hashes: seq<string>, buffer: Bytes, p: nat, sha1: Hash)
    requires |buffer| < p && Hashed(stream, hashes, buffer + ConcatFiles(files[|files|..]), p, sha1)
    ensures SliceHashes(stream, p, sha1) == hashes + if buffer == [] then [] else [Hex(sha1(buffer))]
  {
    assert files[|files|..] == [] && buffer + [] == buffer;
    LastSlice(buffer, p, sha1);
  }

  /** `hashes` followed by those of the bytes still to come are the hashes of the stream. */
  ghost predicate Hashed(stream: Bytes, hashes: seq<string>, toCome: Bytes, p: nat, sha1: Hash)
    requires p > 0
  {
    SliceHashes(stream, p, sha1) == hashes + SliceHashes(toCome, p, sha1)
  }

  lemma TakeSlice(stream: Bytes, hashes: seq<string>, buffer: Bytes, rest: Bytes, p: nat, sha1: Hash)
    requires 0 < p <= |buffer| && Hashed(stream, hashes, buffer + rest, p, sha1)
    ensures Hashed(stream, hashes + [Hex(sha1(buffer[..p]))], buffer[p..] + rest, p, sha1)
  {
    assert (buffer + rest)[..p] == buffer[..p];
    assert (buffer + rest)[p..] == buffer[p..] + rest;
  }

  lemma LastSlice(buffer: Bytes, p: nat, sha1: Hash)
    requires |buffer| < p
    ensures SliceHashes(buffer, p, sha1) == if buffer == [] then [] else [Hex(sha1(buffer))]
  {
    if buffer != [] { assert buffer[..|buffer|] == buffer && buffer[|buffer|..] == []; }
  }

  /** The hash of the i-th slice of p bytes, the last one possibly shorter. */
  function SliceHash(stream: Bytes, p: nat, sha1: Hash, i: nat): string {
    Hex(sha1(Clamped(stream, i * p, i * p + p)))
  }

  /** As many hashes as the ceiling division that validation requires, each of its own slice. */
  lemma {:induction false} SliceHashesAreSlices(stream: Bytes, p: nat, sha1: Hash)
    requires p > 0
    ensures |SliceHashes(stream, p, sha1)| == ExpectedPieceCount(|stream|, p)
    ensures forall i: nat :: i < |SliceHashes(stream, p, sha1)| ==>
      SliceHashes(stream, p, sha1)[i] == SliceHash(stream, p, sha1, i)
    decreases |stream|
  {
    hide ExpectedPieceCount, SliceHash;
    NoPieces(p);
    if stream != [] {
      var rest := stream[Min(p, |stream|)..];
      SliceHashesAreSlices(rest, p, sha1);
      OneMorePiece(|stream|, p);
      FirstSlice(stream, p, sha1);
      var hashes := SliceHashes(stream, p, sha1);
      forall i: nat | i < |hashes| ensures hashes[i] == SliceHash(stream, p, sha1, i) {
        if i > 0 { LaterSlice(stream, p, sha1, i); }
      }
    }
  }

  lemma LaterSlice(stream: Bytes, p: nat, sha1: Hash, i: nat)
    requires p > 0 && i > 0
    ensures SliceHash(stream, p, sha1, i) == SliceHash(stream[Min(p, |stream|)..], p, sha1, i - 1)
  {
    hide Clamped;
    var from: nat := (i - 1) * p;
    Next(i - 1, p);
    ShiftSlice(stream, p, from, Min(p, |stream|));
  }

  lemma NoPieces(p: nat)
    requires p > 0
    ensures ExpectedPieceCount(0, p) == 0
  {
  }

  lemma FirstSlice(stream: Bytes, p: nat, sha1: Hash)
    ensures SliceHash(stream, p, sha1, 0) == Hex(sha1(stream[..Min(p, |stream|)]))
  {
    assert 0 * p == 0;
    assert Clamped(stream, 0, p) == stream[..Min(p, |stream|)];
  }

  lemma OneMorePiece(total: nat, p: nat)
    requires p > 0 && total > 0
    ensures ExpectedPieceCount(total, p) == 1 + ExpectedPieceCount(total - Min(p, total), p)
  {
    var n := ExpectedPieceCount(total, p);
    CountBounds(total, p);
    Next(n - 1, p);
    if total <= p {
      LessByFactor(n - 1, 1, p);
    } else {
      var m := ExpectedPieceCount(total - p, p);
      CountBounds(total - p, p);
      Next(m, p);
      Next(m - 1, p);
      LessByFactor(n - 1, m + 1, p);
      LessByFactor(m, n, p);
    }
  }

  lemma LessByFactor(a: int, b: int, p: nat)
    requires a * p < b * p
    ensures a < b
  {
    if b <= a { Scale(b, a, p); }
  }

  lemma ShiftSlice(stream: Bytes, p: nat, from: nat, n: nat)
    requires 0 < p && n == Min(p, |stream|)
    ensures Clamped(stream[n..], from, from + p) == Clamped(stream, from + p, from + p + p)
  {
    var rest := stream[n..];
    if n == p {
      var lo, hi := Min(from, |rest|), Min(from + p, |rest|);
      assert Min(from + p, |stream|) == n + lo && Min(from + p + p, |stream|) == n + hi;
      assert rest[lo..hi] == stream[n + lo..n + hi];
    } else {
      assert rest == [] && Clamped(stream, from + p, from + p + p) == [];
    }
  }
}
