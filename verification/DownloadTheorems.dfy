/** What downloading keeps and counts, whatever the remote peers send. */
module DownloadTheorems {
  import opened Wrappers
  import opened ByteStrings
  import opened HexText
  import opened Storage
  import opened Torrents
  import opened PieceStore
  import opened PieceClients
  import opened PeerMessages
  import opened BencodeEncoder
  import P = PieceTheorems

  // ---- Which replies are believed ----------------------------------------------

  /** A reply gives piece data exactly when it is a PIECE for this torrent and this index, in Base64. */
  lemma BelievedPieces(cl: Client, i: nat, outcome: Outcome, data: Bytes)
    ensures PieceData(cl, i, outcome) == Ok(data) <==>
      && outcome.Reply?
      && var m := outcome.message;
         && HasText(m, "type", "PIECE") && HasText(m, "info_hash", Hex(cl.infoHash))
         && "piece_index" in m && PyEqualsInt(m["piece_index"], i)
         && "data" in m && m["data"].Text? && cl.decode(m["data"].text) == Some(data)
  {
  }

  /** A reply gives a bitfield exactly when it is a BITFIELD for this torrent with a bool per piece. */
  lemma BelievedBitfields(cl: Client, outcome: Outcome, bits: seq<bool>)
    ensures FetchBitfield(cl, outcome) == Ok(bits) <==>
      && outcome.Reply?
      && var m := outcome.message;
         && HasText(m, "type", "BITFIELD") && HasText(m, "info_hash", Hex(cl.infoHash))
         && HasList(m, "pieces") && |m["pieces"].items| == cl.config.torrent.pieceCount == |bits|
         && forall k :: 0 <= k < |bits| ==> m["pieces"].items[k] == Bool(bits[k])
  {
    hide Hex;
    if FetchBitfield(cl, outcome).Ok? && |bits| == |FetchBitfield(cl, outcome).value| {
      var read := FetchBitfield(cl, outcome).value;
      assert read == bits <==> forall k :: 0 <= k < |bits| ==> read[k] == bits[k];
    }
  }

  // ---- One request -------------------------------------------------------------

  /** `left` and the session counter always move by the same amount, in opposite directions. */
  function Balance(cl: Client, s: Session): int { LeftBytes(cl.config.torrent, s.store.bits) + s.downloaded }

  /**
   * A request either stores verified bytes as exactly that piece, and counts them, or
   * changes nothing; it never ends in an unexpected exception of its own.
   */
  lemma RequestEffect(cl: Client, s: Session, i: nat, outcome: Outcome)
    requires Ready(cl, s) && i < cl.config.torrent.pieceCount
    ensures var (after, r) := RequestPiece(cl, s, i, outcome);
      && Ready(cl, after)
      && (r.Ok? ==>
            && VerifyPiece(cl.config, i, r.value)
            && after.store.bits == s.store.bits[i := true]
            && Piece(cl.config, after.store.disk, i) == r.value
            && after.downloaded == s.downloaded + PieceSize(cl.config.torrent, i)
            && |r.value| == PieceSize(cl.config.torrent, i))
      && (r.Err? ==> after == s)
      && (r == Err(Crashed) <==> outcome == Crash)
  {
    hide PieceSize, PieceStart, Piece, WritePiece;
    match PieceData(cl, i, outcome)
    case Err(e) =>
    case Ok(data) =>
      P.WriteAccepts(cl.config, s.store, i, data);
      WriteErrors(cl.config, s.store, i, data);
  }

  lemma WriteErrors(c: Config, s: Store, i: nat, data: Bytes)
    requires Shaped(c, s) && i < c.torrent.pieceCount
    ensures WritePiece(c, s, i, data).1 in {None, Some(PieceHashMismatch), Some(VirtualWriteShort)}
  {
    hide WellFormed, PieceSize, PieceStart, WriteVirtual;
  }

  lemma RequestBalance(cl: Client, s: Session, i: nat, outcome: Outcome)
    requires Ready(cl, s) && i < cl.config.torrent.pieceCount && !s.store.bits[i]
    ensures Balance(cl, RequestPiece(cl, s, i, outcome).0) == Balance(cl, s)
    ensures var (after, r) := RequestPiece(cl, s, i, outcome);
      after.downloaded == s.downloaded + if r.Ok? then |r.value| else 0
  {
    hide PieceSize, PieceStart, Piece, WritePiece, RequestPiece;
    RequestEffect(cl, s, i, outcome);
    SettingOneBit(cl.config.torrent, s.store.bits, i);
  }

  lemma RequestKeepsSound(cl: Client, s: Session, i: nat, outcome: Outcome)
    requires Ready(cl, s)
    ensures Sound(cl.config, s.store) ==> Sound(cl.config, RequestPiece(cl, s, i, outcome).0.store)
    ensures Exact(cl.config, s.store) ==> Exact(cl.config, RequestPiece(cl, s, i, outcome).0.store)
  {
    hide Sound, Exact, WritePiece;
    match PieceData(cl, i, outcome)
    case Err(e) =>
    case Ok(data) =>
      if Sound(cl.config, s.store) { P.WriteKeepsSound(cl.config, s.store, i, data); }
      if Exact(cl.config, s.store) { P.WriteKeepsExact(cl.config, s.store, i, data); }
  }

  // ---- The request loop --------------------------------------------------------

  predicate Increasing(indices: seq<nat>) {
    forall j, k :: 0 <= j < k < |indices| ==> indices[j] < indices[k]
  }

  /** The indices are in range, still missing, and in increasing order. */
  predicate AllMissing(bits: seq<bool>, wanted: seq<nat>) {
    && (forall k :: 0 <= k < |wanted| ==> wanted[k] < |bits| && !bits[wanted[k]])
    && Increasing(wanted)
  }

  /** Bits set by a loop over the first n indices: what was set, and possibly those. */
  predicate GrewWithin(before: seq<bool>, after: seq<bool>, wanted: seq<nat>, n: nat)
    requires n <= |wanted|
  {
    && |before| == |after|
    && (forall i :: 0 <= i < |before| ==> (before[i] ==> after[i]) && (after[i] ==> before[i] || i in wanted[..n]))
  }

  lemma {:induction false} RequestsAccount(cl: Client, s: Session, wanted: seq<nat>, remote: Remote, n: nat)
    requires Ready(cl, s) && n <= |wanted| && AllMissing(s.store.bits, wanted)
    ensures var p := RequestPieces(cl, s, wanted, remote, n);
      && GrewWithin(s.store.bits, p.session.store.bits, wanted, n)
      && Balance(cl, p.session) == Balance(cl, s)
      && p.session.downloaded == s.downloaded + p.bytes
      && (!p.crashed ==> p.downloaded + |p.errors| == n)
  {
    hide RequestPiece, Balance, AllSet;
    if n > 0 {
      RequestsAccount(cl, s, wanted, remote, n - 1);
      var p := RequestPieces(cl, s, wanted, remote, n - 1);
      if !p.crashed {
        StillMissing(s.store.bits, p.session.store.bits, wanted, n - 1);
        TurnAccounts(cl, p, wanted[n - 1], remote(n + 1));
        var q := RequestTurn(cl, p, wanted[n - 1], remote(n + 1));
        OneMoreGrew(s.store.bits, p.session.store.bits, q.session.store.bits, wanted, n);
      } else {
        assert wanted[..n] == wanted[..n - 1] + [wanted[n - 1]];
      }
    }
  }

  lemma StillMissing(before: seq<bool>, after: seq<bool>, wanted: seq<nat>, n: nat)
    requires n < |wanted| && AllMissing(before, wanted) && GrewWithin(before, after, wanted, n)
    ensures wanted[n] < |after| && !after[wanted[n]]
  {
    assert forall k :: 0 <= k < n ==> wanted[k] < wanted[n];
    assert wanted[n] !in wanted[..n];
  }

  lemma OneMoreGrew(before: seq<bool>, middle: seq<bool>, after: seq<bool>, wanted: seq<nat>, n: nat)
    requires 0 < n <= |wanted| && GrewWithin(before, middle, wanted, n - 1) && wanted[n - 1] < |middle|
    requires after == middle || after == middle[wanted[n - 1] := true]
    ensures GrewWithin(before, after, wanted, n)
  {
    assert wanted[..n] == wanted[..n - 1] + [wanted[n - 1]];
  }

  lemma TurnAccounts(cl: Client, p: Progress, i: nat, outcome: Outcome)
    requires Ready(cl, p.session) && i < cl.config.torrent.pieceCount && !p.session.store.bits[i] && !p.crashed
    ensures var q := RequestTurn(cl, p, i, outcome);
      && (q.session.store.bits == p.session.store.bits || q.session.store.bits == p.session.store.bits[i := true])
      && Balance(cl, q.session) == Balance(cl, p.session)
      && q.session.downloaded - p.session.downloaded == q.bytes - p.bytes
      && (!q.crashed ==> q.downloaded + |q.errors| == p.downloaded + |p.errors| + 1)
  {
    hide RequestPiece, Balance, Piece, PieceSize, VerifyPiece;
    RequestEffect(cl, p.session, i, outcome);
    RequestBalance(cl, p.session, i, outcome);
  }

  lemma {:induction false} RequestsKeep(cl: Client, s: Session, wanted: seq<nat>, remote: Remote, n: nat)
    requires Ready(cl, s) && n <= |wanted|
    ensures var p := RequestPieces(cl, s, wanted, remote, n);
      && (Sound(cl.config, s.store) ==> Sound(cl.config, p.session.store))
      && (Exact(cl.config, s.store) ==> Exact(cl.config, p.session.store))
  {
    hide RequestPiece, Sound, Exact;
    if n > 0 {
      RequestsKeep(cl, s, wanted, remote, n - 1);
      var p := RequestPieces(cl, s, wanted, remote, n - 1);
      RequestKeepsSound(cl, p.session, wanted[n - 1], remote(n + 1));
    }
  }

  // ---- A whole download --------------------------------------------------------

  lemma {:induction false} WantedIsSorted(missing: seq<nat>, bits: seq<bool>)
    requires forall k :: 0 <= k < |missing| ==> missing[k] < |bits|
    requires Increasing(missing)
    ensures Increasing(Wanted(missing, bits))
  {
    if missing != [] {
      var n := |missing| - 1;
      WantedIsSorted(missing[..n], bits);
      var front := Wanted(missing[..n], bits);
      forall j | 0 <= j < |front| ensures front[j] < missing[n] {
        assert front[j] in missing[..n];
      }
    }
  }

  lemma WantedIsMissing(bits: seq<bool>, remoteBits: seq<bool>)
    requires |bits| == |remoteBits|
    ensures AllMissing(bits, Wanted(Missing(bits), remoteBits))
  {
    var missing := Missing(bits);
    var wanted := Wanted(missing, remoteBits);
    WantedIsSorted(missing, remoteBits);
    forall k | 0 <= k < |wanted| ensures wanted[k] < |bits| && !bits[wanted[k]] {
      assert wanted[k] in missing;
    }
  }

  /**
   * Accounting of one download, against any remote peer. It never loses a piece; the session
   * counter rises by exactly the drop in `left`, even when the call raises; and when it
   * returns, the numbers it reports add up.
   */
  lemma DownloadAccounts(cl: Client, s: Session, remote: Remote)
    requires Ready(cl, s)
    ensures var (after, r) := Download(cl, s, remote);
      var t := cl.config.torrent;
      && Ready(cl, after)
      && (forall i :: 0 <= i < |s.store.bits| && s.store.bits[i] ==> after.store.bits[i])
      && after.downloaded - s.downloaded == LeftBytes(t, s.store.bits) - LeftBytes(t, after.store.bits)
      && after.downloaded >= s.downloaded
      && (r.Ok? ==>
            && r.value.downloaded + |r.value.errors| == r.value.requested
            && r.value.requested + r.value.skipped == |Missing(s.store.bits)|
            && r.value.bytesDownloaded == after.downloaded - s.downloaded
            && (r.value.complete <==> LeftBytes(t, after.store.bits) == 0))
  {
    hide RequestPieces, FetchBitfield, ExpressInterest, LeftBytes, WellFormed;
    var bits := FetchBitfield(cl, remote(0));
    if bits.Ok? {
      var missing := Missing(s.store.bits);
      var wanted := Wanted(missing, bits.value);
      WantedIsMissing(s.store.bits, bits.value);
      RequestsAccount(cl, s, wanted, remote, |wanted|);
      var p := RequestPieces(cl, s, wanted, remote, |wanted|);
      LeftIsZeroIffComplete(cl.config.torrent, p.session.store.bits);
    }
  }

  /** The wanted pieces are those that are missing here and claimed there. */
  lemma WantedIsClaimed(bits: seq<bool>, remoteBits: seq<bool>)
    requires |bits| == |remoteBits|
    ensures var wanted := Wanted(Missing(bits), remoteBits);
      && Increasing(wanted)
      && forall i: nat :: i in wanted <==> i < |bits| && !bits[i] && remoteBits[i]
  {
    WantedIsMissing(bits, remoteBits);
    var missing := Missing(bits);
    forall i: nat ensures i in missing <==> i < |bits| && !bits[i] { }
  }

  /** After n requests that did not crash, every piece asked for is here or has its error. */
  predicate Answered(p: Progress, wanted: seq<nat>, n: nat)
    requires n <= |wanted|
  {
    && (forall k :: 0 <= k < n ==>
          && wanted[k] < |p.session.store.bits|
          && (p.session.store.bits[wanted[k]] || exists e :: e in p.errors && e.0 == wanted[k]))
    && (forall e :: e in p.errors ==> e.0 in wanted[..n] && e.0 < |p.session.store.bits| && !p.session.store.bits[e.0])
  }

  /** One of the first n requests ends in an exception that is not expected. */
  ghost predicate Crashes(remote: Remote, n: nat) { exists k: nat :: 2 <= k < n + 2 && remote(k) == Crash }

  lemma OneMoreRequest(remote: Remote, n: nat)
    requires n > 0
    ensures Crashes(remote, n) <==> Crashes(remote, n - 1) || remote(n + 1) == Crash
    ensures !Crashes(remote, 0)
  {
  }

  lemma {:induction false} RequestsAnswered(cl: Client, s: Session, wanted: seq<nat>, remote: Remote, n: nat)
    requires Ready(cl, s) && n <= |wanted| && AllMissing(s.store.bits, wanted)
    ensures var p := RequestPieces(cl, s, wanted, remote, n);
      && (p.crashed <==> Crashes(remote, n))
      && (!p.crashed ==> Answered(p, wanted, n))
  {
    hide RequestTurn, Answered, Crashes, Balance;
    OneMoreRequest(remote, if n > 0 then n else 1);
    if n > 0 {
      RequestsAnswered(cl, s, wanted, remote, n - 1);
      RequestsAccount(cl, s, wanted, remote, n - 1);
      var p := RequestPieces(cl, s, wanted, remote, n - 1);
      if !p.crashed {
        StillMissing(s.store.bits, p.session.store.bits, wanted, n - 1);
        TurnAnswered(cl, p, wanted, n, remote(n + 1));
      }
    } else {
      NothingAnswered(RequestPieces(cl, s, wanted, remote, 0), wanted);
    }
  }

  lemma NothingAnswered(p: Progress, wanted: seq<nat>)
    requires p.errors == []
    ensures Answered(p, wanted, 0)
  {
  }

  lemma TurnAnswered(cl: Client, p: Progress, wanted: seq<nat>, n: nat, outcome: Outcome)
    requires Ready(cl, p.session) && 0 < n <= |wanted| && !p.crashed && Increasing(wanted)
    requires wanted[n - 1] < |p.session.store.bits| && !p.session.store.bits[wanted[n - 1]]
    requires Answered(p, wanted, n - 1)
    ensures var q := RequestTurn(cl, p, wanted[n - 1], outcome);
      (q.crashed <==> outcome == Crash) && (!q.crashed ==> Answered(q, wanted, n))
  {
    hide RequestPiece, Piece, PieceSize, VerifyPiece;
    var i := wanted[n - 1];
    RequestEffect(cl, p.session, i, outcome);
    var q := RequestTurn(cl, p, i, outcome);
    assert wanted[..n] == wanted[..n - 1] + [i];
    assert i !in wanted[..n - 1] by {
      assert forall k :: 0 <= k < n - 1 ==> wanted[k] < wanted[n - 1];
    }
    if q.errors != p.errors { assert q.errors[|p.errors|].0 == i; }
    forall e | e in p.errors ensures e in q.errors { }
  }

  /**
   * What a download asks for and what becomes of it, against any remote peer. It asks for
   * exactly the missing pieces that the peer claims; each of them is then here or has its
   * error, never both; and the call raises what it does not expect exactly when an exchange
   * that it reaches does.
   */
  lemma DownloadAsks(cl: Client, s: Session, remote: Remote)
    requires Ready(cl, s)
    ensures var (after, r) := Download(cl, s, remote);
      var claimed := FetchBitfield(cl, remote(0));
      && (claimed.Err? ==> after == s && r == Err(claimed.error))
      && (claimed.Ok? ==>
            && |s.store.bits| == |claimed.value|
            && var wanted := Wanted(Missing(s.store.bits), claimed.value);
               var refusal := if wanted == [] then None else ExpressInterest(remote(1));
               && (forall i: nat :: i in wanted <==> i < |s.store.bits| && !s.store.bits[i] && claimed.value[i])
               && (refusal.Some? ==> after == s && r == Err(refusal.value))
               && (refusal.None? ==>
                     (r.Err? <==> Crashes(remote, |wanted|)) && (r.Err? ==> r.error == Crashed))
               && (r.Ok? ==>
                     && r.value.requested == |wanted| && |after.store.bits| == |s.store.bits|
                     && forall i: nat :: i < |s.store.bits| ==>
                          && ((exists e :: e in r.value.errors && e.0 == i) <==> i in wanted && !after.store.bits[i])
                          && (i !in wanted ==> after.store.bits[i] == s.store.bits[i])))
  {
    hide RequestPieces, FetchBitfield, ExpressInterest, Wanted, Missing, AllSet, LeftBytes;
    var claimed := FetchBitfield(cl, remote(0));
    if claimed.Ok? {
      var wanted := Wanted(Missing(s.store.bits), claimed.value);
      WantedIsClaimed(s.store.bits, claimed.value);
      WantedIsMissing(s.store.bits, claimed.value);
      RequestsAnswered(cl, s, wanted, remote, |wanted|);
      RequestsAccount(cl, s, wanted, remote, |wanted|);
      assert wanted[..|wanted|] == wanted;
    }
  }

  /** No remote peer can make a set bit wrong, or the bitfield inexact. */
  lemma DownloadKeepsStore(cl: Client, s: Session, remote: Remote)
    requires Ready(cl, s)
    ensures var after := Download(cl, s, remote).0;
      && Ready(cl, after)
      && (Sound(cl.config, s.store) ==> Sound(cl.config, after.store))
      && (Exact(cl.config, s.store) ==> Exact(cl.config, after.store))
  {
    hide RequestPieces, FetchBitfield, ExpressInterest, Sound, Exact;
    var bits := FetchBitfield(cl, remote(0));
    if bits.Ok? {
      var wanted := Wanted(Missing(s.store.bits), bits.value);
      RequestsKeep(cl, s, wanted, remote, |wanted|);
    }
  }

  // ---- Every sequence of downloads ---------------------------------------------

  /** The session after downloading from one remote peer after another. */
  function Downloads(cl: Client, s: Session, remotes: seq<Remote>): (after: Session)
    requires Ready(cl, s)
    ensures Ready(cl, after)
  {
    if remotes == [] then s
    else
      DownloadKeepsStore(cl, Downloads(cl, s, remotes[..|remotes| - 1]), remotes[|remotes| - 1]);
      Download(cl, Downloads(cl, s, remotes[..|remotes| - 1]), remotes[|remotes| - 1]).0
  }

  lemma {:induction false} DownloadsKeep(cl: Client, s: Session, remotes: seq<Remote>)
    requires Ready(cl, s)
    ensures var after := Downloads(cl, s, remotes);
      && (Sound(cl.config, s.store) ==> Sound(cl.config, after.store))
      && (Exact(cl.config, s.store) ==> Exact(cl.config, after.store))
      && (forall i :: 0 <= i < |s.store.bits| && s.store.bits[i] ==> after.store.bits[i])
      && Balance(cl, after) == Balance(cl, s)
  {
    hide Download, Sound, Exact, LeftBytes;
    if remotes != [] {
      var n := |remotes| - 1;
      DownloadsKeep(cl, s, remotes[..n]);
      var middle := Downloads(cl, s, remotes[..n]);
      DownloadKeepsStore(cl, middle, remotes[n]);
      DownloadAccounts(cl, middle, remotes[n]);
    }
  }

  /**
   * Download safety: open a store over any files, download from any number of peers that
   * send anything at all; if the store then says it is complete, every file holds exactly
   * the declared bytes of the original, unless a peer has produced a SHA-1 collision with a
   * piece of it.
   */
  lemma CompleteDownloadIsOriginal(
      cl: Client, disk: Disk, createMissing: bool, remotes: seq<Remote>, original: Bytes, k: nat)
    requires WellFormed(cl.config.torrent)
    requires P.HashesOf(cl.config, original)
    requires k < |Segments(cl.config.torrent)| && Segments(cl.config.torrent)[k].length > 0
    ensures var start := Session(Open(cl.config, disk, createMissing), 0);
      && Ready(cl, start)
      && var end := Downloads(cl, start, remotes);
         var seg := Segments(cl.config.torrent)[k];
         LeftBytes(cl.config.torrent, end.store.bits) == 0 ==>
           || P.Collides(cl.config, end.store.disk, original)
           || (&& seg.path in end.store.disk && |end.store.disk[seg.path]| >= seg.length
               && 0 <= seg.start <= seg.end <= |original|
               && end.store.disk[seg.path][..seg.length] == original[seg.start..seg.end])
  {
    hide Open, Downloads, Sound, Segments, P.HashesOf, P.Collides, WellFormed, LeftBytes;
    P.OpenIsSound(cl.config, disk, createMissing);
    var start := Session(Open(cl.config, disk, createMissing), 0);
    SoundIsShaped(cl.config, start.store);
    DownloadsKeep(cl, start, remotes);
    var end := Downloads(cl, start, remotes);
    LeftIsZeroIffComplete(cl.config.torrent, end.store.bits);
    if LeftBytes(cl.config.torrent, end.store.bits) == 0 {
      P.CompleteFilesAreOriginal(cl.config, end.store, original, k);
    }
  }

  lemma SoundIsShaped(c: Config, s: Store)
    requires Sound(c, s)
    ensures Shaped(c, s)
  {
  }
}
