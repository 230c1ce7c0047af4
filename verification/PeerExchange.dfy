/**
 * A client downloading from a peer that runs the real server: the two sides meet, over
 * frames with a size limit on each side.
 */
module PeerExchange {
  import opened Wrappers
  import opened ByteStrings
  import opened BencodeEncoder
  import opened HexText
  import opened Torrents
  import opened PieceStore
  import opened PeerMessages
  import opened PieceClients
  import opened DownloadTheorems
  import opened PeerWire
  import F = Framing
  import Server = PeerServers
  import P = PieceTheorems

  // ---- What the client sends ---------------------------------------------------

  function TorrentMessage(cl: Client, kind: string): Message {
    map["type" := Text(kind), "peer_id" := Text(Hex(cl.peerId)), "info_hash" := Text(Hex(cl.infoHash))]
  }

  function PieceMessage(cl: Client, i: nat): Message { TorrentMessage(cl, "REQUEST")["piece_index" := Int(i)] }

  /** The k-th message of a download: BITFIELD_REQUEST, INTERESTED, then one REQUEST per wanted piece. */
  function ClientMessage(cl: Client, wanted: seq<nat>, k: nat): Message {
    if k == 0 then TorrentMessage(cl, "BITFIELD_REQUEST")
    else if k == 1 then TorrentMessage(cl, "INTERESTED")
    else PieceMessage(cl, if k - 2 < |wanted| then wanted[k - 2] else 0)
  }

  /** The server after the first k messages. */
  function ServerAfter(sc: Server.ServerConfig, s: Server.Shared, cl: Client, wanted: seq<nat>, k: nat)
    : (after: Server.Shared)
    requires Server.Ready(sc, s)
    ensures Server.Ready(sc, after)
  {
    if k == 0 then s
    else
      var before := ServerAfter(sc, s, cl, wanted, k - 1);
      ExchangeKeepsReady(sc, before, ClientMessage(cl, wanted, k - 1));
      Exchange(sc, before, ClientMessage(cl, wanted, k - 1)).0
  }

  lemma ExchangeKeepsReady(sc: Server.ServerConfig, s: Server.Shared, m: Message)
    requires Server.Ready(sc, s)
    ensures Server.Ready(sc, Exchange(sc, s, m).0)
  {
    hide Server.Dispatch, F.EncodeMessage, F.Receive, Server.FrameOf, OutcomeOf, Server.Sendable;
    match F.EncodeMessage(sc.codec, m, F.DEFAULT_MAX_MESSAGE_SIZE)
    case Err(_) =>
    case Ok(frame) =>
      match F.Receive(sc.codec, frame, F.Closed, sc.limit).0 {
        case Ok(received) => DispatchKeepsReady(sc, s, received);
        case Err(_) =>
      }
  }

  lemma DispatchKeepsReady(sc: Server.ServerConfig, s: Server.Shared, m: Message)
    requires Server.Ready(sc, s)
    ensures Server.Ready(sc, Server.Dispatch(sc, s, m, 0.0).0)
  {
    hide Server.Begin, WellFormed, ReadPieceBytes, VerifyPiece;
    Server.BeginKeepsReady(sc, s, m, 0.0);
  }

  /** What the client hears from the server. */
  function HonestRemote(sc: Server.ServerConfig, s: Server.Shared, cl: Client, wanted: seq<nat>): Remote
    requires Server.Ready(sc, s)
  {
    (k: nat) => Exchange(sc, ServerAfter(sc, s, cl, wanted, k), ClientMessage(cl, wanted, k)).1
  }

  // ---- Both sides hold the same torrent ----------------------------------------

  /** The same hash function and pieces; names, files and trackers may differ. */
  ghost predicate SamePieces(a: Config, b: Config) {
    && a.sha1 == b.sha1
    && a.torrent.pieceHashes == b.torrent.pieceHashes
    && a.torrent.pieceLength == b.torrent.pieceLength
    && a.torrent.totalLength == b.torrent.totalLength
    && a.torrent.pieceCount == b.torrent.pieceCount
  }

  /** The library fact about Base64. */
  ghost predicate DecodesEncoded(decode: Base64Decoder, encode: Bytes -> string) {
    forall data: Bytes :: decode(encode(data)) == Some(data)
  }

  ghost predicate Matching(cl: Client, sc: Server.ServerConfig, s: Server.Shared) {
    && sc.manager.Some?
    && Exact(sc.manager.value, s.store)
    && sc.manager.value.torrent.infoHash == cl.infoHash
    && SamePieces(cl.config, sc.manager.value)
    && DecodesEncoded(cl.decode, sc.encode)
    && FaithfulCodec(sc.codec)
  }

  // ---- Which messages fit ------------------------------------------------------

  function AnswerMessage(sc: Server.ServerConfig, answer: Server.Answer): Message
    requires !answer.Silence?
  {
    Server.MessageOf(sc, answer).value
  }

  /** The answer to a request for piece i that the server has. */
  function PieceAnswer(cl: Client, sc: Server.ServerConfig, s: Server.Shared, i: nat): Server.Answer
    requires sc.manager.Some? && WellFormed(sc.manager.value.torrent) && i < sc.manager.value.torrent.pieceCount
  {
    Server.Piece(cl.infoHash, cl.peerId, i, Piece(sc.manager.value, s.store.disk, i))
  }

  predicate BitfieldFits(cl: Client, sc: Server.ServerConfig, s: Server.Shared) {
    && Fits(sc, TorrentMessage(cl, "BITFIELD_REQUEST"))
    && Fits(sc, AnswerMessage(sc, Server.Bitfield(cl.infoHash, s.store.bits)))
  }

  predicate InterestFits(cl: Client, sc: Server.ServerConfig) {
    && Fits(sc, TorrentMessage(cl, "INTERESTED"))
    && Fits(sc, AnswerMessage(sc, Server.Unchoke(cl.infoHash, cl.peerId)))
  }

  predicate PieceFits(cl: Client, sc: Server.ServerConfig, s: Server.Shared, i: nat)
    requires sc.manager.Some? && WellFormed(sc.manager.value.torrent) && i < sc.manager.value.torrent.pieceCount
  {
    Fits(sc, PieceMessage(cl, i)) && Fits(sc, AnswerMessage(sc, PieceAnswer(cl, sc, s, i)))
  }

  // ---- One exchange at a time --------------------------------------------------

  lemma FieldsDecode(cl: Client, m: Message)
    requires "peer_id" in m && m["peer_id"] == Text(Hex(cl.peerId))
    requires "info_hash" in m && m["info_hash"] == Text(Hex(cl.infoHash))
    ensures Server.HexField(m, "peer_id") == Some(cl.peerId)
    ensures Server.HexField(m, "info_hash") == Some(cl.infoHash)
  {
    hide Hex, FromHex;
    FromHexOfHex(cl.peerId);
    FromHexOfHex(cl.infoHash);
  }

  lemma RequestIsValid(cl: Client, sc: Server.ServerConfig, m: Message)
    requires sc.manager.Some? && sc.manager.value.torrent.infoHash == cl.infoHash
    requires "peer_id" in m && m["peer_id"] == Text(Hex(cl.peerId))
    requires "info_hash" in m && m["info_hash"] == Text(Hex(cl.infoHash))
    ensures Server.ValidateRequest(sc, m) == Ok(Server.TorrentRequest(cl.peerId, cl.infoHash))
  {
    hide Server.HexField;
    FieldsDecode(cl, m);
  }

  lemma TorrentMessageIsPlain(cl: Client, kind: string)
    requires kind in {"BITFIELD_REQUEST", "INTERESTED", "REQUEST"}
    ensures IsPlain(TorrentMessage(cl, kind)) && F.HasType(TorrentMessage(cl, kind))
  {
    KindIsType(TorrentMessage(cl, kind), kind);
  }

  lemma PieceMessageIsPlain(cl: Client, i: nat)
    ensures IsPlain(PieceMessage(cl, i)) && F.HasType(PieceMessage(cl, i))
  {
    KindIsType(PieceMessage(cl, i), "REQUEST");
  }

  lemma AnswerIsPlain(sc: Server.ServerConfig, answer: Server.Answer)
    requires answer.Bitfield? || answer.Unchoke? || answer.Piece?
    ensures IsPlain(AnswerMessage(sc, answer)) && F.HasType(AnswerMessage(sc, answer))
  {
    hide Hex, Server.ExpectedHash;
    var m := AnswerMessage(sc, answer);
    match answer
    case Bitfield(_, _) => KindIsType(m, "BITFIELD");
    case Unchoke(_, _) => KindIsType(m, "UNCHOKE");
    case Piece(_, _, _, _) => KindIsType(m, "PIECE");
  }

  /** What the client hears when its request is read and dispatched to this answer. */
  lemma AnsweredExchange(
      sc: Server.ServerConfig, s: Server.Shared, m: Message, after: Server.Shared, answer: Server.Answer)
    requires Server.Ready(sc, s) && FaithfulCodec(sc.codec) && IsPlain(m) && F.HasType(m)
    requires Server.Dispatch(sc, s, m, 0.0) == (after, answer)
    requires answer.Bitfield? || answer.Unchoke? || answer.Piece?
    ensures var (shared, outcome) := Exchange(sc, s, m);
      var reply := AnswerMessage(sc, answer);
      if !Fits(sc, m) then shared == s && IsRefusal(outcome)
      else
        && shared.store == after.store && shared.interested == after.interested
        && (if Fits(sc, reply) then outcome == Reply(reply) else IsRefusal(outcome))
        && shared.uploaded >= after.uploaded
        && (Fits(sc, reply) ==> shared.uploaded == after.uploaded + Server.AccountedBytes(answer))
        && (!Fits(sc, reply) && sc.limit <= F.DEFAULT_MAX_MESSAGE_SIZE ==> shared.uploaded == after.uploaded)
        && (answer.Piece? || shared.uploaded == after.uploaded)
  {
    hide F.HasType, Server.Dispatch, Fits, OutcomeOf, Server.FrameOf, Server.Sendable, IsPlain,
      Server.MessageOf, IsRefusal, F.Faithful, FaithfulCodec, ExchangeAt;
    PlainIsFaithful(sc.codec, m);
    RequestIsHeard(sc, s, m, 0.0);
    AnswerIsPlain(sc, answer);
    PlainIsFaithful(sc.codec, AnswerMessage(sc, answer));
    HasMessage(sc, answer);
    AnswerIsHeard(sc, answer, AnswerMessage(sc, answer));
  }

  lemma HasMessage(sc: Server.ServerConfig, answer: Server.Answer)
    requires !answer.Silence?
    ensures Server.MessageOf(sc, answer) == Some(AnswerMessage(sc, answer))
  {
  }

  /** The bitfield is fetched exactly when the request and the answer fit. */
  lemma BitfieldExchange(cl: Client, sc: Server.ServerConfig, s: Server.Shared)
    requires Matching(cl, sc, s) && Server.Ready(sc, s)
    ensures var (after, outcome) := Exchange(sc, s, TorrentMessage(cl, "BITFIELD_REQUEST"));
      && after == s
      && if BitfieldFits(cl, sc, s) then FetchBitfield(cl, outcome) == Ok(s.store.bits)
         else FetchBitfield(cl, outcome).Err?
  {
    hide F.HasType, Fits, IsPlain, Exchange, Exact, SamePieces, DecodesEncoded, FaithfulCodec, Server.Dispatch,
      FetchBitfield, TorrentMessage, AnswerMessage, Server.Ready;
    var m := TorrentMessage(cl, "BITFIELD_REQUEST");
    TorrentMessageIsPlain(cl, "BITFIELD_REQUEST");
    BitfieldDispatch(cl, sc, s);
    var answer := Server.Bitfield(cl.infoHash, s.store.bits);
    AnsweredExchange(sc, s, m, s, answer);
    BitfieldIsRead(cl, sc, s);
    if IsRefusal(Exchange(sc, s, m).1) { RefusedBitfield(cl, Exchange(sc, s, m).1); }
  }

  lemma BitfieldDispatch(cl: Client, sc: Server.ServerConfig, s: Server.Shared)
    requires Matching(cl, sc, s) && Server.Ready(sc, s)
    ensures Server.Dispatch(sc, s, TorrentMessage(cl, "BITFIELD_REQUEST"), 0.0)
      == (s, Server.Bitfield(cl.infoHash, s.store.bits))
  {
    hide Server.ValidateRequest, Server.HandlePing, WellFormed, Scan, Hex;
    RequestIsValid(cl, sc, TorrentMessage(cl, "BITFIELD_REQUEST"));
  }

  lemma BitfieldIsRead(cl: Client, sc: Server.ServerConfig, s: Server.Shared)
    requires Matching(cl, sc, s)
    ensures FetchBitfield(cl, Reply(AnswerMessage(sc, Server.Bitfield(cl.infoHash, s.store.bits)))) == Ok(s.store.bits)
  {
    hide WellFormed, Scan, Hex;
  }

  lemma RefusedBitfield(cl: Client, outcome: Outcome)
    requires IsRefusal(outcome)
    ensures FetchBitfield(cl, outcome).Err?
  {
    RefusalIsExpected(outcome, "BITFIELD");
  }

  /** Interest is acknowledged exactly when both messages fit; it is registered once the request does. */
  lemma InterestExchange(cl: Client, sc: Server.ServerConfig, s: Server.Shared)
    requires Matching(cl, sc, s) && Server.Ready(sc, s)
    ensures var (after, outcome) := Exchange(sc, s, TorrentMessage(cl, "INTERESTED"));
      && (ExpressInterest(outcome) == None <==> InterestFits(cl, sc))
      && after == if Fits(sc, TorrentMessage(cl, "INTERESTED"))
                  then s.(interested := s.interested + {(cl.infoHash, cl.peerId)}) else s
  {
    hide F.HasType, Fits, IsPlain, Exchange, Exact, SamePieces, DecodesEncoded, FaithfulCodec, Server.Dispatch,
      ExpressInterest, TorrentMessage, AnswerMessage, Server.Ready;
    var m := TorrentMessage(cl, "INTERESTED");
    TorrentMessageIsPlain(cl, "INTERESTED");
    InterestDispatch(cl, sc, s);
    var answer := Server.Unchoke(cl.infoHash, cl.peerId);
    AnsweredExchange(sc, s, m, s.(interested := s.interested + {(cl.infoHash, cl.peerId)}), answer);
    UnchokeIsRead(sc, cl);
    if IsRefusal(Exchange(sc, s, m).1) { RefusedInterest(Exchange(sc, s, m).1); }
  }

  lemma InterestDispatch(cl: Client, sc: Server.ServerConfig, s: Server.Shared)
    requires Matching(cl, sc, s) && Server.Ready(sc, s)
    ensures Server.Dispatch(sc, s, TorrentMessage(cl, "INTERESTED"), 0.0)
      == (s.(interested := s.interested + {(cl.infoHash, cl.peerId)}), Server.Unchoke(cl.infoHash, cl.peerId))
  {
    hide Server.ValidateRequest, Server.HandlePing, WellFormed, Scan, Hex;
    RequestIsValid(cl, sc, TorrentMessage(cl, "INTERESTED"));
  }

  lemma UnchokeIsRead(sc: Server.ServerConfig, cl: Client)
    ensures ExpressInterest(Reply(AnswerMessage(sc, Server.Unchoke(cl.infoHash, cl.peerId)))) == None
  {
    hide Hex;
  }

  lemma RefusedInterest(outcome: Outcome)
    requires IsRefusal(outcome)
    ensures ExpressInterest(outcome) != None
  {
    RefusalIsExpected(outcome, "UNCHOKE");
  }

  // ---- One piece ---------------------------------------------------------------

  lemma PieceDispatch(cl: Client, sc: Server.ServerConfig, s: Server.Shared, i: nat)
    requires Matching(cl, sc, s) && Server.Ready(sc, s)
    requires (cl.infoHash, cl.peerId) in s.interested && i < |s.store.bits| && s.store.bits[i]
    ensures Server.Dispatch(sc, s, PieceMessage(cl, i), 0.0) == (s, PieceAnswer(cl, sc, s, i))
    ensures VerifyPiece(sc.manager.value, i, Piece(sc.manager.value, s.store.disk, i))
  {
    hide Server.ValidateRequest, Server.HandlePing, WellFormed, Hex, ReadPiece, VerifyPiece, Server.Fetch, Piece;
    RequestIsValid(cl, sc, PieceMessage(cl, i));
    PieceFetched(sc.manager.value, s, cl.infoHash, cl.peerId, i);
  }

  lemma PieceFetched(c: Config, s: Server.Shared, infoHash: Bytes, requester: Bytes, i: nat)
    requires Exact(c, s.store) && i < |s.store.bits| && s.store.bits[i]
    ensures Server.Fetch(c, s, infoHash, requester, i)
      == (s, Server.Piece(infoHash, requester, i, Piece(c, s.store.disk, i)))
    ensures VerifyPiece(c, i, Piece(c, s.store.disk, i))
  {
    hide WellFormed, ReadPiece, VerifyPiece, Piece;
    P.ReadInExactStore(c, s.store, i);
  }

  lemma PieceIsRead(cl: Client, sc: Server.ServerConfig, i: nat, data: Bytes)
    requires DecodesEncoded(cl.decode, sc.encode)
    ensures PieceData(cl, i, Reply(AnswerMessage(sc, Server.Piece(cl.infoHash, cl.peerId, i, data)))) == Ok(data)
  {
    hide Hex;
  }

  lemma RefusedPiece(cl: Client, session: Session, i: nat, outcome: Outcome)
    requires Ready(cl, session) && IsRefusal(outcome)
    ensures var (after, r) := RequestPiece(cl, session, i, outcome);
      after == session && r.Err? && r.error != Crashed
  {
    hide WritePiece;
    RefusalIsExpected(outcome, "PIECE");
  }

  lemma SameVerification(a: Config, b: Config, i: nat, data: Bytes)
    requires SamePieces(a, b) && WellFormed(a.torrent) && WellFormed(b.torrent) && i < a.torrent.pieceCount
    ensures VerifyPiece(a, i, data) <==> VerifyPiece(b, i, data)
  {
  }

  lemma ReceivedPieceIsStored(cl: Client, session: Session, i: nat, outcome: Outcome, data: Bytes)
    requires Ready(cl, session) && i < cl.config.torrent.pieceCount
    requires PieceData(cl, i, outcome) == Ok(data) && VerifyPiece(cl.config, i, data)
    ensures var (after, r) := RequestPiece(cl, session, i, outcome);
      r == Ok(data) && after.store.bits == session.store.bits[i := true]
  {
    hide WellFormed, WritePiece, VerifyPiece, PieceData, Piece;
    P.WriteAccepts(cl.config, session.store, i, data);
  }

  /**
   * A piece the server has crosses exactly when its request and its answer fit: then the
   * client gains exactly it and both counters rise by its size; otherwise the client reports
   * an error and keeps what it had.
   */
  lemma PieceExchange(cl: Client, session: Session, sc: Server.ServerConfig, s: Server.Shared, i: nat)
    requires Ready(cl, session) && Matching(cl, sc, s) && Server.Ready(sc, s)
    requires (cl.infoHash, cl.peerId) in s.interested && i < |s.store.bits| && s.store.bits[i]
    ensures var (after, outcome) := Exchange(sc, s, PieceMessage(cl, i));
      var (session', r) := RequestPiece(cl, session, i, outcome);
      && after.store == s.store && after.interested == s.interested
      && if PieceFits(cl, sc, s, i) then
           && r.Ok? && session'.store.bits == session.store.bits[i := true]
           && after.uploaded == s.uploaded + |r.value|
         else
           && r.Err? && r.error != Crashed && session' == session
           && after.uploaded >= s.uploaded
           && (sc.limit <= F.DEFAULT_MAX_MESSAGE_SIZE ==> after.uploaded == s.uploaded)
  {
    CountsAgree(cl, sc, s);
    hide F.HasType, Fits, IsPlain, Exchange, Exact, SamePieces, DecodesEncoded, FaithfulCodec, Server.Dispatch,
      PieceMessage, AnswerMessage, Server.Ready, Ready, WellFormed, VerifyPiece, Piece, RequestPiece, PieceData;
    var m := PieceMessage(cl, i);
    PieceMessageIsPlain(cl, i);
    PieceDispatch(cl, sc, s, i);
    var data := Piece(sc.manager.value, s.store.disk, i);
    AnsweredExchange(sc, s, m, s, PieceAnswer(cl, sc, s, i));
    var outcome := Exchange(sc, s, m).1;
    if PieceFits(cl, sc, s, i) {
      PieceIsRead(cl, sc, i, data);
      SameVerification(cl.config, sc.manager.value, i, data);
      ReceivedPieceIsStored(cl, session, i, outcome, data);
    } else {
      RefusedPiece(cl, session, i, outcome);
    }
  }

  lemma CountsAgree(cl: Client, sc: Server.ServerConfig, s: Server.Shared)
    requires Matching(cl, sc, s)
    ensures WellFormed(sc.manager.value.torrent)
    ensures |s.store.bits| == sc.manager.value.torrent.pieceCount == cl.config.torrent.pieceCount
  {
  }

  // ---- The request loop --------------------------------------------------------

  /** The indices the server has, and whose pieces can be asked about. */
  predicate Askable(sc: Server.ServerConfig, s: Server.Shared, wanted: seq<nat>) {
    && sc.manager.Some? && WellFormed(sc.manager.value.torrent)
    && |s.store.bits| == sc.manager.value.torrent.pieceCount
    && forall k :: 0 <= k < |wanted| ==> wanted[k] < |s.store.bits| && s.store.bits[wanted[k]]
  }

  predicate AllPiecesFit(cl: Client, sc: Server.ServerConfig, s: Server.Shared, wanted: seq<nat>)
    requires Askable(sc, s, wanted)
  {
    forall k :: 0 <= k < |wanted| ==> PieceFits(cl, sc, s, wanted[k])
  }

  /** What the client owns after n of the wanted pieces: what it had, and those of them that fit. */
  predicate OwnsAfter(
    cl: Client, sc: Server.ServerConfig, s: Server.Shared, before: seq<bool>, after: seq<bool>, wanted: seq<nat>, n: nat)
    requires Askable(sc, s, wanted) && n <= |wanted|
  {
    && |after| == |before|
    && forall i :: 0 <= i < |before| ==>
         (after[i] <==> before[i] || (i in wanted[..n] && i < |s.store.bits| && PieceFits(cl, sc, s, i)))
  }

  /** The errors so far are those of the wanted pieces that do not fit, each with its index. */
  ghost predicate ErrorsAre(
    cl: Client, sc: Server.ServerConfig, s: Server.Shared, errors: seq<(nat, ClientError)>, wanted: seq<nat>, n: nat)
    requires Askable(sc, s, wanted) && n <= |wanted|
  {
    && (forall e :: e in errors ==> e.0 in wanted[..n] && e.0 < |s.store.bits| && !PieceFits(cl, sc, s, e.0))
    && (forall k :: 0 <= k < n && !PieceFits(cl, sc, s, wanted[k]) ==> exists e :: e in errors && e.0 == wanted[k])
  }

  /** After INTERESTED and n requests. */
  ghost predicate Serving(
    cl: Client, sc: Server.ServerConfig, s: Server.Shared, wanted: seq<nat>, n: nat, received: nat)
    requires Server.Ready(sc, s) && Askable(sc, s, wanted) && n <= |wanted|
  {
    var t := ServerAfter(sc, s, cl, wanted, n + 2);
    && t.store == s.store && t.interested == s.interested + {(cl.infoHash, cl.peerId)}
    && t.uploaded >= s.uploaded + received
    && (sc.limit <= F.DEFAULT_MAX_MESSAGE_SIZE || AllPiecesFit(cl, sc, s, wanted) ==> t.uploaded == s.uploaded + received)
  }

  lemma ServingStarts(cl: Client, sc: Server.ServerConfig, s: Server.Shared, wanted: seq<nat>)
    requires Matching(cl, sc, s) && Server.Ready(sc, s) && Askable(sc, s, wanted)
    ensures var remote := HonestRemote(sc, s, cl, wanted);
      && (if BitfieldFits(cl, sc, s) then FetchBitfield(cl, remote(0)) == Ok(s.store.bits)
          else FetchBitfield(cl, remote(0)).Err?)
      && (ExpressInterest(remote(1)) == None <==> InterestFits(cl, sc))
      && (InterestFits(cl, sc) ==> Serving(cl, sc, s, wanted, 0, 0))
  {
    hide Exchange, Fits, FetchBitfield, ExpressInterest, Matching, TorrentMessage, BitfieldFits, PieceFits, Askable;
    BitfieldExchange(cl, sc, s);
    InterestExchange(cl, sc, s);
    assert ServerAfter(sc, s, cl, wanted, 1) == s;
    assert ServerAfter(sc, s, cl, wanted, 2) == Exchange(sc, s, TorrentMessage(cl, "INTERESTED")).0;
  }

  lemma {:induction false} RequestsMeetTheServer(
      cl: Client, session: Session, sc: Server.ServerConfig, s: Server.Shared, wanted: seq<nat>, n: nat)
    requires Ready(cl, session) && Matching(cl, sc, s) && Server.Ready(sc, s)
    requires Askable(sc, s, wanted) && n <= |wanted| && InterestFits(cl, sc)
    ensures var p := RequestPieces(cl, session, wanted, HonestRemote(sc, s, cl, wanted), n);
      && !p.crashed
      && Serving(cl, sc, s, wanted, n, p.bytes)
      && OwnsAfter(cl, sc, s, session.store.bits, p.session.store.bits, wanted, n)
      && ErrorsAre(cl, sc, s, p.errors, wanted, n)
  {
    hide Exchange, Matching, RequestTurn, PieceFits, InterestFits, Serving, OwnsAfter, ErrorsAre, HonestRemote;
    if n == 0 {
      ServingStarts(cl, sc, s, wanted);
      NothingAsked(cl, sc, s, session.store.bits, wanted);
    } else {
      RequestsMeetTheServer(cl, session, sc, s, wanted, n - 1);
      var p := RequestPieces(cl, session, wanted, HonestRemote(sc, s, cl, wanted), n - 1);
      RequestMeetsTheServer(cl, session.store.bits, p, sc, s, wanted, n);
    }
  }

  /** One turn of the request loop against the server. */
  lemma RequestMeetsTheServer(
      cl: Client, before: seq<bool>, p: Progress, sc: Server.ServerConfig, s: Server.Shared, wanted: seq<nat>, n: nat)
    requires Ready(cl, p.session) && Matching(cl, sc, s) && Server.Ready(sc, s) && !p.crashed
    requires Askable(sc, s, wanted) && 0 < n <= |wanted|
    requires Serving(cl, sc, s, wanted, n - 1, p.bytes)
    requires OwnsAfter(cl, sc, s, before, p.session.store.bits, wanted, n - 1)
    requires ErrorsAre(cl, sc, s, p.errors, wanted, n - 1)
    ensures var q := RequestTurn(cl, p, wanted[n - 1], HonestRemote(sc, s, cl, wanted)(n + 1));
      && !q.crashed
      && Serving(cl, sc, s, wanted, n, q.bytes)
      && OwnsAfter(cl, sc, s, before, q.session.store.bits, wanted, n)
      && ErrorsAre(cl, sc, s, q.errors, wanted, n)
  {
    var i := wanted[n - 1];
    SizesAgree(cl, sc, s, before, p, wanted, n);
    hide Exchange, Matching, PieceMessage, RequestPiece, RequestTurn, PieceFits, Serving, OwnsAfter, ErrorsAre, Ready,
      Server.Ready, Askable, ServerAfter, HonestRemote, ClientMessage;
    TurnMessage(sc, s, cl, wanted, n);
    var outcome := HonestRemote(sc, s, cl, wanted)(n + 1);
    ServingPiece(cl, p.session, sc, s, wanted, n, p.bytes);
    var (session', r) := RequestPiece(cl, p.session, i, outcome);
    TurnEffect(cl, p, i, outcome);
    ServingGoesOn(cl, sc, s, wanted, n, p.bytes, if r.Ok? then |r.value| else 0);
    OwnsOneMore(cl, sc, s, before, p.session.store.bits, session'.store.bits, wanted, n);
    OneMoreError(cl, sc, s, p.errors, wanted, n, if r.Err? then r.error else NoAnswer);
  }

  lemma TurnEffect(cl: Client, p: Progress, i: nat, outcome: Outcome)
    requires Ready(cl, p.session) && RequestPiece(cl, p.session, i, outcome).1 != Err(Crashed)
    ensures var (session, r) := RequestPiece(cl, p.session, i, outcome);
      RequestTurn(cl, p, i, outcome) == Progress(
        session, if r.Ok? then p.downloaded + 1 else p.downloaded,
        p.bytes + (if r.Ok? then |r.value| else 0),
        if r.Ok? then p.errors else p.errors + [(i, r.error)], p.crashed)
  {
    hide RequestPiece;
  }

  /** One piece from the server as it stands after INTERESTED and n - 1 requests. */
  lemma ServingPiece(
      cl: Client, session: Session, sc: Server.ServerConfig, s: Server.Shared, wanted: seq<nat>, n: nat, received: nat)
    requires Ready(cl, session) && Matching(cl, sc, s) && Server.Ready(sc, s)
    requires Askable(sc, s, wanted) && 0 < n <= |wanted| && Serving(cl, sc, s, wanted, n - 1, received)
    requires wanted[n - 1] < |s.store.bits| && s.store.bits[wanted[n - 1]]
    ensures var i := wanted[n - 1];
      var serving := ServerAfter(sc, s, cl, wanted, n + 1);
      var (after, outcome) := Exchange(sc, serving, PieceMessage(cl, i));
      var (session', r) := RequestPiece(cl, session, i, outcome);
      && after.store == serving.store && after.interested == serving.interested
      && if PieceFits(cl, sc, s, i) then
           && r.Ok? && session'.store.bits == session.store.bits[i := true]
           && after.uploaded == serving.uploaded + |r.value|
         else
           && r.Err? && r.error != Crashed && session' == session
           && after.uploaded >= serving.uploaded
           && (sc.limit <= F.DEFAULT_MAX_MESSAGE_SIZE ==> after.uploaded == serving.uploaded)
  {
    hide Exchange, Matching, PieceMessage, RequestPiece, PieceFits, Serving, Ready, WellFormed, ServerAfter;
    var serving := ServerAfter(sc, s, cl, wanted, n + 1);
    ServingStore(cl, sc, s, wanted, n - 1, received);
    assert (n - 1) + 2 == n + 1;
    MatchingDependsOnStore(cl, sc, s, serving);
    PieceExchange(cl, session, sc, serving, wanted[n - 1]);
    FitDependsOnStore(cl, sc, s, serving, wanted[n - 1]);
  }

  lemma SizesAgree(
      cl: Client, sc: Server.ServerConfig, s: Server.Shared, before: seq<bool>, p: Progress, wanted: seq<nat>, n: nat)
    requires Ready(cl, p.session) && Matching(cl, sc, s) && Askable(sc, s, wanted) && 0 < n <= |wanted|
    requires OwnsAfter(cl, sc, s, before, p.session.store.bits, wanted, n - 1)
    ensures wanted[n - 1] < |before| == |s.store.bits| && s.store.bits[wanted[n - 1]]
    ensures sc.manager.Some? && WellFormed(sc.manager.value.torrent) && wanted[n - 1] < sc.manager.value.torrent.pieceCount
  {
    hide PieceFits, WellFormed;
  }

  /** The message and the server state of the turn for the n-th wanted piece. */
  lemma TurnMessage(sc: Server.ServerConfig, s: Server.Shared, cl: Client, wanted: seq<nat>, n: nat)
    requires Server.Ready(sc, s) && 0 < n <= |wanted|
    ensures var serving := ServerAfter(sc, s, cl, wanted, n + 1);
      && HonestRemote(sc, s, cl, wanted)(n + 1) == Exchange(sc, serving, PieceMessage(cl, wanted[n - 1])).1
      && ServerAfter(sc, s, cl, wanted, n + 2) == Exchange(sc, serving, PieceMessage(cl, wanted[n - 1])).0
  {
    hide Exchange, PieceMessage, TorrentMessage;
    assert ClientMessage(cl, wanted, n + 1) == PieceMessage(cl, wanted[n - 1]);
  }

  lemma NothingAsked(cl: Client, sc: Server.ServerConfig, s: Server.Shared, bits: seq<bool>, wanted: seq<nat>)
    requires Askable(sc, s, wanted)
    ensures OwnsAfter(cl, sc, s, bits, bits, wanted, 0) && ErrorsAre(cl, sc, s, [], wanted, 0)
  {
  }

  lemma ServingStore(
      cl: Client, sc: Server.ServerConfig, s: Server.Shared, wanted: seq<nat>, n: nat, received: nat)
    requires Server.Ready(sc, s) && Askable(sc, s, wanted) && n <= |wanted| && Serving(cl, sc, s, wanted, n, received)
    ensures var t := ServerAfter(sc, s, cl, wanted, n + 2);
      t.store == s.store && (cl.infoHash, cl.peerId) in t.interested
  {
    hide ServerAfter, PieceFits;
  }

  lemma ServingGoesOn(
      cl: Client, sc: Server.ServerConfig, s: Server.Shared, wanted: seq<nat>, n: nat, received: nat, more: nat)
    requires Server.Ready(sc, s) && Askable(sc, s, wanted) && 0 < n <= |wanted|
    requires Serving(cl, sc, s, wanted, n - 1, received)
    requires var before, after := ServerAfter(sc, s, cl, wanted, n + 1), ServerAfter(sc, s, cl, wanted, n + 2);
      && after.store == before.store && after.interested == before.interested
      && after.uploaded >= before.uploaded + more
      && (PieceFits(cl, sc, s, wanted[n - 1]) || sc.limit <= F.DEFAULT_MAX_MESSAGE_SIZE ==>
            after.uploaded == before.uploaded + more)
    ensures Serving(cl, sc, s, wanted, n, received + more)
  {
    hide ServerAfter, PieceFits;
    assert (n - 1) + 2 == n + 1;
  }

  lemma OwnsOneMore(
      cl: Client, sc: Server.ServerConfig, s: Server.Shared, before: seq<bool>, middle: seq<bool>, after: seq<bool>,
      wanted: seq<nat>, n: nat)
    requires Askable(sc, s, wanted) && 0 < n <= |wanted| && wanted[n - 1] < |before|
    requires OwnsAfter(cl, sc, s, before, middle, wanted, n - 1)
    requires after == if PieceFits(cl, sc, s, wanted[n - 1]) then middle[wanted[n - 1] := true] else middle
    ensures OwnsAfter(cl, sc, s, before, after, wanted, n)
  {
    hide PieceFits;
    assert wanted[..n] == wanted[..n - 1] + [wanted[n - 1]];
  }

  lemma OneMoreError(
      cl: Client, sc: Server.ServerConfig, s: Server.Shared, errors: seq<(nat, ClientError)>, wanted: seq<nat>, n: nat,
      error: ClientError)
    requires Askable(sc, s, wanted) && 0 < n <= |wanted| && ErrorsAre(cl, sc, s, errors, wanted, n - 1)
    ensures ErrorsAre(cl, sc, s,
      if PieceFits(cl, sc, s, wanted[n - 1]) then errors else errors + [(wanted[n - 1], error)], wanted, n)
  {
    hide PieceFits;
    assert wanted[..n] == wanted[..n - 1] + [wanted[n - 1]];
    if !PieceFits(cl, sc, s, wanted[n - 1]) {
      var longer := errors + [(wanted[n - 1], error)];
      assert longer[|errors|].0 == wanted[n - 1];
      forall k | 0 <= k < n && !PieceFits(cl, sc, s, wanted[k]) ensures exists e :: e in longer && e.0 == wanted[k] {
        if k < n - 1 {
          var e :| e in errors && e.0 == wanted[k];
          assert e in longer;
        } else {
          assert longer[|errors|] in longer;
        }
      }
    }
  }

  lemma MatchingDependsOnStore(cl: Client, sc: Server.ServerConfig, s: Server.Shared, t: Server.Shared)
    requires Matching(cl, sc, s) && t.store == s.store
    ensures Matching(cl, sc, t)
  {
  }

  lemma FitDependsOnStore(cl: Client, sc: Server.ServerConfig, s: Server.Shared, t: Server.Shared, i: nat)
    requires sc.manager.Some? && WellFormed(sc.manager.value.torrent) && i < sc.manager.value.torrent.pieceCount
    requires t.store == s.store
    ensures PieceFits(cl, sc, t, i) == PieceFits(cl, sc, s, i)
  {
  }

  // ---- The whole download ------------------------------------------------------

  /** The exchanges before the requests: the bitfield, and interest if there is something to ask for. */
  predicate Connects(cl: Client, sc: Server.ServerConfig, s: Server.Shared, wanted: seq<nat>) {
    BitfieldFits(cl, sc, s) && (wanted != [] ==> InterestFits(cl, sc))
  }

  /** Every message of the download fits. */
  predicate AllFit(cl: Client, sc: Server.ServerConfig, s: Server.Shared, wanted: seq<nat>)
    requires Askable(sc, s, wanted)
  {
    Connects(cl, sc, s, wanted) && AllPiecesFit(cl, sc, s, wanted)
  }

  /** Each piece is owned that was owned before, or that the server has and whose messages fit. */
  predicate OwnsWhatFits(cl: Client, sc: Server.ServerConfig, s: Server.Shared, before: seq<bool>, after: seq<bool>)
    requires Askable(sc, s, [])
  {
    && |after| == |before| == |s.store.bits|
    && forall i :: 0 <= i < |before| ==> (after[i] <==> before[i] || (s.store.bits[i] && PieceFits(cl, sc, s, i)))
  }

  /** The pieces a download asks the server for. */
  function WantedFrom(session: Session, s: Server.Shared): seq<nat>
    requires |session.store.bits| == |s.store.bits|
  {
    Wanted(Missing(session.store.bits), s.store.bits)
  }

  lemma WantedIsAskable(cl: Client, session: Session, sc: Server.ServerConfig, s: Server.Shared)
    requires Ready(cl, session) && Matching(cl, sc, s)
    ensures |session.store.bits| == |s.store.bits|
    ensures Askable(sc, s, WantedFrom(session, s)) && Askable(sc, s, [])
  {
    CountsAgree(cl, sc, s);
    hide Matching, WellFormed, Wanted, Missing;
    var wanted := WantedFrom(session, s);
    forall k | 0 <= k < |wanted| ensures wanted[k] < |s.store.bits| && s.store.bits[wanted[k]] {
      assert wanted[k] in wanted;
    }
  }

  /** A download is its request loop once the bitfield is there and interest, if needed, is answered. */
  lemma DownloadIsItsRequests(cl: Client, session: Session, remote: Remote, bits: seq<bool>)
    requires Ready(cl, session) && |bits| == |session.store.bits|
    ensures var missing := Missing(session.store.bits);
      var wanted := Wanted(missing, bits);
      var p := RequestPieces(cl, session, wanted, remote, |wanted|);
      var (after, r) := Download(cl, session, remote);
      && (FetchBitfield(cl, remote(0)).Err? ==> r.Err? && after == session)
      && (FetchBitfield(cl, remote(0)) == Ok(bits) ==>
            if wanted != [] && ExpressInterest(remote(1)) != None then r.Err? && after == session
            else after == p.session && (p.crashed <==> r.Err?)
                 && (r.Ok? ==> r.value == DownloadResult(|wanted|, p.downloaded, |missing| - |wanted|, p.bytes,
                                                         AllSet(p.session.store.bits), p.errors)))
  {
    hide FetchBitfield, ExpressInterest, RequestPieces, AllSet, Wanted, Missing, WellFormed;
  }

  lemma OwnsInTheEnd(cl: Client, sc: Server.ServerConfig, s: Server.Shared, before: seq<bool>, after: seq<bool>)
    requires |before| == |s.store.bits| && Askable(sc, s, [])
    requires var wanted := Wanted(Missing(before), s.store.bits);
      Askable(sc, s, wanted) && OwnsAfter(cl, sc, s, before, after, wanted, |wanted|)
    ensures OwnsWhatFits(cl, sc, s, before, after)
    ensures AllSet(s.store.bits) ==>
      (AllSet(after) <==> AllPiecesFit(cl, sc, s, Wanted(Missing(before), s.store.bits)))
  {
    hide Wanted, Missing, PieceFits;
    var missing, wanted := Missing(before), Wanted(Missing(before), s.store.bits);
    assert wanted[..|wanted|] == wanted;
    forall i | 0 <= i < |before|
      ensures after[i] <==> before[i] || (s.store.bits[i] && PieceFits(cl, sc, s, i))
    {
      assert i in wanted <==> i in missing && s.store.bits[i];
    }
    if AllSet(s.store.bits) && AllSet(after) {
      forall k | 0 <= k < |wanted| ensures PieceFits(cl, sc, s, wanted[k]) {
        assert wanted[k] in wanted && wanted[k] in missing;
        var m :| 0 <= m < |missing| && missing[m] == wanted[k];
        assert !before[wanted[k]];
      }
    }
    if AllSet(s.store.bits) && AllPiecesFit(cl, sc, s, wanted) {
      forall i | 0 <= i < |after| ensures after[i] {
        if !before[i] {
          assert i in wanted;
          var k :| 0 <= k < |wanted| && wanted[k] == i;
        }
      }
    }
  }

  lemma NoErrorsIffAllFit(
      cl: Client, sc: Server.ServerConfig, s: Server.Shared, errors: seq<(nat, ClientError)>, wanted: seq<nat>)
    requires Askable(sc, s, wanted) && ErrorsAre(cl, sc, s, errors, wanted, |wanted|)
    ensures errors == [] <==> AllPiecesFit(cl, sc, s, wanted)
  {
    hide PieceFits;
    if errors != [] {
      var e := errors[0];
      assert e in errors && wanted[..|wanted|] == wanted;
      var k :| 0 <= k < |wanted| && wanted[k] == e.0;
      assert !PieceFits(cl, sc, s, wanted[k]);
    }
  }

  /** The request loop of a download that connects. */
  lemma HonestRequests(cl: Client, session: Session, sc: Server.ServerConfig, s: Server.Shared)
    requires Ready(cl, session) && Matching(cl, sc, s) && Server.Ready(sc, s)
    ensures |session.store.bits| == |s.store.bits| && Askable(sc, s, WantedFrom(session, s)) && Askable(sc, s, [])
    ensures var wanted := WantedFrom(session, s);
      var p := RequestPieces(cl, session, wanted, HonestRemote(sc, s, cl, wanted), |wanted|);
      Connects(cl, sc, s, wanted) ==>
        && !p.crashed
        && OwnsWhatFits(cl, sc, s, session.store.bits, p.session.store.bits)
        && ErrorsAre(cl, sc, s, p.errors, wanted, |wanted|)
        && (p.errors == [] <==> AllPiecesFit(cl, sc, s, wanted))
        && (wanted != [] ==> Serving(cl, sc, s, wanted, |wanted|, p.bytes))
        && (AllSet(s.store.bits) ==> (AllSet(p.session.store.bits) <==> AllPiecesFit(cl, sc, s, wanted)))
  {
    WantedIsAskable(cl, session, sc, s);
    hide Matching, Ready, Server.Ready, Askable, PieceFits, InterestFits, BitfieldFits, Serving, OwnsAfter, OwnsWhatFits,
      ErrorsAre, AllPiecesFit, AllSet, HonestRemote, RequestTurn, Wanted, Missing;
    var wanted := WantedFrom(session, s);
    var p := RequestPieces(cl, session, wanted, HonestRemote(sc, s, cl, wanted), |wanted|);
    if Connects(cl, sc, s, wanted) {
      if wanted == [] {
        NothingAsked(cl, sc, s, session.store.bits, wanted);
      } else {
        RequestsMeetTheServer(cl, session, sc, s, wanted, |wanted|);
      }
      OwnsInTheEnd(cl, sc, s, session.store.bits, p.session.store.bits);
      NoErrorsIffAllFit(cl, sc, s, p.errors, wanted);
    }
  }

  /**
   * Downloading from an honest peer with the same pieces. The call returns exactly when the
   * bitfield, and interest if anything is wanted, fit the message limits; otherwise nothing
   * has changed. A returning call leaves the client with what it had and every piece of the
   * server that fits, with one error for each piece that does not, and the client counts as
   * downloaded what the server counts as uploaded. So the download is free of errors, and
   * from a seeder complete, if and only if every message fits.
   */
  lemma HonestDownload(cl: Client, session: Session, sc: Server.ServerConfig, s: Server.Shared)
    requires Ready(cl, session) && Matching(cl, sc, s) && Server.Ready(sc, s)
    ensures |session.store.bits| == |s.store.bits| && Askable(sc, s, WantedFrom(session, s)) && Askable(sc, s, [])
    ensures var wanted := WantedFrom(session, s);
      var (after, r) := Download(cl, session, HonestRemote(sc, s, cl, wanted));
      && (r.Ok? <==> Connects(cl, sc, s, wanted))
      && (r.Err? ==> after == session)
      && (r.Ok? ==>
            && OwnsWhatFits(cl, sc, s, session.store.bits, after.store.bits)
            && ErrorsAre(cl, sc, s, r.value.errors, wanted, |wanted|)
            && (wanted != [] ==> Serving(cl, sc, s, wanted, |wanted|, r.value.bytesDownloaded)))
      && (r.Ok? && r.value.errors == [] <==> AllFit(cl, sc, s, wanted))
      && (AllSet(s.store.bits) ==> (r.Ok? && r.value.complete <==> AllFit(cl, sc, s, wanted)))
  {
    HonestRequests(cl, session, sc, s);
    hide Matching, Ready, Server.Ready, Askable, PieceFits, Connects, Serving, OwnsWhatFits, ErrorsAre,
      AllPiecesFit, AllSet, HonestRemote, RequestPieces, Wanted, Missing, Download;
    HonestConnection(cl, session, sc, s);
  }

  /** A download that connects is its request loop, and one that does not raises and changes nothing. */
  lemma HonestConnection(cl: Client, session: Session, sc: Server.ServerConfig, s: Server.Shared)
    requires Ready(cl, session) && Matching(cl, sc, s) && Server.Ready(sc, s)
    requires |session.store.bits| == |s.store.bits| && Askable(sc, s, WantedFrom(session, s))
    ensures var wanted := WantedFrom(session, s);
      var p := RequestPieces(cl, session, wanted, HonestRemote(sc, s, cl, wanted), |wanted|);
      var (after, r) := Download(cl, session, HonestRemote(sc, s, cl, wanted));
      && (!Connects(cl, sc, s, wanted) ==> r.Err? && after == session)
      && (Connects(cl, sc, s, wanted) ==>
            && after == p.session && (p.crashed <==> r.Err?)
            && (r.Ok? ==>
                  && r.value.errors == p.errors && r.value.bytesDownloaded == p.bytes
                  && (r.value.complete <==> AllSet(p.session.store.bits))))
  {
    hide Matching, Ready, Server.Ready, Askable, PieceFits, InterestFits, BitfieldFits, Serving, AllSet, HonestRemote,
      RequestPieces, Wanted, Missing, Download, FetchBitfield, ExpressInterest;
    var wanted := WantedFrom(session, s);
    ServingStarts(cl, sc, s, wanted);
    DownloadIsItsRequests(cl, session, HonestRemote(sc, s, cl, wanted), s.store.bits);
  }

  // ---- Messages over the limit -------------------------------------------------

  /** `base64.b64encode`: four characters for every three bytes begun. */
  ghost predicate Base64Length(encode: Bytes -> string) {
    forall data: Bytes :: |encode(data)| == (|data| + 2) / 3 * 4
  }

  /** JSON text is at least as long as any text in it, and spends five characters on each boolean of a list. */
  ghost predicate CarriesContent(codec: F.Codec) {
    forall m: Message, name: string :: name in m && codec.encode(m).Some? ==>
      && (m[name].Text? ==> |codec.encode(m).value| >= |m[name].text|)
      && (m[name].List? && AllBooleans(m[name].items) ==> |codec.encode(m).value| >= 5 * |m[name].items|)
  }

  /** The largest piece whose Base64 text alone is not over the default limit. */
  const LARGEST_PIECE: nat := 6291456

  /** The largest bitfield whose booleans alone are not over the default limit. */
  const LARGEST_BITFIELD: nat := 1677721

  lemma LargePieceDoesNotFit(cl: Client, sc: Server.ServerConfig, s: Server.Shared, i: nat)
    requires sc.manager.Some? && WellFormed(sc.manager.value.torrent) && i < sc.manager.value.torrent.pieceCount
    requires Base64Length(sc.encode) && CarriesContent(sc.codec)
    requires PieceSize(sc.manager.value.torrent, i) > LARGEST_PIECE
    ensures !PieceFits(cl, sc, s, i)
  {
    PieceLength(sc.manager.value, s.store.disk, i);
    hide Hex, PieceSize, Piece, WellFormed, Server.ExpectedHash;
    var data := Piece(sc.manager.value, s.store.disk, i);
    var m := AnswerMessage(sc, PieceAnswer(cl, sc, s, i));
    assert "data" in m && m["data"] == Text(sc.encode(data));
    assert |sc.encode(data)| == (|data| + 2) / 3 * 4;
  }

  lemma LargeBitfieldDoesNotFit(cl: Client, sc: Server.ServerConfig, s: Server.Shared)
    requires CarriesContent(sc.codec) && |s.store.bits| > LARGEST_BITFIELD
    ensures !BitfieldFits(cl, sc, s)
  {
    hide Hex;
    var m := AnswerMessage(sc, Server.Bitfield(cl.infoHash, s.store.bits));
    assert "pieces" in m && m["pieces"] == List(BoolValues(s.store.bits));
  }

  /**
   * A missing piece of more than 6291456 bytes never crosses, whatever limit the server is
   * given: the download is not free of errors and the piece is still missing after it.
   */
  lemma LargePieceStaysMissing(cl: Client, session: Session, sc: Server.ServerConfig, s: Server.Shared, i: nat)
    requires Ready(cl, session) && Matching(cl, sc, s) && Server.Ready(sc, s)
    requires Base64Length(sc.encode) && CarriesContent(sc.codec)
    requires i < |s.store.bits| == |session.store.bits| && s.store.bits[i] && !session.store.bits[i]
    requires PieceSize(cl.config.torrent, i) > LARGEST_PIECE
    ensures var (after, r) := Download(cl, session, HonestRemote(sc, s, cl, WantedFrom(session, s)));
      !(r.Ok? && r.value.errors == []) && |after.store.bits| == |session.store.bits| && !after.store.bits[i]
  {
    CountsAgree(cl, sc, s);
    SameSize(cl, sc, s, i);
    LargePieceDoesNotFit(cl, sc, s, i);
    HonestDownload(cl, session, sc, s);
    hide Matching, Ready, Server.Ready, PieceFits, Connects, Serving, ErrorsAre, Base64Length, CarriesContent,
      HonestRemote, Wanted, Missing, Download, WellFormed, PieceSize;
    var wanted := WantedFrom(session, s);
    assert i in Missing(session.store.bits);
    assert i in wanted;
    var k :| 0 <= k < |wanted| && wanted[k] == i;
    assert !AllPiecesFit(cl, sc, s, wanted);
  }

  lemma SameSize(cl: Client, sc: Server.ServerConfig, s: Server.Shared, i: nat)
    requires Matching(cl, sc, s)
    ensures PieceSize(cl.config.torrent, i) == PieceSize(sc.manager.value.torrent, i)
  {
    hide Exact;
  }

  /** With more than 1677721 pieces the bitfield never crosses, and every download raises. */
  lemma LargeBitfieldRaises(cl: Client, session: Session, sc: Server.ServerConfig, s: Server.Shared)
    requires Ready(cl, session) && Matching(cl, sc, s) && Server.Ready(sc, s)
    requires CarriesContent(sc.codec) && |s.store.bits| == |session.store.bits| > LARGEST_BITFIELD
    ensures var (after, r) := Download(cl, session, HonestRemote(sc, s, cl, WantedFrom(session, s)));
      r.Err? && after == session
  {
    hide Matching, Ready, Server.Ready, BitfieldFits, HonestRemote, Wanted, Missing, Download, CarriesContent;
    LargeBitfieldDoesNotFit(cl, sc, s);
    HonestDownload(cl, session, sc, s);
    var wanted := WantedFrom(session, s);
    var (after, r) := Download(cl, session, HonestRemote(sc, s, cl, wanted));
    assert r.Ok? <==> Connects(cl, sc, s, wanted);
  }
}
