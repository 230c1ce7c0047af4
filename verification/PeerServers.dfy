/**
 * peer/peer_server.py: what a peer answers to one message, and the upload accounting around
 * sending the answer.
 */
module PeerServers {
  import opened Wrappers
  import opened ByteStrings
  import opened BencodeEncoder
  import opened HexText
  import opened Torrents
  import opened PieceStore
  import opened PeerMessages
  import opened PieceManagers
  import F = Framing

  datatype ServerError =
    | BadPeerId | BadInfoHash | NoTorrent | OtherTorrent | NotInterested | IndexNotInteger
    | BadNonce | BadSentAt | Unsupported | Unavailable | Internal
    | Unreadable(received: F.FrameError) | Unsendable(sent: F.FrameError)

  /** What a server is built with; `encode` is Base64, `wording` the text of an error. */
  datatype ServerConfig = ServerConfig(
    peerId: Digest, manager: Option<Config>, encode: Bytes -> string, wording: ServerError -> string,
    codec: F.Codec, limit: F.Limit)

  /** What its threads share. */
  datatype Shared = Shared(store: Store, interested: set<(Bytes, Bytes)>, uploaded: nat)

  predicate Ready(c: ServerConfig, s: Shared) { c.manager.Some? ==> Shaped(c.manager.value, s.store) }

  /** What a connection is answered with; `Silence` closes it without a reply. */
  datatype Answer =
    | Pong(nonce: string, pingSentAt: real, pongSentAt: real)
    | Bitfield(infoHash: Bytes, pieces: seq<bool>)
    | Unchoke(infoHash: Bytes, requester: Bytes)
    | Piece(infoHash: Bytes, requester: Bytes, index: int, data: Bytes)
    | Failure(error: ServerError)
    | Silence

  /** The bytes to account for once the answer has been sent. */
  function AccountedBytes(answer: Answer): nat { if answer.Piece? then |answer.data| else 0 }

  function MessageOf(c: ServerConfig, answer: Answer): Option<Message> {
    match answer
    case Pong(nonce, pingSentAt, pongSentAt) =>
      Some(map["type" := Text("PONG"), "peer_id" := Text(Hex(c.peerId)), "nonce" := Text(nonce),
               "ping_sent_at" := Float(pingSentAt), "pong_sent_at" := Float(pongSentAt)])
    case Bitfield(infoHash, pieces) =>
      Some(map["type" := Text("BITFIELD"), "peer_id" := Text(Hex(c.peerId)),
               "info_hash" := Text(Hex(infoHash)), "pieces" := List(BoolValues(pieces))])
    case Unchoke(infoHash, _) =>
      Some(map["type" := Text("UNCHOKE"), "peer_id" := Text(Hex(c.peerId)), "info_hash" := Text(Hex(infoHash))])
    case Piece(infoHash, _, index, data) =>
      Some(map["type" := Text("PIECE"), "peer_id" := Text(Hex(c.peerId)), "info_hash" := Text(Hex(infoHash)),
               "piece_index" := Int(index), "sha1" := Text(ExpectedHash(c, index)), "data" := Text(c.encode(data))])
    case Failure(error) => Some(ErrorMessage(c, error))
    case Silence => None
  }

  function ErrorMessage(c: ServerConfig, error: ServerError): Message {
    map["type" := Text("ERROR"), "message" := Text(c.wording(error))]
  }

  /** Raised as an exception; the other two errors are returned by their handlers. */
  predicate IsRaised(error: ServerError) { !error.Unsupported? && !error.Unavailable? }

  /** `send_message` inside an exception handler: a failure is swallowed. */
  function ErrorFrame(c: ServerConfig, error: ServerError): Option<Bytes> {
    match F.EncodeMessage(c.codec, ErrorMessage(c, error), c.limit)
    case Ok(frame) => Some(frame)
    case Err(_) => None
  }

  /** The answer's own message passes the checks of `encode_message`. */
  predicate Sendable(c: ServerConfig, answer: Answer) {
    MessageOf(c, answer).Some? && F.EncodeMessage(c.codec, MessageOf(c, answer).value, c.limit).Ok?
  }

  /**
   * The frame a connection is given for an answer, if any. An answer that cannot be encoded,
   * for instance because it is over the limit, raises, and is replaced by an ERROR.
   */
  function FrameOf(c: ServerConfig, answer: Answer): Option<Bytes> {
    match MessageOf(c, answer)
    case None => None
    case Some(m) =>
      match F.EncodeMessage(c.codec, m, c.limit)
      case Ok(frame) => Some(frame)
      case Err(e) =>
        if answer.Failure? && IsRaised(answer.error) then None
        else ErrorFrame(c, if e == F.HeaderOverflow then Internal else Unsendable(e))
  }

  function ExpectedHash(c: ServerConfig, index: int): string {
    if c.manager.Some? && 0 <= index < |c.manager.value.torrent.pieceHashes|
    then c.manager.value.torrent.pieceHashes[index] else ""
  }

  // ---- Dispatch ----------------------------------------------------------------

  /** `_decode_fixed_hex` for 20 bytes. */
  function HexField(m: Message, name: string): Option<Bytes> {
    if name !in m || !m[name].Text? || |m[name].text| != 40 then None
    else match FromHex(m[name].text)
      case None => None
      case Some(data) => if |data| == 20 then Some(data) else None
  }

  datatype TorrentRequest = TorrentRequest(requester: Bytes, infoHash: Bytes)

  /** `_validate_torrent_request`. */
  function ValidateRequest(c: ServerConfig, m: Message): (r: Result<TorrentRequest, ServerError>)
    ensures r.Ok? ==> c.manager.Some? && r.value.infoHash == c.manager.value.torrent.infoHash
  {
    match HexField(m, "peer_id")
    case None => Err(BadPeerId)
    case Some(requester) =>
      match HexField(m, "info_hash")
      case None => Err(BadInfoHash)
      case Some(infoHash) =>
        if c.manager.None? then Err(NoTorrent)
        else if c.manager.value.torrent.infoHash != infoHash then Err(OtherTorrent)
        else Ok(TorrentRequest(requester, infoHash))
  }

  function HandlePing(m: Message, now: real): Answer {
    if HexField(m, "peer_id").None? then Failure(BadPeerId)
    else if "nonce" !in m || !m["nonce"].Text? || m["nonce"].text == "" then Failure(BadNonce)
    else if "sent_at" !in m then Failure(BadSentAt)
    else match m["sent_at"]
      case Int(n) => Pong(m["nonce"].text, n as real, now)
      case Float(x) => Pong(m["nonce"].text, x, now)
      case _ => Failure(BadSentAt)
  }

  /** A ping is answered exactly when its sender, nonce and time are in order, and the pong echoes them. */
  lemma PongEchoesPing(m: Message, now: real)
    ensures var answer := HandlePing(m, now);
      answer.Pong? <==>
        && HexField(m, "peer_id").Some?
        && "nonce" in m && m["nonce"].Text? && m["nonce"].text != ""
        && "sent_at" in m && (m["sent_at"].Int? || m["sent_at"].Float?)
    ensures var answer := HandlePing(m, now);
      answer.Pong? ==>
        && HasText(m, "nonce", answer.nonce) && answer.pongSentAt == now
        && m["sent_at"] == (if m["sent_at"].Int? then Int(answer.pingSentAt.Floor) else Float(answer.pingSentAt))
  {
    hide HexField;
  }

  /** A message dealt with, or a piece request that has passed its checks. */
  datatype Begun = Answered(answer: Answer) | WantsPiece(infoHash: Bytes, requester: Bytes, index: int)

  /** `_dispatch`, up to the call to `read_piece`. */
  function Begin(c: ServerConfig, s: Shared, m: Message, now: real): (Shared, Begun) {
    if "type" !in m then (s, Answered(Failure(Internal)))
    else if m["type"] == Text("PING") then (s, Answered(HandlePing(m, now)))
    else if m["type"] == Text("BITFIELD_REQUEST") then
      match ValidateRequest(c, m)
      case Err(e) => (s, Answered(Failure(e)))
      case Ok(request) => (s, Answered(Bitfield(request.infoHash, s.store.bits)))
    else if m["type"] == Text("INTERESTED") then
      match ValidateRequest(c, m)
      case Err(e) => (s, Answered(Failure(e)))
      case Ok(request) =>
        (s.(interested := s.interested + {(request.infoHash, request.requester)}),
         Answered(Unchoke(request.infoHash, request.requester)))
    else if m["type"] == Text("REQUEST") then
      match ValidateRequest(c, m)
      case Err(e) => (s, Answered(Failure(e)))
      case Ok(request) =>
        if (request.infoHash, request.requester) !in s.interested then (s, Answered(Failure(NotInterested)))
        else if "piece_index" !in m || !m["piece_index"].Int? then (s, Answered(Failure(IndexNotInteger)))
        else (s, WantsPiece(request.infoHash, request.requester, m["piece_index"].n))
    else (s, Answered(Failure(Unsupported)))
  }

  /**
   * The rest of `_handle_piece_request`. A hash mismatch is not among the exceptions it
   * expects, and a missing file is an OSError, which closes the connection silently.
   */
  function Fetch(config: Config, s: Shared, infoHash: Bytes, requester: Bytes, index: int): (Shared, Answer)
    requires Shaped(config, s.store)
  {
    var (after, r) := ReadPiece(config, s.store, index);
    (s.(store := after),
     match r
     case Ok(data) => Piece(infoHash, requester, index, data)
     case Err(BadIndex) => Failure(Unavailable)
     case Err(PieceUnavailable) => Failure(Unavailable)
     case Err(FileMissing) => Silence
     case Err(_) => Failure(Internal))
  }

  /** `_dispatch`. */
  function Dispatch(c: ServerConfig, s: Shared, m: Message, now: real): (Shared, Answer)
    requires Ready(c, s)
  {
    match Begin(c, s, m, now)
    case (after, Answered(answer)) => (after, answer)
    case (after, WantsPiece(infoHash, requester, index)) =>
      BeginKeepsReady(c, s, m, now);
      Fetch(c.manager.value, after, infoHash, requester, index)
  }

  lemma BeginKeepsReady(c: ServerConfig, s: Shared, m: Message, now: real)
    ensures var (after, begun) := Begin(c, s, m, now);
      && after.store == s.store && after.uploaded == s.uploaded
      && (begun.WantsPiece? ==> c.manager.Some? && begun.infoHash == c.manager.value.torrent.infoHash
                                && (begun.infoHash, begun.requester) in after.interested)
  {
    hide HexField, ValidateRequest, HandlePing;
  }

  /**
   * `_handle_connection`, from the outcome of `receive_message` to the frame it sends;
   * `delivered` tells whether the socket takes that frame.
   */
  function Handle(
    c: ServerConfig, s: Shared, received: Result<Message, F.FrameError>, now: real, delivered: bool)
    : (Shared, Option<Bytes>)
    requires Ready(c, s)
  {
    match received
    case Err(e) => (s, FrameOf(c, Failure(Unreadable(e))))
    case Ok(m) =>
      var (after, answer) := Dispatch(c, s, m, now);
      (if delivered && Sendable(c, answer)
       then after.(uploaded := after.uploaded + AccountedBytes(answer)) else after,
       FrameOf(c, answer))
  }

  // ---- The class ---------------------------------------------------------------

  class PeerServer {
    const config: ServerConfig
    const manager: PieceManager?
    var interested: set<(Bytes, Bytes)>
    var uploaded: nat

    function Footprint(): set<object>
      reads this
    {
      if manager == null then {this} else {this, manager}
    }

    ghost predicate Valid()
      reads Footprint()
    {
      && (manager == null <==> config.manager.None?)
      && (manager != null ==> manager.Valid() && Some(manager.config) == config.manager)
    }

    function State(): Shared
      reads Footprint()
    {
      Shared(if manager == null then Store(map[], []) else manager.State(), interested, uploaded)
    }

    constructor (config: ServerConfig, manager: PieceManager?)
      requires manager == null <==> config.manager.None?
      requires manager != null ==> manager.Valid() && Some(manager.config) == config.manager
      ensures Valid() && this.config == config && this.manager == manager
      ensures interested == {} && uploaded == 0
    {
      this.config := config;
      this.manager := manager;
      this.interested := {};
      this.uploaded := 0;
    }

    method HandleConnection(received: Result<Message, F.FrameError>, now: real, delivered: bool)
      returns (frame: Option<Bytes>)
      requires Valid()
      modifies Footprint()
      ensures Valid() && (State(), frame) == Handle(config, old(State()), received, now, delivered)
    {
      hide Dispatch, MessageOf, F.EncodeMessage;
      if received.Err? {
        frame := SendAnswer(Failure(Unreadable(received.error)));
        return;
      }
      var answer := DispatchMessage(received.value, now);
      frame := SendAnswer(answer);
      if delivered && Sendable(config, answer) { uploaded := uploaded + AccountedBytes(answer); }
    }

    /** `send_message(client_socket, response)` with the exception handlers around it. */
    method SendAnswer(answer: Answer) returns (frame: Option<Bytes>)
      ensures frame == FrameOf(config, answer)
    {
      var message := MessageOf(config, answer);
      if message.None? { return None; }
      var encoded := F.EncodeMessage(config.codec, message.value, config.limit);
      match encoded {
        case Ok(bytes) => frame := Some(bytes);
        case Err(e) =>
          if answer.Failure? && IsRaised(answer.error) { return None; }
          frame := ErrorFrame(config, if e == F.HeaderOverflow then Internal else Unsendable(e));
      }
    }

    method DispatchMessage(message: Message, now: real) returns (answer: Answer)
      requires Valid()
      modifies Footprint()
      ensures Valid() && (State(), answer) == Dispatch(config, old(State()), message, now)
    {
      hide ReadPiece, HandlePing, ValidateRequest, Fetch, WellFormed;
      if "type" !in message { return Failure(Internal); }
      if message["type"] == Text("PING") { return HandlePing(message, now); }
      if message["type"] == Text("BITFIELD_REQUEST") {
        var request := ValidateRequest(config, message);
        if request.Err? { return Failure(request.error); }
        return Bitfield(request.value.infoHash, manager.bitfield);
      }
      if message["type"] == Text("INTERESTED") {
        var request := ValidateRequest(config, message);
        if request.Err? { return Failure(request.error); }
        interested := interested + {(request.value.infoHash, request.value.requester)};
        return Unchoke(request.value.infoHash, request.value.requester);
      }
      if message["type"] == Text("REQUEST") {
        answer := HandlePieceRequest(message);
        return;
      }
      answer := Failure(Unsupported);
    }

    method HandlePieceRequest(message: Message) returns (answer: Answer)
      requires Valid() && "type" in message && message["type"] == Text("REQUEST")
      modifies Footprint()
      ensures Valid()
      ensures forall now :: (State(), answer) == Dispatch(config, old(State()), message, now)
    {
      hide ReadPiece, HandlePing, ValidateRequest, WellFormed;
      var request := ValidateRequest(config, message);
      if request.Err? { return Failure(request.error); }
      var infoHash, requester := request.value.infoHash, request.value.requester;
      if (infoHash, requester) !in interested { return Failure(NotInterested); }
      if "piece_index" !in message || !message["piece_index"].Int? { return Failure(IndexNotInteger); }
      var index := message["piece_index"].n;
      var data := manager.ReadPieceAt(index);
      match data {
        case Ok(bytes) => answer := Piece(infoHash, requester, index, bytes);
        case Err(BadIndex) => answer := Failure(Unavailable);
        case Err(PieceUnavailable) => answer := Failure(Unavailable);
        case Err(FileMissing) => answer := Silence;
        case Err(_) => answer := Failure(Internal);
      }
    }
  }
}
