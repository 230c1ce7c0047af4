/**
 * peer/piece_client.py: downloading the missing pieces from one remote peer, whose replies
 * are arbitrary.
 */
module PieceClients {
  import opened Wrappers
  import opened ByteStrings
  import opened HexText
  import opened Torrents
  import opened PieceStore
  import opened PeerMessages
  import opened PieceManagers

  /** `base64.b64decode(text, validate=True)`. */
  type Base64Decoder = string -> Option<Bytes>

  datatype Client = Client(config: Config, peerId: Digest, infoHash: Digest, decode: Base64Decoder)

  /**
   * How one exchange ends: with a decoded message; with one of the exceptions
   * `download_from_peer` expects; or with any other exception.
   */
  datatype Outcome = Reply(message: Message) | NoReply | Crash

  /** The outcomes a remote peer produces, in the order of the exchanges with it. */
  type Remote = nat -> Outcome

  datatype ClientError =
    | NoAnswer | Crashed | PeerError | UnexpectedType | WrongInfoHash
    | PiecesNotList | WrongPieceCount | PiecesNotBooleans
    | WrongIndex | DataNotText | DataNotBase64 | PieceRejected

  /** What a download changes: the piece store and the session's byte counter. */
  datatype Session = Session(store: Store, downloaded: int)

  predicate Ready(cl: Client, s: Session) { Shaped(cl.config, s.store) }

  // ---- The three exchanges -----------------------------------------------------

  /** The checks on a reply that every exchange starts with. */
  function Expect(outcome: Outcome, kind: string): Result<Message, ClientError> {
    match outcome
    case NoReply => Err(NoAnswer)
    case Crash => Err(Crashed)
    case Reply(m) =>
      if HasText(m, "type", "ERROR") then Err(PeerError)
      else if !HasText(m, "type", kind) then Err(UnexpectedType)
      else Ok(m)
  }

  /** `fetch_bitfield(peer)`. */
  function FetchBitfield(cl: Client, outcome: Outcome): (r: Result<seq<bool>, ClientError>)
    ensures r.Ok? ==> |r.value| == cl.config.torrent.pieceCount
  {
    match Expect(outcome, "BITFIELD")
    case Err(e) => Err(e)
    case Ok(m) =>
      if !HasText(m, "info_hash", Hex(cl.infoHash)) then Err(WrongInfoHash)
      else if !HasList(m, "pieces") then Err(PiecesNotList)
      else if |m["pieces"].items| != cl.config.torrent.pieceCount then Err(WrongPieceCount)
      else if !AllBooleans(m["pieces"].items) then Err(PiecesNotBooleans)
      else Ok(Booleans(m["pieces"].items))
  }

  /** `express_interest(peer)`: its exception, if any. */
  function ExpressInterest(outcome: Outcome): Option<ClientError> {
    match Expect(outcome, "UNCHOKE")
    case Err(e) => Some(e)
    case Ok(_) => None
  }

  /** The piece data in a reply to a request for piece i. */
  function PieceData(cl: Client, i: nat, outcome: Outcome): Result<Bytes, ClientError> {
    match Expect(outcome, "PIECE")
    case Err(e) => Err(e)
    case Ok(m) =>
      if !HasText(m, "info_hash", Hex(cl.infoHash)) then Err(WrongInfoHash)
      else if "piece_index" !in m || !PyEqualsInt(m["piece_index"], i) then Err(WrongIndex)
      else if "data" !in m || !m["data"].Text? then Err(DataNotText)
      else match cl.decode(m["data"].text)
        case None => Err(DataNotBase64)
        case Some(data) => Ok(data)
  }

  /** `request_piece(peer, index)`. */
  function RequestPiece(cl: Client, s: Session, i: nat, outcome: Outcome): (Session, Result<Bytes, ClientError>)
    requires Ready(cl, s)
  {
    match PieceData(cl, i, outcome)
    case Err(e) => (s, Err(e))
    case Ok(data) =>
      var (after, error) := WritePiece(cl.config, s.store, i, data);
      match error
      case Some(PieceHashMismatch) => (s.(store := after), Err(PieceRejected))
      case Some(_) => (s.(store := after), Err(Crashed))
      case None => (Session(after, s.downloaded + |data|), Ok(data))
  }

  // ---- A whole download --------------------------------------------------------

  /** The missing pieces the remote claims to have. */
  function Wanted(missing: seq<nat>, bits: seq<bool>): (wanted: seq<nat>)
    requires forall k :: 0 <= k < |missing| ==> missing[k] < |bits|
    ensures forall i :: i in wanted <==> i in missing && bits[i]
    ensures |wanted| <= |missing|
  {
    if missing == [] then [] else
      var last := missing[|missing| - 1];
      Wanted(missing[..|missing| - 1], bits) + if bits[last] then [last] else []
  }

  datatype Progress = Progress(
    session: Session, downloaded: nat, bytes: nat, errors: seq<(nat, ClientError)>, crashed: bool)

  /** The request loop after its first n turns; an unexpected exception ends it. */
  function RequestPieces(cl: Client, s: Session, wanted: seq<nat>, remote: Remote, n: nat): (p: Progress)
    requires Ready(cl, s) && n <= |wanted|
    ensures Ready(cl, p.session)
  {
    if n == 0 then Progress(s, 0, 0, [], false)
    else
      var p := RequestPieces(cl, s, wanted, remote, n - 1);
      if p.crashed then p else RequestTurn(cl, p, wanted[n - 1], remote(n + 1))
  }

  function RequestTurn(cl: Client, p: Progress, i: nat, outcome: Outcome): (after: Progress)
    requires Ready(cl, p.session)
    ensures Ready(cl, after.session)
  {
    var (session, r) := RequestPiece(cl, p.session, i, outcome);
    match r
    case Ok(data) => p.(session := session, downloaded := p.downloaded + 1, bytes := p.bytes + |data|)
    case Err(Crashed) => p.(session := session, crashed := true)
    case Err(e) => p.(session := session, errors := p.errors + [(i, e)])
  }

  datatype DownloadResult = DownloadResult(
    requested: nat, downloaded: nat, skipped: nat, bytesDownloaded: nat, complete: bool,
    errors: seq<(nat, ClientError)>)

  /** `download_from_peer(peer)`: the session it leaves, and its result or exception. */
  function Download(cl: Client, s: Session, remote: Remote): (Session, Result<DownloadResult, ClientError>)
    requires Ready(cl, s)
  {
    match FetchBitfield(cl, remote(0))
    case Err(e) => (s, Err(e))
    case Ok(bits) =>
      var missing := Missing(s.store.bits);
      var wanted := Wanted(missing, bits);
      if wanted != [] && ExpressInterest(remote(1)).Some? then (s, Err(ExpressInterest(remote(1)).value))
      else
        var p := RequestPieces(cl, s, wanted, remote, |wanted|);
        (p.session,
         if p.crashed then Err(Crashed)
         else Ok(DownloadResult(|wanted|, p.downloaded, |missing| - |wanted|, p.bytes,
                                AllSet(p.session.store.bits), p.errors)))
  }

  // ---- The class ---------------------------------------------------------------

  class PieceClient {
    const client: Client
    const manager: PieceManager
    var downloaded: int

    ghost predicate Valid()
      reads this, manager
    {
      manager.Valid() && manager.config == client.config
    }

    function State(): Session
      reads this, manager
    {
      Session(manager.State(), downloaded)
    }

    constructor (client: Client, manager: PieceManager)
      requires manager.Valid() && manager.config == client.config
      ensures Valid() && this.client == client && this.manager == manager && downloaded == 0
    {
      this.client := client;
      this.manager := manager;
      this.downloaded := 0;
    }

    method RequestOne(i: nat, outcome: Outcome) returns (r: Result<Bytes, ClientError>)
      requires Valid()
      modifies this, manager
      ensures Valid() && (State(), r) == RequestPiece(client, old(State()), i, outcome)
    {
      hide WritePiece;
      var data := PieceData(client, i, outcome);
      if data.Err? { return data; }
      var error := manager.WritePieceAt(i, data.value);
      match error {
        case Some(PieceHashMismatch) => return Err(PieceRejected);
        case Some(_) => return Err(Crashed);
        case None =>
      }
      downloaded := downloaded + |data.value|;
      r := data;
    }

    method DownloadFromPeer(remote: Remote) returns (r: Result<DownloadResult, ClientError>)
      requires Valid()
      modifies this, manager
      ensures Valid() && (State(), r) == Download(client, old(State()), remote)
    {
      hide RequestPiece, RequestPieces, WellFormed, FetchBitfield, ExpressInterest, Wanted, Missing, AllSet;
      NothingRequested(client, State(), remote);
      var bitfield := FetchBitfield(client, remote(0));
      if bitfield.Err? { return Err(bitfield.error); }
      var missing := manager.MissingPieceIndices();
      var wanted := Wanted(missing, bitfield.value);
      if wanted != [] {
        var refusal := ExpressInterest(remote(1));
        if refusal.Some? { return Err(refusal.value); }
      }
      var pieces: nat, bytes: nat := 0, 0;
      var errors: seq<(nat, ClientError)> := [];
      for n := 0 to |wanted|
        invariant Valid()
        invariant RequestPieces(client, old(State()), wanted, remote, n) == Progress(State(), pieces, bytes, errors, false)
      {
        RequestsGoOn(client, old(State()), wanted, remote, n);
        var data := RequestOne(wanted[n], remote(n + 2));
        match data {
          case Ok(piece) => pieces, bytes := pieces + 1, bytes + |piece|;
          case Err(Crashed) =>
            CrashEndsRequests(client, old(State()), wanted, remote, n + 1, |wanted|);
            return Err(Crashed);
          case Err(e) => errors := errors + [(wanted[n], e)];
        }
      }
      r := Ok(DownloadResult(|wanted|, pieces, |missing| - |wanted|, bytes, AllSet(manager.bitfield), errors));
    }
  }

  lemma NothingRequested(cl: Client, s: Session, remote: Remote)
    requires Ready(cl, s)
    ensures forall wanted :: RequestPieces(cl, s, wanted, remote, 0) == Progress(s, 0, 0, [], false)
  {
  }

  lemma RequestsGoOn(cl: Client, s: Session, wanted: seq<nat>, remote: Remote, n: nat)
    requires Ready(cl, s) && n < |wanted| && !RequestPieces(cl, s, wanted, remote, n).crashed
    ensures RequestPieces(cl, s, wanted, remote, n + 1)
      == RequestTurn(cl, RequestPieces(cl, s, wanted, remote, n), wanted[n], remote(n + 2))
  {
    hide RequestTurn;
  }

  lemma {:induction false} CrashEndsRequests(cl: Client, s: Session, wanted: seq<nat>, remote: Remote, n: nat, m: nat)
    requires Ready(cl, s) && n <= m <= |wanted| && RequestPieces(cl, s, wanted, remote, n).crashed
    ensures RequestPieces(cl, s, wanted, remote, m) == RequestPieces(cl, s, wanted, remote, n)
  {
    hide RequestTurn;
    if n < m { CrashEndsRequests(cl, s, wanted, remote, n, m - 1); }
  }
}
