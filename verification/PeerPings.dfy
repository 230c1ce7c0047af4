/**
 * peer/ping_client.py against the server side of a ping in peer/peer_server.py: which replies
 * a PING is satisfied with, and what the real server answers it.
 */
module PeerPings {
  import opened Wrappers
  import opened ByteStrings
  import opened BencodeEncoder
  import opened HexText
  import opened PeerMessages
  import opened PieceClients
  import opened PeerWire
  import F = Framing
  import Server = PeerServers

  // ---- The client --------------------------------------------------------------

  function PingMessage(peerId: Digest, nonce: string, sentAt: real): Message {
    map["type" := Text("PING"), "peer_id" := Text(Hex(peerId)), "nonce" := Text(nonce), "sent_at" := Float(sentAt)]
  }

  datatype PingError = NoPong | Crashed | ErrorReply | NotPong | OtherNonce | BadResponder | OtherResponder

  /** `ping_peer`, once it has heard from the peer that the tracker says is `expected`: its error, if any. */
  function PingFailure(expected: Bytes, nonce: string, outcome: Outcome): Option<PingError> {
    match outcome
    case NoReply => Some(NoPong)
    case Crash => Some(PingError.Crashed)
    case Reply(m) =>
      if HasText(m, "type", "ERROR") then Some(ErrorReply)
      else if !HasText(m, "type", "PONG") then Some(NotPong)
      else if !HasText(m, "nonce", nonce) then Some(OtherNonce)
      else match Server.HexField(m, "peer_id")
        case None => Some(BadResponder)
        case Some(responder) => if responder != expected then Some(OtherResponder) else None
  }

  // ---- The answer of the real server -------------------------------------------

  /** A PING that the server has nothing to object to. */
  predicate GoodPing(m: Message) {
    && HasText(m, "type", "PING") && Server.HexField(m, "peer_id").Some?
    && "nonce" in m && m["nonce"].Text? && m["nonce"].text != ""
    && "sent_at" in m && (m["sent_at"].Int? || m["sent_at"].Float?)
  }

  function SentAt(m: Message): real
    requires GoodPing(m)
  {
    if m["sent_at"].Int? then m["sent_at"].n as real else m["sent_at"].x
  }

  /** The PONG that a PING asks for: its nonce and time, the server's id and the server's clock. */
  function PongFor(peerId: Digest, m: Message, now: real): Message
    requires GoodPing(m)
  {
    map["type" := Text("PONG"), "peer_id" := Text(Hex(peerId)), "nonce" := m["nonce"],
        "ping_sent_at" := Float(SentAt(m)), "pong_sent_at" := Float(now)]
  }

  lemma PongIsAnswer(sc: Server.ServerConfig, s: Server.Shared, m: Message, now: real)
    requires Server.Ready(sc, s) && GoodPing(m)
    ensures var (after, answer) := Server.Dispatch(sc, s, m, now);
      after == s && answer.Pong? && Server.MessageOf(sc, answer) == Some(PongFor(sc.peerId, m, now))
  {
    hide Server.HexField, Server.ValidateRequest, Hex;
  }

  lemma PongHasType(peerId: Digest, m: Message, now: real)
    requires GoodPing(m)
    ensures F.HasType(PongFor(peerId, m, now))
  {
    hide Server.HexField, Hex;
    KindIsType(PongFor(peerId, m, now), "PONG");
  }

  /**
   * Every good PING that crosses is answered, without changing anything, with the PONG that
   * echoes its nonce and time and names the server and its clock, if that PONG fits; nobody
   * takes what is heard otherwise for a PONG.
   */
  lemma PingIsAnswered(sc: Server.ServerConfig, s: Server.Shared, m: Message, now: real)
    requires Server.Ready(sc, s) && GoodPing(m) && FaithfulCodec(sc.codec)
    requires F.Faithful(sc.codec, m) && F.Faithful(sc.codec, PongFor(sc.peerId, m, now))
    ensures var (after, outcome) := ExchangeAt(sc, s, m, now);
      && after == s
      && if Fits(sc, m) && Fits(sc, PongFor(sc.peerId, m, now))
         then outcome == Reply(PongFor(sc.peerId, m, now)) else IsRefusal(outcome)
  {
    hide F.HasType, F.Faithful, FaithfulCodec, Fits, OutcomeOf, ExchangeAt, IsRefusal, Server.Dispatch, Server.FrameOf,
      Server.MessageOf, Server.Sendable, PongFor, GoodPing, Server.Ready;
    PongIsAnswer(sc, s, m, now);
    PongHasType(sc.peerId, m, now);
    PingHasType(m);
    RequestIsHeard(sc, s, m, now);
    AnswerIsHeard(sc, Server.Dispatch(sc, s, m, now).1, PongFor(sc.peerId, m, now));
  }

  lemma PingHasType(m: Message)
    requires GoodPing(m)
    ensures F.HasType(m)
  {
    hide Server.HexField;
    KindIsType(m, "PING");
  }

  // ---- Both sides --------------------------------------------------------------

  lemma PingIsGood(peerId: Digest, nonce: string, sentAt: real)
    requires nonce != ""
    ensures GoodPing(PingMessage(peerId, nonce, sentAt)) && SentAt(PingMessage(peerId, nonce, sentAt)) == sentAt
  {
    hide Hex, FromHex;
    FromHexOfHex(peerId);
  }

  /**
   * A ping succeeds exactly when the peer that answers is the one the tracker named and both
   * messages fit the limits.
   */
  lemma PingExchange(
      sc: Server.ServerConfig, s: Server.Shared, peerId: Digest, nonce: string, sentAt: real, now: real, expected: Bytes)
    requires Server.Ready(sc, s) && FaithfulCodec(sc.codec) && nonce != ""
    requires F.Faithful(sc.codec, PingMessage(peerId, nonce, sentAt))
    ensures GoodPing(PingMessage(peerId, nonce, sentAt))
    ensures var ping := PingMessage(peerId, nonce, sentAt);
      var pong := PongFor(sc.peerId, ping, now);
      F.Faithful(sc.codec, pong) ==>
        && ExchangeAt(sc, s, ping, now).0 == s
        && (PingFailure(expected, nonce, ExchangeAt(sc, s, ping, now).1) == None <==>
              expected == sc.peerId && Fits(sc, ping) && Fits(sc, pong))
  {
    hide F.Faithful, FaithfulCodec, Fits, ExchangeAt, Server.Ready, GoodPing, PingFailure, PongFor, IsRefusal;
    var ping := PingMessage(peerId, nonce, sentAt);
    PingIsGood(peerId, nonce, sentAt);
    if F.Faithful(sc.codec, PongFor(sc.peerId, ping, now)) {
      PingIsAnswered(sc, s, ping, now);
      PongIsTaken(sc.peerId, peerId, nonce, sentAt, now, expected);
      RefusalIsNoPong(expected, nonce, ExchangeAt(sc, s, ping, now).1);
    }
  }

  lemma PongIsTaken(server: Digest, peerId: Digest, nonce: string, sentAt: real, now: real, expected: Bytes)
    requires GoodPing(PingMessage(peerId, nonce, sentAt))
    ensures PingFailure(expected, nonce, Reply(PongFor(server, PingMessage(peerId, nonce, sentAt), now))) == None
      <==> expected == server
  {
    hide Hex, FromHex;
    FromHexOfHex(server);
  }

  lemma RefusalIsNoPong(expected: Bytes, nonce: string, outcome: Outcome)
    ensures IsRefusal(outcome) ==> PingFailure(expected, nonce, outcome).Some?
  {
    hide Server.HexField;
  }
}
