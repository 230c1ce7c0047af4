/**
 * One exchange between a downloader and a peer that runs the real server: each side frames
 * its message under its own size limit and reads the other's frame.
 */
module PeerWire {
  import opened Wrappers
  import opened ByteStrings
  import opened BencodeEncoder
  import opened PeerMessages
  import opened PieceClients
  import F = Framing
  import PyText
  import Server = PeerServers

  /** What the client hears: no usable frame raises one of the exceptions it expects. */
  function OutcomeOf(codec: F.Codec, frame: Option<Bytes>): Outcome {
    match frame
    case None => NoReply
    case Some(bytes) =>
      match F.Receive(codec, bytes, F.Closed, F.DEFAULT_MAX_MESSAGE_SIZE).0
      case Err(_) => NoReply
      case Ok(m) => Reply(m)
  }

  /** A message to a server whose answer is delivered: the server after it and what its sender hears. */
  function ExchangeAt(sc: Server.ServerConfig, s: Server.Shared, m: Message, now: real): (Server.Shared, Outcome)
    requires Server.Ready(sc, s)
  {
    match F.EncodeMessage(sc.codec, m, F.DEFAULT_MAX_MESSAGE_SIZE)
    case Err(_) => (s, NoReply)
    case Ok(frame) =>
      var received := F.Receive(sc.codec, frame, F.Closed, sc.limit).0;
      var (after, reply) := Server.Handle(sc, s, received, now, true);
      (after, OutcomeOf(sc.codec, reply))
  }

  /** `_exchange(peer, message)` of a download, in which the server's clock plays no part. */
  function Exchange(sc: Server.ServerConfig, s: Server.Shared, m: Message): (Server.Shared, Outcome)
    requires Server.Ready(sc, s)
  {
    ExchangeAt(sc, s, m, 0.0)
  }

  /** The message can be encoded within the limits of both sides. */
  predicate Fits(sc: Server.ServerConfig, m: Message) {
    var payload := sc.codec.encode(m);
    && payload.Some?
    && 0 < |payload.value| <= F.DEFAULT_MAX_MESSAGE_SIZE && |payload.value| <= sc.limit
  }

  /** The library fact about JSON, for the messages about torrents. */
  ghost predicate FaithfulCodec(codec: F.Codec) {
    forall m: Message :: IsPlain(m) ==> F.Faithful(codec, m)
  }

  /** A reply that no request accepts, from an exchange that still ends in the expected way. */
  predicate IsRefusal(outcome: Outcome) {
    outcome.NoReply? || (outcome.Reply? && HasText(outcome.message, "type", "ERROR"))
  }

  lemma PlainIsFaithful(codec: F.Codec, m: Message)
    requires FaithfulCodec(codec) && IsPlain(m)
    ensures F.Faithful(codec, m)
  {
  }

  // ---- One frame ---------------------------------------------------------------

  lemma KindIsType(m: Message, kind: string)
    requires HasText(m, "type", kind)
    requires kind != "" && !PyText.IsSpace(kind[0]) && !PyText.IsSpace(kind[|kind| - 1])
    ensures F.HasType(m)
  {
  }

  /** A message that fits crosses unchanged, whoever sends it; one that does not never arrives. */
  lemma FrameCrosses(sc: Server.ServerConfig, m: Message, limit: F.Limit, receiverLimit: F.Limit)
    requires F.HasType(m) && F.Faithful(sc.codec, m)
    requires (limit == sc.limit && receiverLimit == F.DEFAULT_MAX_MESSAGE_SIZE)
      || (limit == F.DEFAULT_MAX_MESSAGE_SIZE && receiverLimit == sc.limit)
    ensures var encoded := F.EncodeMessage(sc.codec, m, limit);
      && (Fits(sc, m) ==> encoded.Ok?)
      && (encoded.Ok? ==>
            var received := F.Receive(sc.codec, encoded.value, F.Closed, receiverLimit).0;
            if Fits(sc, m) then received == Ok(m) else received.Err?)
  {
    hide F.HasType, F.Header, F.Receive;
    var encoded := F.EncodeMessage(sc.codec, m, limit);
    if encoded.Ok? {
      F.FrameRoundTrip(sc.codec, m, limit, receiverLimit, F.Closed, []);
      assert encoded.value + [] == encoded.value;
    }
  }

  lemma ErrorIsPlain(sc: Server.ServerConfig, error: Server.ServerError)
    ensures var m := Server.ErrorMessage(sc, error); IsPlain(m) && F.HasType(m) && HasText(m, "type", "ERROR")
  {
    KindIsType(Server.ErrorMessage(sc, error), "ERROR");
  }

  lemma ErrorIsRefusal(sc: Server.ServerConfig, error: Server.ServerError)
    requires FaithfulCodec(sc.codec)
    ensures IsRefusal(OutcomeOf(sc.codec, Server.ErrorFrame(sc, error)))
  {
    hide F.HasType, F.Receive, F.EncodeMessage, Fits;
    var m := Server.ErrorMessage(sc, error);
    ErrorIsPlain(sc, error);
    FrameCrosses(sc, m, sc.limit, F.DEFAULT_MAX_MESSAGE_SIZE);
  }

  /** What the client hears of an answer: its message if it fits, and otherwise a refusal. */
  lemma AnswerIsHeard(sc: Server.ServerConfig, answer: Server.Answer, m: Message)
    requires FaithfulCodec(sc.codec) && Server.MessageOf(sc, answer) == Some(m)
    requires F.Faithful(sc.codec, m) && F.HasType(m)
    ensures var outcome := OutcomeOf(sc.codec, Server.FrameOf(sc, answer));
      if Fits(sc, m) then outcome == Reply(m) else IsRefusal(outcome)
    ensures Fits(sc, m) ==> Server.Sendable(sc, answer)
    ensures Server.Sendable(sc, answer) && sc.limit <= F.DEFAULT_MAX_MESSAGE_SIZE ==> Fits(sc, m)
  {
    hide F.HasType, F.Receive, F.Faithful, Server.MessageOf, Server.ErrorFrame;
    FrameCrosses(sc, m, sc.limit, F.DEFAULT_MAX_MESSAGE_SIZE);
    match F.EncodeMessage(sc.codec, m, sc.limit)
    case Ok(_) =>
    case Err(e) => ErrorIsRefusal(sc, if e == F.HeaderOverflow then Server.Internal else Server.Unsendable(e));
  }

  /** A request that fits is handled as it is; one that does not changes nothing and is refused. */
  lemma RequestIsHeard(sc: Server.ServerConfig, s: Server.Shared, m: Message, now: real)
    requires Server.Ready(sc, s) && FaithfulCodec(sc.codec) && F.Faithful(sc.codec, m) && F.HasType(m)
    ensures var (after, outcome) := ExchangeAt(sc, s, m, now);
      if Fits(sc, m) then
        var (handled, reply) := Server.Handle(sc, s, Ok(m), now, true);
        after == handled && outcome == OutcomeOf(sc.codec, reply)
      else after == s && IsRefusal(outcome)
  {
    hide F.HasType, F.Receive, F.EncodeMessage, F.Faithful, Server.Dispatch, Fits, OutcomeOf;
    FrameCrosses(sc, m, F.DEFAULT_MAX_MESSAGE_SIZE, sc.limit);
    match F.EncodeMessage(sc.codec, m, F.DEFAULT_MAX_MESSAGE_SIZE)
    case Err(_) =>
    case Ok(frame) =>
      match F.Receive(sc.codec, frame, F.Closed, sc.limit).0 {
        case Ok(_) =>
        case Err(e) => UnreadableIsRefused(sc, e);
      }
  }

  /**
   * What takes the place of an answer that is over the server's limit: an ERROR that says so,
   * if that one fits, except for an ERROR that was raised already, which is dropped.
   */
  lemma OversizedAnswer(sc: Server.ServerConfig, answer: Server.Answer, m: Message)
    requires FaithfulCodec(sc.codec) && Server.MessageOf(sc, answer) == Some(m) && F.HasType(m)
    requires sc.codec.encode(m).Some? && |sc.codec.encode(m).value| > sc.limit
    ensures var outcome, error := OutcomeOf(sc.codec, Server.FrameOf(sc, answer)), Server.Unsendable(F.TooLarge);
      if answer.Failure? && Server.IsRaised(answer.error) then outcome == NoReply
      else Fits(sc, Server.ErrorMessage(sc, error)) ==>
        outcome == Reply(map["type" := Text("ERROR"), "message" := Text(sc.wording(error))])
  {
    hide F.HasType, F.Receive, Fits, Server.MessageOf;
    var error := Server.ErrorMessage(sc, Server.Unsendable(F.TooLarge));
    ErrorIsPlain(sc, Server.Unsendable(F.TooLarge));
    FrameCrosses(sc, error, sc.limit, F.DEFAULT_MAX_MESSAGE_SIZE);
  }

  /** Whatever cannot be received is answered with an ERROR that says why, if that fits, and changes nothing. */
  lemma UnreadableRequest(
      sc: Server.ServerConfig, s: Server.Shared, e: F.FrameError, now: real, delivered: bool)
    requires Server.Ready(sc, s) && FaithfulCodec(sc.codec)
    ensures var (after, frame) := Server.Handle(sc, s, Err(e), now, delivered);
      && after == s
      && (Fits(sc, Server.ErrorMessage(sc, Server.Unreadable(e))) ==>
            OutcomeOf(sc.codec, frame)
              == Reply(map["type" := Text("ERROR"), "message" := Text(sc.wording(Server.Unreadable(e)))]))
  {
    hide F.HasType, F.Receive, Fits, F.EncodeMessage;
    var error := Server.ErrorMessage(sc, Server.Unreadable(e));
    ErrorIsPlain(sc, Server.Unreadable(e));
    FrameCrosses(sc, error, sc.limit, F.DEFAULT_MAX_MESSAGE_SIZE);
  }

  lemma UnreadableIsRefused(sc: Server.ServerConfig, e: F.FrameError)
    requires FaithfulCodec(sc.codec)
    ensures IsRefusal(OutcomeOf(sc.codec, Server.FrameOf(sc, Server.Failure(Server.Unreadable(e)))))
  {
    hide F.HasType, F.Receive, Fits;
    ErrorIsPlain(sc, Server.Unreadable(e));
    PlainIsFaithful(sc.codec, Server.ErrorMessage(sc, Server.Unreadable(e)));
    AnswerIsHeard(sc, Server.Failure(Server.Unreadable(e)), Server.ErrorMessage(sc, Server.Unreadable(e)));
  }

  /** A refusal is an exception of the kind a download expects. */
  lemma RefusalIsExpected(outcome: Outcome, kind: string)
    requires IsRefusal(outcome)
    ensures Expect(outcome, kind) in {Err(NoAnswer), Err(PeerError)}
  {
  }
}
