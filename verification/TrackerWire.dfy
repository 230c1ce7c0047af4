/**
 * One announce over HTTP: the client prints a URL, the tracker reads its query, changes its
 * state and prints a Bencoded reply, and the client reads that reply. The transport is left
 * out: what is sent arrives.
 */
module TrackerWire {
  import opened Wrappers
  import opened ByteStrings
  import opened BencodeEncoder
  import opened AnnounceQuery
  import opened TrackerReply
  import T = TrackerSpec
  import S = TrackerStates

  // ---- The request handler -----------------------------------------------------

  datatype Refusal = BadRequest(request: RequestError) | BadState(state: T.StateError)

  /** The text of an exception. */
  type Wording = Refusal -> string

  /** What the handler is built with. */
  datatype Server = Server(interval: int, ipv4: T.Ipv4, wording: Wording)

  /** The constructor refuses any other interval. */
  predicate ValidServer(server: Server) { server.interval > 0 }

  /** A request as the handler sees it. */
  datatype Request = Request(path: string, query: string, ip: string, now: real)

  const UNKNOWN_ENDPOINT := "unknown endpoint; expected /announce"

  function StateArgs(a: ServerArgs, ip: string, now: real): T.AnnounceArgs {
    T.AnnounceArgs(T.BytesId(a.infoHash), T.BytesId(a.peerId), ip, a.port,
                   a.uploaded, a.downloaded, a.left, Some(a.event), now)
  }

  /** `do_GET`: the swarms after the request and the dictionary it is answered with. */
  ghost function Handle(s: T.Swarms, server: Server, request: Request): (T.Swarms, Value) {
    if request.path != "/announce" then (s, FailureValue(UNKNOWN_ENDPOINT))
    else match ParseAnnounceParameters(request.query)
      case Err(e) => (s, FailureValue(server.wording(BadRequest(e))))
      case Ok(a) =>
        match T.Announce(s, StateArgs(a, request.ip, request.now), server.ipv4)
        case (after, Err(e)) => (after, FailureValue(server.wording(BadState(e))))
        case (after, Ok(reply)) => (after, ReplyValue(server.interval, reply))
  }

  /** `do_GET` on the tracker's state object. */
  method DoGet(tracker: S.TrackerState, server: Server, request: Request) returns (reply: Value)
    requires T.Inv(tracker.swarms) && server.ipv4 == tracker.ipv4
    modifies tracker
    ensures T.Inv(tracker.swarms)
    ensures (tracker.swarms, reply) == Handle(old(tracker.swarms), server, request)
  {
    hide T.Inv, T.Announce, ParseAnnounceParameters;
    if request.path != "/announce" { return FailureValue(UNKNOWN_ENDPOINT); }
    var parsed := ReadAnnounceParameters(request.query);
    if parsed.Err? { return FailureValue(server.wording(BadRequest(parsed.error))); }
    var outcome := tracker.AnnouncePeer(StateArgs(parsed.value, request.ip, request.now));
    match outcome {
      case Err(e) => reply := FailureValue(server.wording(BadState(e)));
      case Ok(r) => reply := ReplyValue(server.interval, r);
    }
  }

  /** `parse_announce_parameters(raw_query)`. */
  method ReadAnnounceParameters(query: string) returns (r: Result<ServerArgs, RequestError>)
    ensures r == ParseAnnounceParameters(query)
  {
    var parameters := ReadAnnounceQuery(query);
    if parameters.Err? { return Err(parameters.error); }
    r := TypedParameters(parameters.value);
  }

  lemma AnnounceIsStep(s: T.Swarms, args: T.AnnounceArgs, ipv4: T.Ipv4)
    ensures T.Announce(s, args, ipv4).0 == T.Step(s, T.AnnounceOp(args), ipv4)
    ensures T.Announce(s, args, ipv4).1.Err? ==> T.Announce(s, args, ipv4).0 == s
  {
    hide T.Validate, T.ReplyFor, T.With, T.Without;
  }

  /**
   * Whatever the request says, the tracker keeps its invariant, a refused request changes
   * nothing, and the client can read the reply: as a response or as a failure with its reason.
   */
  lemma EveryReplyIsReadable(s: T.Swarms, server: Server, request: Request)
    requires T.Inv(s) && ValidServer(server)
    ensures var (after, reply) := Handle(s, server, request);
      && T.Inv(after)
      && Bencode(reply).Ok?
      && var r := ParseTrackerResponse(Bencode(reply).value);
         && (r.Err? ==> r.error.TrackerFailure? && after == s)
         && (r.Ok? ==> r.value.interval == server.interval)
  {
    hide T.Announce, T.Inv, T.Step, Bencode, ParseTrackerResponse, ParseAnnounceParameters, FailureValue, ReplyValue,
      AllGood;
    if request.path != "/announce" {
      FailureRoundTrip(UNKNOWN_ENDPOINT);
    } else if ParseAnnounceParameters(request.query).Err? {
      FailureRoundTrip(server.wording(BadRequest(ParseAnnounceParameters(request.query).error)));
    } else {
      var args := StateArgs(ParseAnnounceParameters(request.query).value, request.ip, request.now);
      AnnounceIsStep(s, args, server.ipv4);
      T.StepKeepsInv(s, T.AnnounceOp(args), server.ipv4);
      AnnouncedReplyIsReadable(s, server, args);
    }
  }

  lemma AnnouncedReplyIsReadable(s: T.Swarms, server: Server, args: T.AnnounceArgs)
    requires T.Inv(s) && ValidServer(server)
    ensures match T.Announce(s, args, server.ipv4).1
      case Err(e) =>
        && Bencode(FailureValue(server.wording(BadState(e)))).Ok?
        && ParseTrackerResponse(Bencode(FailureValue(server.wording(BadState(e)))).value)
             == Err(TrackerFailure(server.wording(BadState(e))))
      case Ok(reply) =>
        && Bencode(ReplyValue(server.interval, reply)).Ok?
        && ParseTrackerResponse(Bencode(ReplyValue(server.interval, reply)).value)
             == Ok(TrackerResponse(server.interval, reply.complete, reply.incomplete, TrackerPeers(reply.peers)))
  {
    hide T.Announce, T.Inv, Bencode, ParseTrackerResponse, FailureValue, ReplyValue, AllGood;
    match T.Announce(s, args, server.ipv4).1
    case Err(e) => FailureRoundTrip(server.wording(BadState(e)));
    case Ok(reply) =>
      ListedPeersAreGood(s, args, server.ipv4);
      ReplyRoundTrip(server.interval, reply);
  }

  // ---- A remote announce is a local announce -----------------------------------

  datatype CallError = BadArguments(client: ClientError) | BadReply(reply: ReplyError)

  type CallResult = Result<TrackerResponse, CallError>

  /** Where a call comes from and when it is handled. */
  datatype Call = Call(client: Client, args: ClientArgs, ip: string, now: real)

  predicate ValidCall(call: Call) { ValidClient(call.client) }

  /** A GET of a URL that leads to the tracker's `/announce`, and what the client makes of the reply. */
  ghost function Visit(s: T.Swarms, server: Server, url: string, ip: string, now: real): (T.Swarms, CallResult) {
    var (after, reply) := Handle(s, server, Request("/announce", QueryOf(url), ip, now));
    (after, match Bencode(reply)
            case Err(e) => Err(BadReply(Undecodable(e)))
            case Ok(body) => match ParseTrackerResponse(body)
                             case Err(e) => Err(BadReply(e))
                             case Ok(response) => Ok(response))
  }

  /** `TrackerClient.announce(...)`. */
  ghost function RemoteAnnounce(s: T.Swarms, server: Server, call: Call): (T.Swarms, CallResult)
    requires ValidCall(call)
  {
    match BuildAnnounceUrl(call.client, call.args)
    case Err(e) => (s, Err(BadArguments(e)))
    case Ok(url) => Visit(s, server, url, call.ip, call.now)
  }

  /** The announce the tracker would process if it were called directly. */
  function DirectArgs(call: Call): T.AnnounceArgs {
    T.AnnounceArgs(T.BytesId(call.args.infoHash), T.BytesId(call.client.peerId), call.ip, call.client.port,
                   call.args.uploaded, call.args.downloaded, call.args.left, call.args.event, call.now)
  }

  /** What the caller should see of a direct announce. */
  function Seen(server: Server, r: Result<T.Reply, T.StateError>): CallResult {
    match r
    case Err(e) => Err(BadReply(TrackerFailure(server.wording(BadState(e)))))
    case Ok(reply) => Ok(TrackerResponse(server.interval, reply.complete, reply.incomplete, TrackerPeers(reply.peers)))
  }

  lemma MissingEventIsEmpty(s: T.Swarms, call: Call, ipv4: T.Ipv4)
    ensures T.Announce(s, DirectArgs(call).(event := Some(T.EventOf(call.args.event))), ipv4)
      == T.Announce(s, DirectArgs(call), ipv4)
  {
    hide T.InfoHashOf, T.PeerIdOf, T.AnnounceState, T.ReplyFor;
  }

  /** The base URL leaves the event as the client gave it. */
  predicate Carried(call: Call) {
    && '#' !in call.client.announceUrl
    && Arriving(call.client.announceUrl, call.args.event) == Some(EventGiven(call.args.event))
  }

  /**
   * Announcing over HTTP is announcing: query printing and parsing, the handler, and Bencode
   * both ways add up to the direct call, on the state and on the result. A base URL with
   * parameters of its own may replace a missing event or have the call refused, and one with
   * a fragment makes every call the same visit.
   */
  lemma RemoteIsDirect(s: T.Swarms, server: Server, call: Call)
    requires T.Inv(s) && ValidServer(server) && ValidCall(call)
    ensures var (after, result) := RemoteAnnounce(s, server, call);
      match ArgsError(call.args)
      case Some(e) => after == s && result == Err(BadArguments(e))
      case None =>
        if '#' in call.client.announceUrl then
          (after, result) == Visit(s, server, call.client.announceUrl, call.ip, call.now)
        else match Arriving(call.client.announceUrl, call.args.event)
          case Some(event) =>
            var direct := T.Announce(s, DirectArgs(call).(event := Some(event)), server.ipv4);
            after == direct.0 && result == Seen(server, direct.1)
          case None => after == s && result.Err? && result.error.BadReply? && result.error.reply.TrackerFailure?
    ensures ArgsError(call.args).None? && Carried(call) ==>
      var (after, result) := RemoteAnnounce(s, server, call);
      var direct := T.Announce(s, DirectArgs(call), server.ipv4);
      after == direct.0 && result == Seen(server, direct.1)
  {
    hide T.Announce, T.Inv, Bencode, ParseTrackerResponse, ParseAnnounceParameters, FailureValue, ReplyValue, QueryOf,
      Fields, Arriving;
    if ArgsError(call.args).None? {
      QueryRoundTrip(call.client, call.args);
      match Arriving(call.client.announceUrl, call.args.event)
      case Some(event) =>
        AnnouncedReplyIsReadable(s, server, DirectArgs(call).(event := Some(event)));
        MissingEventIsEmpty(s, call, server.ipv4);
      case None =>
        var url := BuildAnnounceUrl(call.client, call.args).value;
        RefusedRequest(s, server, url, call.ip, call.now);
    }
  }

  lemma RefusedRequest(s: T.Swarms, server: Server, url: string, ip: string, now: real)
    ensures var read := ParseAnnounceParameters(QueryOf(url));
      read.Err? ==>
        Visit(s, server, url, ip, now) == (s, Err(BadReply(TrackerFailure(server.wording(BadRequest(read.error))))))
  {
    hide T.Announce, Bencode, ParseTrackerResponse, ParseAnnounceParameters, FailureValue, ReplyValue, QueryOf;
    var read := ParseAnnounceParameters(QueryOf(url));
    if read.Err? { FailureRoundTrip(server.wording(BadRequest(read.error))); }
  }

  /**
   * After any history the client of an accepted announce is told of exactly the other peers
   * that are in the swarm, once each, at the address and port that each gave in its own last
   * accepted announce.
   */
  lemma ClientSeesLastAnnounces(ops: seq<T.Op>, server: Server, call: Call)
    requires ValidServer(server) && ValidCall(call) && Carried(call) && ArgsError(call.args).None?
    ensures var result := RemoteAnnounce(T.Run(ops, server.ipv4), server, call).1;
      var h, p := call.args.infoHash, call.client.peerId;
      result.Ok? ==>
        && (forall j, k :: 0 <= j < k < |result.value.peers| ==> result.value.peers[j] != result.value.peers[k])
        && forall id, ip, port ::
             TrackerPeer(id, ip, port) in result.value.peers <==>
               && id != p
               && var record := T.RecordAfter(ops, h, id, server.ipv4);
                  record.Some? && record.value.ip == ip && record.value.port == port
  {
    hide T.Announce, T.Inv, T.Run, T.RecordAfter, T.ReplyFor, T.Validate, Carried, RemoteAnnounce, ArgsError;
    var s, args := T.Run(ops, server.ipv4), DirectArgs(call);
    T.RunKeepsInv(ops, server.ipv4);
    RemoteIsDirect(s, server, call);
    if T.Announce(s, args, server.ipv4).1.Ok? {
      T.ReplyShape(s, args, server.ipv4);
      AnnounceIsValid(s, args, server.ipv4);
      T.ValidAnnounces(args, server.ipv4);
      AnnounceIsStep(s, args, server.ipv4);
      var (after, reply) := T.Announce(s, args, server.ipv4);
      ListedPeers(after, call.args.infoHash, call.client.peerId, reply.value.peers);
      forall id | id != call.client.peerId
        ensures T.Find(after, call.args.infoHash, id) == T.RecordAfter(ops, call.args.infoHash, id, server.ipv4)
      {
        OthersUnchanged(ops, args, call.args.infoHash, id, server.ipv4);
      }
    }
  }

  lemma OthersUnchanged(ops: seq<T.Op>, args: T.AnnounceArgs, h: Bytes, id: Bytes, ipv4: T.Ipv4)
    requires T.PeerIdOf(args.peerId).Some? && T.PeerIdOf(args.peerId) != Some(id)
    ensures T.Find(T.Step(T.Run(ops, ipv4), T.AnnounceOp(args), ipv4), h, id) == T.RecordAfter(ops, h, id, ipv4)
  {
    hide T.Run, T.RecordAfter, T.Find, T.Step;
    T.RunIsPerPeer(ops, h, id, ipv4);
    T.StepIsPerPeer(T.Run(ops, ipv4), T.AnnounceOp(args), h, id, ipv4);
  }

  /** Which peers a listing names, as the client reads it. */
  lemma ListedPeers(s: T.Swarms, h: Bytes, p: Bytes, peers: seq<T.PeerInfo>)
    requires T.Inv(s) && StrictlySorted(T.InfoIds(peers))
    requires forall id :: id in T.InfoIds(peers) <==> id != p && T.Find(s, h, id).Some?
    requires forall k :: 0 <= k < |peers| ==>
      && T.Find(s, h, peers[k].peerId).Some? && T.Describes(peers[k], T.Find(s, h, peers[k].peerId).value)
    ensures forall j, k :: 0 <= j < k < |peers| ==> TrackerPeers(peers)[j] != TrackerPeers(peers)[k]
    ensures forall id, ip, port ::
      TrackerPeer(id, ip, port) in TrackerPeers(peers) <==>
        && id != p && T.Find(s, h, id).Some?
        && T.Find(s, h, id).value.ip == ip && T.Find(s, h, id).value.port == port
  {
    hide T.Find, T.Inv;
    var read := TrackerPeers(peers);
    forall j, k | 0 <= j < k < |peers| ensures read[j] != read[k] {
      LessIsAsymmetric(T.InfoIds(peers)[j], T.InfoIds(peers)[k]);
    }
    forall id, ip, port
      ensures TrackerPeer(id, ip, port) in read <==>
        && id != p && T.Find(s, h, id).Some?
        && T.Find(s, h, id).value.ip == ip && T.Find(s, h, id).value.port == port
    {
      if TrackerPeer(id, ip, port) in read {
        var k :| 0 <= k < |read| && read[k] == TrackerPeer(id, ip, port);
        assert T.InfoIds(peers)[k] == id;
      }
      if id in T.InfoIds(peers) {
        var k :| 0 <= k < |peers| && T.InfoIds(peers)[k] == id;
        assert read[k] == TrackerPeer(id, peers[k].ip, peers[k].port);
      }
    }
  }

  /**
   * The client's own checks and the tracker's agree: with an IPv4 address and a valid clock,
   * an announce passes one exactly when it passes the other.
   */
  lemma ClientChecksAreServerChecks(call: Call, ipv4: T.Ipv4)
    requires ValidCall(call) && call.ip != "" && ipv4(call.ip).Some? && call.now >= 0.0
    ensures ArgsError(call.args).None? <==> T.Validate(DirectArgs(call), ipv4).Ok?
  {
    hide T.Validate;
    T.ValidAnnounces(DirectArgs(call), ipv4);
  }

  // ---- Every history of remote calls -------------------------------------------

  /** The swarms after a history of calls by any number of clients. */
  ghost function RemoteRun(calls: seq<Call>, server: Server): T.Swarms
    requires forall k :: 0 <= k < |calls| ==> ValidCall(calls[k])
  {
    if calls == [] then map[]
    else RemoteAnnounce(RemoteRun(calls[..|calls| - 1], server), server, calls[|calls| - 1]).0
  }

  /** The announces among the calls that leave the client. */
  function Sent(calls: seq<Call>): seq<T.Op> {
    if calls == [] then []
    else
      var last := calls[|calls| - 1];
      Sent(calls[..|calls| - 1]) + (if ArgsError(last.args).Some? then [] else [T.AnnounceOp(DirectArgs(last))])
  }

  /** A tracker reached over HTTP goes through exactly the states of the tracker state machine. */
  lemma {:induction false} RemoteRunIsRun(calls: seq<Call>, server: Server)
    requires ValidServer(server) && forall k :: 0 <= k < |calls| ==> ValidCall(calls[k]) && Carried(calls[k])
    ensures RemoteRun(calls, server) == T.Run(Sent(calls), server.ipv4)
    ensures T.Inv(RemoteRun(calls, server))
  {
    hide T.Announce, T.Inv, T.Step, ValidCall, Carried, RemoteAnnounce, ArgsError;
    T.RunKeepsInv(Sent(calls), server.ipv4);
    if calls != [] {
      var front, last := calls[..|calls| - 1], calls[|calls| - 1];
      RemoteRunIsRun(front, server);
      var s := RemoteRun(front, server);
      RemoteIsDirect(s, server, last);
      AnnounceIsStep(s, DirectArgs(last), server.ipv4);
      if ArgsError(last.args).None? {
        assert Sent(calls)[..|Sent(calls)| - 1] == Sent(front);
      } else {
        assert Sent(calls) == Sent(front);
      }
    }
  }
}
