/**
 * Every interleaving of a peer server's threads: connections are read, answered, sent and
 * accounted for in separate steps, while other threads use the same piece manager.
 */
module PeerServerTheorems {
  import opened Wrappers
  import opened ByteStrings
  import opened BencodeEncoder
  import opened HexText
  import Storage
  import opened PieceStore
  import opened PeerMessages
  import opened PeerServers
  import F = Framing
  import P = PieceTheorems
  import Torrents

  // ---- One request for a piece -------------------------------------------------

  /**
   * Every piece that is answered was asked for by its index, is a piece of this torrent that
   * the server has, and goes out with the server's id, the torrent's hash and the SHA-1 of
   * the very bytes it carries.
   */
  lemma SentPieceIsLabelled(c: ServerConfig, s: Shared, m: Message, now: real)
    requires Ready(c, s) && Dispatch(c, s, m, now).1.Piece?
    ensures c.manager.Some?
    ensures var answer, config := Dispatch(c, s, m, now).1, c.manager.value;
      && HasText(m, "type", "REQUEST") && "piece_index" in m && m["piece_index"] == Int(answer.index)
      && 0 <= answer.index < config.torrent.pieceCount && s.store.bits[answer.index]
      && answer.data == PieceStore.Piece(config, s.store.disk, answer.index)
      && MessageOf(c, answer) == Some(map[
           "type" := Text("PIECE"), "peer_id" := Text(Hex(c.peerId)),
           "info_hash" := Text(Hex(config.torrent.infoHash)), "piece_index" := m["piece_index"],
           "sha1" := Text(Hex(config.sha1(answer.data))), "data" := Text(c.encode(answer.data))])
  {
    hide HexField, ValidateRequest, Hex, ReadPiece, PieceStore.Piece, P.Reached, Torrents.WellFormed;
    BeginKeepsReady(c, s, m, now);
    var config, begun := c.manager.value, Begin(c, s, m, now);
    P.ReadOutcome(config, begun.0.store, begun.1.index);
    HashPerPiece(config);
  }

  /** The server's own id and the torrent's hash go out with every bitfield and every unchoke. */
  lemma OtherAnswersAreLabelled(c: ServerConfig, s: Shared, m: Message, now: real)
    requires Ready(c, s)
    ensures var answer := Dispatch(c, s, m, now).1;
      && (answer.Bitfield? ==>
            && c.manager.Some? && HasText(m, "type", "BITFIELD_REQUEST")
            && MessageOf(c, answer) == Some(map[
                 "type" := Text("BITFIELD"), "peer_id" := Text(Hex(c.peerId)),
                 "info_hash" := Text(Hex(c.manager.value.torrent.infoHash)), "pieces" := List(BoolValues(s.store.bits))]))
      && (answer.Unchoke? ==>
            && c.manager.Some? && HasText(m, "type", "INTERESTED")
            && Dispatch(c, s, m, now).0.interested == s.interested + {(answer.infoHash, answer.requester)}
            && HexField(m, "peer_id") == Some(answer.requester)
            && MessageOf(c, answer) == Some(map[
                 "type" := Text("UNCHOKE"), "peer_id" := Text(Hex(c.peerId)),
                 "info_hash" := Text(Hex(c.manager.value.torrent.infoHash))]))
      && (answer.Failure? ==>
            MessageOf(c, answer) == Some(map["type" := Text("ERROR"), "message" := Text(c.wording(answer.error))]))
  {
    hide HexField, Hex, ReadPiece, Torrents.WellFormed;
    BeginKeepsReady(c, s, m, now);
  }

  lemma HashPerPiece(config: Config)
    ensures Torrents.WellFormed(config.torrent) ==> |config.torrent.pieceHashes| == config.torrent.pieceCount
  {
  }

  /**
   * How a request for a piece fails: an index that is out of range, a piece the server does
   * not have or a file that has become too short is answered as unavailable; a missing file
   * closes the connection; a piece that has changed on the disk is an error, and the server
   * no longer has it.
   */
  lemma PieceRequestFailure(c: ServerConfig, s: Shared, m: Message, now: real, k: nat)
    requires Ready(c, s) && Begin(c, s, m, now).1.WantsPiece?
    ensures c.manager.Some?
    ensures var (after, answer) := Dispatch(c, s, m, now);
      var config, i := c.manager.value, Begin(c, s, m, now).1.index;
      if !(0 <= i < config.torrent.pieceCount) || !s.store.bits[i] then
        after.store == s.store && answer == Failure(Unavailable)
      else
        && (P.Reached(config, s.store.disk, i)
              && Hex(config.sha1(PieceStore.Piece(config, s.store.disk, i))) != config.torrent.pieceHashes[i]
            ==> after.store == s.store.(bits := s.store.bits[i := false]) && answer == Failure(Internal))
        && (Storage.FirstUnreadable(s.store.disk, Torrents.Segments(config.torrent),
              Torrents.PieceStart(config.torrent, i), PieceEnd(config.torrent, i), k)
            ==> after.store == s.store
                && answer == if Torrents.Segments(config.torrent)[k].path in s.store.disk
                             then Failure(Unavailable) else Silence)
  {
    hide HexField, ValidateRequest, HandlePing, Hex, ReadPiece, PieceStore.Piece, Torrents.Segments,
      Torrents.PieceStart, Storage.AllReadable, Storage.Readable, Torrents.WellFormed;
    BeginKeepsReady(c, s, m, now);
    var config, i := c.manager.value, Begin(c, s, m, now).1.index;
    HashPerPiece(config);
    P.ReadOutcome(config, s.store, i);
    P.ReadFailure(config, s.store, i, k);
    var (after, r) := ReadPiece(config, s.store, i);
    if r.Err? {
      if r.error == PieceHashMismatch {
        assert after.bits == s.store.bits[i := false];
      } else {
        assert after.bits == s.store.bits;
      }
    }
  }

  // ---- The threads -------------------------------------------------------------

  /** Where the thread of one connection stands. */
  datatype Connection =
    | Open
    | Fetching(infoHash: Bytes, requester: Bytes, index: int)
    | Sending(answer: Answer)
    | Accounting(size: nat)
    | Closed

  /** What has happened, oldest first. */
  datatype Event =
    | Interested(infoHash: Bytes, requester: Bytes)
    | PieceSent(infoHash: Bytes, requester: Bytes, index: int, data: Bytes)

  datatype System = System(shared: Shared, conns: seq<Connection>, log: seq<Event>)

  datatype Step =
    | Accept
    | Receive(conn: nat, received: Result<Message, F.FrameError>, now: real)
    | FetchPiece(conn: nat)
    | Send(conn: nat, delivered: bool)
    | Account(conn: nat)
    | UseStore(op: P.Op)

  /** One atomic step; a step whose thread is elsewhere does nothing. */
  function Next(c: ServerConfig, sys: System, step: Step): (after: System)
    requires Ready(c, sys.shared)
    ensures Ready(c, after.shared)
  {
    match step
    case Accept => sys.(conns := sys.conns + [Open])
    case Receive(k, received, now) =>
      if k >= |sys.conns| || !sys.conns[k].Open? then sys
      else if received.Err? then sys.(conns := sys.conns[k := Sending(Failure(Unreadable(received.error)))])
      else
        var message := received.value;
        BeginKeepsReady(c, sys.shared, message, now);
        (match Begin(c, sys.shared, message, now)
         case (shared, WantsPiece(infoHash, requester, index)) =>
           System(shared, sys.conns[k := Fetching(infoHash, requester, index)], sys.log)
         case (shared, Answered(answer)) =>
           System(shared, sys.conns[k := Sending(answer)],
                  if answer.Unchoke? then sys.log + [Interested(answer.infoHash, answer.requester)] else sys.log))
    case FetchPiece(k) =>
      if k >= |sys.conns| || !sys.conns[k].Fetching? || c.manager.None? then sys else
        ReadKeepsShape(c.manager.value, sys.shared.store, sys.conns[k].index);
        var f := sys.conns[k];
        var (shared, answer) := Fetch(c.manager.value, sys.shared, f.infoHash, f.requester, f.index);
        System(shared, sys.conns[k := Sending(answer)], sys.log)
    case Send(k, delivered) =>
      if k >= |sys.conns| || !sys.conns[k].Sending? then sys else
        (match sys.conns[k].answer
         case Piece(infoHash, requester, index, data) =>
           if delivered && Sendable(c, sys.conns[k].answer)
           then System(sys.shared, sys.conns[k := Accounting(|data|)],
                       sys.log + [PieceSent(infoHash, requester, index, data)])
           else sys.(conns := sys.conns[k := Closed])
         case _ => sys.(conns := sys.conns[k := Closed]))
    case Account(k) =>
      if k >= |sys.conns| || !sys.conns[k].Accounting? then sys else
        sys.(shared := sys.shared.(uploaded := sys.shared.uploaded + sys.conns[k].size), conns := sys.conns[k := Closed])
    case UseStore(op) =>
      if c.manager.None? then sys
      else sys.(shared := sys.shared.(store := P.Step(c.manager.value, sys.shared.store, op)))
  }

  lemma ReadKeepsShape(c: Config, s: Store, i: int)
    requires Shaped(c, s)
    ensures Shaped(c, ReadPiece(c, s, i).0)
  {
  }

  function Run(c: ServerConfig, sys: System, steps: seq<Step>): (after: System)
    requires Ready(c, sys.shared)
    ensures Ready(c, after.shared)
  {
    if steps == [] then sys else Next(c, Run(c, sys, steps[..|steps| - 1]), steps[|steps| - 1])
  }

  // ---- The invariant -----------------------------------------------------------

  /** Bytes of pieces that went out. */
  function SentBytes(log: seq<Event>): nat {
    if log == [] then 0
    else SentBytes(log[..|log| - 1]) + match log[|log| - 1]
      case PieceSent(_, _, _, data) => |data|
      case Interested(_, _) => 0
  }

  function PendingSize(conn: Connection): nat { if conn.Accounting? then conn.size else 0 }

  /** Bytes sent on connections that have not yet added them to the counter. */
  function Pending(conns: seq<Connection>): nat {
    if conns == [] then 0 else Pending(conns[..|conns| - 1]) + PendingSize(conns[|conns| - 1])
  }

  lemma {:induction false} PendingAfter(conns: seq<Connection>, k: nat, conn: Connection)
    requires k < |conns|
    ensures Pending(conns[k := conn]) == Pending(conns) - PendingSize(conns[k]) + PendingSize(conn)
  {
    var n := |conns| - 1;
    if k == n {
      assert conns[k := conn][..n] == conns[..n];
    } else {
      PendingAfter(conns[..n], k, conn);
      assert conns[k := conn][..n] == conns[..n][k := conn];
    }
  }

  /** A piece that was asked for, and whose bytes were verified when they were read. */
  predicate Justified(c: ServerConfig, log: seq<Event>, infoHash: Bytes, requester: Bytes, index: int, data: Bytes) {
    && Interested(infoHash, requester) in log
    && c.manager.Some?
    && infoHash == c.manager.value.torrent.infoHash
    && Torrents.WellFormed(c.manager.value.torrent)
    && 0 <= index < c.manager.value.torrent.pieceCount
    && VerifyPiece(c.manager.value, index, data)
  }

  predicate GoodConnection(c: ServerConfig, log: seq<Event>, conn: Connection) {
    match conn
    case Fetching(infoHash, requester, _) =>
      && Interested(infoHash, requester) in log
      && c.manager.Some? && infoHash == c.manager.value.torrent.infoHash
    case Sending(Piece(infoHash, requester, index, data)) => Justified(c, log, infoHash, requester, index, data)
    case _ => true
  }

  predicate GoodEvent(c: ServerConfig, log: seq<Event>, k: nat)
    requires k < |log|
  {
    match log[k]
    case PieceSent(infoHash, requester, index, data) => Justified(c, log[..k], infoHash, requester, index, data)
    case Interested(_, _) => true
  }

  ghost predicate Inv(c: ServerConfig, sys: System) {
    && (forall h, p :: (h, p) in sys.shared.interested <==> Interested(h, p) in sys.log)
    && (forall k :: 0 <= k < |sys.conns| ==> GoodConnection(c, sys.log, sys.conns[k]))
    && (forall k :: 0 <= k < |sys.log| ==> GoodEvent(c, sys.log, k))
    && sys.shared.uploaded + Pending(sys.conns) == SentBytes(sys.log)
  }

  lemma GoodConnectionGrows(c: ServerConfig, log: seq<Event>, e: Event, conn: Connection)
    requires GoodConnection(c, log, conn)
    ensures GoodConnection(c, log + [e], conn)
  {
    hide Torrents.WellFormed, VerifyPiece;
  }

  lemma GoodEventsGrow(c: ServerConfig, log: seq<Event>, e: Event)
    requires forall k :: 0 <= k < |log| ==> GoodEvent(c, log, k)
    requires match e
      case PieceSent(infoHash, requester, index, data) => Justified(c, log, infoHash, requester, index, data)
      case Interested(_, _) => true
    ensures forall k :: 0 <= k < |log + [e]| ==> GoodEvent(c, log + [e], k)
  {
    hide Justified;
    forall k | 0 <= k < |log + [e]| ensures GoodEvent(c, log + [e], k) {
      if k < |log| {
        assert GoodEvent(c, log, k);
        assert (log + [e])[..k] == log[..k];
      } else {
        assert (log + [e])[..k] == log;
      }
    }
  }

  /** The effect on the invariant of moving one connection on, with nothing logged. */
  lemma MoveKeepsInv(c: ServerConfig, sys: System, shared: Shared, k: nat, conn: Connection)
    requires Inv(c, sys) && k < |sys.conns| && GoodConnection(c, sys.log, conn)
    requires shared.interested == sys.shared.interested
    requires shared.uploaded + PendingSize(conn) == sys.shared.uploaded + PendingSize(sys.conns[k])
    ensures Inv(c, System(shared, sys.conns[k := conn], sys.log))
  {
    hide GoodConnection, GoodEvent;
    PendingAfter(sys.conns, k, conn);
  }

  lemma LoggedKeepsInv(c: ServerConfig, sys: System, shared: Shared, k: nat, conn: Connection, e: Event)
    requires Inv(c, sys) && k < |sys.conns| && GoodConnection(c, sys.log + [e], conn)
    requires PendingSize(sys.conns[k]) == 0 && shared.uploaded == sys.shared.uploaded
    requires match e
      case Interested(h, p) => shared.interested == sys.shared.interested + {(h, p)} && PendingSize(conn) == 0
      case PieceSent(h, p, index, data) =>
        && shared.interested == sys.shared.interested && PendingSize(conn) == |data|
        && Justified(c, sys.log, h, p, index, data)
    ensures Inv(c, System(shared, sys.conns[k := conn], sys.log + [e]))
  {
    hide Justified, GoodConnection, GoodEvent;
    PendingAfter(sys.conns, k, conn);
    GoodEventsGrow(c, sys.log, e);
    var longer := sys.log + [e];
    assert longer[..|longer| - 1] == sys.log;
    var conns := sys.conns[k := conn];
    forall j | 0 <= j < |conns| ensures GoodConnection(c, longer, conns[j]) {
      if j != k { GoodConnectionGrows(c, sys.log, e, sys.conns[j]); }
    }
  }

  lemma FetchJustifies(c: ServerConfig, sys: System, k: nat)
    requires Ready(c, sys.shared) && k < |sys.conns| && sys.conns[k].Fetching? && c.manager.Some?
    requires GoodConnection(c, sys.log, sys.conns[k])
    ensures var f := sys.conns[k];
      var (shared, answer) := Fetch(c.manager.value, sys.shared, f.infoHash, f.requester, f.index);
      && shared.interested == sys.shared.interested && shared.uploaded == sys.shared.uploaded
      && GoodConnection(c, sys.log, Sending(answer))
  {
    hide Torrents.WellFormed, VerifyPiece, ReadPieceBytes;
  }

  lemma ReceiveKeepsInv(
      c: ServerConfig, sys: System, k: nat, received: Result<Message, F.FrameError>, now: real)
    requires Ready(c, sys.shared) && Inv(c, sys)
    ensures Inv(c, Next(c, sys, Receive(k, received, now)))
  {
    if k < |sys.conns| && sys.conns[k].Open? && received.Err? {
      MoveKeepsInv(c, sys, sys.shared, k, Sending(Failure(Unreadable(received.error))));
    }
    if k < |sys.conns| && sys.conns[k].Open? && received.Ok? {
      var message := received.value;
      BeginKeepsReady(c, sys.shared, message, now);
      BeginAnswers(c, sys.shared, message, now);
      hide Begin, Inv;
      match Begin(c, sys.shared, message, now)
      case (shared, WantsPiece(infoHash, requester, index)) =>
        InterestIsLogged(c, sys, infoHash, requester);
        MoveKeepsInv(c, sys, shared, k, Fetching(infoHash, requester, index));
      case (shared, Answered(answer)) =>
        if answer.Unchoke? {
          LoggedKeepsInv(c, sys, shared, k, Sending(answer), Interested(answer.infoHash, answer.requester));
        } else {
          MoveKeepsInv(c, sys, shared, k, Sending(answer));
        }
    }
  }

  lemma InterestIsLogged(c: ServerConfig, sys: System, h: Bytes, p: Bytes)
    requires Inv(c, sys)
    ensures (h, p) in sys.shared.interested <==> Interested(h, p) in sys.log
  {
  }

  /** Only an UNCHOKE answer adds to the interested peers, and no piece is answered outright. */
  lemma BeginAnswers(c: ServerConfig, s: Shared, m: Message, now: real)
    ensures var (after, begun) := Begin(c, s, m, now);
      && (begun.Answered? ==> !begun.answer.Piece?)
      && after.interested ==
           if begun.Answered? && begun.answer.Unchoke?
           then s.interested + {(begun.answer.infoHash, begun.answer.requester)} else s.interested
  {
    hide HexField, ValidateRequest;
  }

  lemma NextKeepsInv(c: ServerConfig, sys: System, step: Step)
    requires Ready(c, sys.shared) && Inv(c, sys)
    ensures Inv(c, Next(c, sys, step))
  {
    match step
    case Accept =>
      var conns := sys.conns + [Open];
      assert conns[..|conns| - 1] == sys.conns;
    case Receive(k, received, now) => ReceiveKeepsInv(c, sys, k, received, now);
    case FetchPiece(k) =>
      if k < |sys.conns| && sys.conns[k].Fetching? && c.manager.Some? {
        FetchJustifies(c, sys, k);
        hide Fetch, Inv;
        var f := sys.conns[k];
        var (shared, answer) := Fetch(c.manager.value, sys.shared, f.infoHash, f.requester, f.index);
        MoveKeepsInv(c, sys, shared, k, Sending(answer));
      }
    case Send(k, delivered) => SendKeepsInv(c, sys, k, delivered);
    case Account(k) =>
      if k < |sys.conns| && sys.conns[k].Accounting? {
        MoveKeepsInv(c, sys, sys.shared.(uploaded := sys.shared.uploaded + sys.conns[k].size), k, Closed);
      }
    case UseStore(op) =>
  }

  lemma SendKeepsInv(c: ServerConfig, sys: System, k: nat, delivered: bool)
    requires Ready(c, sys.shared) && Inv(c, sys)
    ensures Inv(c, Next(c, sys, Send(k, delivered)))
  {
    if k < |sys.conns| && sys.conns[k].Sending? {
      assert GoodConnection(c, sys.log, sys.conns[k]);
      hide Inv, Justified, Sendable;
      match sys.conns[k].answer
      case Piece(infoHash, requester, index, data) =>
        if delivered && Sendable(c, sys.conns[k].answer) {
          LoggedKeepsInv(c, sys, sys.shared, k, Accounting(|data|), PieceSent(infoHash, requester, index, data));
        } else {
          MoveKeepsInv(c, sys, sys.shared, k, Closed);
        }
      case _ => MoveKeepsInv(c, sys, sys.shared, k, Closed);
    }
  }

  /** A server that has just started, over any files. */
  function Start(store: Store): System { System(Shared(store, {}, 0), [], []) }

  lemma {:induction false} RunKeepsInv(c: ServerConfig, store: Store, steps: seq<Step>)
    requires c.manager.Some? ==> Shaped(c.manager.value, store)
    ensures Inv(c, Run(c, Start(store), steps))
  {
    hide Next, Inv;
    if steps == [] {
      StartIsGood(c, store);
    } else {
      RunKeepsInv(c, store, steps[..|steps| - 1]);
      NextKeepsInv(c, Run(c, Start(store), steps[..|steps| - 1]), steps[|steps| - 1]);
    }
  }

  lemma StartIsGood(c: ServerConfig, store: Store)
    ensures Inv(c, Start(store))
  {
  }

  /**
   * In every interleaving, a piece is only ever sent after an INTERESTED with the same info
   * hash and peer id, and only with bytes that have that piece's length and hash.
   */
  lemma PiecesFollowInterest(c: ServerConfig, store: Store, steps: seq<Step>, k: nat)
    requires c.manager.Some? ==> Shaped(c.manager.value, store)
    requires k < |Run(c, Start(store), steps).log| && Run(c, Start(store), steps).log[k].PieceSent?
    ensures var log := Run(c, Start(store), steps).log;
      var e := log[k];
      && (exists j :: 0 <= j < k && log[j] == Interested(e.infoHash, e.requester))
      && c.manager.Some? && e.infoHash == c.manager.value.torrent.infoHash
      && Torrents.WellFormed(c.manager.value.torrent)
      && 0 <= e.index < c.manager.value.torrent.pieceCount
      && VerifyPiece(c.manager.value, e.index, e.data)
  {
    hide Run, VerifyPiece, Torrents.WellFormed;
    RunKeepsInv(c, store, steps);
    var log := Run(c, Start(store), steps).log;
    assert GoodEvent(c, log, k);
    var j :| 0 <= j < |log[..k]| && log[..k][j] == Interested(log[k].infoHash, log[k].requester);
    assert log[j] == Interested(log[k].infoHash, log[k].requester);
  }

  /**
   * In every interleaving, the upload counter is the sum of the sizes of the pieces sent,
   * short only of those whose thread has sent but not yet accounted.
   */
  lemma UploadsAreSentPieces(c: ServerConfig, store: Store, steps: seq<Step>)
    requires c.manager.Some? ==> Shaped(c.manager.value, store)
    ensures var sys := Run(c, Start(store), steps);
      && sys.shared.uploaded + Pending(sys.conns) == SentBytes(sys.log)
      && ((forall k :: 0 <= k < |sys.conns| ==> !sys.conns[k].Accounting?) ==> sys.shared.uploaded == SentBytes(sys.log))
  {
    hide Run;
    RunKeepsInv(c, store, steps);
    NothingPending(Run(c, Start(store), steps).conns);
  }

  lemma {:induction false} NothingPending(conns: seq<Connection>)
    ensures (forall k :: 0 <= k < |conns| ==> !conns[k].Accounting?) ==> Pending(conns) == 0
  {
    if conns != [] { NothingPending(conns[..|conns| - 1]); }
  }

  /** Handling one connection from start to finish is the four steps in a row. */
  lemma HandlingIsFourSteps(
      c: ServerConfig, sys: System, k: nat, received: Result<Message, F.FrameError>, now: real, delivered: bool)
    requires Ready(c, sys.shared) && k < |sys.conns| && sys.conns[k].Open?
    ensures var s1 := Next(c, sys, Receive(k, received, now));
      var s2 := Next(c, s1, FetchPiece(k));
      var s3 := Next(c, s2, Send(k, delivered));
      var s4 := Next(c, s3, Account(k));
      && s4.shared == Handle(c, sys.shared, received, now, delivered).0
      && s4.conns == sys.conns[k := Closed]
  {
    hide Begin, Fetch, Torrents.WellFormed, Sendable, FrameOf;
    if received.Ok? {
      BeginKeepsReady(c, sys.shared, received.value, now);
      BeginAnswers(c, sys.shared, received.value, now);
    }
  }
}
