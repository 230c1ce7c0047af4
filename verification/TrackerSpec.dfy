/** The tracker's swarms as a state machine: tracker/tracker_state.py without its lock. */
module TrackerSpec {
  import opened Wrappers
  import opened ByteStrings
  import opened HexText
  import PyText
  import Utf8

  datatype Peer = Peer(
    peerId: Bytes, ip: string, port: int, uploaded: int, downloaded: int, left: int, lastSeen: real)

  type Swarm = map<Bytes, Peer>

  type Swarms = map<Bytes, Swarm>

  /** An identifier as a caller may give it. */
  datatype IdArg = BytesId(data: Bytes) | TextId(text: string) | OtherId

  datatype AnnounceArgs = AnnounceArgs(
    infoHash: IdArg, peerId: IdArg, ip: string, port: int,
    uploaded: int, downloaded: int, left: int, event: Option<string>, now: real)

  datatype StateError =
    | BadInfoHash | BadPeerId | BadIp | BadPort | BadUploaded | BadDownloaded | BadLeft
    | BadEvent | BadTimestamp | BadTimeout | FirstAnnounceNotStarted

  datatype PeerInfo = PeerInfo(peerId: Bytes, ip: string, port: int)

  datatype Reply = Reply(complete: nat, incomplete: nat, peers: seq<PeerInfo>)

  /** `ipaddress`: the normal form of an IPv4 address, None for anything else. */
  type Ipv4 = string -> Option<string>

  // ---- Normalization -----------------------------------------------------------

  function InfoHashOf(id: IdArg): Option<Bytes> {
    match id
    case BytesId(data) => if |data| == 20 then Some(data) else None
    case TextId(text) =>
      if |text| != 40 || FromHex(text).None? || |FromHex(text).value| != 20 then None else FromHex(text)
    case OtherId => None
  }

  function PeerIdOf(id: IdArg): Option<Bytes> {
    match id
    case BytesId(data) => if |data| == 20 then Some(data) else None
    case TextId(text) => if |Utf8.Encode(text)| == 20 then Some(Utf8.Encode(text)) else None
    case OtherId => None
  }

  predicate ValidEvent(event: string) {
    event == "" || event == "started" || event == "completed" || event == "stopped"
  }

  /** An announce after validation; `peer` is the record it would store. */
  datatype Announcement = Announcement(infoHash: Bytes, event: string, peer: Peer)

  function EventOf(event: Option<string>): string { if event.None? then "" else event.value }

  function Validate(a: AnnounceArgs, ipv4: Ipv4): Result<Announcement, StateError> {
    if InfoHashOf(a.infoHash).None? then Err(BadInfoHash)
    else if PeerIdOf(a.peerId).None? then Err(BadPeerId)
    else if a.ip == "" || ipv4(a.ip).None? then Err(BadIp)
    else if !(1 <= a.port <= 65535) then Err(BadPort)
    else if a.uploaded < 0 then Err(BadUploaded)
    else if a.downloaded < 0 then Err(BadDownloaded)
    else if a.left < 0 then Err(BadLeft)
    else if !ValidEvent(EventOf(a.event)) then Err(BadEvent)
    else if a.now < 0.0 then Err(BadTimestamp)
    else Ok(Announcement(InfoHashOf(a.infoHash).value, EventOf(a.event),
      Peer(PeerIdOf(a.peerId).value, ipv4(a.ip).value, a.port, a.uploaded, a.downloaded,
           if EventOf(a.event) == "completed" then 0 else a.left, a.now)))
  }

  // ---- Queries -----------------------------------------------------------------

  function SwarmOf(s: Swarms, h: Bytes): Swarm { if h in s then s[h] else map[] }

  function Find(s: Swarms, h: Bytes, p: Bytes): Option<Peer> {
    if h in s && p in s[h] then Some(s[h][p]) else None
  }

  function CompleteIds(swarm: Swarm): set<Bytes> { set p | p in swarm && swarm[p].left == 0 }

  predicate IsLeast(least: Bytes, ids: set<Bytes>) {
    least in ids && forall x :: x in ids && x != least ==> Less(least, x)
  }

  lemma {:induction false} LeastExists(ids: set<Bytes>)
    requires ids != {}
    ensures exists least :: IsLeast(least, ids)
    decreases |ids|
  {
    var x :| x in ids;
    if ids == {x} {
      assert IsLeast(x, ids);
    } else {
      LeastExists(ids - {x});
      var rest :| IsLeast(rest, ids - {x});
      LessIsTotal(x, rest);
      var least := if Less(x, rest) then x else rest;
      forall y | y in ids && y != least ensures Less(least, y) {
        if y != x && y != rest && least == x { LessIsTransitive(x, rest, y); }
      }
      assert IsLeast(least, ids);
    }
  }

  /** The ids in increasing order. */
  ghost function SortedIds(ids: set<Bytes>): (r: seq<Bytes>)
    ensures |r| == |ids|
    ensures forall x :: x in r <==> x in ids
    ensures StrictlySorted(r)
    decreases |ids|
  {
    if ids == {} then [] else
      LeastExists(ids);
      var least :| IsLeast(least, ids);
      [least] + SortedIds(ids - {least})
  }

  function InfoOf(peer: Peer): PeerInfo { PeerInfo(peer.peerId, peer.ip, peer.port) }

  /** `_get_peers_locked`: every record but the requester's, sorted by id. */
  ghost function Listing(swarm: Swarm, requester: Bytes): (peers: seq<PeerInfo>) {
    var ids := SortedIds(swarm.Keys - {requester});
    seq(|ids|, k requires 0 <= k < |ids| =>
      (assert ids[k] in ids; InfoOf(swarm[ids[k]])))
  }

  ghost function ReplyFor(s: Swarms, h: Bytes, requester: Bytes): Reply {
    var swarm := SwarmOf(s, h);
    SubsetSize(CompleteIds(swarm), swarm.Keys);
    Reply(|CompleteIds(swarm)|, |swarm| - |CompleteIds(swarm)|, Listing(swarm, requester))
  }

  lemma {:induction false} SubsetSize<T>(a: set<T>, b: set<T>)
    requires a <= b
    ensures |a| <= |b|
  {
    if a != {} {
      var x :| x in a;
      SubsetSize(a - {x}, b - {x});
    }
  }

  // ---- Operations --------------------------------------------------------------

  /** A record taken out; a swarm left empty goes with it. */
  function Without(s: Swarms, h: Bytes, p: Bytes): Swarms {
    if h !in s then s
    else
      var rest := s[h] - {p};
      if rest == map[] then s - {h} else s[h := rest]
  }

  function With(s: Swarms, h: Bytes, peer: Peer): Swarms {
    s[h := SwarmOf(s, h)[peer.peerId := peer]]
  }

  /** The swarms after an announce, and its refusal if it is refused. */
  function AnnounceState(s: Swarms, a: Announcement): (Swarms, Option<StateError>) {
    if a.event == "stopped" then (Without(s, a.infoHash, a.peer.peerId), None)
    else if Find(s, a.infoHash, a.peer.peerId).None? && a.event != "started"
    then (s, Some(FirstAnnounceNotStarted))
    else (With(s, a.infoHash, a.peer), None)
  }

  /** `announce(...)`. */
  ghost function Announce(s: Swarms, args: AnnounceArgs, ipv4: Ipv4): (Swarms, Result<Reply, StateError>) {
    match Validate(args, ipv4)
    case Err(e) => (s, Err(e))
    case Ok(a) =>
      var (after, refusal) := AnnounceState(s, a);
      (after, if refusal.Some? then Err(refusal.value) else Ok(ReplyFor(after, a.infoHash, a.peer.peerId)))
  }

  /** `remove_peer(...)`: the swarms after it, and whether a record was removed. */
  function Remove(s: Swarms, infoHash: IdArg, peerId: IdArg): (Swarms, Result<bool, StateError>) {
    if InfoHashOf(infoHash).None? then (s, Err(BadInfoHash))
    else if PeerIdOf(peerId).None? then (s, Err(BadPeerId))
    else
      var h, p := InfoHashOf(infoHash).value, PeerIdOf(peerId).value;
      (Without(s, h, p), Ok(Find(s, h, p).Some?))
  }

  predicate IsExpired(peer: Peer, timeout: real, now: real) { now - peer.lastSeen > timeout }

  function Fresh(swarm: Swarm, timeout: real, now: real): Swarm {
    map p | p in swarm && !IsExpired(swarm[p], timeout, now) :: swarm[p]
  }

  /** What `remove_expired_peers` leaves. */
  function Unexpired(s: Swarms, timeout: real, now: real): Swarms {
    map h | h in s && Fresh(s[h], timeout, now) != map[] :: Fresh(s[h], timeout, now)
  }

  datatype ExpiredPeer = ExpiredPeer(infoHash: Bytes, peerId: Bytes, ip: string, port: int, lastSeen: real)

  function ExpiredRecord(h: Bytes, p: Bytes, peer: Peer): ExpiredPeer {
    ExpiredPeer(h, p, peer.ip, peer.port, peer.lastSeen)
  }

  // ---- Invariant ---------------------------------------------------------------

  predicate ValidRecord(p: Bytes, peer: Peer) {
    && |p| == 20 && peer.peerId == p && 1 <= peer.port <= 65535
    && peer.uploaded >= 0 && peer.downloaded >= 0 && peer.left >= 0 && peer.lastSeen >= 0.0
  }

  /** No swarm is empty, and every record sits under its own 20-byte id. */
  ghost predicate Inv(s: Swarms) {
    forall h :: h in s ==>
      && |h| == 20 && s[h] != map[]
      && forall p :: p in s[h] ==> ValidRecord(p, s[h][p])
  }

  // ---- Every sequence of operations --------------------------------------------

  datatype Op =
    | AnnounceOp(args: AnnounceArgs)
    | RemoveOp(infoHash: IdArg, peerId: IdArg)
    | ExpireOp(timeout: real, now: real)

  function Step(s: Swarms, op: Op, ipv4: Ipv4): Swarms {
    match op
    case AnnounceOp(args) =>
      (match Validate(args, ipv4)
       case Err(_) => s
       case Ok(a) => AnnounceState(s, a).0)
    case RemoveOp(infoHash, peerId) => Remove(s, infoHash, peerId).0
    case ExpireOp(timeout, now) => if timeout <= 0.0 || now < 0.0 then s else Unexpired(s, timeout, now)
  }

  /** The swarms after a history of operations, oldest first. */
  function Run(ops: seq<Op>, ipv4: Ipv4): Swarms {
    if ops == [] then map[] else Step(Run(ops[..|ops| - 1], ipv4), ops[|ops| - 1], ipv4)
  }

  lemma ValidatedAnnouncement(args: AnnounceArgs, ipv4: Ipv4)
    requires Validate(args, ipv4).Ok?
    ensures var a := Validate(args, ipv4).value;
      && |a.infoHash| == 20 && ValidRecord(a.peer.peerId, a.peer) && ValidEvent(a.event)
      && (a.event == "completed" ==> a.peer.left == 0)
  {
  }

  /** A peer id given as text stands for its UTF-8 bytes, and is refused unless there are 20 of them. */
  lemma TextPeerIds(text: string, id: Bytes)
    ensures PeerIdOf(TextId(text)) == Some(id) <==> |id| == 20 && Utf8.Decode(id) == Some(text)
  {
    hide Utf8.Encode, Utf8.Decode;
    Utf8.DecodeEncode(text);
    if Utf8.Decode(id).Some? { Utf8.EncodeDecode(id); }
  }

  /** The hexadecimal form of an info hash, its letters in any case, names the same torrent as its bytes. */
  lemma HexHashIsRawHash(h: Digest, text: string)
    requires PyText.Lower(text) == Hex(h)
    ensures InfoHashOf(TextId(text)) == InfoHashOf(BytesId(h)) == Some(h)
  {
    hide FromHex, Hex, PyText.Lower;
    FromHexOfHex(h);
    FromHexIgnoresCase(text);
    assert |text| == |PyText.Lower(text)|;
  }

  /**
   * An announce is valid exactly when its ids, address, numbers, event and time all are; what
   * it stores is what it was given, but for the normalized address and `left` after `completed`.
   */
  lemma ValidAnnounces(args: AnnounceArgs, ipv4: Ipv4)
    ensures Validate(args, ipv4).Ok? <==>
      && InfoHashOf(args.infoHash).Some? && PeerIdOf(args.peerId).Some?
      && args.ip != "" && ipv4(args.ip).Some? && 1 <= args.port <= 65535
      && args.uploaded >= 0 && args.downloaded >= 0 && args.left >= 0
      && (args.event.None? || ValidEvent(args.event.value)) && args.now >= 0.0
    ensures Validate(args, ipv4).Ok? ==>
      var a := Validate(args, ipv4).value;
      && Some(a.infoHash) == InfoHashOf(args.infoHash) && Some(a.peer.peerId) == PeerIdOf(args.peerId)
      && Some(a.peer.ip) == ipv4(args.ip) && a.peer.port == args.port && a.peer.lastSeen == args.now
      && a.peer.uploaded == args.uploaded && a.peer.downloaded == args.downloaded
      && (a.event == "completed" ==> a.peer.left == 0) && (a.event != "completed" ==> a.peer.left == args.left)
      && (args.event == Some(a.event) || (args.event == None && a.event == ""))
  {
    hide InfoHashOf, PeerIdOf;
  }

  /** A refused announce is told of a fault that it has; nothing before that one was wrong. */
  lemma RefusalNamesTheFault(s: Swarms, args: AnnounceArgs, ipv4: Ipv4)
    ensures var r := Announce(s, args, ipv4).1;
      var goodIds := InfoHashOf(args.infoHash).Some? && PeerIdOf(args.peerId).Some?;
      var goodAddress := goodIds && args.ip != "" && ipv4(args.ip).Some? && 1 <= args.port <= 65535;
      var goodCounters := goodAddress && args.uploaded >= 0 && args.downloaded >= 0 && args.left >= 0;
      r.Err? ==>
        match r.error
        case BadInfoHash => InfoHashOf(args.infoHash).None?
        case BadPeerId => InfoHashOf(args.infoHash).Some? && PeerIdOf(args.peerId).None?
        case BadIp => goodIds && (args.ip == "" || ipv4(args.ip).None?)
        case BadPort => goodIds && ipv4(args.ip).Some? && !(1 <= args.port <= 65535)
        case BadUploaded => goodAddress && args.uploaded < 0
        case BadDownloaded => goodAddress && args.uploaded >= 0 && args.downloaded < 0
        case BadLeft => goodAddress && args.uploaded >= 0 && args.downloaded >= 0 && args.left < 0
        case BadEvent => goodCounters && args.event.Some? && !ValidEvent(args.event.value)
        case BadTimestamp => goodCounters && args.now < 0.0
        case BadTimeout => false
        case FirstAnnounceNotStarted =>
          && goodCounters && args.event != Some("started") && args.event != Some("stopped")
          && Find(s, InfoHashOf(args.infoHash).value, PeerIdOf(args.peerId).value).None?
  {
    hide InfoHashOf, PeerIdOf, Find, With, Without, ReplyFor;
  }

  lemma StepKeepsInv(s: Swarms, op: Op, ipv4: Ipv4)
    requires Inv(s)
    ensures Inv(Step(s, op, ipv4))
  {
    hide Validate, ValidRecord, InfoHashOf, PeerIdOf;
    match op
    case AnnounceOp(args) =>
      if Validate(args, ipv4).Ok? {
        ValidatedAnnouncement(args, ipv4);
        var a := Validate(args, ipv4).value;
        if a.event == "stopped" { WithoutKeepsInv(s, a.infoHash, a.peer.peerId); }
        else { WithKeepsInv(s, a.infoHash, a.peer); }
      }
    case RemoveOp(infoHash, peerId) =>
      if InfoHashOf(infoHash).Some? && PeerIdOf(peerId).Some? {
        WithoutKeepsInv(s, InfoHashOf(infoHash).value, PeerIdOf(peerId).value);
      }
    case ExpireOp(timeout, now) =>
  }

  lemma WithoutKeepsInv(s: Swarms, h: Bytes, p: Bytes)
    requires Inv(s)
    ensures Inv(Without(s, h, p))
  {
    hide ValidRecord;
  }

  lemma WithKeepsInv(s: Swarms, h: Bytes, peer: Peer)
    requires Inv(s) && |h| == 20 && ValidRecord(peer.peerId, peer)
    ensures Inv(With(s, h, peer))
  {
    hide ValidRecord;
    assert peer.peerId in With(s, h, peer)[h];
  }

  /** The tracker invariant holds after every history. */
  lemma {:induction false} RunKeepsInv(ops: seq<Op>, ipv4: Ipv4)
    ensures Inv(Run(ops, ipv4))
  {
    if ops != [] {
      RunKeepsInv(ops[..|ops| - 1], ipv4);
      StepKeepsInv(Run(ops[..|ops| - 1], ipv4), ops[|ops| - 1], ipv4);
    }
  }

  /**
   * What one peer's record becomes under one operation, looking at nothing else: its last
   * accepted announce, until it is stopped, removed or expired.
   */
  function RecordStep(record: Option<Peer>, op: Op, h: Bytes, p: Bytes, ipv4: Ipv4): Option<Peer> {
    match op
    case AnnounceOp(args) =>
      (match Validate(args, ipv4)
       case Err(_) => record
       case Ok(a) =>
         if a.infoHash != h || a.peer.peerId != p then record
         else if a.event == "stopped" then None
         else if record.None? && a.event != "started" then None
         else Some(a.peer))
    case RemoveOp(infoHash, peerId) =>
      if InfoHashOf(infoHash) == Some(h) && PeerIdOf(peerId) == Some(p) then None else record
    case ExpireOp(timeout, now) =>
      if timeout > 0.0 && now >= 0.0 && record.Some? && IsExpired(record.value, timeout, now)
      then None else record
  }

  function RecordAfter(ops: seq<Op>, h: Bytes, p: Bytes, ipv4: Ipv4): Option<Peer> {
    if ops == [] then None
    else RecordStep(RecordAfter(ops[..|ops| - 1], h, p, ipv4), ops[|ops| - 1], h, p, ipv4)
  }

  lemma StepIsPerPeer(s: Swarms, op: Op, h: Bytes, p: Bytes, ipv4: Ipv4)
    ensures Find(Step(s, op, ipv4), h, p) == RecordStep(Find(s, h, p), op, h, p, ipv4)
  {
    hide InfoHashOf, PeerIdOf, Validate, Find, With, Without, Unexpired;
    match op
    case AnnounceOp(args) =>
      if Validate(args, ipv4).Ok? {
        var a := Validate(args, ipv4).value;
        WithoutFinds(s, a.infoHash, a.peer.peerId, h, p);
        WithFinds(s, a.infoHash, a.peer, h, p);
      }
    case RemoveOp(infoHash, peerId) =>
      if InfoHashOf(infoHash).Some? && PeerIdOf(peerId).Some? {
        WithoutFinds(s, InfoHashOf(infoHash).value, PeerIdOf(peerId).value, h, p);
      }
    case ExpireOp(timeout, now) => UnexpiredFinds(s, timeout, now, h, p);
  }

  lemma WithoutFinds(s: Swarms, h: Bytes, p: Bytes, h': Bytes, p': Bytes)
    ensures Find(Without(s, h, p), h', p') == if h == h' && p == p' then None else Find(s, h', p')
  {
    if h in s && p' in s[h] && p' != p { assert p' in s[h] - {p}; }
  }

  lemma WithFinds(s: Swarms, h: Bytes, peer: Peer, h': Bytes, p': Bytes)
    ensures Find(With(s, h, peer), h', p') == if h == h' && peer.peerId == p' then Some(peer) else Find(s, h', p')
  {
  }

  lemma UnexpiredFinds(s: Swarms, timeout: real, now: real, h: Bytes, p: Bytes)
    ensures Find(Unexpired(s, timeout, now), h, p) ==
      if Find(s, h, p).Some? && !IsExpired(Find(s, h, p).value, timeout, now) then Find(s, h, p) else None
  {
    if h in s && p in s[h] && !IsExpired(s[h][p], timeout, now) { assert p in Fresh(s[h], timeout, now); }
  }

  /**
   * The two-level map is exactly one independent record per (info hash, peer id): no
   * operation on one peer or swarm ever shows in another.
   */
  lemma {:induction false} RunIsPerPeer(ops: seq<Op>, h: Bytes, p: Bytes, ipv4: Ipv4)
    ensures Find(Run(ops, ipv4), h, p) == RecordAfter(ops, h, p, ipv4)
  {
    if ops != [] {
      RunIsPerPeer(ops[..|ops| - 1], h, p, ipv4);
      StepIsPerPeer(Run(ops[..|ops| - 1], ipv4), ops[|ops| - 1], h, p, ipv4);
    }
  }

  /** The operation is a valid announce by this peer for this torrent. */
  predicate IsAnnounceBy(op: Op, h: Bytes, p: Bytes, ipv4: Ipv4) {
    && op.AnnounceOp? && Validate(op.args, ipv4).Ok?
    && InfoHashOf(op.args.infoHash) == Some(h) && PeerIdOf(op.args.peerId) == Some(p)
  }

  /** The record holds what the peer said of itself in this announce. */
  predicate Holds(record: Peer, args: AnnounceArgs, p: Bytes, ipv4: Ipv4) {
    && record.peerId == p && Some(record.ip) == ipv4(args.ip) && record.port == args.port
    && record.uploaded == args.uploaded && record.downloaded == args.downloaded
    && record.left == (if args.event == Some("completed") then 0 else args.left) && record.lastSeen == args.now
  }

  /** A record is always what its peer said in the last valid announce it made, which was not `stopped`. */
  lemma {:induction false} RecordIsLastAnnounce(ops: seq<Op>, h: Bytes, p: Bytes, ipv4: Ipv4) returns (k: nat)
    requires RecordAfter(ops, h, p, ipv4).Some?
    ensures k < |ops| && IsAnnounceBy(ops[k], h, p, ipv4) && ops[k].args.event != Some("stopped")
    ensures forall j :: k < j < |ops| ==> !IsAnnounceBy(ops[j], h, p, ipv4)
    ensures Holds(RecordAfter(ops, h, p, ipv4).value, ops[k].args, p, ipv4)
  {
    hide Validate, InfoHashOf, PeerIdOf, Holds;
    var front, last := ops[..|ops| - 1], ops[|ops| - 1];
    RecordMoves(RecordAfter(front, h, p, ipv4), last, h, p, ipv4);
    if IsAnnounceBy(last, h, p, ipv4) {
      k := |ops| - 1;
    } else {
      k := RecordIsLastAnnounce(front, h, p, ipv4);
    }
  }

  lemma RecordMoves(record: Option<Peer>, op: Op, h: Bytes, p: Bytes, ipv4: Ipv4)
    ensures var after := RecordStep(record, op, h, p, ipv4);
      after.Some? ==>
        if IsAnnounceBy(op, h, p, ipv4)
        then op.args.event != Some("stopped") && Holds(after.value, op.args, p, ipv4)
        else record == after
  {
    hide InfoHashOf, PeerIdOf, Validate;
    if op.AnnounceOp? { ValidAnnounces(op.args, ipv4); }
  }

  /** `remove_peer` takes out that peer's record, says whether there was one, and touches no other. */
  lemma RemoveIsExact(s: Swarms, infoHash: IdArg, peerId: IdArg)
    requires InfoHashOf(infoHash).Some? && PeerIdOf(peerId).Some?
    ensures var h, p := InfoHashOf(infoHash).value, PeerIdOf(peerId).value;
      var (after, removed) := Remove(s, infoHash, peerId);
      && (removed == Ok(true) <==> Find(s, h, p).Some?) && (removed == Ok(false) <==> Find(s, h, p).None?)
      && forall h', p' :: Find(after, h', p') == if h' == h && p' == p then None else Find(s, h', p')
  {
    hide InfoHashOf, PeerIdOf, Find, Without;
    var h, p := InfoHashOf(infoHash).value, PeerIdOf(peerId).value;
    forall h', p' ensures Find(Without(s, h, p), h', p') == if h' == h && p' == p then None else Find(s, h', p') {
      WithoutFinds(s, h, p, h', p');
    }
  }

  // ---- Replies -----------------------------------------------------------------

  function InfoIds(peers: seq<PeerInfo>): (ids: seq<Bytes>)
    ensures |ids| == |peers|
    ensures forall k :: 0 <= k < |ids| ==> ids[k] == peers[k].peerId
  {
    seq(|peers|, k requires 0 <= k < |peers| => peers[k].peerId)
  }

  /** The entry tells the other peers where this record's peer listens. */
  predicate Describes(entry: PeerInfo, peer: Peer) {
    entry.peerId == peer.peerId && entry.ip == peer.ip && entry.port == peer.port
  }

  /**
   * Every accepted announce is answered with a strictly sorted list of everybody else in
   * the swarm, each with its own id, address and port, and with counts that add up to it:
   * one more than the list, or exactly its length after `stopped`. Complete are the records
   * with nothing left.
   */
  lemma ReplyShape(s: Swarms, args: AnnounceArgs, ipv4: Ipv4)
    requires Inv(s)
    ensures Announce(s, args, ipv4).1.Ok? ==>
      var (after, r) := Announce(s, args, ipv4);
      var a := Validate(args, ipv4).value;
      && Inv(after)
      && StrictlySorted(InfoIds(r.value.peers))
      && (forall id :: id in InfoIds(r.value.peers) <==> id != a.peer.peerId && Find(after, a.infoHash, id).Some?)
      && (forall k :: 0 <= k < |r.value.peers| ==>
            Find(after, a.infoHash, r.value.peers[k].peerId).Some?
            && Describes(r.value.peers[k], Find(after, a.infoHash, r.value.peers[k].peerId).value))
      && r.value.complete + r.value.incomplete
           == |r.value.peers| + (if a.event == "stopped" then 0 else 1)
      && (a.infoHash !in after ==> r.value.complete == 0)
      && (a.infoHash in after ==>
            r.value.complete == |set id | id in after[a.infoHash] && after[a.infoHash][id].left == 0|)
  {
    hide Validate, Inv, Find, With, Without, Listing, CompleteIds, Describes;
    if Announce(s, args, ipv4).1.Ok? {
      var a := Validate(args, ipv4).value;
      var (after, r) := Announce(s, args, ipv4);
      StepKeepsInv(s, AnnounceOp(args), ipv4);
      ListingShape(after, a.infoHash, a.peer.peerId);
      CompleteAreCounted(after, a.infoHash);
      WithoutFinds(s, a.infoHash, a.peer.peerId, a.infoHash, a.peer.peerId);
      WithFinds(s, a.infoHash, a.peer, a.infoHash, a.peer.peerId);
    }
  }

  lemma CompleteAreCounted(s: Swarms, h: Bytes)
    ensures h !in s ==> CompleteIds(SwarmOf(s, h)) == {}
    ensures h in s ==> CompleteIds(SwarmOf(s, h)) == set id | id in s[h] && s[h][id].left == 0
  {
  }

  lemma InfoDescribes(peer: Peer)
    ensures Describes(InfoOf(peer), peer) && InfoOf(peer).peerId == peer.peerId
  {
  }

  lemma ListingShape(s: Swarms, h: Bytes, requester: Bytes)
    requires Inv(s)
    ensures var swarm := SwarmOf(s, h);
      var peers := Listing(swarm, requester);
      && StrictlySorted(InfoIds(peers))
      && (forall id :: id in InfoIds(peers) <==> id != requester && Find(s, h, id).Some?)
      && (forall k :: 0 <= k < |peers| ==>
            Find(s, h, peers[k].peerId).Some? && Describes(peers[k], Find(s, h, peers[k].peerId).value))
      && |swarm| == |peers| + (if Find(s, h, requester).Some? then 1 else 0)
  {
    hide InfoOf, Describes;
    var swarm := SwarmOf(s, h);
    var others := swarm.Keys - {requester};
    var ids := SortedIds(others);
    forall k | 0 <= k < |ids| ensures ids[k] in others {
      assert ids[k] in ids;
    }
    forall p | p in swarm ensures InfoOf(swarm[p]).peerId == p && Describes(InfoOf(swarm[p]), swarm[p]) {
      InfoDescribes(swarm[p]);
      assert ValidRecord(p, swarm[p]);
    }
    assert InfoIds(Listing(swarm, requester)) == ids;
    if requester in swarm { assert swarm.Keys == others + {requester}; } else { assert swarm.Keys == others; }
  }

  // ---- Expiry ------------------------------------------------------------------

  /**
   * Expiry is an exact filter: a record survives, unchanged, exactly when it has been seen
   * within the timeout, and a swarm survives exactly when one of its records does.
   */
  lemma ExpiryIsExact(s: Swarms, timeout: real, now: real)
    requires Inv(s)
    ensures var after := Unexpired(s, timeout, now);
      && (forall h, p :: Find(after, h, p) ==
            if Find(s, h, p).Some? && now - Find(s, h, p).value.lastSeen <= timeout then Find(s, h, p) else None)
      && (forall h :: h in after <==> exists p :: Find(after, h, p).Some?)
      && (forall h :: h in after ==> h in s)
  {
    var after := Unexpired(s, timeout, now);
    forall h, p ensures Find(after, h, p) ==
      if Find(s, h, p).Some? && now - Find(s, h, p).value.lastSeen <= timeout then Find(s, h, p) else None
    {
      UnexpiredFinds(s, timeout, now, h, p);
    }
    forall h | h in after ensures exists p :: Find(after, h, p).Some? {
      assert after[h].Keys != {};
      var p :| p in after[h].Keys;
      assert Find(after, h, p).Some?;
    }
  }
}
