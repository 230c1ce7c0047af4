/**
 * The Bencoded announce reply, from the tracker's dictionary (tracker/tracker_server.py) to
 * the response the client builds out of arbitrary bytes (peer/tracker_client.py).
 */
module TrackerReply {
  import opened Wrappers
  import opened ByteStrings
  import opened BencodeEncoder
  import opened BencodeCanonical
  import BencodeParser
  import BencodeRoundTrip
  import T = TrackerSpec
  import Utf8

  // ---- The tracker side --------------------------------------------------------

  function PeerValue(p: T.PeerInfo): Value {
    Dict([Entry(TextKey("peer_id"), Raw(p.peerId)),
          Entry(TextKey("ip"), Text(p.ip)),
          Entry(TextKey("port"), Int(p.port))])
  }

  function PeerValues(peers: seq<T.PeerInfo>): (values: seq<Value>)
    ensures |values| == |peers|
  {
    seq(|peers|, k requires 0 <= k < |peers| => PeerValue(peers[k]))
  }

  /** The dictionary `do_GET` assembles for an accepted announce. */
  function ReplyValue(interval: int, reply: T.Reply): Value {
    Dict([Entry(TextKey("interval"), Int(interval)),
          Entry(TextKey("complete"), Int(reply.complete)),
          Entry(TextKey("incomplete"), Int(reply.incomplete)),
          Entry(TextKey("peers"), List(PeerValues(reply.peers)))])
  }

  /** The dictionary of `_send_failure`. */
  function FailureValue(reason: string): Value {
    Dict([Entry(TextKey("failure reason"), Text(reason))])
  }

  // ---- The client side ---------------------------------------------------------

  datatype TrackerPeer = TrackerPeer(peerId: Bytes, ip: string, port: int)

  datatype TrackerResponse = TrackerResponse(
    interval: int, complete: int, incomplete: int, peers: seq<TrackerPeer>)

  datatype ReplyError =
    | Undecodable(error: Error)
    | RootNotDictionary
    | ExtraFailureKeys
    | TrackerFailure(reason: string)
    | MissingField(name: string) | NotAnInteger(name: string) | BelowMinimum(name: string)
    | NotBytes | NotUtf8
    | PeersNotList
    | PeerNotDictionary(index: nat) | BadPeerId(index: nat) | PortNotInteger(index: nat) | PortOutOfRange(index: nat)

  /** `payload.get(key)` on a decoded dictionary. */
  function Lookup(pairs: seq<Pair>, key: Bytes): Option<Tree> {
    if pairs == [] then None
    else if pairs[0].key == key then Some(pairs[0].value)
    else Lookup(pairs[1..], key)
  }

  /** `_require_int`: the decoder never makes a bool, so a number is an int. */
  function RequireInt(pairs: seq<Pair>, name: string, minimum: int): Result<int, ReplyError> {
    match Lookup(pairs, Utf8.Encode(name))
    case None => Err(MissingField(name))
    case Some(Number(n)) => if n < minimum then Err(BelowMinimum(name)) else Ok(n)
    case Some(_) => Err(NotAnInteger(name))
  }

  /** `_decode_text`; an absent value is not bytes either. */
  function DecodeText(value: Option<Tree>): Result<string, ReplyError> {
    match value
    case Some(Str(data)) =>
      (match Utf8.Decode(data)
       case None => Err(NotUtf8)
       case Some(text) => Ok(text))
    case _ => Err(NotBytes)
  }

  /** One turn of the peer loop. */
  function ParsePeer(raw: Tree, index: nat): Result<TrackerPeer, ReplyError> {
    if !raw.Map? then Err(PeerNotDictionary(index))
    else
      var peerId := Lookup(raw.pairs, Utf8.Encode("peer_id"));
      if peerId.None? || !peerId.value.Str? || |peerId.value.data| != 20 then Err(BadPeerId(index))
      else match DecodeText(Lookup(raw.pairs, Utf8.Encode("ip")))
        case Err(e) => Err(e)
        case Ok(ip) =>
          match Lookup(raw.pairs, Utf8.Encode("port"))
          case Some(Number(port)) =>
            if 1 <= port <= 65535 then Ok(TrackerPeer(peerId.value.data, ip, port)) else Err(PortOutOfRange(index))
          case _ => Err(PortNotInteger(index))
  }

  /** The first `n` peers, or the first error among them. */
  function ParsePeers(raw: seq<Tree>, n: nat): (r: Result<seq<TrackerPeer>, ReplyError>)
    requires n <= |raw|
    ensures r.Ok? ==> |r.value| == n
  {
    if n == 0 then Ok([])
    else match ParsePeers(raw, n - 1)
      case Err(e) => Err(e)
      case Ok(peers) =>
        match ParsePeer(raw[n - 1], n - 1)
        case Err(e) => Err(e)
        case Ok(peer) => Ok(peers + [peer])
  }

  function ParsePayload(pairs: seq<Pair>): Result<TrackerResponse, ReplyError> {
    var failure := Lookup(pairs, Utf8.Encode("failure reason"));
    if failure.Some? then
      if |pairs| != 1 then Err(ExtraFailureKeys)
      else match DecodeText(failure)
        case Err(e) => Err(e)
        case Ok(reason) => Err(TrackerFailure(reason))
    else match RequireInt(pairs, "interval", 1)
      case Err(e) => Err(e)
      case Ok(interval) =>
    match RequireInt(pairs, "complete", 0)
      case Err(e) => Err(e)
      case Ok(complete) =>
    match RequireInt(pairs, "incomplete", 0)
      case Err(e) => Err(e)
      case Ok(incomplete) =>
    match Lookup(pairs, Utf8.Encode("peers"))
      case Some(Seq(raw)) =>
        (match ParsePeers(raw, |raw|)
         case Err(e) => Err(e)
         case Ok(peers) => Ok(TrackerResponse(interval, complete, incomplete, peers)))
      case _ => Err(PeersNotList)
  }

  /** `parse_tracker_response(data)`. */
  function ParseTrackerResponse(data: Bytes): Result<TrackerResponse, ReplyError> {
    match BencodeParser.Bdecode(data)
    case Err(e) => Err(Undecodable(e))
    case Ok(Map(pairs)) => ParsePayload(pairs)
    case Ok(_) => Err(RootNotDictionary)
  }

  /** `parse_tracker_response(data)`, step by step. */
  method ReadResponse(data: Bytes) returns (r: Result<TrackerResponse, ReplyError>)
    ensures r == ParseTrackerResponse(data)
  {
    hide Lookup, RequireInt, DecodeText, Utf8.Encode, ParsePeers, BencodeParser.Bdecode;
    var parser := new BencodeParser.Parser(data);
    var decoded := parser.Parse();
    if decoded.Err? { return Err(Undecodable(decoded.error)); }
    if !decoded.value.Map? { return Err(RootNotDictionary); }
    var payload := decoded.value.pairs;
    var failure := Lookup(payload, Utf8.Encode("failure reason"));
    if failure.Some? {
      if |payload| != 1 { return Err(ExtraFailureKeys); }
      var reason := DecodeText(failure);
      return if reason.Err? then Err(reason.error) else Err(TrackerFailure(reason.value));
    }
    var interval := RequireInt(payload, "interval", 1);
    if interval.Err? { return Err(interval.error); }
    var complete := RequireInt(payload, "complete", 0);
    if complete.Err? { return Err(complete.error); }
    var incomplete := RequireInt(payload, "incomplete", 0);
    if incomplete.Err? { return Err(incomplete.error); }
    var rawPeers := Lookup(payload, Utf8.Encode("peers"));
    if rawPeers.None? || !rawPeers.value.Seq? { return Err(PeersNotList); }
    var peers := ReadPeers(rawPeers.value.items);
    if peers.Err? { return Err(peers.error); }
    r := Ok(TrackerResponse(interval.value, complete.value, incomplete.value, peers.value));
  }

  /** The peer loop of `parse_tracker_response`. */
  method ReadPeers(raw: seq<Tree>) returns (r: Result<seq<TrackerPeer>, ReplyError>)
    ensures r == ParsePeers(raw, |raw|)
  {
    hide Lookup, DecodeText, Utf8.Encode;
    var peers: seq<TrackerPeer> := [];
    for index := 0 to |raw|
      invariant ParsePeers(raw, index) == Ok(peers)
    {
      if !raw[index].Map? { PeersStop(raw, index, |raw|); return Err(PeerNotDictionary(index)); }
      var pairs := raw[index].pairs;
      var peerId := Lookup(pairs, Utf8.Encode("peer_id"));
      if peerId.None? || !peerId.value.Str? || |peerId.value.data| != 20 {
        PeersStop(raw, index, |raw|);
        return Err(BadPeerId(index));
      }
      var ip := DecodeText(Lookup(pairs, Utf8.Encode("ip")));
      if ip.Err? { PeersStop(raw, index, |raw|); return Err(ip.error); }
      var port := Lookup(pairs, Utf8.Encode("port"));
      if port.None? || !port.value.Number? { PeersStop(raw, index, |raw|); return Err(PortNotInteger(index)); }
      if !(1 <= port.value.n <= 65535) { PeersStop(raw, index, |raw|); return Err(PortOutOfRange(index)); }
      peers := peers + [TrackerPeer(peerId.value.data, ip.value, port.value.n)];
    }
    r := Ok(peers);
  }

  lemma {:induction false} PeersStop(raw: seq<Tree>, index: nat, n: nat)
    requires index < n <= |raw| && ParsePeers(raw, index).Ok? && ParsePeer(raw[index], index).Err?
    ensures ParsePeers(raw, n) == Err(ParsePeer(raw[index], index).error)
  {
    hide ParsePeer;
    if index < n - 1 { PeersStop(raw, index, n - 1); }
  }

  // ---- Looking a key up after encoding and decoding ----------------------------

  lemma {:induction false} LookupFinds(pairs: seq<Pair>, k: nat)
    requires StrictlySorted(PairKeys(pairs)) && k < |pairs|
    ensures Lookup(pairs, pairs[k].key) == Some(pairs[k].value)
  {
    if k > 0 {
      assert PairKeys(pairs)[0] == pairs[0].key && PairKeys(pairs)[k] == pairs[k].key;
      LessIsAsymmetric(pairs[0].key, pairs[k].key);
      assert PairKeys(pairs[1..]) == PairKeys(pairs)[1..];
      LookupFinds(pairs[1..], k - 1);
    }
  }

  lemma {:induction false} LookupMisses(pairs: seq<Pair>, key: Bytes)
    requires forall k :: 0 <= k < |pairs| ==> pairs[k].key != key
    ensures Lookup(pairs, key) == None
  {
    if pairs != [] { LookupMisses(pairs[1..], key); }
  }

  /** The entries all carry text keys, no two the same. */
  predicate TextKeyed(v: Value) {
    && v.Dict?
    && (forall k :: 0 <= k < |v.entries| ==> v.entries[k].key.TextKey?)
    && (forall i, j :: 0 <= i < j < |v.entries| ==> v.entries[i].key != v.entries[j].key)
  }

  lemma TextKeyedIsDistinct(v: Value)
    requires TextKeyed(v)
    ensures KeysSupported(v.entries) && Distinct(Keys(v.entries))
  {
    forall i, j | 0 <= i < j < |v.entries| ensures Keys(v.entries)[i] != Keys(v.entries)[j] {
      var s, t := v.entries[i].key.text, v.entries[j].key.text;
      if Utf8.Encode(s) == Utf8.Encode(t) { Utf8.EncodeIsInjective(s, t); }
    }
  }

  /** A program dictionary survives the wire as a dictionary from the same keys to the same values. */
  lemma LookupAfterWire(v: Value, i: nat)
    requires TextKeyed(v) && Supported(v) && KeysDistinct(v) && i < |v.entries|
    ensures Supported(v.entries[i].value) && Normalize(v).Map?
    ensures Lookup(Normalize(v).pairs, Utf8.Encode(v.entries[i].key.text)) == Some(Normalize(v.entries[i].value))
  {
    hide Supported, KeysDistinct, Normalize;
    var k := EntryInNormalForm(v, i);
    DictNormalForm(v);
    ChildIsEntry(v, i);
    LookupFinds(Normalize(v).pairs, k);
  }

  lemma ChildIsEntry(v: Value, i: nat)
    requires v.Dict? && i < |v.entries|
    ensures Children(v)[i] == v.entries[i].value
  {
  }

  lemma AbsentAfterWire(v: Value, name: string)
    requires TextKeyed(v) && Supported(v)
    requires forall k :: 0 <= k < |v.entries| ==> v.entries[k].key.text != name
    ensures Normalize(v).Map? && |Normalize(v).pairs| == |v.entries|
    ensures Lookup(Normalize(v).pairs, Utf8.Encode(name)) == None
  {
    SizeAfterWire(v);
    var pairs := Normalize(v).pairs;
    forall k | 0 <= k < |pairs| ensures pairs[k].key != Utf8.Encode(name) {
      var i := EntryOfNormalForm(v, k);
      var text := v.entries[i].key.text;
      if Utf8.Encode(text) == Utf8.Encode(name) { Utf8.EncodeIsInjective(text, name); }
    }
    LookupMisses(pairs, Utf8.Encode(name));
  }

  lemma SizeAfterWire(v: Value)
    requires v.Dict? && Supported(v)
    ensures Normalize(v).Map? && |Normalize(v).pairs| == |v.entries|
  {
  }

  // ---- The replies are printable -----------------------------------------------

  lemma FlatDictionary(v: Value)
    requires TextKeyed(v)
    requires forall k :: 0 <= k < |v.entries| ==> Supported(v.entries[k].value) && KeysDistinct(v.entries[k].value)
    ensures Supported(v) && KeysDistinct(v)
  {
    TextKeyedIsDistinct(v);
    forall k | 0 <= k < |Children(v)| ensures Supported(Children(v)[k]) && KeysDistinct(Children(v)[k]) {
      ChildIsEntry(v, k);
    }
  }

  lemma PeerValueIsPrintable(p: T.PeerInfo)
    ensures TextKeyed(PeerValue(p)) && Supported(PeerValue(p)) && KeysDistinct(PeerValue(p))
  {
    FlatDictionary(PeerValue(p));
  }

  lemma ReplyValueIsPrintable(interval: int, reply: T.Reply)
    ensures var v := ReplyValue(interval, reply); TextKeyed(v) && Supported(v) && KeysDistinct(v)
  {
    var peers := List(PeerValues(reply.peers));
    forall k | 0 <= k < |Children(peers)|
      ensures Supported(Children(peers)[k]) && KeysDistinct(Children(peers)[k])
    {
      PeerValueIsPrintable(reply.peers[k]);
    }
    assert Supported(peers) && KeysDistinct(peers);
    FlatDictionary(ReplyValue(interval, reply));
  }

  // ---- The round trip ----------------------------------------------------------

  predicate GoodPeer(p: T.PeerInfo) { |p.peerId| == 20 && 1 <= p.port <= 65535 }

  function AsTrackerPeer(p: T.PeerInfo): TrackerPeer { TrackerPeer(p.peerId, p.ip, p.port) }

  /** A leaf of a program dictionary after the wire. */
  lemma LeafComesBack(v: Value, i: nat, name: string)
    requires TextKeyed(v) && Supported(v) && KeysDistinct(v) && i < |v.entries|
    requires v.entries[i].key == TextKey(name)
    ensures Normalize(v).Map?
    ensures var leaf, found := v.entries[i].value, Lookup(Normalize(v).pairs, Utf8.Encode(name));
      && (leaf.Int? ==> found == Some(Number(leaf.n)))
      && (leaf.Raw? ==> found == Some(Str(leaf.data)))
      && (leaf.Text? ==> found == Some(Str(Utf8.Encode(leaf.text))))
  {
    hide Supported, KeysDistinct, Lookup, TextKeyed;
    LookupAfterWire(v, i);
  }

  lemma TextComesBack(text: string)
    ensures DecodeText(Some(Str(Utf8.Encode(text)))) == Ok(text)
  {
    Utf8.DecodeEncode(text);
  }

  lemma PeerComesBack(p: T.PeerInfo, index: nat)
    ensures Supported(PeerValue(p))
    ensures var r := ParsePeer(Normalize(PeerValue(p)), index);
      if GoodPeer(p) then r == Ok(AsTrackerPeer(p)) else r.Err?
  {
    hide Supported, KeysDistinct, Lookup, TextKeyed, Normalize, DecodeText, Utf8.Encode;
    var v := PeerValue(p);
    PeerValueIsPrintable(p);
    LeafComesBack(v, 0, "peer_id");
    LeafComesBack(v, 1, "ip");
    LeafComesBack(v, 2, "port");
    TextComesBack(p.ip);
  }

  lemma {:induction false} PeersComeBack(peers: seq<T.PeerInfo>, raw: seq<Tree>, n: nat)
    requires n <= |peers| == |raw|
    requires forall k :: 0 <= k < |peers| ==>
      Supported(PeerValue(peers[k])) && raw[k] == Normalize(PeerValue(peers[k]))
    ensures var r := ParsePeers(raw, n);
      && (r.Ok? <==> forall k :: 0 <= k < n ==> GoodPeer(peers[k]))
      && (r.Ok? ==> forall k :: 0 <= k < n ==> r.value[k] == AsTrackerPeer(peers[k]))
  {
    hide ParsePeer, Normalize, PeerValue, Supported, GoodPeer;
    if n > 0 {
      PeersComeBack(peers, raw, n - 1);
      PeerComesBack(peers[n - 1], n - 1);
    }
  }

  function TrackerPeers(peers: seq<T.PeerInfo>): (r: seq<TrackerPeer>)
    ensures |r| == |peers|
    ensures forall k :: 0 <= k < |r| ==> r[k] == AsTrackerPeer(peers[k])
  {
    seq(|peers|, k requires 0 <= k < |peers| => AsTrackerPeer(peers[k]))
  }

  predicate AllGood(peers: seq<T.PeerInfo>) { forall k :: 0 <= k < |peers| ==> GoodPeer(peers[k]) }

  lemma PeerListComesBack(peers: seq<T.PeerInfo>)
    ensures var v := List(PeerValues(peers));
      && Supported(v) && KeysDistinct(v) && Normalize(v).Seq?
      && var raw := Normalize(v).items;
         && (ParsePeers(raw, |raw|).Ok? <==> AllGood(peers))
         && (ParsePeers(raw, |raw|).Ok? ==> ParsePeers(raw, |raw|).value == TrackerPeers(peers))
  {
    hide Supported, KeysDistinct, Normalize, PeerValue;
    var v := List(PeerValues(peers));
    PeerListIsPrintable(peers);
    var raw := Normalize(v).items;
    assert forall k {:trigger raw[k]} :: 0 <= k < |peers| ==> Children(v)[k] == PeerValue(peers[k]);
    PeersComeBack(peers, raw, |raw|);
  }

  lemma PeerListIsPrintable(peers: seq<T.PeerInfo>)
    ensures var v := List(PeerValues(peers));
      && Supported(v) && KeysDistinct(v) && Normalize(v).Seq? && |Normalize(v).items| == |peers|
      && forall k :: 0 <= k < |peers| ==>
           Supported(PeerValue(peers[k])) && Normalize(v).items[k] == Normalize(PeerValue(peers[k]))
  {
    hide PeerValue;
    var v := List(PeerValues(peers));
    forall k | 0 <= k < |peers|
      ensures Supported(PeerValue(peers[k])) && KeysDistinct(PeerValue(peers[k]))
      ensures Children(v)[k] == PeerValue(peers[k])
    {
      PeerValueIsPrintable(peers[k]);
    }
  }

  lemma PayloadComesBack(interval: int, reply: T.Reply)
    ensures var v := ReplyValue(interval, reply);
      && Supported(v) && Normalize(v).Map?
      && var r := ParsePayload(Normalize(v).pairs);
         if interval < 1 then r == Err(BelowMinimum("interval"))
         else if AllGood(reply.peers)
         then r == Ok(TrackerResponse(interval, reply.complete, reply.incomplete, TrackerPeers(reply.peers)))
         else r.Err? && !r.error.TrackerFailure?
  {
    hide Supported, KeysDistinct, Lookup, Normalize, TextKeyed, ParsePeers, AllGood, Utf8.Encode;
    var v := ReplyValue(interval, reply);
    ReplyValueIsPrintable(interval, reply);
    PeerListComesBack(reply.peers);
    LeafComesBack(v, 0, "interval");
    LeafComesBack(v, 1, "complete");
    LeafComesBack(v, 2, "incomplete");
    LookupAfterWire(v, 3);
    assert v.entries[3].key.text == "peers";
    NoFailureKey(interval, reply);
    var raw := Normalize(v.entries[3].value).items;
    PeersNeverFailure(raw, |raw|);
  }

  lemma NoFailureKey(interval: int, reply: T.Reply)
    ensures var v := ReplyValue(interval, reply);
      && Supported(v) && Normalize(v).Map?
      && Lookup(Normalize(v).pairs, Utf8.Encode("failure reason")) == None
  {
    hide Supported, KeysDistinct, Lookup, Normalize, Utf8.Encode;
    ReplyValueIsPrintable(interval, reply);
    AbsentAfterWire(ReplyValue(interval, reply), "failure reason");
  }

  lemma {:induction false} PeersNeverFailure(raw: seq<Tree>, n: nat)
    requires n <= |raw|
    ensures ParsePeers(raw, n).Err? ==> !ParsePeers(raw, n).error.TrackerFailure?
  {
    hide ParsePeer;
    if n > 0 {
      PeersNeverFailure(raw, n - 1);
      PeerNeverFailure(raw[n - 1], n - 1);
    }
  }

  lemma PeerNeverFailure(raw: Tree, index: nat)
    ensures ParsePeer(raw, index).Err? ==> !ParsePeer(raw, index).error.TrackerFailure?
  {
    hide Lookup, Utf8.Encode, Utf8.Decode;
  }

  /**
   * Any reply the tracker could assemble is printable, and the client takes it exactly when
   * the interval is positive and every peer has a 20-byte id and a port in 1..65535; it then
   * reads the same interval, counts and peers, in the same order.
   */
  lemma ReplyRoundTrip(interval: int, reply: T.Reply)
    ensures Bencode(ReplyValue(interval, reply)).Ok?
    ensures var r := ParseTrackerResponse(Bencode(ReplyValue(interval, reply)).value);
      && (r.Ok? <==> interval >= 1 && AllGood(reply.peers))
      && (r.Ok? ==> r.value == TrackerResponse(interval, reply.complete, reply.incomplete, TrackerPeers(reply.peers)))
      && (r.Err? ==> !r.error.TrackerFailure?)
  {
    var v := ReplyValue(interval, reply);
    hide Supported, KeysDistinct, Normalize, ParsePayload, Bencode, ReplyValue, AllGood, BencodeParser.Bdecode;
    ReplyValueIsPrintable(interval, reply);
    PayloadComesBack(interval, reply);
    BencodeRoundTrip.RoundTrip(v);
  }

  lemma FailureIsPrintable(reason: string)
    ensures var v := FailureValue(reason); TextKeyed(v) && Supported(v) && KeysDistinct(v)
  {
    FlatDictionary(FailureValue(reason));
  }

  /** Every failure reply reaches the caller as a failure carrying its reason. */
  lemma FailureRoundTrip(reason: string)
    ensures Bencode(FailureValue(reason)).Ok?
    ensures ParseTrackerResponse(Bencode(FailureValue(reason)).value) == Err(TrackerFailure(reason))
  {
    hide Supported, KeysDistinct, Bencode, Lookup, Normalize, DecodeText, Utf8.Encode, BencodeParser.Bdecode, TextKeyed;
    var v := FailureValue(reason);
    FailureIsPrintable(reason);
    LeafComesBack(v, 0, "failure reason");
    SizeAfterWire(v);
    TextComesBack(reason);
    BencodeRoundTrip.RoundTrip(v);
  }

  /** What an accepted response satisfies. */
  predicate ValidResponse(r: TrackerResponse) {
    && r.interval >= 1 && r.complete >= 0 && r.incomplete >= 0
    && forall k :: 0 <= k < |r.peers| ==> |r.peers[k].peerId| == 20 && 1 <= r.peers[k].port <= 65535
  }

  /**
   * Whatever bytes a tracker sends, an accepted response has a positive interval, counts that
   * are not negative, and peers with 20-byte ids and ports in 1..65535.
   */
  lemma AcceptedResponseIsValid(data: Bytes)
    ensures ParseTrackerResponse(data).Ok? ==> ValidResponse(ParseTrackerResponse(data).value)
  {
    hide BencodeParser.Bdecode, ParsePayload, ValidResponse;
    match BencodeParser.Bdecode(data)
    case Ok(Map(pairs)) => AcceptedPayloadIsValid(pairs);
    case _ =>
  }

  lemma AcceptedPayloadIsValid(pairs: seq<Pair>)
    ensures ParsePayload(pairs).Ok? ==> ValidResponse(ParsePayload(pairs).value)
  {
    hide Lookup, DecodeText, ParsePeers, RequireInt, Utf8.Encode;
    AtLeastMinimum(pairs, "interval", 1);
    AtLeastMinimum(pairs, "complete", 0);
    AtLeastMinimum(pairs, "incomplete", 0);
    match Lookup(pairs, Utf8.Encode("peers"))
    case Some(Seq(raw)) => AcceptedPeersAreValid(raw, |raw|);
    case _ =>
  }

  lemma AtLeastMinimum(pairs: seq<Pair>, name: string, minimum: int)
    ensures RequireInt(pairs, name, minimum).Ok? ==> RequireInt(pairs, name, minimum).value >= minimum
  {
    hide Lookup, Utf8.Encode;
  }

  lemma {:induction false} AcceptedPeersAreValid(raw: seq<Tree>, n: nat)
    requires n <= |raw|
    ensures var r := ParsePeers(raw, n);
      r.Ok? ==> forall k :: 0 <= k < |r.value| ==> |r.value[k].peerId| == 20 && 1 <= r.value[k].port <= 65535
  {
    hide Lookup, DecodeText, Utf8.Encode;
    if n > 0 { AcceptedPeersAreValid(raw, n - 1); }
  }

  // ---- From every reachable tracker state --------------------------------------

  lemma ListedPeersAreGood(s: T.Swarms, args: T.AnnounceArgs, ipv4: T.Ipv4)
    requires T.Inv(s)
    ensures T.Announce(s, args, ipv4).1.Ok? ==> AllGood(T.Announce(s, args, ipv4).1.value.peers)
  {
    T.ReplyShape(s, args, ipv4);
    if T.Announce(s, args, ipv4).1.Ok? {
      var (after, r) := T.Announce(s, args, ipv4);
      AnnounceIsValid(s, args, ipv4);
      var h := T.Validate(args, ipv4).value.infoHash;
      hide T.Announce, T.Validate;
      forall k | 0 <= k < |r.value.peers| ensures GoodPeer(r.value.peers[k]) {
        var p := r.value.peers[k].peerId;
        assert T.Describes(r.value.peers[k], T.Find(after, h, p).value);
        assert T.ValidRecord(p, after[h][p]);
      }
    }
  }

  lemma AnnounceIsValid(s: T.Swarms, args: T.AnnounceArgs, ipv4: T.Ipv4)
    requires T.Announce(s, args, ipv4).1.Ok?
    ensures T.Validate(args, ipv4).Ok?
  {
    hide T.Validate;
  }

  /**
   * After any history of announces, removals and expiries, the reply to an accepted announce
   * is read by the client as exactly the interval, counts and peers the tracker gave.
   */
  lemma ReachableReplyRoundTrip(ops: seq<T.Op>, args: T.AnnounceArgs, ipv4: T.Ipv4, interval: int)
    requires T.Announce(T.Run(ops, ipv4), args, ipv4).1.Ok? && interval >= 1
    ensures var reply := T.Announce(T.Run(ops, ipv4), args, ipv4).1.value;
      && Bencode(ReplyValue(interval, reply)).Ok?
      && ParseTrackerResponse(Bencode(ReplyValue(interval, reply)).value)
           == Ok(TrackerResponse(interval, reply.complete, reply.incomplete, TrackerPeers(reply.peers)))
  {
    hide T.Announce, T.Inv, Bencode, ParseTrackerResponse, ReplyValue, AllGood, T.Run;
    T.RunKeepsInv(ops, ipv4);
    ListedPeersAreGood(T.Run(ops, ipv4), args, ipv4);
    ReplyRoundTrip(interval, T.Announce(T.Run(ops, ipv4), args, ipv4).1.value);
  }
}
