/**
 * tracker/tracker_state.py: the class, proved against the state machine of TrackerSpec.
 * Every method holds one lock, so each call is one atomic step.
 */
module TrackerStates {
  import opened Wrappers
  import opened ByteStrings
  import opened TrackerSpec

  class TrackerState {
    const ipv4: Ipv4
    var swarms: Swarms

    constructor (ipv4: Ipv4)
      ensures this.ipv4 == ipv4 && swarms == map[] && Inv(swarms)
    {
      this.ipv4 := ipv4;
      swarms := map[];
    }

    /** Register, refresh, complete or stop a peer. */
    method AnnouncePeer(args: AnnounceArgs) returns (r: Result<Reply, StateError>)
      requires Inv(swarms)
      modifies this
      ensures Inv(swarms) && (swarms, r) == Announce(old(swarms), args, ipv4)
    {
      hide Validate, Inv;
      StepKeepsInv(swarms, AnnounceOp(args), ipv4);
      var validated := Validate(args, ipv4);
      if validated.Err? { return Err(validated.error); }
      var h, event, peer := validated.value.infoHash, validated.value.event, validated.value.peer;
      if event == "stopped" {
        if h in swarms {
          var swarm := swarms[h] - {peer.peerId};
          swarms := if swarm == map[] then swarms - {h} else swarms[h := swarm];
        }
        var reply := BuildResponse(h, peer.peerId);
        return Ok(reply);
      }
      var isNew := h !in swarms || peer.peerId !in swarms[h];
      if isNew && event != "started" { return Err(FirstAnnounceNotStarted); }
      var swarm: Swarm := if h in swarms then swarms[h] else map[];
      swarms := swarms[h := swarm[peer.peerId := peer]];
      var reply := BuildResponse(h, peer.peerId);
      r := Ok(reply);
    }

    /** `_build_response_locked`. */
    method BuildResponse(h: Bytes, requester: Bytes) returns (reply: Reply)
      requires Inv(swarms)
      ensures reply == ReplyFor(swarms, h, requester)
    {
      var swarm: Swarm := SwarmOf(swarms, h);
      var complete := CountComplete(swarm);
      var peers := ListPeers(swarm, requester);
      SubsetSize(CompleteIds(swarm), swarm.Keys);
      reply := Reply(complete, |swarm| - complete, peers);
    }

    method RemovePeer(infoHash: IdArg, peerId: IdArg) returns (r: Result<bool, StateError>)
      requires Inv(swarms)
      modifies this
      ensures Inv(swarms) && (swarms, r) == Remove(old(swarms), infoHash, peerId)
    {
      hide Inv;
      StepKeepsInv(swarms, RemoveOp(infoHash, peerId), ipv4);
      if InfoHashOf(infoHash).None? { return Err(BadInfoHash); }
      if PeerIdOf(peerId).None? { return Err(BadPeerId); }
      var h, p := InfoHashOf(infoHash).value, PeerIdOf(peerId).value;
      if h !in swarms { return Ok(false); }
      var removed := p in swarms[h];
      var swarm := swarms[h] - {p};
      swarms := if swarm == map[] then swarms - {h} else swarms[h := swarm];
      r := Ok(removed);
    }

    /**
     * Remove and return, once each, precisely the peers not seen within the timeout, across
     * all swarms; every other record stays as it is.
     */
    method RemoveExpiredPeers(timeout: real, now: real) returns (r: Result<seq<ExpiredPeer>, StateError>)
      requires Inv(swarms)
      modifies this
      ensures Inv(swarms)
      ensures r.Err? <==> timeout <= 0.0 || now < 0.0
      ensures r.Err? ==> swarms == old(swarms)
      ensures r.Ok? ==> swarms == Unexpired(old(swarms), timeout, now)
      ensures r.Ok? ==> ListsExpired(r.value, old(swarms), old(swarms).Keys, timeout, now)
    {
      StepKeepsInv(swarms, ExpireOp(timeout, now), ipv4);
      if timeout <= 0.0 { return Err(BadTimeout); }
      if now < 0.0 { return Err(BadTimestamp); }
      ghost var before := swarms;
      var expired: seq<ExpiredPeer> := [];
      var todo := swarms.Keys;
      ExpireStart(before, timeout, now);
      hide Inv, ListsExpired, PartlyExpired, Unexpired, Fresh;
      while todo != {}
        invariant todo <= before.Keys
        invariant swarms == PartlyExpired(before, todo, timeout, now)
        invariant ListsExpired(expired, before, before.Keys - todo, timeout, now)
        decreases |todo|
      {
        var h :| h in todo;
        StillThere(before, todo, h, timeout, now);
        var swarm, gone := ExpireSwarm(h, swarms[h], timeout, now);
        ExpireOneMore(before, swarms, todo, h, expired, gone, timeout, now);
        swarms := if swarm == map[] then swarms - {h} else swarms[h := swarm];
        expired := expired + gone;
        todo := todo - {h};
      }
      ExpireEnd(before, timeout, now);
      assert before.Keys - todo == before.Keys;
      r := Ok(expired);
    }
  }

  /** `sum(1 for peer in swarm.values() if peer["left"] == 0)`. */
  method CountComplete(swarm: Swarm) returns (count: nat)
    ensures count == |CompleteIds(swarm)|
  {
    count := 0;
    var todo := swarm.Keys;
    assert CompleteIds(swarm) - todo == {};
    while todo != {}
      invariant todo <= swarm.Keys
      invariant count == |CompleteIds(swarm) - todo|
      decreases |todo|
    {
      var p :| p in todo;
      if swarm[p].left == 0 {
        assert CompleteIds(swarm) - (todo - {p}) == (CompleteIds(swarm) - todo) + {p};
        count := count + 1;
      } else {
        assert CompleteIds(swarm) - (todo - {p}) == CompleteIds(swarm) - todo;
      }
      todo := todo - {p};
    }
    assert CompleteIds(swarm) - {} == CompleteIds(swarm);
  }

  /** `_get_peers_locked`: collect everybody but the requester, then sort by id. */
  method ListPeers(swarm: Swarm, requester: Bytes) returns (peers: seq<PeerInfo>)
    requires forall p :: p in swarm ==> swarm[p].peerId == p
    ensures peers == Listing(swarm, requester)
  {
    peers := [];
    var todo := swarm.Keys;
    while todo != {}
      invariant todo <= swarm.Keys
      invariant forall k :: 0 <= k < |peers| ==>
        peers[k].peerId in swarm.Keys - todo - {requester} && peers[k] == InfoOf(swarm[peers[k].peerId])
      invariant forall p :: p in swarm.Keys - todo - {requester} ==> p in InfoIds(peers)
      invariant Distinct(InfoIds(peers))
      decreases |todo|
    {
      var p :| p in todo;
      if p != requester {
        ghost var ids := InfoIds(peers);
        peers := peers + [InfoOf(swarm[p])];
        assert InfoIds(peers) == ids + [p];
      }
      todo := todo - {p};
    }
    var order := SortOrder(InfoIds(peers));
    SortedIsListing(swarm, requester, peers);
    peers := Reorder(peers, order);
  }

  lemma SortedIsListing(swarm: Swarm, requester: Bytes, peers: seq<PeerInfo>)
    requires forall k :: 0 <= k < |peers| ==>
      peers[k].peerId in swarm.Keys - {requester} && peers[k] == InfoOf(swarm[peers[k].peerId])
    requires forall p :: p in swarm.Keys - {requester} ==> p in InfoIds(peers)
    requires Distinct(InfoIds(peers))
    ensures Reorder(peers, SortOrder(InfoIds(peers))) == Listing(swarm, requester)
  {
    hide InfoOf, StrictlySorted, Sorted, Distinct, SortOrder;
    var order := SortOrder(InfoIds(peers));
    var sorted := Reorder(peers, order);
    var ids := SortedIds(swarm.Keys - {requester});
    assert InfoIds(sorted) == Reorder(InfoIds(peers), order);
    ReorderSorts(InfoIds(peers));
    forall x ensures x in InfoIds(sorted) <==> x in ids {
      if x in InfoIds(peers) {
        var k :| 0 <= k < |peers| && InfoIds(peers)[k] == x;
        assert peers[k].peerId == x;
      }
    }
    SortedListingIsUnique(InfoIds(sorted), ids);
    forall k | 0 <= k < |sorted| ensures sorted[k] == Listing(swarm, requester)[k] {
      assert InfoIds(sorted)[k] == ids[k];
    }
  }

  // ---- Expiry, one swarm at a time ---------------------------------------------

  ghost predicate ExpiredIn(e: ExpiredPeer, s: Swarms, hashes: set<Bytes>, timeout: real, now: real) {
    && e.infoHash in hashes && e.infoHash in s && e.peerId in s[e.infoHash]
    && var record := s[e.infoHash][e.peerId];
       && now - record.lastSeen > timeout
       && e.ip == record.ip && e.port == record.port && e.lastSeen == record.lastSeen
  }

  /** The list names exactly the expired peers of these swarms, once each. */
  ghost predicate ListsExpired(list: seq<ExpiredPeer>, s: Swarms, hashes: set<Bytes>, timeout: real, now: real) {
    && Distinct(list)
    && forall e :: e in list <==> ExpiredIn(e, s, hashes, timeout, now)
  }

  /** The swarms when those in `todo` are still to be filtered. */
  ghost function PartlyExpired(s: Swarms, todo: set<Bytes>, timeout: real, now: real): Swarms {
    map h | h in s && (h in todo || Fresh(s[h], timeout, now) != map[]) ::
      if h in todo then s[h] else Fresh(s[h], timeout, now)
  }

  /** The inner loop of `remove_expired_peers`. */
  method ExpireSwarm(h: Bytes, swarm: Swarm, timeout: real, now: real)
    returns (kept: Swarm, gone: seq<ExpiredPeer>)
    ensures kept == Fresh(swarm, timeout, now)
    ensures ListsExpired(gone, map[h := swarm], {h}, timeout, now)
  {
    kept, gone := swarm, [];
    var todo := swarm.Keys;
    while todo != {}
      invariant todo <= swarm.Keys
      invariant kept == map p | p in swarm && (p in todo || !IsExpired(swarm[p], timeout, now)) :: swarm[p]
      invariant Distinct(gone)
      invariant forall e :: e in gone <==>
        e.peerId !in todo && ExpiredIn(e, map[h := swarm], {h}, timeout, now)
      decreases |todo|
    {
      var p :| p in todo;
      if IsExpired(swarm[p], timeout, now) {
        var e := ExpiredRecord(h, p, swarm[p]);
        assert e !in gone;
        gone := gone + [e];
        kept := kept - {p};
      }
      todo := todo - {p};
    }
  }

  lemma ExpireStart(s: Swarms, timeout: real, now: real)
    ensures s == PartlyExpired(s, s.Keys, timeout, now)
    ensures ListsExpired([], s, s.Keys - s.Keys, timeout, now)
  {
  }

  lemma StillThere(s: Swarms, todo: set<Bytes>, h: Bytes, timeout: real, now: real)
    requires todo <= s.Keys && h in todo
    ensures h in PartlyExpired(s, todo, timeout, now) && PartlyExpired(s, todo, timeout, now)[h] == s[h]
  {
  }

  lemma ExpireEnd(s: Swarms, timeout: real, now: real)
    ensures PartlyExpired(s, {}, timeout, now) == Unexpired(s, timeout, now)
  {
  }

  lemma ExpireOneMore(before: Swarms, current: Swarms, todo: set<Bytes>, h: Bytes,
                      expired: seq<ExpiredPeer>, gone: seq<ExpiredPeer>, timeout: real, now: real)
    requires h in todo && todo <= before.Keys
    requires current == PartlyExpired(before, todo, timeout, now)
    requires ListsExpired(expired, before, before.Keys - todo, timeout, now)
    requires ListsExpired(gone, map[h := before[h]], {h}, timeout, now)
    ensures h in current && current[h] == before[h]
    ensures var kept := Fresh(before[h], timeout, now);
      (if kept == map[] then current - {h} else current[h := kept])
        == PartlyExpired(before, todo - {h}, timeout, now)
    ensures ListsExpired(expired + gone, before, before.Keys - (todo - {h}), timeout, now)
  {
    hide Fresh;
    var all := expired + gone;
    forall i, j | 0 <= i < j < |all| ensures all[i] != all[j] {
      if i < |expired| <= j {
        assert all[i] in expired && all[j] in gone;
      }
    }
    forall e ensures e in all <==> ExpiredIn(e, before, before.Keys - (todo - {h}), timeout, now) {
      assert e in all <==> e in expired || e in gone;
    }
  }
}
