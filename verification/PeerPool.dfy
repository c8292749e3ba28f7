// The connection pool (src/peer_pool.js). Sockets and events are left out: a peer is what the pool
// remembers of it.
module PeerPool {
  import opened Wrappers
  import opened OrderedMap
  import opened Peers
  import opened Protection
  import opened Selection
  import opened Pools

  // Which entry of the pool a message to an id reaches.
  function Resolve(s: Pool, id: string): Option<Connection> {
    if Has(s.outbound, id) then Some(Connection(Outbound, id))
    else if Has(s.inbound, id) then Some(Connection(Inbound, id))
    else None
  }

  function ConnectionsOf(m: PeerMap, kind: Kind): (r: seq<Connection>)
    ensures |r| == |m|
  {
    seq(|m|, i requires 0 <= i < |m| => Connection(kind, PeerIdOf(m[i].1.info)))
  }

  function AllConnections(s: Pool): seq<Connection> {
    ConnectionsOf(s.outbound, Outbound) + ConnectionsOf(s.inbound, Inbound)
  }

  class PeerPool {
    const config: PoolConfig
    var inboundPeerMap: PeerMap
    var outboundPeerMap: PeerMap
    // The number of modules in the node info, plus one.
    var moduleCount: nat

    ghost predicate Valid()
      reads this
    {
      MapOk(inboundPeerMap) && MapOk(outboundPeerMap)
    }

    function State(): Pool
      reads this
    {
      Pool(inboundPeerMap, outboundPeerMap)
    }

    constructor (peerPoolConfig: PoolConfig)
      ensures Valid() && config == peerPoolConfig && State() == Pool([], []) && moduleCount == 1
    {
      config := peerPoolConfig;
      inboundPeerMap := [];
      outboundPeerMap := [];
      moduleCount := 1;
    }

    method ApplyNodeInfo(modules: nat)
      modifies this
      ensures moduleCount == modules + 1 && State() == old(State())
    {
      moduleCount := modules + 1;
    }

    method RemoveInboundPeer(peerId: string) returns (wasRemoved: bool)
      requires Valid()
      modifies this`inboundPeerMap
      ensures Valid() && inboundPeerMap == Delete(old(inboundPeerMap), peerId)
      ensures wasRemoved == Has(old(inboundPeerMap), peerId)
    {
      wasRemoved := Has(inboundPeerMap, peerId);
      DeleteOk(inboundPeerMap, peerId);
      inboundPeerMap := Delete(inboundPeerMap, peerId);
    }

    method RemoveOutboundPeer(peerId: string) returns (wasRemoved: bool)
      requires Valid()
      modifies this`outboundPeerMap
      ensures Valid() && outboundPeerMap == Delete(old(outboundPeerMap), peerId)
      ensures wasRemoved == Has(old(outboundPeerMap), peerId)
    {
      wasRemoved := Has(outboundPeerMap, peerId);
      DeleteOk(outboundPeerMap, peerId);
      outboundPeerMap := Delete(outboundPeerMap, peerId);
    }

    method EvictInboundPeer()
      requires Valid()
      modifies this`inboundPeerMap
      ensures Valid() && EvictsInbound(config, old(inboundPeerMap), inboundPeerMap)
    {
      ghost var before := inboundPeerMap;
      var peers := Unlisted(ValuesOf(inboundPeerMap), IdsOf(config.whitelisted));
      var candidates := SelectPeersForEviction(peers, config.ratios);
      var shuffled := Shuffle(candidates);
      MultisetSize(shuffled, candidates);
      if shuffled != [] {
        assert shuffled[0] in multiset(shuffled);
        assert shuffled[0] in candidates;
        var _ := RemoveInboundPeer(shuffled[0].id);
      }
      assert LosesOne(before, candidates, inboundPeerMap);
    }

    method EvictOutboundPeer()
      requires Valid()
      modifies this`outboundPeerMap
      ensures Valid() && EvictsOutbound(config, old(outboundPeerMap), outboundPeerMap)
    {
      var candidates := Unlisted(ValuesOf(outboundPeerMap), IdsOf(config.fixedPeers));
      var shuffled := Shuffle(candidates);
      MultisetSize(shuffled, candidates);
      if shuffled != [] {
        assert shuffled[0] in multiset(shuffled);
        assert shuffled[0] in candidates;
        var _ := RemoveOutboundPeer(shuffled[0].id);
      }
    }

    // None is the error that the peer was already in the pool.
    method AddInboundPeer(info: PeerInfo, now: real) returns (added: Option<PoolPeer>)
      requires Valid()
      modifies this`inboundPeerMap
      ensures Valid()
      ensures AddsInbound(config, config.maxInbound * moduleCount, old(inboundPeerMap), NewPeer(info, now),
                          inboundPeerMap)
      ensures !Has(old(inboundPeerMap), PeerIdOf(info)) ==> added.Some?
      ensures added.Some? ==> added.value == NewPeer(info, now) && Get(inboundPeerMap, PeerIdOf(info)) == added
    {
      hide EvictsInbound, PeerIdOf, Dict, KeySet;
      ghost var before := inboundPeerMap;
      if |inboundPeerMap| >= config.maxInbound * moduleCount {
        EvictInboundPeer();
        EvictionOnlyRemoves(config, before, inboundPeerMap);
      }
      ghost var mid := inboundPeerMap;
      var peer := NewPeer(info, now);
      HasIffKey(before, peer.id);
      HasIffKey(mid, peer.id);
      if Has(inboundPeerMap, peer.id) {
        assert AddsInbound(config, config.maxInbound * moduleCount, before, peer, mid);
        return None;
      }
      SetOk(inboundPeerMap, peer);
      SetSpec(inboundPeerMap, peer.id, peer);
      HasIffKey(Set(inboundPeerMap, peer.id, peer), peer.id);
      inboundPeerMap := Set(inboundPeerMap, peer.id, peer);
      return Some(peer);
    }

    method AddOutboundPeer(peerId: string, info: PeerInfo, now: real) returns (peer: PoolPeer)
      requires Valid() && peerId == PeerIdOf(info)
      modifies this`outboundPeerMap
      ensures Valid() && outboundPeerMap == AddOutbound(old(outboundPeerMap), info, now)
      ensures Get(outboundPeerMap, peerId) == Some(peer)
      ensures Has(old(outboundPeerMap), peerId) ==> Get(old(outboundPeerMap), peerId) == Some(peer)
    {
      AddOutboundOk(outboundPeerMap, info, now);
      var existing := Get(outboundPeerMap, peerId);
      if existing.Some? {
        return existing.value;
      }
      peer := NewPeer(info, now);
      SetSpec(outboundPeerMap, peer.id, peer);
      HasIffKey(Set(outboundPeerMap, peer.id, peer), peer.id);
      outboundPeerMap := Set(outboundPeerMap, peer.id, peer);
    }

    method TriggerNewConnections(newPeers: seq<PeerInfo>, triedPeers: seq<PeerInfo>, draws: nat -> real, now: real)
      requires Valid()
      modifies this`outboundPeerMap
      ensures Valid()
      ensures Triggers(config, config.maxOutbound * moduleCount, old(outboundPeerMap), newPeers, triedPeers, now,
                       outboundPeerMap)
    {
      hide Triggers, Selected, PeerIdOf, Disconnected, Missing, AddOutbound, AddAllOutbound, MapOk;
      ghost var before := outboundPeerMap;
      var disconnectedNew := Disconnected(newPeers, outboundPeerMap, config.fixedPeers);
      var disconnectedTried := Disconnected(triedPeers, outboundPeerMap, config.fixedPeers);
      var disconnectedFixed := Missing(config.fixedPeers, outboundPeerMap);
      var peerLimit := config.maxOutbound * moduleCount - |outboundPeerMap|;
      var selected, _ := SelectPeersForConnection(disconnectedNew, disconnectedTried, peerLimit, draws);
      var peersToConnect := selected + disconnectedFixed;
      assert AddAllOutbound(before, [], now) == before by { AddNone(before, now); }
      for i := 0 to |peersToConnect|
        invariant Valid() && outboundPeerMap == AddAllOutbound(before, peersToConnect[..i], now)
      {
        AddOneMore(before, peersToConnect, i, now);
        var _ := AddOutboundPeer(PeerIdOf(peersToConnect[i]), peersToConnect[i], now);
      }
      assert peersToConnect[..|peersToConnect|] == peersToConnect;
      TriggersBy(config, config.maxOutbound * moduleCount, before, newPeers, triedPeers, now, selected,
                 outboundPeerMap);
    }

    // Sends to the selected peers; each element of the result is the entry a message went out on, or
    // None for a failed send. Without a limit the configured one applies; -1 means all.
    method Send(limit: Option<int>) returns (selected: seq<Connection>, delivered: seq<Option<Connection>>)
      requires Valid()
      ensures multiset(selected) <= multiset(AllConnections(State()))
      ensures var effective := match limit
                               case None => config.sendPeerLimit
                               case Some(l) => if l == -1 then |AllConnections(State())| else l;
        && (effective >= 0 ==> |selected| == Min(effective, |AllConnections(State())|))
        && (effective >= |AllConnections(State())| ==> multiset(selected) == multiset(AllConnections(State())))
      ensures |delivered| == |selected|
      ensures forall i | 0 <= i < |delivered| :: delivered[i] == Resolve(State(), selected[i].id) && delivered[i].Some?
    {
      hide PeerIdOf, AllConnections, MapOk, Dict;
      var peers := AllConnections(State());
      var peerLimit := match limit
                       case None => config.sendPeerLimit
                       case Some(l) => if l == -1 then |peers| else l;
      selected := SelectPeersForSend(peers, peerLimit);
      delivered := [];
      for i := 0 to |selected|
        invariant |delivered| == i
        invariant forall j | 0 <= j < i :: delivered[j] == Resolve(State(), selected[j].id) && delivered[j].Some?
      {
        assert selected[i] in multiset(selected) && selected[i] in multiset(peers) && selected[i] in peers;
        SelectedResolves(State(), selected[i]);
        delivered := delivered + [Resolve(State(), selected[i].id)];
      }
    }
  }

  lemma AddNone(m: PeerMap, now: real)
    ensures AddAllOutbound(m, [], now) == m
  {}

  lemma AddOneMore(m: PeerMap, infos: seq<PeerInfo>, i: nat, now: real)
    requires i < |infos|
    ensures AddAllOutbound(m, infos[..i + 1], now) == AddOutbound(AddAllOutbound(m, infos[..i], now), infos[i], now)
  {
    hide AddOutbound;
    assert infos[..i + 1][..i] == infos[..i];
  }

  lemma TriggersBy(c: PoolConfig, limit: nat, m: PeerMap, news: seq<PeerInfo>, tried: seq<PeerInfo>, now: real,
                   selected: seq<PeerInfo>, m': PeerMap)
    requires var dn, dt := Disconnected(news, m, c.fixedPeers), Disconnected(tried, m, c.fixedPeers);
      && |selected| == Min(Max(limit - |m|, 0), |dt| + |dn|)
      && multiset(selected) <= multiset(dn) + multiset(dt)
    requires m' == AddAllOutbound(m, selected + Missing(c.fixedPeers, m), now)
    ensures Triggers(c, limit, m, news, tried, now, m')
  {
    assert Selected(Disconnected(news, m, c.fixedPeers), Disconnected(tried, m, c.fixedPeers), limit - |m|, selected);
  }

  // ----- who receives a message ---------------------------------------------------------------------------

  lemma ConnectionsAt(m: PeerMap, kind: Kind)
    requires MapOk(m)
    ensures forall c :: c in ConnectionsOf(m, kind) <==> c.kind == kind && Has(m, c.id)
  {
    forall c ensures c in ConnectionsOf(m, kind) <==> c.kind == kind && Has(m, c.id) {
      HasIffKey(m, c.id);
      if c in ConnectionsOf(m, kind) {
        var i :| 0 <= i < |m| && ConnectionsOf(m, kind)[i] == c;
        assert m[i].0 == c.id;
      }
      if c.kind == kind && Has(m, c.id) {
        assert ConnectionsOf(m, kind)[IndexOf(m, c.id)] == c;
      }
    }
  }

  lemma SelectedResolves(s: Pool, c: Connection)
    requires PoolOk(s) && c in AllConnections(s)
    ensures Resolve(s, c.id).Some?
  {
    ConnectionsAt(s.outbound, Outbound);
    ConnectionsAt(s.inbound, Inbound);
  }

  // A message to everybody (limit -1, so every connection is selected) reaches every outbound entry, and
  // an inbound entry exactly when there is no outbound one with the same id: the id is all that is kept
  // of the selection. So it reaches the whole pool exactly when the two maps share no id.
  lemma SendToAllReaches(s: Pool, selected: seq<Connection>, delivered: seq<Option<Connection>>)
    requires PoolOk(s) && multiset(selected) == multiset(AllConnections(s))
    requires |delivered| == |selected|
    requires forall i | 0 <= i < |delivered| :: delivered[i] == Resolve(s, selected[i].id)
    ensures forall c | c in AllConnections(s) ::
      Some(c) in delivered <==> c.kind.Outbound? || !Has(s.outbound, c.id)
    ensures (forall c | c in AllConnections(s) :: Some(c) in delivered) <==> KeySet(s.inbound) !! KeySet(s.outbound)
  {
    hide PeerIdOf, MapOk, ConnectionsOf;
    ConnectionsAt(s.outbound, Outbound);
    ConnectionsAt(s.inbound, Inbound);
    forall c | c in AllConnections(s) ensures Some(c) in delivered <==> c.kind.Outbound? || !Has(s.outbound, c.id) {
      assert c in multiset(selected);
      var i :| 0 <= i < |selected| && selected[i] == c;
      assert delivered[i] == Resolve(s, c.id);
    }
    forall id ensures id in KeySet(s.inbound) && id in KeySet(s.outbound)
      <==> Connection(Inbound, id) in AllConnections(s) && Has(s.outbound, id)
    {
      HasIffKey(s.inbound, id);
      HasIffKey(s.outbound, id);
    }
  }
}
