// Whom the population connects to (src/peer_pool.js, `triggerNewConnections`), said of the lists of the book and the
// connections there are.
module Populating {
  import opened Wrappers
  import opened OrderedMap
  import opened Peers
  import opened Protection
  import opened Selection
  import opened Pools
  import P = PoolRuns

  // A peer without outbound connection whose address is that of no fixed peer.
  predicate Eligible(p: PeerInfo, m: PeerMap, fixedPeers: seq<PeerInfo>) {
    !Has(m, PeerIdOf(p)) && forall f | f in fixedPeers :: f.ipAddress != p.ipAddress
  }

  // Exactly these are left by the filter, each as often as it was given.
  lemma {:induction false} DisconnectedCount(peers: seq<PeerInfo>, m: PeerMap, fixedPeers: seq<PeerInfo>)
    ensures forall p :: multiset(Disconnected(peers, m, fixedPeers))[p]
                     == if Eligible(p, m, fixedPeers) then multiset(peers)[p] else 0
  {
    hide PeerIdOf, Has;
    if peers != [] {
      DisconnectedCount(peers[1..], m, fixedPeers);
      assert peers == [peers[0]] + peers[1..];
      EligibleIff(peers[0], m, fixedPeers);
    }
  }

  lemma EligibleIff(p: PeerInfo, m: PeerMap, fixedPeers: seq<PeerInfo>)
    ensures Eligible(p, m, fixedPeers) <==> !Has(m, PeerIdOf(p)) && !AddressIn(fixedPeers, p.ipAddress)
  {
    hide PeerIdOf, Has;
    if AddressIn(fixedPeers, p.ipAddress) {
      var i :| 0 <= i < |fixedPeers| && fixedPeers[i].ipAddress == p.ipAddress;
      assert fixedPeers[i] in fixedPeers;
    }
  }

  ghost function EligibleAt(peers: seq<PeerInfo>, m: PeerMap, fixedPeers: seq<PeerInfo>): set<int> {
    set i | 0 <= i < |peers| && Eligible(peers[i], m, fixedPeers)
  }

  lemma {:induction false} DisconnectedSnoc(peers: seq<PeerInfo>, p: PeerInfo, m: PeerMap, fixedPeers: seq<PeerInfo>)
    ensures Disconnected(peers + [p], m, fixedPeers)
         == Disconnected(peers, m, fixedPeers) + if Eligible(p, m, fixedPeers) then [p] else []
  {
    hide PeerIdOf, Has, Eligible, AddressIn;
    EligibleIff(p, m, fixedPeers);
    if peers == [] {
      assert peers + [p] == [p] && [p][1..] == [];
    } else {
      assert (peers + [p])[1..] == peers[1..] + [p];
      DisconnectedSnoc(peers[1..], p, m, fixedPeers);
    }
  }

  lemma {:induction false} DisconnectedSize(peers: seq<PeerInfo>, m: PeerMap, fixedPeers: seq<PeerInfo>)
    ensures |Disconnected(peers, m, fixedPeers)| == |EligibleAt(peers, m, fixedPeers)|
  {
    hide PeerIdOf, Has, Eligible, Disconnected;
    if peers == [] {
      NoneDisconnected(m, fixedPeers);
    } else {
      var n := |peers| - 1;
      var before := EligibleAt(peers[..n], m, fixedPeers);
      assert peers == peers[..n] + [peers[n]];
      DisconnectedSnoc(peers[..n], peers[n], m, fixedPeers);
      DisconnectedSize(peers[..n], m, fixedPeers);
      assert EligibleAt(peers, m, fixedPeers) == if Eligible(peers[n], m, fixedPeers) then before + {n} else before;
    }
  }

  lemma NoneDisconnected(m: PeerMap, fixedPeers: seq<PeerInfo>)
    ensures Disconnected([], m, fixedPeers) == []
  {}

  lemma EligibleFew(peers: seq<PeerInfo>, m: PeerMap, fixedPeers: seq<PeerInfo>)
    ensures |EligibleAt(peers, m, fixedPeers)| <= |peers|
  {
    hide Eligible, Disconnected;
    DisconnectedSize(peers, m, fixedPeers);
    DisconnectedFew(peers, m, fixedPeers);
  }

  lemma {:induction false} DisconnectedFew(peers: seq<PeerInfo>, m: PeerMap, fixedPeers: seq<PeerInfo>)
    ensures |Disconnected(peers, m, fixedPeers)| <= |peers|
  {
    hide PeerIdOf, Has, AddressIn;
    if peers != [] { DisconnectedFew(peers[1..], m, fixedPeers); }
  }

  // Some selection of eligible peers, none from a position twice, of the given size.
  ghost predicate Selects(selected: seq<PeerInfo>, news: seq<PeerInfo>, tried: seq<PeerInfo>, m: PeerMap,
                          fixedPeers: seq<PeerInfo>, size: int) {
    && |selected| == size
    && forall p :: multiset(selected)[p]
                <= if Eligible(p, m, fixedPeers) then multiset(news)[p] + multiset(tried)[p] else 0
  }

  // Connected are afterwards those that were, the fixed peers, and a selection of the eligible peers of both lists: as
  // many as the limit leaves room for, or all of them. Existing connections stay as they are, and each other one is
  // new.
  lemma PopulationConnects(c: PoolConfig, limit: nat, m: PeerMap, news: seq<PeerInfo>, tried: seq<PeerInfo>, now: real,
                           m': PeerMap) returns (selected: seq<PeerInfo>)
    requires MapOk(m) && Triggers(c, limit, m, news, tried, now, m')
    ensures var eligible := |EligibleAt(news, m, c.fixedPeers)| + |EligibleAt(tried, m, c.fixedPeers)|;
      Selects(selected, news, tried, m, c.fixedPeers, if limit <= |m| then 0 else Min(limit - |m|, eligible))
    ensures forall id :: Has(m', id) <==>
      Has(m, id) || exists p :: (p in selected || p in c.fixedPeers) && PeerIdOf(p) == id
    ensures forall id :: Has(m, id) ==> Get(m', id) == Get(m, id)
    ensures forall id :: Has(m', id) && !Has(m, id) ==>
      exists p :: Get(m', id) == Some(PoolPeer(id, p, 0.0, 0.0, now))
        && (p in selected || p in c.fixedPeers) && PeerIdOf(p) == id
  {
    hide PeerIdOf, Has, Get, AddAllOutbound, Disconnected, Missing, Eligible, MapOk;
    var dn, dt := Disconnected(news, m, c.fixedPeers), Disconnected(tried, m, c.fixedPeers);
    selected :| Selected(dn, dt, limit - |m|, selected)
      && m' == AddAllOutbound(m, selected + Missing(c.fixedPeers, m), now);
    DisconnectedSize(news, m, c.fixedPeers);
    DisconnectedSize(tried, m, c.fixedPeers);
    DisconnectedCount(news, m, c.fixedPeers);
    DisconnectedCount(tried, m, c.fixedPeers);
    SelectedEligible(selected, dn, dt, news, tried, m, c.fixedPeers);
    ConnectedIds(c, m, selected, now);
    forall id ensures Has(m, id) ==> Get(m', id) == Get(m, id) {
      OldStays(m, selected + Missing(c.fixedPeers, m), now, id);
    }
    forall id | Has(m', id) && !Has(m, id)
      ensures exists p ::
        && Get(m', id) == Some(PoolPeer(id, p, 0.0, 0.0, now))
        && (p in selected || p in c.fixedPeers) && PeerIdOf(p) == id
    {
      var p := NewIsNew(m, selected + Missing(c.fixedPeers, m), now, id);
      MissingIn(c.fixedPeers, m);
    }
  }

  lemma MissingIn(peers: seq<PeerInfo>, m: PeerMap)
    ensures forall p | p in Missing(peers, m) :: p in peers
  {}

  lemma SelectedEligible(selected: seq<PeerInfo>, dn: seq<PeerInfo>, dt: seq<PeerInfo>, news: seq<PeerInfo>,
                         tried: seq<PeerInfo>, m: PeerMap, fixedPeers: seq<PeerInfo>)
    requires multiset(selected) <= multiset(dn) + multiset(dt)
    requires forall p :: multiset(dn)[p] == if Eligible(p, m, fixedPeers) then multiset(news)[p] else 0
    requires forall p :: multiset(dt)[p] == if Eligible(p, m, fixedPeers) then multiset(tried)[p] else 0
    ensures forall p :: multiset(selected)[p]
                     <= if Eligible(p, m, fixedPeers) then multiset(news)[p] + multiset(tried)[p] else 0
  {
    hide Eligible;
    forall p ensures multiset(selected)[p]
                  <= if Eligible(p, m, fixedPeers) then multiset(news)[p] + multiset(tried)[p] else 0
    {
      assert multiset(selected)[p] <= (multiset(dn) + multiset(dt))[p] == multiset(dn)[p] + multiset(dt)[p];
    }
  }

  lemma ConnectedIds(c: PoolConfig, m: PeerMap, selected: seq<PeerInfo>, now: real)
    requires MapOk(m)
    ensures var m' := AddAllOutbound(m, selected + Missing(c.fixedPeers, m), now);
      forall id :: Has(m', id) <==>
        Has(m, id) || exists p :: (p in selected || p in c.fixedPeers) && PeerIdOf(p) == id
  {
    hide PeerIdOf, AddAllOutbound, Missing, MapOk, Has, KeySet, IdsOf;
    var m' := AddAllOutbound(m, selected + Missing(c.fixedPeers, m), now);
    P.ConnectedKeys(c, m, selected, now);
    IdsAre(selected);
    IdsAre(c.fixedPeers);
    forall id ensures Has(m', id) <==>
      Has(m, id) || exists p :: (p in selected || p in c.fixedPeers) && PeerIdOf(p) == id
    {
      HasIffKey(m, id);
      HasIffKey(m', id);
    }
  }

  lemma IdsAre(infos: seq<PeerInfo>)
    ensures forall id :: id in IdsOf(infos) <==> exists p :: p in infos && PeerIdOf(p) == id
  {
    hide PeerIdOf, IdsOf;
    forall id ensures id in IdsOf(infos) <==> exists p :: p in infos && PeerIdOf(p) == id {
      if id in IdsOf(infos) {
        var i := IdsOfWitness(infos, id);
        assert infos[i] in infos;
      }
      if exists p :: p in infos && PeerIdOf(p) == id {
        var p :| p in infos && PeerIdOf(p) == id;
        var i :| 0 <= i < |infos| && infos[i] == p;
        IdsOfMember(infos, i);
      }
    }
  }

  lemma {:induction false} OldStays(m: PeerMap, infos: seq<PeerInfo>, now: real, id: string)
    ensures Has(m, id) ==> Get(AddAllOutbound(m, infos, now), id) == Get(m, id)
  {
    hide PeerIdOf;
    if infos != [] && Has(m, id) {
      var n := |infos| - 1;
      var before := AddAllOutbound(m, infos[..n], now);
      OldStays(m, infos[..n], now, id);
      if !Has(before, PeerIdOf(infos[n])) { SetElsewhere(before, PeerIdOf(infos[n]), NewPeer(infos[n], now), id); }
    }
  }

  lemma SetElsewhere(m: PeerMap, k: string, p: PoolPeer, id: string)
    requires Has(m, id) && !Has(m, k)
    ensures Get(Set(m, k, p), id) == Get(m, id)
  {
    var i := IndexOf(m, id);
    assert Set(m, k, p)[i] == m[i] && forall j | 0 <= j < i :: Set(m, k, p)[j].0 == m[j].0 != id;
  }

  lemma {:induction false} NewIsNew(m: PeerMap, infos: seq<PeerInfo>, now: real, id: string) returns (p: PeerInfo)
    requires Has(AddAllOutbound(m, infos, now), id) && !Has(m, id)
    ensures p in infos && PeerIdOf(p) == id && Get(AddAllOutbound(m, infos, now), id) == Some(NewPeer(p, now))
  {
    hide PeerIdOf;
    var n := |infos| - 1;
    var before := AddAllOutbound(m, infos[..n], now);
    assert infos == infos[..n] + [infos[n]];
    if Has(before, id) {
      p := NewIsNew(m, infos[..n], now, id);
      if !Has(before, PeerIdOf(infos[n])) { SetElsewhere(before, PeerIdOf(infos[n]), NewPeer(infos[n], now), id); }
    } else {
      p := infos[n];
      SetHere(before, PeerIdOf(p), NewPeer(p, now), id);
    }
  }

  lemma SetHere(m: PeerMap, k: string, p: PoolPeer, id: string)
    requires !Has(m, id) && !Has(m, k) && Has(Set(m, k, p), id)
    ensures k == id && Get(Set(m, k, p), id) == Some(p)
  {
    var s := Set(m, k, p);
    assert forall j | 0 <= j < |m| :: s[j].0 == m[j].0 && m[j].0 != id;
    assert s[|m|] == (k, p);
  }

  // With room for all of them every eligible peer is connected afterwards.
  lemma PopulationReachesAll(c: PoolConfig, limit: nat, m: PeerMap, news: seq<PeerInfo>, tried: seq<PeerInfo>,
                             now: real, m': PeerMap)
    requires MapOk(m) && Triggers(c, limit, m, news, tried, now, m')
    requires limit - |m| >= |EligibleAt(news, m, c.fixedPeers)| + |EligibleAt(tried, m, c.fixedPeers)|
    ensures forall p | (p in news || p in tried) && Eligible(p, m, c.fixedPeers) :: Has(m', PeerIdOf(p))
  {
    hide PeerIdOf, Has, Get, AddAllOutbound, Disconnected, Missing, Eligible, MapOk;
    var dn, dt := Disconnected(news, m, c.fixedPeers), Disconnected(tried, m, c.fixedPeers);
    var selected :| Selected(dn, dt, limit - |m|, selected)
      && m' == AddAllOutbound(m, selected + Missing(c.fixedPeers, m), now);
    DisconnectedSize(news, m, c.fixedPeers);
    DisconnectedSize(tried, m, c.fixedPeers);
    DisconnectedCount(news, m, c.fixedPeers);
    DisconnectedCount(tried, m, c.fixedPeers);
    ConnectedIds(c, m, selected, now);
    SameMultiset(selected, dn, dt);
    forall p | (p in news || p in tried) && Eligible(p, m, c.fixedPeers) ensures Has(m', PeerIdOf(p)) {
      assert multiset(news)[p] + multiset(tried)[p] > 0;
      assert multiset(dn)[p] + multiset(dt)[p] > 0;
      assert p in multiset(selected);
      assert p in selected;
    }
  }

  lemma SameMultiset(selected: seq<PeerInfo>, dn: seq<PeerInfo>, dt: seq<PeerInfo>)
    requires multiset(selected) <= multiset(dn) + multiset(dt) && |selected| == |dn| + |dt|
    ensures multiset(selected) == multiset(dn) + multiset(dt)
  {
    var rest := multiset(dn) + multiset(dt) - multiset(selected);
    assert |multiset(dn) + multiset(dt)| == |selected|;
    assert multiset(dn) + multiset(dt) == multiset(selected) + rest;
    assert |rest| == 0;
  }

  // The filter for the whitelist and for the fixed peers, likewise.
  lemma {:induction false} UnlistedPeers(peers: seq<PoolPeer>, ids: set<string>)
    ensures forall p :: multiset(Unlisted(peers, ids))[p] == if p.id in ids then 0 else multiset(peers)[p]
  {
    if peers != [] {
      UnlistedPeers(peers[1..], ids);
      assert peers == [peers[0]] + peers[1..];
    }
  }
}
