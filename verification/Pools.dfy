// The connection pool as a value (src/peer_pool.js): two insertion-ordered maps from peer id to peer,
// and what each operation may do to them. Where the source draws at random the result is a relation.
module Pools {
  import opened OrderedMap
  import opened Peers
  import opened Protection
  import opened Selection

  type PeerMap = OMap<PoolPeer>
  datatype Pool = Pool(inbound: PeerMap, outbound: PeerMap)

  datatype PoolConfig = PoolConfig(
    maxInbound: nat, maxOutbound: nat, ratios: Ratios,
    whitelisted: seq<PeerInfo>, fixedPeers: seq<PeerInfo>, sendPeerLimit: int)

  function IdsOf(infos: seq<PeerInfo>): set<string> {
    if infos == [] then {} else IdsOf(infos[..|infos| - 1]) + {PeerIdOf(infos[|infos| - 1])}
  }

  predicate AddressIn(infos: seq<PeerInfo>, ip: string) {
    exists i | 0 <= i < |infos| :: infos[i].ipAddress == ip
  }

  // Every peer stands under its own id, which is the id of its address and port.
  ghost predicate MapOk(m: PeerMap) {
    Distinct(m) && forall i | 0 <= i < |m| :: m[i].0 == m[i].1.id == PeerIdOf(m[i].1.info)
  }

  ghost predicate PoolOk(s: Pool) {
    MapOk(s.inbound) && MapOk(s.outbound)
  }

  // ----- eviction ---------------------------------------------------------------------------------------

  // The peers whose id is not listed.
  function Unlisted(peers: seq<PoolPeer>, ids: set<string>): (r: seq<PoolPeer>)
    ensures forall p | p in r :: p in peers && p.id !in ids
  {
    if peers == [] then []
    else if peers[0].id in ids then Unlisted(peers[1..], ids)
    else [peers[0]] + Unlisted(peers[1..], ids)
  }

  ghost predicate EvictsInbound(c: PoolConfig, m: PeerMap, m': PeerMap) {
    exists candidates ::
      && EvictionCandidates(Unlisted(ValuesOf(m), IdsOf(c.whitelisted)), candidates, c.ratios)
      && LosesOne(m, candidates, m')
  }

  ghost predicate EvictsOutbound(c: PoolConfig, m: PeerMap, m': PeerMap) {
    LosesOne(m, Unlisted(ValuesOf(m), IdsOf(c.fixedPeers)), m')
  }

  // One of the candidates goes, if there is any.
  ghost predicate LosesOne(m: PeerMap, candidates: seq<PoolPeer>, m': PeerMap) {
    if candidates == [] then m' == m
    else exists p :: p in candidates && m' == Delete(m, p.id)
  }

  // ----- adding -----------------------------------------------------------------------------------------

  // `limit` is the maximum of inbound connections times the number of modules. A peer whose id is still
  // taken after the eviction is refused with an error.
  ghost predicate AddsInbound(c: PoolConfig, limit: nat, m: PeerMap, p: PoolPeer, m': PeerMap) {
    exists mid ::
      && (if |m| >= limit then EvictsInbound(c, m, mid) else mid == m)
      && m' == if Has(mid, p.id) then mid else Set(mid, p.id, p)
  }

  function NewPeer(info: PeerInfo, now: real): PoolPeer {
    PoolPeer(PeerIdOf(info), info, 0.0, 0.0, now)
  }

  function AddOutbound(m: PeerMap, info: PeerInfo, now: real): PeerMap {
    if Has(m, PeerIdOf(info)) then m else Set(m, PeerIdOf(info), NewPeer(info, now))
  }

  function AddAllOutbound(m: PeerMap, infos: seq<PeerInfo>, now: real): PeerMap {
    if infos == [] then m else AddOutbound(AddAllOutbound(m, infos[..|infos| - 1], now), infos[|infos| - 1], now)
  }

  // Peers without connection whose address is not that of a fixed peer.
  function Disconnected(peers: seq<PeerInfo>, m: PeerMap, fixedPeers: seq<PeerInfo>): (r: seq<PeerInfo>)
    ensures forall p | p in r :: p in peers && !Has(m, PeerIdOf(p)) && !AddressIn(fixedPeers, p.ipAddress)
  {
    if peers == [] then []
    else
      var rest := Disconnected(peers[1..], m, fixedPeers);
      if !Has(m, PeerIdOf(peers[0])) && !AddressIn(fixedPeers, peers[0].ipAddress) then [peers[0]] + rest else rest
  }

  function Missing(peers: seq<PeerInfo>, m: PeerMap): (r: seq<PeerInfo>)
    ensures forall p | p in r :: p in peers && !Has(m, PeerIdOf(p))
    ensures forall p | p in peers && !Has(m, PeerIdOf(p)) :: p in r
  {
    if peers == [] then []
    else if Has(m, PeerIdOf(peers[0])) then Missing(peers[1..], m) else [peers[0]] + Missing(peers[1..], m)
  }

  // What the default selector may return.
  ghost predicate Selected(news: seq<PeerInfo>, tried: seq<PeerInfo>, limit: int, selected: seq<PeerInfo>) {
    && |selected| == Min(Max(limit, 0), |tried| + |news|)
    && multiset(selected) <= multiset(news) + multiset(tried)
  }

  // `limit` is the maximum of outbound connections times the number of modules.
  ghost predicate Triggers(c: PoolConfig, limit: nat, m: PeerMap, news: seq<PeerInfo>, tried: seq<PeerInfo>,
                           now: real, m': PeerMap) {
    exists selected ::
      && Selected(Disconnected(news, m, c.fixedPeers), Disconnected(tried, m, c.fixedPeers), limit - |m|, selected)
      && m' == AddAllOutbound(m, selected + Missing(c.fixedPeers, m), now)
  }

  // Peers change their metrics and other properties, but neither id nor address nor port.
  ghost predicate Refreshes(m: PeerMap, m': PeerMap) {
    && |m'| == |m|
    && forall i | 0 <= i < |m| ::
         && m'[i].0 == m[i].0 && m'[i].1.id == m[i].1.id
         && m'[i].1.info.ipAddress == m[i].1.info.ipAddress && m'[i].1.info.wsPort == m[i].1.info.wsPort
  }

  // ----- key sets -----------------------------------------------------------------------------------------

  lemma KeysAfterSet(m: PeerMap, k: string, p: PoolPeer)
    requires Distinct(m)
    ensures Distinct(Set(m, k, p)) && KeySet(Set(m, k, p)) == KeySet(m) + {k}
  {
    SetSpec(m, k, p);
    forall x ensures x in KeySet(Set(m, k, p)) <==> x in KeySet(m) + {k} {
      HasIffKey(m, x);
      HasIffKey(Set(m, k, p), x);
    }
  }

  lemma KeysAfterDelete(m: PeerMap, k: string)
    requires Distinct(m)
    ensures Distinct(Delete(m, k)) && KeySet(Delete(m, k)) == KeySet(m) - {k}
  {
    DeleteSpec(m, k);
    forall x ensures x in KeySet(Delete(m, k)) <==> x in KeySet(m) - {k} {
      HasIffKey(m, x);
      HasIffKey(Delete(m, k), x);
    }
  }

  lemma SetOk(m: PeerMap, p: PoolPeer)
    requires MapOk(m) && p.id == PeerIdOf(p.info)
    ensures MapOk(Set(m, p.id, p))
  {
    KeysAfterSet(m, p.id, p);
  }

  lemma DeleteOk(m: PeerMap, k: string)
    requires MapOk(m)
    ensures MapOk(Delete(m, k))
  {
    KeysAfterDelete(m, k);
  }

  lemma LosesOneOk(m: PeerMap, candidates: seq<PoolPeer>, m': PeerMap)
    requires MapOk(m) && LosesOne(m, candidates, m')
    ensures MapOk(m') && KeySet(m') <= KeySet(m)
    ensures forall k | k in KeySet(m) && k !in KeySet(m') :: exists p :: p in candidates && p.id == k
  {
    if candidates != [] {
      var p :| p in candidates && m' == Delete(m, p.id);
      DeleteOk(m, p.id);
      KeysAfterDelete(m, p.id);
    }
  }

  // An eviction adds nobody.
  lemma EvictionOnlyRemoves(c: PoolConfig, m: PeerMap, m': PeerMap)
    requires MapOk(m) && EvictsInbound(c, m, m')
    ensures KeySet(m') <= KeySet(m)
  {
    hide EvictionCandidates, PeerIdOf;
    var candidates :|
      && EvictionCandidates(Unlisted(ValuesOf(m), IdsOf(c.whitelisted)), candidates, c.ratios)
      && LosesOne(m, candidates, m');
    LosesOneOk(m, candidates, m');
  }

  lemma AddOutboundOk(m: PeerMap, info: PeerInfo, now: real)
    requires MapOk(m)
    ensures MapOk(AddOutbound(m, info, now))
    ensures KeySet(AddOutbound(m, info, now)) == KeySet(m) + {PeerIdOf(info)}
  {
    HasIffKey(m, PeerIdOf(info));
    if !Has(m, PeerIdOf(info)) {
      SetOk(m, NewPeer(info, now));
      KeysAfterSet(m, PeerIdOf(info), NewPeer(info, now));
    }
  }

  lemma {:induction false} AddAllOk(m: PeerMap, infos: seq<PeerInfo>, now: real)
    requires MapOk(m)
    ensures MapOk(AddAllOutbound(m, infos, now))
    ensures KeySet(AddAllOutbound(m, infos, now)) == KeySet(m) + IdsOf(infos)
  {
    if infos != [] {
      var n := |infos| - 1;
      AddAllOk(m, infos[..n], now);
      AddOutboundOk(AddAllOutbound(m, infos[..n], now), infos[n], now);
    }
  }

  lemma {:induction false} IdsOfMember(infos: seq<PeerInfo>, i: nat)
    requires i < |infos|
    ensures PeerIdOf(infos[i]) in IdsOf(infos)
  {
    if i < |infos| - 1 { IdsOfMember(infos[..|infos| - 1], i); }
  }

  lemma {:induction false} IdsOfWitness(infos: seq<PeerInfo>, id: string) returns (i: nat)
    requires id in IdsOf(infos)
    ensures i < |infos| && PeerIdOf(infos[i]) == id
  {
    var n := |infos| - 1;
    if PeerIdOf(infos[n]) == id { i := n; } else { i := IdsOfWitness(infos[..n], id); }
  }

  lemma IdsOfSnoc(infos: seq<PeerInfo>, p: PeerInfo)
    ensures IdsOf(infos + [p]) == IdsOf(infos) + {PeerIdOf(p)}
  {
    assert (infos + [p])[..|infos|] == infos;
  }

  lemma UnionAssociative(a: set<string>, b: set<string>, c: set<string>)
    ensures (a + b) + c == a + (b + c)
  {}

  lemma {:induction false} IdsOfConcat(a: seq<PeerInfo>, b: seq<PeerInfo>)
    ensures IdsOf(a + b) == IdsOf(a) + IdsOf(b)
  {
    hide PeerIdOf;
    if b == [] {
      assert a + b == a;
    } else {
      var n := |b| - 1;
      assert b == b[..n] + [b[n]];
      IdsOfSnoc(b[..n], b[n]);
      hide IdsOf;
      IdsOfConcat(a, b[..n]);
      IdsOfSnoc(a + b[..n], b[n]);
      assert a + b == (a + b[..n]) + [b[n]];
      UnionAssociative(IdsOf(a), IdsOf(b[..n]), {PeerIdOf(b[n])});
    }
  }

  lemma {:induction false} IdsOfSize(infos: seq<PeerInfo>)
    ensures |IdsOf(infos)| <= |infos|
  {
    if infos != [] {
      IdsOfSize(infos[..|infos| - 1]);
      UnionSize(IdsOf(infos[..|infos| - 1]), {PeerIdOf(infos[|infos| - 1])});
    }
  }

  lemma UnionSize(a: set<string>, b: set<string>)
    ensures |a + b| <= |a| + |b|
  {
    assert |a + b| == |a| + |b| - |a * b|;
  }

  lemma SplitSize(a: set<string>, listed: set<string>)
    ensures |a| <= |a - listed| + |listed|
  {
    assert a <= (a - listed) + listed;
    UnionSize(a - listed, listed);
    SubsetSize(a, (a - listed) + listed);
  }

  lemma SubsetSize(a: set<string>, b: set<string>)
    requires a <= b
    ensures |a| <= |b|
  {
    assert b == a + (b - a);
    assert |b| == |a| + |b - a|;
  }

  lemma AddedKeySize(k: string, rest: set<string>, ids: set<string>)
    requires k !in rest
    ensures |({k} + rest) - ids| == |rest - ids| + if k in ids then 0 else 1
  {
    if k in ids {
      assert ({k} + rest) - ids == rest - ids;
    } else {
      assert ({k} + rest) - ids == (rest - ids) + {k};
    }
  }

  // The unlisted peers are as many as the unlisted keys.
  lemma {:induction false} UnlistedSize(m: PeerMap, ids: set<string>)
    requires MapOk(m)
    ensures |Unlisted(ValuesOf(m), ids)| == |KeySet(m) - ids|
  {
    if m == [] {
      assert KeySet(m) - ids == {};
    } else {
      assert ValuesOf(m)[1..] == ValuesOf(m[1..]);
      UnlistedSize(m[1..], ids);
      KeysCons(m);
      AddedKeySize(m[0].0, KeySet(m[1..]), ids);
    }
  }

  lemma KeysCons(m: PeerMap)
    requires Distinct(m) && m != []
    ensures KeySet(m) == {m[0].0} + KeySet(m[1..]) && m[0].0 !in KeySet(m[1..])
  {
    forall x ensures x in KeySet(m) <==> x == m[0].0 || x in KeySet(m[1..]) {
      if x in KeySet(m[1..]) {
        var i :| 0 <= i < |m[1..]| && m[1..][i].0 == x;
        assert m[i + 1].0 == x;
      }
      if x in KeySet(m) && x != m[0].0 {
        var i :| 0 <= i < |m| && m[i].0 == x;
        assert m[1..][i - 1].0 == x;
      }
    }
  }

  lemma RefreshKeys(m: PeerMap, m': PeerMap)
    requires MapOk(m) && Refreshes(m, m')
    ensures MapOk(m') && KeySet(m') == KeySet(m)
  {
    forall x ensures x in KeySet(m') <==> x in KeySet(m) {
      if x in KeySet(m) { var i :| 0 <= i < |m| && m[i].0 == x; assert m'[i].0 == x; }
      if x in KeySet(m') { var i :| 0 <= i < |m'| && m'[i].0 == x; assert m[i].0 == x; }
    }
  }
}
