// Whole runs of the connection pool: the limits on inbound and outbound connections.
module PoolRuns {
  import opened Wrappers
  import opened OrderedMap
  import opened Address
  import opened Peers
  import opened Protection
  import opened Selection
  import opened Pools

  datatype Event =
    | InboundAdded(peer: PoolPeer, limit: nat)
    | InboundClosed(id: string)
    | OutboundClosed(id: string)
    | Triggered(news: seq<PeerInfo>, tried: seq<PeerInfo>, limit: nat, now: real)
    | OutboundShuffled
    | Refreshed

  ghost predicate Step(c: PoolConfig, s: Pool, e: Event, s': Pool) {
    match e
    case InboundAdded(peer, limit) =>
      peer.id == PeerIdOf(peer.info) && AddsInbound(c, limit, s.inbound, peer, s'.inbound) && s'.outbound == s.outbound
    case InboundClosed(id) => s' == s.(inbound := Delete(s.inbound, id))
    case OutboundClosed(id) => s' == s.(outbound := Delete(s.outbound, id))
    case Triggered(news, tried, limit, now) =>
      Triggers(c, limit, s.outbound, news, tried, now, s'.outbound) && s'.inbound == s.inbound
    case OutboundShuffled => EvictsOutbound(c, s.outbound, s'.outbound) && s'.inbound == s.inbound
    case Refreshed => Refreshes(s.inbound, s'.inbound) && Refreshes(s.outbound, s'.outbound)
  }

  ghost predicate StepAt(c: PoolConfig, states: seq<Pool>, events: seq<Event>, i: nat) {
    i < |events| && i + 1 < |states| && Step(c, states[i], events[i], states[i + 1])
  }

  ghost predicate IsRun(c: PoolConfig, states: seq<Pool>, events: seq<Event>) {
    |states| == |events| + 1 && forall i: nat | i < |events| :: StepAt(c, states, events, i)
  }

  // The event works with no limit above the bound; the number of modules may change between events.
  predicate EventWithin(e: Event, inbound: nat, outbound: nat) {
    (e.InboundAdded? ==> e.limit <= inbound) && (e.Triggered? ==> e.limit <= outbound)
  }

  predicate LimitsWithin(events: seq<Event>, inbound: nat, outbound: nat) {
    forall e | e in events :: EventWithin(e, inbound, outbound)
  }

  function WhitelistSize(c: PoolConfig): nat {
    |IdsOf(c.whitelisted)|
  }

  // ----- inbound ------------------------------------------------------------------------------------------

  // One entry goes exactly when the ratios leave a candidate among the unlisted inbound peers.
  lemma EvictionMakesRoom(c: PoolConfig, m: PeerMap, m': PeerMap)
    requires MapOk(m) && EvictsInbound(c, m, m')
    ensures MapOk(m') && KeySet(m') <= KeySet(m)
    ensures var n := CandidateCount(|KeySet(m) - IdsOf(c.whitelisted)|, c.ratios);
      |m'| == if n >= 1 then |m| - 1 else |m|
    ensures forall k | k in KeySet(m) && k !in KeySet(m') :: k !in IdsOf(c.whitelisted)
  {
    var unlisted := Unlisted(ValuesOf(m), IdsOf(c.whitelisted));
    var candidates :| EvictionCandidates(unlisted, candidates, c.ratios) && LosesOne(m, candidates, m');
    CandidatesSize(unlisted, candidates, c.ratios);
    UnlistedSize(m, IdsOf(c.whitelisted));
    LosesOneOk(m, candidates, m');
    forall p | p in candidates ensures p in unlisted { assert p in multiset(unlisted); }
    if candidates != [] { LosesExactlyOne(m, candidates, m', IdsOf(c.whitelisted)); }
  }

  // Adding a peer never costs a connected one its place that is whitelisted or in one of the three protected
  // slices of those that are not.
  lemma ProtectedStays(c: PoolConfig, limit: nat, m: PeerMap, added: PoolPeer, m': PeerMap, p: PoolPeer)
    requires MapOk(m) && AddsInbound(c, limit, m, added, m') && Get(m, p.id) == Some(p)
    requires p.id in IdsOf(c.whitelisted) || InTopSlice(Unlisted(ValuesOf(m), IdsOf(c.whitelisted)), p, c.ratios)
    ensures Get(m', p.id) == Some(p)
  {
    hide PeerIdOf, InTopSlice;
    var mid :| (if |m| >= limit then EvictsInbound(c, m, mid) else mid == m)
      && m' == if Has(mid, added.id) then mid else Set(mid, added.id, added);
    if |m| >= limit { NotEvicted(c, m, mid, p); }
    SetKeeps(mid, added, p);
  }

  lemma NotEvicted(c: PoolConfig, m: PeerMap, mid: PeerMap, p: PoolPeer)
    requires MapOk(m) && EvictsInbound(c, m, mid) && Get(m, p.id) == Some(p)
    requires p.id in IdsOf(c.whitelisted) || InTopSlice(Unlisted(ValuesOf(m), IdsOf(c.whitelisted)), p, c.ratios)
    ensures Get(mid, p.id) == Some(p)
  {
    hide PeerIdOf, InTopSlice, IdsOf;
    var unlisted := Unlisted(ValuesOf(m), IdsOf(c.whitelisted));
    var candidates :| EvictionCandidates(unlisted, candidates, c.ratios) && LosesOne(m, candidates, mid);
    CandidatesSize(unlisted, candidates, c.ratios);
    if p.id !in IdsOf(c.whitelisted) { ProtectedNeverCandidate(unlisted, candidates, p, c.ratios); }
    if candidates != [] {
      var q :| q in candidates && mid == Delete(m, q.id);
      assert q in multiset(unlisted);
      StoredUnderId(m, q);
      DeleteKeeps(m, q, p);
    }
  }

  lemma StoredUnderId(m: PeerMap, q: PoolPeer)
    requires MapOk(m) && q in ValuesOf(m)
    ensures Get(m, q.id) == Some(q)
  {
    hide PeerIdOf;
    var i :| 0 <= i < |m| && ValuesOf(m)[i] == q;
    IndexIs(m, i);
  }

  lemma DeleteKeeps(m: PeerMap, q: PoolPeer, p: PoolPeer)
    requires MapOk(m) && Get(m, q.id) == Some(q) && Get(m, p.id) == Some(p) && q != p
    ensures Get(Delete(m, q.id), p.id) == Some(p)
  {
    hide PeerIdOf;
    DeleteSpec(m, q.id);
    HasIffKey(m, p.id);
    HasIffKey(Delete(m, q.id), p.id);
  }

  lemma SetKeeps(m: PeerMap, added: PoolPeer, p: PoolPeer)
    requires Get(m, p.id) == Some(p)
    ensures Get(if Has(m, added.id) then m else Set(m, added.id, added), p.id) == Some(p)
  {
    var i := IndexOf(m, p.id);
    if !Has(m, added.id) {
      var n := Set(m, added.id, added);
      assert n[i] == m[i] && forall j | 0 <= j < i :: n[j].0 == m[j].0 != p.id;
    }
  }

  lemma LosesExactlyOne(m: PeerMap, candidates: seq<PoolPeer>, m': PeerMap, ids: set<string>)
    requires MapOk(m) && candidates != [] && LosesOne(m, candidates, m')
    requires forall p | p in candidates :: p in Unlisted(ValuesOf(m), ids)
    ensures |m'| == |m| - 1
  {
    hide PeerIdOf, Delete, Dict;
    var p :| p in candidates && m' == Delete(m, p.id);
    assert p in ValuesOf(m);
    var i :| 0 <= i < |m| && m[i].1 == p;
    IndexIs(m, i);
    DeleteSpec(m, p.id);
  }

  lemma KeyCount(m: PeerMap, ids: set<string>)
    requires MapOk(m)
    ensures |m| == |KeySet(m)| <= |KeySet(m) - ids| + |ids|
  {
    KeySetSize(m);
    SplitSize(KeySet(m), ids);
  }

  // With so many peers in the pool, and any number `u` of the connected peers off the whitelist, somebody can be
  // evicted.
  predicate AlwaysRoom(ratios: Ratios, limit: nat, whitelist: nat) {
    forall u: nat | limit - whitelist <= u <= limit :: CandidateCount(u, ratios) >= 1
  }

  // For ratios of at most one half: exactly when the limit is at least the whitelist plus two, or plus one
  // without latency protection.
  lemma ModerateRoomIff(ratios: Ratios, limit: nat, whitelist: nat)
    requires Moderate(ratios)
    ensures AlwaysRoom(ratios, limit, whitelist) <==> limit >= whitelist + Slack(ratios)
  {
    hide CandidateCount;
    forall u: nat | limit - whitelist <= u <= limit
      ensures CandidateCount(u, ratios) >= 1 <==> u >= Slack(ratios)
    {
      CandidatesExist(u, ratios);
    }
    var u: nat := Max(limit - whitelist, 0);
    assert limit - whitelist <= u <= limit;
    CandidatesExist(u, ratios);
  }

  // A full pool has room for one more.
  lemma FullHasRoom(c: PoolConfig, m: PeerMap, mid: PeerMap)
    requires MapOk(m) && EvictsInbound(c, m, mid) && AlwaysRoom(c.ratios, |m|, WhitelistSize(c))
    ensures MapOk(mid) && |mid| == |m| - 1
  {
    hide PeerIdOf, CandidateCount, EvictsInbound, MapOk;
    EvictionMakesRoom(c, m, mid);
    KeyCount(m, IdsOf(c.whitelisted));
    SubsetSize(KeySet(m) - IdsOf(c.whitelisted), KeySet(m));
  }

  lemma MapOkDistinct(m: PeerMap)
    requires MapOk(m)
    ensures Distinct(m)
  {}

  lemma AddsWithRoom(c: PoolConfig, limit: nat, m: PeerMap, p: PoolPeer, m': PeerMap, bound: nat)
    requires MapOk(m) && p.id == PeerIdOf(p.info) && AddsInbound(c, limit, m, p, m')
    requires limit <= bound && |m| <= bound && AlwaysRoom(c.ratios, bound, WhitelistSize(c))
    ensures MapOk(m') && |m'| <= bound
  {
    hide PeerIdOf, EvictsInbound, MapOk, AlwaysRoom;
    var mid :| (if |m| >= limit then EvictsInbound(c, m, mid) else mid == m)
      && m' == if Has(mid, p.id) then mid else Set(mid, p.id, p);
    if |m| == bound {
      FullHasRoom(c, m, mid);
    } else if |m| >= limit {
      EvictionMakesRoom(c, m, mid);
    }
    MapOkDistinct(mid);
    SetOk(mid, p);
    SetSpec(mid, p.id, p);
  }

  lemma StepKeepsInbound(c: PoolConfig, s: Pool, e: Event, s': Pool, bound: nat)
    requires PoolOk(s) && Step(c, s, e, s') && AlwaysRoom(c.ratios, bound, WhitelistSize(c))
    requires |s.inbound| <= bound && (e.InboundAdded? ==> e.limit <= bound)
    ensures MapOk(s'.inbound) && |s'.inbound| <= bound
  {
    hide PeerIdOf, AddsInbound, Triggers, AlwaysRoom, EvictsOutbound;
    match e
    case InboundAdded(peer, limit) => AddsWithRoom(c, limit, s.inbound, peer, s'.inbound, bound);
    case InboundClosed(id) => DeleteOk(s.inbound, id); DeleteSpec(s.inbound, id);
    case Refreshed => RefreshKeys(s.inbound, s'.inbound);
    case _ =>
  }

  // ----- outbound -----------------------------------------------------------------------------------------

  // The connections that are not to fixed peers.
  function Unfixed(c: PoolConfig, m: PeerMap): set<string> {
    KeySet(m) - IdsOf(c.fixedPeers)
  }

  lemma TriggersBound(c: PoolConfig, limit: nat, m: PeerMap, news: seq<PeerInfo>, tried: seq<PeerInfo>, now: real,
                      m': PeerMap)
    requires MapOk(m) && Triggers(c, limit, m, news, tried, now, m')
    ensures MapOk(m') && |Unfixed(c, m')| <= Max(|Unfixed(c, m)|, limit)
    ensures IdsOf(c.fixedPeers) <= KeySet(m') && KeySet(m) <= KeySet(m')
  {
    hide AddAllOutbound, Disconnected, Missing, PeerIdOf, Dict;
    var selected :|
      && Selected(Disconnected(news, m, c.fixedPeers), Disconnected(tried, m, c.fixedPeers), limit - |m|, selected)
      && m' == AddAllOutbound(m, selected + Missing(c.fixedPeers, m), now);
    ConnectedKeys(c, m, selected, now);
    KeySetSize(m);
    IdsOfSize(selected);
    UnfixedSize(KeySet(m), IdsOf(selected), IdsOf(c.fixedPeers), KeySet(m'));
  }

  // The ids after connecting the selected and the missing fixed peers.
  lemma ConnectedKeys(c: PoolConfig, m: PeerMap, selected: seq<PeerInfo>, now: real)
    requires MapOk(m)
    ensures var m' := AddAllOutbound(m, selected + Missing(c.fixedPeers, m), now);
      MapOk(m') && KeySet(m') == KeySet(m) + IdsOf(selected) + IdsOf(c.fixedPeers)
  {
    hide AddAllOutbound, Missing, PeerIdOf, KeySet, IdsOf, MapOk;
    var missing := Missing(c.fixedPeers, m);
    AddAllOk(m, selected + missing, now);
    IdsOfConcat(selected, missing);
    MissingIds(c.fixedPeers, m);
  }

  lemma UnfixedSize(keys: set<string>, selected: set<string>, fixedIds: set<string>, after: set<string>)
    requires after == keys + selected + fixedIds
    ensures |keys - fixedIds| <= |keys|
    ensures |after - fixedIds| <= |keys - fixedIds| + |selected|
  {
    SubsetSize(keys - fixedIds, keys);
    UnionSize(keys - fixedIds, selected);
    SubsetSize(after - fixedIds, (keys - fixedIds) + selected);
  }

  // Connecting the missing ones makes the connected ids include all those given, and adds no other.
  lemma MissingIds(peers: seq<PeerInfo>, m: PeerMap)
    ensures IdsOf(Missing(peers, m)) <= IdsOf(peers) <= KeySet(m) + IdsOf(Missing(peers, m))
  {
    var missing := Missing(peers, m);
    forall id | id in IdsOf(missing) ensures id in IdsOf(peers) {
      var i := IdsOfWitness(missing, id);
      assert missing[i] in peers;
      var j :| 0 <= j < |peers| && peers[j] == missing[i];
      IdsOfMember(peers, j);
    }
    forall id | id in IdsOf(peers) ensures id in KeySet(m) + IdsOf(missing) {
      var j := IdsOfWitness(peers, id);
      HasIffKey(m, id);
      if !Has(m, id) {
        assert peers[j] in missing;
        var i :| 0 <= i < |missing| && missing[i] == peers[j];
        IdsOfMember(missing, i);
      }
    }
  }

  // The periodic eviction drops exactly one peer, if there is any that is not fixed, and never a fixed one.
  lemma ShuffleKeepsFixed(c: PoolConfig, m: PeerMap, m': PeerMap)
    requires MapOk(m) && EvictsOutbound(c, m, m')
    ensures MapOk(m') && KeySet(m') <= KeySet(m)
    ensures KeySet(m) * IdsOf(c.fixedPeers) == KeySet(m') * IdsOf(c.fixedPeers)
    ensures |m'| == if KeySet(m) <= IdsOf(c.fixedPeers) then |m| else |m| - 1
  {
    var unfixed := Unlisted(ValuesOf(m), IdsOf(c.fixedPeers));
    LosesOneOk(m, unfixed, m');
    UnlistedSize(m, IdsOf(c.fixedPeers));
    assert KeySet(m) <= IdsOf(c.fixedPeers) <==> KeySet(m) - IdsOf(c.fixedPeers) == {};
    if unfixed != [] { LosesExactlyOne(m, unfixed, m', IdsOf(c.fixedPeers)); }
  }

  lemma StepKeepsOutbound(c: PoolConfig, s: Pool, e: Event, s': Pool, bound: nat)
    requires PoolOk(s) && Step(c, s, e, s')
    requires e.Triggered? ==> e.limit <= bound
    requires |Unfixed(c, s.outbound)| <= bound
    ensures MapOk(s'.outbound) && |Unfixed(c, s'.outbound)| <= bound
  {
    match e
    case OutboundClosed(id) =>
      DeleteOk(s.outbound, id);
      KeysAfterDelete(s.outbound, id);
      SubsetSize(Unfixed(c, s'.outbound), Unfixed(c, s.outbound));
    case Triggered(news, tried, limit, now) => TriggersBound(c, limit, s.outbound, news, tried, now, s'.outbound);
    case OutboundShuffled =>
      ShuffleKeepsFixed(c, s.outbound, s'.outbound);
      SubsetSize(Unfixed(c, s'.outbound), Unfixed(c, s.outbound));
    case Refreshed => RefreshKeys(s.outbound, s'.outbound);
    case _ =>
  }

  // ----- all runs --------------------------------------------------------------------------------

  ghost predicate WithinLimits(c: PoolConfig, s: Pool, inbound: nat, outbound: nat) {
    PoolOk(s) && |s.inbound| <= inbound && |Unfixed(c, s.outbound)| <= outbound
  }

  // Over every run the inbound connections stay within any bound on the limits at which there is always room,
  // whatever the ratios; the outbound connections to peers that are not fixed stay within their limit, and so all
  // outbound connections within the limit plus the number of fixed peers.
  lemma RunWithinLimits(c: PoolConfig, states: seq<Pool>, events: seq<Event>, inbound: nat, outbound: nat)
    requires AlwaysRoom(c.ratios, inbound, WhitelistSize(c))
    requires IsRun(c, states, events) && LimitsWithin(events, inbound, outbound)
    requires WithinLimits(c, states[0], inbound, outbound)
    ensures forall i | 0 <= i < |states| ::
      && WithinLimits(c, states[i], inbound, outbound)
      && |states[i].outbound| <= outbound + |IdsOf(c.fixedPeers)|
  {
    hide AlwaysRoom;
    forall i | 0 <= i < |states|
      ensures WithinLimits(c, states[i], inbound, outbound) && |states[i].outbound| <= outbound + |IdsOf(c.fixedPeers)|
    {
      StateWithinLimits(c, states, events, inbound, outbound, i);
      KeyCount(states[i].outbound, IdsOf(c.fixedPeers));
    }
  }

  function ModerateBound(c: PoolConfig, inbound: nat): (bound: nat)
    ensures bound == Max(inbound, WhitelistSize(c) + Slack(c.ratios))
    ensures bound >= inbound && bound >= WhitelistSize(c) + Slack(c.ratios)
  {
    Max(inbound, WhitelistSize(c) + Slack(c.ratios))
  }

  // For ratios of at most one half: within the limit, or within the whitelist plus two (plus one without latency
  // protection) if that is more.
  lemma ModerateRunWithinLimits(c: PoolConfig, states: seq<Pool>, events: seq<Event>, inbound: nat, outbound: nat)
    requires |states| == |events| + 1 && IsRun(c, states, events) && LimitsWithin(events, inbound, outbound)
    requires Moderate(c.ratios) && WithinLimits(c, states[0], ModerateBound(c, inbound), outbound)
    ensures forall i | 0 <= i < |states| :: WithinLimits(c, states[i], ModerateBound(c, inbound), outbound)
  {
    hide *;
    var bound := ModerateBound(c, inbound);
    ModerateRoomIff(c.ratios, bound, WhitelistSize(c));
    WiderLimits(events, inbound, bound, outbound);
    RunWithinLimits(c, states, events, bound, outbound);
  }

  lemma WiderLimits(events: seq<Event>, inbound: nat, bound: nat, outbound: nat)
    requires LimitsWithin(events, inbound, outbound) && inbound <= bound
    ensures LimitsWithin(events, bound, outbound)
  {}

  lemma StepKeepsLimits(c: PoolConfig, states: seq<Pool>, events: seq<Event>, inbound: nat, outbound: nat, i: nat)
    requires AlwaysRoom(c.ratios, inbound, WhitelistSize(c))
    requires StepAt(c, states, events, i) && WithinLimits(c, states[i], inbound, outbound)
    requires EventWithin(events[i], inbound, outbound)
    ensures WithinLimits(c, states[i + 1], inbound, outbound)
  {
    StepKeepsInbound(c, states[i], events[i], states[i + 1], inbound);
    StepKeepsOutbound(c, states[i], events[i], states[i + 1], outbound);
  }

  lemma {:induction false} StateWithinLimits(c: PoolConfig, states: seq<Pool>, events: seq<Event>,
                                             inbound: nat, outbound: nat, i: nat)
    requires AlwaysRoom(c.ratios, inbound, WhitelistSize(c))
    requires IsRun(c, states, events) && LimitsWithin(events, inbound, outbound)
    requires |states| == |events| + 1 && i < |states| && WithinLimits(c, states[0], inbound, outbound)
    ensures WithinLimits(c, states[i], inbound, outbound)
  {
    hide *;
    if i > 0 {
      StateWithinLimits(c, states, events, inbound, outbound, i - 1);
      RunStep(c, states, events, inbound, outbound, i - 1);
      StepKeepsLimits(c, states, events, inbound, outbound, i - 1);
    }
  }

  lemma RunStep(c: PoolConfig, states: seq<Pool>, events: seq<Event>, inbound: nat, outbound: nat, i: nat)
    requires IsRun(c, states, events) && LimitsWithin(events, inbound, outbound) && i < |events| < |states|
    ensures StepAt(c, states, events, i) && EventWithin(events[i], inbound, outbound)
  {
    assert events[i] in events;
  }

  // ----- the inbound bound cannot be improved ----------------------------------------------------

  function Connected(adds: seq<PoolPeer>): PeerMap {
    seq(|adds|, i requires 0 <= i < |adds| => (adds[i].id, adds[i]))
  }

  predicate FreshPeers(adds: seq<PoolPeer>) {
    && (forall i | 0 <= i < |adds| :: adds[i].id == PeerIdOf(adds[i].info))
    && (forall i, j | 0 <= i < j < |adds| :: adds[i].id != adds[j].id)
  }

  // Connecting adds[i] after the ones before it costs nobody: there is room, or nobody can be evicted.
  predicate CostsNobody(c: PoolConfig, adds: seq<PoolPeer>, limit: nat, i: nat)
    requires i <= |adds|
  {
    i < limit || CandidateCount(|Unlisted(adds[..i], IdsOf(c.whitelisted))|, c.ratios) == 0
  }

  lemma ConnectStep(c: PoolConfig, adds: seq<PoolPeer>, limit: nat, i: nat)
    requires FreshPeers(adds) && i < |adds| && CostsNobody(c, adds, limit, i)
    ensures AddsInbound(c, limit, Connected(adds[..i]), adds[i], Connected(adds[..i + 1]))
  {
    var m, p := Connected(adds[..i]), adds[i];
    ConnectedSnoc(adds, i);
    if i >= limit { NobodyEvicted(c, adds[..i]); }
    assert (if |m| >= limit then EvictsInbound(c, m, m) else m == m)
      && Set(m, p.id, p) == if Has(m, p.id) then m else Set(m, p.id, p);
  }

  lemma ConnectedSnoc(adds: seq<PoolPeer>, i: nat)
    requires FreshPeers(adds) && i < |adds|
    ensures !Has(Connected(adds[..i]), adds[i].id)
    ensures Connected(adds[..i + 1]) == Set(Connected(adds[..i]), adds[i].id, adds[i])
  {
    hide PeerIdOf;
    var m := Connected(adds[..i]);
    assert forall j | 0 <= j < i :: m[j].0 == adds[j].id != adds[i].id;
    assert Connected(adds[..i + 1]) == m + [(adds[i].id, adds[i])];
  }

  lemma NobodyEvicted(c: PoolConfig, peers: seq<PoolPeer>)
    requires CandidateCount(|Unlisted(peers, IdsOf(c.whitelisted))|, c.ratios) == 0
    ensures EvictsInbound(c, Connected(peers), Connected(peers))
  {
    assert ValuesOf(Connected(peers)) == peers;
    var unlisted := Unlisted(peers, IdsOf(c.whitelisted));
    var candidates := CandidatesAvailable(unlisted, c.ratios);
    CandidatesSize(unlisted, candidates, c.ratios);
    assert LosesOne(Connected(peers), candidates, Connected(peers));
  }

  // A run that connects these peers one after the other, from an empty pool.
  lemma ConnectAll(c: PoolConfig, adds: seq<PoolPeer>, limit: nat) returns (states: seq<Pool>, events: seq<Event>)
    requires FreshPeers(adds) && forall i | 0 <= i < |adds| :: CostsNobody(c, adds, limit, i)
    ensures IsRun(c, states, events) && states[0] == Pool([], []) && |events| == |adds|
    ensures forall i | 0 <= i < |events| :: events[i] == InboundAdded(adds[i], limit)
    ensures states[|adds|].inbound == Connected(adds)
  {
    states := seq(|adds| + 1, i requires 0 <= i <= |adds| => Pool(Connected(adds[..i]), []));
    events := seq(|adds|, i requires 0 <= i < |adds| => InboundAdded(adds[i], limit));
    forall i: nat | i < |events| ensures StepAt(c, states, events, i) {
      ConnectStep(c, adds, limit, i);
    }
    assert adds[..|adds|] == adds;
  }

  // One peer for each distinct id.
  function OnePerId(infos: seq<PeerInfo>): seq<PoolPeer> {
    if infos == [] then []
    else
      var n := |infos| - 1;
      var rest := OnePerId(infos[..n]);
      if PeerIdOf(infos[n]) in IdsOf(infos[..n]) then rest else rest + [NewPeer(infos[n], 0.0)]
  }

  lemma {:induction false} OnePerIdSpec(infos: seq<PeerInfo>)
    ensures |OnePerId(infos)| == |IdsOf(infos)| && FreshPeers(OnePerId(infos))
    ensures forall p | p in OnePerId(infos) :: p.id in IdsOf(infos)
  {
    hide PeerIdOf, FreshPeers;
    if infos == [] {
      NoPeersFresh();
    } else {
      var n := |infos| - 1;
      OnePerIdSpec(infos[..n]);
      if PeerIdOf(infos[n]) in IdsOf(infos[..n]) {
        assert IdsOf(infos) == IdsOf(infos[..n]);
      } else {
        FreshSnoc(OnePerId(infos[..n]), NewPeer(infos[n], 0.0));
      }
    }
  }

  ghost predicate RunFromEmpty(c: PoolConfig, limit: nat, states: seq<Pool>, events: seq<Event>) {
    && IsRun(c, states, events) && states[0] == Pool([], [])
    && forall i | 0 <= i < |events| :: events[i].InboundAdded? ==> events[i].limit == limit
  }

  // The inbound limit itself holds over every run exactly when that is so.
  lemma InboundLimitIff(c: PoolConfig, limit: nat)
    ensures (forall states: seq<Pool>, events: seq<Event> | RunFromEmpty(c, limit, states, events) ::
               |states[|events|].inbound| <= limit)
       <==> AlwaysRoom(c.ratios, limit, WhitelistSize(c))
  {
    hide FreshPeers, CandidateCount, IdsOf, PoolOk, StepAt, WhitelistSize;
    if AlwaysRoom(c.ratios, limit, WhitelistSize(c)) {
      forall states: seq<Pool>, events: seq<Event> | RunFromEmpty(c, limit, states, events)
        ensures |states[|events|].inbound| <= limit {
        InboundOfState(c, states, events, limit, |events|);
      }
    } else {
      var u: nat :| limit - WhitelistSize(c) <= u <= limit && !(CandidateCount(u, c.ratios) >= 1);
      var spare := SparePeers(IdsOf(c.whitelisted), limit + 1, 0);
      var states, events := Overfull(c, limit, spare, limit - u);
      assert RunFromEmpty(c, limit, states, events) && !(|states[|events|].inbound| <= limit);
    }
  }

  // ----- as many other peers as wanted -----------------------------------------------------------

  // The peer at the port of the unspecified address.
  function PeerAt(port: nat): PoolPeer {
    NewPeer(PeerInfo(CanonicalText(Zeros(8)), port, false, 0, map[]), 0.0)
  }

  lemma PortsDiffer(a: nat, b: nat)
    requires PeerAt(a).id == PeerAt(b).id
    ensures a == b
  {
    hide IsNormalIp, CanonicalText, PeerIdOf;
    ZeroAddressNormal();
    PeerIdOfInjective(PeerAt(a).info, PeerAt(b).info);
  }

  lemma ZeroAddressNormal()
    ensures IsNormalIp(CanonicalText(Zeros(8)))
  {
    hide CanonicalText, NormalizeIPv6;
    CanonicalTextStable(Zeros(8));
    CanonicalTextSplit(Zeros(8));
  }

  // A finite set of ids leaves some port free.
  lemma {:induction false} FreePort(ids: set<string>, from: nat) returns (port: nat)
    ensures port >= from && PeerAt(port).id !in ids
    decreases |ids|
  {
    hide PeerAt;
    port := from;
    if PeerAt(from).id in ids {
      port := FreePort(ids - {PeerAt(from).id}, from + 1);
      if PeerAt(port).id == PeerAt(from).id { PortsDiffer(port, from); }
    }
  }

  lemma {:induction false} SparePeers(ids: set<string>, n: nat, from: nat) returns (peers: seq<PoolPeer>)
    ensures |peers| == n && FreshPeers(peers) && forall p | p in peers :: p.id !in ids
    ensures forall p | p in peers :: exists port: nat :: port >= from && p == PeerAt(port)
  {
    hide PeerAt, FreshPeers, PeerIdOf;
    if n == 0 {
      peers := [];
      NoPeersFresh();
    } else {
      var port := FreePort(ids, from);
      var rest := SparePeers(ids, n - 1, port + 1);
      peers := rest + [PeerAt(port)];
      forall p | p in rest ensures p.id != PeerAt(port).id {
        var other: nat :| other >= port + 1 && p == PeerAt(other);
        if p.id == PeerAt(port).id { PortsDiffer(other, port); }
      }
      PeerAtId(port);
      FreshSnoc(rest, PeerAt(port));
    }
  }

  lemma PeerAtId(port: nat)
    ensures PeerAt(port).id == PeerIdOf(PeerAt(port).info)
  {}

  lemma {:induction false} InboundOfState(c: PoolConfig, states: seq<Pool>, events: seq<Event>, limit: nat, i: nat)
    requires RunFromEmpty(c, limit, states, events) && i < |states| && AlwaysRoom(c.ratios, limit, WhitelistSize(c))
    ensures PoolOk(states[i]) && |states[i].inbound| <= limit
  {
    hide Step, AlwaysRoom, WhitelistSize;
    if i > 0 {
      hide MapOk;
      InboundOfState(c, states, events, limit, i - 1);
      assert StepAt(c, states, events, i - 1);
      StepKeepsOutboundOk(c, states[i - 1], events[i - 1], states[i]);
      StepKeepsInbound(c, states[i - 1], events[i - 1], states[i], limit);
    }
  }

  lemma StepKeepsOutboundOk(c: PoolConfig, s: Pool, e: Event, s': Pool)
    requires PoolOk(s) && Step(c, s, e, s')
    ensures MapOk(s'.outbound)
  {
    var bound := if e.Triggered? then Max(e.limit, |Unfixed(c, s.outbound)|) else |Unfixed(c, s.outbound)|;
    StepKeepsOutbound(c, s, e, s', bound);
  }

  lemma NoPeersFresh()
    ensures FreshPeers([])
  {}

  lemma FreshSnoc(peers: seq<PoolPeer>, p: PoolPeer)
    requires FreshPeers(peers) && p.id == PeerIdOf(p.info) && forall q | q in peers :: q.id != p.id
    ensures FreshPeers(peers + [p])
  {}

  lemma {:induction false} UnlistedNone(peers: seq<PoolPeer>, ids: set<string>)
    requires forall p | p in peers :: p.id !in ids
    ensures Unlisted(peers, ids) == peers
  {
    if peers != [] {
      assert peers[0] in peers;
      UnlistedNone(peers[1..], ids);
    }
  }

  lemma {:induction false} UnlistedAfter(listed: seq<PoolPeer>, others: seq<PoolPeer>, ids: set<string>)
    requires (forall p | p in listed :: p.id in ids) && forall p | p in others :: p.id !in ids
    ensures Unlisted(listed + others, ids) == others
  {
    if listed == [] {
      assert listed + others == others;
      UnlistedNone(others, ids);
    } else {
      assert listed[0] in listed && (listed + others)[1..] == listed[1..] + others;
      UnlistedAfter(listed[1..], others, ids);
    }
  }

  lemma {:induction false} FreshTogether(listed: seq<PoolPeer>, others: seq<PoolPeer>, ids: set<string>)
    requires FreshPeers(listed) && FreshPeers(others)
    requires (forall p | p in listed :: p.id in ids) && forall p | p in others :: p.id !in ids
    ensures FreshPeers(listed + others)
  {
    var all := listed + others;
    forall i, j | 0 <= i < j < |all| ensures all[i].id != all[j].id {
      assert all[i] == if i < |listed| then listed[i] else others[i - |listed|];
      assert all[j] == if j < |listed| then listed[j] else others[j - |listed|];
      if i < |listed| <= j { assert listed[i] in listed && others[j - |listed|] in others; }
    }
  }

  // The run that connects `w` whitelisted peers and then others: the last one finds the pool full and nobody to
  // evict.
  lemma Overfull(c: PoolConfig, limit: nat, spare: seq<PoolPeer>, w: nat)
    returns (states: seq<Pool>, events: seq<Event>)
    requires FreshPeers(spare) && |spare| == limit + 1 && forall p | p in spare :: p.id !in IdsOf(c.whitelisted)
    requires w <= WhitelistSize(c) && w <= limit && CandidateCount(limit - w, c.ratios) <= 0
    ensures RunFromEmpty(c, limit, states, events) && |states[|events|].inbound| == limit + 1
  {
    hide PeerIdOf, CandidateCount, IdsOf, Unlisted, IsRun;
    var ids := IdsOf(c.whitelisted);
    OnePerIdSpec(c.whitelisted);
    var listed, others := OnePerId(c.whitelisted)[..w], spare[..limit + 1 - w];
    forall p | p in others ensures p in spare {}
    FreshTogether(listed, others, ids);
    var adds := listed + others;
    assert adds[..limit] == listed + spare[..limit - w];
    forall p | p in spare[..limit - w] ensures p in spare {}
    UnlistedAfter(listed, spare[..limit - w], ids);
    CountNonNegative(limit - w, c.ratios);
    assert CostsNobody(c, adds, limit, limit);
    states, events := ConnectAll(c, adds, limit);
  }

  // ----- connected both ways ---------------------------------------------------------------------

  // The node connects to a tried peer, and the peer connects to the node from its advertised port: one id in
  // both maps.
  lemma BothWays(c: PoolConfig, info: PeerInfo, outLimit: nat, inLimit: nat, now: real)
    returns (states: seq<Pool>, events: seq<Event>)
    requires outLimit >= 1 && inLimit >= 1 && !AddressIn(c.fixedPeers, info.ipAddress)
    ensures IsRun(c, states, events) && states[0] == Pool([], [])
    ensures events == [Triggered([], [info], outLimit, now), InboundAdded(NewPeer(info, now), inLimit)]
    ensures PeerIdOf(info) in KeySet(states[2].inbound) * KeySet(states[2].outbound)
  {
    hide PeerIdOf;
    var peer := NewPeer(info, now);
    var outbound := AddAllOutbound([], [info] + Missing(c.fixedPeers, []), now);
    events := [Triggered([], [info], outLimit, now), InboundAdded(peer, inLimit)];
    states := [Pool([], []), Pool([], outbound), Pool(Set([], peer.id, peer), outbound)];
    assert Disconnected([info], [], c.fixedPeers) == [info];
    assert Selected([], [info], outLimit, [info]);
    assert StepAt(c, states, events, 0);
    assert AddsInbound(c, inLimit, [], peer, Set([], peer.id, peer));
    assert StepAt(c, states, events, 1);
    ConnectedKeys(c, [], [info], now);
    assert [info][..0] == [];
    assert Set([], peer.id, peer)[0].0 == PeerIdOf(info);
  }
}
