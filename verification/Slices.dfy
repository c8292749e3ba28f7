// Who is protected from eviction (src/peer_pool.js, `_selectPeersForEviction`), said of the metrics themselves.
module Slices {
  import opened Wrappers
  import opened OrderedMap
  import opened Peers
  import opened Protection
  import opened Pools
  import P = PoolRuns

  // ----- the order of the sort -------------------------------------------------------------------

  // Ascending latency and connect time, descending response rate.
  lemma SortedMeans(s: seq<PoolPeer>)
    ensures Sorted(s, Latency, true) <==> forall i, j | 0 <= i < j < |s| :: s[i].latency <= s[j].latency
    ensures Sorted(s, ResponseRate, false) <==> forall i, j | 0 <= i < j < |s| :: s[i].responseRate >= s[j].responseRate
    ensures Sorted(s, ConnectTime, true) <==> forall i, j | 0 <= i < j < |s| :: s[i].connectTime <= s[j].connectTime
    ensures Sorted(s, Latency, false) <==> forall i, j | 0 <= i < j < |s| :: s[i].latency >= s[j].latency
    ensures Sorted(s, ResponseRate, true) <==> forall i, j | 0 <= i < j < |s| :: s[i].responseRate <= s[j].responseRate
    ensures Sorted(s, ConnectTime, false) <==> forall i, j | 0 <= i < j < |s| :: s[i].connectTime >= s[j].connectTime
  {}

  // ----- how many a stage takes out ----------------------------------------------------------------

  lemma CeilIs(n: nat, ratio: real, k: int)
    requires (k - 1) as real < n as real * ratio <= k as real
    ensures CeilOf(n, ratio) == k
  {
    NegatedFloor(n as real * ratio, k);
  }

  lemma NegatedFloor(x: real, k: int)
    requires (k - 1) as real < x <= k as real
    ensures -((-x).Floor) == k
  {}

  // Of n peers a stage leaves m: it takes out as many as n times its ratio, rounded up. A ratio of zero, below or
  // above one takes out nobody.
  predicate Leaves(n: nat, ratio: real, m: nat) {
    if 0.0 < ratio <= 1.0 then (n - m - 1) as real < n as real * ratio <= (n - m) as real else m == n
  }

  lemma LeavesIs(n: nat, ratio: real, m: nat)
    requires Leaves(n, ratio, m)
    ensures Remaining(n, ratio) == m
  {
    if 0.0 < ratio <= 1.0 { CeilIs(n, ratio, n - m); }
  }

  // ----- counting positions ------------------------------------------------------------------------

  function CountIf<T>(s: seq<T>, f: T -> bool): nat {
    if s == [] then 0 else CountIf(s[..|s| - 1], f) + if f(s[|s| - 1]) then 1 else 0
  }

  ghost function Positions<T>(s: seq<T>, f: T -> bool): set<int> {
    set i | 0 <= i < |s| && f(s[i])
  }

  lemma {:induction false} CountIfSize<T>(s: seq<T>, f: T -> bool)
    ensures |Positions(s, f)| == CountIf(s, f)
  {
    if s != [] {
      var n := |s| - 1;
      CountIfSize(s[..n], f);
      assert Positions(s, f) == if f(s[n]) then Positions(s[..n], f) + {n} else Positions(s[..n], f);
    }
  }

  function NoWorseThan(p: PoolPeer, category: Category, asc: bool): PoolPeer -> bool {
    q => NoWorse(q, p, category, asc)
  }

  // Of entries off the list.
  function OffList(ids: set<string>, f: PoolPeer -> bool): ((string, PoolPeer)) -> bool {
    (e: (string, PoolPeer)) => e.0 !in ids && f(e.1)
  }

  function Anyone(): PoolPeer -> bool {
    q => true
  }

  lemma {:induction false} CountNoWorseIf(s: seq<PoolPeer>, p: PoolPeer, category: Category, asc: bool)
    ensures CountNoWorse(s, p, category, asc) == CountIf(s, NoWorseThan(p, category, asc))
  {
    if s != [] {
      var n := |s| - 1;
      CountNoWorseIf(s[..n], p, category, asc);
      CountConcat(s[..n], [s[n]], p, category, asc);
      assert s == s[..n] + [s[n]] && [s[n]][1..] == [];
    }
  }

  lemma {:induction false} UnlistedSnoc(peers: seq<PoolPeer>, p: PoolPeer, ids: set<string>)
    ensures Unlisted(peers + [p], ids) == Unlisted(peers, ids) + if p.id in ids then [] else [p]
  {
    if peers == [] {
      assert peers + [p] == [p] && [p][1..] == [];
    } else {
      assert (peers + [p])[1..] == peers[1..] + [p];
      UnlistedSnoc(peers[1..], p, ids);
    }
  }

  lemma CountIfSnoc<T>(s: seq<T>, x: T, f: T -> bool)
    ensures CountIf(s + [x], f) == CountIf(s, f) + if f(x) then 1 else 0
  {
    assert (s + [x])[..|s|] == s;
  }

  // Counting among the peers off the list is counting in the map.
  lemma {:induction false} UnlistedCount(m: PeerMap, ids: set<string>, f: PoolPeer -> bool)
    requires MapOk(m)
    ensures CountIf(Unlisted(ValuesOf(m), ids), f)
         == CountIf(m, OffList(ids, f))
  {
    hide PeerIdOf;
    if m != [] {
      var n := |m| - 1;
      UnlistedCount(m[..n], ids, f);
      assert ValuesOf(m) == ValuesOf(m[..n]) + [m[n].1];
      UnlistedSnoc(ValuesOf(m[..n]), m[n].1, ids);
      var before := Unlisted(ValuesOf(m[..n]), ids);
      CountIfSnoc(before, m[n].1, f);
      assert before + [] == before;
      assert OffList(ids, f)(m[n]) <==> m[n].1.id !in ids && f(m[n].1);
    }
  }

  lemma {:induction false} CountIfAll(s: seq<PoolPeer>)
    ensures CountIf(s, Anyone()) == |s|
  {
    if s != [] { CountIfAll(s[..|s| - 1]); }
  }

  // ----- the three slices --------------------------------------------------------------------------

  lemma LatencySlice(peers: seq<PoolPeer>, p: PoolPeer, ratios: Ratios, k: int)
    requires 0.0 < ratios.latency <= 1.0
    requires (k - 1) as real < |peers| as real * ratios.latency <= k as real
    requires |set i | 0 <= i < |peers| && peers[i].latency <= p.latency| <= k
    ensures InTopSlice(peers, p, ratios)
  {
    hide CountNoWorse, CeilOf, Remaining;
    CeilIs(|peers|, ratios.latency, k);
    CountNoWorseIf(peers, p, Latency, true);
    var f := NoWorseThan(p, Latency, true);
    CountIfSize(peers, f);
    assert (set i | 0 <= i < |peers| && peers[i].latency <= p.latency) == Positions(peers, f);
  }

  lemma ResponseRateSlice(peers: seq<PoolPeer>, p: PoolPeer, ratios: Ratios, first: nat, k: int)
    requires Leaves(|peers|, ratios.latency, first) && first > 1 && 0.0 < ratios.productivity <= 1.0
    requires (k - 1) as real < first as real * ratios.productivity <= k as real
    requires |set i | 0 <= i < |peers| && peers[i].responseRate >= p.responseRate| <= k
    ensures InTopSlice(peers, p, ratios)
  {
    hide CountNoWorse, CeilOf, Remaining, Leaves;
    LeavesIs(|peers|, ratios.latency, first);
    CeilIs(first, ratios.productivity, k);
    CountNoWorseIf(peers, p, ResponseRate, false);
    var f := NoWorseThan(p, ResponseRate, false);
    CountIfSize(peers, f);
    assert (set i | 0 <= i < |peers| && peers[i].responseRate >= p.responseRate)
        == Positions(peers, f);
  }

  lemma ConnectTimeSlice(peers: seq<PoolPeer>, p: PoolPeer, ratios: Ratios, first: nat, second: nat, k: int)
    requires Leaves(|peers|, ratios.latency, first) && first > 1
    requires Leaves(first, ratios.productivity, second) && second > 1 && 0.0 < ratios.longevity <= 1.0
    requires (k - 1) as real < second as real * ratios.longevity <= k as real
    requires |set i | 0 <= i < |peers| && peers[i].connectTime <= p.connectTime| <= k
    ensures InTopSlice(peers, p, ratios)
  {
    hide CountNoWorse, CeilOf, Remaining, Leaves;
    LeavesIs(|peers|, ratios.latency, first);
    LeavesIs(first, ratios.productivity, second);
    CeilIs(second, ratios.longevity, k);
    CountNoWorseIf(peers, p, ConnectTime, true);
    var f := NoWorseThan(p, ConnectTime, true);
    CountIfSize(peers, f);
    assert (set i | 0 <= i < |peers| && peers[i].connectTime <= p.connectTime)
        == Positions(peers, f);
  }

  // A peer with at most k positions of lower or equal latency, where k is the number of peers times the ratio rounded
  // up, is no candidate.
  lemma LowLatencyNoCandidate(peers: seq<PoolPeer>, candidates: seq<PoolPeer>, p: PoolPeer, ratios: Ratios, k: int)
    requires EvictionCandidates(peers, candidates, ratios) && 0.0 < ratios.latency <= 1.0
    requires (k - 1) as real < |peers| as real * ratios.latency <= k as real
    requires |set i | 0 <= i < |peers| && peers[i].latency <= p.latency| <= k
    ensures p !in candidates
  {
    hide EvictionCandidates, InTopSlice;
    LatencySlice(peers, p, ratios, k);
    ProtectedNeverCandidate(peers, candidates, p, ratios);
  }

  // Nor is one with at most k of higher or equal response rate, of the number that the first stage leaves,
  lemma HighResponseRateNoCandidate(peers: seq<PoolPeer>, candidates: seq<PoolPeer>, p: PoolPeer, ratios: Ratios,
                                    first: nat, k: int)
    requires EvictionCandidates(peers, candidates, ratios) && 0.0 < ratios.productivity <= 1.0
    requires Leaves(|peers|, ratios.latency, first) && first > 1
    requires (k - 1) as real < first as real * ratios.productivity <= k as real
    requires |set i | 0 <= i < |peers| && peers[i].responseRate >= p.responseRate| <= k
    ensures p !in candidates
  {
    hide EvictionCandidates, InTopSlice, Leaves;
    ResponseRateSlice(peers, p, ratios, first, k);
    ProtectedNeverCandidate(peers, candidates, p, ratios);
  }

  // or with at most k of earlier or equal connect time, of the number that the first two leave.
  lemma EarlyConnectNoCandidate(peers: seq<PoolPeer>, candidates: seq<PoolPeer>, p: PoolPeer, ratios: Ratios,
                                first: nat, second: nat, k: int)
    requires EvictionCandidates(peers, candidates, ratios) && 0.0 < ratios.longevity <= 1.0
    requires Leaves(|peers|, ratios.latency, first) && first > 1
    requires Leaves(first, ratios.productivity, second) && second > 1
    requires (k - 1) as real < second as real * ratios.longevity <= k as real
    requires |set i | 0 <= i < |peers| && peers[i].connectTime <= p.connectTime| <= k
    ensures p !in candidates
  {
    hide EvictionCandidates, InTopSlice, Leaves;
    ConnectTimeSlice(peers, p, ratios, first, second, k);
    ProtectedNeverCandidate(peers, candidates, p, ratios);
  }

  // ----- connections that stay ---------------------------------------------------------------------

  lemma PositionsInMap(m: PeerMap, ids: set<string>, f: PoolPeer -> bool)
    requires MapOk(m)
    ensures |Positions(Unlisted(ValuesOf(m), ids), f)| == |Positions(m, OffList(ids, f))|
    ensures |Unlisted(ValuesOf(m), ids)| == |set i | 0 <= i < |m| && m[i].0 !in ids|
  {
    hide Unlisted, MapOk;
    var unlisted := Unlisted(ValuesOf(m), ids);
    UnlistedCount(m, ids, f);
    CountIfSize(unlisted, f);
    CountIfSize(m, OffList(ids, f));
    UnlistedCount(m, ids, Anyone());
    CountIfAll(unlisted);
    CountIfSize(m, OffList(ids, Anyone()));
    assert (set i | 0 <= i < |m| && m[i].0 !in ids) == Positions(m, OffList(ids, Anyone()));
  }

  // Adding a peer never costs its entry a connected one off the whitelist, when among all those off the whitelist at
  // most k have lower or equal latency, with k as above,
  lemma LowLatencyStays(c: PoolConfig, limit: nat, m: PeerMap, added: PoolPeer, m': PeerMap, p: PoolPeer, k: int)
    requires MapOk(m) && AddsInbound(c, limit, m, added, m') && Get(m, p.id) == Some(p)
    requires 0.0 < c.ratios.latency <= 1.0
    requires var ids := IdsOf(c.whitelisted);
      && (k - 1) as real < |set i | 0 <= i < |m| && m[i].0 !in ids| as real * c.ratios.latency <= k as real
      && |set i | 0 <= i < |m| && m[i].0 !in ids && m[i].1.latency <= p.latency| <= k
    ensures Get(m', p.id) == Some(p)
  {
    hide InTopSlice, AddsInbound, MapOk, Unlisted, Get, IdsOf, ValuesOf, CountIf;
    var ids := IdsOf(c.whitelisted);
    var unlisted, f := Unlisted(ValuesOf(m), ids), (q: PoolPeer) => q.latency <= p.latency;
    PositionsInMap(m, ids, f);
    assert (set i | 0 <= i < |m| && m[i].0 !in ids && m[i].1.latency <= p.latency)
        == Positions(m, OffList(ids, f));
    assert (set i | 0 <= i < |unlisted| && unlisted[i].latency <= p.latency)
        == Positions(unlisted, f);
    LatencySlice(unlisted, p, c.ratios, k);
    P.ProtectedStays(c, limit, m, added, m', p);
  }

  // or higher or equal response rate, of the number that the first stage leaves,
  lemma HighResponseRateStays(c: PoolConfig, limit: nat, m: PeerMap, added: PoolPeer, m': PeerMap, p: PoolPeer,
                              first: nat, k: int)
    requires MapOk(m) && AddsInbound(c, limit, m, added, m') && Get(m, p.id) == Some(p)
    requires 0.0 < c.ratios.productivity <= 1.0
    requires var ids := IdsOf(c.whitelisted);
      && Leaves(|set i | 0 <= i < |m| && m[i].0 !in ids|, c.ratios.latency, first) && first > 1
      && (k - 1) as real < first as real * c.ratios.productivity <= k as real
      && |set i | 0 <= i < |m| && m[i].0 !in ids && m[i].1.responseRate >= p.responseRate| <= k
    ensures Get(m', p.id) == Some(p)
  {
    hide InTopSlice, AddsInbound, MapOk, Unlisted, Get, Leaves, IdsOf, ValuesOf, CountIf;
    var ids := IdsOf(c.whitelisted);
    var unlisted, f := Unlisted(ValuesOf(m), ids), (q: PoolPeer) => q.responseRate >= p.responseRate;
    PositionsInMap(m, ids, f);
    assert (set i | 0 <= i < |m| && m[i].0 !in ids && m[i].1.responseRate >= p.responseRate)
        == Positions(m, OffList(ids, f));
    assert (set i | 0 <= i < |unlisted| && unlisted[i].responseRate >= p.responseRate)
        == Positions(unlisted, f);
    ResponseRateSlice(unlisted, p, c.ratios, first, k);
    P.ProtectedStays(c, limit, m, added, m', p);
  }

  // or earlier or equal connect time, of the number that the first two leave.
  lemma EarlyConnectStays(c: PoolConfig, limit: nat, m: PeerMap, added: PoolPeer, m': PeerMap, p: PoolPeer,
                          first: nat, second: nat, k: int)
    requires MapOk(m) && AddsInbound(c, limit, m, added, m') && Get(m, p.id) == Some(p)
    requires 0.0 < c.ratios.longevity <= 1.0
    requires var ids := IdsOf(c.whitelisted);
      && Leaves(|set i | 0 <= i < |m| && m[i].0 !in ids|, c.ratios.latency, first) && first > 1
      && Leaves(first, c.ratios.productivity, second) && second > 1
      && (k - 1) as real < second as real * c.ratios.longevity <= k as real
      && |set i | 0 <= i < |m| && m[i].0 !in ids && m[i].1.connectTime <= p.connectTime| <= k
    ensures Get(m', p.id) == Some(p)
  {
    hide InTopSlice, AddsInbound, MapOk, Unlisted, Get, Leaves, IdsOf, ValuesOf, CountIf;
    var ids := IdsOf(c.whitelisted);
    var unlisted, f := Unlisted(ValuesOf(m), ids), (q: PoolPeer) => q.connectTime <= p.connectTime;
    PositionsInMap(m, ids, f);
    assert (set i | 0 <= i < |m| && m[i].0 !in ids && m[i].1.connectTime <= p.connectTime)
        == Positions(m, OffList(ids, f));
    assert (set i | 0 <= i < |unlisted| && unlisted[i].connectTime <= p.connectTime)
        == Positions(unlisted, f);
    ConnectTimeSlice(unlisted, p, c.ratios, first, second, k);
    P.ProtectedStays(c, limit, m, added, m', p);
  }
}
