// Protection from eviction (src/peer_pool.js, `filterPeersByCategory` and `_selectPeersForEviction`).
// Ratios and metrics are real numbers; the sort may order equal peers in any way.
module Protection {
  import opened Peers

  datatype PoolPeer = PoolPeer(id: string, info: PeerInfo, latency: real, responseRate: real, connectTime: real)

  datatype Category = Latency | ResponseRate | ConnectTime

  function Metric(p: PoolPeer, category: Category): real {
    match category
    case Latency => p.latency
    case ResponseRate => p.responseRate
    case ConnectTime => p.connectTime
  }

  // Ascending sort puts the smallest value first. Peers sorted first are protected.
  predicate NoWorse(a: PoolPeer, b: PoolPeer, category: Category, asc: bool) {
    if asc then Metric(a, category) <= Metric(b, category) else Metric(a, category) >= Metric(b, category)
  }

  predicate Sorted(s: seq<PoolPeer>, category: Category, asc: bool) {
    forall i, j | 0 <= i < j < |s| :: NoWorse(s[i], s[j], category, asc)
  }

  function Insert(s: seq<PoolPeer>, p: PoolPeer, category: Category, asc: bool): (r: seq<PoolPeer>)
    ensures multiset(r) == multiset(s) + multiset{p}
  {
    if s == [] || NoWorse(p, s[0], category, asc) then [p] + s
    else
      assert s == [s[0]] + s[1..];
      [s[0]] + Insert(s[1..], p, category, asc)
  }

  lemma {:induction false} InsertSorted(s: seq<PoolPeer>, p: PoolPeer, category: Category, asc: bool)
    requires Sorted(s, category, asc)
    ensures Sorted(Insert(s, p, category, asc), category, asc)
  {
    if s != [] && !NoWorse(p, s[0], category, asc) {
      InsertSorted(s[1..], p, category, asc);
      var t := Insert(s[1..], p, category, asc);
      forall x | x in t ensures NoWorse(s[0], x, category, asc) {
        assert x in multiset(t);
        assert x in multiset(s[1..]) || x == p;
        if x in multiset(s[1..]) { assert x in s[1..]; }
      }
    }
  }

  // `peers.sort(...)`
  method SortByCategory(peers: seq<PoolPeer>, category: Category, asc: bool) returns (sorted: seq<PoolPeer>)
    ensures multiset(sorted) == multiset(peers) && Sorted(sorted, category, asc)
  {
    sorted := [];
    for i := 0 to |peers|
      invariant multiset(sorted) == multiset(peers[..i]) && Sorted(sorted, category, asc)
    {
      InsertSorted(sorted, peers[i], category, asc);
      assert peers[..i + 1] == peers[..i] + [peers[i]];
      sorted := Insert(sorted, peers[i], category, asc);
    }
    assert peers[..|peers|] == peers;
  }

  // `Math.ceil(n * percentage)`
  function CeilOf(n: nat, percentage: real): int {
    -((-(n as real * percentage)).Floor)
  }

  lemma ScaleMonotone(a: real, x: real, y: real)
    requires a >= 0.0 && x <= y
    ensures a * x <= a * y
  {}

  lemma HalfRounded(n: nat)
    ensures n as real * 0.5 <= ((n + 1) / 2) as real
  {
    assert n as real <= (2 * ((n + 1) / 2)) as real;
  }

  // Rounding x up stays below any integer that x is below.
  lemma CeilAtMost(x: real, y: real, k: int)
    requires x <= y <= k as real
    ensures -((-x).Floor) <= k
  {}

  lemma CeilBounds(n: nat, percentage: real)
    requires 0.0 <= percentage <= 1.0
    ensures 0 <= CeilOf(n, percentage) <= n
    ensures percentage > 0.0 && n >= 1 ==> CeilOf(n, percentage) >= 1
    ensures percentage <= 0.5 ==> CeilOf(n, percentage) <= (n + 1) / 2
  {
    CeilInRange(n, percentage);
    if percentage > 0.0 && n >= 1 { CeilPositive(n, percentage); }
    if percentage <= 0.5 { CeilHalf(n, percentage); }
  }

  lemma CeilInRange(n: nat, percentage: real)
    requires 0.0 <= percentage <= 1.0
    ensures 0 <= CeilOf(n, percentage) <= n
  {
    ScaleMonotone(n as real, 0.0, percentage);
    ScaleMonotone(n as real, percentage, 1.0);
    CeilAtMost(n as real * percentage, n as real * 1.0, n);
  }

  lemma CeilPositive(n: nat, percentage: real)
    requires 0.0 < percentage && n >= 1
    ensures CeilOf(n, percentage) >= 1
  {
    ScaleMonotone(percentage, 1.0, n as real);
  }

  lemma CeilHalf(n: nat, percentage: real)
    requires 0.0 <= percentage <= 0.5
    ensures CeilOf(n, percentage) <= (n + 1) / 2
  {
    ScaleMonotone(n as real, percentage, 0.5);
    HalfRounded(n);
    CeilAtMost(n as real * percentage, n as real * 0.5, (n + 1) / 2);
  }

  // One stage: the `CeilOf(n, percentage)` best peers are taken out.
  ghost predicate Protects(before: seq<PoolPeer>, safe: seq<PoolPeer>, after: seq<PoolPeer>,
                           category: Category, asc: bool, percentage: real) {
    && multiset(safe) + multiset(after) == multiset(before)
    && |safe| == CeilOf(|before|, percentage)
    && forall a, b | a in safe && b in after :: NoWorse(a, b, category, asc)
  }

  ghost predicate Filtered(before: seq<PoolPeer>, after: seq<PoolPeer>, category: Category, asc: bool,
                           percentage: real) {
    if percentage > 1.0 || percentage < 0.0 then after == before
    else exists safe :: Protects(before, safe, after, category, asc, percentage)
  }

  method FilterPeersByCategory(peers: seq<PoolPeer>, category: Category, percentage: real, asc: bool)
    returns (rest: seq<PoolPeer>)
    ensures Filtered(peers, rest, category, asc, percentage)
  {
    if percentage > 1.0 || percentage < 0.0 {
      return peers;
    }
    CeilBounds(|peers|, percentage);
    var peerCount := CeilOf(|peers|, percentage);
    var sorted := SortByCategory(peers, category, asc);
    assert |multiset(sorted)| == |multiset(peers)|;
    rest := sorted[peerCount..];
    assert sorted == sorted[..peerCount] + rest;
    assert Protects(peers, sorted[..peerCount], rest, category, asc, percentage);
  }

  // A ratio of zero switches a stage off.
  ghost predicate Stage(before: seq<PoolPeer>, after: seq<PoolPeer>, category: Category, asc: bool, ratio: real) {
    if ratio == 0.0 then after == before else Filtered(before, after, category, asc, ratio)
  }

  datatype Ratios = Ratios(latency: real, productivity: real, longevity: real)

  // The three stages, with the two early returns.
  ghost predicate EvictionCandidates(peers: seq<PoolPeer>, candidates: seq<PoolPeer>, ratios: Ratios) {
    exists first ::
      && Stage(peers, first, Latency, true, ratios.latency)
      && if |first| <= 1 then candidates == first
         else LaterStages(first, candidates, ratios)
  }

  ghost predicate LaterStages(first: seq<PoolPeer>, candidates: seq<PoolPeer>, ratios: Ratios) {
    exists second ::
      && Stage(first, second, ResponseRate, false, ratios.productivity)
      && if |second| <= 1 then candidates == second
         else Stage(second, candidates, ConnectTime, true, ratios.longevity)
  }

  method FilterStage(peers: seq<PoolPeer>, category: Category, ratio: real, asc: bool) returns (rest: seq<PoolPeer>)
    ensures Stage(peers, rest, category, asc, ratio)
  {
    if ratio == 0.0 {
      return peers;
    }
    rest := FilterPeersByCategory(peers, category, ratio, asc);
  }

  method SelectPeersForEviction(peers: seq<PoolPeer>, ratios: Ratios) returns (candidates: seq<PoolPeer>)
    ensures EvictionCandidates(peers, candidates, ratios)
  {
    var first := FilterStage(peers, Latency, ratios.latency, true);
    if |first| <= 1 {
      return first;
    }
    var second := FilterStage(first, ResponseRate, ratios.productivity, false);
    if |second| <= 1 {
      assert LaterStages(first, second, ratios);
      return second;
    }
    candidates := FilterStage(second, ConnectTime, ratios.longevity, true);
    assert LaterStages(first, candidates, ratios);
  }

  // ----- how many candidates remain -----------------------------------------------------------------------

  // Peers left by one stage.
  function Remaining(n: nat, ratio: real): int {
    if ratio == 0.0 || ratio > 1.0 || ratio < 0.0 then n else n - CeilOf(n, ratio)
  }

  // Peers left by all three.
  function CandidateCount(n: nat, ratios: Ratios): int {
    var first := Remaining(n, ratios.latency);
    if first <= 1 then first
    else
      var second := Remaining(first, ratios.productivity);
      if second <= 1 then second else Remaining(second, ratios.longevity)
  }

  lemma StageSize(before: seq<PoolPeer>, after: seq<PoolPeer>, category: Category, asc: bool, ratio: real)
    requires Stage(before, after, category, asc, ratio)
    ensures |after| == Remaining(|before|, ratio)
    ensures multiset(after) <= multiset(before)
  {
    if Remaining(|before|, ratio) != |before| || after != before {
      var safe :| Protects(before, safe, after, category, asc, ratio);
      assert |multiset(safe) + multiset(after)| == |safe| + |after|;
      assert |multiset(before)| == |before|;
    }
  }

  // The candidates are taken from the peers given, and their number is fixed by the ratios.
  lemma CandidatesSize(peers: seq<PoolPeer>, candidates: seq<PoolPeer>, ratios: Ratios)
    requires EvictionCandidates(peers, candidates, ratios)
    ensures multiset(candidates) <= multiset(peers)
    ensures |candidates| == CandidateCount(|peers|, ratios)
  {
    var first :| Stage(peers, first, Latency, true, ratios.latency)
      && if |first| <= 1 then candidates == first else LaterStages(first, candidates, ratios);
    StageSize(peers, first, Latency, true, ratios.latency);
    if |first| > 1 {
      var second :| Stage(first, second, ResponseRate, false, ratios.productivity)
        && if |second| <= 1 then candidates == second
           else Stage(second, candidates, ConnectTime, true, ratios.longevity);
      StageSize(first, second, ResponseRate, false, ratios.productivity);
      if |second| > 1 {
        StageSize(second, candidates, ConnectTime, true, ratios.longevity);
      }
    }
  }

  function SortedBy(peers: seq<PoolPeer>, category: Category, asc: bool): (r: seq<PoolPeer>)
    ensures multiset(r) == multiset(peers)
  {
    if peers == [] then []
    else
      assert peers == [peers[0]] + peers[1..];
      Insert(SortedBy(peers[1..], category, asc), peers[0], category, asc)
  }

  lemma {:induction false} SortedByIsSorted(peers: seq<PoolPeer>, category: Category, asc: bool)
    ensures Sorted(SortedBy(peers, category, asc), category, asc)
  {
    if peers != [] {
      SortedByIsSorted(peers[1..], category, asc);
      InsertSorted(SortedBy(peers[1..], category, asc), peers[0], category, asc);
    }
  }

  // Every stage has a possible outcome, and so have the three together.
  lemma StageExists(before: seq<PoolPeer>, category: Category, asc: bool, ratio: real) returns (after: seq<PoolPeer>)
    ensures Stage(before, after, category, asc, ratio)
  {
    if ratio <= 0.0 || ratio > 1.0 {
      after := before;
    } else {
      CeilInRange(|before|, ratio);
      var k, sorted := CeilOf(|before|, ratio), SortedBy(before, category, asc);
      SortedByIsSorted(before, category, asc);
      assert |multiset(sorted)| == |multiset(before)|;
      after := sorted[k..];
      assert sorted == sorted[..k] + after;
      assert Protects(before, sorted[..k], after, category, asc, ratio);
    }
  }

  lemma CandidatesAvailable(peers: seq<PoolPeer>, ratios: Ratios) returns (candidates: seq<PoolPeer>)
    ensures EvictionCandidates(peers, candidates, ratios)
  {
    var first := StageExists(peers, Latency, true, ratios.latency);
    if |first| <= 1 {
      candidates := first;
    } else {
      var second := StageExists(first, ResponseRate, false, ratios.productivity);
      if |second| <= 1 {
        candidates := second;
      } else {
        candidates := StageExists(second, ConnectTime, true, ratios.longevity);
      }
      assert LaterStages(first, candidates, ratios);
    }
  }

  lemma CountNonNegative(n: nat, ratios: Ratios)
    ensures CandidateCount(n, ratios) >= 0
  {
    RemainingInRange(n, ratios.latency);
    var first := Remaining(n, ratios.latency);
    RemainingInRange(first, ratios.productivity);
    RemainingInRange(Remaining(first, ratios.productivity), ratios.longevity);
  }

  lemma RemainingInRange(n: nat, ratio: real)
    ensures 0 <= Remaining(n, ratio) <= n
  {
    if 0.0 <= ratio <= 1.0 { CeilInRange(n, ratio); }
  }

  predicate Moderate(ratios: Ratios) {
    0.0 <= ratios.latency <= 0.5 && 0.0 <= ratios.productivity <= 0.5 && 0.0 <= ratios.longevity <= 0.5
  }

  lemma RemainingAtLeastHalf(n: nat, ratio: real)
    requires 0.0 <= ratio <= 0.5
    ensures n / 2 <= Remaining(n, ratio) <= n
  {
    CeilBounds(n, ratio);
  }

  // How many peers it takes for one of them to be a candidate: a single one is always among the ceil(ratio) of
  // lowest latency, unless that protection is off.
  function Slack(ratios: Ratios): nat {
    if ratios.latency > 0.0 then 2 else 1
  }

  // With ratios of at most one half there is a candidate exactly from that number of peers on.
  lemma CandidatesExist(n: nat, ratios: Ratios)
    requires Moderate(ratios)
    ensures CandidateCount(n, ratios) >= 1 <==> n >= Slack(ratios)
  {
    CeilBounds(n, ratios.latency);
    RemainingAtLeastHalf(n, ratios.latency);
    var first := Remaining(n, ratios.latency);
    RemainingAtLeastHalf(first, ratios.productivity);
    RemainingAtLeastHalf(Remaining(first, ratios.productivity), ratios.longevity);
  }

  // ----- who is protected ------------------------------------------------------------------------

  // How many peers of s are no worse than p.
  function CountNoWorse(s: seq<PoolPeer>, p: PoolPeer, category: Category, asc: bool): nat {
    if s == [] then 0
    else (if NoWorse(s[0], p, category, asc) then 1 else 0) + CountNoWorse(s[1..], p, category, asc)
  }

  lemma {:induction false} CountConcat(a: seq<PoolPeer>, b: seq<PoolPeer>, p: PoolPeer, category: Category, asc: bool)
    ensures CountNoWorse(a + b, p, category, asc)
         == CountNoWorse(a, p, category, asc) + CountNoWorse(b, p, category, asc)
  {
    if a == [] {
      assert a + b == b;
    } else {
      assert (a + b)[1..] == a[1..] + b;
      CountConcat(a[1..], b, p, category, asc);
    }
  }

  lemma CountRemove(t: seq<PoolPeer>, i: nat, p: PoolPeer, category: Category, asc: bool)
    requires i < |t|
    ensures CountNoWorse(t, p, category, asc)
         == CountNoWorse(t[..i] + t[i + 1..], p, category, asc) + if NoWorse(t[i], p, category, asc) then 1 else 0
  {
    assert t == t[..i] + t[i..] && t[i..][1..] == t[i + 1..];
    CountConcat(t[..i], t[i..], p, category, asc);
    CountConcat(t[..i], t[i + 1..], p, category, asc);
  }

  lemma RemoveMultiset<T>(t: seq<T>, i: nat)
    requires i < |t|
    ensures multiset(t[..i] + t[i + 1..]) == multiset(t) - multiset{t[i]}
  {
    assert t == t[..i] + [t[i]] + t[i + 1..];
  }

  lemma FindIn<T>(s: seq<T>, t: seq<T>) returns (i: nat)
    requires multiset(s) == multiset(t) && s != []
    ensures i < |t| && t[i] == s[0] && multiset(s[1..]) == multiset(t[..i] + t[i + 1..])
  {
    assert s[0] in multiset(s);
    assert s[0] in multiset(t);
    i :| 0 <= i < |t| && t[i] == s[0];
    RemoveMultiset(t, i);
    RemoveMultiset(s, 0);
    assert s[..0] + s[1..] == s[1..];
  }

  lemma {:induction false} CountPermutation(s: seq<PoolPeer>, t: seq<PoolPeer>, p: PoolPeer, category: Category,
                                            asc: bool)
    requires multiset(s) == multiset(t)
    ensures CountNoWorse(s, p, category, asc) == CountNoWorse(t, p, category, asc)
  {
    if s == [] {
      assert |multiset(t)| == 0;
    } else {
      var i := FindIn(s, t);
      CountPermutation(s[1..], t[..i] + t[i + 1..], p, category, asc);
      CountRemove(t, i, p, category, asc);
    }
  }

  lemma {:induction false} CountAll(s: seq<PoolPeer>, p: PoolPeer, category: Category, asc: bool)
    ensures (forall a | a in s :: NoWorse(a, p, category, asc)) ==> CountNoWorse(s, p, category, asc) == |s|
    ensures p in s ==> CountNoWorse(s, p, category, asc) >= 1
  {
    if s != [] {
      CountAll(s[1..], p, category, asc);
      assert s[0] in s && forall a | a in s[1..] :: a in s;
    }
  }

  // A peer that ranks within the protected top slice on the metric of a stage does not survive it:
  // anyone who survives is beaten or equalled by all protected peers and by itself.
  lemma TopSliceProtected(before: seq<PoolPeer>, after: seq<PoolPeer>, p: PoolPeer,
                          category: Category, asc: bool, ratio: real)
    requires Stage(before, after, category, asc, ratio) && 0.0 < ratio <= 1.0
    requires CountNoWorse(before, p, category, asc) <= CeilOf(|before|, ratio)
    ensures p !in after
  {
    var safe :| Protects(before, safe, after, category, asc, ratio);
    if p in after {
      CountPermutation(before, safe + after, p, category, asc);
      CountConcat(safe, after, p, category, asc);
      CountAll(safe, p, category, asc);
      CountAll(after, p, category, asc);
    }
  }

  // Dropping peers in one stage worsens nobody's rank on any metric.
  lemma StageRank(before: seq<PoolPeer>, after: seq<PoolPeer>, on: Category, onAsc: bool, ratio: real,
                  p: PoolPeer, category: Category, asc: bool)
    requires Stage(before, after, on, onAsc, ratio)
    ensures CountNoWorse(after, p, category, asc) <= CountNoWorse(before, p, category, asc)
  {
    if after != before {
      var safe :| Protects(before, safe, after, on, onAsc, ratio);
      CountPermutation(before, safe + after, p, category, asc);
      CountConcat(safe, after, p, category, asc);
    }
  }

  predicate InSlice(peers: seq<PoolPeer>, p: PoolPeer, category: Category, asc: bool, n: nat, ratio: real) {
    0.0 < ratio <= 1.0 && CountNoWorse(peers, p, category, asc) <= CeilOf(n, ratio)
  }

  // The peer is in the top slice that one of the three stages protects: by its rank among all the peers, and by
  // the number of peers that the stage starts from.
  predicate InTopSlice(peers: seq<PoolPeer>, p: PoolPeer, ratios: Ratios) {
    var first := Remaining(|peers|, ratios.latency);
    var second := if first > 1 then Remaining(first, ratios.productivity) else 0;
    || InSlice(peers, p, Latency, true, |peers|, ratios.latency)
    || (first > 1 && InSlice(peers, p, ResponseRate, false, first, ratios.productivity))
    || (second > 1 && InSlice(peers, p, ConnectTime, true, second, ratios.longevity))
  }

  // A peer in any of the three top slices is never an eviction candidate.
  lemma ProtectedNeverCandidate(peers: seq<PoolPeer>, candidates: seq<PoolPeer>, p: PoolPeer, ratios: Ratios)
    requires EvictionCandidates(peers, candidates, ratios) && InTopSlice(peers, p, ratios)
    ensures p !in candidates
  {
    hide CountNoWorse, CeilOf;
    var first :| Stage(peers, first, Latency, true, ratios.latency)
      && if |first| <= 1 then candidates == first else LaterStages(first, candidates, ratios);
    StageSize(peers, first, Latency, true, ratios.latency);
    if InSlice(peers, p, Latency, true, |peers|, ratios.latency) {
      TopSliceProtected(peers, first, p, Latency, true, ratios.latency);
    }
    if |first| > 1 {
      LaterSubset(first, candidates, ratios);
      StageRank(peers, first, Latency, true, ratios.latency, p, ResponseRate, false);
      StageRank(peers, first, Latency, true, ratios.latency, p, ConnectTime, true);
      if p in first { ProtectedLater(first, candidates, p, ratios); }
    }
  }

  lemma ProtectedLater(first: seq<PoolPeer>, candidates: seq<PoolPeer>, p: PoolPeer, ratios: Ratios)
    requires LaterStages(first, candidates, ratios)
    ensures InSlice(first, p, ResponseRate, false, |first|, ratios.productivity) ==> p !in candidates
    ensures var second := Remaining(|first|, ratios.productivity);
      second > 1 && InSlice(first, p, ConnectTime, true, second, ratios.longevity) ==> p !in candidates
  {
    hide CountNoWorse, CeilOf;
    var second :| Stage(first, second, ResponseRate, false, ratios.productivity)
      && if |second| <= 1 then candidates == second else Stage(second, candidates, ConnectTime, true, ratios.longevity);
    StageSize(first, second, ResponseRate, false, ratios.productivity);
    StageRank(first, second, ResponseRate, false, ratios.productivity, p, ConnectTime, true);
    if |second| > 1 {
      StageSize(second, candidates, ConnectTime, true, ratios.longevity);
      assert p in candidates ==> p in multiset(second);
      if InSlice(second, p, ConnectTime, true, |second|, ratios.longevity) {
        TopSliceProtected(second, candidates, p, ConnectTime, true, ratios.longevity);
      }
    }
    if InSlice(first, p, ResponseRate, false, |first|, ratios.productivity) {
      TopSliceProtected(first, second, p, ResponseRate, false, ratios.productivity);
    }
  }

  lemma LaterSubset(first: seq<PoolPeer>, candidates: seq<PoolPeer>, ratios: Ratios)
    requires LaterStages(first, candidates, ratios)
    ensures multiset(candidates) <= multiset(first)
    ensures forall p | p in candidates :: p in multiset(candidates) && p in first
  {
    var second :| Stage(first, second, ResponseRate, false, ratios.productivity)
      && if |second| <= 1 then candidates == second else Stage(second, candidates, ConnectTime, true, ratios.longevity);
    StageSize(first, second, ResponseRate, false, ratios.productivity);
    if |second| > 1 { StageSize(second, candidates, ConnectTime, true, ratios.longevity); }
    forall p | p in candidates ensures p in multiset(candidates) && p in first {
      assert p in multiset(first);
    }
  }
}
