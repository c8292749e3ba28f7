// The default peer selectors (src/peer_selection.js). `shuffle` may produce any permutation and
// `Math.random()` any value.
module Selection {
  import opened OrderedMap
  import opened Peers

  function Min(a: int, b: int): int { if a <= b then a else b }
  function Max(a: int, b: int): int { if a >= b then a else b }

  // lodash `shuffle`: draws the elements one by one in any order.
  method Shuffle<T>(s: seq<T>) returns (r: seq<T>)
    ensures multiset(r) == multiset(s)
  {
    r := [];
    var rest := s;
    while rest != []
      invariant multiset(r) + multiset(rest) == multiset(s)
      decreases |rest|
    {
      var i: nat :| i < |rest|;
      assert rest == rest[..i] + [rest[i]] + rest[i + 1..];
      r := r + [rest[i]];
      rest := rest[..i] + rest[i + 1..];
    }
  }

  lemma MultisetSize<T>(a: seq<T>, b: seq<T>)
    requires multiset(a) == multiset(b)
    ensures |a| == |b|
  {
    assert |multiset(a)| == |a| && |multiset(b)| == |b|;
  }

  // `s.slice(0, end)`: a negative end counts from the back.
  function SliceTo<T>(s: seq<T>, end: int): (r: seq<T>)
    ensures 0 <= end ==> |r| == Min(end, |s|)
    ensures multiset(r) <= multiset(s)
  {
    var n := if end >= 0 then Min(end, |s|) else Max(|s| + end, 0);
    assert s == s[..n] + s[n..];
    s[..n]
  }

  // ----- selectPeersForSend -----------------------------------------------------------------------------

  datatype Kind = Inbound | Outbound
  datatype Connection = Connection(kind: Kind, id: string)

  function OfKind(s: seq<Connection>, kind: Kind): (r: seq<Connection>)
    ensures forall p | p in r :: p.kind == kind
  {
    if s == [] then []
    else if s[0].kind == kind then [s[0]] + OfKind(s[1..], kind) else OfKind(s[1..], kind)
  }

  lemma {:induction false} KindsPartition(s: seq<Connection>)
    ensures multiset(OfKind(s, Inbound)) + multiset(OfKind(s, Outbound)) == multiset(s)
    ensures |OfKind(s, Inbound)| + |OfKind(s, Outbound)| == |s|
  {
    if s != [] {
      KindsPartition(s[1..]);
      assert s == [s[0]] + s[1..];
    }
  }

  lemma {:induction false} KindsOfPermutation(s: seq<Connection>, t: seq<Connection>, kind: Kind)
    requires multiset(s) == multiset(t)
    ensures |OfKind(s, kind)| == |OfKind(t, kind)|
  {
    KindMultiset(s, kind);
    KindMultiset(t, kind);
    assert multiset(OfKind(s, kind)) == multiset(OfKind(t, kind)) by {
      forall p: Connection ensures multiset(OfKind(s, kind))[p] == multiset(OfKind(t, kind))[p] {}
    }
    MultisetSize(OfKind(s, kind), OfKind(t, kind));
  }

  lemma {:induction false} KindMultiset(s: seq<Connection>, kind: Kind)
    ensures forall p :: multiset(OfKind(s, kind))[p] == if p.kind == kind then multiset(s)[p] else 0
  {
    if s != [] {
      KindMultiset(s[1..], kind);
      assert s == [s[0]] + s[1..];
    }
  }

  // `Math.round(n / 2)`
  function RoundHalf(n: int): int {
    (n + 1) / 2
  }

  lemma HalfRoundedUp(n: int, h: int)
    requires 2 * h - 1 <= n <= 2 * h
    ensures RoundHalf(n) == h
  {}

  // For a limit that is not negative: exactly min(limit, total) connections, none picked twice, of which
  // min(shorter, h) are of the kind with fewer connections, where h is half the limit rounded up.
  method SelectPeersForSend(peers: seq<Connection>, peerLimit: int) returns (selected: seq<Connection>)
    ensures multiset(selected) <= multiset(peers)
    ensures peerLimit >= 0 ==> |selected| == Min(peerLimit, |peers|)
    ensures peerLimit >= 0 ==>
      var shorter := if |OfKind(peers, Outbound)| < |OfKind(peers, Inbound)| then Outbound else Inbound;
      forall h | 2 * h - 1 <= peerLimit <= 2 * h :: |OfKind(selected, shorter)| == Min(|OfKind(peers, shorter)|, h)
    ensures peerLimit >= |peers| ==> multiset(selected) == multiset(peers)
  {
    hide OfKind;
    var shuffled := Shuffle(peers);
    MultisetSize(shuffled, peers);
    KindsPartition(shuffled);
    KindsOfPermutation(shuffled, peers, Inbound);
    KindsOfPermutation(shuffled, peers, Outbound);
    var outboundPeers := OfKind(shuffled, Outbound);
    var inboundPeers := OfKind(shuffled, Inbound);
    var shortest, longest := inboundPeers, outboundPeers;
    if |outboundPeers| < |inboundPeers| {
      shortest, longest := outboundPeers, inboundPeers;
    }
    var first := SliceTo(shortest, RoundHalf(peerLimit));
    var second := SliceTo(longest, peerLimit - |first|);
    selected := first + second;
    var shorter := if |outboundPeers| < |inboundPeers| then Outbound else Inbound;
    AllOfKind(first, shorter);
    NoneOfKind(second, shorter);
    OfKindConcat(first, second, shorter);
    SliceAll(shortest, RoundHalf(peerLimit));
    SliceAll(longest, peerLimit - |first|);
    forall h | 2 * h - 1 <= peerLimit <= 2 * h ensures RoundHalf(peerLimit) == h { HalfRoundedUp(peerLimit, h); }
  }

  lemma SliceAll<T>(s: seq<T>, end: int)
    ensures end >= |s| ==> SliceTo(s, end) == s
    ensures forall p | p in SliceTo(s, end) :: p in s
  {}

  lemma {:induction false} AllOfKind(s: seq<Connection>, kind: Kind)
    requires forall p | p in s :: p.kind == kind
    ensures OfKind(s, kind) == s
  {
    if s != [] { AllOfKind(s[1..], kind); assert s == [s[0]] + s[1..]; }
  }

  lemma {:induction false} NoneOfKind(s: seq<Connection>, kind: Kind)
    requires forall p | p in s :: p.kind != kind
    ensures OfKind(s, kind) == []
  {
    if s != [] { NoneOfKind(s[1..], kind); }
  }

  lemma {:induction false} OfKindConcat(a: seq<Connection>, b: seq<Connection>, kind: Kind)
    ensures OfKind(a + b, kind) == OfKind(a, kind) + OfKind(b, kind)
  {
    if a == [] {
      assert a + b == b;
    } else {
      assert (a + b)[1..] == a[1..] + b;
      OfKindConcat(a[1..], b, kind);
    }
  }

  // ----- selectPeersForConnection -------------------------------------------------------------------------

  function TruesIn(picks: seq<bool>): nat {
    if picks == [] then 0 else TruesIn(picks[..|picks| - 1]) + if picks[|picks| - 1] then 1 else 0
  }

  // The elements at the positions with that mark.
  function Marked<T>(s: seq<T>, picks: seq<bool>, mark: bool): seq<T>
    requires |s| == |picks|
  {
    if s == [] then []
    else
      var n := |s| - 1;
      Marked(s[..n], picks[..n], mark) + if picks[n] == mark then [s[n]] else []
  }

  // Pick i comes from the `tried` many tried peers if there is one left and the draw is below r, or if there is
  // none of the `news` many new peers left.
  ghost predicate PickedAsDrawn(picks: seq<bool>, tried: nat, news: nat, draws: nat -> real, r: real) {
    forall i | 0 <= i < |picks| ::
      picks[i] <==> (TruesIn(picks[..i]) < tried && draws(i) < r) || i - TruesIn(picks[..i]) == news
  }

  // The probability of a tried peer: their share of all peers, at least one half.
  ghost predicate IsTriedProbability(r: real, tried: nat, news: nat) {
    && r >= 0.5 && r * (tried + news) as real >= tried as real
    && (r == 0.5 || r * (tried + news) as real == tried as real)
  }

  lemma ProbabilityUnique(r: real, q: real, tried: nat, news: nat)
    requires IsTriedProbability(r, tried, news) && IsTriedProbability(q, tried, news) && tried + news > 0
    ensures r == q
  {
    Scaled(r, q, tried + news);
    Scaled(q, r, tried + news);
  }

  lemma Scaled(r: real, q: real, n: nat)
    requires n > 0
    ensures r < q ==> r * n as real < q * n as real
  {}

  // `draws(i)` is the random number of iteration i. The result has exactly
  // min(max(limit, 0), tried + new) peers, each taken from a different position of the two inputs. Below the total
  // `fromTried` marks the picks from the tried peers: they are as the draws say.
  method SelectPeersForConnection<T>(disconnectedNew: seq<T>, disconnectedTried: seq<T>,
                                     peerLimit: int, draws: nat -> real)
    returns (selected: seq<T>, ghost fromTried: seq<bool>)
    ensures |selected| == Min(Max(peerLimit, 0), |disconnectedTried| + |disconnectedNew|)
    ensures multiset(selected) <= multiset(disconnectedNew) + multiset(disconnectedTried)
    ensures peerLimit >= |disconnectedTried| + |disconnectedNew| ==> selected == disconnectedNew + disconnectedTried
    ensures 0 <= peerLimit < |disconnectedTried| + |disconnectedNew| ==>
      && |fromTried| == |selected|
      && multiset(Marked(selected, fromTried, true)) <= multiset(disconnectedTried)
      && multiset(Marked(selected, fromTried, false)) <= multiset(disconnectedNew)
      && forall r: real | IsTriedProbability(r, |disconnectedTried|, |disconnectedNew|) ::
           PickedAsDrawn(fromTried, |disconnectedTried|, |disconnectedNew|, draws, r)
  {
    fromTried := [];
    if peerLimit < 0 {
      return [], [];
    }
    hide Marked, TruesIn, PickedAsDrawn, Drawn, IsTriedProbability;
    NoPicks<T>(|disconnectedTried|, |disconnectedNew|, draws);
    var total := |disconnectedTried| + |disconnectedNew|;
    if peerLimit >= total {
      assert multiset(disconnectedNew + disconnectedTried) == multiset(disconnectedNew) + multiset(disconnectedTried);
      return disconnectedNew + disconnectedTried, [];
    }
    var x := |disconnectedTried| as real / total as real;
    var minimumProbability := 0.5;
    var r := if x >= minimumProbability then x else minimumProbability;
    MaxIsProbability(|disconnectedTried|, |disconnectedNew|, r);
    var tried := Shuffle(disconnectedTried);
    var news := Shuffle(disconnectedNew);
    MultisetSize(tried, disconnectedTried);
    MultisetSize(news, disconnectedNew);
    selected := [];
    StartDraws(tried, news, disconnectedTried, disconnectedNew);
    for i := 0 to peerLimit
      invariant |fromTried| == i && Drawn(selected, fromTried, tried, news, disconnectedTried, disconnectedNew)
      invariant PickedAsDrawn(fromTried, |disconnectedTried|, |disconnectedNew|, draws, r)
    {
      DrawCounts(selected, fromTried, tried, news, disconnectedTried, disconnectedNew);
      ghost var selected0, fromTried0, tried0, news0 := selected, fromTried, tried, news;
      if tried != [] && draws(i) < r {
        selected, tried := PopOnto(selected, tried);
        fromTried := fromTried + [true];
        DrawTried(selected0, fromTried0, tried0, news0, disconnectedTried, disconnectedNew);
      } else if news != [] {
        selected, news := PopOnto(selected, news);
        fromTried := fromTried + [false];
        DrawNew(selected0, fromTried0, tried0, news0, disconnectedTried, disconnectedNew);
      } else {
        // The list popped here is never empty.
        selected, tried := PopOnto(selected, tried);
        fromTried := fromTried + [true];
        DrawTried(selected0, fromTried0, tried0, news0, disconnectedTried, disconnectedNew);
      }
      PickedSnoc(fromTried0, fromTried[i], |disconnectedTried|, |disconnectedNew|, draws, r);
    }
    DrawCounts(selected, fromTried, tried, news, disconnectedTried, disconnectedNew);
    DrawnParts(selected, fromTried, tried, news, disconnectedTried, disconnectedNew);
    forall q: real | IsTriedProbability(q, |disconnectedTried|, |disconnectedNew|)
      ensures PickedAsDrawn(fromTried, |disconnectedTried|, |disconnectedNew|, draws, q)
    {
      ProbabilityUnique(q, r, |disconnectedTried|, |disconnectedNew|);
    }
  }

  lemma MaxIsProbability(tried: nat, news: nat, r: real)
    requires tried + news > 0
    requires var x := tried as real / (tried + news) as real;
      r == if x >= 0.5 then x else 0.5
    ensures IsTriedProbability(r, tried, news)
  {
    var n, x := (tried + news) as real, tried as real / (tried + news) as real;
    assert x * n == tried as real;
    Scaled(x, 0.5, tried + news);
  }

  // What is left of the two lists, and what has been picked, makes up the lists given.
  ghost predicate Drawn<T>(selected: seq<T>, picks: seq<bool>, tried: seq<T>, news: seq<T>, allTried: seq<T>,
                           allNew: seq<T>)
  {
    && |selected| == |picks|
    && |tried| == |allTried| - TruesIn(picks) && |news| == |allNew| - (|picks| - TruesIn(picks))
    && multiset(Marked(selected, picks, true)) + multiset(tried) == multiset(allTried)
    && multiset(Marked(selected, picks, false)) + multiset(news) == multiset(allNew)
  }

  lemma StartDraws<T>(tried: seq<T>, news: seq<T>, allTried: seq<T>, allNew: seq<T>)
    requires multiset(tried) == multiset(allTried) && multiset(news) == multiset(allNew)
    ensures Drawn([], [], tried, news, allTried, allNew)
  {
    MultisetSize(tried, allTried);
    MultisetSize(news, allNew);
  }

  lemma DrawCounts<T>(selected: seq<T>, picks: seq<bool>, tried: seq<T>, news: seq<T>, allTried: seq<T>, allNew: seq<T>)
    requires Drawn(selected, picks, tried, news, allTried, allNew)
    ensures |selected| == |picks| && |tried| + |news| == |allTried| + |allNew| - |picks|
    ensures |tried| == |allTried| - TruesIn(picks) && |news| == |allNew| - (|picks| - TruesIn(picks))
  {}

  lemma DrawnParts<T>(selected: seq<T>, picks: seq<bool>, tried: seq<T>, news: seq<T>, allTried: seq<T>, allNew: seq<T>)
    requires Drawn(selected, picks, tried, news, allTried, allNew)
    ensures |selected| == |picks|
    ensures multiset(Marked(selected, picks, true)) <= multiset(allTried)
    ensures multiset(Marked(selected, picks, false)) <= multiset(allNew)
    ensures multiset(selected) <= multiset(allNew) + multiset(allTried)
  {
    MarkedTogether(selected, picks);
  }

  lemma DrawTried<T>(selected: seq<T>, picks: seq<bool>, tried: seq<T>, news: seq<T>, allTried: seq<T>, allNew: seq<T>)
    requires Drawn(selected, picks, tried, news, allTried, allNew) && tried != []
    ensures Drawn(selected + [tried[|tried| - 1]], picks + [true], tried[..|tried| - 1], news, allTried, allNew)
  {
    hide Marked, TruesIn;
    var n := |tried| - 1;
    OnePick(selected, picks, tried[n], true);
    assert tried == tried[..n] + [tried[n]];
  }

  lemma DrawNew<T>(selected: seq<T>, picks: seq<bool>, tried: seq<T>, news: seq<T>, allTried: seq<T>, allNew: seq<T>)
    requires Drawn(selected, picks, tried, news, allTried, allNew) && news != []
    ensures Drawn(selected + [news[|news| - 1]], picks + [false], tried, news[..|news| - 1], allTried, allNew)
  {
    hide Marked, TruesIn;
    var n := |news| - 1;
    OnePick(selected, picks, news[n], false);
    assert news == news[..n] + [news[n]];
  }

  lemma NoPicks<T>(tried: nat, news: nat, draws: nat -> real)
    ensures TruesIn([]) == 0 && Marked<T>([], [], true) == [] && Marked<T>([], [], false) == []
    ensures forall r: real :: PickedAsDrawn([], tried, news, draws, r)
  {}

  lemma PickedSnoc(picks: seq<bool>, mark: bool, tried: nat, news: nat, draws: nat -> real, r: real)
    requires PickedAsDrawn(picks, tried, news, draws, r)
    requires mark <==> (TruesIn(picks) < tried && draws(|picks|) < r) || |picks| - TruesIn(picks) == news
    ensures PickedAsDrawn(picks + [mark], tried, news, draws, r)
  {
    hide TruesIn;
    var all := picks + [mark];
    forall i | 0 <= i < |all|
      ensures all[i] <==> (TruesIn(all[..i]) < tried && draws(i) < r) || i - TruesIn(all[..i]) == news
    {
      assert all[..i] == picks[..i];
      if i == |picks| { assert picks[..i] == picks; }
    }
  }

  lemma OnePick<T>(s: seq<T>, picks: seq<bool>, x: T, mark: bool)
    requires |s| == |picks|
    ensures Marked(s + [x], picks + [mark], mark) == Marked(s, picks, mark) + [x]
    ensures Marked(s + [x], picks + [mark], !mark) == Marked(s, picks, !mark)
    ensures TruesIn(picks + [mark]) == TruesIn(picks) + if mark then 1 else 0
  {
    assert (s + [x])[..|s|] == s && (picks + [mark])[..|s|] == picks;
  }

  lemma {:induction false} MarkedTogether<T>(s: seq<T>, picks: seq<bool>)
    requires |s| == |picks|
    ensures multiset(Marked(s, picks, true)) + multiset(Marked(s, picks, false)) == multiset(s)
  {
    if s != [] {
      var n := |s| - 1;
      MarkedTogether(s[..n], picks[..n]);
      assert s == s[..n] + [s[n]];
    }
  }

  // Moves the result of `from.pop()` to the end of `onto`.
  method PopOnto<T>(onto: seq<T>, from: seq<T>) returns (onto': seq<T>, from': seq<T>)
    requires from != []
    ensures onto' == onto + [from[|from| - 1]] && from' == from[..|from| - 1]
    ensures multiset(onto') + multiset(from') == multiset(onto) + multiset(from)
  {
    onto' := onto + [from[|from| - 1]];
    from' := from[..|from| - 1];
    assert from == from' + [from[|from| - 1]];
  }

  // ----- getUniquePeersbyIp ----------------------------------------------------------------------

  // One turn of the loop: the first peer of an address makes its entry, a strictly higher one
  // replaces it in place.
  function KeepHighest(m: OMap<PeerInfo>, p: PeerInfo): OMap<PeerInfo> {
    match Get(m, p.ipAddress)
    case Some(kept) => if p.height > kept.height then Set(m, p.ipAddress, p) else m
    case None => Set(m, p.ipAddress, p)
  }

  function HighestByIp(peers: seq<PeerInfo>): OMap<PeerInfo> {
    if peers == [] then [] else KeepHighest(HighestByIp(peers[..|peers| - 1]), peers[|peers| - 1])
  }

  method GetUniquePeersByIp(peerList: seq<PeerInfo>) returns (r: seq<PeerInfo>)
    ensures IsHighestByIp(peerList, r)
  {
    var peerMap: OMap<PeerInfo> := [];
    for i := 0 to |peerList|
      invariant peerMap == HighestByIp(peerList[..i])
    {
      var peer := peerList[i];
      var kept := Get(peerMap, peer.ipAddress);
      assert peerList[..i + 1][..i] == peerList[..i];
      if kept.Some? {
        if peer.height > kept.value.height {
          peerMap := Set(peerMap, peer.ipAddress, peer);
        }
      } else {
        peerMap := Set(peerMap, peer.ipAddress, peer);
      }
    }
    assert peerList[..|peerList|] == peerList;
    HighestSpec(peerList);
    r := ValuesOf(peerMap);
  }

  function FirstOf(peers: seq<PeerInfo>, ip: string): (i: nat)
    ensures i <= |peers|
    ensures i < |peers| ==> peers[i].ipAddress == ip
    ensures forall j | 0 <= j < i :: peers[j].ipAddress != ip
  {
    if peers == [] || peers[0].ipAddress == ip then 0 else 1 + FirstOf(peers[1..], ip)
  }

  // Position i holds the highest peer of its address, the earliest of equals.
  ghost predicate HighestAt(peers: seq<PeerInfo>, i: nat) {
    && i < |peers|
    && (forall j | 0 <= j < |peers| && peers[j].ipAddress == peers[i].ipAddress :: peers[j].height <= peers[i].height)
    && (forall j | 0 <= j < i && peers[j].ipAddress == peers[i].ipAddress :: peers[j].height < peers[i].height)
  }

  ghost predicate IsHighest(peers: seq<PeerInfo>, p: PeerInfo) {
    exists i: nat :: HighestAt(peers, i) && peers[i] == p
  }

  ghost predicate HasAddress(r: seq<PeerInfo>, ip: string) {
    exists k :: 0 <= k < |r| && r[k].ipAddress == ip
  }

  // The result holds one peer for each address of the input, the highest and earliest, in the order
  // in which the addresses first occur.
  ghost predicate IsHighestByIp(peers: seq<PeerInfo>, r: seq<PeerInfo>) {
    && (forall k | 0 <= k < |r| :: IsHighest(peers, r[k]))
    && (forall j | 0 <= j < |peers| :: HasAddress(r, peers[j].ipAddress))
    && (forall k, l | 0 <= k < l < |r| :: FirstOf(peers, r[k].ipAddress) < FirstOf(peers, r[l].ipAddress))
  }

  lemma FirstOfSnoc(init: seq<PeerInfo>, p: PeerInfo, ip: string)
    ensures FirstOf(init + [p], ip)
         == if FirstOf(init, ip) < |init| then FirstOf(init, ip)
            else if p.ipAddress == ip then |init| else |init| + 1
  {
    var s := init + [p];
    assert forall j | 0 <= j < |init| :: s[j] == init[j];
    assert s[|init|] == p;
  }

  ghost predicate HighestInv(peers: seq<PeerInfo>, m: OMap<PeerInfo>) {
    && (forall k | 0 <= k < |m| :: m[k].0 == m[k].1.ipAddress)
    && Distinct(m) && IsHighestByIp(peers, ValuesOf(m))
  }

  lemma HighestEmpty()
    ensures HighestInv([], [])
  {}

  lemma {:induction false} HighestSpec(peers: seq<PeerInfo>)
    ensures HighestInv(peers, HighestByIp(peers))
  {
    hide HighestInv, KeepHighest;
    if peers == [] {
      HighestEmpty();
    } else {
      var n := |peers| - 1;
      HighestSpec(peers[..n]);
      assert peers == peers[..n] + [peers[n]];
      HighestStep(peers[..n], HighestByIp(peers[..n]), peers[n]);
    }
  }

  lemma HighestStep(init: seq<PeerInfo>, m: OMap<PeerInfo>, p: PeerInfo)
    requires HighestInv(init, m)
    ensures HighestInv(init + [p], KeepHighest(m, p))
  {
    var peers, m' := init + [p], KeepHighest(m, p);
    SetSpec(m, p.ipAddress, p);
    var v' := ValuesOf(m');
    forall k | 0 <= k < |v'| ensures IsHighest(peers, v'[k]) { HighestStepAt(init, m, p, k); }
    forall j | 0 <= j < |peers| ensures HasAddress(v', peers[j].ipAddress) { AddressKept(init, m, p, j); }
    forall k, l | 0 <= k < l < |v'| ensures FirstOf(peers, v'[k].ipAddress) < FirstOf(peers, v'[l].ipAddress) {
      OrderKept(init, m, p, k, l);
    }
  }

  lemma AddressKept(init: seq<PeerInfo>, m: OMap<PeerInfo>, p: PeerInfo, j: nat)
    requires HighestInv(init, m) && j < |init| + 1
    ensures HasAddress(ValuesOf(KeepHighest(m, p)), (init + [p])[j].ipAddress)
  {
    hide IsHighest, HighestAt, FirstOf, Distinct;
    var v, v' := ValuesOf(m), ValuesOf(KeepHighest(m, p));
    if j < |init| {
      assert HasAddress(v, init[j].ipAddress);
      var k :| 0 <= k < |v| && v[k].ipAddress == init[j].ipAddress;
      assert v'[k].ipAddress == v[k].ipAddress;
    } else {
      KeepHighestHas(m, p);
      var k := IndexOf(KeepHighest(m, p), p.ipAddress);
      assert v'[k].ipAddress == p.ipAddress;
    }
  }

  lemma OrderKept(init: seq<PeerInfo>, m: OMap<PeerInfo>, p: PeerInfo, k: nat, l: nat)
    requires HighestInv(init, m) && k < l < |KeepHighest(m, p)|
    ensures var v' := ValuesOf(KeepHighest(m, p));
      FirstOf(init + [p], v'[k].ipAddress) < FirstOf(init + [p], v'[l].ipAddress)
  {
    var v, v' := ValuesOf(m), ValuesOf(KeepHighest(m, p));
    FirstOfSnoc(init, p, v'[k].ipAddress);
    FirstOfSnoc(init, p, v'[l].ipAddress);
    assert v'[k].ipAddress == v[k].ipAddress;
    KeptOccurs(init, m, k);
    if l < |v| {
      assert v'[l].ipAddress == v[l].ipAddress;
      KeptOccurs(init, m, l);
    } else {
      AbsentNotKept(init, m, p.ipAddress);
    }
  }

  lemma KeptOccurs(init: seq<PeerInfo>, m: OMap<PeerInfo>, k: nat)
    requires HighestInv(init, m) && k < |m|
    ensures FirstOf(init, ValuesOf(m)[k].ipAddress) < |init|
  {
    assert IsHighest(init, ValuesOf(m)[k]);
    var i: nat :| HighestAt(init, i) && init[i] == ValuesOf(m)[k];
  }

  lemma KeepHighestHas(m: OMap<PeerInfo>, p: PeerInfo)
    ensures Has(KeepHighest(m, p), p.ipAddress)
  {
    var m' := KeepHighest(m, p);
    var i := IndexOf(m, p.ipAddress);
    assert i < |m'| && m'[i].0 == p.ipAddress;
  }

  lemma AbsentNotKept(init: seq<PeerInfo>, m: OMap<PeerInfo>, ip: string)
    requires HighestInv(init, m) && !Has(m, ip)
    ensures FirstOf(init, ip) == |init|
  {
    var j := FirstOf(init, ip);
    assert j < |init| ==> HasAddress(ValuesOf(m), init[j].ipAddress);
  }

  lemma HighestStepAt(init: seq<PeerInfo>, m: OMap<PeerInfo>, p: PeerInfo, k: nat)
    requires HighestInv(init, m) && k < |KeepHighest(m, p)|
    ensures IsHighest(init + [p], ValuesOf(KeepHighest(m, p))[k])
  {
    var m' := KeepHighest(m, p);
    if k < |m| && m'[k] == m[k] && m[k].0 != p.ipAddress {
      HighestKept(init, m, p, k);
    } else if Has(m, p.ipAddress) && p.height <= m[IndexOf(m, p.ipAddress)].1.height {
      HighestKept(init, m, p, k);
    } else {
      assert m'[k].1 == p;
      HighestNew(init, m, p);
    }
  }

  lemma HighestKept(init: seq<PeerInfo>, m: OMap<PeerInfo>, p: PeerInfo, k: nat)
    requires HighestInv(init, m) && k < |m|
    requires m[k].1.ipAddress != p.ipAddress || p.height <= m[k].1.height
    ensures IsHighest(init + [p], m[k].1)
  {
    assert IsHighest(init, ValuesOf(m)[k]);
    var i: nat :| HighestAt(init, i) && init[i] == ValuesOf(m)[k];
    assert HighestAt(init + [p], i);
  }

  lemma HighestNew(init: seq<PeerInfo>, m: OMap<PeerInfo>, p: PeerInfo)
    requires HighestInv(init, m)
    requires Has(m, p.ipAddress) ==> p.height > m[IndexOf(m, p.ipAddress)].1.height
    ensures IsHighest(init + [p], p)
  {
    if Has(m, p.ipAddress) {
      assert IsHighest(init, ValuesOf(m)[IndexOf(m, p.ipAddress)]);
      var i: nat :| HighestAt(init, i) && init[i] == ValuesOf(m)[IndexOf(m, p.ipAddress)];
    } else {
      AbsentNotKept(init, m, p.ipAddress);
    }
    assert HighestAt(init + [p], |init|);
  }

  // Selecting twice changes nothing: a result is its own only possible result.
  lemma UniqueIdempotent(peers: seq<PeerInfo>, r: seq<PeerInfo>, r': seq<PeerInfo>)
    requires IsHighestByIp(peers, r) && IsHighestByIp(r, r')
    ensures r' == r
  {
    OneEach(peers, r);
    SelfSelection(r, r');
  }

  lemma OneEach(peers: seq<PeerInfo>, r: seq<PeerInfo>)
    requires IsHighestByIp(peers, r)
    ensures forall k, l | 0 <= k < l < |r| :: r[k].ipAddress != r[l].ipAddress
  {
    forall k, l | 0 <= k < l < |r| ensures r[k].ipAddress != r[l].ipAddress {
      assert FirstOf(peers, r[k].ipAddress) < FirstOf(peers, r[l].ipAddress);
    }
  }

  lemma SelfSelection(r: seq<PeerInfo>, r': seq<PeerInfo>)
    requires IsHighestByIp(r, r') && forall k, l | 0 <= k < l < |r| :: r[k].ipAddress != r[l].ipAddress
    ensures r' == r
  {
    // Position in r of each element of r'.
    var pos := seq(|r'|, k requires 0 <= k < |r'| => FirstOf(r, r'[k].ipAddress));
    forall k | 0 <= k < |r'| ensures pos[k] < |r| && r[pos[k]] == r'[k] {
      assert IsHighest(r, r'[k]);
    }
    forall j | 0 <= j < |r| ensures j in pos {
      assert HasAddress(r', r[j].ipAddress);
      var k :| 0 <= k < |r'| && r'[k].ipAddress == r[j].ipAddress;
      assert pos[k] == j;
    }
    IncreasingOnto(pos, |r|);
  }

  // An increasing enumeration of 0..n is the identity.
  lemma {:induction false} IncreasingOnto(pos: seq<nat>, n: nat)
    requires forall k, l | 0 <= k < l < |pos| :: pos[k] < pos[l]
    requires forall k | 0 <= k < |pos| :: pos[k] < n
    requires forall j | 0 <= j < n :: j in pos
    ensures |pos| == n && forall k | 0 <= k < n :: pos[k] == k
  {
    assert n > 0 ==> n - 1 in pos;
    if pos != [] {
      var k := |pos| - 1;
      assert pos[k] == n - 1;
      forall j | 0 <= j < n - 1 ensures j in pos[..k] {
        assert j in pos;
      }
      IncreasingOnto(pos[..k], n - 1);
    }
  }
}
