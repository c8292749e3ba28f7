// The bucketed peer list (src/peer_book/peer_list.js) with its two subclasses: the list of new peers
// (new_list.js) and the list of tried peers (tried_list.js). `cfg.kind` tells which methods of a
// subclass a call reaches. The clock and `Math.random()` are parameters.
module PeerList {
  import opened Wrappers
  import opened OrderedMap
  import opened Peers
  import opened Buckets
  import opened Lists

  const DEFAULT_EVICTION_THRESHOLD_TIME: nat := 86400000
  const DEFAULT_MAX_RECONNECT_TRIES: nat := 3

  // The constructors of the subclasses take a missing or zero setting for the default.
  function WithDefaults(kind: ListKind): ListKind {
    match kind
    case NewKind(t) => NewKind(if t == 0 then DEFAULT_EVICTION_THRESHOLD_TIME else t)
    case TriedKind(m) => TriedKind(if m == 0 then DEFAULT_MAX_RECONNECT_TRIES else m)
  }

  datatype AddResult = AddResult(success: bool, isAdded: bool, evictedPeer: Option<PeerInfo>)

  function AddResultOf(cfg: ListConfig, bs: Buckets, info: PeerInfo, now: int, random: Random): AddResult
    requires Fits(cfg, bs, info)
  {
    var bucket := BucketFor(cfg, bs, info);
    if Has(bucket, PeerIdOf(info)) then AddResult(false, false, None)
    else
      match Victim(cfg, bs, info, now, random)
      case Some(v) => AddResult(true, true, match Get(bucket, v) case Some(e) => Some(e.info) case None => None)
      case None => AddResult(|bucket| < cfg.bucketSize, true, None)
  }

  function InfoOf(e: Option<Entry>): Option<PeerInfo> {
    match e case Some(e) => Some(e.info) case None => None
  }

  // Adding to a full bucket.
  lemma AddToFull(cfg: ListConfig, bs: Buckets, info: PeerInfo, now: int, random: Random)
    requires Fits(cfg, bs, info) && ListOk(cfg, bs)
    requires var bucket := BucketFor(cfg, bs, info);
      !Has(bucket, PeerIdOf(info)) && |bucket| >= cfg.bucketSize
    ensures var bucket, id, e := BucketFor(cfg, bs, info), PeerIdOf(info), Entry(info, 0, now);
      if bucket == [] then
        && Added(cfg, bs, info, now, random) == Put(cfg, bs, info, Set(bucket, id, e))
        && AddResultOf(cfg, bs, info, now, random) == AddResult(false, true, None)
      else
        var i := VictimIndex(cfg.kind, bucket, now, random);
        && Added(cfg, bs, info, now, random) == Put(cfg, bs, info, Set(RemoveAt(bucket, i), id, e))
        && AddResultOf(cfg, bs, info, now, random) == AddResult(true, true, Some(bucket[i].1.info))
  {
    var bucket := BucketFor(cfg, bs, info);
    assert BucketOk(cfg, cfg.SelectBucket(info.ipAddress), bucket);
    if bucket != [] { IndexIs(bucket, VictimIndex(cfg.kind, bucket, now, random)); }
  }

  // A fresh peer is always added. It evicts exactly one stored peer, and reports it, when the bucket holds as
  // many as it can, and none otherwise. Success is reported exactly when buckets have room for one or the
  // bucket is not empty.
  lemma FreshAdd(cfg: ListConfig, bs: Buckets, info: PeerInfo, now: int, random: Random, p: string -> bool)
    requires Fits(cfg, bs, info) && TidyList(cfg, bs, p) && p(info.ipAddress)
    requires PeerIdOf(info) !in Flat(bs)
    ensures var r, victim := AddResultOf(cfg, bs, info, now, random), Victim(cfg, bs, info, now, random);
      && r.isAdded && (r.success <==> cfg.bucketSize >= 1 || BucketFor(cfg, bs, info) != [])
      && (victim.Some? <==> |BucketFor(cfg, bs, info)| >= Capacity(cfg))
      && (victim.Some? ==> victim.value in Flat(bs) && r.evictedPeer == Some(Flat(bs)[victim.value].info))
      && (victim.None? ==> r.evictedPeer.None?)
      && |Flat(Added(cfg, bs, info, now, random))| == |Flat(bs)| + if victim.Some? then 0 else 1
  {
    FindIsFlat(cfg, bs, info, p);
    AddedFlat(cfg, bs, info, now, random, p);
    VictimStored(cfg, bs, info, now, random, p);
    FreshAddResult(cfg, bs, info, now, random, p);
    var victim := Victim(cfg, bs, info, now, random);
    SizeAfter(Flat(bs), victim, PeerIdOf(info), Entry(info, 0, now));
  }

  // A present peer is not added again: nothing changes and neither success nor addition is reported.
  lemma PresentAdd(cfg: ListConfig, bs: Buckets, info: PeerInfo, now: int, random: Random, p: string -> bool)
    requires Fits(cfg, bs, info) && TidyList(cfg, bs, p) && p(info.ipAddress)
    requires PeerIdOf(info) in Flat(bs)
    ensures Added(cfg, bs, info, now, random) == bs
    ensures AddResultOf(cfg, bs, info, now, random) == AddResult(false, false, None)
  {
    FindIsFlat(cfg, bs, info, p);
    AddedFlat(cfg, bs, info, now, random, p);
    HasIffKey(BucketFor(cfg, bs, info), PeerIdOf(info));
  }

  lemma FreshAddResult(cfg: ListConfig, bs: Buckets, info: PeerInfo, now: int, random: Random, p: string -> bool)
    requires Fits(cfg, bs, info) && TidyList(cfg, bs, p)
    requires !Has(BucketFor(cfg, bs, info), PeerIdOf(info))
    ensures var r, victim := AddResultOf(cfg, bs, info, now, random), Victim(cfg, bs, info, now, random);
      && r.isAdded && (r.success <==> cfg.bucketSize >= 1 || BucketFor(cfg, bs, info) != [])
      && (victim.Some? <==> |BucketFor(cfg, bs, info)| >= Capacity(cfg))
      && (victim.Some? ==> victim.value in Flat(bs) && r.evictedPeer == Some(Flat(bs)[victim.value].info))
      && (victim.None? ==> r.evictedPeer.None?)
  {
    var victim, bucket := Victim(cfg, bs, info, now, random), BucketFor(cfg, bs, info);
    if victim.Some? {
      TidyUnique(cfg, bs, p);
      HasIffKey(bucket, victim.value);
      FlatAt(bs, cfg.SelectBucket(info.ipAddress), victim.value);
    }
  }

  lemma SizeAfter(m: map<string, Entry>, victim: Option<string>, k: string, e: Entry)
    requires k !in m && (victim.Some? ==> victim.value in m)
    ensures |Without(m, victim)[k := e]| == |m| + if victim.Some? then 0 else 1
  {
    var r := Without(m, victim)[k := e];
    var gone := if victim.Some? then {victim.value} else {};
    assert r.Keys == (m.Keys - gone) + {k};
    assert |r| == |r.Keys| && |m| == |m.Keys|;
  }

  class PeerList {
    const cfg: ListConfig
    var peerMap: Buckets

    ghost predicate Valid()
      reads this
    {
      cfg.Valid() && ListOk(cfg, peerMap)
    }

    constructor (config: ListConfig)
      requires config.bucketCount >= 1
      ensures Valid() && cfg == config.(kind := WithDefaults(config.kind))
      ensures |peerMap| == config.bucketCount && forall b | 0 <= b < |peerMap| :: peerMap[b] == []
    {
      cfg := config.(kind := WithDefaults(config.kind));
      var buckets: Buckets := [];
      while |buckets| < config.bucketCount
        invariant |buckets| <= config.bucketCount
        invariant forall b | 0 <= b < |buckets| :: buckets[b] == []
      {
        buckets := buckets + [[]];
      }
      peerMap := buckets;
    }

    method PeersList() returns (peers: seq<PeerInfo>)
      ensures peers == AllInfos(peerMap)
    {
      peers := [];
      for b := 0 to |peerMap|
        invariant peers == AllInfos(peerMap[..b])
      {
        var bucket := peerMap[b];
        for i := 0 to |bucket|
          invariant peers == AllInfos(peerMap[..b]) + BucketInfos(bucket)[..i]
        {
          peers := peers + [bucket[i].1.info];
        }
        assert BucketInfos(bucket)[..|bucket|] == BucketInfos(bucket);
        assert peerMap[..b + 1][..b] == peerMap[..b];
      }
      assert peerMap[..|peerMap|] == peerMap;
    }

    method GetPeer(info: PeerInfo) returns (r: Option<PeerInfo>)
      requires Valid() && Addressable(info.ipAddress)
      ensures r == InfoOf(Find(cfg, peerMap, info))
    {
      var bucket := peerMap[cfg.SelectBucket(info.ipAddress)];
      r := InfoOf(Get(bucket, PeerIdOf(info)));
    }

    method UpdatePeer(info: PeerInfo) returns (updated: bool)
      requires Valid() && Addressable(info.ipAddress)
      modifies this
      ensures Valid() && peerMap == Updated(cfg, old(peerMap), info)
      ensures updated == Find(cfg, old(peerMap), info).Some?
    {
      UpdatedOk(cfg, peerMap, info, _ => true);
      var b := cfg.SelectBucket(info.ipAddress);
      var id := PeerIdOf(info);
      var found := Get(peerMap[b], id);
      if found.None? {
        return false;
      }
      var e := found.value;
      peerMap := peerMap[b := Set(peerMap[b], id, Entry(Merge(e.info, info), e.failures, e.dateAdded))];
      return true;
    }

    method RemovePeer(info: PeerInfo) returns (removed: bool)
      requires Valid() && Addressable(info.ipAddress)
      modifies this
      ensures Valid() && peerMap == Removed(cfg, old(peerMap), info)
      ensures removed == Find(cfg, old(peerMap), info).Some?
    {
      RemovedOk(cfg, peerMap, info, _ => true);
      var b := cfg.SelectBucket(info.ipAddress);
      var id := PeerIdOf(info);
      if Has(peerMap[b], id) {
        peerMap := peerMap[b := Delete(peerMap[b], id)];
        return true;
      }
      return false;
    }

    method AddPeer(info: PeerInfo, now: int, random: Random) returns (r: AddResult)
      requires Valid() && Addressable(info.ipAddress)
      modifies this
      ensures Valid() && peerMap == Added(cfg, old(peerMap), info, now, random)
      ensures r == AddResultOf(cfg, old(peerMap), info, now, random)
    {
      AddedOk(cfg, peerMap, info, now, random, _ => true);
      var b := cfg.SelectBucket(info.ipAddress);
      var id := PeerIdOf(info);
      assert BucketOk(cfg, b, peerMap[b]);
      if Has(peerMap[b], id) {
        return AddResult(false, false, None);
      }
      var newPeer := Entry(info, 0, now);
      if |peerMap[b]| < cfg.bucketSize {
        peerMap := peerMap[b := Set(peerMap[b], id, newPeer)];
        return AddResult(true, true, None);
      }
      AddToFull(cfg, peerMap, info, now, random);
      var evicted := EvictPeerFromBucket(b, now, random);
      peerMap := peerMap[b := Set(peerMap[b], id, newPeer)];
      assert peerMap == Added(cfg, old(peerMap), info, now, random);
      return AddResult(evicted.Some?, true, InfoOf(evicted));
    }

    method EvictPeerFromBucket(b: nat, now: int, random: Random) returns (evicted: Option<Entry>)
      requires cfg.Valid() && b < |peerMap| && Distinct(peerMap[b])
      modifies this
      ensures var bucket := old(peerMap)[b];
        if bucket == [] then peerMap == old(peerMap) && evicted.None?
        else
          var i := VictimIndex(cfg.kind, bucket, now, random);
          peerMap == old(peerMap)[b := RemoveAt(bucket, i)] && evicted == Some(bucket[i].1)
    {
      if cfg.kind.NewKind? {
        evicted := EvictPeerBasedOnTime(b, now);
        if evicted.Some? {
          return;
        }
      }
      evicted := EvictRandomlyFromBucket(b, random);
    }

    // Deletes the first entry past the threshold.
    method EvictPeerBasedOnTime(b: nat, now: int) returns (evicted: Option<Entry>)
      requires cfg.kind.NewKind? && b < |peerMap| && Distinct(peerMap[b])
      modifies this
      ensures var bucket := old(peerMap)[b];
        var i := FirstExpired(bucket, now, cfg.kind.evictionThresholdTime);
        if i == |bucket| then peerMap == old(peerMap) && evicted.None?
        else peerMap == old(peerMap)[b := RemoveAt(bucket, i)] && evicted == Some(bucket[i].1)
    {
      var bucket := peerMap[b];
      for i := 0 to |bucket|
        invariant peerMap == old(peerMap)
        invariant forall j | 0 <= j < i :: !Expired(bucket[j].1, now, cfg.kind.evictionThresholdTime)
      {
        if Expired(bucket[i].1, now, cfg.kind.evictionThresholdTime) {
          IndexIs(bucket, i);
          peerMap := peerMap[b := Delete(bucket, bucket[i].0)];
          return Some(bucket[i].1);
        }
      }
      return None;
    }

    method EvictRandomlyFromBucket(b: nat, random: Random) returns (evicted: Option<Entry>)
      requires b < |peerMap| && Distinct(peerMap[b])
      modifies this
      ensures var bucket := old(peerMap)[b];
        if bucket == [] then peerMap == old(peerMap) && evicted.None?
        else
          var i := RandomIndex(|bucket|, random);
          peerMap == old(peerMap)[b := RemoveAt(bucket, i)] && evicted == Some(bucket[i].1)
    {
      var bucket := peerMap[b];
      if bucket == [] {
        return None;
      }
      var i := RandomIndex(|bucket|, random);
      var id := bucket[i].0;
      IndexIs(bucket, i);
      evicted := Get(bucket, id);
      peerMap := peerMap[b := Delete(bucket, id)];
    }

    method FailedConnectionAction(info: PeerInfo) returns (dropped: bool)
      requires Valid() && Addressable(info.ipAddress)
      modifies this
      ensures Valid() && peerMap == Failed(cfg, old(peerMap), info)
      ensures var found := Find(cfg, old(peerMap), info);
        dropped == (found.Some? && Drops(cfg.kind, found.value))
    {
      FailedOk(cfg, peerMap, info, _ => true);
      if cfg.kind.NewKind? {
        dropped := RemovePeer(info);
        return;
      }
      var b := cfg.SelectBucket(info.ipAddress);
      var id := PeerIdOf(info);
      var found := Get(peerMap[b], id);
      if found.None? {
        return false;
      }
      var e := found.value;
      if e.failures + 1 >= cfg.kind.maxReconnectTries {
        peerMap := peerMap[b := Delete(peerMap[b], id)];
        return true;
      }
      peerMap := peerMap[b := Set(peerMap[b], id, Entry(e.info, e.failures + 1, e.dateAdded))];
      return false;
    }
  }
}
