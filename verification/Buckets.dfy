// The value-level meaning of the peer lists: what each operation does to one bucket, and the flat
// map that a list of buckets stands for.
module Buckets {
  import opened Wrappers
  import opened OrderedMap
  import opened Bucket
  import opened Peers

  datatype Entry = Entry(info: PeerInfo, failures: nat, dateAdded: int)
  type PeerBucket = OMap<Entry>
  type Buckets = seq<PeerBucket>

  // The two subclasses of the base list: how they evict, and what a failed connection does.
  datatype ListKind = NewKind(evictionThresholdTime: nat) | TriedKind(maxReconnectTries: nat)

  datatype ListConfig = ListConfig(
    hash: Hash, secret: nat, bucketCount: nat, bucketSize: nat, kind: ListKind)
  {
    // The constructors replace a zero threshold or try count by a positive default.
    predicate Valid() {
      && bucketCount >= 1
      && (kind.NewKind? ==> kind.evictionThresholdTime >= 1)
      && (kind.TriedKind? ==> kind.maxReconnectTries >= 1)
    }

    // `selectBucketId`
    function SelectBucket(ip: string): (b: nat)
      requires Valid() && Addressable(ip)
      ensures b < bucketCount
    {
      AddressableHasBucket(hash, secret, ip, bucketCount);
      GetBucketId(hash, secret, ip, bucketCount).value
    }
  }

  // The value of `Math.random()`.
  type Random = r: real | 0.0 <= r < 1.0 witness 0.0

  // ----- one bucket -------------------------------------------------------------------------------

  function RandomIndex(n: nat, random: Random): (i: nat)
    requires n > 0
    ensures i < n
  {
    RandomIndexBound(n, random);
    (random * n as real).Floor
  }

  lemma RandomIndexBound(n: nat, random: Random)
    requires n > 0
    ensures 0 <= (random * n as real).Floor < n
  {
    assert 0.0 <= random * n as real < 1.0 * n as real;
  }

  predicate Expired(e: Entry, now: int, threshold: nat) {
    (if e.dateAdded <= now then now - e.dateAdded else e.dateAdded - now) >= threshold
  }

  // An entry has reached the threshold when its date and the time are at least so far apart.
  lemma ExpiredIff(e: Entry, now: int, threshold: nat)
    ensures Expired(e, now, threshold) <==> now - e.dateAdded >= threshold || e.dateAdded - now >= threshold
  {}

  // The random position in a bucket of n entries: n times the random number, rounded down.
  predicate DrawnAt(i: int, n: nat, random: Random) {
    i as real <= random * n as real < (i + 1) as real
  }

  lemma RandomIndexIs(n: nat, random: Random, i: int)
    requires n > 0 && DrawnAt(i, n, random)
    ensures 0 <= i < n && RandomIndex(n, random) == i
  {
    RandomIndexBound(n, random);
    assert (random * n as real).Floor == i;
  }

  // Position of the first entry past the threshold, or the length of the bucket.
  function FirstExpired(bucket: PeerBucket, now: int, threshold: nat): (i: nat)
    ensures i <= |bucket|
    ensures i < |bucket| ==> Expired(bucket[i].1, now, threshold)
    ensures forall j | 0 <= j < i :: !Expired(bucket[j].1, now, threshold)
  {
    if bucket == [] || Expired(bucket[0].1, now, threshold) then 0
    else 1 + FirstExpired(bucket[1..], now, threshold)
  }

  function VictimIndex(kind: ListKind, bucket: PeerBucket, now: int, random: Random): (i: nat)
    requires bucket != []
    ensures i < |bucket|
  {
    match kind
    case NewKind(threshold) =>
      var i := FirstExpired(bucket, now, threshold);
      if i < |bucket| then i else RandomIndex(|bucket|, random)
    case TriedKind(_) => RandomIndex(|bucket|, random)
  }

  // The key evicted by adding `k`, if any.
  function BucketVictim(cfg: ListConfig, bucket: PeerBucket, k: string, now: int, random: Random)
    : (v: Option<string>)
    ensures v.Some? ==> Has(bucket, v.value) && v.value != k && |bucket| >= cfg.bucketSize
  {
    if Has(bucket, k) || |bucket| < cfg.bucketSize || bucket == [] then None
    else
      HasIffKey(bucket, bucket[VictimIndex(cfg.kind, bucket, now, random)].0);
      Some(bucket[VictimIndex(cfg.kind, bucket, now, random)].0)
  }

  function BucketAdd(cfg: ListConfig, bucket: PeerBucket, k: string, info: PeerInfo, now: int, random: Random)
    : PeerBucket
  {
    if Has(bucket, k) then bucket
    else
      var kept := if |bucket| < cfg.bucketSize || bucket == [] then bucket
                  else RemoveAt(bucket, VictimIndex(cfg.kind, bucket, now, random));
      Set(kept, k, Entry(info, 0, now))
  }

  function BucketUpdate(bucket: PeerBucket, k: string, info: PeerInfo): PeerBucket {
    match Get(bucket, k)
    case Some(e) => Set(bucket, k, e.(info := Merge(e.info, info)))
    case None => bucket
  }

  // `failedConnectionAction`: a new list drops the entry, a tried list counts first.
  predicate Drops(kind: ListKind, e: Entry) {
    kind.NewKind? || e.failures + 1 >= kind.maxReconnectTries
  }

  function Counted(e: Entry): Entry {
    e.(failures := e.failures + 1)
  }

  function BucketFail(kind: ListKind, bucket: PeerBucket, k: string): PeerBucket {
    match Get(bucket, k)
    case Some(e) =>
      if Drops(kind, e) then Delete(bucket, k) else Set(bucket, k, Counted(e))
    case None => bucket
  }

  ghost function Without<V>(m: map<string, V>, v: Option<string>): map<string, V> {
    if v.Some? then m - {v.value} else m
  }

  lemma BucketAddSpec(cfg: ListConfig, bucket: PeerBucket, k: string, info: PeerInfo, now: int, random: Random)
    requires Distinct(bucket)
    ensures var after := BucketAdd(cfg, bucket, k, info, now, random);
      var victim := BucketVictim(cfg, bucket, k, now, random);
      && Distinct(after)
      && (Has(bucket, k) ==> after == bucket)
      && (!Has(bucket, k) ==> Dict(after) == Without(Dict(bucket), victim)[k := Entry(info, 0, now)])
      && (!Has(bucket, k) ==> after[|after| - 1] == (k, Entry(info, 0, now)))
      && |after| == |bucket| + (if Has(bucket, k) then 0 else 1) - (if victim.Some? then 1 else 0)
  {
    if !Has(bucket, k) {
      HasIffKey(bucket, k);
      if |bucket| < cfg.bucketSize || bucket == [] {
        SetSpec(bucket, k, Entry(info, 0, now));
      } else {
        var i := VictimIndex(cfg.kind, bucket, now, random);
        var kept := RemoveAt(bucket, i);
        RemoveAtSpec(bucket, i);
        HasIffKey(kept, k);
        SetSpec(kept, k, Entry(info, 0, now));
      }
    }
  }

  lemma BucketUpdateSpec(bucket: PeerBucket, k: string, info: PeerInfo)
    requires Distinct(bucket)
    ensures var after := BucketUpdate(bucket, k, info);
      && Distinct(after) && |after| == |bucket|
      && (k !in Dict(bucket) ==> after == bucket)
      && (k in Dict(bucket) ==>
            Dict(after) == Dict(bucket)[k := Dict(bucket)[k].(info := Merge(Dict(bucket)[k].info, info))])
      && forall i | 0 <= i < |bucket| ::
           after[i].0 == bucket[i].0 && after[i].1.dateAdded == bucket[i].1.dateAdded
  {
    HasIffKey(bucket, k);
    match Get(bucket, k)
    case Some(e) => SetSpec(bucket, k, e.(info := Merge(e.info, info)));
    case None =>
  }

  lemma BucketFailSpec(kind: ListKind, bucket: PeerBucket, k: string)
    requires Distinct(bucket)
    ensures var after := BucketFail(kind, bucket, k);
      && Distinct(after) && |after| <= |bucket|
      && (k !in Dict(bucket) ==> after == bucket)
      && (k in Dict(bucket) && Drops(kind, Dict(bucket)[k]) ==> Dict(after) == Dict(bucket) - {k})
      && (k in Dict(bucket) && !Drops(kind, Dict(bucket)[k]) ==>
            Dict(after) == Dict(bucket)[k := Counted(Dict(bucket)[k])])
  {
    HasIffKey(bucket, k);
    if k in Dict(bucket) {
      var e := Dict(bucket)[k];
      if Drops(kind, e) { DeleteSpec(bucket, k); } else { SetSpec(bucket, k, Counted(e)); }
    }
  }

  // ----- eviction by age ----------------------------------------------------------------------------

  // Entries stand in the order of their dates, none later than `now`.
  predicate DatesOrdered(bucket: PeerBucket, now: int) {
    && (forall i, j | 0 <= i < j < |bucket| :: bucket[i].1.dateAdded <= bucket[j].1.dateAdded)
    && (forall i | 0 <= i < |bucket| :: bucket[i].1.dateAdded <= now)
  }

  // With dates in order the scan only ever finds the head, which is the oldest entry: it is evicted
  // exactly when some entry has reached the threshold.
  lemma ScanFindsOldest(bucket: PeerBucket, now: int, threshold: nat, random: Random)
    requires DatesOrdered(bucket, now) && bucket != []
    ensures var victim := VictimIndex(NewKind(threshold), bucket, now, random);
      if exists i :: 0 <= i < |bucket| && Expired(bucket[i].1, now, threshold)
      then victim == 0 && forall i | 0 <= i < |bucket| :: bucket[0].1.dateAdded <= bucket[i].1.dateAdded
      else victim == RandomIndex(|bucket|, random)
  {
    if i :| 0 <= i < |bucket| && Expired(bucket[i].1, now, threshold) {
      assert Expired(bucket[0].1, now, threshold);
    }
  }

  lemma DatesAfterRemove(bucket: PeerBucket, i: nat, t: int)
    requires DatesOrdered(bucket, t) && i < |bucket|
    ensures DatesOrdered(RemoveAt(bucket, i), t)
  {
    var n := RemoveAt(bucket, i);
    assert forall j | 0 <= j < |n| :: n[j] == bucket[if j < i then j else j + 1];
  }

  lemma DatesAfterAdd(cfg: ListConfig, bucket: PeerBucket, k: string, info: PeerInfo, now: int, random: Random)
    requires DatesOrdered(bucket, now)
    ensures DatesOrdered(BucketAdd(cfg, bucket, k, info, now, random), now)
  {
    if !Has(bucket, k) && |bucket| >= cfg.bucketSize && bucket != [] {
      var i := VictimIndex(cfg.kind, bucket, now, random);
      DatesAfterRemove(bucket, i, now);
      assert forall j | 0 <= j < |RemoveAt(bucket, i)| :: RemoveAt(bucket, i)[j].0 != k;
    }
  }

  lemma DatesAfterFail(kind: ListKind, bucket: PeerBucket, k: string, t: int)
    requires DatesOrdered(bucket, t)
    ensures DatesOrdered(BucketFail(kind, bucket, k), t)
  {
    if Has(bucket, k) { DatesAfterRemove(bucket, IndexOf(bucket, k), t); }
  }

  // Under a clock that does not run backwards every operation keeps the dates in order.
  lemma DatesKept(cfg: ListConfig, bucket: PeerBucket, k: string, info: PeerInfo, t: int, now: int, random: Random)
    requires Distinct(bucket) && DatesOrdered(bucket, t) && t <= now
    ensures DatesOrdered(BucketAdd(cfg, bucket, k, info, now, random), now)
    ensures DatesOrdered(BucketUpdate(bucket, k, info), t)
    ensures DatesOrdered(BucketFail(cfg.kind, bucket, k), t)
    ensures DatesOrdered(Delete(bucket, k), t)
  {
    assert DatesOrdered(bucket, now);
    DatesAfterAdd(cfg, bucket, k, info, now, random);
    BucketUpdateSpec(bucket, k, info);
    DatesAfterFail(cfg.kind, bucket, k, t);
    if Has(bucket, k) { DatesAfterRemove(bucket, IndexOf(bucket, k), t); }
  }
}
