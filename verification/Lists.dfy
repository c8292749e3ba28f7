// A whole peer list as a value: the invariant of its buckets, its operations, and the flat map from
// peer id to entry that it stands for.
module Lists {
  import opened Wrappers
  import opened OrderedMap
  import opened Address
  import opened Peers
  import opened Buckets

  // ----- invariant ----------------------------------------------------------------------------------

  // The entry lies in the bucket, and under the key, computed from its own address and port.
  ghost predicate PlacedAt(cfg: ListConfig, b: nat, k: string, e: Entry)
    requires cfg.Valid()
  {
    && Addressable(e.info.ipAddress)
    && cfg.SelectBucket(e.info.ipAddress) == b && PeerIdOf(e.info) == k
    && (cfg.kind.TriedKind? ==> e.failures < cfg.kind.maxReconnectTries)
    && (cfg.kind.NewKind? ==> e.failures == 0)
  }

  function Capacity(cfg: ListConfig): nat {
    if cfg.bucketSize == 0 then 1 else cfg.bucketSize
  }

  ghost predicate BucketOk(cfg: ListConfig, b: nat, bucket: PeerBucket)
    requires cfg.Valid()
  {
    && Distinct(bucket) && |bucket| <= Capacity(cfg)
    && forall k | k in Dict(bucket) :: PlacedAt(cfg, b, k, Dict(bucket)[k])
  }

  ghost predicate ListOk(cfg: ListConfig, bs: Buckets)
    requires cfg.Valid()
  {
    |bs| == cfg.bucketCount && forall b | 0 <= b < |bs| :: BucketOk(cfg, b, bs[b])
  }

  ghost predicate AllAddresses(bs: Buckets, p: string -> bool) {
    forall b, k | 0 <= b < |bs| && k in Dict(bs[b]) :: p(Dict(bs[b])[k].info.ipAddress)
  }

  predicate Within(p: string -> bool, info: PeerInfo) {
    p(info.ipAddress) && Addressable(info.ipAddress)
  }

  // Among the addresses in `p` those with the same id select the same bucket.
  ghost predicate Coherent(cfg: ListConfig, p: string -> bool)
    requires cfg.Valid()
  {
    forall a: PeerInfo, b: PeerInfo | Within(p, a) && Within(p, b) && PeerIdOf(a) == PeerIdOf(b) ::
      cfg.SelectBucket(a.ipAddress) == cfg.SelectBucket(b.ipAddress)
  }

  // Addresses in normal form are coherent, whatever the hash.
  lemma NormalCoherent(cfg: ListConfig)
    requires cfg.Valid()
    ensures Coherent(cfg, IsNormalIp)
  {
    forall a: PeerInfo, b: PeerInfo
      | Within(IsNormalIp, a) && Within(IsNormalIp, b) && PeerIdOf(a) == PeerIdOf(b)
      ensures a.ipAddress == b.ipAddress
    {
      PeerIdOfInjective(a, b);
    }
  }

  // A list of coherent addresses.
  ghost predicate TidyList(cfg: ListConfig, bs: Buckets, p: string -> bool)
    requires cfg.Valid()
  {
    ListOk(cfg, bs) && AllAddresses(bs, p) && Coherent(cfg, p)
  }

  // ----- operations -----------------------------------------------------------------------------------

  predicate Fits(cfg: ListConfig, bs: Buckets, info: PeerInfo) {
    cfg.Valid() && |bs| == cfg.bucketCount && Addressable(info.ipAddress)
  }

  function BucketFor(cfg: ListConfig, bs: Buckets, info: PeerInfo): PeerBucket
    requires Fits(cfg, bs, info)
  {
    bs[cfg.SelectBucket(info.ipAddress)]
  }

  function Find(cfg: ListConfig, bs: Buckets, info: PeerInfo): Option<Entry>
    requires Fits(cfg, bs, info)
  {
    Get(BucketFor(cfg, bs, info), PeerIdOf(info))
  }

  function Put(cfg: ListConfig, bs: Buckets, info: PeerInfo, bucket: PeerBucket): (r: Buckets)
    requires Fits(cfg, bs, info)
    ensures |r| == |bs|
  {
    bs[cfg.SelectBucket(info.ipAddress) := bucket]
  }

  function Added(cfg: ListConfig, bs: Buckets, info: PeerInfo, now: int, random: Random): (r: Buckets)
    requires Fits(cfg, bs, info)
    ensures |r| == |bs|
  {
    Put(cfg, bs, info, BucketAdd(cfg, BucketFor(cfg, bs, info), PeerIdOf(info), info, now, random))
  }

  function Victim(cfg: ListConfig, bs: Buckets, info: PeerInfo, now: int, random: Random): Option<string>
    requires Fits(cfg, bs, info)
  {
    BucketVictim(cfg, BucketFor(cfg, bs, info), PeerIdOf(info), now, random)
  }

  function Updated(cfg: ListConfig, bs: Buckets, info: PeerInfo): (r: Buckets)
    requires Fits(cfg, bs, info)
    ensures |r| == |bs|
  {
    Put(cfg, bs, info, BucketUpdate(BucketFor(cfg, bs, info), PeerIdOf(info), info))
  }

  function Removed(cfg: ListConfig, bs: Buckets, info: PeerInfo): (r: Buckets)
    requires Fits(cfg, bs, info)
    ensures |r| == |bs|
  {
    Put(cfg, bs, info, Delete(BucketFor(cfg, bs, info), PeerIdOf(info)))
  }

  function Failed(cfg: ListConfig, bs: Buckets, info: PeerInfo): (r: Buckets)
    requires Fits(cfg, bs, info)
    ensures |r| == |bs|
  {
    Put(cfg, bs, info, BucketFail(cfg.kind, BucketFor(cfg, bs, info), PeerIdOf(info)))
  }

  // ----- every operation keeps the invariant ------------------------------------------------------------

  // Replacing the bucket of `info` by one whose entries are old ones or well placed.
  lemma PutOk(cfg: ListConfig, bs: Buckets, info: PeerInfo, bucket: PeerBucket, p: string -> bool)
    requires Fits(cfg, bs, info) && ListOk(cfg, bs) && AllAddresses(bs, p)
    requires Distinct(bucket) && |bucket| <= Capacity(cfg)
    requires var d := Dict(BucketFor(cfg, bs, info));
      forall k | k in Dict(bucket) ::
        || (k in d && Dict(bucket)[k] == d[k])
        || (p(Dict(bucket)[k].info.ipAddress) && PlacedAt(cfg, cfg.SelectBucket(info.ipAddress), k, Dict(bucket)[k]))
    ensures ListOk(cfg, Put(cfg, bs, info, bucket)) && AllAddresses(Put(cfg, bs, info, bucket), p)
  {
    var b := cfg.SelectBucket(info.ipAddress);
    var r := Put(cfg, bs, info, bucket);
    assert BucketOk(cfg, b, bs[b]);
    forall i | 0 <= i < |r| ensures BucketOk(cfg, i, r[i]) {
      if i != b { assert BucketOk(cfg, i, bs[i]); }
    }
  }

  lemma MergedPlaced(cfg: ListConfig, b: nat, k: string, e: Entry, info: PeerInfo)
    requires cfg.Valid() && PlacedAt(cfg, b, k, e)
    requires Addressable(info.ipAddress) && cfg.SelectBucket(info.ipAddress) == b && PeerIdOf(info) == k
    ensures PlacedAt(cfg, b, k, e.(info := Merge(e.info, info)))
  {
    assert PeerIdOf(Merge(e.info, info)) == PeerIdOf(info);
  }

  lemma AddedOk(cfg: ListConfig, bs: Buckets, info: PeerInfo, now: int, random: Random, p: string -> bool)
    requires Fits(cfg, bs, info) && ListOk(cfg, bs) && AllAddresses(bs, p) && p(info.ipAddress)
    ensures ListOk(cfg, Added(cfg, bs, info, now, random))
    ensures AllAddresses(Added(cfg, bs, info, now, random), p)
  {
    var b, k := cfg.SelectBucket(info.ipAddress), PeerIdOf(info);
    assert BucketOk(cfg, b, bs[b]);
    BucketAddSpec(cfg, bs[b], k, info, now, random);
    var after := BucketAdd(cfg, bs[b], k, info, now, random);
    HasIffKey(bs[b], k);
    PutOk(cfg, bs, info, after, p);
  }

  lemma UpdatedOk(cfg: ListConfig, bs: Buckets, info: PeerInfo, p: string -> bool)
    requires Fits(cfg, bs, info) && ListOk(cfg, bs) && AllAddresses(bs, p) && p(info.ipAddress)
    ensures ListOk(cfg, Updated(cfg, bs, info)) && AllAddresses(Updated(cfg, bs, info), p)
  {
    var b, k := cfg.SelectBucket(info.ipAddress), PeerIdOf(info);
    assert BucketOk(cfg, b, bs[b]);
    BucketUpdateSpec(bs[b], k, info);
    if k in Dict(bs[b]) { MergedPlaced(cfg, b, k, Dict(bs[b])[k], info); }
    PutOk(cfg, bs, info, BucketUpdate(bs[b], k, info), p);
  }

  lemma RemovedOk(cfg: ListConfig, bs: Buckets, info: PeerInfo, p: string -> bool)
    requires Fits(cfg, bs, info) && ListOk(cfg, bs) && AllAddresses(bs, p)
    ensures ListOk(cfg, Removed(cfg, bs, info)) && AllAddresses(Removed(cfg, bs, info), p)
  {
    var b, k := cfg.SelectBucket(info.ipAddress), PeerIdOf(info);
    assert BucketOk(cfg, b, bs[b]);
    DeleteSpec(bs[b], k);
    PutOk(cfg, bs, info, Delete(bs[b], k), p);
  }

  lemma FailedOk(cfg: ListConfig, bs: Buckets, info: PeerInfo, p: string -> bool)
    requires Fits(cfg, bs, info) && ListOk(cfg, bs) && AllAddresses(bs, p)
    ensures ListOk(cfg, Failed(cfg, bs, info)) && AllAddresses(Failed(cfg, bs, info), p)
  {
    var b, k := cfg.SelectBucket(info.ipAddress), PeerIdOf(info);
    assert BucketOk(cfg, b, bs[b]);
    BucketFailSpec(cfg.kind, bs[b], k);
    var after := BucketFail(cfg.kind, bs[b], k);
    PutOk(cfg, bs, info, after, p);
  }

  // ----- the flat map -------------------------------------------------------------------------------------

  ghost function Flat(bs: Buckets): map<string, Entry> {
    if bs == [] then map[] else Flat(bs[..|bs| - 1]) + Dict(bs[|bs| - 1])
  }

  // No id in two buckets.
  ghost predicate Unique(bs: Buckets) {
    forall i, j, k | 0 <= i < |bs| && 0 <= j < |bs| && k in Dict(bs[i]) && k in Dict(bs[j]) :: i == j
  }

  lemma {:induction false} FlatAt(bs: Buckets, b: nat, k: string)
    requires Unique(bs) && b < |bs| && k in Dict(bs[b])
    ensures k in Flat(bs) && Flat(bs)[k] == Dict(bs[b])[k]
  {
    hide Dict;
    var n := |bs| - 1;
    if b < n {
      assert forall i | 0 <= i < n :: bs[..n][i] == bs[i];
      FlatAt(bs[..n], b, k);
      assert k !in Dict(bs[n]);
    }
  }

  lemma {:induction false} FlatSome(bs: Buckets, k: string) returns (b: nat)
    requires k in Flat(bs)
    ensures b < |bs| && k in Dict(bs[b])
  {
    var n := |bs| - 1;
    if k in Dict(bs[n]) { b := n; } else { b := FlatSome(bs[..n], k); }
  }

  lemma TidyUnique(cfg: ListConfig, bs: Buckets, p: string -> bool)
    requires cfg.Valid() && TidyList(cfg, bs, p)
    ensures Unique(bs)
  {
    forall i, j, k | 0 <= i < |bs| && 0 <= j < |bs| && k in Dict(bs[i]) && k in Dict(bs[j]) ensures i == j {
      assert BucketOk(cfg, i, bs[i]) && BucketOk(cfg, j, bs[j]);
      assert Within(p, Dict(bs[i])[k].info) && Within(p, Dict(bs[j])[k].info);
    }
  }

  // In a tidy list an id can only be found where its own description says.
  lemma FindIsFlat(cfg: ListConfig, bs: Buckets, info: PeerInfo, p: string -> bool)
    requires Fits(cfg, bs, info) && TidyList(cfg, bs, p) && p(info.ipAddress)
    ensures var k := PeerIdOf(info);
      && (k in Flat(bs) <==> k in Dict(BucketFor(cfg, bs, info)))
      && (k in Flat(bs) ==> Flat(bs)[k] == Dict(BucketFor(cfg, bs, info))[k])
      && Find(cfg, bs, info) == if k in Flat(bs) then Some(Flat(bs)[k]) else None
  {
    TidyUnique(cfg, bs, p);
    var k, b := PeerIdOf(info), cfg.SelectBucket(info.ipAddress);
    HasIffKey(bs[b], k);
    if k in Dict(bs[b]) { FlatAt(bs, b, k); }
    if k in Flat(bs) {
      var i := FlatSome(bs, k);
      assert BucketOk(cfg, i, bs[i]);
      assert Within(p, Dict(bs[i])[k].info) && Within(p, info);
    }
  }

  lemma FlatPut(bs: Buckets, b: nat, bucket: PeerBucket)
    requires b < |bs| && Unique(bs) && Unique(bs[b := bucket])
    ensures Flat(bs[b := bucket]) == (Flat(bs) - Dict(bs[b]).Keys) + Dict(bucket)
  {
    var after := bs[b := bucket];
    var want := (Flat(bs) - Dict(bs[b]).Keys) + Dict(bucket);
    forall k | k in Flat(after) ensures k in want && Flat(after)[k] == want[k] {
      var i := FlatSome(after, k);
      FlatAt(after, i, k);
      if i != b {
        FlatAt(bs, i, k);
        assert k !in Dict(after[b]);
      }
    }
    forall k | k in want ensures k in Flat(after) {
      if k in Dict(bucket) {
        FlatAt(after, b, k);
      } else {
        var i := FlatSome(bs, k);
        FlatAt(after, i, k);
      }
    }
  }

  lemma MapDropped<V>(m: map<string, V>, d: map<string, V>, k: string)
    requires d.Keys <= m.Keys && (forall x | x in d :: m[x] == d[x]) && (k in m ==> k in d)
    ensures (m - d.Keys) + (d - {k}) == m - {k}
  {}

  lemma MapStored<V>(m: map<string, V>, d: map<string, V>, victim: Option<string>, k: string, v: V)
    requires d.Keys <= m.Keys && (forall x | x in d :: m[x] == d[x]) && (victim.Some? ==> victim.value in d)
    ensures (m - d.Keys) + Without(d, victim)[k := v] == Without(m, victim)[k := v]
  {}

  lemma PutFlat(cfg: ListConfig, bs: Buckets, info: PeerInfo, bucket: PeerBucket, p: string -> bool)
    requires Fits(cfg, bs, info) && TidyList(cfg, bs, p) && TidyList(cfg, Put(cfg, bs, info, bucket), p)
    ensures var d := Dict(BucketFor(cfg, bs, info));
      && Flat(Put(cfg, bs, info, bucket)) == (Flat(bs) - d.Keys) + Dict(bucket)
      && d.Keys <= Flat(bs).Keys && forall x | x in d :: Flat(bs)[x] == d[x]
  {
    TidyUnique(cfg, bs, p);
    TidyUnique(cfg, Put(cfg, bs, info, bucket), p);
    var b := cfg.SelectBucket(info.ipAddress);
    FlatPut(bs, b, bucket);
    forall x | x in Dict(bs[b]) ensures x in Flat(bs) && Flat(bs)[x] == Dict(bs[b])[x] { FlatAt(bs, b, x); }
  }

  // Dropping a key from the bucket of `info` drops it from the flat map ...
  lemma PutDropped(cfg: ListConfig, bs: Buckets, info: PeerInfo, bucket: PeerBucket, k: string, p: string -> bool)
    requires Fits(cfg, bs, info) && TidyList(cfg, bs, p) && TidyList(cfg, Put(cfg, bs, info, bucket), p)
    requires var d := Dict(BucketFor(cfg, bs, info));
      Dict(bucket) == d - {k} && (k in Flat(bs) ==> k in d)
    ensures Flat(Put(cfg, bs, info, bucket)) == Flat(bs) - {k}
  {
    PutFlat(cfg, bs, info, bucket, p);
    MapDropped(Flat(bs), Dict(BucketFor(cfg, bs, info)), k);
  }

  // ... and so for evicting one key and storing another.
  lemma PutStored(cfg: ListConfig, bs: Buckets, info: PeerInfo, bucket: PeerBucket,
                  victim: Option<string>, k: string, e: Entry, p: string -> bool)
    requires Fits(cfg, bs, info) && TidyList(cfg, bs, p) && TidyList(cfg, Put(cfg, bs, info, bucket), p)
    requires var d := Dict(BucketFor(cfg, bs, info));
      Dict(bucket) == Without(d, victim)[k := e] && (victim.Some? ==> victim.value in d)
    ensures Flat(Put(cfg, bs, info, bucket)) == Without(Flat(bs), victim)[k := e]
  {
    PutFlat(cfg, bs, info, bucket, p);
    MapStored(Flat(bs), Dict(BucketFor(cfg, bs, info)), victim, k, e);
  }

  lemma BucketOf(cfg: ListConfig, bs: Buckets, info: PeerInfo, p: string -> bool)
    requires Fits(cfg, bs, info) && TidyList(cfg, bs, p)
    ensures Distinct(BucketFor(cfg, bs, info))
    ensures forall k | k in Dict(BucketFor(cfg, bs, info)) :: k in Flat(bs)
  {
    var b := cfg.SelectBucket(info.ipAddress);
    assert BucketOk(cfg, b, bs[b]);
    TidyUnique(cfg, bs, p);
    forall k | k in Dict(bs[b]) ensures k in Flat(bs) { FlatAt(bs, b, k); }
  }

  lemma PutSame(cfg: ListConfig, bs: Buckets, info: PeerInfo)
    requires Fits(cfg, bs, info)
    ensures Put(cfg, bs, info, BucketFor(cfg, bs, info)) == bs
  {}

  // ----- what the operations do to the flat map --------------------------------------------------

  lemma VictimStored(cfg: ListConfig, bs: Buckets, info: PeerInfo, now: int, random: Random, p: string -> bool)
    requires Fits(cfg, bs, info) && TidyList(cfg, bs, p) && p(info.ipAddress)
    ensures var k, victim, bucket := PeerIdOf(info), Victim(cfg, bs, info, now, random), BucketFor(cfg, bs, info);
      victim.Some? ==> (
        && victim.value in Flat(bs) && victim.value != k && k !in Flat(bs)
        && victim.value in Dict(bucket) && |bucket| >= cfg.bucketSize)
  {
    FindIsFlat(cfg, bs, info, p);
    BucketOf(cfg, bs, info, p);
    var victim, bucket := Victim(cfg, bs, info, now, random), BucketFor(cfg, bs, info);
    HasIffKey(bucket, PeerIdOf(info));
    if victim.Some? { HasIffKey(bucket, victim.value); }
  }

  lemma AddedFlat(cfg: ListConfig, bs: Buckets, info: PeerInfo, now: int, random: Random, p: string -> bool)
    requires Fits(cfg, bs, info) && TidyList(cfg, bs, p) && p(info.ipAddress)
    ensures TidyList(cfg, Added(cfg, bs, info, now, random), p)
    ensures var k, after := PeerIdOf(info), Added(cfg, bs, info, now, random);
      var victim := Victim(cfg, bs, info, now, random);
      && (k in Flat(bs) ==> after == bs && victim.None?)
      && (k !in Flat(bs) ==> Flat(after) == Without(Flat(bs), victim)[k := Entry(info, 0, now)])
  {
    var k, bucket := PeerIdOf(info), BucketFor(cfg, bs, info);
    var victim := Victim(cfg, bs, info, now, random);
    AddedOk(cfg, bs, info, now, random, p);
    FindIsFlat(cfg, bs, info, p);
    BucketOf(cfg, bs, info, p);
    HasIffKey(bucket, k);
    BucketAddSpec(cfg, bucket, k, info, now, random);
    if k in Flat(bs) {
      PutSame(cfg, bs, info);
    } else {
      VictimStored(cfg, bs, info, now, random, p);
      PutStored(cfg, bs, info, BucketAdd(cfg, bucket, k, info, now, random), victim, k, Entry(info, 0, now), p);
    }
  }

  lemma UpdatedFlat(cfg: ListConfig, bs: Buckets, info: PeerInfo, p: string -> bool)
    requires Fits(cfg, bs, info) && TidyList(cfg, bs, p) && p(info.ipAddress)
    ensures TidyList(cfg, Updated(cfg, bs, info), p)
    ensures var k := PeerIdOf(info);
      if k in Flat(bs)
      then Flat(Updated(cfg, bs, info)) == Flat(bs)[k := Flat(bs)[k].(info := Merge(Flat(bs)[k].info, info))]
      else Updated(cfg, bs, info) == bs
  {
    var k, bucket := PeerIdOf(info), BucketFor(cfg, bs, info);
    UpdatedOk(cfg, bs, info, p);
    FindIsFlat(cfg, bs, info, p);
    BucketOf(cfg, bs, info, p);
    BucketUpdateSpec(bucket, k, info);
    if k in Flat(bs) {
      var e := Flat(bs)[k].(info := Merge(Flat(bs)[k].info, info));
      PutStored(cfg, bs, info, BucketUpdate(bucket, k, info), None, k, e, p);
    } else {
      PutSame(cfg, bs, info);
    }
  }

  lemma RemovedFlat(cfg: ListConfig, bs: Buckets, info: PeerInfo, p: string -> bool)
    requires Fits(cfg, bs, info) && TidyList(cfg, bs, p) && p(info.ipAddress)
    ensures TidyList(cfg, Removed(cfg, bs, info), p)
    ensures Flat(Removed(cfg, bs, info)) == Flat(bs) - {PeerIdOf(info)}
  {
    var k, bucket := PeerIdOf(info), BucketFor(cfg, bs, info);
    RemovedOk(cfg, bs, info, p);
    FindIsFlat(cfg, bs, info, p);
    BucketOf(cfg, bs, info, p);
    DeleteSpec(bucket, k);
    PutDropped(cfg, bs, info, Delete(bucket, k), k, p);
  }

  lemma FailedDrop(cfg: ListConfig, bs: Buckets, info: PeerInfo, p: string -> bool)
    requires Fits(cfg, bs, info) && TidyList(cfg, bs, p) && p(info.ipAddress)
    requires PeerIdOf(info) in Flat(bs) && Drops(cfg.kind, Flat(bs)[PeerIdOf(info)])
    ensures Failed(cfg, bs, info) == Removed(cfg, bs, info)
  {
    FindIsFlat(cfg, bs, info, p);
  }

  lemma FailedCount(cfg: ListConfig, bs: Buckets, info: PeerInfo, p: string -> bool)
    requires Fits(cfg, bs, info) && TidyList(cfg, bs, p) && p(info.ipAddress)
    requires TidyList(cfg, Failed(cfg, bs, info), p)
    requires PeerIdOf(info) in Flat(bs) && !Drops(cfg.kind, Flat(bs)[PeerIdOf(info)])
    ensures Flat(Failed(cfg, bs, info)) == Flat(bs)[PeerIdOf(info) := Counted(Flat(bs)[PeerIdOf(info)])]
  {
    FindIsFlat(cfg, bs, info, p);
    BucketOf(cfg, bs, info, p);
    var k, bucket := PeerIdOf(info), BucketFor(cfg, bs, info);
    BucketFailSpec(cfg.kind, bucket, k);
    PutStored(cfg, bs, info, BucketFail(cfg.kind, bucket, k), None, k, Counted(Flat(bs)[k]), p);
  }

  lemma FailedFlat(cfg: ListConfig, bs: Buckets, info: PeerInfo, p: string -> bool)
    requires Fits(cfg, bs, info) && TidyList(cfg, bs, p) && p(info.ipAddress)
    ensures TidyList(cfg, Failed(cfg, bs, info), p)
    ensures var k := PeerIdOf(info);
      if k !in Flat(bs) then Failed(cfg, bs, info) == bs
      else if Drops(cfg.kind, Flat(bs)[k]) then Flat(Failed(cfg, bs, info)) == Flat(bs) - {k}
      else Flat(Failed(cfg, bs, info)) == Flat(bs)[k := Counted(Flat(bs)[k])]
  {
    FailedOk(cfg, bs, info, p);
    var k := PeerIdOf(info);
    if k !in Flat(bs) {
      FindIsFlat(cfg, bs, info, p);
      HasIffKey(BucketFor(cfg, bs, info), k);
      PutSame(cfg, bs, info);
    } else if Drops(cfg.kind, Flat(bs)[k]) {
      FailedDrop(cfg, bs, info, p);
      RemovedFlat(cfg, bs, info, p);
    } else {
      FailedCount(cfg, bs, info, p);
    }
  }

  // ----- the list of all peers -------------------------------------------------------------------

  function BucketInfos(bucket: PeerBucket): (r: seq<PeerInfo>)
    ensures |r| == |bucket|
  {
    seq(|bucket|, i requires 0 <= i < |bucket| => bucket[i].1.info)
  }

  // `peersList`
  function AllInfos(bs: Buckets): seq<PeerInfo> {
    if bs == [] then [] else AllInfos(bs[..|bs| - 1]) + BucketInfos(bs[|bs| - 1])
  }

  // All entries in list order, with their keys.
  ghost function AllEntries(bs: Buckets): OMap<Entry> {
    if bs == [] then [] else AllEntries(bs[..|bs| - 1]) + bs[|bs| - 1]
  }

  lemma {:induction false} EntriesDict(bs: Buckets)
    requires Unique(bs) && forall b | 0 <= b < |bs| :: Distinct(bs[b])
    ensures Distinct(AllEntries(bs)) && Dict(AllEntries(bs)) == Flat(bs)
    ensures |AllInfos(bs)| == |AllEntries(bs)|
    ensures forall i | 0 <= i < |AllInfos(bs)| :: AllInfos(bs)[i] == AllEntries(bs)[i].1.info
  {
    if bs != [] {
      var n := |bs| - 1;
      var init, last := bs[..n], bs[n];
      assert forall b | 0 <= b < n :: init[b] == bs[b];
      EntriesDict(init);
      forall k | k in Dict(AllEntries(init)) && k in Dict(last) ensures false {
        var b := FlatSome(init, k);
      }
      ConcatDict(AllEntries(init), last);
    }
  }

  lemma {:induction false} CountBound(bs: Buckets, cap: nat)
    requires forall b | 0 <= b < |bs| :: |bs[b]| <= cap
    ensures |AllInfos(bs)| <= |bs| * cap
  {
    if bs != [] {
      CountBound(bs[..|bs| - 1], cap);
      assert |bs| * cap == (|bs| - 1) * cap + cap;
    }
  }

  // `peersList` shows every stored peer exactly once: as many peers as the flat map has ids, each
  // with its own id, and never more than the buckets can hold.
  lemma AllInfosSpec(cfg: ListConfig, bs: Buckets, p: string -> bool)
    requires cfg.Valid() && TidyList(cfg, bs, p)
    ensures |AllInfos(bs)| == |Flat(bs)| <= cfg.bucketCount * Capacity(cfg)
    ensures forall i | 0 <= i < |AllInfos(bs)| ::
      && Within(p, AllInfos(bs)[i])
      && PeerIdOf(AllInfos(bs)[i]) in Flat(bs)
      && Flat(bs)[PeerIdOf(AllInfos(bs)[i])].info == AllInfos(bs)[i]
    ensures forall i, j | 0 <= i < j < |AllInfos(bs)| :: PeerIdOf(AllInfos(bs)[i]) != PeerIdOf(AllInfos(bs)[j])
  {
    TidyUnique(cfg, bs, p);
    forall b | 0 <= b < |bs| ensures Distinct(bs[b]) && |bs[b]| <= Capacity(cfg) { assert BucketOk(cfg, b, bs[b]); }
    EntriesDict(bs);
    var es := AllEntries(bs);
    DictSize(es);
    CountBound(bs, Capacity(cfg));
    forall i | 0 <= i < |es|
      ensures && Within(p, es[i].1.info)
              && PeerIdOf(es[i].1.info) == es[i].0 && es[i].0 in Flat(bs) && Flat(bs)[es[i].0] == es[i].1
    {
      IndexIs(es, i);
      var b := FlatSome(bs, es[i].0);
      FlatAt(bs, b, es[i].0);
      assert BucketOk(cfg, b, bs[b]);
    }
  }

  // Every stored peer is shown.
  lemma ShownInList(cfg: ListConfig, bs: Buckets, k: string, p: string -> bool) returns (i: nat)
    requires cfg.Valid() && TidyList(cfg, bs, p) && k in Flat(bs)
    ensures i < |AllInfos(bs)| && AllInfos(bs)[i] == Flat(bs)[k].info
  {
    hide Coherent, PlacedAt;
    TidyUnique(cfg, bs, p);
    forall b | 0 <= b < |bs| ensures Distinct(bs[b]) { assert BucketOk(cfg, b, bs[b]); }
    EntriesDict(bs);
    i := IndexOf(AllEntries(bs), k);
  }
}
