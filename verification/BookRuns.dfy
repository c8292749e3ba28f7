// Whole runs of the peer book: what every run keeps, the life of one peer, and eviction by age.
module BookRuns {
  import opened Wrappers
  import opened Text
  import opened OrderedMap
  import opened Address
  import opened PeerId
  import opened Bucket
  import opened Peers
  import opened Buckets
  import opened Lists
  import opened Books

  predicate AllIn(ops: seq<Op>, p: string -> bool) {
    forall i | 0 <= i < |ops| :: Within(p, ops[i].info)
  }

  // The operation is about the peer with id `k`.
  predicate Names(op: Op, k: string) {
    Addressable(op.info.ipAddress) && PeerIdOf(op.info) == k
  }

  // ----- short runs and runs in a row ------------------------------------------------------------

  lemma RunOne(c: BookConfig, s: Book, op: Op)
    ensures Run(c, s, [op]) == Apply(c, s, op)
  {
    hide Apply;
    assert [op][1..] == [];
  }

  lemma RunTwo(c: BookConfig, s: Book, op: Op, op': Op)
    ensures Run(c, s, [op, op']) == Apply(c, Apply(c, s, op), op')
  {
    hide Apply;
    assert [op, op'][1..] == [op'];
    RunOne(c, Apply(c, s, op), op');
  }

  lemma {:induction false} RunConcat(c: BookConfig, s: Book, a: seq<Op>, b: seq<Op>)
    ensures Run(c, s, a + b) == Run(c, Run(c, s, a), b)
    decreases |a|
  {
    hide Apply;
    if a == [] {
      assert a + b == b;
    } else {
      assert (a + b)[1..] == a[1..] + b;
      RunConcat(c, Apply(c, s, a[0]), a[1..], b);
    }
  }

  // ----- invariants over all runs ---------------------------------------------------------------------

  // The book that the constructor builds.
  function EmptyBook(c: BookConfig): Book {
    Book(seq(c.newList.bucketCount, i => []), seq(c.triedList.bucketCount, i => []))
  }

  lemma {:induction false} FlatEmpty(bs: Buckets)
    requires forall b | 0 <= b < |bs| :: bs[b] == []
    ensures Flat(bs) == map[]
  {
    if bs != [] { FlatEmpty(bs[..|bs| - 1]); }
  }

  lemma EmptyBookTidy(c: BookConfig, p: string -> bool)
    requires c.Valid() && Coherent(c.newList, p) && Coherent(c.triedList, p)
    ensures TidyBook(c, EmptyBook(c), p) && View(EmptyBook(c)) == map[]
  {
    FlatEmpty(EmptyBook(c).newPeers);
    FlatEmpty(EmptyBook(c).triedPeers);
  }

  // Over every run on coherent addresses no id is in two buckets or two tiers, every entry lies where
  // its own address and port say, and the counters and bucket sizes stay bounded.
  lemma {:induction false} RunStaysTidy(c: BookConfig, s: Book, ops: seq<Op>, p: string -> bool)
    requires TidyBook(c, s, p) && AllIn(ops, p)
    ensures TidyBook(c, Run(c, s, ops), p)
    decreases |ops|
  {
    if ops != [] {
      StepRefines(c, s, ops[0], p);
      RunStaysTidy(c, Apply(c, s, ops[0]), ops[1..], p);
    }
  }

  // What a flat step does to a peer that it neither names nor evicts ...
  lemma FlatStepOther(c: BookConfig, f: FlatMap, k: string, op: Op, victim: Option<string>, x: string)
    requires c.Valid() && x != k
    ensures var after := FlatStep(c, f, k, op, victim);
      && (x in after ==> x in f && after[x] == f[x])
      && (x in f && victim != Some(x) ==> x in after)
  {}

  // ... and to the peer that it names.
  lemma FlatStepSelf(c: BookConfig, f: FlatMap, k: string, op: Op, victim: Option<string>)
    requires c.Valid() && victim != Some(k)
    ensures var after := FlatStep(c, f, k, op, victim);
      match op
      case Add(info, now, _) =>
        k in after && after[k] == if k in f then f[k] else Placed(NewTier, Entry(info, 0, now))
      case Update(_) =>
        (k in after <==> k in f) &&
        (k in f ==> after[k].tier == f[k].tier && after[k].entry.failures == f[k].entry.failures)
      case Remove(_) => k !in after
      case Upgrade(info, now, _) =>
        (k in after <==> k in f) &&
        (k in f ==> after[k] == if f[k].tier.TriedTier? then f[k] else Placed(TriedTier, Entry(info, 0, now)))
      case Downgrade(info, now, _) =>
        (k in after <==> k in f && f[k].tier.TriedTier?) &&
        (k in after ==>
           after[k] == if f[k].entry.failures + 1 < c.triedList.kind.maxReconnectTries
                       then Placed(TriedTier, Counted(f[k].entry)) else Placed(NewTier, Entry(info, 0, now)))
  {}

  // A step leaves every peer alone but the named one and the evicted one.
  lemma StepFrame(c: BookConfig, s: Book, op: Op, x: string, p: string -> bool)
    requires TidyBook(c, s, p) && Within(p, op.info)
    requires x != PeerIdOf(op.info) && StepVictim(c, s, op) != Some(x)
    ensures var before, after := View(s), View(Apply(c, s, op));
      (x in after <==> x in before) && (x in before ==> after[x] == before[x])
  {
    StepRefines(c, s, op, p);
    FlatStepOther(c, View(s), PeerIdOf(op.info), op, StepVictim(c, s, op), x);
  }

  // One step as seen by the peer `k`.
  lemma StepAt(c: BookConfig, s: Book, op: Op, k: string, p: string -> bool)
    requires TidyBook(c, s, p) && Within(p, op.info)
    ensures BookFits(c, s, op.info)
    ensures var victim, after := StepVictim(c, s, op), View(Apply(c, s, op));
      && after == FlatStep(c, View(s), PeerIdOf(op.info), op, victim)
      && victim != Some(PeerIdOf(op.info))
  {
    StepRefines(c, s, op, p);
  }

  // The peers shown by `getAllPeers` are those of the flat map, each once.
  lemma AllPeersSpec(c: BookConfig, s: Book, p: string -> bool)
    requires TidyBook(c, s, p)
    ensures var all := AllInfos(s.newPeers) + AllInfos(s.triedPeers);
      && |all| == |View(s)|
      && |all| <= c.newList.bucketCount * Capacity(c.newList) + c.triedList.bucketCount * Capacity(c.triedList)
    ensures ShowsEachOnce(AllInfos(s.newPeers) + AllInfos(s.triedPeers), View(s))
  {
    AllInfosSpec(c.newList, s.newPeers, p);
    AllInfosSpec(c.triedList, s.triedPeers, p);
    MergedSize(Flat(s.newPeers), Flat(s.triedPeers));
    ShownTogether(AllInfos(s.newPeers), Flat(s.newPeers), AllInfos(s.triedPeers), Flat(s.triedPeers));
  }

  ghost predicate ShowsEachOnce(all: seq<PeerInfo>, f: FlatMap) {
    && (forall i | 0 <= i < |all| ::
          Addressable(all[i].ipAddress) && PeerIdOf(all[i]) in f && f[PeerIdOf(all[i])].entry.info == all[i])
    && (forall i, j | 0 <= i < j < |all| :: PeerIdOf(all[i]) != PeerIdOf(all[j]))
  }

  ghost predicate Shows(all: seq<PeerInfo>, m: map<string, Entry>) {
    && (forall i | 0 <= i < |all| ::
          Addressable(all[i].ipAddress) && PeerIdOf(all[i]) in m && m[PeerIdOf(all[i])].info == all[i])
    && (forall i, j | 0 <= i < j < |all| :: PeerIdOf(all[i]) != PeerIdOf(all[j]))
  }

  lemma ShownTogether(a: seq<PeerInfo>, n: map<string, Entry>, b: seq<PeerInfo>, t: map<string, Entry>)
    requires Shows(a, n) && Shows(b, t) && n.Keys !! t.Keys
    ensures ShowsEachOnce(a + b, Merged(n, t))
  {
    var all := a + b;
    forall i | 0 <= i < |all|
      ensures Addressable(all[i].ipAddress) && PeerIdOf(all[i]) in Merged(n, t)
      ensures Merged(n, t)[PeerIdOf(all[i])].entry.info == all[i]
    {
      assert all[i] == if i < |a| then a[i] else b[i - |a|];
    }
    forall i, j | 0 <= i < j < |all| ensures PeerIdOf(all[i]) != PeerIdOf(all[j]) {
      assert all[i] == if i < |a| then a[i] else b[i - |a|];
      assert all[j] == if j < |a| then a[j] else b[j - |a|];
      if i < |a| <= j { assert PeerIdOf(a[i]) in n && PeerIdOf(b[j - |a|]) in t; }
    }
  }

  lemma MergedSize(n: map<string, Entry>, t: map<string, Entry>)
    requires n.Keys !! t.Keys
    ensures |Merged(n, t)| == |n| + |t|
  {
    assert Merged(n, t).Keys == n.Keys + t.Keys;
    assert |Merged(n, t)| == |Merged(n, t).Keys| && |n| == |n.Keys| && |t| == |t.Keys|;
  }

  // ----- any address: the invariant of the lists, and what all addresses satisfy -------------------------

  lemma ApplyOk(c: BookConfig, s: Book, op: Op, p: string -> bool)
    requires BookOk(c, s) && BookAddresses(s, p) && (op.Remove? || p(op.info.ipAddress))
    ensures BookOk(c, Apply(c, s, op)) && BookAddresses(Apply(c, s, op), p)
  {
    hide Added, Updated, Removed, Failed, ListOk, PeerIdOf, Addressable, AllAddresses;
    var info := op.info;
    if BookFits(c, s, info) {
      match op
      case Add(_, now, random) =>
        AddedOk(c.newList, s.newPeers, info, now, random, p);
      case Update(_) =>
        UpdatedOk(c.newList, s.newPeers, info, p);
        UpdatedOk(c.triedList, s.triedPeers, info, p);
      case Remove(_) =>
        RemovedOk(c.newList, s.newPeers, info, p);
        RemovedOk(c.triedList, s.triedPeers, info, p);
      case Upgrade(_, now, random) =>
        RemovedOk(c.newList, s.newPeers, info, p);
        AddedOk(c.triedList, s.triedPeers, info, now, random, p);
      case Downgrade(_, now, random) =>
        FailedOk(c.newList, s.newPeers, info, p);
        FailedOk(c.triedList, s.triedPeers, info, p);
        AddedOk(c.newList, s.newPeers, info, now, random, p);
    }
  }

  lemma {:induction false} RunOk(c: BookConfig, s: Book, ops: seq<Op>, p: string -> bool)
    requires BookOk(c, s) && BookAddresses(s, p)
    requires forall op | op in ops :: op.Remove? || p(op.info.ipAddress)
    ensures BookOk(c, Run(c, s, ops)) && BookAddresses(Run(c, s, ops), p)
    decreases |ops|
  {
    hide BookOk, BookAddresses, Apply;
    if ops != [] {
      assert ops[0] in ops && forall op | op in ops[1..] :: op in ops;
      ApplyOk(c, s, ops[0], p);
      RunOk(c, Apply(c, s, ops[0]), ops[1..], p);
    }
  }

  // A peer found in the book has an address of the book.
  lemma FoundAddress(c: BookConfig, s: Book, info: PeerInfo, p: string -> bool)
    requires BookOk(c, s) && BookAddresses(s, p) && BookFits(c, s, info) && FindPeer(c, s, info).Some?
    ensures p(FindPeer(c, s, info).value.ipAddress)
  {
    hide PeerIdOf, Addressable;
    HasIffKey(BucketFor(c.newList, s.newPeers, info), PeerIdOf(info));
    HasIffKey(BucketFor(c.triedList, s.triedPeers, info), PeerIdOf(info));
  }

  // What the book holds can be looked up again.
  lemma AllStoredAddressable(c: BookConfig, s: Book)
    requires BookOk(c, s)
    ensures BookAddresses(s, Addressable)
  {
    hide Addressable, PeerIdOf;
    forall b, k | 0 <= b < |s.newPeers| && k in Dict(s.newPeers[b])
      ensures Addressable(Dict(s.newPeers[b])[k].info.ipAddress)
    {
      assert BucketOk(c.newList, b, s.newPeers[b]);
    }
    forall b, k | 0 <= b < |s.triedPeers| && k in Dict(s.triedPeers[b])
      ensures Addressable(Dict(s.triedPeers[b])[k].info.ipAddress)
    {
      assert BucketOk(c.triedList, b, s.triedPeers[b]);
    }
  }

  lemma StoredIsAddressable(c: BookConfig, s: Book, info: PeerInfo)
    requires BookOk(c, s) && BookFits(c, s, info) && FindPeer(c, s, info).Some?
    ensures Addressable(FindPeer(c, s, info).value.ipAddress)
  {
    hide Addressable, BookOk, BookAddresses, BookFits, FindPeer;
    AllStoredAddressable(c, s);
    FoundAddress(c, s, info, Addressable);
  }

  lemma {:induction false} AllInfosAddresses(bs: Buckets, p: string -> bool)
    requires AllAddresses(bs, p) && forall b | 0 <= b < |bs| :: Distinct(bs[b])
    ensures forall info | info in AllInfos(bs) :: p(info.ipAddress)
  {
    if bs != [] {
      var n := |bs| - 1;
      assert forall b | 0 <= b < n :: bs[..n][b] == bs[b];
      AllInfosAddresses(bs[..n], p);
      forall i | 0 <= i < |bs[n]| ensures p(BucketInfos(bs[n])[i].ipAddress) {
        IndexIs(bs[n], i);
      }
    }
  }

  // ----- when an id can be stored twice --------------------------------------------------------------------

  // No id in two buckets, nor in two tiers.
  ghost predicate OnePlace(s: Book) {
    Unique(s.newPeers) && Unique(s.triedPeers) && Flat(s.newPeers).Keys !! Flat(s.triedPeers).Keys
  }

  // Over every run on the addresses in `p`, from the empty book, no id is in two buckets or tiers exactly
  // when `p` is coherent for both lists.
  lemma OnePlaceIff(c: BookConfig, p: string -> bool)
    requires c.Valid()
    ensures (forall ops: seq<Op> | AllIn(ops, p) :: OnePlace(Run(c, EmptyBook(c), ops)))
       <==> Coherent(c.newList, p) && Coherent(c.triedList, p)
  {
    hide Run, OnePlace, AllIn;
    if Coherent(c.newList, p) && Coherent(c.triedList, p) {
      forall ops: seq<Op> | AllIn(ops, p) ensures OnePlace(Run(c, EmptyBook(c), ops)) {
        EmptyBookTidy(c, p);
        RunStaysTidy(c, EmptyBook(c), ops, p);
        TidyOnePlace(c, Run(c, EmptyBook(c), ops), p);
      }
    } else if !Coherent(c.newList, p) {
      var a: PeerInfo, b: PeerInfo :| Within(p, a) && Within(p, b) && PeerIdOf(a) == PeerIdOf(b)
        && c.newList.SelectBucket(a.ipAddress) != c.newList.SelectBucket(b.ipAddress);
      TwoBuckets(c, a, b, p);
    } else {
      var a: PeerInfo, b: PeerInfo :| Within(p, a) && Within(p, b) && PeerIdOf(a) == PeerIdOf(b)
        && c.triedList.SelectBucket(a.ipAddress) != c.triedList.SelectBucket(b.ipAddress);
      TwoTiers(c, a, b, p);
    }
  }

  lemma TidyOnePlace(c: BookConfig, s: Book, p: string -> bool)
    requires TidyBook(c, s, p)
    ensures OnePlace(s)
  {
    TidyUnique(c.newList, s.newPeers, p);
    TidyUnique(c.triedList, s.triedPeers, p);
  }

  // Two spellings in different buckets of the new list: adding both stores the id in two buckets.
  lemma TwoBuckets(c: BookConfig, a: PeerInfo, b: PeerInfo, p: string -> bool)
    requires c.Valid() && Within(p, a) && Within(p, b) && PeerIdOf(a) == PeerIdOf(b)
    requires c.newList.SelectBucket(a.ipAddress) != c.newList.SelectBucket(b.ipAddress)
    ensures exists ops: seq<Op> :: AllIn(ops, p) && !OnePlace(Run(c, EmptyBook(c), ops))
  {
    hide PeerIdOf, Addressable, Apply, Run;
    var empty, x, y := EmptyBook(c), Add(a, 0, 0.0), Add(b, 0, 0.0);
    RunTwo(c, empty, x, y);
    AddToEmpty(c, empty, a);
    AddToEmpty(c, Apply(c, empty, x), b);
    var s := Apply(c, Apply(c, empty, x), y);
    var i, j := c.newList.SelectBucket(a.ipAddress), c.newList.SelectBucket(b.ipAddress);
    assert s.newPeers[i] == Alone(a) && s.newPeers[j] == Alone(b);
    AloneHas(a);
    AloneHas(b);
    assert AllIn([x, y], p);
  }

  // Two spellings in different buckets of the tried list: a peer added and upgraded under the one is not
  // found under the other, and adding it stores the id in both tiers.
  lemma TwoTiers(c: BookConfig, a: PeerInfo, b: PeerInfo, p: string -> bool)
    requires c.Valid() && Within(p, a) && Within(p, b) && PeerIdOf(a) == PeerIdOf(b)
    requires c.triedList.SelectBucket(a.ipAddress) != c.triedList.SelectBucket(b.ipAddress)
    ensures exists ops: seq<Op> :: AllIn(ops, p) && !OnePlace(Run(c, EmptyBook(c), ops))
  {
    hide PeerIdOf, Addressable, Apply, Run, OnePlace, Alone;
    var empty, x, y, z := EmptyBook(c), Add(a, 0, 0.0), Upgrade(a, 0, 0.0), Add(b, 0, 0.0);
    RunConcat(c, empty, [x, y], [z]);
    RunTwo(c, empty, x, y);
    UpgradedOnly(c, a);
    var s := Apply(c, Apply(c, empty, x), y);
    RunOne(c, s, z);
    AddToEmpty(c, s, b);
    AloneHas(a);
    AloneHas(b);
    var i, j := c.newList.SelectBucket(b.ipAddress), c.triedList.SelectBucket(a.ipAddress);
    InBothTiers(Apply(c, s, z), i, j, PeerIdOf(a));
    assert AllIn([x, y] + [z], p);
  }

  // The book with one peer, just upgraded.
  lemma UpgradedOnly(c: BookConfig, info: PeerInfo)
    requires c.Valid() && Addressable(info.ipAddress)
    ensures var empty := EmptyBook(c);
      Apply(c, Apply(c, empty, Add(info, 0, 0.0)), Upgrade(info, 0, 0.0))
        == Book(empty.newPeers, empty.triedPeers[c.triedList.SelectBucket(info.ipAddress) := Alone(info)])
  {
    hide PeerIdOf, Addressable, Apply, Alone;
    var empty := EmptyBook(c);
    AddToEmpty(c, empty, info);
    var s := Apply(c, empty, Add(info, 0, 0.0));
    UpgradeAlone(c, s, info);
    assert s.newPeers[c.newList.SelectBucket(info.ipAddress) := []] == empty.newPeers;
  }

  lemma AloneHas(info: PeerInfo)
    ensures PeerIdOf(info) in Dict(Alone(info))
  {
    hide PeerIdOf;
    assert Alone(info)[0].0 == PeerIdOf(info);
  }

  lemma InBothTiers(s: Book, i: nat, j: nat, k: string)
    requires i < |s.newPeers| && j < |s.triedPeers| && k in Dict(s.newPeers[i]) && k in Dict(s.triedPeers[j])
    ensures !OnePlace(s)
  {
    if Unique(s.newPeers) && Unique(s.triedPeers) {
      FlatAt(s.newPeers, i, k);
      FlatAt(s.triedPeers, j, k);
    }
  }

  function Alone(info: PeerInfo): PeerBucket {
    [(PeerIdOf(info), Entry(info, 0, 0))]
  }

  lemma AddedToEmpty(cfg: ListConfig, bs: Buckets, info: PeerInfo)
    requires Fits(cfg, bs, info) && BucketFor(cfg, bs, info) == []
    ensures Added(cfg, bs, info, 0, 0.0) == bs[cfg.SelectBucket(info.ipAddress) := Alone(info)]
    ensures Find(cfg, bs, info).None?
  {
    hide PeerIdOf, Addressable;
    assert [] + Alone(info) == Alone(info);
  }

  lemma RemovedAlone(cfg: ListConfig, bs: Buckets, info: PeerInfo)
    requires Fits(cfg, bs, info) && BucketFor(cfg, bs, info) == Alone(info)
    ensures Removed(cfg, bs, info) == bs[cfg.SelectBucket(info.ipAddress) := []]
    ensures Find(cfg, bs, info).Some?
  {
    hide PeerIdOf, Addressable;
    assert Delete(Alone(info), PeerIdOf(info)) == [];
  }

  lemma AddToEmpty(c: BookConfig, s: Book, info: PeerInfo)
    requires c.Valid() && BookFits(c, s, info)
    requires BucketFor(c.newList, s.newPeers, info) == [] && BucketFor(c.triedList, s.triedPeers, info) == []
    ensures Apply(c, s, Add(info, 0, 0.0))
         == s.(newPeers := s.newPeers[c.newList.SelectBucket(info.ipAddress) := Alone(info)])
  {
    hide PeerIdOf, Addressable, Added, Find;
    AddedToEmpty(c.newList, s.newPeers, info);
    AddedToEmpty(c.triedList, s.triedPeers, info);
  }

  lemma UpgradeAlone(c: BookConfig, s: Book, info: PeerInfo)
    requires c.Valid() && BookFits(c, s, info)
    requires BucketFor(c.newList, s.newPeers, info) == Alone(info) && BucketFor(c.triedList, s.triedPeers, info) == []
    ensures Apply(c, s, Upgrade(info, 0, 0.0))
         == Book(s.newPeers[c.newList.SelectBucket(info.ipAddress) := []],
                 s.triedPeers[c.triedList.SelectBucket(info.ipAddress) := Alone(info)])
  {
    hide PeerIdOf, Addressable, Added, Removed, Find, Alone;
    RemovedAlone(c.newList, s.newPeers, info);
    AddedToEmpty(c.triedList, s.triedPeers, info);
  }

  function Pair(a: string, b: string): string -> bool {
    ip => ip == a || ip == b
  }

  // An address and its normal form are coherent whatever the hash exactly when they are taken for the same network.
  lemma SpellingCoherentIff(cfg: ListConfig, raw: string)
    requires cfg.Valid() && cfg.bucketCount >= 2 && IsSupported(raw) && NormalizeAddress(raw).Some?
    ensures var n := NormalizeAddress(raw).value.address;
      (forall hash: Hash :: Coherent(cfg.(hash := hash), Pair(raw, n))) <==> GetNetwork(n) == GetNetwork(raw)
  {
    hide IsSupported, NormalizeAddress, GetNetwork, GetBucketId, Coherent;
    var n := NormalizeAddress(raw).value.address;
    BucketSpellingIff(cfg.secret, raw, cfg.bucketCount);
    forall hash: Hash ensures Coherent(cfg.(hash := hash), Pair(raw, n))
      <==> GetBucketId(hash, cfg.secret, n, cfg.bucketCount) == GetBucketId(hash, cfg.secret, raw, cfg.bucketCount)
    {
      PairCoherentIff(cfg.(hash := hash), raw);
    }
  }

  lemma PairCoherentIff(cfg: ListConfig, raw: string)
    requires cfg.Valid() && IsSupported(raw) && NormalizeAddress(raw).Some?
    ensures var n := NormalizeAddress(raw).value.address;
      Coherent(cfg, Pair(raw, n))
      <==> GetBucketId(cfg.hash, cfg.secret, n, cfg.bucketCount)
           == GetBucketId(cfg.hash, cfg.secret, raw, cfg.bucketCount)
  {
    hide IsSupported, IsNormalIp, NormalizeAddress, GetNetwork, GetBucketId, GetPeerId;
    var n := NormalizeAddress(raw).value.address;
    NormalizeSupported(raw);
    NormalIpFixed(n);
    PeerIdOfNormalForm(raw, 0);
    SupportedHasBucket(cfg.hash, cfg.secret, raw, cfg.bucketCount);
    SupportedHasBucket(cfg.hash, cfg.secret, n, cfg.bucketCount);
    var a, b := PeerInfo(raw, 0, false, 0, map[]), PeerInfo(n, 0, false, 0, map[]);
    assert Within(Pair(raw, n), a) && Within(Pair(raw, n), b) && PeerIdOf(a) == PeerIdOf(b);
  }

  // Where they are not, some hash makes every set that has both incoherent, so that one id gets stored twice.
  lemma SpellingIncoherent(cfg: ListConfig, raw: string, p: string -> bool) returns (hash: Hash)
    requires cfg.Valid() && cfg.bucketCount >= 2 && IsSupported(raw) && NormalizeAddress(raw).Some?
    requires GetNetwork(NormalizeAddress(raw).value.address) != GetNetwork(raw)
    requires p(raw) && p(NormalizeAddress(raw).value.address)
    ensures !Coherent(cfg.(hash := hash), p)
  {
    hide IsSupported, NormalizeAddress, GetNetwork, Addressable, PeerIdOf;
    var n := NormalizeAddress(raw).value.address;
    SpellingCoherentIff(cfg, raw);
    hash :| !Coherent(cfg.(hash := hash), Pair(raw, n));
    var c := cfg.(hash := hash);
    var a: PeerInfo, b: PeerInfo :| Within(Pair(raw, n), a) && Within(Pair(raw, n), b) && PeerIdOf(a) == PeerIdOf(b)
      && c.SelectBucket(a.ipAddress) != c.SelectBucket(b.ipAddress);
    assert Within(p, a) && Within(p, b);
  }

  // Such are private addresses in upper case,
  lemma UpperCaseIncoherent(cfg: ListConfig, rest: seq<string>, p: string -> bool) returns (hash: Hash)
    requires cfg.Valid() && cfg.bucketCount >= 2
    requires |rest| == 7 && forall g | g in rest :: IsGroup(g)
    requires var raw := Join(["FC00"] + rest, ':');
      p(raw) && (NormalizeAddress(raw).Some? ==> p(NormalizeAddress(raw).value.address))
    ensures !Coherent(cfg.(hash := hash), p)
  {
    hide Join, IsGroup, IsNormalIp, IsSupported, NormalizeAddress, GetNetwork;
    UpperCaseNormalForm(rest);
    hash := SpellingIncoherent(cfg, Join(["FC00"] + rest, ':'), p);
  }

  // and IPv4-mapped addresses with a public quad.
  lemma MappedIncoherent(cfg: ListConfig, raw: string, p: string -> bool) returns (hash: Hash)
    requires cfg.Valid() && cfg.bucketCount >= 2 && IsIPv6(raw) && HybridQuad(raw).Some?
    requires !IsPrivate(HybridQuad(raw).value) && p(raw) && p(HybridQuad(raw).value)
    ensures !Coherent(cfg.(hash := hash), p)
  {
    hide IsIPv6, HybridQuad, GetNetwork, IsPrivate, Coherent;
    FoldedNetworkIff(raw);
    FoldMeaning(raw);
    MappedSupported(raw);
    hash := SpellingIncoherent(cfg, raw, p);
  }

  lemma MappedSupported(raw: string)
    requires IsIPv6(raw) && HybridQuad(raw).Some?
    ensures IsSupported(raw)
  {}

  // ----- the life of a tried peer --------------------------------------------------------------------------

  ghost predicate IsTried(s: Book, k: string) {
    k in View(s) && View(s)[k].tier.TriedTier?
  }

  ghost predicate TriedThroughout(c: BookConfig, s: Book, ops: seq<Op>, k: string)
    decreases |ops|
  {
    IsTried(s, k) && (ops == [] || TriedThroughout(c, Apply(c, s, ops[0]), ops[1..], k))
  }

  function DowngradeOf(op: Op, k: string): nat {
    if op.Downgrade? && Names(op, k) then 1 else 0
  }

  function Downgrades(ops: seq<Op>, k: string): nat {
    if ops == [] then 0 else DowngradeOf(ops[0], k) + Downgrades(ops[1..], k)
  }

  lemma StepCounter(c: BookConfig, s: Book, op: Op, k: string, p: string -> bool)
    requires TidyBook(c, s, p) && Within(p, op.info)
    requires IsTried(s, k) && IsTried(Apply(c, s, op), k)
    ensures View(Apply(c, s, op))[k].entry.failures == View(s)[k].entry.failures + DowngradeOf(op, k)
  {
    hide TidyBook, Apply, FlatStep, StepVictim;
    StepAt(c, s, op, k, p);
    var victim := StepVictim(c, s, op);
    if Names(op, k) { FlatStepSelf(c, View(s), k, op, victim); }
    else { FlatStepOther(c, View(s), PeerIdOf(op.info), op, victim, k); }
  }

  lemma CounterBound(c: BookConfig, s: Book, k: string, p: string -> bool)
    requires TidyBook(c, s, p) && IsTried(s, k)
    ensures View(s)[k].entry.failures < c.triedList.kind.maxReconnectTries
  {
    var b := FlatSome(s.triedPeers, k);
    TidyUnique(c.triedList, s.triedPeers, p);
    FlatAt(s.triedPeers, b, k);
    assert BucketOk(c.triedList, b, s.triedPeers[b]);
  }

  // As long as a peer stays in the tried list its counter grows by exactly one for each downgrade:
  // neither updates nor repeated upgrades reset it, and it never reaches the limit.
  lemma {:induction false} CounterCountsDowngrades(c: BookConfig, s: Book, ops: seq<Op>, k: string, p: string -> bool)
    requires TidyBook(c, s, p) && AllIn(ops, p) && TriedThroughout(c, s, ops, k)
    ensures IsTried(Run(c, s, ops), k)
    ensures View(Run(c, s, ops))[k].entry.failures == View(s)[k].entry.failures + Downgrades(ops, k)
    ensures View(Run(c, s, ops))[k].entry.failures < c.triedList.kind.maxReconnectTries
    decreases |ops|
  {
    hide Apply, TidyBook, Names;
    if ops == [] {
      CounterBound(c, s, k, p);
    } else {
      StepRefines(c, s, ops[0], p);
      StepCounter(c, s, ops[0], k, p);
      CounterCountsDowngrades(c, Apply(c, s, ops[0]), ops[1..], k, p);
    }
  }

  // A peer enters the tried list with a counter of zero, and only by an upgrade from the new list.
  lemma EntersTriedAtZero(c: BookConfig, s: Book, op: Op, k: string, p: string -> bool)
    requires TidyBook(c, s, p) && Within(p, op.info)
    requires !IsTried(s, k) && IsTried(Apply(c, s, op), k)
    ensures op.Upgrade? && Names(op, k) && k in View(s)
    ensures View(Apply(c, s, op))[k].entry == Entry(op.info, 0, op.now)
  {
    StepAt(c, s, op, k, p);
    var victim := StepVictim(c, s, op);
    if Names(op, k) { FlatStepSelf(c, View(s), k, op, victim); }
    else { FlatStepOther(c, View(s), PeerIdOf(op.info), op, victim, k); }
  }

  // How many downgrades the book keeps the peer for.
  ghost function FlatRank(c: BookConfig, f: FlatMap, k: string): int
    requires c.Valid()
  {
    if k !in f then 0
    else if f[k].tier.NewTier? then 1
    else c.triedList.kind.maxReconnectTries - f[k].entry.failures + 1
  }

  ghost function Rank(c: BookConfig, s: Book, k: string): int
    requires c.Valid()
  {
    FlatRank(c, View(s), k)
  }

  // No operation of the run adds, upgrades or removes the peer.
  predicate OnlyDowngraded(ops: seq<Op>, k: string) {
    forall i | 0 <= i < |ops| :: Names(ops[i], k) ==> ops[i].Downgrade? || ops[i].Update?
  }

  ghost predicate NeverEvicted(c: BookConfig, s: Book, ops: seq<Op>, k: string)
    decreases |ops|
  {
    ops == [] || (
      && (BookFits(c, s, ops[0].info) ==> StepVictim(c, s, ops[0]) != Some(k))
      && NeverEvicted(c, Apply(c, s, ops[0]), ops[1..], k))
  }

  function Minus(a: int, b: nat): int {
    if a <= b then 0 else a - b
  }

  lemma FlatRankSelf(c: BookConfig, f: FlatMap, k: string, op: Op, victim: Option<string>)
    requires c.Valid() && victim != Some(k) && (op.Downgrade? || op.Update?)
    requires k in f && f[k].tier.TriedTier? ==> f[k].entry.failures < c.triedList.kind.maxReconnectTries
    ensures FlatRank(c, FlatStep(c, f, k, op, victim), k) == Minus(FlatRank(c, f, k), if op.Downgrade? then 1 else 0)
  {}

  lemma FlatRankOther(c: BookConfig, f: FlatMap, kn: string, op: Op, victim: Option<string>, k: string)
    requires c.Valid() && kn != k
    ensures var before, after := FlatRank(c, f, k), FlatRank(c, FlatStep(c, f, kn, op, victim), k);
      after == before || (after == 0 && victim == Some(k))
  {
    FlatStepOther(c, f, kn, op, victim, k);
  }

  lemma StepRank(c: BookConfig, s: Book, op: Op, k: string, p: string -> bool)
    requires TidyBook(c, s, p) && Within(p, op.info)
    requires Names(op, k) ==> op.Downgrade? || op.Update?
    ensures BookFits(c, s, op.info) && 0 <= Rank(c, s, k)
    ensures var before, after := Minus(Rank(c, s, k), DowngradeOf(op, k)), Rank(c, Apply(c, s, op), k);
      after == before || (after == 0 && StepVictim(c, s, op) == Some(k))
  {
    StepAt(c, s, op, k, p);
    RankNonNegative(c, s, k, p);
    if Names(op, k) {
      FlatRankSelf(c, View(s), k, op, StepVictim(c, s, op));
    } else {
      FlatRankOther(c, View(s), PeerIdOf(op.info), op, StepVictim(c, s, op), k);
    }
  }

  lemma RankNonNegative(c: BookConfig, s: Book, k: string, p: string -> bool)
    requires TidyBook(c, s, p)
    ensures 0 <= Rank(c, s, k)
    ensures IsTried(s, k) ==> View(s)[k].entry.failures < c.triedList.kind.maxReconnectTries
  {
    if IsTried(s, k) { CounterBound(c, s, k, p); }
  }

  // With only downgrades and updates of the peer its rank falls by at least one per downgrade, and by
  // exactly one when the peer is not evicted in between.
  lemma {:induction false} RankAfterRun(c: BookConfig, s: Book, ops: seq<Op>, k: string, p: string -> bool)
    requires TidyBook(c, s, p) && AllIn(ops, p) && OnlyDowngraded(ops, k)
    ensures 0 <= Rank(c, Run(c, s, ops), k) <= Minus(Rank(c, s, k), Downgrades(ops, k))
    ensures NeverEvicted(c, s, ops, k) ==> Rank(c, Run(c, s, ops), k) == Minus(Rank(c, s, k), Downgrades(ops, k))
    decreases |ops|
  {
    hide Apply, TidyBook, StepVictim, FlatRank, BookFits, Names;
    if ops == [] {
      RankNonNegative(c, s, k, p);
    } else {
      StepRank(c, s, ops[0], k, p);
      StepRefines(c, s, ops[0], p);
      RankAfterRun(c, Apply(c, s, ops[0]), ops[1..], k, p);
    }
  }

  // A tried peer with `f` failures, downgraded `d` times while nothing evicts, adds, upgrades or removes
  // it: still tried with f + d failures, then back among the new peers, then gone.
  lemma DowngradeLife(c: BookConfig, s: Book, ops: seq<Op>, k: string, p: string -> bool)
    requires TidyBook(c, s, p) && AllIn(ops, p) && OnlyDowngraded(ops, k) && NeverEvicted(c, s, ops, k)
    requires IsTried(s, k)
    ensures var f, d, m := View(s)[k].entry.failures, Downgrades(ops, k), c.triedList.kind.maxReconnectTries;
      var end := View(Run(c, s, ops));
      if d < m - f then k in end && end[k].tier.TriedTier? && end[k].entry.failures == f + d
      else if d == m - f then k in end && end[k].tier.NewTier?
      else k !in end
  {
    RankAfterRun(c, s, ops, k, p);
    RunStaysTidy(c, s, ops, p);
    CounterBound(c, s, k, p);
    if IsTried(Run(c, s, ops), k) { CounterBound(c, Run(c, s, ops), k, p); }
  }

  // ----- eviction by age over runs ---------------------------------------------------------------

  // Every bucket of the new list in the order of its dates, none after `t`.
  ghost predicate DatesOk(s: Book, t: int) {
    ListDates(s.newPeers, t)
  }

  function TimeAfter(op: Op, t: int): int {
    if op.Update? || op.Remove? then t else op.now
  }

  predicate ClockMonotone(ops: seq<Op>, t: int) {
    ops == [] || (t <= TimeAfter(ops[0], t) && ClockMonotone(ops[1..], TimeAfter(ops[0], t)))
  }

  function EndTime(ops: seq<Op>, t: int): int {
    if ops == [] then t else EndTime(ops[1..], TimeAfter(ops[0], t))
  }

  lemma DatesLater(s: Book, t: int, u: int)
    requires DatesOk(s, t) && t <= u
    ensures DatesOk(s, u)
  {
    forall b | 0 <= b < |s.newPeers| ensures DatesOrdered(s.newPeers[b], u) {
      assert DatesOrdered(s.newPeers[b], t);
    }
  }

  ghost predicate ListDates(bs: Buckets, t: int) {
    forall b | 0 <= b < |bs| :: DatesOrdered(bs[b], t)
  }

  lemma OperationDates(cfg: ListConfig, bs: Buckets, info: PeerInfo, u: int, random: Random)
    requires Fits(cfg, bs, info) && ListOk(cfg, bs) && ListDates(bs, u)
    ensures ListDates(Added(cfg, bs, info, u, random), u) && ListDates(Updated(cfg, bs, info), u)
    ensures ListDates(Removed(cfg, bs, info), u) && ListDates(Failed(cfg, bs, info), u)
  {
    var b := cfg.SelectBucket(info.ipAddress);
    assert BucketOk(cfg, b, bs[b]) && DatesOrdered(bs[b], u);
    DatesKept(cfg, bs[b], PeerIdOf(info), info, u, u, random);
  }

  lemma StepDates(c: BookConfig, s: Book, op: Op, t: int)
    requires BookOk(c, s) && DatesOk(s, t) && t <= TimeAfter(op, t)
    ensures DatesOk(Apply(c, s, op), TimeAfter(op, t))
  {
    hide Added, Updated, Removed, Failed, ListOk, PeerIdOf, Addressable, DatesOrdered;
    var u := TimeAfter(op, t);
    DatesLater(s, t, u);
    if BookFits(c, s, op.info) {
      OperationDates(c.newList, s.newPeers, op.info, u, if op.Update? || op.Remove? then 0.0 else op.random);
      assert ListDates(Apply(c, s, op).newPeers, u);
    }
  }

  lemma {:induction false} RunDates(c: BookConfig, s: Book, ops: seq<Op>, t: int)
    requires BookOk(c, s) && DatesOk(s, t) && ClockMonotone(ops, t)
    ensures BookOk(c, Run(c, s, ops)) && DatesOk(Run(c, s, ops), EndTime(ops, t))
    decreases |ops|
  {
    if ops != [] {
      StepDates(c, s, ops[0], t);
      ApplyOk(c, s, ops[0], _ => true);
      RunDates(c, Apply(c, s, ops[0]), ops[1..], TimeAfter(ops[0], t));
    }
  }

  // After any run under a clock that does not run backwards, adding to a full bucket of the new list evicts the oldest
  // peer of the bucket if that has been there for the threshold time, and otherwise the peer at the random position.
  lemma EvictsOldest(c: BookConfig, s: Book, ops: seq<Op>, t: int, info: PeerInfo, now: int, random: Random)
    requires BookOk(c, s) && DatesOk(s, t) && ClockMonotone(ops, t) && EndTime(ops, t) <= now
    requires Addressable(info.ipAddress)
    ensures var end := Run(c, s, ops);
      && BookFits(c, end, info)
      && var bucket := BucketFor(c.newList, end.newPeers, info);
      var victim := Victim(c.newList, end.newPeers, info, now, random);
      !Has(bucket, PeerIdOf(info)) && |bucket| >= c.newList.bucketSize && bucket != [] ==>
        && (forall i | 0 <= i < |bucket| :: bucket[0].1.dateAdded <= bucket[i].1.dateAdded)
        && if now - bucket[0].1.dateAdded >= c.newList.kind.evictionThresholdTime then victim == Some(bucket[0].0)
           else forall i: int | DrawnAt(i, |bucket|, random) :: 0 <= i < |bucket| && victim == Some(bucket[i].0)
  {
    hide PeerIdOf, Addressable, Run, ClockMonotone, VictimIndex, DrawnAt, BucketOk;
    RunDates(c, s, ops, t);
    var end := Run(c, s, ops);
    DatesLater(end, EndTime(ops, t), now);
    var bucket := BucketFor(c.newList, end.newPeers, info);
    assert DatesOrdered(bucket, now);
    if bucket != [] { OldestOrRandom(bucket, now, c.newList.kind.evictionThresholdTime, random); }
  }

  lemma OldestOrRandom(bucket: PeerBucket, now: int, threshold: nat, random: Random)
    requires DatesOrdered(bucket, now) && bucket != []
    ensures var victim := VictimIndex(NewKind(threshold), bucket, now, random);
      if now - bucket[0].1.dateAdded >= threshold then victim == 0
      else forall i: int | DrawnAt(i, |bucket|, random) :: 0 <= i < |bucket| && victim == i
  {
    hide DrawnAt, RandomIndex, Expired, VictimIndex;
    ScanFindsOldest(bucket, now, threshold, random);
    forall i | 0 <= i < |bucket|
      ensures Expired(bucket[i].1, now, threshold) <==> now - bucket[i].1.dateAdded >= threshold
    {
      ExpiredIff(bucket[i].1, now, threshold);
    }
    forall i: int | DrawnAt(i, |bucket|, random) ensures 0 <= i < |bucket| && RandomIndex(|bucket|, random) == i {
      RandomIndexIs(|bucket|, random, i);
    }
  }

  // A full bucket of the tried list evicts the peer at the random position.
  lemma TriedEvictsAtRandom(cfg: ListConfig, bs: Buckets, info: PeerInfo, now: int, random: Random, i: int)
    requires Fits(cfg, bs, info) && cfg.kind.TriedKind? && !Has(BucketFor(cfg, bs, info), PeerIdOf(info))
    requires |BucketFor(cfg, bs, info)| >= cfg.bucketSize && BucketFor(cfg, bs, info) != []
    requires DrawnAt(i, |BucketFor(cfg, bs, info)|, random)
    ensures 0 <= i < |BucketFor(cfg, bs, info)|
    ensures Victim(cfg, bs, info, now, random) == Some(BucketFor(cfg, bs, info)[i].0)
  {
    hide PeerIdOf, Addressable, DrawnAt, RandomIndex;
    RandomIndexIs(|BucketFor(cfg, bs, info)|, random, i);
  }
}
