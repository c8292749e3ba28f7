// What the book holds when the node starts (src/p2p.js): who is known, who is tried, and when everybody is.
module Starting {
  import opened Wrappers
  import opened OrderedMap
  import opened Address
  import opened Peers
  import opened Buckets
  import opened Lists
  import opened Pools
  import opened Sanitize
  import opened Nodes
  import opened NodeRuns
  import B = Books
  import R = BookRuns

  // ----- which peers belong in the book ----------------------------------------------------------

  ghost function Active(ps: seq<PeerInfo>): set<PeerInfo> {
    set q | q in ps && !q.isPassive
  }

  ghost function Ids(ps: set<PeerInfo>): set<string> {
    set q | q in ps :: PeerIdOf(q)
  }

  // The ids among the peers that belong in the bucket.
  ghost function Sharing(cfg: ListConfig, ps: set<PeerInfo>, b: nat): set<string>
    requires cfg.Valid()
  {
    set q | q in ps && Addressable(q.ipAddress) && cfg.SelectBucket(q.ipAddress) == b :: PeerIdOf(q)
  }

  // The bucket of `x` has room for all of the peers that belong there.
  ghost predicate Roomy(cfg: ListConfig, ps: set<PeerInfo>, x: PeerInfo)
    requires cfg.Valid() && Addressable(x.ipAddress)
  {
    |Sharing(cfg, ps, cfg.SelectBucket(x.ipAddress))| <= Capacity(cfg)
  }

  // There is room for `x` among the peers that get into the new list, and among those that get into
  // the tried list if `x` is one of them.
  ghost predicate HasRoom(c: B.BookConfig, known: set<PeerInfo>, raised: set<PeerInfo>, x: PeerInfo)
    requires c.Valid() && Addressable(x.ipAddress)
  {
    Roomy(c.newList, known, x) && (PeerIdOf(x) in Ids(raised) ==> Roomy(c.triedList, raised, x))
  }

  // ----- a full bucket ---------------------------------------------------------------------------

  ghost predicate AllNormal(ps: set<PeerInfo>) {
    forall q | q in ps :: IsNormalIp(q.ipAddress) && Addressable(q.ipAddress)
  }

  lemma BelongsThere(cfg: ListConfig, ps: set<PeerInfo>, info: PeerInfo)
    requires cfg.Valid() && AllNormal(ps) && Within(IsNormalIp, info) && PeerIdOf(info) in Ids(ps)
    ensures PeerIdOf(info) in Sharing(cfg, ps, cfg.SelectBucket(info.ipAddress))
  {
    hide IsNormalIp, PeerIdOf, Addressable;
    var q :| q in ps && PeerIdOf(q) == PeerIdOf(info);
    PeerIdOfInjective(q, info);
  }

  lemma StoredBelong(cfg: ListConfig, bs: Buckets, b: nat, ps: set<PeerInfo>)
    requires cfg.Valid() && TidyList(cfg, bs, IsNormalIp) && b < |bs| && AllNormal(ps)
    requires Dict(bs[b]).Keys <= Ids(ps)
    ensures Dict(bs[b]).Keys <= Sharing(cfg, ps, b)
  {
    hide IsNormalIp, PeerIdOf, Addressable, Sharing, Ids, Coherent, Dict;
    assert BucketOk(cfg, b, bs[b]);
    forall k | k in Dict(bs[b]) ensures k in Sharing(cfg, ps, b) {
      BelongsThere(cfg, ps, Dict(bs[b])[k].info);
    }
  }

  // When the bucket of `info` is full without it, it has no room for all that belong there.
  lemma FullIsCrowded(cfg: ListConfig, bs: Buckets, info: PeerInfo, ps: set<PeerInfo>)
    requires Fits(cfg, bs, info) && TidyList(cfg, bs, IsNormalIp) && IsNormalIp(info.ipAddress) && AllNormal(ps)
    requires var d := Dict(BucketFor(cfg, bs, info));
      d.Keys <= Ids(ps) && PeerIdOf(info) in Ids(ps) && PeerIdOf(info) !in d && d != map[]
    requires |BucketFor(cfg, bs, info)| >= cfg.bucketSize
    ensures !Roomy(cfg, ps, info)
  {
    hide IsNormalIp, PeerIdOf, Addressable, Sharing, Ids, Coherent, Dict, AllNormal;
    var b := cfg.SelectBucket(info.ipAddress);
    assert BucketOk(cfg, b, bs[b]);
    StoredBelong(cfg, bs, b, ps);
    BelongsThere(cfg, ps, info);
    DictSize(bs[b]);
    SubsetSize(Dict(bs[b]).Keys + {PeerIdOf(info)}, Sharing(cfg, ps, b));
    assert |Dict(bs[b]).Keys| == |Dict(bs[b])|;
  }

  // Peers of one bucket have room together or not at all.
  lemma RoomByKey(cfg: ListConfig, bs: Buckets, info: PeerInfo, ps: set<PeerInfo>, x: PeerInfo)
    requires Fits(cfg, bs, info) && TidyList(cfg, bs, IsNormalIp)
    requires Within(IsNormalIp, x) && PeerIdOf(x) in Dict(BucketFor(cfg, bs, info))
    ensures Roomy(cfg, ps, x) <==> Roomy(cfg, ps, info)
  {
    hide IsNormalIp, PeerIdOf, Addressable, Sharing, Coherent, Dict;
    var b := cfg.SelectBucket(info.ipAddress);
    assert BucketOk(cfg, b, bs[b]);
    PeerIdOfInjective(x, Dict(bs[b])[PeerIdOf(x)].info);
  }

  // ----- the calls of a start --------------------------------------------------------------------

  // Calls about listed peers: additions of active ones, and upgrades that touch nobody but those to raise.
  ghost predicate StartCall(op: B.Op, listed: seq<PeerInfo>, raised: set<PeerInfo>, now: int) {
    && op.info in listed
    && match op
       case Add(info, t, _) => t == now && !info.isPassive
       case Upgrade(info, t, _) => t == now && (PeerIdOf(info) in Ids(Active(listed)) ==> PeerIdOf(info) in Ids(raised))
       case _ => false
  }

  // Only listed peers are known, only those to raise are tried, all with a clean record.
  ghost predicate Sound(c: B.BookConfig, s: B.Book, listed: seq<PeerInfo>, raised: set<PeerInfo>, now: int) {
    && B.TidyBook(c, s, IsNormalIp)
    && forall k | k in B.View(s) ::
         && k in Ids(Active(listed)) && (B.View(s)[k].tier.TriedTier? ==> k in Ids(raised))
         && B.View(s)[k].entry.info in listed
         && B.View(s)[k].entry.failures == 0 && B.View(s)[k].entry.dateAdded == now
  }

  ghost predicate Listed(listed: seq<PeerInfo>, raised: set<PeerInfo>) {
    (forall q | q in listed :: Within(IsNormalIp, q)) && raised <= Active(listed)
  }

  lemma StepSound(c: B.BookConfig, s: B.Book, op: B.Op, listed: seq<PeerInfo>, raised: set<PeerInfo>, now: int)
    requires Listed(listed, raised) && Sound(c, s, listed, raised, now) && StartCall(op, listed, raised, now)
    ensures Sound(c, B.Apply(c, s, op), listed, raised, now)
  {
    hide IsNormalIp, PeerIdOf, Addressable, B.TidyBook, B.View, B.FlatStep, B.Apply, B.StepVictim;
    B.StepRefines(c, s, op, IsNormalIp);
    R.StepAt(c, s, op, PeerIdOf(op.info), IsNormalIp);
    var id, victim, after := PeerIdOf(op.info), B.StepVictim(c, s, op), B.View(B.Apply(c, s, op));
    B.TidyFits(c, s, op.info, IsNormalIp);
    assert op.Add? ==> op.info in Active(listed);
    R.FlatStepSelf(c, B.View(s), id, op, victim);
    forall k | k in after && k != id ensures k in B.View(s) && after[k] == B.View(s)[k] {
      R.FlatStepOther(c, B.View(s), id, op, victim, k);
    }
  }

  // What a bucket holds is in the flat map, in its tier.
  lemma BucketKeys(c: B.BookConfig, s: B.Book, b: nat, k: string)
    requires B.TidyBook(c, s, IsNormalIp)
    ensures b < |s.newPeers| && k in Dict(s.newPeers[b]) ==> k in B.View(s) && B.View(s)[k].tier.NewTier?
    ensures b < |s.triedPeers| && k in Dict(s.triedPeers[b]) ==> k in B.View(s) && B.View(s)[k].tier.TriedTier?
  {
    hide IsNormalIp, PeerIdOf, Addressable, Dict, ListOk, Coherent;
    TidyUnique(c.newList, s.newPeers, IsNormalIp);
    TidyUnique(c.triedList, s.triedPeers, IsNormalIp);
    if b < |s.newPeers| && k in Dict(s.newPeers[b]) { FlatAt(s.newPeers, b, k); }
    if b < |s.triedPeers| && k in Dict(s.triedPeers[b]) { FlatAt(s.triedPeers, b, k); }
  }

  // When a key leaves a full bucket for the sake of another, nobody of that bucket has room.
  lemma NoRoomInBucket(cfg: ListConfig, bs: Buckets, info: PeerInfo, ps: set<PeerInfo>, x: PeerInfo)
    requires Fits(cfg, bs, info) && TidyList(cfg, bs, IsNormalIp) && AllNormal(ps)
    requires IsNormalIp(info.ipAddress) && Within(IsNormalIp, x) && PeerIdOf(info) in Ids(ps)
    requires var d := Dict(BucketFor(cfg, bs, info));
      PeerIdOf(info) !in d && PeerIdOf(x) in d && forall k | k in d :: k in Ids(ps)
    requires |BucketFor(cfg, bs, info)| >= cfg.bucketSize
    ensures !Roomy(cfg, ps, x)
  {
    hide IsNormalIp, PeerIdOf, Addressable, Dict, Roomy, TidyList, AllNormal, Ids;
    FullIsCrowded(cfg, bs, info, ps);
    RoomByKey(cfg, bs, info, ps, x);
  }

  lemma AddCrowded(c: B.BookConfig, s: B.Book, op: B.Op, listed: seq<PeerInfo>, raised: set<PeerInfo>, now: int,
                   x: PeerInfo)
    requires Listed(listed, raised) && Sound(c, s, listed, raised, now) && StartCall(op, listed, raised, now)
    requires x in Active(listed) && B.BookFits(c, s, op.info) && B.StepVictim(c, s, op) == Some(PeerIdOf(x)) && op.Add?
    ensures !Roomy(c.newList, Active(listed), x)
  {
    hide IsNormalIp, PeerIdOf, Addressable, B.View, B.StepVictim, Dict, Roomy, TidyList, Flat;
    B.StepVictimOk(c, s, op, IsNormalIp);
    B.VictimInserts(c, s, op, IsNormalIp);
    var b := c.newList.SelectBucket(op.info.ipAddress);
    assert op.info in Active(listed);
    forall k | k in Dict(s.newPeers[b]) ensures k in Ids(Active(listed)) && k in B.View(s) { BucketKeys(c, s, b, k); }
    NoRoomInBucket(c.newList, s.newPeers, op.info, Active(listed), x);
  }

  lemma UpgradeCrowded(c: B.BookConfig, s: B.Book, op: B.Op, listed: seq<PeerInfo>, raised: set<PeerInfo>, now: int,
                       x: PeerInfo)
    requires Listed(listed, raised) && Sound(c, s, listed, raised, now) && StartCall(op, listed, raised, now)
    requires x in Active(listed) && B.BookFits(c, s, op.info) && B.StepVictim(c, s, op) == Some(PeerIdOf(x))
    requires op.Upgrade?
    ensures !Roomy(c.triedList, raised, x) && PeerIdOf(x) in Ids(raised)
  {
    hide IsNormalIp, PeerIdOf, Addressable, B.View, B.StepVictim, Dict, Roomy, TidyList, Flat;
    B.StepVictimOk(c, s, op, IsNormalIp);
    B.VictimInserts(c, s, op, IsNormalIp);
    var b := c.triedList.SelectBucket(op.info.ipAddress);
    forall k | k in Dict(s.triedPeers[b])
      ensures k in Ids(raised) && k in B.View(s) && B.View(s)[k].tier.TriedTier?
    {
      BucketKeys(c, s, b, k);
    }
    NoRoomInBucket(c.triedList, s.triedPeers, op.info, raised, x);
  }

  // Only a peer without room is ever evicted.
  lemma VictimCrowded(c: B.BookConfig, s: B.Book, op: B.Op, listed: seq<PeerInfo>, raised: set<PeerInfo>, now: int,
                      x: PeerInfo)
    requires Listed(listed, raised) && Sound(c, s, listed, raised, now) && StartCall(op, listed, raised, now)
    requires x in Active(listed) && B.BookFits(c, s, op.info) && B.StepVictim(c, s, op) == Some(PeerIdOf(x))
    ensures !HasRoom(c, Active(listed), raised, x)
  {
    hide IsNormalIp, PeerIdOf, Addressable, Sound, B.StepVictim, Roomy, Ids;
    if op.Add? { AddCrowded(c, s, op, listed, raised, now, x); }
    else { UpgradeCrowded(c, s, op, listed, raised, now, x); }
  }

  // ----- the run of a start ----------------------------------------------------------------------

  ghost predicate StartCalls(ops: seq<B.Op>, listed: seq<PeerInfo>, raised: set<PeerInfo>, now: int) {
    forall i | 0 <= i < |ops| :: StartCall(ops[i], listed, raised, now)
  }

  lemma {:induction false} RunSound(c: B.BookConfig, s: B.Book, ops: seq<B.Op>, listed: seq<PeerInfo>,
                                    raised: set<PeerInfo>, now: int)
    requires Listed(listed, raised) && Sound(c, s, listed, raised, now) && StartCalls(ops, listed, raised, now)
    ensures Sound(c, B.Run(c, s, ops), listed, raised, now)
    decreases |ops|
  {
    hide Listed, Sound, StartCall, B.Apply;
    if ops != [] {
      StepSound(c, s, ops[0], listed, raised, now);
      RunSound(c, B.Apply(c, s, ops[0]), ops[1..], listed, raised, now);
    }
  }

  // A peer with room is never evicted.
  lemma {:induction false} RoomKeeps(c: B.BookConfig, s: B.Book, ops: seq<B.Op>, listed: seq<PeerInfo>,
                                     raised: set<PeerInfo>, now: int, x: PeerInfo)
    requires Listed(listed, raised) && Sound(c, s, listed, raised, now) && StartCalls(ops, listed, raised, now)
    requires x in Active(listed) && HasRoom(c, Active(listed), raised, x)
    ensures R.NeverEvicted(c, s, ops, PeerIdOf(x))
    decreases |ops|
  {
    hide Listed, StartCall, B.Apply, PeerIdOf, Addressable, HasRoom, B.TidyBook, B.View, B.StepVictim, B.BookFits;
    if ops != [] {
      if B.BookFits(c, s, ops[0].info) && B.StepVictim(c, s, ops[0]) == Some(PeerIdOf(x)) {
        VictimCrowded(c, s, ops[0], listed, raised, now, x);
      }
      StepSound(c, s, ops[0], listed, raised, now);
      RoomKeeps(c, B.Apply(c, s, ops[0]), ops[1..], listed, raised, now, x);
    }
  }

  // One addition or upgrade as seen by a peer that it does not evict.
  lemma CallHelps(c: B.BookConfig, s: B.Book, op: B.Op, k: string)
    requires B.TidyBook(c, s, IsNormalIp) && Within(IsNormalIp, op.info) && (op.Add? || op.Upgrade?)
    requires B.BookFits(c, s, op.info) ==> B.StepVictim(c, s, op) != Some(k)
    ensures B.TidyBook(c, B.Apply(c, s, op), IsNormalIp)
    ensures k in B.View(s) ==> k in B.View(B.Apply(c, s, op))
    ensures R.IsTried(s, k) ==> R.IsTried(B.Apply(c, s, op), k)
    ensures op.Add? && R.Names(op, k) ==> k in B.View(B.Apply(c, s, op))
    ensures op.Upgrade? && R.Names(op, k) && k in B.View(s) ==> R.IsTried(B.Apply(c, s, op), k)
  {
    hide IsNormalIp, PeerIdOf, Addressable, B.TidyBook, B.View, B.FlatStep, B.Apply, B.StepVictim;
    B.StepRefines(c, s, op, IsNormalIp);
    R.StepAt(c, s, op, k, IsNormalIp);
    var id, victim := PeerIdOf(op.info), B.StepVictim(c, s, op);
    if id == k { R.FlatStepSelf(c, B.View(s), id, op, victim); }
    else { R.FlatStepOther(c, B.View(s), id, op, victim, k); }
  }

  ghost predicate OnlyHelps(ops: seq<B.Op>) {
    forall i | 0 <= i < |ops| :: Within(IsNormalIp, ops[i].info) && (ops[i].Add? || ops[i].Upgrade?)
  }

  // Whom no call of the run evicts is known once added, and tried once upgraded later.
  lemma {:induction false} RunHelps(c: B.BookConfig, s: B.Book, ops: seq<B.Op>, k: string)
    requires B.TidyBook(c, s, IsNormalIp) && OnlyHelps(ops) && R.NeverEvicted(c, s, ops, k)
    ensures var end := B.Run(c, s, ops);
      && (k in B.View(s) || AddsKey(ops, k) ==> k in B.View(end))
      && (R.IsTried(s, k) || (k in B.View(s) && UpgradesKey(ops, k)) || RaisesKey(ops, k) ==> R.IsTried(end, k))
    decreases |ops|
  {
    hide IsNormalIp, PeerIdOf, Addressable, B.TidyBook, B.View, B.Apply, B.StepVictim, B.BookFits, R.Names,
      R.IsTried;
    if ops != [] {
      CallHelps(c, s, ops[0], k);
      RunHelps(c, B.Apply(c, s, ops[0]), ops[1..], k);
      InTail(ops, k);
    } else { assert B.Run(c, s, ops) == s; }
  }

  predicate AddsAt(ops: seq<B.Op>, i: nat, k: string) {
    i < |ops| && ops[i].Add? && R.Names(ops[i], k)
  }

  predicate UpgradesAt(ops: seq<B.Op>, i: nat, k: string) {
    i < |ops| && ops[i].Upgrade? && R.Names(ops[i], k)
  }

  ghost predicate AddsKey(ops: seq<B.Op>, k: string) {
    exists i: nat :: AddsAt(ops, i, k)
  }

  ghost predicate UpgradesKey(ops: seq<B.Op>, k: string) {
    exists i: nat :: UpgradesAt(ops, i, k)
  }

  // The peer is added and later upgraded.
  ghost predicate RaisesKey(ops: seq<B.Op>, k: string) {
    exists i: nat, j: nat :: i < j && AddsAt(ops, i, k) && UpgradesAt(ops, j, k)
  }

  lemma InTail(ops: seq<B.Op>, k: string)
    requires ops != []
    ensures AddsKey(ops, k) ==> AddsAt(ops, 0, k) || AddsKey(ops[1..], k)
    ensures UpgradesKey(ops, k) ==> UpgradesAt(ops, 0, k) || UpgradesKey(ops[1..], k)
    ensures RaisesKey(ops, k) ==> RaisesKey(ops[1..], k) || (AddsAt(ops, 0, k) && UpgradesKey(ops[1..], k))
  {
    hide R.Names;
    if i: nat :| AddsAt(ops, i, k) && i > 0 { assert AddsAt(ops[1..], i - 1, k); }
    if i: nat :| UpgradesAt(ops, i, k) && i > 0 { assert UpgradesAt(ops[1..], i - 1, k); }
    if i: nat, j: nat :| i < j && AddsAt(ops, i, k) && UpgradesAt(ops, j, k) {
      assert UpgradesAt(ops[1..], j - 1, k);
      if i > 0 { assert AddsAt(ops[1..], i - 1, k); }
    }
  }

  // ----- where the calls stand -------------------------------------------------------------------

  lemma {:induction false} AddedBy(ps: seq<PeerInfo>, a: Draw, x: PeerInfo) returns (i: nat)
    requires x in ps && !x.isPassive
    ensures i < |AddOps(ps, a)| && AddOps(ps, a)[i] == B.Add(x, a.now, a.random)
  {
    var n := |ps| - 1;
    if ps[n] == x { i := |AddOps(ps[..n], a)|; } else { i := AddedBy(ps[..n], a, x); }
  }

  lemma {:induction false} UpgradedBy(ps: seq<PeerInfo>, a: Draw, x: PeerInfo) returns (i: nat)
    requires x in ps
    ensures i < |UpgradeOps(ps, a)| && UpgradeOps(ps, a)[i] == B.Upgrade(x, a.now, a.random)
  {
    var n := |ps| - 1;
    if ps[n] == x { i := |UpgradeOps(ps[..n], a)|; } else { i := UpgradedBy(ps[..n], a, x); }
  }

  lemma {:induction false} RaisedBy(ps: seq<PeerInfo>, a: Draw, x: PeerInfo) returns (i: nat)
    requires x in ps && !x.isPassive
    ensures i + 1 < |PreviousOps(ps, a)| && PreviousOps(ps, a)[i] == B.Add(x, a.now, a.random)
    ensures PreviousOps(ps, a)[i + 1] == B.Upgrade(x, a.now, a.random)
  {
    var n := |ps| - 1;
    if ps[n] == x { i := |PreviousOps(ps[..n], a)|; } else { i := RaisedBy(ps[..n], a, x); }
  }

  // Every active seed, whitelisted and previous peer is added, ...
  lemma StartAdds(lists: PeerLists, a: Draw, x: PeerInfo)
    requires x in Active(lists.previousPeers + lists.seedPeers + lists.whitelisted) && Addressable(x.ipAddress)
    ensures AddsKey(StartOps(lists, a), PeerIdOf(x))
  {
    hide PeerIdOf, Addressable, AddOps, PreviousOps, UpgradeOps;
    var ops, n := StartOps(lists, a), |PreviousOps(lists.previousPeers, a)|;
    if x in lists.previousPeers {
      var i := RaisedBy(lists.previousPeers, a, x);
      assert AddsAt(ops, i, PeerIdOf(x));
    } else {
      var i := AddedBy(lists.seedPeers + lists.whitelisted, a, x);
      assert AddsAt(ops, n + i, PeerIdOf(x));
    }
  }

  // ... and the active whitelisted and previous ones are upgraded later.
  lemma StartRaises(lists: PeerLists, a: Draw, x: PeerInfo)
    requires x in Active(lists.previousPeers + lists.whitelisted) && Addressable(x.ipAddress)
    ensures RaisesKey(StartOps(lists, a), PeerIdOf(x))
  {
    hide PeerIdOf, Addressable, AddOps, PreviousOps, UpgradeOps;
    var ops, n := StartOps(lists, a), |PreviousOps(lists.previousPeers, a)|;
    var m := n + |AddOps(lists.seedPeers + lists.whitelisted, a)|;
    if x in lists.previousPeers {
      var i := RaisedBy(lists.previousPeers, a, x);
      assert AddsAt(ops, i, PeerIdOf(x)) && UpgradesAt(ops, i + 1, PeerIdOf(x));
    } else {
      var i := AddedBy(lists.seedPeers + lists.whitelisted, a, x);
      var j := UpgradedBy(lists.whitelisted, a, x);
      assert AddsAt(ops, n + i, PeerIdOf(x)) && UpgradesAt(ops, m + j, PeerIdOf(x));
    }
  }

  // ----- the calls are those of a start ----------------------------------------------------------

  lemma {:induction false} OpsShape(ps: seq<PeerInfo>, a: Draw)
    ensures forall op | op in AddOps(ps, a) ::
      op.info in ps && op == B.Add(op.info, a.now, a.random) && !op.info.isPassive
    ensures forall op | op in UpgradeOps(ps, a) :: op.info in ps && op == B.Upgrade(op.info, a.now, a.random)
    ensures forall op | op in PreviousOps(ps, a) ::
      (op == B.Add(op.info, a.now, a.random) || op == B.Upgrade(op.info, a.now, a.random))
      && op.info in ps && !op.info.isPassive
  {
    if ps != [] { OpsShape(ps[..|ps| - 1], a); }
  }

  // A whitelisted peer shares no id with a seed peer, so its upgrade only touches peers to raise.
  lemma WhitelistedRaised(lists: PeerLists, w: PeerInfo)
    requires IdsOf(lists.whitelisted) !! IdsOf(lists.seedPeers) && w in lists.whitelisted
    requires PeerIdOf(w) in Ids(Active(lists.previousPeers + lists.seedPeers + lists.whitelisted))
    ensures PeerIdOf(w) in Ids(Active(lists.previousPeers + lists.whitelisted))
  {
    hide PeerIdOf, IdsOf;
    var q :| q in lists.previousPeers + lists.seedPeers + lists.whitelisted && !q.isPassive
      && PeerIdOf(q) == PeerIdOf(w);
    if q in lists.seedPeers {
      var i :| 0 <= i < |lists.seedPeers| && lists.seedPeers[i] == q;
      var j :| 0 <= j < |lists.whitelisted| && lists.whitelisted[j] == w;
      IdsOfMember(lists.seedPeers, i);
      IdsOfMember(lists.whitelisted, j);
    }
    assert q in Active(lists.previousPeers + lists.whitelisted);
  }

  lemma CallsOfStart(lists: PeerLists, a: Draw)
    requires IdsOf(lists.whitelisted) !! IdsOf(lists.seedPeers)
    ensures StartCalls(StartOps(lists, a), lists.previousPeers + lists.seedPeers + lists.whitelisted,
                       Active(lists.previousPeers + lists.whitelisted), a.now)
  {
    hide PeerIdOf, IdsOf, AddOps, PreviousOps, UpgradeOps;
    var listed := lists.previousPeers + lists.seedPeers + lists.whitelisted;
    var raised := Active(lists.previousPeers + lists.whitelisted);
    OpsShape(lists.previousPeers, a);
    OpsShape(lists.seedPeers + lists.whitelisted, a);
    OpsShape(lists.whitelisted, a);
    var ops := StartOps(lists, a);
    forall i | 0 <= i < |ops| ensures StartCall(ops[i], listed, raised, a.now) {
      var op := ops[i];
      assert op in ops;
      if op.Upgrade? && op in UpgradeOps(lists.whitelisted, a) {
        if PeerIdOf(op.info) in Ids(Active(listed)) { WhitelistedRaised(lists, op.info); }
      }
    }
  }

  // ----- the book of a started node --------------------------------------------------------------

  // The configured peers that get into the book, ...
  ghost function Known(lists: PeerLists): set<PeerInfo> {
    Active(lists.previousPeers + lists.seedPeers + lists.whitelisted)
  }

  // ... and into its tried list.
  ghost function Raised(lists: PeerLists): set<PeerInfo> {
    Active(lists.previousPeers + lists.whitelisted)
  }

  // What a start with sanitised lists of normal forms makes of the empty book.
  lemma StartsSound(c: NodeConfig, s: Node, lists: PeerLists, a: Draw)
    requires c.book.Valid() && IdsOf(lists.whitelisted) !! IdsOf(lists.seedPeers)
    requires forall q | q in AllPeers(lists) :: IsNormalIp(q.ipAddress)
    requires s == InitialNode(c, lists, a)
    ensures Sound(c.book, s.book, lists.previousPeers + lists.seedPeers + lists.whitelisted, Raised(lists), a.now)
    ensures forall x | x in Known(lists) ::
      && Within(IsNormalIp, x)
      && (HasRoom(c.book, Known(lists), Raised(lists), x) ==>
            && PeerIdOf(x) in B.View(s.book)
            && (PeerIdOf(x) in Ids(Raised(lists)) ==> R.IsTried(s.book, PeerIdOf(x))))
  {
    hide IsNormalIp, PeerIdOf, IdsOf, Addressable, B.TidyBook, B.View, B.Run, StartOps, R.IsTried, HasRoom, Coherent,
      R.NeverEvicted;
    var listed, raised, empty := lists.previousPeers + lists.seedPeers + lists.whitelisted, Raised(lists),
      R.EmptyBook(c.book);
    var ops := StartOps(lists, a);
    forall q | q in listed ensures Within(IsNormalIp, q) { NormalIsAddressable(q.ipAddress); }
    NormalCoherent(c.book.newList);
    NormalCoherent(c.book.triedList);
    R.EmptyBookTidy(c.book, IsNormalIp);
    CallsOfStart(lists, a);
    RunSound(c.book, empty, ops, listed, raised, a.now);
    forall x | x in Known(lists) && HasRoom(c.book, Known(lists), raised, x)
      ensures PeerIdOf(x) in B.View(s.book)
      ensures PeerIdOf(x) in Ids(raised) ==> R.IsTried(s.book, PeerIdOf(x))
    {
      RoomKeeps(c.book, empty, ops, listed, raised, a.now, x);
      RunHelps(c.book, empty, ops, PeerIdOf(x));
      StartAdds(lists, a, x);
      if y :| y in raised && PeerIdOf(y) == PeerIdOf(x) { StartRaises(lists, a, y); }
    }
  }

  // A started node knows nobody but the active seed, whitelisted and previous peers, has tried nobody but the
  // whitelisted and previous ones among them, and holds them with a clean record. It knows each of them for which the
  // buckets have room, and has tried each such whitelisted or previous one.
  lemma StartedBook(c: NodeConfig, s: Node, lists: PeerLists, a: Draw)
    requires StartsWith(c, s, lists, a) && forall info | info in AllPeers(lists) :: IsSupported(info.ipAddress)
    ensures var clean := SanitizePeerLists(lists, c.blacklistedIPs).value;
      var view := B.View(s.book);
      && (forall k | k in view ::
            && k in Ids(Known(clean)) && (view[k].tier.TriedTier? ==> k in Ids(Raised(clean)))
            && view[k].entry.info in clean.previousPeers + clean.seedPeers + clean.whitelisted
            && view[k].entry.failures == 0 && view[k].entry.dateAdded == a.now)
      && (forall x | x in Known(clean) ::
            && Addressable(x.ipAddress)
            && (HasRoom(c.book, Known(clean), Raised(clean), x) ==>
                  && PeerIdOf(x) in view
                  && (view[PeerIdOf(x)].tier.TriedTier? <==> PeerIdOf(x) in Ids(Raised(clean)))))
  {
    hide IsNormalIp, IsSupported, PeerIdOf, IdsOf, Addressable, B.TidyBook, B.View, InitialNode, SanitizePeerLists,
      HasRoom;
    SanitizedNormal(lists, c.blacklistedIPs);
    SanitizedLists(lists, c.blacklistedIPs);
    StartsSound(c, s, SanitizePeerLists(lists, c.blacklistedIPs).value, a);
  }

  // A bucket that holds all who belong there has room for them.
  lemma HeldHasRoom(cfg: ListConfig, bs: Buckets, ps: set<PeerInfo>, x: PeerInfo)
    requires cfg.Valid() && TidyList(cfg, bs, IsNormalIp) && Within(IsNormalIp, x)
    requires forall q | q in ps :: Within(IsNormalIp, q) && PeerIdOf(q) in Flat(bs)
    ensures Roomy(cfg, ps, x)
  {
    hide IsNormalIp, PeerIdOf, Addressable, Coherent, Dict, Flat;
    var b := cfg.SelectBucket(x.ipAddress);
    assert BucketOk(cfg, b, bs[b]);
    forall id | id in Sharing(cfg, ps, b) ensures id in Dict(bs[b]) {
      var q :| q in ps && cfg.SelectBucket(q.ipAddress) == b && PeerIdOf(q) == id;
      FindIsFlat(cfg, bs, q, IsNormalIp);
    }
    DictSize(bs[b]);
    SubsetSize(Sharing(cfg, ps, b), Dict(bs[b]).Keys);
    assert |Dict(bs[b]).Keys| == |Dict(bs[b])|;
  }

  // When the new list has room for everybody, the start has tried all active whitelisted and previous peers exactly
  // when the tried list has room for them.
  lemma AllTriedIff(c: NodeConfig, s: Node, lists: PeerLists, a: Draw)
    requires StartsWith(c, s, lists, a) && forall info | info in AllPeers(lists) :: IsSupported(info.ipAddress)
    requires var clean := SanitizePeerLists(lists, c.blacklistedIPs).value;
      forall x | x in Known(clean) && Addressable(x.ipAddress) :: Roomy(c.book.newList, Known(clean), x)
    ensures var clean := SanitizePeerLists(lists, c.blacklistedIPs).value;
      (forall x | x in Raised(clean) :: R.IsTried(s.book, PeerIdOf(x)))
      <==> (forall x | x in Raised(clean) && Addressable(x.ipAddress) :: Roomy(c.book.triedList, Raised(clean), x))
  {
    hide IsNormalIp, IsSupported, PeerIdOf, IdsOf, Addressable, TidyList, InitialNode, SanitizePeerLists, Roomy, Flat;
    var clean := SanitizePeerLists(lists, c.blacklistedIPs).value;
    SanitizedNormal(lists, c.blacklistedIPs);
    SanitizedLists(lists, c.blacklistedIPs);
    StartsSound(c, s, clean, a);
    if forall x | x in Raised(clean) :: R.IsTried(s.book, PeerIdOf(x)) {
      forall x | x in Raised(clean) ensures Addressable(x.ipAddress) ==> Roomy(c.book.triedList, Raised(clean), x) {
        HeldHasRoom(c.book.triedList, s.book.triedPeers, Raised(clean), x);
      }
    } else {
      var x :| x in Raised(clean) && !R.IsTried(s.book, PeerIdOf(x));
      assert x in Known(clean);
      assert !HasRoom(c.book, Known(clean), Raised(clean), x);
    }
  }
}
