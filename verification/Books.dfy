// The peer book as a value: its two lists, its operations, and the flat map from peer id to
// (tier, entry) that it refines. Runs of operations and the life of a peer are stated on that map.
module Books {
  import opened Wrappers
  import opened OrderedMap
  import opened Peers
  import opened Buckets
  import opened Lists

  datatype BookConfig = BookConfig(newList: ListConfig, triedList: ListConfig) {
    predicate Valid() {
      newList.Valid() && newList.kind.NewKind? && triedList.Valid() && triedList.kind.TriedKind?
    }
  }

  datatype Book = Book(newPeers: Buckets, triedPeers: Buckets)

  predicate BookFits(c: BookConfig, s: Book, info: PeerInfo) {
    c.Valid() && Fits(c.newList, s.newPeers, info) && Fits(c.triedList, s.triedPeers, info)
  }

  predicate InNewList(c: BookConfig, s: Book, info: PeerInfo)
    requires BookFits(c, s, info)
  {
    Find(c.newList, s.newPeers, info).Some?
  }

  predicate InTriedList(c: BookConfig, s: Book, info: PeerInfo)
    requires BookFits(c, s, info)
  {
    Find(c.triedList, s.triedPeers, info).Some?
  }

  // ----- operations -----------------------------------------------------------------------------------

  function FindPeer(c: BookConfig, s: Book, info: PeerInfo): Option<PeerInfo>
    requires BookFits(c, s, info)
  {
    match Find(c.triedList, s.triedPeers, info)
    case Some(e) => Some(e.info)
    case None => match Find(c.newList, s.newPeers, info) case Some(e) => Some(e.info) case None => None
  }

  function AddPeer(c: BookConfig, s: Book, info: PeerInfo, now: int, random: Random): Book
    requires BookFits(c, s, info)
  {
    if InTriedList(c, s, info) || InNewList(c, s, info) then s
    else s.(newPeers := Added(c.newList, s.newPeers, info, now, random))
  }

  function UpdatePeer(c: BookConfig, s: Book, info: PeerInfo): Book
    requires BookFits(c, s, info)
  {
    if InTriedList(c, s, info) then s.(triedPeers := Updated(c.triedList, s.triedPeers, info))
    else if InNewList(c, s, info) then s.(newPeers := Updated(c.newList, s.newPeers, info))
    else s
  }

  function RemovePeer(c: BookConfig, s: Book, info: PeerInfo): Book
    requires BookFits(c, s, info)
  {
    if InTriedList(c, s, info) then s.(triedPeers := Removed(c.triedList, s.triedPeers, info))
    else if InNewList(c, s, info) then s.(newPeers := Removed(c.newList, s.newPeers, info))
    else s
  }

  function UpgradePeer(c: BookConfig, s: Book, info: PeerInfo, now: int, random: Random): Book
    requires BookFits(c, s, info)
  {
    if InTriedList(c, s, info) || !InNewList(c, s, info) then s
    else Book(Removed(c.newList, s.newPeers, info), Added(c.triedList, s.triedPeers, info, now, random))
  }

  function DowngradePeer(c: BookConfig, s: Book, info: PeerInfo, now: int, random: Random): Book
    requires BookFits(c, s, info)
  {
    if InNewList(c, s, info) then s.(newPeers := Failed(c.newList, s.newPeers, info))
    else
      match Find(c.triedList, s.triedPeers, info)
      case None => s
      case Some(e) =>
        var s1 := s.(triedPeers := Failed(c.triedList, s.triedPeers, info));
        if Drops(c.triedList.kind, e) then AddPeer(c, s1, info, now, random) else s1
  }

  datatype Op =
    | Add(info: PeerInfo, now: int, random: Random)
    | Update(info: PeerInfo)
    | Remove(info: PeerInfo)
    | Upgrade(info: PeerInfo, now: int, random: Random)
    | Downgrade(info: PeerInfo, now: int, random: Random)

  // One call on the book. Every call looks its argument up first, so when the address has no bucket
  // the call throws before anything changes.
  function Apply(c: BookConfig, s: Book, op: Op): Book {
    if !BookFits(c, s, op.info) then s
    else
      match op
      case Add(info, now, random) => AddPeer(c, s, info, now, random)
      case Update(info) => UpdatePeer(c, s, info)
      case Remove(info) => RemovePeer(c, s, info)
      case Upgrade(info, now, random) => UpgradePeer(c, s, info, now, random)
      case Downgrade(info, now, random) => DowngradePeer(c, s, info, now, random)
  }

  function Run(c: BookConfig, s: Book, ops: seq<Op>): Book
    decreases |ops|
  {
    if ops == [] then s else Run(c, Apply(c, s, ops[0]), ops[1..])
  }

  // ----- invariant and flat map -------------------------------------------------------------------------

  ghost predicate BookOk(c: BookConfig, s: Book) {
    c.Valid() && ListOk(c.newList, s.newPeers) && ListOk(c.triedList, s.triedPeers)
  }

  ghost predicate BookAddresses(s: Book, p: string -> bool) {
    AllAddresses(s.newPeers, p) && AllAddresses(s.triedPeers, p)
  }

  // Both lists in order, all addresses in `p`, which is coherent, and no id in both tiers.
  ghost predicate TidyBook(c: BookConfig, s: Book, p: string -> bool) {
    && c.Valid() && TidyList(c.newList, s.newPeers, p) && TidyList(c.triedList, s.triedPeers, p)
    && Flat(s.newPeers).Keys !! Flat(s.triedPeers).Keys
  }

  datatype Tier = NewTier | TriedTier
  datatype Placed = Placed(tier: Tier, entry: Entry)
  type FlatMap = map<string, Placed>

  ghost function Merged(news: map<string, Entry>, tried: map<string, Entry>): FlatMap {
    map k | k in news.Keys + tried.Keys ::
      if k in tried then Placed(TriedTier, tried[k]) else Placed(NewTier, news[k])
  }

  ghost function View(s: Book): FlatMap {
    Merged(Flat(s.newPeers), Flat(s.triedPeers))
  }

  // ----- the operations on the flat map ----------------------------------------------------------

  ghost function FlatStep(c: BookConfig, f: FlatMap, k: string, op: Op, victim: Option<string>): FlatMap
    requires c.Valid()
  {
    match op
    case Add(info, now, _) =>
      if k in f then f else Without(f, victim)[k := Placed(NewTier, Entry(info, 0, now))]
    case Update(info) =>
      if k !in f then f
      else f[k := f[k].(entry := f[k].entry.(info := Merge(f[k].entry.info, info)))]
    case Remove(_) => f - {k}
    case Upgrade(info, now, _) =>
      if k in f && f[k].tier.NewTier?
      then Without(f, victim)[k := Placed(TriedTier, Entry(info, 0, now))] else f
    case Downgrade(info, now, _) =>
      if k !in f then f
      else if f[k].tier.NewTier? then f - {k}
      else if f[k].entry.failures + 1 < c.triedList.kind.maxReconnectTries
      then f[k := Placed(TriedTier, Counted(f[k].entry))]
      else Without(f, victim)[k := Placed(NewTier, Entry(info, 0, now))]
  }

  // The key that the step evicts, if any.
  function StepVictim(c: BookConfig, s: Book, op: Op): Option<string>
    requires BookFits(c, s, op.info)
  {
    match op
    case Add(info, now, random) =>
      if InTriedList(c, s, info) then None else Victim(c.newList, s.newPeers, info, now, random)
    case Upgrade(info, now, random) =>
      if InNewList(c, s, info) then Victim(c.triedList, s.triedPeers, info, now, random) else None
    case Downgrade(info, now, random) =>
      (match Find(c.triedList, s.triedPeers, info)
       case Some(e) =>
         if Drops(c.triedList.kind, e) then Victim(c.newList, s.newPeers, info, now, random) else None
       case None => None)
    case _ => None
  }

  // A victim is another peer of the tier the operation inserts into, from the very bucket of the
  // inserted peer, and that bucket was full.
  ghost predicate VictimOk(c: BookConfig, s: Book, op: Op)
    requires BookFits(c, s, op.info)
  {
    var victim := StepVictim(c, s, op);
    victim.Some? ==>
      && (op.Add? || op.Upgrade? || op.Downgrade?)
      && victim.value != PeerIdOf(op.info) && victim.value in View(s)
      && (if op.Upgrade? then
            && View(s)[victim.value].tier.TriedTier?
            && victim.value in Dict(BucketFor(c.triedList, s.triedPeers, op.info))
            && |BucketFor(c.triedList, s.triedPeers, op.info)| >= c.triedList.bucketSize
          else
            && View(s)[victim.value].tier.NewTier?
            && victim.value in Dict(BucketFor(c.newList, s.newPeers, op.info))
            && |BucketFor(c.newList, s.newPeers, op.info)| >= c.newList.bucketSize)
  }

  // ----- map algebra -----------------------------------------------------------------------------

  lemma MergedMinus(news: map<string, Entry>, tried: map<string, Entry>, k: string)
    requires news.Keys !! tried.Keys
    ensures Merged(news - {k}, tried - {k}) == Merged(news, tried) - {k}
  {}

  lemma MergedNew(news: map<string, Entry>, tried: map<string, Entry>, victim: Option<string>, k: string, e: Entry)
    requires news.Keys !! tried.Keys && k !in tried && (victim.Some? ==> victim.value in news)
    ensures Merged(Without(news, victim)[k := e], tried)
         == Without(Merged(news, tried), victim)[k := Placed(NewTier, e)]
  {}

  lemma MergedTried(news: map<string, Entry>, tried: map<string, Entry>, victim: Option<string>, k: string, e: Entry)
    requires news.Keys !! tried.Keys && k !in news && (victim.Some? ==> victim.value in tried)
    ensures Merged(news, Without(tried, victim)[k := e])
         == Without(Merged(news, tried), victim)[k := Placed(TriedTier, e)]
  {}

  lemma MinusAbsent(m: map<string, Entry>, k: string)
    requires k !in m
    ensures m - {k} == m
  {}

  // ----- each operation refines its flat counterpart ---------------------------------------------

  lemma FindInView(c: BookConfig, s: Book, info: PeerInfo, p: string -> bool)
    requires TidyBook(c, s, p) && BookFits(c, s, info) && p(info.ipAddress)
    ensures var k := PeerIdOf(info);
      && (InNewList(c, s, info) <==> k in Flat(s.newPeers))
      && (InTriedList(c, s, info) <==> k in Flat(s.triedPeers))
      && (InNewList(c, s, info) ==> Find(c.newList, s.newPeers, info) == Some(Flat(s.newPeers)[k]))
      && (InTriedList(c, s, info) ==> Find(c.triedList, s.triedPeers, info) == Some(Flat(s.triedPeers)[k]))
      && FindPeer(c, s, info) == (if k in View(s) then Some(View(s)[k].entry.info) else None)
  {
    FindIsFlat(c.newList, s.newPeers, info, p);
    FindIsFlat(c.triedList, s.triedPeers, info, p);
  }

  lemma AddRefines(c: BookConfig, s: Book, info: PeerInfo, now: int, random: Random, p: string -> bool)
    requires TidyBook(c, s, p) && BookFits(c, s, info) && p(info.ipAddress)
    ensures var k, after := PeerIdOf(info), AddPeer(c, s, info, now, random);
      && TidyBook(c, after, p)
      && (k in View(s) ==> after == s)
      && (k !in View(s) ==>
            View(after) == Without(View(s), Victim(c.newList, s.newPeers, info, now, random))
                             [k := Placed(NewTier, Entry(info, 0, now))])
  {
    hide Added, Victim, Find, ListOk, AllAddresses, PeerIdOf, Addressable;
    var k, victim := PeerIdOf(info), Victim(c.newList, s.newPeers, info, now, random);
    FindInView(c, s, info, p);
    if k !in View(s) {
      AddedFlat(c.newList, s.newPeers, info, now, random, p);
      VictimStored(c.newList, s.newPeers, info, now, random, p);
      MergedNew(Flat(s.newPeers), Flat(s.triedPeers), victim, k, Entry(info, 0, now));
    }
  }

  lemma UpdateRefines(c: BookConfig, s: Book, info: PeerInfo, p: string -> bool)
    requires TidyBook(c, s, p) && BookFits(c, s, info) && p(info.ipAddress)
    ensures var after := UpdatePeer(c, s, info);
      TidyBook(c, after, p) && View(after) == FlatStep(c, View(s), PeerIdOf(info), Update(info), None)
  {
    var k := PeerIdOf(info);
    FindInView(c, s, info, p);
    UpdatedFlat(c.triedList, s.triedPeers, info, p);
    UpdatedFlat(c.newList, s.newPeers, info, p);
    var n, t := Flat(s.newPeers), Flat(s.triedPeers);
    if k in t {
      MergedTried(n, t, None, k, t[k].(info := Merge(t[k].info, info)));
    } else if k in n {
      MergedNew(n, t, None, k, n[k].(info := Merge(n[k].info, info)));
    }
  }

  lemma RemoveRefines(c: BookConfig, s: Book, info: PeerInfo, p: string -> bool)
    requires TidyBook(c, s, p) && BookFits(c, s, info) && p(info.ipAddress)
    ensures var after := RemovePeer(c, s, info);
      TidyBook(c, after, p) && View(after) == View(s) - {PeerIdOf(info)}
  {
    var k := PeerIdOf(info);
    FindInView(c, s, info, p);
    RemovedFlat(c.triedList, s.triedPeers, info, p);
    RemovedFlat(c.newList, s.newPeers, info, p);
    var n, t := Flat(s.newPeers), Flat(s.triedPeers);
    MergedMinus(n, t, k);
    if k !in n { MinusAbsent(n, k); }
    if k !in t { MinusAbsent(t, k); }
  }

  lemma UpgradeRefines(c: BookConfig, s: Book, info: PeerInfo, now: int, random: Random, p: string -> bool)
    requires TidyBook(c, s, p) && BookFits(c, s, info) && p(info.ipAddress)
    ensures var k, after := PeerIdOf(info), UpgradePeer(c, s, info, now, random);
      && TidyBook(c, after, p)
      && (k !in Flat(s.newPeers) ==> after == s)
      && (k in Flat(s.newPeers) ==>
            View(after) == Without(View(s), Victim(c.triedList, s.triedPeers, info, now, random))
                             [k := Placed(TriedTier, Entry(info, 0, now))])
  {
    var k, e := PeerIdOf(info), Entry(info, 0, now);
    var n, t, victim := Flat(s.newPeers), Flat(s.triedPeers), Victim(c.triedList, s.triedPeers, info, now, random);
    FindInView(c, s, info, p);
    if k in n {
      RemovedFlat(c.newList, s.newPeers, info, p);
      AddedFlat(c.triedList, s.triedPeers, info, now, random, p);
      VictimStored(c.triedList, s.triedPeers, info, now, random, p);
      MergedMove(n, t, victim, k, e);
    }
  }

  // Moving a key from the new to the tried tier, and back.
  lemma MergedMove(n: map<string, Entry>, t: map<string, Entry>, victim: Option<string>, k: string, e: Entry)
    requires n.Keys !! t.Keys && k in n && (victim.Some? ==> victim.value in t)
    ensures Merged(n - {k}, Without(t, victim)[k := e]) == Without(Merged(n, t), victim)[k := Placed(TriedTier, e)]
  {}

  lemma MergedMoveBack(n: map<string, Entry>, t: map<string, Entry>, victim: Option<string>, k: string, e: Entry)
    requires n.Keys !! t.Keys && k in t && (victim.Some? ==> victim.value in n)
    ensures Merged(Without(n, victim)[k := e], t - {k}) == Without(Merged(n, t), victim)[k := Placed(NewTier, e)]
  {}

  lemma DowngradeNewRefines(c: BookConfig, s: Book, info: PeerInfo, now: int, random: Random, p: string -> bool)
    requires TidyBook(c, s, p) && BookFits(c, s, info) && p(info.ipAddress)
    requires PeerIdOf(info) in Flat(s.newPeers)
    ensures var after := DowngradePeer(c, s, info, now, random);
      TidyBook(c, after, p) && View(after) == View(s) - {PeerIdOf(info)}
  {
    FindInView(c, s, info, p);
    FailedFlat(c.newList, s.newPeers, info, p);
    MergedMinus(Flat(s.newPeers), Flat(s.triedPeers), PeerIdOf(info));
    MinusAbsent(Flat(s.triedPeers), PeerIdOf(info));
  }

  lemma DowngradeCountRefines(c: BookConfig, s: Book, info: PeerInfo, now: int, random: Random, p: string -> bool)
    requires TidyBook(c, s, p) && BookFits(c, s, info) && p(info.ipAddress)
    requires var k := PeerIdOf(info);
      k in Flat(s.triedPeers) && !Drops(c.triedList.kind, Flat(s.triedPeers)[k])
    ensures var k, after := PeerIdOf(info), DowngradePeer(c, s, info, now, random);
      && TidyBook(c, after, p)
      && View(after) == View(s)[k := Placed(TriedTier, Counted(Flat(s.triedPeers)[k]))]
  {
    var k := PeerIdOf(info);
    FindInView(c, s, info, p);
    FailedFlat(c.triedList, s.triedPeers, info, p);
    MergedTried(Flat(s.newPeers), Flat(s.triedPeers), None, k, Counted(Flat(s.triedPeers)[k]));
  }

  // A tried peer that has failed too often becomes a new peer again.
  lemma DowngradeDropRefines(c: BookConfig, s: Book, info: PeerInfo, now: int, random: Random, p: string -> bool)
    requires TidyBook(c, s, p) && BookFits(c, s, info) && p(info.ipAddress)
    requires var k := PeerIdOf(info);
      k in Flat(s.triedPeers) && Drops(c.triedList.kind, Flat(s.triedPeers)[k])
    ensures var after := DowngradePeer(c, s, info, now, random);
      && TidyBook(c, after, p)
      && View(after) == Without(View(s), Victim(c.newList, s.newPeers, info, now, random))
                          [PeerIdOf(info) := Placed(NewTier, Entry(info, 0, now))]
  {
    var k, n, t := PeerIdOf(info), Flat(s.newPeers), Flat(s.triedPeers);
    var s1 := s.(triedPeers := Failed(c.triedList, s.triedPeers, info));
    FindInView(c, s, info, p);
    FailedFlat(c.triedList, s.triedPeers, info, p);
    FindInView(c, s1, info, p);
    AddedFlat(c.newList, s.newPeers, info, now, random, p);
    VictimStored(c.newList, s.newPeers, info, now, random, p);
    MergedMoveBack(n, t, Victim(c.newList, s.newPeers, info, now, random), k, Entry(info, 0, now));
  }

  lemma DowngradeAbsent(c: BookConfig, s: Book, info: PeerInfo, now: int, random: Random, p: string -> bool)
    requires TidyBook(c, s, p) && BookFits(c, s, info) && p(info.ipAddress)
    requires PeerIdOf(info) !in View(s)
    ensures DowngradePeer(c, s, info, now, random) == s
  {
    FindInView(c, s, info, p);
  }

  // What `FlatStep` says for a downgrade, by tier.
  lemma FlatDowngrade(c: BookConfig, n: map<string, Entry>, t: map<string, Entry>, k: string, op: Op,
                      victim: Option<string>)
    requires c.Valid() && n.Keys !! t.Keys && op.Downgrade?
    ensures var f, after := Merged(n, t), FlatStep(c, Merged(n, t), k, op, victim);
      if k in n then after == f - {k}
      else if k !in t then after == f
      else if Drops(c.triedList.kind, t[k])
      then after == Without(f, victim)[k := Placed(NewTier, Entry(op.info, 0, op.now))]
      else after == f[k := Placed(TriedTier, Counted(t[k]))]
  {}

  lemma DowngradeRefines(c: BookConfig, s: Book, info: PeerInfo, now: int, random: Random, p: string -> bool)
    requires TidyBook(c, s, p) && BookFits(c, s, info) && p(info.ipAddress)
    ensures var op, after := Downgrade(info, now, random), DowngradePeer(c, s, info, now, random);
      TidyBook(c, after, p) && View(after) == FlatStep(c, View(s), PeerIdOf(info), op, StepVictim(c, s, op))
  {
    var k, op := PeerIdOf(info), Downgrade(info, now, random);
    FindInView(c, s, info, p);
    FlatDowngrade(c, Flat(s.newPeers), Flat(s.triedPeers), k, op, StepVictim(c, s, op));
    if k in Flat(s.newPeers) {
      DowngradeNewRefines(c, s, info, now, random, p);
    } else if k !in Flat(s.triedPeers) {
      DowngradeAbsent(c, s, info, now, random, p);
    } else if Drops(c.triedList.kind, Flat(s.triedPeers)[k]) {
      DowngradeDropRefines(c, s, info, now, random, p);
    } else {
      DowngradeCountRefines(c, s, info, now, random, p);
    }
  }

  lemma TidyFits(c: BookConfig, s: Book, info: PeerInfo, p: string -> bool)
    requires TidyBook(c, s, p) && Within(p, info)
    ensures BookFits(c, s, info)
  {}

  lemma StepVictimOk(c: BookConfig, s: Book, op: Op, p: string -> bool)
    requires TidyBook(c, s, p) && BookFits(c, s, op.info) && p(op.info.ipAddress)
    ensures VictimOk(c, s, op)
  {
    hide Victim, PeerIdOf, Addressable, BucketFor, TidyList, Find, Dict, Flat;
    FindInView(c, s, op.info, p);
    if op.Add? || op.Downgrade? {
      VictimStored(c.newList, s.newPeers, op.info, op.now, op.random, p);
    } else if op.Upgrade? {
      VictimStored(c.triedList, s.triedPeers, op.info, op.now, op.random, p);
    }
  }

  // There is a victim only when the operation inserts the named peer.
  lemma VictimInserts(c: BookConfig, s: Book, op: Op, p: string -> bool)
    requires TidyBook(c, s, p) && BookFits(c, s, op.info) && p(op.info.ipAddress) && StepVictim(c, s, op).Some?
    ensures var f, k := View(s), PeerIdOf(op.info);
      match op
      case Add(_, _, _) => k !in f
      case Upgrade(_, _, _) => k in f && f[k].tier.NewTier?
      case Downgrade(_, _, _) =>
        k in f && f[k].tier.TriedTier? && f[k].entry.failures + 1 >= c.triedList.kind.maxReconnectTries
      case _ => false
  {
    hide Victim, PeerIdOf, Addressable, BucketFor, TidyList, Find, Dict, Flat;
    FindInView(c, s, op.info, p);
    if op.Add? || op.Downgrade? {
      VictimStored(c.newList, s.newPeers, op.info, op.now, op.random, p);
    } else if op.Upgrade? {
      VictimStored(c.triedList, s.triedPeers, op.info, op.now, op.random, p);
    }
  }

  lemma AddStep(c: BookConfig, s: Book, op: Op, p: string -> bool)
    requires TidyBook(c, s, p) && BookFits(c, s, op.info) && p(op.info.ipAddress) && op.Add?
    ensures TidyBook(c, Apply(c, s, op), p)
    ensures View(Apply(c, s, op)) == FlatStep(c, View(s), PeerIdOf(op.info), op, StepVictim(c, s, op))
  {
    hide TidyBook, AddPeer, Victim, PeerIdOf, Addressable;
    FindInView(c, s, op.info, p);
    AddRefines(c, s, op.info, op.now, op.random, p);
  }

  lemma UpgradeStep(c: BookConfig, s: Book, op: Op, p: string -> bool)
    requires TidyBook(c, s, p) && BookFits(c, s, op.info) && p(op.info.ipAddress) && op.Upgrade?
    ensures TidyBook(c, Apply(c, s, op), p)
    ensures View(Apply(c, s, op)) == FlatStep(c, View(s), PeerIdOf(op.info), op, StepVictim(c, s, op))
  {
    hide Victim, PeerIdOf, Addressable, TidyList, Added, Removed;
    FindInView(c, s, op.info, p);
    UpgradeRefines(c, s, op.info, op.now, op.random, p);
  }

  // Main result: on coherent addresses every operation of the book keeps its invariant and does
  // to the two bucketed lists exactly what `FlatStep` does to one flat map.
  lemma StepRefines(c: BookConfig, s: Book, op: Op, p: string -> bool)
    requires TidyBook(c, s, p) && Within(p, op.info)
    ensures TidyBook(c, Apply(c, s, op), p) && BookFits(c, s, op.info) && VictimOk(c, s, op)
    ensures View(Apply(c, s, op)) == FlatStep(c, View(s), PeerIdOf(op.info), op, StepVictim(c, s, op))
  {
    TidyFits(c, s, op.info, p);
    StepVictimOk(c, s, op, p);
    match op
    case Add(_, _, _) => AddStep(c, s, op, p);
    case Update(info) => UpdateRefines(c, s, info, p);
    case Remove(info) => RemoveRefines(c, s, info, p);
    case Upgrade(_, _, _) => UpgradeStep(c, s, op, p);
    case Downgrade(info, now, random) => DowngradeRefines(c, s, info, now, random, p);
  }
}
