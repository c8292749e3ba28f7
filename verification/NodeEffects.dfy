// What the handlers achieve, in terms of the flat book: where a peer stands after the node has
// connected to it, heard of it, failed to reach it or banned it.
module NodeEffects {
  import opened Wrappers
  import opened Address
  import opened PeerId
  import opened Peers
  import opened Buckets
  import opened Lists
  import opened OrderedMap
  import opened Pools
  import opened Populating
  import opened Nodes
  import opened NodeRuns
  import B = Books
  import R = BookRuns

  // ----- one and two calls on a normal book ------------------------------------------------------

  lemma StoredId(c: B.BookConfig, s: B.Book, k: string, p: string -> bool)
    requires B.TidyBook(c, s, p) && k in B.View(s)
    ensures var info := B.View(s)[k].entry.info;
      PeerIdOf(info) == k && Within(p, info)
  {
    hide PeerIdOf, Addressable;
    if k in Flat(s.triedPeers) {
      StoredIdInList(c.triedList, s.triedPeers, k, p);
    } else {
      StoredIdInList(c.newList, s.newPeers, k, p);
    }
  }

  lemma StoredIdInList(cfg: ListConfig, bs: Buckets, k: string, p: string -> bool)
    requires cfg.Valid() && TidyList(cfg, bs, p) && k in Flat(bs)
    ensures PeerIdOf(Flat(bs)[k].info) == k && Within(p, Flat(bs)[k].info)
  {
    hide PeerIdOf, Addressable;
    var b := FlatSome(bs, k);
    TidyUnique(cfg, bs, p);
    FlatAt(bs, b, k);
    assert BucketOk(cfg, b, bs[b]);
  }

  // The named peer after one call.
  lemma CallEffect(c: B.BookConfig, s: B.Book, op: B.Op, p: string -> bool)
    requires B.TidyBook(c, s, p) && Within(p, op.info)
    ensures B.TidyBook(c, B.Apply(c, s, op), p)
    ensures var k, before, after := PeerIdOf(op.info), B.View(s), B.View(B.Apply(c, s, op));
      && (op.Add? ==> k in after && if k in before then after[k] == before[k] else after[k].tier.NewTier?)
      && (op.Upgrade? && k in before ==> R.IsTried(B.Apply(c, s, op), k))
      && (op.Update? && k in before ==> k in after && after[k].tier == before[k].tier)
      && (op.Remove? ==> k !in after)
  {
    hide PeerIdOf, B.TidyBook, B.Apply, B.FlatStep, B.StepVictim, B.View, B.BookFits;
    R.StepAt(c, s, op, PeerIdOf(op.info), p);
    B.StepRefines(c, s, op, p);
    R.FlatStepSelf(c, B.View(s), PeerIdOf(op.info), op, B.StepVictim(c, s, op));
  }

  lemma TwoCalls(c: B.BookConfig, s: B.Book, op: B.Op, op': B.Op)
    ensures B.Run(c, s, [op]) == B.Apply(c, s, op)
    ensures B.Run(c, s, [op, op']) == B.Apply(c, B.Apply(c, s, op), op')
  {
    R.RunOne(c, s, op);
    R.RunTwo(c, s, op, op');
  }

  // ----- connecting and updating -----------------------------------------------------------------

  lemma LocatedId(c: NodeConfig, s: Node, info: PeerInfo, p: string -> bool)
    requires B.TidyBook(c.book, s.book, p) && Within(p, info) && PeerIdOf(info) in B.View(s.book)
    ensures B.BookFits(c.book, s.book, info) && B.FindPeer(c.book, s.book, info).Some?
    ensures var located := Located(info, B.FindPeer(c.book, s.book, info).value);
      PeerIdOf(located) == PeerIdOf(info) && Within(p, located)
  {
    hide B.TidyBook, B.FindPeer, B.BookFits, B.View, GetPeerId;
    B.TidyFits(c.book, s.book, info, p);
    B.FindInView(c.book, s.book, info, p);
    StoredId(c.book, s.book, PeerIdOf(info), p);
  }

  // After a connection the peer is among the tried ones, if it was known or is not passive.
  lemma ConnectedIsTried(c: NodeConfig, s: Node, info: PeerInfo, a: Draw, b: Draw, p: string -> bool)
    requires B.TidyBook(c.book, s.book, p) && Within(p, info)
    requires PeerIdOf(info) in B.View(s.book) || !info.isPassive
    ensures R.IsTried(B.Run(c.book, s.book, ConnectOps(c, s.book, info, a, b)), PeerIdOf(info))
  {
    hide PeerIdOf, B.TidyBook, B.FindPeer, B.BookFits, B.View, B.Apply, B.Run, R.IsTried;
    B.TidyFits(c.book, s.book, info, p);
    B.FindInView(c.book, s.book, info, p);
    if PeerIdOf(info) in B.View(s.book) {
      LocatedId(c, s, info, p);
      var op := B.Upgrade(Located(info, B.FindPeer(c.book, s.book, info).value), b.now, b.random);
      CallEffect(c.book, s.book, op, p);
      TwoCalls(c.book, s.book, op, op);
    } else {
      AddThenUpgrade(c.book, s.book, info, a, b, p);
    }
  }

  lemma AddThenUpgrade(c: B.BookConfig, s: B.Book, info: PeerInfo, a: Draw, b: Draw, p: string -> bool)
    requires B.TidyBook(c, s, p) && Within(p, info)
    ensures R.IsTried(B.Run(c, s, [B.Add(info, a.now, a.random), B.Upgrade(info, b.now, b.random)]), PeerIdOf(info))
  {
    hide PeerIdOf, B.TidyBook, B.View, B.Apply, B.Run, R.IsTried;
    var add, upgrade := B.Add(info, a.now, a.random), B.Upgrade(info, b.now, b.random);
    CallEffect(c, s, add, p);
    CallEffect(c, B.Apply(c, s, add), upgrade, p);
    TwoCalls(c, s, add, upgrade);
  }

  // So does an update of its information.
  lemma UpdatedIsTried(c: NodeConfig, s: Node, info: PeerInfo, a: Draw, b: Draw, p: string -> bool)
    requires B.TidyBook(c.book, s.book, p) && Within(p, info)
    requires PeerIdOf(info) in B.View(s.book) || !info.isPassive
    ensures R.IsTried(B.Run(c.book, s.book, UpdateOps(c, s.book, info, a, b)), PeerIdOf(info))
  {
    hide PeerIdOf, B.TidyBook, B.FindPeer, B.BookFits, B.View, B.Apply, B.Run, R.IsTried;
    B.TidyFits(c.book, s.book, info, p);
    B.FindInView(c.book, s.book, info, p);
    if PeerIdOf(info) in B.View(s.book) {
      LocatedId(c, s, info, p);
      var located := Located(info, B.FindPeer(c.book, s.book, info).value);
      B.TidyFits(c.book, s.book, located, p);
      B.FindInView(c.book, s.book, located, p);
      var update, upgrade := B.Update(located), B.Upgrade(located, b.now, b.random);
      CallEffect(c.book, s.book, update, p);
      CallEffect(c.book, B.Apply(c.book, s.book, update), upgrade, p);
      TwoCalls(c.book, s.book, update, upgrade);
    } else {
      AddThenUpgrade(c.book, s.book, info, a, b, p);
    }
  }

  // ----- what is stored after an update ------------------------------------------------------------

  // Stored are the reported flag, height and properties, besides those that only the former description has.
  ghost predicate Reports(after: PeerInfo, before: PeerInfo, info: PeerInfo) {
    && after.isPassive == info.isPassive && after.height == info.height
    && forall x ::
         && (x in after.rest <==> x in before.rest || x in info.rest)
         && (x in info.rest ==> after.rest[x] == info.rest[x])
         && (x in before.rest && x !in info.rest ==> after.rest[x] == before.rest[x])
  }

  // An update of a known peer sets its description and leaves its tier, counter and date, and all other peers, as
  // they are.
  lemma UpdateSets(c: B.BookConfig, s: B.Book, info: PeerInfo, p: string -> bool)
    requires B.TidyBook(c, s, p) && Within(p, info) && PeerIdOf(info) in B.View(s)
    ensures var k, before, after := PeerIdOf(info), B.View(s), B.View(B.Apply(c, s, B.Update(info)));
      && after.Keys == before.Keys && (forall x | x in before && x != k :: after[x] == before[x])
      && after[k].tier == before[k].tier
      && after[k].entry.failures == before[k].entry.failures
      && after[k].entry.dateAdded == before[k].entry.dateAdded
      && after[k].entry.info.ipAddress == info.ipAddress && after[k].entry.info.wsPort == info.wsPort
      && Reports(after[k].entry.info, before[k].entry.info, info)
  {
    hide PeerIdOf, B.TidyBook, B.View, B.Apply, B.StepVictim, B.BookFits, Addressable, Merge;
    R.StepAt(c, s, B.Update(info), PeerIdOf(info), p);
    MergeIs(B.View(s)[PeerIdOf(info)].entry.info, info);
  }

  // After a report of new information a tried peer has it, under the stored address and port and with its counter; a
  // new peer enters the tried list with exactly what was reported, and so does an unknown one that is not passive. An
  // unknown passive peer is not added.
  lemma UpdateReported(c: NodeConfig, s: Node, info: PeerInfo, a: Draw, b: Draw, p: string -> bool)
    requires B.TidyBook(c.book, s.book, p) && Within(p, info)
    ensures var k, before := PeerIdOf(info), B.View(s.book);
      var after := B.View(B.Run(c.book, s.book, UpdateOps(c, s.book, info, a, b)));
      if k in before then
        var stored := before[k].entry;
        if before[k].tier.TriedTier? then
          && k in after && after[k].tier.TriedTier?
          && after[k].entry.failures == stored.failures && after[k].entry.dateAdded == stored.dateAdded
          && after[k].entry.info.ipAddress == stored.info.ipAddress
          && after[k].entry.info.wsPort == stored.info.wsPort
          && Reports(after[k].entry.info, stored.info, info)
        else
          var reported :=
            PeerInfo(stored.info.ipAddress, stored.info.wsPort, info.isPassive, info.height, info.rest);
          k in after && after[k] == B.Placed(B.TriedTier, Entry(reported, 0, b.now))
      else if info.isPassive then after == before
      else k in after && after[k] == B.Placed(B.TriedTier, Entry(info, 0, b.now))
  {
    hide PeerIdOf, B.TidyBook, B.FindPeer, B.BookFits, B.View, B.Apply, B.Run, Addressable, Reports, Merge, Coherent;
    B.TidyFits(c.book, s.book, info, p);
    B.FindInView(c.book, s.book, info, p);
    if PeerIdOf(info) in B.View(s.book) {
      LocatedId(c, s, info, p);
      var located := Located(info, B.FindPeer(c.book, s.book, info).value);
      B.TidyFits(c.book, s.book, located, p);
      B.FindInView(c.book, s.book, located, p);
      UpdateThenUpgrade(c.book, s.book, located, b, p);
      ReportsLocated(info, located);
    } else if !info.isPassive {
      AddedThenUpgraded(c.book, s.book, info, a, b, p);
    } else {
      NoCalls(c.book, s.book);
    }
  }

  lemma ReportsLocated(info: PeerInfo, located: PeerInfo)
    requires located == info.(ipAddress := located.ipAddress, wsPort := located.wsPort)
    ensures forall after, before :: Reports(after, before, located) <==> Reports(after, before, info)
  {}

  lemma UpdateThenUpgrade(c: B.BookConfig, s: B.Book, info: PeerInfo, b: Draw, p: string -> bool)
    requires B.TidyBook(c, s, p) && Within(p, info) && PeerIdOf(info) in B.View(s)
    ensures var k, before := PeerIdOf(info), B.View(s);
      var after := B.View(B.Run(c, s, [B.Update(info), B.Upgrade(info, b.now, b.random)]));
      && k in after && after[k].tier.TriedTier?
      && (before[k].tier.NewTier? ==> after[k].entry == Entry(info, 0, b.now))
      && (before[k].tier.TriedTier? ==>
            && after[k].entry.failures == before[k].entry.failures
            && after[k].entry.dateAdded == before[k].entry.dateAdded
            && after[k].entry.info.ipAddress == info.ipAddress && after[k].entry.info.wsPort == info.wsPort
            && Reports(after[k].entry.info, before[k].entry.info, info))
  {
    hide PeerIdOf, B.TidyBook, B.View, B.Apply, B.StepVictim, B.BookFits, Addressable, Reports, B.Run, B.FlatStep,
      Within;
    var k, update, upgrade := PeerIdOf(info), B.Update(info), B.Upgrade(info, b.now, b.random);
    UpdateSets(c, s, info, p);
    B.StepRefines(c, s, update, p);
    var s' := B.Apply(c, s, update);
    R.StepAt(c, s', upgrade, k, p);
    R.FlatStepSelf(c, B.View(s'), k, upgrade, B.StepVictim(c, s', upgrade));
    R.RunTwo(c, s, update, upgrade);
  }

  lemma AddedThenUpgraded(c: B.BookConfig, s: B.Book, info: PeerInfo, a: Draw, b: Draw, p: string -> bool)
    requires B.TidyBook(c, s, p) && Within(p, info) && PeerIdOf(info) !in B.View(s)
    ensures var after := B.View(B.Run(c, s, [B.Add(info, a.now, a.random), B.Upgrade(info, b.now, b.random)]));
      PeerIdOf(info) in after && after[PeerIdOf(info)] == B.Placed(B.TriedTier, Entry(info, 0, b.now))
  {
    hide PeerIdOf, B.TidyBook, B.View, B.Apply, B.StepVictim, B.BookFits, Addressable, B.Run, B.FlatStep, Within;
    var k, add, upgrade := PeerIdOf(info), B.Add(info, a.now, a.random), B.Upgrade(info, b.now, b.random);
    R.StepAt(c, s, add, k, p);
    R.FlatStepSelf(c, B.View(s), k, add, B.StepVictim(c, s, add));
    B.StepRefines(c, s, add, p);
    var s' := B.Apply(c, s, add);
    R.StepAt(c, s', upgrade, k, p);
    R.FlatStepSelf(c, B.View(s'), k, upgrade, B.StepVictim(c, s', upgrade));
    R.RunTwo(c, s, add, upgrade);
  }

  // After a connection a tried peer is as it was; a new one enters the tried list with exactly what was reported, under
  // the stored address and port, and so does an unknown one that is not passive. An unknown passive peer is not added.
  lemma ConnectReported(c: NodeConfig, s: Node, info: PeerInfo, a: Draw, b: Draw, p: string -> bool)
    requires B.TidyBook(c.book, s.book, p) && Within(p, info)
    ensures var k, before := PeerIdOf(info), B.View(s.book);
      var after := B.View(B.Run(c.book, s.book, ConnectOps(c, s.book, info, a, b)));
      if k in before then
        var stored := before[k].entry;
        if before[k].tier.TriedTier? then k in after && after[k] == before[k]
        else
          var reported :=
            PeerInfo(stored.info.ipAddress, stored.info.wsPort, info.isPassive, info.height, info.rest);
          k in after && after[k] == B.Placed(B.TriedTier, Entry(reported, 0, b.now))
      else if info.isPassive then after == before
      else k in after && after[k] == B.Placed(B.TriedTier, Entry(info, 0, b.now))
  {
    hide PeerIdOf, B.TidyBook, B.FindPeer, B.BookFits, B.View, B.Apply, B.Run, Addressable, Coherent;
    B.TidyFits(c.book, s.book, info, p);
    B.FindInView(c.book, s.book, info, p);
    if PeerIdOf(info) in B.View(s.book) {
      LocatedId(c, s, info, p);
      Upgraded(c.book, s.book, Located(info, B.FindPeer(c.book, s.book, info).value), b, p);
    } else if !info.isPassive {
      AddedThenUpgraded(c.book, s.book, info, a, b, p);
    } else {
      NoCalls(c.book, s.book);
    }
  }

  lemma Upgraded(c: B.BookConfig, s: B.Book, info: PeerInfo, b: Draw, p: string -> bool)
    requires B.TidyBook(c, s, p) && Within(p, info) && PeerIdOf(info) in B.View(s)
    ensures var k, before := PeerIdOf(info), B.View(s);
      var after := B.View(B.Run(c, s, [B.Upgrade(info, b.now, b.random)]));
      && k in after
      && (before[k].tier.NewTier? ==> after[k] == B.Placed(B.TriedTier, Entry(info, 0, b.now)))
      && (before[k].tier.TriedTier? ==> after[k] == before[k])
  {
    hide PeerIdOf, B.TidyBook, B.View, B.Apply, B.StepVictim, B.BookFits, Addressable, B.Run, B.FlatStep, Within;
    var k, upgrade := PeerIdOf(info), B.Upgrade(info, b.now, b.random);
    R.StepAt(c, s, upgrade, k, p);
    R.FlatStepSelf(c, B.View(s), k, upgrade, B.StepVictim(c, s, upgrade));
    R.RunOne(c, s, upgrade);
  }

  // A discovered peer that is not passive and not blacklisted is in the book afterwards; an unknown one
  // enters among the new peers.
  lemma DiscoveredIsKnown(c: NodeConfig, s: Node, info: PeerInfo, a: Draw, p: string -> bool)
    requires B.TidyBook(c.book, s.book, p) && Within(p, info)
    requires info.ipAddress !in c.blacklistedIPs && !info.isPassive
    ensures var k, before := PeerIdOf(info), B.View(s.book);
      var after := B.View(B.Run(c.book, s.book, DiscoverOps(c, s.book, info, a)));
      k in after && (if k in before then after == before else after[k].tier.NewTier?)
  {
    hide PeerIdOf, B.TidyBook, B.FindPeer, B.BookFits, B.View, B.Apply;
    B.TidyFits(c.book, s.book, info, p);
    B.FindInView(c.book, s.book, info, p);
    var op := B.Add(info, a.now, a.random);
    CallEffect(c.book, s.book, op, p);
    TwoCalls(c.book, s.book, op, op);
  }

  // An aborted connection costs a known peer one step of its rank, unless it is whitelisted.
  lemma AbortLowersRank(c: NodeConfig, s: Node, info: PeerInfo, a: Draw, p: string -> bool)
    requires B.TidyBook(c.book, s.book, p) && Within(p, info)
    ensures var k := PeerIdOf(info);
      R.Rank(c.book, B.Run(c.book, s.book, AbortOps(c, s.book, info, a)), k)
        == R.Minus(R.Rank(c.book, s.book, k), if IsWhitelisted(c, k) then 0 else 1)
  {
    hide PeerIdOf, B.TidyBook, B.FindPeer, B.BookFits, B.View, B.Apply, B.Run, R.Rank, IsWhitelisted;
    var k := PeerIdOf(info);
    B.TidyFits(c.book, s.book, info, p);
    B.FindInView(c.book, s.book, info, p);
    TidyRank(c.book, s.book, k, p);
    var op := B.Downgrade(info, a.now, a.random);
    DowngradeRank(c.book, s.book, op, p);
    R.RunOne(c.book, s.book, op);
    NoCalls(c.book, s.book);
  }

  lemma DowngradeRank(c: B.BookConfig, s: B.Book, op: B.Op, p: string -> bool)
    requires B.TidyBook(c, s, p) && Within(p, op.info) && op.Downgrade?
    ensures var k := PeerIdOf(op.info); R.Rank(c, B.Apply(c, s, op), k) == R.Minus(R.Rank(c, s, k), 1)
  {
    hide PeerIdOf, B.TidyBook, B.View, B.Apply, B.StepVictim, B.FlatStep, B.BookFits, R.FlatRank;
    var k := PeerIdOf(op.info);
    R.StepAt(c, s, op, k, p);
    R.RankNonNegative(c, s, k, p);
    R.FlatRankSelf(c, B.View(s), k, op, B.StepVictim(c, s, op));
  }

  lemma TidyRank(c: B.BookConfig, s: B.Book, k: string, p: string -> bool)
    requires B.TidyBook(c, s, p)
    ensures 0 <= R.Rank(c, s, k) && (k !in B.View(s) ==> R.Rank(c, s, k) == 0)
  {
    hide B.TidyBook, B.View;
    R.RankNonNegative(c, s, k, p);
  }

  lemma NoCalls(c: B.BookConfig, s: B.Book)
    ensures B.Run(c, s, []) == s
  {}

  // ----- the whitelist protects from the node's own removals -------------------------------------

  lemma BanIdNormal(e: Event, p: string -> bool)
    requires EventIn(e, p) && e.Banned?
    ensures GetHost(e.peerId).Some? && GetPort(e.peerId).Some?
    ensures var info := HostInfo(GetHost(e.peerId).value, GetPort(e.peerId).value);
      PeerIdOf(info) == e.peerId && IsNormalIp(info.ipAddress) && Addressable(info.ipAddress)
  {
    hide IsSupported, NormalizeAddress, GetPeerId, GetHost, GetPort, IsNormalIp, Addressable;
    var ip, port :| IsSupported(ip) && GetPeerId(ip, port) == Some(e.peerId);
    PeerIdRoundTrip(ip, port);
    PeerIdOfNormalForm(ip, port);
    NormalizeSupported(ip);
    NormalIsAddressable(NormalizeAddress(ip).value.address);
  }

  // The handshake of a connection that the node has made to itself, under the address and port of `k`.
  predicate SelfConnection(c: NodeConfig, s: Node, e: Event, k: string) {
    && e.Inbound? && Admit(c, s, e.h).OwnConnection?
    && Incoming(e.h).Some? && Addressable(Incoming(e.h).value.ipAddress) && PeerIdOf(Incoming(e.h).value) == k
  }

  // The only handler that downgrades or removes a whitelisted peer is that of the node's connection to itself,
  // which does not look at the whitelist.
  lemma WhitelistedRemovedIff(c: NodeConfig, s: Node, e: Event, k: string, p: string -> bool)
    requires B.BookOk(c.book, s.book) && EventIn(e, p) && IsWhitelisted(c, k)
    ensures (exists op :: op in BookOps(c, s, e) && R.Names(op, k) && (op.Downgrade? || op.Remove?))
       <==> SelfConnection(c, s, e, k)
  {
    hide PeerIdOf, B.FindPeer, Admit, GetHost, GetPort, Addressable, Incoming, EventIn, ListOk, IsWhitelisted;
    if e.Banned? { BanIdNormal(e, p); }
    if SelfConnection(c, s, e, k) {
      ListSizes(c, s);
      assert B.Remove(Incoming(e.h).value) in BookOps(c, s, e);
    }
  }

  lemma ListSizes(c: NodeConfig, s: Node)
    requires B.BookOk(c.book, s.book)
    ensures |s.book.newPeers| == c.book.newList.bucketCount && |s.book.triedPeers| == c.book.triedList.bucketCount
  {}

  // Such a handshake can come for any peer, whitelisted or not.
  lemma SelfConnectionPossible(c: NodeConfig, s: Node, info: PeerInfo, limit: nat, now: real, a: Draw)
    requires IsNormalIp(info.ipAddress) && info.ipAddress !in c.blacklistedIPs
    ensures var h := Handshake(info, true, true, true, true);
      SelfConnection(c, s, Inbound(h, limit, now, a), PeerIdOf(info))
  {
    hide PeerIdOf, NormalizeAddress, IsNormalIp, Addressable;
    NormalIpFixed(info.ipAddress);
    NormalIsAddressable(info.ipAddress);
  }

  // A whitelisted peer of the tried list stays there, with its counter, exactly unless the step is such a handshake
  // or makes another peer evict it from a full bucket: from that the whitelist does not protect.
  lemma WhitelistedStaysTriedIff(c: NodeConfig, s: Node, e: Event, s': Node, k: string, p: string -> bool)
    requires TidyNode(c, s, p) && EventIn(e, p) && Step(c, s, e, s') && IsWhitelisted(c, k) && R.IsTried(s.book, k)
    ensures R.IsTried(s'.book, k)
       <==> !SelfConnection(c, s, e, k) && R.NeverEvicted(c.book, s.book, BookOps(c, s, e), k)
    ensures R.IsTried(s'.book, k) ==> B.View(s'.book)[k].entry.failures == B.View(s.book)[k].entry.failures
  {
    hide PeerIdOf, Admit, BookOps, PoolStep, EventIn, R.NeverEvicted, IsWhitelisted, B.View, B.TidyBook,
      B.BookOk, SelfConnection, R.Names, IsNormalIp;
    WhitelistedRemovedIff(c, s, e, k, p);
    TidyOps(c, s, e, p);
    var ops := BookOps(c, s, e);
    if SelfConnection(c, s, e, k) {
      SelfConnectionRemoves(c, s, e, k, p);
    } else if R.NeverEvicted(c.book, s.book, ops, k) {
      TriedStays(c.book, s.book, ops, k, p);
    } else {
      OneIdPerStep(c, s, e, p);
      EvictedIsGone(c.book, s.book, ops, if ops == [] then "" else PeerIdOf(ops[0].info), k, p);
    }
  }

  // All calls of one step are about one id.
  lemma OneIdPerStep(c: NodeConfig, s: Node, e: Event, p: string -> bool)
    requires TidyNode(c, s, p) && R.AllIn(BookOps(c, s, e), p)
    ensures var ops := BookOps(c, s, e); forall i | 0 <= i < |ops| :: PeerIdOf(ops[i].info) == PeerIdOf(ops[0].info)
  {
    hide PeerIdOf, B.FindPeer, B.BookFits, Addressable, Admit, Incoming, GetHost, GetPort, B.TidyBook, NodeAddresses,
      IsNormalIp;
  }

  // A peer that a run about another one evicts is not back at its end.
  lemma {:induction false} EvictedIsGone(c: B.BookConfig, s: B.Book, ops: seq<B.Op>, id: string, k: string,
                                         p: string -> bool)
    requires B.TidyBook(c, s, p) && R.AllIn(ops, p) && !R.NeverEvicted(c, s, ops, k)
    requires forall i | 0 <= i < |ops| :: PeerIdOf(ops[i].info) == id
    ensures k !in B.View(B.Run(c, s, ops))
    decreases |ops|
  {
    hide PeerIdOf, B.View, B.TidyBook, B.Apply, B.StepVictim, B.BookFits, Addressable;
    var s' := B.Apply(c, s, ops[0]);
    B.StepRefines(c, s, ops[0], p);
    if B.StepVictim(c, s, ops[0]) == Some(k) {
      VictimGone(c, s, ops[0], k, p);
      AbsentStays(c, s', ops[1..], id, k, p);
    } else {
      EvictedIsGone(c, s', ops[1..], id, k, p);
    }
  }

  lemma VictimGone(c: B.BookConfig, s: B.Book, op: B.Op, k: string, p: string -> bool)
    requires B.TidyBook(c, s, p) && Within(p, op.info) && B.BookFits(c, s, op.info) && B.StepVictim(c, s, op) == Some(k)
    ensures k != PeerIdOf(op.info) && k !in B.View(B.Apply(c, s, op))
  {
    hide PeerIdOf, B.TidyBook, B.Apply, Addressable, B.View, Victim, Find;
    B.StepRefines(c, s, op, p);
    B.VictimInserts(c, s, op, p);
  }

  lemma {:induction false} AbsentStays(c: B.BookConfig, s: B.Book, ops: seq<B.Op>, id: string, k: string,
                                       p: string -> bool)
    requires B.TidyBook(c, s, p) && R.AllIn(ops, p) && k !in B.View(s) && k != id
    requires forall i | 0 <= i < |ops| :: PeerIdOf(ops[i].info) == id
    ensures k !in B.View(B.Run(c, s, ops))
    decreases |ops|
  {
    hide PeerIdOf, B.View, B.TidyBook, B.Apply, B.StepVictim, B.FlatStep, Addressable;
    if ops != [] {
      B.StepRefines(c, s, ops[0], p);
      R.FlatStepOther(c, B.View(s), id, ops[0], B.StepVictim(c, s, ops[0]), k);
      AbsentStays(c, B.Apply(c, s, ops[0]), ops[1..], id, k, p);
    }
  }

  lemma SelfConnectionRemoves(c: NodeConfig, s: Node, e: Event, k: string, p: string -> bool)
    requires TidyNode(c, s, p) && SelfConnection(c, s, e, k) && R.AllIn(BookOps(c, s, e), p)
    ensures k !in B.View(B.Run(c.book, s.book, BookOps(c, s, e)))
  {
    hide PeerIdOf, Admit, Addressable, Incoming, ListOk, B.View, B.TidyBook, IsNormalIp, B.Apply, B.Run;
    ListSizes(c, s);
    assert c.book.Valid();
    var op := B.Remove(Incoming(e.h).value);
    assert BookOps(c, s, e) == [op];
    assert R.AllIn([op], p) && [op][0] == op;
    CallEffect(c.book, s.book, op, p);
    R.RunOne(c.book, s.book, op);
  }

  lemma {:induction false} TriedStays(c: B.BookConfig, s: B.Book, ops: seq<B.Op>, k: string, p: string -> bool)
    requires B.TidyBook(c, s, p) && R.AllIn(ops, p) && R.IsTried(s, k) && R.NeverEvicted(c, s, ops, k)
    requires forall op | op in ops && R.Names(op, k) :: !op.Downgrade? && !op.Remove?
    ensures R.IsTried(B.Run(c, s, ops), k)
    ensures B.View(B.Run(c, s, ops))[k].entry.failures == B.View(s)[k].entry.failures
    decreases |ops|
  {
    hide PeerIdOf, B.View, B.TidyBook, B.Apply, B.StepVictim, B.BookFits, R.IsTried, R.Names;
    if ops != [] {
      assert ops[0] in ops && forall op | op in ops[1..] :: op in ops;
      TriedStaysStep(c, s, ops[0], k, p);
      B.StepRefines(c, s, ops[0], p);
      TriedStays(c, B.Apply(c, s, ops[0]), ops[1..], k, p);
    }
  }

  lemma TriedStaysStep(c: B.BookConfig, s: B.Book, op: B.Op, k: string, p: string -> bool)
    requires B.TidyBook(c, s, p) && Within(p, op.info) && R.IsTried(s, k)
    requires R.Names(op, k) ==> !op.Downgrade? && !op.Remove?
    requires B.BookFits(c, s, op.info) ==> B.StepVictim(c, s, op) != Some(k)
    ensures R.IsTried(B.Apply(c, s, op), k)
    ensures B.View(B.Apply(c, s, op))[k].entry.failures == B.View(s)[k].entry.failures
  {
    hide PeerIdOf, B.View, B.TidyBook, B.Apply, B.StepVictim, B.BookFits, B.FlatStep, Addressable;
    R.StepAt(c, s, op, k, p);
    if R.Names(op, k) {
      R.FlatStepSelf(c, B.View(s), k, op, B.StepVictim(c, s, op));
    } else {
      R.FlatStepOther(c, B.View(s), PeerIdOf(op.info), op, B.StepVictim(c, s, op), k);
    }
  }

  // ----- populating -----------------------------------------------------------------------------------

  // With room for the whole book the population connects to every peer of it, but those under the address of a fixed
  // peer; fixed peers are connected anyway.
  lemma PopulationReachesBook(c: NodeConfig, s: Node, limit: nat, now: real, s': Node, p: string -> bool)
    requires TidyNode(c, s, p) && Step(c, s, Populated(limit, now), s')
    requires limit - |s.pool.outbound| >= |B.View(s.book)|
    ensures forall k | k in B.View(s.book)
      && (forall f | f in c.pool.fixedPeers :: f.ipAddress != B.View(s.book)[k].entry.info.ipAddress) ::
      Has(s'.pool.outbound, k)
    ensures forall f | f in c.pool.fixedPeers :: Has(s'.pool.outbound, PeerIdOf(f))
  {
    hide PeerIdOf, Addressable, IsNormalIp, Coherent, Has, Triggers, MapOk, ListOk, AllAddresses, MapAddresses,
      B.BookAddresses, B.BookOk;
    var news, tried, m := AllInfos(s.book.newPeers), AllInfos(s.book.triedPeers), s.pool.outbound;
    R.AllPeersSpec(c.book, s.book, p);
    EligibleFew(news, m, c.pool.fixedPeers);
    EligibleFew(tried, m, c.pool.fixedPeers);
    PopulationReachesAll(c.pool, limit, m, news, tried, now, s'.pool.outbound);
    var selected := PopulationConnects(c.pool, limit, m, news, tried, now, s'.pool.outbound);
    forall k | k in B.View(s.book)
      && (forall f | f in c.pool.fixedPeers :: f.ipAddress != B.View(s.book)[k].entry.info.ipAddress)
      ensures Has(s'.pool.outbound, k)
    {
      StoredId(c.book, s.book, k, p);
      var info := B.View(s.book)[k].entry.info;
      ShownInBook(c.book, s.book, k, p);
    }
  }

  lemma ShownInBook(c: B.BookConfig, s: B.Book, k: string, p: string -> bool)
    requires B.TidyBook(c, s, p) && k in B.View(s)
    ensures B.View(s)[k].entry.info in AllInfos(s.newPeers) || B.View(s)[k].entry.info in AllInfos(s.triedPeers)
  {
    hide AllInfos, Coherent, TidyList;
    if k in Flat(s.triedPeers) {
      var i := ShownInList(c.triedList, s.triedPeers, k, p);
    } else {
      var i := ShownInList(c.newList, s.newPeers, k, p);
    }
  }
}
