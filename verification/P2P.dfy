// The node (src/p2p.js): the event handlers that drive book and pool, the admission of inbound
// connections, and the start. Sockets, timers and re-emitted events are left out.
module P2P {
  import opened Wrappers
  import opened OrderedMap
  import opened Address
  import opened Bucket
  import opened PeerId
  import opened Peers
  import opened Lists
  import opened Pools
  import opened Nodes
  import opened Sanitize
  import opened NodeRuns
  import Buckets
  import E = NodeEffects
  import B = Books
  import R = BookRuns
  import Protection
  import L = PeerList
  import PB = PeerBook
  import PP = PeerPool
  import Sel = Selection
  import X = PeerExchange

  // ----- calls that change nothing ---------------------------------------------------------------

  lemma PresentNotAdded(c: B.BookConfig, s: B.Book, info: PeerInfo, a: Draw)
    requires B.BookFits(c, s, info) && B.FindPeer(c, s, info).Some?
    ensures B.Apply(c, s, B.Add(info, a.now, a.random)) == s
  {
    hide Addressable, PeerIdOf;
  }

  lemma AbsentNotUpdated(c: B.BookConfig, s: B.Book, info: PeerInfo)
    requires B.BookFits(c, s, info) && B.FindPeer(c, s, info).None?
    ensures B.UpdatePeer(c, s, info) == s
  {
    hide Addressable, PeerIdOf;
  }

  // ----- what the calls of the handlers achieve on a book of normal addresses --------------------

  lemma ConnectAchieves(c: NodeConfig, s: Node, info: PeerInfo, a: Draw, b: Draw)
    ensures var k := PeerIdOf(info);
      var active := k in B.View(s.book) || !info.isPassive;
      B.TidyBook(c.book, s.book, IsNormalIp) && IsNormalIp(info.ipAddress) && active ==>
        && R.IsTried(B.Run(c.book, s.book, ConnectOps(c, s.book, info, a, b)), k)
        && R.IsTried(B.Run(c.book, s.book, UpdateOps(c, s.book, info, a, b)), k)
  {
    hide PeerIdOf, IsNormalIp, Addressable, B.TidyBook, B.View, B.Run, R.IsTried, ConnectOps, UpdateOps;
    if B.TidyBook(c.book, s.book, IsNormalIp) && IsNormalIp(info.ipAddress)
       && (PeerIdOf(info) in B.View(s.book) || !info.isPassive) {
      NormalIsAddressable(info.ipAddress);
      E.ConnectedIsTried(c, s, info, a, b, IsNormalIp);
      E.UpdatedIsTried(c, s, info, a, b, IsNormalIp);
    }
  }

  lemma DiscoveryAchieves(c: NodeConfig, s: Node, info: PeerInfo, a: Draw)
    ensures var active := !info.isPassive && info.ipAddress !in c.blacklistedIPs;
      B.TidyBook(c.book, s.book, IsNormalIp) && IsNormalIp(info.ipAddress) && active ==>
        PeerIdOf(info) in B.View(B.Run(c.book, s.book, DiscoverOps(c, s.book, info, a)))
  {
    hide PeerIdOf, IsNormalIp, Addressable, B.TidyBook, B.View, B.Run, DiscoverOps;
    if B.TidyBook(c.book, s.book, IsNormalIp) && IsNormalIp(info.ipAddress)
       && info.ipAddress !in c.blacklistedIPs && !info.isPassive {
      NormalIsAddressable(info.ipAddress);
      E.DiscoveredIsKnown(c, s, info, a, IsNormalIp);
    }
  }

  // ----- the parts of an inbound step ------------------------------------------------------------

  lemma NoRun(c: B.BookConfig, s: B.Book)
    ensures B.Run(c, s, []) == s
  {}

  lemma NormalIncoming(h: Handshake)
    requires IsSupported(h.info.ipAddress)
    ensures NormalizeAddress(h.info.ipAddress).Some?
    ensures Incoming(h) == Some(h.info.(ipAddress := NormalizeAddress(h.info.ipAddress).value.address))
    ensures Addressable(Incoming(h).value.ipAddress)
  {
    hide Addressable, IsNormalIp;
    NormalizeSupported(h.info.ipAddress);
    NormalIsAddressable(NormalizeAddress(h.info.ipAddress).value.address);
  }

  lemma InboundOps(c: NodeConfig, s: Node, h: Handshake, a: Draw)
    requires Incoming(h).Some? && B.BookOk(c.book, s.book) && Addressable(Incoming(h).value.ipAddress)
    ensures B.BookFits(c.book, s.book, Incoming(h).value)
    ensures var admission, incoming, ops := Admit(c, s, h), Incoming(h).value, AdmitOps(c, s, h, a);
      if admission.OwnConnection? then ops == [B.Remove(incoming)]
      else if (admission.Duplicate? || admission.Admitted?) && !incoming.isPassive
              && B.FindPeer(c.book, s.book, incoming).None? then ops == [B.Add(incoming, a.now, a.random)]
      else ops == []
  {
    hide Incoming, Addressable, B.FindPeer, Admit;
  }

  lemma InboundPool(c: NodeConfig, s: Node, h: Handshake, limit: nat, now: real, a: Draw, pool: Pool)
    requires Incoming(h).Some?
    requires if Admit(c, s, h).Admitted? then
               && AddsInbound(c.pool, limit, s.pool.inbound, NewPeer(Incoming(h).value, now), pool.inbound)
               && pool.outbound == s.pool.outbound
             else pool == s.pool
    ensures PoolStep(c, s, Inbound(h, limit, now, a), pool)
  {
    hide Admit, AddsInbound, Incoming, PeerIdOf;
  }

  // The book configured with the secret alone.
  function DefaultBook(hash: Hash, secret: nat): B.BookConfig {
    var news, tried := PB.DefaultNewList(hash, secret), PB.DefaultTriedList(hash, secret);
    B.BookConfig(news.(kind := L.WithDefaults(news.kind)), tried.(kind := L.WithDefaults(tried.kind)))
  }

  // Such a book never holds more than 128 times 32 new and 64 times 32 tried peers, whatever run it went through.
  lemma DefaultCapacity(hash: Hash, secret: nat, ops: seq<B.Op>, p: string -> bool)
    requires Coherent(DefaultBook(hash, secret).newList, p) && Coherent(DefaultBook(hash, secret).triedList, p)
    requires R.AllIn(ops, p)
    ensures DefaultBook(hash, secret) == B.BookConfig(
      Buckets.ListConfig(hash, secret, 128, 32, Buckets.NewKind(86_400_000)),
      Buckets.ListConfig(hash, secret, 64, 32, Buckets.TriedKind(3)))
    ensures var c := DefaultBook(hash, secret);
      |B.View(B.Run(c, R.EmptyBook(c), ops))| <= 128 * 32 + 64 * 32
  {
    hide B.TidyBook, Coherent, B.Run, B.View, R.EmptyBook, R.AllIn;
    var c := DefaultBook(hash, secret);
    R.EmptyBookTidy(c, p);
    R.RunStaysTidy(c, R.EmptyBook(c), ops, p);
    R.AllPeersSpec(c, B.Run(c, R.EmptyBook(c), ops), p);
  }

  class P2P {
    const config: NodeConfig
    const peerBook: PB.PeerBook
    const peerPool: PP.PeerPool
    var bannedPeers: set<string>

    ghost predicate Valid()
      reads this, peerPool, peerBook.newPeers, peerBook.triedPeers
    {
      && peerBook.Valid() && peerPool.Valid()
      && config.book == peerBook.Config() && config.pool == peerPool.config
    }

    ghost function State(): Node
      reads this, peerPool, peerBook.newPeers, peerBook.triedPeers
    {
      Node(peerBook.State(), peerPool.State(), bannedPeers)
    }

    // Every address of the book is in normal form.
    ghost predicate Normal()
      reads peerBook.newPeers, peerBook.triedPeers
    {
      B.TidyBook(config.book, peerBook.State(), IsNormalIp)
    }

    ghost predicate Knows(id: string)
      reads peerBook.newPeers, peerBook.triedPeers
    {
      id in B.View(peerBook.State())
    }

    ghost function BookAfter(ops: seq<B.Op>): B.Book
      reads peerBook.newPeers, peerBook.triedPeers
    {
      B.Run(config.book, peerBook.State(), ops)
    }

    lemma ValidFits(info: PeerInfo)
      requires Valid()
      ensures B.BookOk(config.book, peerBook.State())
      ensures B.BookFits(config.book, peerBook.State(), info) <==> Addressable(info.ipAddress)
    {
      hide Addressable;
    }

    // A new node with an empty book, before any peer is added; the node info names so many modules.
    constructor (hash: Hash, secret: nat, poolConfig: PoolConfig, blacklistedIPs: seq<string>, modules: nat)
      ensures Valid() && State() == Node(R.EmptyBook(config.book), Pool([], []), {})
      ensures config.pool == poolConfig && config.blacklistedIPs == blacklistedIPs
      ensures config.book == DefaultBook(hash, secret)
      ensures peerPool.moduleCount == modules + 1
      ensures fresh(peerPool) && fresh(peerBook.newPeers) && fresh(peerBook.triedPeers)
    {
      var book := new PB.PeerBook(PB.DefaultNewList(hash, secret), PB.DefaultTriedList(hash, secret));
      var pool := new PP.PeerPool(poolConfig);
      pool.ApplyNodeInfo(modules);
      config := NodeConfig(B.BookConfig(book.newPeers.cfg, book.triedPeers.cfg), poolConfig, blacklistedIPs);
      peerBook := book;
      peerPool := pool;
      bannedPeers := {};
      new;
      assert peerBook.State().newPeers == R.EmptyBook(config.book).newPeers;
      assert peerBook.State().triedPeers == R.EmptyBook(config.book).triedPeers;
    }

    // ----- handlers ------------------------------------------------------------------------------

    method HandleOutboundPeerConnect(info: PeerInfo, a: Draw, b: Draw)
      requires Valid()
      modifies peerBook.newPeers, peerBook.triedPeers
      ensures Valid()
      ensures State() == old(State()).(book := old(BookAfter(ConnectOps(config, peerBook.State(), info, a, b))))
      ensures FromPool(old(State()), info) ==> Step(config, old(State()), PeerConnected(info, a, b), State())
      ensures old(Normal()) && IsNormalIp(info.ipAddress) && (old(Knows(PeerIdOf(info))) || !info.isPassive) ==>
        R.IsTried(peerBook.State(), PeerIdOf(info))
    {
      hide Addressable, PeerIdOf, ListOk, B.FindPeer, B.AddPeer, B.UpgradePeer, B.UpdatePeer, IsNormalIp, B.TidyBook,
        B.View, R.IsTried;
      ghost var s := peerBook.State();
      ConnectAchieves(config, State(), info, a, b);
      ValidFits(info);
      if !Addressable(info.ipAddress) {
        return;  // the lookup throws
      }
      var found := peerBook.GetPeer(info);
      if found.Some? {
        var located := Located(info, found.value);
        R.StoredIsAddressable(config.book, s, info);
        R.RunOne(config.book, s, B.Upgrade(located, b.now, b.random));
        var _ := peerBook.UpgradePeer(located, b.now, b.random);
      } else if !info.isPassive {
        R.RunTwo(config.book, s, B.Add(info, a.now, a.random), B.Upgrade(info, b.now, b.random));
        var _ := peerBook.AddPeer(info, a.now, a.random);
        ValidFits(info);
        var _ := peerBook.UpgradePeer(info, b.now, b.random);
      }
    }

    method HandlePeerInfoUpdate(info: PeerInfo, a: Draw, b: Draw)
      requires Valid()
      modifies peerBook.newPeers, peerBook.triedPeers
      ensures Valid()
      ensures State() == old(State()).(book := old(BookAfter(UpdateOps(config, peerBook.State(), info, a, b))))
      ensures FromPool(old(State()), info) ==> Step(config, old(State()), InfoUpdated(info, a, b), State())
      ensures old(Normal()) && IsNormalIp(info.ipAddress) && (old(Knows(PeerIdOf(info))) || !info.isPassive) ==>
        R.IsTried(peerBook.State(), PeerIdOf(info))
    {
      hide Addressable, PeerIdOf, ListOk, B.FindPeer, B.AddPeer, B.UpgradePeer, B.UpdatePeer, IsNormalIp, B.TidyBook,
        B.View, R.IsTried;
      ghost var s := peerBook.State();
      ConnectAchieves(config, State(), info, a, b);
      ValidFits(info);
      if !Addressable(info.ipAddress) {
        return;  // the lookup throws
      }
      var found := peerBook.GetPeer(info);
      if found.Some? {
        var located := Located(info, found.value);
        R.StoredIsAddressable(config.book, s, info);
        ValidFits(located);
        R.RunTwo(config.book, s, B.Update(located), B.Upgrade(located, b.now, b.random));
        var isUpdated := peerBook.UpdatePeer(located);
        ValidFits(located);
        if isUpdated {
          var _ := peerBook.UpgradePeer(located, b.now, b.random);
        } else {
          AbsentNotUpdated(config.book, s, located);
        }
      } else if !info.isPassive {
        R.RunTwo(config.book, s, B.Add(info, a.now, a.random), B.Upgrade(info, b.now, b.random));
        var _ := peerBook.AddPeer(info, a.now, a.random);
        ValidFits(info);
        var _ := peerBook.UpgradePeer(info, b.now, b.random);
      }
    }

    method HandleOutboundPeerConnectAbort(info: PeerInfo, a: Draw)
      requires Valid()
      modifies peerBook.newPeers, peerBook.triedPeers
      ensures Valid() && State() == old(State()).(book := old(BookAfter(AbortOps(config, peerBook.State(), info, a))))
      ensures FromPool(old(State()), info) ==> Step(config, old(State()), ConnectAborted(info, a), State())
    {
      hide Addressable, PeerIdOf;
      ValidFits(info);
      if !Addressable(info.ipAddress) {
        return;  // the lookup throws
      }
      var isWhitelisted := PeerIdOf(info) in IdsOf(config.pool.whitelisted);
      var found := peerBook.GetPeer(info);
      if found.Some? && !isWhitelisted {
        R.RunOne(config.book, peerBook.State(), B.Downgrade(info, a.now, a.random));
        var _ := peerBook.DowngradePeer(info, a.now, a.random);
      }
    }

    method HandleDiscoveredPeer(info: PeerInfo, a: Draw)
      requires Valid()
      modifies peerBook.newPeers, peerBook.triedPeers
      ensures Valid()
      ensures State() == old(State()).(book := old(BookAfter(DiscoverOps(config, peerBook.State(), info, a))))
      ensures Step(config, old(State()), Discovered(info, a), State())
      ensures old(Normal()) && IsNormalIp(info.ipAddress) && !info.isPassive && info.ipAddress !in config.blacklistedIPs
        ==> Knows(PeerIdOf(info))
    {
      hide Addressable, PeerIdOf, IsNormalIp, B.TidyBook, B.View;
      DiscoveryAchieves(config, State(), info, a);
      ValidFits(info);
      var isBlacklisted := info.ipAddress in config.blacklistedIPs;
      if !Addressable(info.ipAddress) {
        return;  // the lookup throws
      }
      var found := peerBook.GetPeer(info);
      if found.None? && !isBlacklisted {
        if !info.isPassive {
          R.RunOne(config.book, peerBook.State(), B.Add(info, a.now, a.random));
          var _ := peerBook.AddPeer(info, a.now, a.random);
        }
      }
    }

    method HandleBanPeer(peerId: string)
      requires Valid()
      modifies this`bannedPeers, peerBook.newPeers, peerBook.triedPeers
      ensures Valid()
      ensures peerBook.State() == old(BookAfter(BanOps(config, peerBook.State(), peerId)))
      ensures bannedPeers == BannedAfter(old(State()), Banned(peerId))
      ensures old(HasPeer(State(), peerId)) ==> Step(config, old(State()), Banned(peerId), State())
    {
      hide Addressable, PeerIdOf, GetHost, GetPort;
      var host := GetHost(peerId);
      var port := GetPort(peerId);
      if host.None? {
        return;  // reading the host throws
      }
      bannedPeers := bannedPeers + {host.value};
      var isWhitelisted := peerId in IdsOf(config.pool.whitelisted);
      // With a port that is not a number the id is that of no stored peer; an address without bucket
      // makes the lookup throw.
      if port.Some? {
        var bannedInfo := HostInfo(host.value, port.value);
        ValidFits(bannedInfo);
        if Addressable(host.value) {
          var found := peerBook.GetPeer(bannedInfo);
          if found.Some? && !isWhitelisted {
            R.RunOne(config.book, peerBook.State(), B.Remove(bannedInfo));
            var _ := peerBook.RemovePeer(bannedInfo);
          }
        }
      }
    }

    method HandleUnbanPeer(peerId: string)
      requires Valid()
      modifies this`bannedPeers
      ensures Valid() && bannedPeers == BannedAfter(old(State()), Unbanned(peerId))
      ensures Step(config, old(State()), Unbanned(peerId), State())
    {
      var host := GetHost(peerId);
      if host.Some? {
        bannedPeers := bannedPeers - {host.value};
      }
    }

    // ----- inbound connections -------------------------------------------------------------------

    method HandleInboundConnection(h: Handshake, now: real, a: Draw)
      returns (admission: Admission, added: Option<Protection.PoolPeer>)
      requires Valid() && IsSupported(h.info.ipAddress)
      modifies peerPool`inboundPeerMap, peerBook.newPeers, peerBook.triedPeers
      ensures Valid() && admission == Admit(config, old(State()), h)
      ensures added.Some? <==> admission.Admitted?
      ensures bannedPeers == old(bannedPeers)
      ensures peerBook.State() == old(BookAfter(AdmitOps(config, State(), h, a)))
      ensures Step(config, old(State()), Inbound(h, config.pool.maxInbound * peerPool.moduleCount, now, a), State())
      ensures admission.Admitted? ==> added == Get(peerPool.inboundPeerMap, PeerIdOf(h.info))
      ensures admission.Admitted? ==> Incoming(h).Some? && added == Some(NewPeer(Incoming(h).value, now))
    {
      hide Addressable, PeerIdOf, NormalizeAddress, IsSupported, IsNormalIp, AddsInbound, ListOk, MapOk,
        B.FindPeer, B.AddPeer, B.RemovePeer, B.Run, AdmitOps, PoolStep, Incoming, NewPeer;
      ghost var s, limit := State(), config.pool.maxInbound * peerPool.moduleCount;
      SameId(h);
      NormalIncoming(h);
      NoRun(config.book, s.book);
      InboundOps(config, s, h, a);
      added := None;
      var incoming := h.info.(ipAddress := NormalizeAddress(h.info.ipAddress).value.address);
      ValidFits(incoming);
      if incoming.ipAddress in config.blacklistedIPs {
        InboundPool(config, s, h, limit, now, a, s.pool);
        return Blacklisted, None;
      }
      if !h.hasUrl {
        InboundPool(config, s, h, limit, now, a, s.pool);
        return InvalidUrl, None;
      }
      if h.ownNonce {
        InboundPool(config, s, h, limit, now, a, s.pool);
        R.RunOne(config.book, s.book, B.Remove(incoming));
        var _ := peerBook.RemovePeer(incoming);
        return OwnConnection, None;
      }
      if !h.queryOk {
        InboundPool(config, s, h, limit, now, a, s.pool);
        return InvalidQuery, None;
      }
      var peerId := PeerIdOf(h.info);
      if incoming.ipAddress in bannedPeers {
        InboundPool(config, s, h, limit, now, a, s.pool);
        return BannedHost, None;
      }
      if !h.compatible {
        InboundPool(config, s, h, limit, now, a, s.pool);
        return Incompatible, None;
      }
      if Has(peerPool.inboundPeerMap, peerId) {
        admission := Duplicate;
      } else {
        admission := Admitted;
        added := peerPool.AddInboundPeer(incoming, now);
      }
      InboundPool(config, s, h, limit, now, a, peerPool.State());
      var found := peerBook.GetPeer(incoming);
      if !incoming.isPassive && found.None? {
        R.RunOne(config.book, s.book, B.Add(incoming, a.now, a.random));
        var _ := peerBook.AddPeer(incoming, a.now, a.random);
      }
    }

    // ----- populating and answering --------------------------------------------------------------

    method Populate(draws: nat -> real, now: real)
      requires Valid()
      modifies peerPool`outboundPeerMap
      ensures Valid() && peerBook.State() == old(peerBook.State()) && bannedPeers == old(bannedPeers)
      ensures Step(config, old(State()), Populated(config.pool.maxOutbound * peerPool.moduleCount, now), State())
    {
      hide Triggers, PeerIdOf;
      var newPeers := peerBook.newPeers.PeersList();
      var triedPeers := peerBook.triedPeers.PeersList();
      peerPool.TriggerNewConnections(newPeers, triedPeers, draws, now);
    }

    // The peers named in answer to a request: all different positions of the book's list, as many as
    // `ResponseLength` says for the configured settings.
    method HandleGetPeersRequest(minimumThreshold: nat, responseLength: nat, draw: real) returns (peers: seq<PeerInfo>)
      requires Valid() && 0.0 <= draw < 1.0
      ensures var known := AllInfos(peerBook.State().newPeers) + AllInfos(peerBook.State().triedPeers);
        && multiset(peers) <= multiset(known)
        && |peers|
           == X.ResponseLength(|known|, X.ThresholdOf(minimumThreshold), X.ResponseLengthOf(responseLength), draw)
    {
      hide X.LowCount, X.HighCount, AllInfos;
      var threshold, length := X.ThresholdOf(minimumThreshold), X.ResponseLengthOf(responseLength);
      var known := peerBook.GetAllPeers();
      var count := X.PickCount(|known|, threshold, length, draw);
      var shuffled := Sel.Shuffle(known);
      Sel.MultisetSize(shuffled, known);
      X.ResponseBounds(|known|, threshold, length, draw);
      peers := Sel.SliceTo(shuffled, count);
    }

    // ----- start ---------------------------------------------------------------------------------

    // In the constructor: the peers of an earlier session go to the tried list.
    method AddPreviousPeers(ps: seq<PeerInfo>, a: Draw)
      requires Valid() && forall p | p in ps && !p.isPassive :: Addressable(p.ipAddress)
      modifies peerBook.newPeers, peerBook.triedPeers
      ensures Valid() && State() == old(State()).(book := old(BookAfter(PreviousOps(ps, a))))
    {
      hide Addressable, PeerIdOf, ListOk, B.FindPeer, B.AddPeer, B.UpgradePeer, B.UpdatePeer;
      ghost var s := peerBook.State();
      for i := 0 to |ps|
        invariant Valid() && State() == old(State()).(book := B.Run(config.book, s, PreviousOps(ps[..i], a)))
      {
        ghost var s1 := peerBook.State();
        var p := ps[i];
        assert p in ps;
        assert ps[..i + 1][..i] == ps[..i];
        if !p.isPassive {
          ValidFits(p);
          R.RunConcat(config.book, s, PreviousOps(ps[..i], a),
                      [B.Add(p, a.now, a.random), B.Upgrade(p, a.now, a.random)]);
          R.RunTwo(config.book, s1, B.Add(p, a.now, a.random), B.Upgrade(p, a.now, a.random));
          var found := peerBook.GetPeer(p);
          if found.None? {
            var _ := peerBook.AddPeer(p, a.now, a.random);
            ValidFits(p);
            var _ := peerBook.UpgradePeer(p, a.now, a.random);
          } else {
            PresentNotAdded(config.book, s1, p, a);
            var _ := peerBook.UpgradePeer(p, a.now, a.random);
          }
        } else {
          assert PreviousOps(ps[..i], a) + [] == PreviousOps(ps[..i], a);
        }
      }
      assert ps[..|ps|] == ps;
    }

    // In `start`: seed and whitelisted peers go to the new list ...
    method AddKnownPeers(ps: seq<PeerInfo>, a: Draw)
      requires Valid() && forall p | p in ps && !p.isPassive :: Addressable(p.ipAddress)
      modifies peerBook.newPeers, peerBook.triedPeers
      ensures Valid() && State() == old(State()).(book := old(BookAfter(AddOps(ps, a))))
    {
      hide Addressable, PeerIdOf, ListOk, B.FindPeer, B.AddPeer, B.UpgradePeer, B.UpdatePeer;
      ghost var s := peerBook.State();
      for i := 0 to |ps|
        invariant Valid() && State() == old(State()).(book := B.Run(config.book, s, AddOps(ps[..i], a)))
      {
        ghost var s1 := peerBook.State();
        var p := ps[i];
        assert p in ps;
        assert ps[..i + 1][..i] == ps[..i];
        if !p.isPassive {
          ValidFits(p);
          R.RunConcat(config.book, s, AddOps(ps[..i], a), [B.Add(p, a.now, a.random)]);
          R.RunOne(config.book, s1, B.Add(p, a.now, a.random));
          var found := peerBook.GetPeer(p);
          if found.None? {
            var _ := peerBook.AddPeer(p, a.now, a.random);
          } else {
            PresentNotAdded(config.book, s1, p, a);
          }
        } else {
          assert AddOps(ps[..i], a) + [] == AddOps(ps[..i], a);
        }
      }
      assert ps[..|ps|] == ps;
    }

    // ... and the whitelisted ones on to the tried list.
    method UpgradePeers(ps: seq<PeerInfo>, a: Draw)
      requires Valid() && forall p | p in ps :: Addressable(p.ipAddress)
      modifies peerBook.newPeers, peerBook.triedPeers
      ensures Valid() && State() == old(State()).(book := old(BookAfter(UpgradeOps(ps, a))))
    {
      hide Addressable, PeerIdOf, ListOk, B.FindPeer, B.AddPeer, B.UpgradePeer, B.UpdatePeer;
      ghost var s := peerBook.State();
      for i := 0 to |ps|
        invariant Valid() && State() == old(State()).(book := B.Run(config.book, s, UpgradeOps(ps[..i], a)))
      {
        ghost var s1 := peerBook.State();
        var p := ps[i];
        assert p in ps;
        assert ps[..i + 1][..i] == ps[..i];
        ValidFits(p);
        R.RunConcat(config.book, s, UpgradeOps(ps[..i], a), [B.Upgrade(p, a.now, a.random)]);
        R.RunOne(config.book, s1, B.Upgrade(p, a.now, a.random));
        var _ := peerBook.UpgradePeer(p, a.now, a.random);
      }
      assert ps[..|ps|] == ps;
    }

    method Start(seedPeers: seq<PeerInfo>, whitelisted: seq<PeerInfo>, a: Draw)
      requires Valid() && forall p | p in seedPeers && !p.isPassive :: Addressable(p.ipAddress)
      requires forall p | p in whitelisted :: Addressable(p.ipAddress)
      modifies peerBook.newPeers, peerBook.triedPeers
      ensures Valid()
      ensures State() == old(State()).(
        book := old(BookAfter(AddOps(seedPeers + whitelisted, a) + UpgradeOps(whitelisted, a))))
    {
      hide Addressable, PeerIdOf;
      R.RunConcat(config.book, peerBook.State(), AddOps(seedPeers + whitelisted, a), UpgradeOps(whitelisted, a));
      AddKnownPeers(seedPeers + whitelisted, a);
      UpgradePeers(whitelisted, a);
    }
  }

  // No lookup of the constructor or of `start` throws.
  predicate Startable(lists: PeerLists) {
    && (forall p | p in lists.previousPeers && !p.isPassive :: Addressable(p.ipAddress))
    && (forall p | p in lists.seedPeers && !p.isPassive :: Addressable(p.ipAddress))
    && (forall p | p in lists.whitelisted :: Addressable(p.ipAddress))
  }

  // Constructing and starting a node from its configuration gives the initial state that the runs start from.
  // Null stands for the error when some configured address has no normal form or no bucket. The fixed and
  // whitelisted peers of `poolConfig` are replaced by the sanitised ones.
  method StartedNode(hash: Hash, secret: nat, poolConfig: PoolConfig, blacklistedIPs: seq<string>, lists: PeerLists,
                     modules: nat, a: Draw) returns (node: P2P?)
    ensures node == null <==> SanitizePeerLists(lists, blacklistedIPs).None?
                              || !Startable(SanitizePeerLists(lists, blacklistedIPs).value)
    ensures node != null ==> node.Valid() && StartsWith(node.config, node.State(), lists, a)
    ensures node != null ==> node.config.book == DefaultBook(hash, secret)
    ensures node != null ==> node.config.blacklistedIPs == blacklistedIPs && node.peerPool.moduleCount == modules + 1
  {
    hide Addressable, PeerIdOf, SanitizePeerLists, B.Run, AddOps, UpgradeOps, PreviousOps, ListOk, MapOk;
    var sanitized := SanitizePeerLists(lists, blacklistedIPs);
    if sanitized.None? || !Startable(sanitized.value) {
      return null;
    }
    var clean := sanitized.value;
    var cleanConfig := poolConfig.(fixedPeers := clean.fixedPeers, whitelisted := clean.whitelisted);
    node := new P2P(hash, secret, cleanConfig, blacklistedIPs, modules);
    assert node.peerBook.State() == R.EmptyBook(node.config.book);
    StartInRow(node.config, clean, a);
    node.AddPreviousPeers(clean.previousPeers, a);
    node.Start(clean.seedPeers, clean.whitelisted, a);
  }

  lemma StartInRow(c: NodeConfig, lists: PeerLists, a: Draw)
    ensures var known := AddOps(lists.seedPeers + lists.whitelisted, a) + UpgradeOps(lists.whitelisted, a);
      InitialNode(c, lists, a).book
        == B.Run(c.book, B.Run(c.book, R.EmptyBook(c.book), PreviousOps(lists.previousPeers, a)), known)
  {
    hide B.Run, AddOps, UpgradeOps, PreviousOps;
    var known := AddOps(lists.seedPeers + lists.whitelisted, a) + UpgradeOps(lists.whitelisted, a);
    assert StartOps(lists, a) == PreviousOps(lists.previousPeers, a) + known;
    R.RunConcat(c.book, R.EmptyBook(c.book), PreviousOps(lists.previousPeers, a), known);
  }
}
