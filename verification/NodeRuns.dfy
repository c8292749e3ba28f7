// Whole runs of the node: what no step ever breaks in book and pool together.
module NodeRuns {
  import opened Wrappers
  import opened OrderedMap
  import opened Address
  import opened PeerId
  import opened Peers
  import opened Buckets
  import opened Lists
  import opened Pools
  import opened Sanitize
  import opened Nodes
  import B = Books
  import R = BookRuns
  import Protection
  import P = PoolRuns

  // ----- addresses in the pool -------------------------------------------------------------------

  ghost predicate MapAddresses(m: PeerMap, p: string -> bool) {
    forall i | 0 <= i < |m| :: p(m[i].1.info.ipAddress)
  }

  lemma DeleteAddresses(m: PeerMap, k: string, p: string -> bool)
    requires MapAddresses(m, p)
    ensures MapAddresses(Delete(m, k), p)
  {
    var n := Delete(m, k);
    assert forall i | 0 <= i < |n| :: n[i] == m[if i < IndexOf(m, k) then i else i + 1];
  }

  lemma SetAddresses(m: PeerMap, q: Protection.PoolPeer, p: string -> bool)
    requires MapAddresses(m, p) && p(q.info.ipAddress)
    ensures MapAddresses(Set(m, q.id, q), p)
  {}

  lemma LosesOneAddresses(m: PeerMap, candidates: seq<Protection.PoolPeer>, m': PeerMap, p: string -> bool)
    requires MapAddresses(m, p) && LosesOne(m, candidates, m')
    ensures MapAddresses(m', p)
  {
    if candidates != [] {
      var q :| q in candidates && m' == Delete(m, q.id);
      DeleteAddresses(m, q.id, p);
    }
  }

  lemma AddsInboundAddresses(c: PoolConfig, limit: nat, m: PeerMap, q: Protection.PoolPeer, m': PeerMap,
                             p: string -> bool)
    requires MapAddresses(m, p) && p(q.info.ipAddress) && AddsInbound(c, limit, m, q, m')
    ensures MapAddresses(m', p)
  {
    hide Protection.EvictionCandidates;
    var mid :| (if |m| >= limit then EvictsInbound(c, m, mid) else mid == m)
      && m' == if Has(mid, q.id) then mid else Set(mid, q.id, q);
    if |m| >= limit {
      var candidates :|
        && Protection.EvictionCandidates(Unlisted(ValuesOf(m), IdsOf(c.whitelisted)), candidates, c.ratios)
        && LosesOne(m, candidates, mid);
      LosesOneAddresses(m, candidates, mid, p);
    }
    SetAddresses(mid, q, p);
  }

  lemma {:induction false} AddAllAddresses(m: PeerMap, infos: seq<PeerInfo>, now: real, p: string -> bool)
    requires MapAddresses(m, p) && forall info | info in infos :: p(info.ipAddress)
    ensures MapAddresses(AddAllOutbound(m, infos, now), p)
  {
    hide PeerIdOf;
    if infos != [] {
      var n := |infos| - 1;
      assert infos[n] in infos && forall info | info in infos[..n] :: info in infos;
      AddAllAddresses(m, infos[..n], now, p);
      SetAddresses(AddAllOutbound(m, infos[..n], now), NewPeer(infos[n], now), p);
    }
  }

  lemma TriggersAddresses(c: PoolConfig, limit: nat, m: PeerMap, news: seq<PeerInfo>, tried: seq<PeerInfo>, now: real,
                          m': PeerMap, p: string -> bool)
    requires MapAddresses(m, p) && Triggers(c, limit, m, news, tried, now, m')
    requires forall info | info in news || info in tried || info in Missing(c.fixedPeers, m) :: p(info.ipAddress)
    ensures MapAddresses(m', p)
  {
    hide PeerIdOf;
    var selected :|
      && Selected(Disconnected(news, m, c.fixedPeers), Disconnected(tried, m, c.fixedPeers), limit - |m|, selected)
      && m' == AddAllOutbound(m, selected + Missing(c.fixedPeers, m), now);
    forall info | info in selected + Missing(c.fixedPeers, m) ensures p(info.ipAddress) {
      if info in selected { assert info in multiset(selected); }
    }
    AddAllAddresses(m, selected + Missing(c.fixedPeers, m), now, p);
  }

  lemma PoolStepAddresses(c: PoolConfig, s: Pool, e: P.Event, s': Pool, p: string -> bool)
    requires MapAddresses(s.inbound, p) && MapAddresses(s.outbound, p) && P.Step(c, s, e, s')
    requires e.InboundAdded? ==> p(e.peer.info.ipAddress)
    requires e.Triggered? ==>
      forall info | info in e.news || info in e.tried || info in Missing(c.fixedPeers, s.outbound) :: p(info.ipAddress)
    ensures MapAddresses(s'.inbound, p) && MapAddresses(s'.outbound, p)
  {
    hide Triggers, AddsInbound, PeerIdOf;
    match e
    case InboundAdded(peer, limit) => AddsInboundAddresses(c, limit, s.inbound, peer, s'.inbound, p);
    case InboundClosed(id) => DeleteAddresses(s.inbound, id, p);
    case OutboundClosed(id) => DeleteAddresses(s.outbound, id, p);
    case Triggered(news, tried, limit, now) =>
      TriggersAddresses(c, limit, s.outbound, news, tried, now, s'.outbound, p);
    case OutboundShuffled =>
      LosesOneAddresses(s.outbound, Unlisted(ValuesOf(s.outbound), IdsOf(c.fixedPeers)), s'.outbound, p);
    case Refreshed =>
  }

  lemma PoolStepOk(c: PoolConfig, s: Pool, e: P.Event, s': Pool)
    requires PoolOk(s) && P.Step(c, s, e, s')
    ensures PoolOk(s')
  {
    hide Triggers, AddsInbound, EvictsOutbound, PeerIdOf;
    P.StepKeepsOutboundOk(c, s, e, s');
    match e
    case InboundAdded(peer, limit) => AddsInboundOk(c, limit, s.inbound, peer, s'.inbound);
    case InboundClosed(id) => DeleteOk(s.inbound, id);
    case Refreshed => RefreshKeys(s.inbound, s'.inbound);
    case _ =>
  }

  lemma AddsInboundOk(c: PoolConfig, limit: nat, m: PeerMap, q: Protection.PoolPeer, m': PeerMap)
    requires MapOk(m) && q.id == PeerIdOf(q.info) && AddsInbound(c, limit, m, q, m')
    ensures MapOk(m')
  {
    hide Protection.EvictionCandidates, PeerIdOf;
    var mid :| (if |m| >= limit then EvictsInbound(c, m, mid) else mid == m)
      && m' == if Has(mid, q.id) then mid else Set(mid, q.id, q);
    if |m| >= limit {
      var candidates :|
        && Protection.EvictionCandidates(Unlisted(ValuesOf(m), IdsOf(c.whitelisted)), candidates, c.ratios)
        && LosesOne(m, candidates, mid);
      LosesOneOk(m, candidates, mid);
    }
    SetOk(mid, q);
  }

  // ----- the node keeps any property of addresses ------------------------------------------------

  // Book and pool are in order and all their addresses satisfy p.
  ghost predicate NodeAddresses(c: NodeConfig, s: Node, p: string -> bool) {
    && B.BookOk(c.book, s.book) && B.BookAddresses(s.book, p) && PoolOk(s.pool)
    && MapAddresses(s.pool.inbound, p) && MapAddresses(s.pool.outbound, p)
  }

  // The handshake passes all checks on address and query; a duplicate still reaches the book.
  predicate PassesChecks(c: NodeConfig, s: Node, h: Handshake) {
    Admit(c, s, h).Admitted? || Admit(c, s, h).Duplicate?
  }

  // The three ways for an address that does not satisfy p to come in from outside: a discovery that is added to the
  // book,
  ghost predicate DiscoveryLetsIn(c: NodeConfig, s: Node, e: Event, p: string -> bool) {
    e.Discovered? && !p(e.info.ipAddress) && DiscoverOps(c, s.book, e.info, e.a) != []
  }

  // a handshake whose peer is added to the pool, or that is a duplicate and added to the book,
  ghost predicate HandshakeLetsIn(c: NodeConfig, s: Node, e: Event, p: string -> bool) {
    && e.Inbound? && Incoming(e.h).Some? && !p(Incoming(e.h).value.ipAddress)
    && (Admit(c, s, e.h).Admitted? || (Admit(c, s, e.h).Duplicate? && AdmitOps(c, s, e.h, e.a) != []))
  }

  // and a population that connects to a fixed peer.
  ghost predicate PopulationLetsIn(c: NodeConfig, s: Node, e: Event, p: string -> bool) {
    e.Populated? && exists f :: f in Missing(c.pool.fixedPeers, s.pool.outbound) && !p(f.ipAddress)
  }

  ghost predicate Enters(c: NodeConfig, s: Node, e: Event, p: string -> bool) {
    DiscoveryLetsIn(c, s, e, p) || HandshakeLetsIn(c, s, e, p) || PopulationLetsIn(c, s, e, p)
  }

  lemma LocatedOpsAddresses(c: NodeConfig, s: Node, info: PeerInfo, a: Draw, b: Draw, p: string -> bool)
    requires NodeAddresses(c, s, p) && p(info.ipAddress)
    ensures forall op | op in ConnectOps(c, s.book, info, a, b) :: p(op.info.ipAddress)
    ensures forall op | op in UpdateOps(c, s.book, info, a, b) :: p(op.info.ipAddress)
  {
    hide B.BookOk, B.BookAddresses, B.FindPeer, B.BookFits, PoolOk;
    if B.BookFits(c.book, s.book, info) && B.FindPeer(c.book, s.book, info).Some? {
      R.FoundAddress(c.book, s.book, info, p);
    }
  }

  lemma BookOpsAddresses(c: NodeConfig, s: Node, e: Event, p: string -> bool)
    requires NodeAddresses(c, s, p) && !Enters(c, s, e, p)
    requires e.PeerConnected? || e.ConnectAborted? || e.InfoUpdated? ==> FromPool(s, e.info)
    ensures forall op | op in BookOps(c, s, e) :: op.Remove? || p(op.info.ipAddress)
  {
    hide B.BookOk, B.BookAddresses, B.FindPeer, B.BookFits, PoolOk, ConnectOps, UpdateOps, PeerIdOf;
    match e
    case PeerConnected(info, a, b) => LocatedOpsAddresses(c, s, info, a, b, p);
    case InfoUpdated(info, a, b) => LocatedOpsAddresses(c, s, info, a, b, p);
    case _ =>
  }

  lemma StepKeepsAddresses(c: NodeConfig, s: Node, e: Event, s': Node, p: string -> bool)
    requires NodeAddresses(c, s, p) && !Enters(c, s, e, p) && Step(c, s, e, s')
    ensures NodeAddresses(c, s', p)
  {
    BookStepAddresses(c, s, e, s', p);
    PoolPartAddresses(c, s, e, s'.pool, p);
  }

  lemma BookStepAddresses(c: NodeConfig, s: Node, e: Event, s': Node, p: string -> bool)
    requires NodeAddresses(c, s, p) && !Enters(c, s, e, p) && Step(c, s, e, s')
    ensures B.BookOk(c.book, s'.book) && B.BookAddresses(s'.book, p)
  {
    hide B.BookOk, B.BookAddresses, BookOps, PoolStep, PoolOk;
    BookOpsAddresses(c, s, e, p);
    R.RunOk(c.book, s.book, BookOps(c, s, e), p);
  }

  lemma PoolPartAddresses(c: NodeConfig, s: Node, e: Event, pool: Pool, p: string -> bool)
    requires NodeAddresses(c, s, p) && !Enters(c, s, e, p) && PoolStep(c, s, e, pool)
    ensures PoolOk(pool) && MapAddresses(pool.inbound, p) && MapAddresses(pool.outbound, p)
  {
    hide P.Step, PoolOk, MapAddresses, PeerIdOf, NormalizeAddress;
    match e
    case Inbound(h, limit, now, _) =>
      if Admit(c, s, h).Admitted? && Incoming(h).Some? {
        var pe := P.InboundAdded(NewPeer(Incoming(h).value, now), limit);
        PoolStepOk(c.pool, s.pool, pe, pool);
        PoolStepAddresses(c.pool, s.pool, pe, pool, p);
      }
    case Populated(limit, now) =>
      var pe := P.Triggered(AllInfos(s.book.newPeers), AllInfos(s.book.triedPeers), limit, now);
      BookInfosAddresses(c, s, p);
      PoolStepOk(c.pool, s.pool, pe, pool);
      PoolStepAddresses(c.pool, s.pool, pe, pool, p);
    case PoolChanged(pe) =>
      PoolStepOk(c.pool, s.pool, pe, pool);
      PoolStepAddresses(c.pool, s.pool, pe, pool, p);
    case _ =>
  }

  lemma BookInfosAddresses(c: NodeConfig, s: Node, p: string -> bool)
    requires B.BookOk(c.book, s.book) && B.BookAddresses(s.book, p)
    ensures forall info | info in AllInfos(s.book.newPeers) || info in AllInfos(s.book.triedPeers) :: p(info.ipAddress)
  {
    forall b | 0 <= b < |s.book.newPeers| ensures Distinct(s.book.newPeers[b]) {
      assert BucketOk(c.book.newList, b, s.book.newPeers[b]);
    }
    forall b | 0 <= b < |s.book.triedPeers| ensures Distinct(s.book.triedPeers[b]) {
      assert BucketOk(c.book.triedList, b, s.book.triedPeers[b]);
    }
    R.AllInfosAddresses(s.book.newPeers, p);
    R.AllInfosAddresses(s.book.triedPeers, p);
  }

  // ----- runs ------------------------------------------------------------------------------------

  ghost predicate StepAt(c: NodeConfig, states: seq<Node>, events: seq<Event>, i: nat) {
    i < |events| && i + 1 < |states| && Step(c, states[i], events[i], states[i + 1])
  }

  ghost predicate IsRun(c: NodeConfig, states: seq<Node>, events: seq<Event>) {
    |states| == |events| + 1 && forall i: nat | i < |events| :: StepAt(c, states, events, i)
  }

  ghost predicate NothingEnters(c: NodeConfig, states: seq<Node>, events: seq<Event>, p: string -> bool)
    requires |states| == |events| + 1
  {
    forall i: nat | i < |events| :: !Enters(c, states[i], events[i], p)
  }

  ghost predicate AlwaysAddresses(c: NodeConfig, states: seq<Node>, p: string -> bool) {
    forall i: nat | i < |states| :: NodeAddresses(c, states[i], p)
  }

  lemma {:induction false} RunKeepsAddresses(c: NodeConfig, states: seq<Node>, events: seq<Event>, p: string -> bool,
                                             i: nat)
    requires IsRun(c, states, events) && i < |states| && |states| == |events| + 1
    requires NodeAddresses(c, states[0], p) && NothingEnters(c, states, events, p)
    ensures NodeAddresses(c, states[i], p)
  {
    hide NodeAddresses, Enters, Step;
    if i > 0 {
      RunKeepsAddresses(c, states, events, p, i - 1);
      assert StepAt(c, states, events, i - 1);
      StepKeepsAddresses(c, states[i - 1], events[i - 1], states[i], p);
    }
  }

  // ----- whatever comes in is there afterwards ---------------------------------------------------

  lemma AddShows(c: B.BookConfig, s: B.Book, info: PeerInfo, a: Draw, p: string -> bool)
    requires B.BookOk(c, s) && B.BookFits(c, s, info) && B.FindPeer(c, s, info).None? && !p(info.ipAddress)
    ensures !B.BookAddresses(B.Run(c, s, [B.Add(info, a.now, a.random)]), p)
  {
    hide PeerIdOf, Addressable, BucketAdd, PlacedAt;
    var cfg, op := c.newList, B.Add(info, a.now, a.random);
    R.RunOne(c, s, op);
    var b, k := cfg.SelectBucket(info.ipAddress), PeerIdOf(info);
    var bucket := s.newPeers[b];
    assert BucketOk(cfg, b, bucket);
    HasIffKey(bucket, k);
    BucketAddSpec(cfg, bucket, k, info, a.now, a.random);
    var s' := B.Run(c, s, [op]);
    assert s'.newPeers[b] == BucketAdd(cfg, bucket, k, info, a.now, a.random);
    assert Dict(s'.newPeers[b])[k].info == info;
  }

  // The id looked up for a handshake is that of the peer added; so it is for real addresses and for fixed points
  // of `normalizeAddress`.
  predicate ConsistentId(h: Handshake) {
    Incoming(h).Some? ==> PeerIdOf(Incoming(h).value) == PeerIdOf(h.info)
  }

  lemma ConsistentIds(h: Handshake)
    requires IsSupported(h.info.ipAddress) || Form(h.info.ipAddress) == Some(h.info.ipAddress)
    ensures ConsistentId(h)
  {
    hide NormalizeAddress, IsSupported, GetPeerId;
    if IsSupported(h.info.ipAddress) { PeerIdOfNormalForm(h.info.ipAddress, h.info.wsPort); }
  }

  lemma HandshakeShows(c: NodeConfig, s: Node, e: Event, s': Node, p: string -> bool)
    requires NodeAddresses(c, s, p) && Step(c, s, e, s') && HandshakeLetsIn(c, s, e, p) && ConsistentId(e.h)
    ensures !NodeAddresses(c, s', p)
  {
    hide B.BookOk, B.BookAddresses, PeerIdOf, NormalizeAddress, B.FindPeer, B.BookFits, MapOk, AddsInbound;
    var incoming := Incoming(e.h).value;
    if Admit(c, s, e.h).Admitted? {
      var q := NewPeer(incoming, e.now);
      AddsWhenAbsent(c.pool, e.limit, s.pool.inbound, q, s'.pool.inbound);
      GetShows(s'.pool.inbound, q, p);
    } else {
      AddShows(c.book, s.book, incoming, e.a, p);
    }
  }

  lemma GetShows(m: PeerMap, q: Protection.PoolPeer, p: string -> bool)
    requires Get(m, q.id) == Some(q) && !p(q.info.ipAddress)
    ensures !MapAddresses(m, p)
  {
    assert m[IndexOf(m, q.id)].1 == q;
  }

  // Whoever has the id of a fixed peer outside p is outside p as well.
  ghost predicate IdFaithful(c: NodeConfig, p: string -> bool) {
    forall f: PeerInfo, x: PeerInfo
      | f in c.pool.fixedPeers && !p(f.ipAddress) && (x in c.pool.fixedPeers || Addressable(x.ipAddress))
        && PeerIdOf(x) == PeerIdOf(f)
      :: !p(x.ipAddress)
  }

  lemma {:induction false} AddAllFrom(m: PeerMap, infos: seq<PeerInfo>, now: real, i: nat)
    requires i < |AddAllOutbound(m, infos, now)|
    ensures var q := AddAllOutbound(m, infos, now)[i];
      Has(m, q.0) || q.1.info in infos
  {
    hide PeerIdOf;
    if infos == [] {
      StoredHas(m, i);
    } else {
      var n := |infos| - 1;
      var before := AddAllOutbound(m, infos[..n], now);
      assert infos == infos[..n] + [infos[n]];
      if i < |before| { AddAllFrom(m, infos[..n], now, i); }
    }
  }

  lemma StoredHas(m: PeerMap, i: nat)
    requires i < |m|
    ensures Has(m, m[i].0)
  {}

  lemma FixedShows(c: NodeConfig, limit: nat, m: PeerMap, news: seq<PeerInfo>, tried: seq<PeerInfo>, now: real,
                   m': PeerMap, f: PeerInfo, p: string -> bool)
    requires MapOk(m) && Triggers(c.pool, limit, m, news, tried, now, m') && IdFaithful(c, p)
    requires forall x | x in news || x in tried :: Addressable(x.ipAddress)
    requires f in Missing(c.pool.fixedPeers, m) && !p(f.ipAddress)
    ensures !MapAddresses(m', p)
  {
    hide PeerIdOf, Addressable, AddAllOutbound, Missing, Disconnected, MapOk, IdsOf, Has;
    var missing := Missing(c.pool.fixedPeers, m);
    var dn, dt := Disconnected(news, m, c.pool.fixedPeers), Disconnected(tried, m, c.pool.fixedPeers);
    var selected :| Selected(dn, dt, limit - |m|, selected) && m' == AddAllOutbound(m, selected + missing, now);
    MissingFrom(c.pool.fixedPeers, m, f);
    var x := ConnectedUnder(m, selected + missing, now, f);
    if x.info in selected {
      assert x.info in multiset(selected);
      assert x.info in multiset(dn) + multiset(dt);
      DisconnectedFrom(news, m, c.pool.fixedPeers);
      DisconnectedFrom(tried, m, c.pool.fixedPeers);
    } else {
      MissingFrom(c.pool.fixedPeers, m, x.info);
    }
  }

  lemma MissingFrom(peers: seq<PeerInfo>, m: PeerMap, f: PeerInfo)
    requires f in Missing(peers, m)
    ensures f in peers && !Has(m, PeerIdOf(f))
  {}

  lemma DisconnectedFrom(peers: seq<PeerInfo>, m: PeerMap, fixedPeers: seq<PeerInfo>)
    ensures forall x | x in Disconnected(peers, m, fixedPeers) :: x in peers
  {}

  // The entry under the id of a peer that was connected just now is of one of the peers connected.
  lemma ConnectedUnder(m: PeerMap, infos: seq<PeerInfo>, now: real, f: PeerInfo) returns (x: Protection.PoolPeer)
    requires MapOk(m) && f in infos && !Has(m, PeerIdOf(f))
    ensures x.info in infos && PeerIdOf(x.info) == PeerIdOf(f)
    ensures forall p: string -> bool :: MapAddresses(AddAllOutbound(m, infos, now), p) ==> p(x.info.ipAddress)
  {
    hide PeerIdOf, AddAllOutbound, Has;
    var m' := AddAllOutbound(m, infos, now);
    AddAllOk(m, infos, now);
    var j :| 0 <= j < |infos| && infos[j] == f;
    IdsOfMember(infos, j);
    var i :| 0 <= i < |m'| && m'[i].0 == PeerIdOf(f);
    AddAllFrom(m, infos, now, i);
    x := m'[i].1;
  }

  lemma PopulationShows(c: NodeConfig, s: Node, e: Event, s': Node, p: string -> bool)
    requires NodeAddresses(c, s, p) && Step(c, s, e, s') && PopulationLetsIn(c, s, e, p) && IdFaithful(c, p)
    ensures !NodeAddresses(c, s', p)
  {
    hide PeerIdOf, Addressable, MapOk, Triggers, MapAddresses, ListOk, IdFaithful;
    var f :| f in Missing(c.pool.fixedPeers, s.pool.outbound) && !p(f.ipAddress);
    R.AllStoredAddressable(c.book, s.book);
    BookInfosAddresses(c, s, Addressable);
    FixedShows(c, e.limit, s.pool.outbound, AllInfos(s.book.newPeers), AllInfos(s.book.triedPeers), e.now,
               s'.pool.outbound, f, p);
  }

  lemma EntersShows(c: NodeConfig, s: Node, e: Event, s': Node, p: string -> bool)
    requires NodeAddresses(c, s, p) && Step(c, s, e, s') && Enters(c, s, e, p) && IdFaithful(c, p)
    requires HandshakeLetsIn(c, s, e, p) ==> ConsistentId(e.h)
    ensures !NodeAddresses(c, s', p)
  {
    hide B.BookOk, B.BookAddresses, MapAddresses, PoolOk, PoolStep, Admit, AdmitOps, ConsistentId,
      IdFaithful, Addressable, PeerIdOf, B.FindPeer, Incoming;
    match e
    case Discovered(info, a) => AddShows(c.book, s.book, info, a, p);
    case Inbound(_, _, _, _) => HandshakeShows(c, s, e, s', p);
    case Populated(_, _) => PopulationShows(c, s, e, s', p);
    case _ =>
  }

  // All addresses of book and pool satisfy p over the whole run exactly when they do at the start and no step lets
  // in another.
  lemma RunAddressesIff(c: NodeConfig, states: seq<Node>, events: seq<Event>, p: string -> bool)
    requires |states| == |events| + 1 && IsRun(c, states, events) && IdFaithful(c, p)
    requires forall i: nat | i < |events| && HandshakeLetsIn(c, states[i], events[i], p) :: ConsistentId(events[i].h)
    ensures AlwaysAddresses(c, states, p) <==> NodeAddresses(c, states[0], p) && NothingEnters(c, states, events, p)
  {
    hide NodeAddresses, Step, DiscoveryLetsIn, HandshakeLetsIn, PopulationLetsIn, IdFaithful, ConsistentId;
    if NodeAddresses(c, states[0], p) {
      if NothingEnters(c, states, events, p) {
        forall i: nat | i < |states| ensures NodeAddresses(c, states[i], p) {
          RunKeepsAddresses(c, states, events, p, i);
        }
      } else {
        var i: nat :| i < |events| && Enters(c, states[i], events[i], p);
        assert StepAt(c, states, events, i);
        if NodeAddresses(c, states[i], p) {
          EntersShows(c, states[i], events[i], states[i + 1], p);
        }
      }
    }
  }

  // ----- the start -------------------------------------------------------------------------------

  function NotBlacklistedIn(c: NodeConfig): string -> bool {
    ip => ip !in c.blacklistedIPs
  }

  // The node as it starts: configured with sanitised lists.
  ghost predicate StartsWith(c: NodeConfig, s: Node, lists: PeerLists, a: Draw) {
    && c.book.Valid()
    && SanitizePeerLists(lists, c.blacklistedIPs).Some?
    && var clean := SanitizePeerLists(lists, c.blacklistedIPs).value;
    && c.pool.fixedPeers == clean.fixedPeers && c.pool.whitelisted == clean.whitelisted
    && s == InitialNode(c, clean, a)
  }

  lemma {:induction false} StartOpsFrom(ps: seq<PeerInfo>, a: Draw)
    ensures forall op | op in AddOps(ps, a) :: op.info in ps
    ensures forall op | op in UpgradeOps(ps, a) :: op.info in ps
    ensures forall op | op in PreviousOps(ps, a) :: op.info in ps
  {
    if ps != [] { StartOpsFrom(ps[..|ps| - 1], a); }
  }

  lemma InitialAddresses(c: NodeConfig, lists: PeerLists, a: Draw, p: string -> bool)
    requires c.book.Valid()
    requires forall info | info in AllPeers(lists) :: p(info.ipAddress)
    ensures NodeAddresses(c, InitialNode(c, lists, a), p)
  {
    hide B.Run, PeerIdOf;
    EmptyAddresses(c, p);
    StartOpsFrom(lists.previousPeers, a);
    StartOpsFrom(lists.seedPeers + lists.whitelisted, a);
    StartOpsFrom(lists.whitelisted, a);
    R.RunOk(c.book, R.EmptyBook(c.book), StartOps(lists, a), p);
  }

  lemma EmptyAddresses(c: NodeConfig, p: string -> bool)
    requires c.book.Valid()
    ensures B.BookAddresses(R.EmptyBook(c.book), p) && B.BookOk(c.book, R.EmptyBook(c.book))
  {}

  // Whatever happens, from the sanitised lists on, no listed text ever enters the book or the pool as an address:
  // not by admission, discovery, connection, update or population.
  lemma BlacklistHolds(c: NodeConfig, lists: PeerLists, a: Draw, states: seq<Node>, events: seq<Event>, i: nat)
    requires |states| == |events| + 1 && IsRun(c, states, events) && StartsWith(c, states[0], lists, a) && i < |states|
    ensures B.BookAddresses(states[i].book, NotBlacklistedIn(c))
    ensures MapAddresses(states[i].pool.inbound, NotBlacklistedIn(c))
    ensures MapAddresses(states[i].pool.outbound, NotBlacklistedIn(c))
  {
    hide B.BookAddresses, MapAddresses, IsRun, InitialNode;
    SanitizedLists(lists, c.blacklistedIPs);
    var clean := SanitizePeerLists(lists, c.blacklistedIPs).value;
    InitialAddresses(c, clean, a, NotBlacklistedIn(c));
    forall i: nat | i < |events| ensures !Enters(c, states[i], events[i], NotBlacklistedIn(c)) {}
    RunKeepsAddresses(c, states, events, NotBlacklistedIn(c), i);
  }

  // ----- one flat book over whole node runs ------------------------------------------------------

  // The node's connections come from real addresses, banned ids are ids of peers, and the discovered addresses
  // are in `p` unless they have no bucket.
  ghost predicate EventIn(e: Event, p: string -> bool) {
    && (e.Discovered? && Addressable(e.info.ipAddress) ==> p(e.info.ipAddress))
    && (e.Inbound? ==> IsSupported(e.h.info.ipAddress))
    && (e.Banned? ==> exists ip, port :: IsSupported(ip) && GetPeerId(ip, port) == Some(e.peerId))
  }

  // All addresses in `p`, which has all normal forms and is coherent for both lists of the book.
  ghost predicate TidyNode(c: NodeConfig, s: Node, p: string -> bool) {
    && B.TidyBook(c.book, s.book, p) && NodeAddresses(c, s, p)
    && (forall f | f in c.pool.fixedPeers :: p(f.ipAddress))
    && forall ip | IsNormalIp(ip) :: p(ip)
  }

  lemma NothingElseEnters(c: NodeConfig, s: Node, e: Event, p: string -> bool)
    requires TidyNode(c, s, p) && EventIn(e, p)
    ensures !Enters(c, s, e, p)
    ensures e.Inbound? ==> Incoming(e.h).Some? && IsNormalIp(Incoming(e.h).value.ipAddress)
  {
    hide IsNormalIp, IsSupported, NormalizeAddress, GetPeerId, B.TidyBook, NodeAddresses, B.FindPeer, Addressable;
    if e.Inbound? { NormalizeSupported(e.h.info.ipAddress); }
  }

  lemma BannedHostNormal(e: Event, p: string -> bool)
    requires EventIn(e, p) && e.Banned?
    ensures GetHost(e.peerId).Some? && GetPort(e.peerId).Some? && IsNormalIp(GetHost(e.peerId).value)
  {
    hide IsNormalIp, IsSupported, NormalizeAddress, GetPeerId, GetHost, GetPort, Addressable;
    var ip, port :| IsSupported(ip) && GetPeerId(ip, port) == Some(e.peerId);
    PeerIdRoundTrip(ip, port);
    NormalizeSupported(ip);
  }

  lemma TidyOps(c: NodeConfig, s: Node, e: Event, p: string -> bool)
    requires TidyNode(c, s, p) && EventIn(e, p)
    requires e.PeerConnected? || e.ConnectAborted? || e.InfoUpdated? ==> FromPool(s, e.info)
    ensures R.AllIn(BookOps(c, s, e), p)
  {
    hide IsNormalIp, B.TidyBook, B.FindPeer, B.BookFits, PeerIdOf, ConnectOps, UpdateOps, Admit, NodeAddresses,
      GetHost, GetPort, Incoming, Addressable, PassesChecks, Enters, EventIn;
    var ops := BookOps(c, s, e);
    NothingElseEnters(c, s, e, p);
    BookOpsAddresses(c, s, e, p);
    OpsAddressable(c, s, e, p);
    if e.Banned? { BannedHostNormal(e, p); }
    forall i | 0 <= i < |ops| ensures Within(p, ops[i].info) {
      assert ops[i] in ops;
      NoOtherRemovals(c, s, e);
    }
  }

  // Every call is about an address that has a bucket.
  lemma OpsAddressable(c: NodeConfig, s: Node, e: Event, p: string -> bool)
    requires NodeAddresses(c, s, p)
    ensures forall op | op in BookOps(c, s, e) :: Addressable(op.info.ipAddress)
  {
    hide B.FindPeer, PeerIdOf, Admit, GetHost, GetPort, Incoming, Addressable, B.BookAddresses, PoolOk, MapAddresses,
      ListOk;
    if (e.PeerConnected? || e.InfoUpdated?) && B.BookFits(c.book, s.book, e.info)
       && B.FindPeer(c.book, s.book, e.info).Some? {
      R.StoredIsAddressable(c.book, s.book, e.info);
    }
  }

  lemma NoOtherRemovals(c: NodeConfig, s: Node, e: Event)
    ensures forall op | op in BookOps(c, s, e) && op.Remove? ::
      || (e.Banned? && GetHost(e.peerId).Some? && op.info.ipAddress == GetHost(e.peerId).value)
      || (e.Inbound? && Incoming(e.h).Some? && op.info == Incoming(e.h).value)
  {
    hide B.FindPeer, B.BookFits, PeerIdOf, Admit, GetHost, GetPort, Incoming, Addressable;
  }

  lemma StepKeepsTidy(c: NodeConfig, s: Node, e: Event, s': Node, p: string -> bool)
    requires TidyNode(c, s, p) && EventIn(e, p) && Step(c, s, e, s')
    ensures TidyNode(c, s', p)
  {
    hide B.TidyBook, NodeAddresses, BookOps, PoolStep, IsNormalIp, Enters, EventIn;
    NothingElseEnters(c, s, e, p);
    TidyOps(c, s, e, p);
    StepKeepsAddresses(c, s, e, s', p);
    R.RunStaysTidy(c.book, s.book, BookOps(c, s, e), p);
  }

  // Over every run on coherent addresses the book stays one flat map: no id in two buckets or tiers, every entry
  // where its own address and port say.
  lemma {:induction false} RunKeepsTidy(c: NodeConfig, states: seq<Node>, events: seq<Event>, i: nat, p: string -> bool)
    requires IsRun(c, states, events) && i < |states| && |states| == |events| + 1
    requires TidyNode(c, states[0], p) && forall e | e in events :: EventIn(e, p)
    ensures TidyNode(c, states[i], p)
  {
    hide TidyNode, EventIn, Step;
    if i > 0 {
      RunKeepsTidy(c, states, events, i - 1, p);
      assert StepAt(c, states, events, i - 1) && events[i - 1] in events;
      StepKeepsTidy(c, states[i - 1], events[i - 1], states[i], p);
    }
  }

  lemma SanitizedNormal(lists: PeerLists, blacklistedIPs: seq<string>)
    requires forall p | p in AllPeers(lists) :: IsSupported(p.ipAddress)
    ensures SanitizePeerLists(lists, blacklistedIPs).Some?
    ensures forall p | p in AllPeers(SanitizePeerLists(lists, blacklistedIPs).value) :: IsNormalIp(p.ipAddress)
  {
    hide IsNormalIp, IsSupported, PeerIdOf, SanitizePeerInfo;
    SupportedLists(lists.seedPeers);
    SupportedLists(lists.fixedPeers);
    SupportedLists(lists.whitelisted);
    SupportedLists(lists.previousPeers);
  }

  lemma StartOpsNormal(lists: PeerLists, a: Draw)
    requires forall p | p in AllPeers(lists) :: IsNormalIp(p.ipAddress)
    ensures R.AllIn(StartOps(lists, a), IsNormalIp)
  {
    hide IsNormalIp, AddOps, UpgradeOps, PreviousOps, Addressable;
    StartOpsFrom(lists.previousPeers, a);
    StartOpsFrom(lists.seedPeers + lists.whitelisted, a);
    StartOpsFrom(lists.whitelisted, a);
    var ops := StartOps(lists, a);
    forall i | 0 <= i < |ops| ensures Within(IsNormalIp, ops[i].info) {
      assert ops[i] in ops;
      NormalIsAddressable(ops[i].info.ipAddress);
    }
  }

  // Configured with supported addresses, the node starts in such a state, for any coherent `p` that has all
  // normal forms; the normal forms alone are coherent whatever the hash.
  lemma InitialTidy(c: NodeConfig, lists: PeerLists, a: Draw, s: Node, p: string -> bool)
    requires StartsWith(c, s, lists, a) && forall info | info in AllPeers(lists) :: IsSupported(info.ipAddress)
    requires Coherent(c.book.newList, p) && Coherent(c.book.triedList, p) && forall ip | IsNormalIp(ip) :: p(ip)
    ensures TidyNode(c, s, p)
  {
    hide IsNormalIp, IsSupported, B.TidyBook, B.Run, NodeAddresses, AllPeers, StartOps, SanitizePeerLists, Addressable,
      Coherent;
    var clean := SanitizePeerLists(lists, c.blacklistedIPs).value;
    SanitizedNormal(lists, c.blacklistedIPs);
    FixedAmongAll(clean);
    InitialAddresses(c, clean, a, p);
    StartOpsNormal(clean, a);
    R.EmptyBookTidy(c.book, p);
    R.RunStaysTidy(c.book, R.EmptyBook(c.book), StartOps(clean, a), p);
  }

  lemma FixedAmongAll(lists: PeerLists)
    ensures forall f | f in lists.fixedPeers :: f in AllPeers(lists)
  {}

  lemma InitialNormal(c: NodeConfig, lists: PeerLists, a: Draw, s: Node)
    requires StartsWith(c, s, lists, a) && forall info | info in AllPeers(lists) :: IsSupported(info.ipAddress)
    ensures TidyNode(c, s, IsNormalIp)
  {
    NormalCoherent(c.book.newList);
    NormalCoherent(c.book.triedList);
    InitialTidy(c, lists, a, s, IsNormalIp);
  }

  // ----- connection limits over whole node runs --------------------------------------------------

  ghost predicate EventLimits(e: Event, inbound: nat, outbound: nat) {
    (e.Inbound? ==> e.limit <= inbound) && (e.Populated? ==> e.limit <= outbound)
  }

  lemma StepKeepsLimits(c: NodeConfig, s: Node, e: Event, s': Node, inbound: nat, outbound: nat)
    requires P.AlwaysRoom(c.pool.ratios, inbound, P.WhitelistSize(c.pool))
    requires Step(c, s, e, s') && EventLimits(e, inbound, outbound)
    requires P.WithinLimits(c.pool, s.pool, inbound, outbound)
    ensures P.WithinLimits(c.pool, s'.pool, inbound, outbound)
  {
    hide P.Step, PeerIdOf, MapOk, Admit, P.Unfixed, P.AlwaysRoom;
    match e
    case Inbound(h, limit, now, _) =>
      if Admit(c, s, h).Admitted? && Incoming(h).Some? {
        var pe := P.InboundAdded(NewPeer(Incoming(h).value, now), limit);
        P.StepKeepsInbound(c.pool, s.pool, pe, s'.pool, inbound);
        P.StepKeepsOutbound(c.pool, s.pool, pe, s'.pool, outbound);
      }
    case Populated(limit, now) =>
      var pe := P.Triggered(AllInfos(s.book.newPeers), AllInfos(s.book.triedPeers), limit, now);
      P.StepKeepsInbound(c.pool, s.pool, pe, s'.pool, inbound);
      P.StepKeepsOutbound(c.pool, s.pool, pe, s'.pool, outbound);
    case PoolChanged(pe) =>
      P.StepKeepsInbound(c.pool, s.pool, pe, s'.pool, inbound);
      P.StepKeepsOutbound(c.pool, s.pool, pe, s'.pool, outbound);
    case _ =>
  }

  lemma {:induction false} NodeWithinLimits(c: NodeConfig, states: seq<Node>, events: seq<Event>, inbound: nat,
                                            outbound: nat, i: nat)
    requires IsRun(c, states, events) && i < |states| && |states| == |events| + 1
    requires P.AlwaysRoom(c.pool.ratios, inbound, P.WhitelistSize(c.pool))
    requires forall e | e in events :: EventLimits(e, inbound, outbound)
    requires P.WithinLimits(c.pool, states[0].pool, inbound, outbound)
    ensures P.WithinLimits(c.pool, states[i].pool, inbound, outbound)
  {
    hide P.WithinLimits, P.AlwaysRoom, P.WhitelistSize, EventLimits, Step;
    if i > 0 {
      NodeWithinLimits(c, states, events, inbound, outbound, i - 1);
      assert events[i - 1] in events;
      assert StepAt(c, states, events, i - 1);
      StepKeepsLimits(c, states[i - 1], events[i - 1], states[i], inbound, outbound);
    }
  }
}
