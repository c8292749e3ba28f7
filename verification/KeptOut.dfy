// Which addresses stay out of book and pool over whole runs of the node: those of the blacklist, and those of
// banned hosts.
module KeptOut {
  import opened Wrappers
  import opened Text
  import opened OrderedMap
  import opened Address
  import opened PeerId
  import opened Bucket
  import opened Peers
  import opened Buckets
  import opened Lists
  import opened Pools
  import opened Sanitize
  import opened Nodes
  import opened NodeRuns
  import opened NodeEffects
  import B = Books
  import R = BookRuns
  import Protection

  // ----- the blacklist over whole runs -----------------------------------------------------------

  // Addresses that are no spelling of a blacklisted one.
  function NotSpelled(c: NodeConfig): string -> bool {
    ip => !SpellsListed(c.blacklistedIPs, ip)
  }

  ghost predicate NoDiscoveryLetsIn(c: NodeConfig, states: seq<Node>, events: seq<Event>, p: string -> bool)
    requires |states| == |events| + 1
  {
    forall i: nat | i < |events| :: !DiscoveryLetsIn(c, states[i], events[i], p)
  }

  lemma IncomingFixed(h: Handshake)
    requires Incoming(h).Some?
    ensures Form(Incoming(h).value.ipAddress) == Some(Incoming(h).value.ipAddress)
  {
    NormalizeAddressIdempotent(h.info.ipAddress);
  }

  lemma StartNotSpelled(c: NodeConfig, lists: PeerLists, a: Draw, s: Node)
    requires StartsWith(c, s, lists, a) && ListsForms(c.blacklistedIPs)
    ensures NodeAddresses(c, s, NotSpelled(c)) && forall f | f in c.pool.fixedPeers :: NotSpelled(c)(f.ipAddress)
  {
    hide InitialNode, NodeAddresses, Form, SanitizePeerLists, SpellsListed, ListsForms;
    SanitizedFormsIff(c.blacklistedIPs);
    var clean := SanitizePeerLists(lists, c.blacklistedIPs).value;
    FixedAmongAll(clean);
    InitialAddresses(c, clean, a, NotSpelled(c));
  }

  lemma HandshakesCaught(c: NodeConfig, s: Node, e: Event)
    requires ListsForms(c.blacklistedIPs)
    ensures !HandshakeLetsIn(c, s, e, NotSpelled(c))
  {
    hide Form, SpellsListed, ListsForms, AdmitOps, Incoming;
    if HandshakeLetsIn(c, s, e, NotSpelled(c)) {
      IncomingFixed(e.h);
      FixedIsCaught(c.blacklistedIPs, Incoming(e.h).value.ipAddress);
      PassesUnlisted(c, s, e.h);
    }
  }

  lemma PassesUnlisted(c: NodeConfig, s: Node, h: Handshake)
    requires Incoming(h).Some? && (Admit(c, s, h).Admitted? || Admit(c, s, h).Duplicate?)
    ensures Incoming(h).value.ipAddress !in c.blacklistedIPs && Incoming(h).value.ipAddress !in s.banned
  {}

  // With the normal form of each entry on the blacklist, no spelling of a blacklisted address is in book or pool
  // over the whole run exactly when no discovery brings one in: there the check compares the literal text.
  lemma BlacklistedFormsIff(c: NodeConfig, lists: PeerLists, a: Draw, states: seq<Node>, events: seq<Event>)
    requires |states| == |events| + 1 && IsRun(c, states, events) && StartsWith(c, states[0], lists, a)
    requires ListsForms(c.blacklistedIPs)
    ensures AlwaysAddresses(c, states, NotSpelled(c)) <==> NoDiscoveryLetsIn(c, states, events, NotSpelled(c))
  {
    hide IsRun, StartsWith, NodeAddresses, DiscoveryLetsIn, HandshakeLetsIn, ListsForms, NotSpelled;
    StartNotSpelled(c, lists, a, states[0]);
    forall i: nat | i < |events|
      ensures !HandshakeLetsIn(c, states[i], events[i], NotSpelled(c))
      ensures !PopulationLetsIn(c, states[i], events[i], NotSpelled(c))
    {
      HandshakesCaught(c, states[i], events[i]);
    }
    RunAddressesIff(c, states, events, NotSpelled(c));
  }

  // Discovered addresses are fixed points of `normalizeAddress`.
  ghost predicate FixedPointEvents(events: seq<Event>) {
    forall e | e in events && e.Discovered? :: Form(e.info.ipAddress) == Some(e.info.ipAddress)
  }

  ghost predicate RunFrom(c: NodeConfig, start: Node, states: seq<Node>, events: seq<Event>) {
    |states| == |events| + 1 && IsRun(c, states, events) && states[0] == start
  }

  // So over every run in which discovered addresses are normalised the blacklist keeps every spelling of its
  // entries out exactly when it has the normal form of each.
  lemma BlacklistHoldsIff(c: NodeConfig, lists: PeerLists, a: Draw, start: Node)
    requires StartsWith(c, start, lists, a)
    ensures (forall states: seq<Node>, events: seq<Event>
               | RunFrom(c, start, states, events) && FixedPointEvents(events) ::
               AlwaysAddresses(c, states, NotSpelled(c)))
       <==> ListsForms(c.blacklistedIPs)
  {
    hide IsRun, StartsWith, AlwaysAddresses, FixedPointEvents, ListsForms, NotSpelled;
    if ListsForms(c.blacklistedIPs) {
      forall states: seq<Node>, events: seq<Event> | RunFrom(c, start, states, events) && FixedPointEvents(events)
        ensures AlwaysAddresses(c, states, NotSpelled(c))
      {
        FixedDiscoveriesSafe(c, lists, a, states, events);
      }
    } else {
      var b := UnlistedForm(c.blacklistedIPs);
      var states, events := ListedConnects(c, lists, a, start, b);
      assert RunFrom(c, start, states, events) && FixedPointEvents(events);
    }
  }

  lemma UnlistedForm(blacklistedIPs: seq<string>) returns (b: string)
    requires !ListsForms(blacklistedIPs)
    ensures b in blacklistedIPs && Form(b).Some? && Form(b).value !in blacklistedIPs
  {
    b :| b in blacklistedIPs && Form(b).Some? && Form(b).value !in blacklistedIPs;
  }

  lemma FixedDiscoveriesSafe(c: NodeConfig, lists: PeerLists, a: Draw, states: seq<Node>, events: seq<Event>)
    requires |states| == |events| + 1 && IsRun(c, states, events) && StartsWith(c, states[0], lists, a)
    requires ListsForms(c.blacklistedIPs) && FixedPointEvents(events)
    ensures AlwaysAddresses(c, states, NotSpelled(c))
  {
    hide IsRun, StartsWith, AlwaysAddresses, Form, ListsForms, SpellsListed;
    BlacklistedFormsIff(c, lists, a, states, events);
    forall i: nat | i < |events| ensures !DiscoveryLetsIn(c, states[i], events[i], NotSpelled(c)) {
      assert events[i] in events;
      if events[i].Discovered? { FixedIsCaught(c.blacklistedIPs, events[i].info.ipAddress); }
    }
  }

  // A handshake from any spelling of an entry whose normal form is not listed, the text of the entry included, is
  // admitted if nothing else speaks against it.
  lemma ListedIsAdmitted(c: NodeConfig, s: Node, b: string, h: Handshake)
    requires b in c.blacklistedIPs && Form(b).Some? && Form(b).value !in c.blacklistedIPs
    requires Form(h.info.ipAddress) == Form(b) && h.hasUrl && !h.ownNonce && h.queryOk && h.compatible
    requires Form(b).value !in s.banned && !Has(s.pool.inbound, PeerIdOf(h.info))
    ensures Admit(c, s, h).Admitted? && SpellsListed(c.blacklistedIPs, Incoming(h).value.ipAddress)
  {
    hide PeerIdOf, NormalizeAddress;
    FormOfForm(b);
  }

  // The run in which a peer with that normal form connects.
  lemma ListedConnects(c: NodeConfig, lists: PeerLists, a: Draw, start: Node, b: string)
    returns (states: seq<Node>, events: seq<Event>)
    requires StartsWith(c, start, lists, a)
    requires b in c.blacklistedIPs && Form(b).Some? && Form(b).value !in c.blacklistedIPs
    ensures RunFrom(c, start, states, events) && FixedPointEvents(events)
    ensures !AlwaysAddresses(c, states, NotSpelled(c))
  {
    hide Form, SpellsListed, NotSpelled, PeerIdOf, NodeAddresses, Step, Admit, Incoming, StartsWith;
    var h := Handshake(PeerInfo(Form(b).value, 0, false, 0, map[]), true, false, true, true);
    FormOfForm(b);
    StartPool(c, lists, a, start);
    ListedIsAdmitted(c, start, b, h);
    IncomingIs(h);
    var end := AdmittedStep(c, start, h, a);
    states, events := [start, end], [Inbound(h, 1, 0.0, a)];
    assert StepAt(c, states, events, 0);
    PeerShows(c, end, NewPeer(Incoming(h).value, 0.0));
    assert !NodeAddresses(c, states[1], NotSpelled(c));
  }

  // The step of an admitted handshake on an empty pool.
  lemma AdmittedStep(c: NodeConfig, s: Node, h: Handshake, a: Draw) returns (s': Node)
    requires s.pool == Pool([], []) && Admit(c, s, h).Admitted? && Incoming(h).Some?
    ensures Step(c, s, Inbound(h, 1, 0.0, a), s')
    ensures var peer := NewPeer(Incoming(h).value, 0.0);
      s'.pool.inbound == Set([], peer.id, peer)
  {
    hide Admit, Incoming, PeerIdOf, AdmitOps, B.Run;
    var peer := NewPeer(Incoming(h).value, 0.0);
    s' := Node(B.Run(c.book, s.book, AdmitOps(c, s, h, a)), Pool(Set([], peer.id, peer), []), s.banned);
    assert AddsInbound(c.pool, 1, [], peer, Set([], peer.id, peer));
  }

  lemma StartPool(c: NodeConfig, lists: PeerLists, a: Draw, start: Node)
    requires StartsWith(c, start, lists, a)
    ensures start.pool == Pool([], []) && start.banned == {}
  {}

  lemma IncomingIs(h: Handshake)
    requires Form(h.info.ipAddress).Some?
    ensures Incoming(h).Some? && Incoming(h).value.ipAddress == Form(h.info.ipAddress).value
  {}

  lemma PeerShows(c: NodeConfig, s: Node, peer: Protection.PoolPeer)
    requires s.pool.inbound == Set([], peer.id, peer) && SpellsListed(c.blacklistedIPs, peer.info.ipAddress)
    ensures !NodeAddresses(c, s, NotSpelled(c))
  {
    hide SpellsListed;
    assert s.pool.inbound[0].1 == peer;
  }

  // An upper-case spelling of a blacklisted private address is brought in by discovery, and is stored under the id
  // of the blacklisted address.
  lemma BlacklistedSpelling(c: NodeConfig, s: Node, rest: seq<string>, port: nat, a: Draw)
    requires |rest| == 7 && (forall g | g in rest :: IsGroup(g)) && c.book.Valid() && s.book == R.EmptyBook(c.book)
    requires var raw := Join(["FC00"] + rest, ':');
      raw !in c.blacklistedIPs && SpellsListed(c.blacklistedIPs, raw)
    ensures var raw := Join(["FC00"] + rest, ':');
      && Form(raw).Some?
      && PeerIdOf(HostInfo(raw, port)) == PeerIdOf(HostInfo(Form(raw).value, port))
      && DiscoveryLetsIn(c, s, Discovered(HostInfo(raw, port), a), NotSpelled(c))
  {
    hide Join, IsGroup, IsSupported, NormalizeAddress, GetPeerId, BucketBytes, Addressable, SpellsListed;
    var raw := Join(["FC00"] + rest, ':');
    UpperCaseNormalForm(rest);
    PeerIdOfNormalForm(raw, port);
    SupportedHasBucket(c.book.newList.hash, 0, raw, 1);
    AddressableHasBucket(c.book.newList.hash, 0, raw, 1);
    NothingFound(c.book, HostInfo(raw, port));
  }

  lemma NothingFound(c: B.BookConfig, info: PeerInfo)
    requires c.Valid() && Addressable(info.ipAddress)
    ensures B.BookFits(c, R.EmptyBook(c), info) && B.FindPeer(c, R.EmptyBook(c), info).None?
  {
    hide Addressable, PeerIdOf;
  }

  // ----- bans over whole runs --------------------------------------------------------------------

  // Addresses that are not spellings of the host.
  function NotHost(host: string): string -> bool {
    ip => Form(ip) != Some(host)
  }

  predicate NeverUnbanned(events: seq<Event>, host: string) {
    forall e | e in events && e.Unbanned? :: GetHost(e.peerId) != Some(host)
  }

  lemma {:induction false} StaysBanned(c: NodeConfig, states: seq<Node>, events: seq<Event>, host: string, i: nat)
    requires |states| == |events| + 1 && IsRun(c, states, events) && i < |states|
    requires host in states[0].banned && NeverUnbanned(events, host)
    ensures host in states[i].banned
  {
    hide PoolStep, BookOps, GetHost, B.Run;
    if i > 0 {
      StaysBanned(c, states, events, host, i - 1);
      assert StepAt(c, states, events, i - 1) && events[i - 1] in events;
    }
  }

  // No handshake from any spelling of a banned host lets it in.
  lemma BannedRefused(c: NodeConfig, s: Node, e: Event, host: string)
    requires host in s.banned
    ensures !HandshakeLetsIn(c, s, e, NotHost(host))
    ensures e.Inbound? && Form(e.h.info.ipAddress) == Some(host) ==>
      !Admit(c, s, e.h).Admitted? && !Admit(c, s, e.h).Duplicate?
  {
    hide Form, AdmitOps, Incoming;
    if e.Inbound? && (Admit(c, s, e.h).Admitted? || Admit(c, s, e.h).Duplicate?) {
      PassesIncoming(c, s, e.h);
      PassesUnlisted(c, s, e.h);
      IncomingFixed(e.h);
      FormOfIncoming(e.h);
    }
  }

  lemma PassesIncoming(c: NodeConfig, s: Node, h: Handshake)
    requires !Admit(c, s, h).Threw?
    ensures Incoming(h).Some?
  {}

  lemma FormOfIncoming(h: Handshake)
    requires Incoming(h).Some?
    ensures Form(h.info.ipAddress) == Some(Incoming(h).value.ipAddress)
  {}

  ghost predicate NormalFixedPeers(c: NodeConfig) {
    forall f | f in c.pool.fixedPeers :: IsNormalIp(f.ipAddress)
  }

  lemma HostIdFaithful(c: NodeConfig, host: string)
    requires NormalFixedPeers(c)
    ensures IdFaithful(c, NotHost(host))
  {
    hide IsNormalIp, Addressable, NormalizeAddress, GetPeerId;
    forall f: PeerInfo, x: PeerInfo
      | f in c.pool.fixedPeers && !NotHost(host)(f.ipAddress)
        && (x in c.pool.fixedPeers || Addressable(x.ipAddress)) && PeerIdOf(x) == PeerIdOf(f)
      ensures !NotHost(host)(x.ipAddress)
    {
      NormalIpFixed(f.ipAddress);
      if x in c.pool.fixedPeers { NormalIsAddressable(x.ipAddress); }
      SameIdSameForm(x, f);
    }
  }

  ghost predicate NoPopulationLetsIn(c: NodeConfig, states: seq<Node>, events: seq<Event>, p: string -> bool)
    requires |states| == |events| + 1
  {
    forall i: nat | i < |events| :: !PopulationLetsIn(c, states[i], events[i], p)
  }

  // As long as no unban names it, a banned host is in neither book nor pool over the whole run exactly when it is
  // not at the start, no discovery brings it in, and no population finds it among the fixed peers: these handlers
  // do not look at the bans.
  lemma BannedAbsentIff(c: NodeConfig, states: seq<Node>, events: seq<Event>, host: string)
    requires |states| == |events| + 1 && IsRun(c, states, events) && NormalFixedPeers(c)
    requires host in states[0].banned && NeverUnbanned(events, host)
    ensures AlwaysAddresses(c, states, NotHost(host))
       <==> NodeAddresses(c, states[0], NotHost(host))
            && NoDiscoveryLetsIn(c, states, events, NotHost(host))
            && NoPopulationLetsIn(c, states, events, NotHost(host))
  {
    hide IsRun, NodeAddresses, DiscoveryLetsIn, HandshakeLetsIn, PopulationLetsIn, NotHost, NeverUnbanned,
      NormalFixedPeers, IdFaithful, ConsistentId;
    HostIdFaithful(c, host);
    forall i: nat | i < |events| ensures !HandshakeLetsIn(c, states[i], events[i], NotHost(host)) {
      StaysBanned(c, states, events, host, i);
      BannedRefused(c, states[i], events[i], host);
    }
    RunAddressesIff(c, states, events, NotHost(host));
  }

  // A banned peer that is not whitelisted is not in the book afterwards, and its host is banned.
  lemma BannedIsRemoved(c: NodeConfig, s: Node, e: Event, s': Node, p: string -> bool)
    requires TidyNode(c, s, p) && EventIn(e, p) && e.Banned? && Step(c, s, e, s')
    ensures B.View(s'.book) == if IsWhitelisted(c, e.peerId) then B.View(s.book) else B.View(s.book) - {e.peerId}
    ensures GetHost(e.peerId).Some? && GetHost(e.peerId).value in s'.banned
    ensures s'.pool == s.pool
  {
    hide PeerIdOf, GetHost, GetPort, Addressable, ListOk, B.View, B.TidyBook, IsNormalIp, B.Apply, B.Run, EventIn,
      B.FindPeer, B.BookFits, IsWhitelisted, NodeAddresses;
    BanIdNormal(e, p);
    var info := HostInfo(GetHost(e.peerId).value, GetPort(e.peerId).value);
    B.TidyFits(c.book, s.book, info, p);
    B.FindInView(c.book, s.book, info, p);
    var op := B.Remove(info);
    B.StepRefines(c.book, s.book, op, p);
    R.RunOne(c.book, s.book, op);
    NoCalls(c.book, s.book);
  }

  // The book has an address of the host exactly when the flat map has.
  lemma AddressesInView(c: B.BookConfig, s: B.Book, q: string -> bool, p: string -> bool)
    requires B.TidyBook(c, s, q)
    ensures B.BookAddresses(s, p) <==> forall k | k in B.View(s) :: p(B.View(s)[k].entry.info.ipAddress)
  {
    hide Flat, AllAddresses, TidyList;
    FlatAddresses(c.newList, s.newPeers, q, p);
    FlatAddresses(c.triedList, s.triedPeers, q, p);
    MergedAddresses(Flat(s.newPeers), Flat(s.triedPeers), p);
    assert B.View(s) == B.Merged(Flat(s.newPeers), Flat(s.triedPeers));
    hide B.Merged;
  }

  lemma MergedAddresses(n: map<string, Entry>, t: map<string, Entry>, p: string -> bool)
    requires n.Keys !! t.Keys
    ensures (forall k | k in B.Merged(n, t) :: p(B.Merged(n, t)[k].entry.info.ipAddress))
       <==> (forall k | k in n :: p(n[k].info.ipAddress)) && (forall k | k in t :: p(t[k].info.ipAddress))
  {
    var m := B.Merged(n, t);
    if forall k | k in m :: p(m[k].entry.info.ipAddress) {
      forall k | k in n ensures p(n[k].info.ipAddress) { assert k in m && m[k].entry == n[k]; }
      forall k | k in t ensures p(t[k].info.ipAddress) { assert k in m && m[k].entry == t[k]; }
    }
  }

  lemma FlatAddresses(cfg: ListConfig, bs: Buckets, q: string -> bool, p: string -> bool)
    requires cfg.Valid() && TidyList(cfg, bs, q)
    ensures AllAddresses(bs, p) <==> forall k | k in Flat(bs) :: p(Flat(bs)[k].info.ipAddress)
  {
    hide Dict, TidyList, Flat, Unique;
    TidyUnique(cfg, bs, q);
    if AllAddresses(bs, p) {
      forall k | k in Flat(bs) ensures p(Flat(bs)[k].info.ipAddress) {
        var b := FlatSome(bs, k);
        FlatAt(bs, b, k);
      }
    } else {
      var b, k :| 0 <= b < |bs| && k in Dict(bs[b]) && !p(Dict(bs[b])[k].info.ipAddress);
      FlatAt(bs, b, k);
    }
  }

  // ----- the book from a ban on ------------------------------------------------------------------

  // Addresses with one id are in p together.
  ghost predicate Respects(p: string -> bool) {
    forall x: PeerInfo, y: PeerInfo
      | Addressable(x.ipAddress) && Addressable(y.ipAddress) && PeerIdOf(x) == PeerIdOf(y) && p(x.ipAddress)
      :: p(y.ipAddress)
  }

  lemma HostRespected(host: string)
    requires IsNormalIp(host)
    ensures Respects(NotHost(host))
  {
    hide IsNormalIp, Addressable, Form, GetPeerId;
    forall x: PeerInfo, y: PeerInfo
      | Addressable(x.ipAddress) && Addressable(y.ipAddress) && PeerIdOf(x) == PeerIdOf(y)
        && NotHost(host)(x.ipAddress)
      ensures NotHost(host)(y.ipAddress)
    {
      if Form(y.ipAddress) == Some(host) {
        FormGivesId(y.ipAddress, host, y.wsPort);
        SameIdSameForm(x, HostInfo(host, y.wsPort));
      }
    }
  }

  lemma FormGivesId(ip: string, host: string, port: nat)
    requires IsNormalIp(host) && Form(ip) == Some(host)
    ensures GetPeerId(ip, port) == GetPeerId(host, port)
  {
    hide IsNormalIp, IsIPv4, NormalizeIPv6;
    NormalIpFixed(host);
    if IsIPv6(ip) && HybridQuad(ip).Some? {
      HybridMeaning(ip);
    } else if IsIPv6(ip) && IsIPv4(host) {
      SomeColon(ip);
    }
  }

  // What is printed for an IPv6 text without a folded quad has colons.
  lemma SomeColon(ip: string)
    requires IsIPv6(ip) && NormalizeIPv6(ip).Some?
    ensures !IsIPv4(NormalizeIPv6(ip).value)
  {
    hide IsIPv4, NormalizeIPv6, IsIPv6;
    var groups := NormalizedShape(ip);
    CanonicalTextSplit(groups);
    if IsIPv4(CanonicalText(groups)) {
      IPv4Chars(CanonicalText(groups));
      SplitAtom(CanonicalText(groups), ':');
    }
  }

  // Some call of the step adds an address outside p to the book.
  ghost predicate BookLetsIn(c: NodeConfig, s: Node, e: Event, p: string -> bool) {
    exists op :: op in BookOps(c, s, e) && op.Add? && !p(op.info.ipAddress)
  }

  lemma FoundSameId(c: B.BookConfig, s: B.Book, info: PeerInfo)
    requires B.BookOk(c, s) && B.BookFits(c, s, info) && B.FindPeer(c, s, info).Some?
    ensures var found := B.FindPeer(c, s, info).value;
      PeerIdOf(found) == PeerIdOf(info) && Addressable(found.ipAddress)
  {
    hide Addressable, PeerIdOf;
    var i, j := c.newList.SelectBucket(info.ipAddress), c.triedList.SelectBucket(info.ipAddress);
    assert BucketOk(c.newList, i, s.newPeers[i]) && BucketOk(c.triedList, j, s.triedPeers[j]);
    HasIffKey(s.newPeers[i], PeerIdOf(info));
    HasIffKey(s.triedPeers[j], PeerIdOf(info));
  }

  // The reports of a peer that the book knows are about an address in p.
  lemma KnownIn(c: B.BookConfig, s: B.Book, info: PeerInfo, p: string -> bool)
    requires B.BookOk(c, s) && B.BookAddresses(s, p) && Respects(p)
    ensures B.BookFits(c, s, info) && B.FindPeer(c, s, info).Some? ==>
      p(B.FindPeer(c, s, info).value.ipAddress) && p(info.ipAddress)
  {
    hide B.BookOk, B.BookAddresses, B.FindPeer, Addressable, PeerIdOf, ListOk;
    if B.BookFits(c, s, info) && B.FindPeer(c, s, info).Some? {
      R.FoundAddress(c, s, info, p);
      FoundSameId(c, s, info);
    }
  }

  lemma BookOpsIn(c: NodeConfig, s: Node, e: Event, p: string -> bool)
    requires B.BookOk(c.book, s.book) && B.BookAddresses(s.book, p) && Respects(p) && !BookLetsIn(c, s, e, p)
    ensures forall op | op in BookOps(c, s, e) :: op.Remove? || p(op.info.ipAddress)
  {
    hide B.BookOk, B.BookAddresses, B.FindPeer, B.BookFits, Respects, PeerIdOf, Admit, GetHost, GetPort, Incoming;
    var ops := BookOps(c, s, e);
    if e.PeerConnected? || e.InfoUpdated? || e.ConnectAborted? { KnownIn(c.book, s.book, e.info, p); }
    if ops != [] && ops[0].Add? { assert ops[0] in ops && p(ops[0].info.ipAddress); }
  }

  lemma BookStepKeeps(c: NodeConfig, s: Node, e: Event, s': Node, p: string -> bool)
    requires B.BookOk(c.book, s.book) && B.BookAddresses(s.book, p) && Respects(p) && !BookLetsIn(c, s, e, p)
    requires s'.book == B.Run(c.book, s.book, BookOps(c, s, e))
    ensures B.BookAddresses(s'.book, p)
  {
    hide B.BookOk, B.BookAddresses, BookOps, Respects;
    BookOpsIn(c, s, e, p);
    R.RunOk(c.book, s.book, BookOps(c, s, e), p);
  }

  // A peer that is added and upgraded is in the tried list.
  lemma AddUpgradeShows(c: B.BookConfig, s: B.Book, info: PeerInfo, a: Draw, b: Draw, p: string -> bool)
    requires B.BookOk(c, s) && B.BookFits(c, s, info) && B.FindPeer(c, s, info).None? && !p(info.ipAddress)
    ensures !B.BookAddresses(B.Run(c, s, [B.Add(info, a.now, a.random), B.Upgrade(info, b.now, b.random)]), p)
  {
    hide PeerIdOf, Addressable, BucketAdd, PlacedAt;
    var add, upgrade := B.Add(info, a.now, a.random), B.Upgrade(info, b.now, b.random);
    R.RunTwo(c, s, add, upgrade);
    AddedIsFound(c.newList, s.newPeers, info, a);
    AddedIsStored(c.triedList, s.triedPeers, info, b);
    var s1 := B.Apply(c, s, add);
    assert s1 == s.(newPeers := Added(c.newList, s.newPeers, info, a.now, a.random));
    var s2 := B.Apply(c, s1, upgrade);
    assert s2.triedPeers == Added(c.triedList, s.triedPeers, info, b.now, b.random);
  }

  lemma AddedIsFound(cfg: ListConfig, bs: Buckets, info: PeerInfo, a: Draw)
    requires Fits(cfg, bs, info) && ListOk(cfg, bs)
    ensures Find(cfg, Added(cfg, bs, info, a.now, a.random), info).Some?
  {
    hide PeerIdOf, Addressable, BucketAdd, PlacedAt;
    var b, k := cfg.SelectBucket(info.ipAddress), PeerIdOf(info);
    assert BucketOk(cfg, b, bs[b]);
    HasIffKey(bs[b], k);
    BucketAddSpec(cfg, bs[b], k, info, a.now, a.random);
    HasIffKey(BucketAdd(cfg, bs[b], k, info, a.now, a.random), k);
  }

  lemma AddedIsStored(cfg: ListConfig, bs: Buckets, info: PeerInfo, a: Draw)
    requires Fits(cfg, bs, info) && ListOk(cfg, bs) && Find(cfg, bs, info).None?
    ensures var b, k := cfg.SelectBucket(info.ipAddress), PeerIdOf(info);
      var after := Added(cfg, bs, info, a.now, a.random);
      k in Dict(after[b]) && Dict(after[b])[k].info == info
  {
    hide PeerIdOf, Addressable, BucketAdd, PlacedAt;
    var b, k := cfg.SelectBucket(info.ipAddress), PeerIdOf(info);
    assert BucketOk(cfg, b, bs[b]);
    HasIffKey(bs[b], k);
    BucketAddSpec(cfg, bs[b], k, info, a.now, a.random);
  }

  lemma BookStepShows(c: NodeConfig, s: Node, e: Event, s': Node, p: string -> bool)
    requires B.BookOk(c.book, s.book) && BookLetsIn(c, s, e, p)
    requires s'.book == B.Run(c.book, s.book, BookOps(c, s, e))
    ensures !B.BookAddresses(s'.book, p)
  {
    hide B.BookOk, B.BookAddresses, B.FindPeer, B.BookFits, B.Run, PeerIdOf, Admit, GetHost, GetPort, Incoming;
    match e
    case PeerConnected(info, a, b) => AddUpgradeShows(c.book, s.book, info, a, b, p);
    case InfoUpdated(info, a, b) => AddUpgradeShows(c.book, s.book, info, a, b, p);
    case Discovered(info, a) => AddShows(c.book, s.book, info, a, p);
    case Inbound(h, _, _, a) => AddShows(c.book, s.book, Incoming(h).value, a, p);
    case _ =>
  }

  ghost predicate BookAlways(states: seq<Node>, p: string -> bool) {
    forall i: nat | i < |states| :: B.BookAddresses(states[i].book, p)
  }

  ghost predicate NothingAdded(c: NodeConfig, states: seq<Node>, events: seq<Event>, p: string -> bool)
    requires |states| == |events| + 1
  {
    forall i: nat | i < |events| :: !BookLetsIn(c, states[i], events[i], p)
  }

  lemma {:induction false} BookStaysOk(c: NodeConfig, states: seq<Node>, events: seq<Event>, i: nat)
    requires |states| == |events| + 1 && IsRun(c, states, events) && i < |states| && B.BookOk(c.book, states[0].book)
    ensures B.BookOk(c.book, states[i].book)
  {
    hide B.BookOk, BookOps, PoolStep;
    if i > 0 {
      BookStaysOk(c, states, events, i - 1);
      assert StepAt(c, states, events, i - 1);
      AnyAddress(states[i - 1].book);
      R.RunOk(c.book, states[i - 1].book, BookOps(c, states[i - 1], events[i - 1]), _ => true);
    }
  }

  lemma AnyAddress(s: B.Book)
    ensures B.BookAddresses(s, _ => true)
  {}

  lemma {:induction false} BookKept(c: NodeConfig, states: seq<Node>, events: seq<Event>, p: string -> bool, i: nat)
    requires |states| == |events| + 1 && IsRun(c, states, events) && i < |states| && Respects(p)
    requires B.BookOk(c.book, states[0].book) && B.BookAddresses(states[0].book, p)
    requires NothingAdded(c, states, events, p)
    ensures B.BookAddresses(states[i].book, p)
  {
    hide B.BookOk, B.BookAddresses, BookOps, PoolStep, Respects, BookLetsIn;
    if i > 0 {
      BookKept(c, states, events, p, i - 1);
      BookStaysOk(c, states, events, i - 1);
      assert StepAt(c, states, events, i - 1);
      BookStepKeeps(c, states[i - 1], events[i - 1], states[i], p);
    }
  }

  // The book alone: all its addresses satisfy p over the whole run exactly when they do at the start and no call
  // adds another. Nothing is asked of the pool.
  lemma RunBookIff(c: NodeConfig, states: seq<Node>, events: seq<Event>, p: string -> bool)
    requires |states| == |events| + 1 && IsRun(c, states, events) && Respects(p) && B.BookOk(c.book, states[0].book)
    ensures BookAlways(states, p) <==> B.BookAddresses(states[0].book, p) && NothingAdded(c, states, events, p)
  {
    hide B.BookOk, B.BookAddresses, BookOps, PoolStep, Respects, BookLetsIn;
    if B.BookAddresses(states[0].book, p) {
      if NothingAdded(c, states, events, p) {
        forall i: nat | i < |states| ensures B.BookAddresses(states[i].book, p) {
          BookKept(c, states, events, p, i);
        }
      } else {
        var i: nat :| i < |events| && BookLetsIn(c, states[i], events[i], p);
        BookStaysOk(c, states, events, i);
        assert StepAt(c, states, events, i);
        BookStepShows(c, states[i], events[i], states[i + 1], p);
      }
    }
  }

  // A connection that is still open reports a peer that the book does not have: the handlers of connects and
  // updates do not look at the bans.
  ghost predicate ReportLetsIn(c: NodeConfig, s: Node, e: Event, p: string -> bool) {
    (e.PeerConnected? || e.InfoUpdated?) && BookLetsIn(c, s, e, p)
  }

  ghost predicate NoReportLetsIn(c: NodeConfig, states: seq<Node>, events: seq<Event>, p: string -> bool)
    requires |states| == |events| + 1
  {
    forall i: nat | i < |events| :: !ReportLetsIn(c, states[i], events[i], p)
  }

  lemma BannedBookWays(c: NodeConfig, s: Node, e: Event, host: string)
    requires host in s.banned
    ensures BookLetsIn(c, s, e, NotHost(host))
       <==> DiscoveryLetsIn(c, s, e, NotHost(host)) || ReportLetsIn(c, s, e, NotHost(host))
  {
    hide B.FindPeer, B.BookFits, PeerIdOf, Admit, GetHost, GetPort, Incoming, Form;
    BannedRefused(c, s, e, host);
    if DiscoveryLetsIn(c, s, e, NotHost(host)) {
      assert B.Add(e.info, e.a.now, e.a.random) in BookOps(c, s, e);
    }
  }

  lemma BannedBookIff(c: NodeConfig, states: seq<Node>, events: seq<Event>, host: string)
    requires |states| == |events| + 1 && IsRun(c, states, events) && B.BookOk(c.book, states[0].book)
    requires IsNormalIp(host) && host in states[0].banned && NeverUnbanned(events, host)
    ensures BookAlways(states, NotHost(host))
       <==> B.BookAddresses(states[0].book, NotHost(host))
            && NoDiscoveryLetsIn(c, states, events, NotHost(host)) && NoReportLetsIn(c, states, events, NotHost(host))
  {
    hide IsRun, B.BookOk, B.BookAddresses, DiscoveryLetsIn, ReportLetsIn, BookLetsIn, NotHost, NeverUnbanned, Respects,
      IsNormalIp;
    HostRespected(host);
    forall i: nat | i < |events|
      ensures BookLetsIn(c, states[i], events[i], NotHost(host))
         <==> DiscoveryLetsIn(c, states[i], events[i], NotHost(host))
              || ReportLetsIn(c, states[i], events[i], NotHost(host))
    {
      StaysBanned(c, states, events, host, i);
      BannedBookWays(c, states[i], events[i], host);
    }
    RunBookIff(c, states, events, NotHost(host));
  }

  // No entry of the host but the one that the ban removes.
  ghost predicate OnlyEntry(c: NodeConfig, s: Node, id: string, host: string) {
    forall k | k in B.View(s.book) && Form(B.View(s.book)[k].entry.info.ipAddress) == Some(host) ::
      k == id && !IsWhitelisted(c, id)
  }

  // From its ban on, and until an unban, a host is out of the book exactly when the banned entry was its only one
  // and off the whitelist, no discovery brings it in, and no connection still open reports it as one that the book
  // does not have.
  lemma BannedGoneFromBookIff(c: NodeConfig, states: seq<Node>, events: seq<Event>, ip: string, port: nat,
                              p: string -> bool)
    requires |states| == |events| + 1 && IsRun(c, states, events) && events != []
    requires IsSupported(ip) && events[0] == Banned(PeerIdOf(HostInfo(ip, port))) && Form(ip).Some?
    requires TidyNode(c, states[0], p) && NeverUnbanned(events, Form(ip).value)
    ensures var host := Form(ip).value;
      BookAlways(states[1..], NotHost(host))
      <==> OnlyEntry(c, states[0], events[0].peerId, host)
           && NoDiscoveryLetsIn(c, states[1..], events[1..], NotHost(host))
           && NoReportLetsIn(c, states[1..], events[1..], NotHost(host))
  {
    hide IsRun, TidyNode, NodeAddresses, NotHost, OnlyEntry, IsSupported, Form, PeerIdOf, GetHost, DiscoveryLetsIn,
      ReportLetsIn, Step, B.BookOk, B.BookAddresses, IsNormalIp;
    var host := Form(ip).value;
    FirstStep(c, states, events);
    RunSuffix(c, states, events, 1);
    BanEvent(c, ip, port, p);
    BanLeaves(c, states[0], events[0], states[1], host, p);
    assert forall e | e in events[1..] :: e in events;
    BannedBookIff(c, states[1..], events[1..], host);
  }

  // ----- book and pool from a ban on ------------------------------------------------------------

  ghost predicate NoConnection(s: Node, host: string) {
    MapAddresses(s.pool.inbound, NotHost(host)) && MapAddresses(s.pool.outbound, NotHost(host))
  }

  ghost predicate NeverConnected(states: seq<Node>, host: string) {
    forall i: nat | i < |states| :: NoConnection(states[i], host)
  }

  lemma {:induction false} StaysOk(c: NodeConfig, states: seq<Node>, events: seq<Event>, i: nat)
    requires |states| == |events| + 1 && IsRun(c, states, events) && i < |states|
    requires B.BookOk(c.book, states[0].book) && PoolOk(states[0].pool)
    ensures B.BookOk(c.book, states[i].book) && PoolOk(states[i].pool)
  {
    hide IsRun, B.BookOk, PoolOk;
    var any: string -> bool := _ => true;
    AnyAddress(states[0].book);
    forall j: nat | j < |events| ensures !Enters(c, states[j], events[j], any) {}
    RunKeepsAddresses(c, states, events, any, i);
  }

  // When the banned host has no connection any more in state j, it is from the ban on out of the book and from j on
  // out of the pool exactly when besides no population from j on finds it among the fixed peers.
  lemma BannedGoneIff(c: NodeConfig, states: seq<Node>, events: seq<Event>, ip: string, port: nat, j: nat,
                      p: string -> bool)
    requires |states| == |events| + 1 && IsRun(c, states, events) && 1 <= j < |states|
    requires IsSupported(ip) && events[0] == Banned(PeerIdOf(HostInfo(ip, port))) && Form(ip).Some?
    requires TidyNode(c, states[0], p) && NormalFixedPeers(c) && NeverUnbanned(events, Form(ip).value)
    requires NoConnection(states[j], Form(ip).value)
    ensures var host := Form(ip).value;
      BookAlways(states[1..], NotHost(host)) && NeverConnected(states[j..], host)
      <==> OnlyEntry(c, states[0], events[0].peerId, host)
           && NoDiscoveryLetsIn(c, states[1..], events[1..], NotHost(host))
           && NoReportLetsIn(c, states[1..], events[1..], NotHost(host))
           && NoPopulationLetsIn(c, states[j..], events[j..], NotHost(host))
  {
    hide IsRun, TidyNode, NodeAddresses, NotHost, NormalFixedPeers, OnlyEntry, IsSupported, Form, PeerIdOf, GetHost,
      DiscoveryLetsIn, PopulationLetsIn, ReportLetsIn, Step, B.BookOk, B.BookAddresses, NoConnection, PoolOk,
      NeverUnbanned;
    var host := Form(ip).value;
    BannedGoneFromBookIff(c, states, events, ip, port, p);
    if BookAlways(states[1..], NotHost(host)) {
      BannedAtState(c, states, events, ip, port, j, p);
      BannedAlwaysIff(c, states, events, host, j);
      DiscoverySuffix(c, states, events, NotHost(host), j);
    }
  }

  lemma DiscoverySuffix(c: NodeConfig, states: seq<Node>, events: seq<Event>, p: string -> bool, j: nat)
    requires |states| == |events| + 1 && 1 <= j < |states|
    ensures NoDiscoveryLetsIn(c, states[1..], events[1..], p) ==> NoDiscoveryLetsIn(c, states[j..], events[j..], p)
  {
    hide DiscoveryLetsIn;
    if NoDiscoveryLetsIn(c, states[1..], events[1..], p) {
      forall i: nat | i < |events[j..]| ensures !DiscoveryLetsIn(c, states[j..][i], events[j..][i], p) {
        assert states[j..][i] == states[1..][j - 1 + i] && events[j..][i] == events[1..][j - 1 + i];
      }
    }
  }

  lemma BannedAtState(c: NodeConfig, states: seq<Node>, events: seq<Event>, ip: string, port: nat, j: nat,
                      p: string -> bool)
    requires |states| == |events| + 1 && IsRun(c, states, events) && 1 <= j < |states|
    requires IsSupported(ip) && events[0] == Banned(PeerIdOf(HostInfo(ip, port))) && Form(ip).Some?
    requires TidyNode(c, states[0], p) && NeverUnbanned(events, Form(ip).value)
    ensures Form(ip).value in states[j].banned && IsRun(c, states[j..], events[j..])
    ensures NeverUnbanned(events[j..], Form(ip).value)
    ensures forall i: nat | i < |states| :: B.BookOk(c.book, states[i].book) && PoolOk(states[i].pool)
  {
    hide IsRun, IsSupported, Form, PeerIdOf, GetHost, Step, B.BookOk, PoolOk, B.TidyBook, IsNormalIp;
    FirstStep(c, states, events);
    RunSuffix(c, states, events, 1);
    RunSuffix(c, states, events, j);
    BanEvent(c, ip, port, p);
    BanLeaves(c, states[0], events[0], states[1], Form(ip).value, p);
    assert forall e | e in events[1..] :: e in events;
    assert forall e | e in events[j..] :: e in events;
    StaysBanned(c, states[1..], events[1..], Form(ip).value, j - 1);
    forall i: nat | i < |states| ensures B.BookOk(c.book, states[i].book) && PoolOk(states[i].pool) {
      StaysOk(c, states, events, i);
    }
  }

  // With the book clear of the host throughout, the pool stays clear from j on exactly when no population connects
  // to it.
  lemma BannedAlwaysIff(c: NodeConfig, states: seq<Node>, events: seq<Event>, host: string, j: nat)
    requires |states| == |events| + 1 && 1 <= j < |states| && IsRun(c, states[j..], events[j..]) && NormalFixedPeers(c)
    requires host in states[j].banned && NeverUnbanned(events[j..], host) && NoConnection(states[j], host)
    requires forall i: nat | i < |states| :: B.BookOk(c.book, states[i].book) && PoolOk(states[i].pool)
    requires BookAlways(states[1..], NotHost(host))
    ensures NeverConnected(states[j..], host) && NoDiscoveryLetsIn(c, states[j..], events[j..], NotHost(host))
       <==> NoPopulationLetsIn(c, states[j..], events[j..], NotHost(host))
            && NoDiscoveryLetsIn(c, states[j..], events[j..], NotHost(host))
  {
    hide IsRun, NotHost, NormalFixedPeers, DiscoveryLetsIn, PopulationLetsIn, B.BookOk, B.BookAddresses, PoolOk,
      NeverUnbanned, MapAddresses;
    var later := states[j..];
    forall i: nat | i < |later|
      ensures NodeAddresses(c, later[i], NotHost(host)) <==> NoConnection(later[i], host)
    {
      assert later[i] == states[j + i] == states[1..][j - 1 + i];
    }
    assert later[0] == states[j];
    BannedAbsentIff(c, later, events[j..], host);
  }

  // The failing input: a connection of the banned host that is still open reports an update. The peer, not known and
  // not passive, is in the tried list afterwards.
  lemma BannedReportedBack(c: NodeConfig, s: Node, host: string, port: nat, a: Draw, b: Draw, p: string -> bool)
    returns (s': Node)
    requires TidyNode(c, s, p) && IsNormalIp(host) && host in s.banned
    requires FromPool(s, HostInfo(host, port)) && PeerIdOf(HostInfo(host, port)) !in B.View(s.book)
    ensures Step(c, s, InfoUpdated(HostInfo(host, port), a, b), s')
    ensures ReportLetsIn(c, s, InfoUpdated(HostInfo(host, port), a, b), NotHost(host))
    ensures R.IsTried(s'.book, PeerIdOf(HostInfo(host, port))) && host in s'.banned
  {
    hide IsNormalIp, Addressable, PeerIdOf, B.TidyBook, NodeAddresses, B.View, R.IsTried, B.Run, UpdateOps, Form,
      B.FindPeer, B.BookFits;
    var info := HostInfo(host, port);
    var e := InfoUpdated(info, a, b);
    s' := s.(book := B.Run(c.book, s.book, BookOps(c, s, e)));
    NormalIsAddressable(host);
    HostIsForm(host);
    UpdatedIsTried(c, s, info, a, b, p);
    UnknownIsAdded(c, s, info, a, b, p);
  }

  lemma HostIsForm(host: string)
    requires IsNormalIp(host)
    ensures Form(host) == Some(host)
  {
    NormalIpFixed(host);
  }

  lemma UnknownIsAdded(c: NodeConfig, s: Node, info: PeerInfo, a: Draw, b: Draw, p: string -> bool)
    requires B.TidyBook(c.book, s.book, p) && Within(p, info) && PeerIdOf(info) !in B.View(s.book) && !info.isPassive
    ensures B.Add(info, a.now, a.random) in UpdateOps(c, s.book, info, a, b)
  {
    hide Addressable, PeerIdOf, B.TidyBook, B.View, B.FindPeer, B.BookFits;
    B.TidyFits(c.book, s.book, info, p);
    B.FindInView(c.book, s.book, info, p);
  }

  lemma BanEvent(c: NodeConfig, ip: string, port: nat, p: string -> bool)
    requires IsSupported(ip)
    ensures EventIn(Banned(PeerIdOf(HostInfo(ip, port))), p)
    ensures Form(ip).Some? && GetHost(PeerIdOf(HostInfo(ip, port))) == Form(ip)
  {
    hide IsSupported, NormalizeAddress, GetPeerId, GetHost, GetPort, NormalizePeerId;
    PeerIdRoundTrip(ip, port);
    NormalizeSupported(ip);
  }

  lemma BanLeaves(c: NodeConfig, s: Node, e: Event, s': Node, host: string, p: string -> bool)
    requires TidyNode(c, s, p) && EventIn(e, p) && e.Banned? && GetHost(e.peerId) == Some(host) && Step(c, s, e, s')
    ensures B.BookAddresses(s'.book, NotHost(host)) <==> OnlyEntry(c, s, e.peerId, host)
    ensures host in s'.banned && B.BookOk(c.book, s'.book) && IsNormalIp(host)
  {
    hide EventIn, GetHost, B.View, IsWhitelisted, Form, Step, NodeAddresses, NotHost, B.TidyBook, IsNormalIp, B.BookOk,
      B.BookAddresses;
    BannedIsRemoved(c, s, e, s', p);
    StepKeepsTidy(c, s, e, s', p);
    BannedHostNormal(e, p);
    AddressesOk(c, s', p);
    AddressesInView(c.book, s'.book, p, NotHost(host));
    HostsWithout(B.View(s.book), e.peerId, host, IsWhitelisted(c, e.peerId));
  }

  lemma AddressesOk(c: NodeConfig, s: Node, p: string -> bool)
    requires NodeAddresses(c, s, p)
    ensures B.BookOk(c.book, s.book)
  {}

  lemma HostsWithout(f: B.FlatMap, id: string, host: string, kept: bool)
    ensures var after := if kept then f else f - {id};
      (forall k | k in after :: NotHost(host)(after[k].entry.info.ipAddress))
      <==> forall k | k in f && Form(f[k].entry.info.ipAddress) == Some(host) :: k == id && !kept
  {
    hide Form;
  }

  lemma FirstStep(c: NodeConfig, states: seq<Node>, events: seq<Event>)
    requires |states| == |events| + 1 && IsRun(c, states, events) && events != []
    ensures Step(c, states[0], events[0], states[1])
  {
    hide Step;
    assert StepAt(c, states, events, 0);
  }

  lemma RunSuffix(c: NodeConfig, states: seq<Node>, events: seq<Event>, j: nat)
    requires |states| == |events| + 1 && IsRun(c, states, events) && j < |states|
    ensures IsRun(c, states[j..], events[j..])
  {
    hide Step;
    forall i: nat | i < |events[j..]| ensures StepAt(c, states[j..], events[j..], i) {
      assert StepAt(c, states, events, j + i);
    }
  }

  // From the ban of a peer on, and until an unban, no handshake from any spelling of its address passes.
  lemma BannedNotAdmitted(c: NodeConfig, states: seq<Node>, events: seq<Event>, ip: string, port: nat, i: nat,
                          h: Handshake, limit: nat, now: real, a: Draw)
    requires |states| == |events| + 1 && IsRun(c, states, events) && 1 <= i < |states|
    requires IsSupported(ip) && events[0] == Banned(PeerIdOf(HostInfo(ip, port)))
    requires Form(ip).Some? && NeverUnbanned(events, Form(ip).value) && Form(h.info.ipAddress) == Form(ip)
    ensures !Admit(c, states[i], h).Admitted? && !Admit(c, states[i], h).Duplicate?
  {
    hide IsRun, Form, IsSupported, PeerIdOf, GetHost, Admit, HandshakeLetsIn, PoolStep, BookOps;
    FirstStep(c, states, events);
    RunSuffix(c, states, events, 1);
    BanEvent(c, ip, port, _ => true);
    assert forall e | e in events[1..] :: e in events;
    StaysBanned(c, states[1..], events[1..], Form(ip).value, i - 1);
    BannedRefused(c, states[i], Inbound(h, limit, now, a), Form(ip).value);
  }

  // Any discovery of the host does when the book is empty, the host is not blacklisted and the peer not passive.
  lemma BannedComesBack(c: NodeConfig, s: Node, host: string, port: nat, a: Draw)
    requires c.book.Valid() && s.book == R.EmptyBook(c.book) && IsNormalIp(host) && host !in c.blacklistedIPs
    ensures DiscoveryLetsIn(c, s, Discovered(HostInfo(host, port), a), NotHost(host))
  {
    hide IsNormalIp, NormalizeAddress, Addressable, PeerIdOf;
    NormalIpFixed(host);
    NormalIsAddressable(host);
    NothingFound(c.book, HostInfo(host, port));
  }
}
