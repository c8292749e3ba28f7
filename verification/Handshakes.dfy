// What a handshake needs to be admitted and what it does, and what lifts a ban (src/p2p.js), said of the handshake.
module Handshakes {
  import opened Wrappers
  import opened OrderedMap
  import opened Address
  import opened PeerId
  import opened Peers
  import opened Buckets
  import opened Protection
  import opened Lists
  import opened Pools
  import opened Nodes
  import opened NodeRuns
  import opened NodeEffects
  import B = Books
  import R = BookRuns

  // Nothing but a connection that there is already stands against the handshake.
  predicate Welcome(c: NodeConfig, s: Node, h: Handshake)
    requires Form(h.info.ipAddress).Some?
  {
    && Form(h.info.ipAddress).value !in c.blacklistedIPs && Form(h.info.ipAddress).value !in s.banned
    && h.hasUrl && !h.ownNonce && h.queryOk && h.compatible
  }

  // The node connects to itself, and the address is not blacklisted.
  predicate IsSelf(c: NodeConfig, h: Handshake)
    requires Form(h.info.ipAddress).Some?
  {
    Form(h.info.ipAddress).value !in c.blacklistedIPs && h.hasUrl && h.ownNonce
  }

  lemma AdmitIff(c: NodeConfig, s: Node, h: Handshake)
    requires Form(h.info.ipAddress).Some?
    ensures Incoming(h) == Some(h.info.(ipAddress := Form(h.info.ipAddress).value))
    ensures Admit(c, s, h).Admitted? <==> Welcome(c, s, h) && !Has(s.pool.inbound, PeerIdOf(h.info))
    ensures Admit(c, s, h).Duplicate? <==> Welcome(c, s, h) && Has(s.pool.inbound, PeerIdOf(h.info))
    ensures Admit(c, s, h).OwnConnection? <==> IsSelf(c, h)
  {
    hide NormalizeAddress, PeerIdOf;
  }

  // The peer as it is connected and stored: under the normal form of its address.
  function Newcomer(h: Handshake): PeerInfo
    requires Form(h.info.ipAddress).Some?
  {
    PeerInfo(Form(h.info.ipAddress).value, h.info.wsPort, h.info.isPassive, h.info.height, h.info.rest)
  }

  // A handshake connects the peer exactly when it is welcome and its id has no inbound connection; otherwise the pool
  // stays as it is.
  lemma HandshakeConnects(c: NodeConfig, s: Node, h: Handshake, limit: nat, now: real, a: Draw, s': Node)
    requires PoolOk(s.pool) && ConsistentId(h) && Form(h.info.ipAddress).Some?
    requires Step(c, s, Inbound(h, limit, now, a), s')
    ensures if Welcome(c, s, h) && !Has(s.pool.inbound, PeerIdOf(h.info))
      then
        && Get(s'.pool.inbound, PeerIdOf(h.info)) == Some(PoolPeer(PeerIdOf(h.info), Newcomer(h), 0.0, 0.0, now))
        && s'.pool.outbound == s.pool.outbound
      else s'.pool == s.pool
    ensures s'.banned == s.banned
  {
    hide PeerIdOf, NormalizeAddress, Admit, AddsInbound, B.Run, BookOps, MapOk, Has, Get, Incoming, Welcome;
    AdmitIff(c, s, h);
    if Admit(c, s, h).Admitted? {
      AddsWhenAbsent(c.pool, limit, s.pool.inbound, NewPeer(Incoming(h).value, now), s'.pool.inbound);
    }
  }

  // In the book, the handshake of the node with itself removes the id; one that is welcome adds the peer, if it is not
  // known and not passive; any other changes nothing.
  lemma HandshakeInBook(c: NodeConfig, s: Node, h: Handshake, limit: nat, now: real, a: Draw, s': Node,
                        p: string -> bool)
    requires TidyNode(c, s, p) && IsSupported(h.info.ipAddress) && Step(c, s, Inbound(h, limit, now, a), s')
    ensures Form(h.info.ipAddress).Some?
    ensures var k, before, after := PeerIdOf(h.info), B.View(s.book), B.View(s'.book);
      if IsSelf(c, h) then after == before - {k}
      else if Welcome(c, s, h) && !h.info.isPassive && k !in before
      then k in after && after[k] == B.Placed(B.NewTier, Entry(Newcomer(h), 0, a.now))
      else after == before
  {
    hide PeerIdOf, NormalizeAddress, IsSupported, IsNormalIp, B.TidyBook, B.View, B.FindPeer, B.BookFits, B.Run,
      B.Apply, Addressable, Admit, NodeAddresses, Welcome, IsSelf, PoolStep, Has, Coherent, Incoming;
    NormalizeSupported(h.info.ipAddress);
    AdmitIff(c, s, h);
    SameId(h);
    var incoming := Incoming(h).value;
    NormalIsAddressable(incoming.ipAddress);
    NewcomerIs(h);
    B.TidyFits(c.book, s.book, incoming, p);
    B.FindInView(c.book, s.book, incoming, p);
    AdmitCalls(c, s, h, a);
    OneRemove(c.book, s.book, incoming, p);
    OneAdd(c.book, s.book, incoming, a, p);
    NoCalls(c.book, s.book);
  }

  lemma NewcomerIs(h: Handshake)
    requires Form(h.info.ipAddress).Some? && Incoming(h) == Some(h.info.(ipAddress := Form(h.info.ipAddress).value))
    ensures Incoming(h).value == Newcomer(h)
  {}

  lemma AdmitCalls(c: NodeConfig, s: Node, h: Handshake, a: Draw)
    requires Incoming(h).Some? && B.BookFits(c.book, s.book, Incoming(h).value)
    ensures var admission, incoming := Admit(c, s, h), Incoming(h).value;
      AdmitOps(c, s, h, a)
        == if admission.OwnConnection? then [B.Remove(incoming)]
           else if (admission.Duplicate? || admission.Admitted?) && !incoming.isPassive
                   && B.FindPeer(c.book, s.book, incoming).None? then [B.Add(incoming, a.now, a.random)]
           else []
  {
    hide Incoming, Admit, B.BookFits, B.FindPeer;
  }

  lemma OneRemove(c: B.BookConfig, s: B.Book, info: PeerInfo, p: string -> bool)
    requires B.TidyBook(c, s, p) && Within(p, info)
    ensures B.View(B.Run(c, s, [B.Remove(info)])) == B.View(s) - {PeerIdOf(info)}
  {
    hide PeerIdOf, B.TidyBook, B.View, B.Apply, B.StepVictim, B.BookFits, Addressable, Within;
    B.StepRefines(c, s, B.Remove(info), p);
    R.RunOne(c, s, B.Remove(info));
  }

  lemma OneAdd(c: B.BookConfig, s: B.Book, info: PeerInfo, a: Draw, p: string -> bool)
    requires B.TidyBook(c, s, p) && Within(p, info)
    ensures var k, before := PeerIdOf(info), B.View(s);
      var after := B.View(B.Run(c, s, [B.Add(info, a.now, a.random)]));
      && k in after
      && (if k in before then after == before else after[k] == B.Placed(B.NewTier, Entry(info, 0, a.now)))
  {
    hide PeerIdOf, B.TidyBook, B.View, B.Apply, B.StepVictim, B.BookFits, Addressable, Within;
    var add := B.Add(info, a.now, a.random);
    R.StepAt(c, s, add, PeerIdOf(info), p);
    R.RunOne(c, s, add);
  }

  // An unban lets exactly the host of the id off the bans and changes nothing else; a handshake from any spelling of
  // its address is then admitted, if nothing else stands against it.
  lemma UnbannedIsWelcome(c: NodeConfig, s: Node, ip: string, port: nat, s': Node, h: Handshake)
    requires IsSupported(ip) && Step(c, s, Unbanned(PeerIdOf(HostInfo(ip, port))), s')
    ensures Form(ip).Some? && s'.banned == s.banned - {Form(ip).value}
    ensures s'.pool == s.pool && s'.book == s.book
    ensures Form(h.info.ipAddress) == Form(ip) && Form(ip).value !in c.blacklistedIPs
      && h.hasUrl && !h.ownNonce && h.queryOk && h.compatible && !Has(s.pool.inbound, PeerIdOf(h.info))
      ==> Admit(c, s', h).Admitted?
  {
    hide IsSupported, NormalizeAddress, GetPeerId, GetHost, GetPort, NormalizePeerId, Admit, Has;
    PeerIdRoundTrip(ip, port);
    NormalizeSupported(ip);
    NoCalls(c.book, s.book);
    if Form(h.info.ipAddress) == Form(ip) { AdmitIff(c, s', h); }
  }

  // A ban bans exactly the host of the id.
  lemma BannedHostOnly(c: NodeConfig, s: Node, ip: string, port: nat, s': Node)
    requires IsSupported(ip) && Step(c, s, Banned(PeerIdOf(HostInfo(ip, port))), s')
    ensures Form(ip).Some? && s'.banned == s.banned + {Form(ip).value} && s'.pool == s.pool
  {
    hide IsSupported, NormalizeAddress, GetPeerId, GetHost, GetPort, NormalizePeerId, BookOps, B.Run;
    PeerIdRoundTrip(ip, port);
    NormalizeSupported(ip);
  }

  // A discovered peer enters as a new peer exactly when it is not known, not passive and not blacklisted as written;
  // else the book stays as it is.
  lemma DiscoveryInBook(c: NodeConfig, s: Node, info: PeerInfo, a: Draw, s': Node, p: string -> bool)
    requires TidyNode(c, s, p) && Within(p, info) && Step(c, s, Discovered(info, a), s')
    ensures var k, before, after := PeerIdOf(info), B.View(s.book), B.View(s'.book);
      if k !in before && !info.isPassive && info.ipAddress !in c.blacklistedIPs
      then k in after && after[k] == B.Placed(B.NewTier, Entry(info, 0, a.now))
      else after == before
  {
    hide PeerIdOf, IsNormalIp, B.TidyBook, B.View, B.FindPeer, B.BookFits, B.Run, B.Apply, Addressable, NodeAddresses,
      PoolStep, Coherent;
    B.TidyFits(c.book, s.book, info, p);
    B.FindInView(c.book, s.book, info, p);
    OneAdd(c.book, s.book, info, a, p);
    NoCalls(c.book, s.book);
  }
}
