// The node as a value (src/p2p.js): book, pool and banned hosts, and what each handler does to them.
module Nodes {
  import opened Wrappers
  import opened OrderedMap
  import opened Address
  import opened PeerId
  import opened Peers
  import opened Buckets
  import opened Lists
  import opened Pools
  import opened Sanitize
  import B = Books
  import R = BookRuns
  import Protection
  import P = PoolRuns

  datatype NodeConfig = NodeConfig(book: B.BookConfig, pool: PoolConfig, blacklistedIPs: seq<string>)
  datatype Node = Node(book: B.Book, pool: Pool, banned: set<string>)

  // The clock and the random number used by one call on the book.
  datatype Draw = Draw(now: int, random: Random)

  // ----- what the handlers do to the book -----------------------------------------------------------------

  predicate IsWhitelisted(c: NodeConfig, id: string) {
    id in IdsOf(c.pool.whitelisted)
  }

  // The reported peer under the address and port that the book has for it.
  function Located(info: PeerInfo, found: PeerInfo): PeerInfo {
    info.(ipAddress := found.ipAddress, wsPort := found.wsPort)
  }

  // `_handleOutboundPeerConnect`. When the lookup throws nothing happens.
  function ConnectOps(c: NodeConfig, book: B.Book, info: PeerInfo, a: Draw, b: Draw): seq<B.Op> {
    if !B.BookFits(c.book, book, info) then []
    else
      match B.FindPeer(c.book, book, info)
      case Some(found) => [B.Upgrade(Located(info, found), b.now, b.random)]
      case None =>
        if info.isPassive then [] else [B.Add(info, a.now, a.random), B.Upgrade(info, b.now, b.random)]
  }

  // `_handlePeerInfoUpdate`
  function UpdateOps(c: NodeConfig, book: B.Book, info: PeerInfo, a: Draw, b: Draw): seq<B.Op> {
    if !B.BookFits(c.book, book, info) then []
    else
      match B.FindPeer(c.book, book, info)
      case Some(found) =>
        var located := Located(info, found);
        if B.BookFits(c.book, book, located) && B.FindPeer(c.book, book, located).Some?
        then [B.Update(located), B.Upgrade(located, b.now, b.random)] else []
      case None =>
        if info.isPassive then [] else [B.Add(info, a.now, a.random), B.Upgrade(info, b.now, b.random)]
  }

  // `_handleOutboundPeerConnectAbort`
  function AbortOps(c: NodeConfig, book: B.Book, info: PeerInfo, a: Draw): seq<B.Op> {
    if B.BookFits(c.book, book, info) && B.FindPeer(c.book, book, info).Some? && !IsWhitelisted(c, PeerIdOf(info))
    then [B.Downgrade(info, a.now, a.random)] else []
  }

  // `_handleDiscoveredPeer`. The second lookup in its body repeats the first and finds nothing either.
  function DiscoverOps(c: NodeConfig, book: B.Book, info: PeerInfo, a: Draw): seq<B.Op> {
    if B.BookFits(c.book, book, info) && B.FindPeer(c.book, book, info).None?
       && info.ipAddress !in c.blacklistedIPs && !info.isPassive
    then [B.Add(info, a.now, a.random)] else []
  }

  function HostInfo(host: string, port: nat): PeerInfo {
    PeerInfo(host, port, false, 0, map[])
  }

  // `_handleBanPeer`
  function BanOps(c: NodeConfig, book: B.Book, peerId: string): seq<B.Op> {
    match (GetHost(peerId), GetPort(peerId))
    case (Some(host), Some(port)) =>
      var info := HostInfo(host, port);
      if B.BookFits(c.book, book, info) && B.FindPeer(c.book, book, info).Some? && !IsWhitelisted(c, peerId)
      then [B.Remove(info)] else []
    case _ => []
  }

  // ----- admission of an inbound connection ------------------------------------------------------

  // What the node learns from the socket and the query of the connecting peer. `info` carries the
  // port, the passive flag and the remaining query fields; its address is the raw remote address.
  datatype Handshake = Handshake(info: PeerInfo, hasUrl: bool, ownNonce: bool, queryOk: bool, compatible: bool)

  datatype Admission =
    | Threw | Blacklisted | InvalidUrl | OwnConnection | InvalidQuery | BannedHost | Incompatible
    | Duplicate | Admitted

  // The peer as it is added: with the normalised address.
  function Incoming(h: Handshake): (r: Option<PeerInfo>) {
    match NormalizeAddress(h.info.ipAddress)
    case Some(n) => Some(h.info.(ipAddress := n.address))
    case None => None
  }

  // The checks in their order. `Admitted` means that `addInboundPeer` is called.
  function Admit(c: NodeConfig, s: Node, h: Handshake): Admission {
    match Incoming(h)
    case None => Threw
    case Some(incoming) =>
      if incoming.ipAddress in c.blacklistedIPs then Blacklisted
      else if !h.hasUrl then InvalidUrl
      else if h.ownNonce then OwnConnection
      else if !h.queryOk then InvalidQuery
      else if incoming.ipAddress in s.banned then BannedHost
      else if !h.compatible then Incompatible
      else if Has(s.pool.inbound, PeerIdOf(h.info)) then Duplicate
      else Admitted
  }

  function AdmitOps(c: NodeConfig, s: Node, h: Handshake, a: Draw): seq<B.Op> {
    match Incoming(h)
    case None => []
    case Some(incoming) =>
      var admission := Admit(c, s, h);
      if !B.BookFits(c.book, s.book, incoming) then []
      else if admission.OwnConnection? then [B.Remove(incoming)]
      else if (admission.Duplicate? || admission.Admitted?) && !incoming.isPassive
              && B.FindPeer(c.book, s.book, incoming).None?
      then [B.Add(incoming, a.now, a.random)] else []
  }

  // ----- start ---------------------------------------------------------------------------------------------

  function AddOps(ps: seq<PeerInfo>, a: Draw): seq<B.Op> {
    if ps == [] then []
    else AddOps(ps[..|ps| - 1], a) + if ps[|ps| - 1].isPassive then [] else [B.Add(ps[|ps| - 1], a.now, a.random)]
  }

  function UpgradeOps(ps: seq<PeerInfo>, a: Draw): seq<B.Op> {
    if ps == [] then [] else UpgradeOps(ps[..|ps| - 1], a) + [B.Upgrade(ps[|ps| - 1], a.now, a.random)]
  }

  function PreviousOps(ps: seq<PeerInfo>, a: Draw): seq<B.Op> {
    if ps == [] then []
    else
      var p := ps[|ps| - 1];
      PreviousOps(ps[..|ps| - 1], a)
        + if p.isPassive then [] else [B.Add(p, a.now, a.random), B.Upgrade(p, a.now, a.random)]
  }

  // The constructor adds and upgrades the previous peers; `start` adds the seed and whitelisted peers
  // and upgrades the whitelisted ones.
  function StartOps(lists: PeerLists, a: Draw): seq<B.Op> {
    PreviousOps(lists.previousPeers, a)
      + AddOps(lists.seedPeers + lists.whitelisted, a) + UpgradeOps(lists.whitelisted, a)
  }

  function InitialNode(c: NodeConfig, lists: PeerLists, a: Draw): Node {
    Node(B.Run(c.book, R.EmptyBook(c.book), StartOps(lists, a)), Pool([], []), {})
  }

  // ----- steps -----------------------------------------------------------------------------------

  datatype Event =
    | PeerConnected(info: PeerInfo, a: Draw, b: Draw)
    | ConnectAborted(info: PeerInfo, a: Draw)
    | InfoUpdated(info: PeerInfo, a: Draw, b: Draw)
    | Discovered(info: PeerInfo, a: Draw)
    | Banned(peerId: string)
    | Unbanned(peerId: string)
    | Inbound(h: Handshake, limit: nat, now: real, a: Draw)
    | Populated(limit: nat, now: real)
    | PoolChanged(e: P.Event)

  // Connect, abort and update events come from a peer of the pool, whose address never changes.
  ghost predicate FromPool(s: Node, info: PeerInfo) {
    HasAddress(s.pool.inbound, info.ipAddress) || HasAddress(s.pool.outbound, info.ipAddress)
  }

  // A ban is of a peer that is still in the pool: the peer asks for it before it closes.
  predicate HasPeer(s: Node, id: string) {
    Has(s.pool.inbound, id) || Has(s.pool.outbound, id)
  }

  ghost predicate HasAddress(m: PeerMap, ip: string) {
    exists i :: 0 <= i < |m| && m[i].1.info.ipAddress == ip
  }

  function BookOps(c: NodeConfig, s: Node, e: Event): seq<B.Op> {
    match e
    case PeerConnected(info, a, b) => ConnectOps(c, s.book, info, a, b)
    case ConnectAborted(info, a) => AbortOps(c, s.book, info, a)
    case InfoUpdated(info, a, b) => UpdateOps(c, s.book, info, a, b)
    case Discovered(info, a) => DiscoverOps(c, s.book, info, a)
    case Banned(peerId) => BanOps(c, s.book, peerId)
    case Inbound(h, _, _, a) => AdmitOps(c, s, h, a)
    case _ => []
  }

  function BannedAfter(s: Node, e: Event): set<string> {
    match e
    case Banned(peerId) => (match GetHost(peerId) case Some(host) => s.banned + {host} case None => s.banned)
    case Unbanned(peerId) => (match GetHost(peerId) case Some(host) => s.banned - {host} case None => s.banned)
    case _ => s.banned
  }

  ghost predicate PoolStep(c: NodeConfig, s: Node, e: Event, pool: Pool) {
    match e
    case Inbound(h, limit, now, _) =>
      if Admit(c, s, h).Admitted? && Incoming(h).Some?
      then P.Step(c.pool, s.pool, P.InboundAdded(NewPeer(Incoming(h).value, now), limit), pool)
      else pool == s.pool
    case Populated(limit, now) =>
      P.Step(c.pool, s.pool, P.Triggered(AllInfos(s.book.newPeers), AllInfos(s.book.triedPeers), limit, now), pool)
    case PoolChanged(pe) => !pe.InboundAdded? && !pe.Triggered? && P.Step(c.pool, s.pool, pe, pool)
    case _ => pool == s.pool
  }

  ghost predicate Step(c: NodeConfig, s: Node, e: Event, s': Node) {
    && (e.PeerConnected? || e.ConnectAborted? || e.InfoUpdated? ==> FromPool(s, e.info))
    && (e.Banned? ==> HasPeer(s, e.peerId))
    && PoolStep(c, s, e, s'.pool)
    && s'.book == B.Run(c.book, s.book, BookOps(c, s, e))
    && s'.banned == BannedAfter(s, e)
  }

  // ----- admission never trips over a present peer -----------------------------------------------

  // The id looked up before admission, computed from the raw remote address, is the id of the peer that
  // is then added under the normalised one; so a peer that passes the check is really added, also when
  // another one is evicted first.
  lemma AdmittedIsAdded(c: NodeConfig, s: Node, h: Handshake, limit: nat, now: real, pool: Pool)
    requires PoolOk(s.pool) && IsSupported(h.info.ipAddress) && Admit(c, s, h).Admitted?
    requires P.Step(c.pool, s.pool, P.InboundAdded(NewPeer(Incoming(h).value, now), limit), pool)
    ensures PeerIdOf(Incoming(h).value) == PeerIdOf(h.info)
    ensures Get(pool.inbound, PeerIdOf(h.info)) == Some(NewPeer(Incoming(h).value, now))
  {
    hide Protection.EvictionCandidates, NormalizeAddress, IsSupported;
    PeerIdOfNormalForm(h.info.ipAddress, h.info.wsPort);
    var p := NewPeer(Incoming(h).value, now);
    assert p.id == PeerIdOf(h.info) by { SameId(h); }
    AddsWhenAbsent(c.pool, limit, s.pool.inbound, p, pool.inbound);
  }

  lemma SameId(h: Handshake)
    requires IsSupported(h.info.ipAddress)
    ensures Incoming(h).Some? && PeerIdOf(Incoming(h).value) == PeerIdOf(h.info)
  {
    hide NormalizeAddress, IsSupported, GetPeerId;
    PeerIdOfNormalForm(h.info.ipAddress, h.info.wsPort);
  }

  lemma AddsWhenAbsent(c: PoolConfig, limit: nat, m: PeerMap, p: Protection.PoolPeer, m': PeerMap)
    requires MapOk(m) && AddsInbound(c, limit, m, p, m') && !Has(m, p.id)
    ensures Get(m', p.id) == Some(p)
  {
    hide EvictsInbound, PeerIdOf;
    var mid :| (if |m| >= limit then EvictsInbound(c, m, mid) else mid == m)
      && m' == if Has(mid, p.id) then mid else Set(mid, p.id, p);
    if |m| >= limit { EvictionOnlyRemoves(c, m, mid); }
    HasIffKey(m, p.id);
    HasIffKey(mid, p.id);
    SetGet(mid, p);
  }

  lemma SetGet(m: PeerMap, p: Protection.PoolPeer)
    requires !Has(m, p.id)
    ensures Get(Set(m, p.id, p), p.id) == Some(p)
  {
    var n := Set(m, p.id, p);
    assert n[|m|] == (p.id, p);
    assert forall i | 0 <= i < |m| :: n[i].0 == m[i].0 != p.id;
  }
}
