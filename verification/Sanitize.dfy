// The configured peer lists after `sanitizePeerLists` (src/validation.js).
module Sanitize {
  import opened Wrappers
  import opened Address
  import opened Peers
  import opened Pools

  datatype PeerLists = PeerLists(
    seedPeers: seq<PeerInfo>, fixedPeers: seq<PeerInfo>, whitelisted: seq<PeerInfo>, previousPeers: seq<PeerInfo>)

  // `sanitizePeerInfo`; None means that the normalisation throws.
  function SanitizePeerInfo(p: PeerInfo): Option<PeerInfo> {
    match NormalizeAddress(p.ipAddress)
    case Some(n) => Some(p.(ipAddress := n.address))
    case None => None
  }

  function SanitizeAll(ps: seq<PeerInfo>): (r: Option<seq<PeerInfo>>)
    ensures r.Some? ==> |r.value| == |ps|
    ensures r.Some? ==> forall i | 0 <= i < |ps| :: SanitizePeerInfo(ps[i]) == Some(r.value[i])
    ensures r.None? ==> exists i :: 0 <= i < |ps| && SanitizePeerInfo(ps[i]).None?
  {
    if ps == [] then Some([])
    else
      var p := SanitizePeerInfo(ps[0]);
      var rest := SanitizeAll(ps[1..]);
      assert p.None? ==> SanitizePeerInfo(ps[0]).None?;
      assert rest.None? ==> exists i :: 0 <= i < |ps| && SanitizePeerInfo(ps[i]).None? by {
        if i :| 0 <= i < |ps[1..]| && SanitizePeerInfo(ps[1..][i]).None? {
          assert ps[i + 1] == ps[1..][i];
        }
      }
      if p.Some? && rest.Some? then Some([p.value] + rest.value) else None
  }

  function NotBlacklisted(ps: seq<PeerInfo>, blacklistedIPs: seq<string>): (r: seq<PeerInfo>)
    ensures forall p :: p in r <==> p in ps && p.ipAddress !in blacklistedIPs
  {
    if ps == [] then []
    else
      assert ps == [ps[0]] + ps[1..];
      var rest := NotBlacklisted(ps[1..], blacklistedIPs);
      if ps[0].ipAddress in blacklistedIPs then rest else [ps[0]] + rest
  }

  function NotAmong(ps: seq<PeerInfo>, ids: set<string>): (r: seq<PeerInfo>)
    ensures forall p :: p in r <==> p in ps && PeerIdOf(p) !in ids
  {
    if ps == [] then []
    else
      assert ps == [ps[0]] + ps[1..];
      var rest := NotAmong(ps[1..], ids);
      if PeerIdOf(ps[0]) in ids then rest else [ps[0]] + rest
  }

  // None means that some address makes the normalisation throw.
  function SanitizePeerLists(lists: PeerLists, blacklistedIPs: seq<string>): Option<PeerLists> {
    match (SanitizeAll(lists.seedPeers), SanitizeAll(lists.fixedPeers),
           SanitizeAll(lists.whitelisted), SanitizeAll(lists.previousPeers))
    case (Some(seeds), Some(fixedOnes), Some(whites), Some(previous)) =>
      var seedPeers := NotBlacklisted(seeds, blacklistedIPs);
      var fixedPeers := NotBlacklisted(fixedOnes, blacklistedIPs);
      var allowed := NotBlacklisted(whites, blacklistedIPs);
      var whitelisted := NotAmong(NotAmong(allowed, IdsOf(fixedPeers)), IdsOf(seedPeers));
      Some(PeerLists(seedPeers, fixedPeers, whitelisted, NotBlacklisted(previous, blacklistedIPs)))
    case _ => None
  }

  function AllPeers(lists: PeerLists): seq<PeerInfo> {
    lists.seedPeers + lists.fixedPeers + lists.whitelisted + lists.previousPeers
  }

  ghost predicate CleanList(ps: seq<PeerInfo>, blacklistedIPs: seq<string>) {
    forall p | p in ps :: p.ipAddress !in blacklistedIPs
  }

  // After sanitising no list has a blacklisted address, no whitelisted peer is also a fixed or seed
  // peer, and every address is a fixed point of `normalizeAddress`.
  lemma SanitizedLists(lists: PeerLists, blacklistedIPs: seq<string>)
    requires SanitizePeerLists(lists, blacklistedIPs).Some?
    ensures var s := SanitizePeerLists(lists, blacklistedIPs).value;
      && CleanList(AllPeers(s), blacklistedIPs)
      && IdsOf(s.whitelisted) !! IdsOf(s.fixedPeers) && IdsOf(s.whitelisted) !! IdsOf(s.seedPeers)
      && forall p | p in AllPeers(s) ::
           NormalizeAddress(p.ipAddress).Some? && NormalizeAddress(p.ipAddress).value.address == p.ipAddress
  {
    hide NormalizeAddress, PeerIdOf;
    var s := SanitizePeerLists(lists, blacklistedIPs).value;
    forall id | id in IdsOf(s.whitelisted) ensures id !in IdsOf(s.fixedPeers) && id !in IdsOf(s.seedPeers) {
      var i := IdsOfWitness(s.whitelisted, id);
      assert s.whitelisted[i] in s.whitelisted;
    }
    forall p | p in AllPeers(s)
      ensures NormalizeAddress(p.ipAddress).Some? && NormalizeAddress(p.ipAddress).value.address == p.ipAddress
    {
      if p in s.seedPeers { SanitizedFixed(lists.seedPeers, p); }
      else if p in s.fixedPeers { SanitizedFixed(lists.fixedPeers, p); }
      else if p in s.whitelisted { SanitizedFixed(lists.whitelisted, p); }
      else { SanitizedFixed(lists.previousPeers, p); }
    }
  }

  lemma SanitizedFixed(ps: seq<PeerInfo>, p: PeerInfo)
    requires SanitizeAll(ps).Some? && p in SanitizeAll(ps).value
    ensures NormalizeAddress(p.ipAddress).Some? && NormalizeAddress(p.ipAddress).value.address == p.ipAddress
  {
    var i :| 0 <= i < |ps| && SanitizeAll(ps).value[i] == p;
    assert SanitizePeerInfo(ps[i]) == Some(p);
    NormalizeAddressIdempotent(ps[i].ipAddress);
  }

  // ----- spellings of blacklisted addresses ------------------------------------------------------

  // The address has the normal form of some entry of the blacklist.
  predicate SpellsListed(blacklistedIPs: seq<string>, ip: string) {
    exists b | b in blacklistedIPs :: Form(b).Some? && Form(b) == Form(ip)
  }

  // The blacklist has the normal form of each of its entries; so it is when all are in normal form.
  predicate ListsForms(blacklistedIPs: seq<string>) {
    forall b | b in blacklistedIPs :: Form(b).Some? ==> Form(b).value in blacklistedIPs
  }

  // Texts that normalisation leaves alone are then caught by comparison.
  lemma FixedIsCaught(blacklistedIPs: seq<string>, ip: string)
    requires ListsForms(blacklistedIPs) && Form(ip) == Some(ip)
    ensures SpellsListed(blacklistedIPs, ip) <==> ip in blacklistedIPs
  {}

  // The blacklist itself is not normalised. It keeps every spelling of its entries out of the lists, whatever is
  // configured, exactly when it has the normal form of each entry; else the entry itself passes as a seed peer.
  lemma SanitizedFormsIff(blacklistedIPs: seq<string>)
    ensures (forall lists: PeerLists | SanitizePeerLists(lists, blacklistedIPs).Some? ::
               forall p | p in AllPeers(SanitizePeerLists(lists, blacklistedIPs).value) ::
                 !SpellsListed(blacklistedIPs, p.ipAddress))
       <==> ListsForms(blacklistedIPs)
  {
    hide Form, SanitizePeerLists, AllPeers, SpellsListed;
    if ListsForms(blacklistedIPs) {
      forall lists: PeerLists, p | SanitizePeerLists(lists, blacklistedIPs).Some?
        && p in AllPeers(SanitizePeerLists(lists, blacklistedIPs).value)
        ensures !SpellsListed(blacklistedIPs, p.ipAddress)
      {
        SanitizedLists(lists, blacklistedIPs);
        FormIs(p.ipAddress);
        FixedIsCaught(blacklistedIPs, p.ipAddress);
      }
    } else {
      var b :| b in blacklistedIPs && Form(b).Some? && Form(b).value !in blacklistedIPs;
      var lists := ListedPasses(blacklistedIPs, b);
    }
  }

  // Configured under the very text of the entry, and kept.
  lemma ListedPasses(blacklistedIPs: seq<string>, b: string) returns (lists: PeerLists)
    requires b in blacklistedIPs && Form(b).Some? && Form(b).value !in blacklistedIPs
    ensures lists.seedPeers != [] && lists.seedPeers[0].ipAddress == b
    ensures SanitizePeerLists(lists, blacklistedIPs).Some?
    ensures var kept := AllPeers(SanitizePeerLists(lists, blacklistedIPs).value);
      exists p :: p in kept && SpellsListed(blacklistedIPs, p.ipAddress)
  {
    hide NormalizeAddress;
    var info := PeerInfo(b, 0, false, 0, map[]);
    lists := PeerLists([info], [], [], []);
    var p := info.(ipAddress := Form(b).value);
    assert SanitizePeerInfo(info) == Some(p);
    assert [info][1..] == [] && SanitizeAll([]) == Some([]);
    assert SanitizeAll([info]) == Some([p] + []);
    assert [p] + [] == [p];
    assert NotBlacklisted([p], blacklistedIPs) == [p] by { assert [p][1..] == []; }
    assert AllPeers(SanitizePeerLists(lists, blacklistedIPs).value)[0] == p;
    FormOfForm(b);
  }

  // ----- which peers survive ---------------------------------------------------------------------

  // Some configured peer whose address is not blacklisted has the id.
  ghost predicate Claims(ps: seq<PeerInfo>, blacklistedIPs: seq<string>, id: string) {
    exists j :: 0 <= j < |ps| && SanitizePeerInfo(ps[j]).Some?
      && SanitizePeerInfo(ps[j]).value.ipAddress !in blacklistedIPs && PeerIdOf(SanitizePeerInfo(ps[j]).value) == id
  }

  lemma ClaimsIff(ps: seq<PeerInfo>, blacklistedIPs: seq<string>, id: string)
    requires SanitizeAll(ps).Some?
    ensures id in IdsOf(NotBlacklisted(SanitizeAll(ps).value, blacklistedIPs)) <==> Claims(ps, blacklistedIPs, id)
  {
    hide SanitizePeerInfo, PeerIdOf;
    var all := SanitizeAll(ps).value;
    var kept := NotBlacklisted(all, blacklistedIPs);
    if id in IdsOf(kept) {
      var i := IdsOfWitness(kept, id);
      assert kept[i] in all;
      var j :| 0 <= j < |all| && all[j] == kept[i];
      assert SanitizePeerInfo(ps[j]) == Some(all[j]);
    }
    if Claims(ps, blacklistedIPs, id) {
      var j :| 0 <= j < |ps| && SanitizePeerInfo(ps[j]).Some?
        && SanitizePeerInfo(ps[j]).value.ipAddress !in blacklistedIPs && PeerIdOf(SanitizePeerInfo(ps[j]).value) == id;
      assert all[j] in kept;
      var i :| 0 <= i < |kept| && kept[i] == all[j];
      IdsOfMember(kept, i);
    }
  }

  // The peer under the normal form of its address.
  predicate Cleaned(raw: PeerInfo, p: PeerInfo) {
    && Form(raw.ipAddress) == Some(p.ipAddress)
    && p.wsPort == raw.wsPort && p.isPassive == raw.isPassive && p.height == raw.height && p.rest == raw.rest
  }

  lemma {:induction false} KeptIff(raws: seq<PeerInfo>, blacklistedIPs: seq<string>, p: PeerInfo)
    requires SanitizeAll(raws).Some?
    ensures p in NotBlacklisted(SanitizeAll(raws).value, blacklistedIPs)
       <==> p.ipAddress !in blacklistedIPs && exists i :: 0 <= i < |raws| && Cleaned(raws[i], p)
  {
    hide NormalizeAddress, SanitizeAll;
    var all := SanitizeAll(raws).value;
    forall i | 0 <= i < |raws| ensures Cleaned(raws[i], p) <==> all[i] == p {
      assert SanitizePeerInfo(raws[i]) == Some(all[i]);
    }
    if p in all {
      var i :| 0 <= i < |all| && all[i] == p;
      assert Cleaned(raws[i], p);
    }
    if exists i :: 0 <= i < |raws| && Cleaned(raws[i], p) {
      var i :| 0 <= i < |raws| && Cleaned(raws[i], p);
      assert all[i] == p;
    }
  }

  // Seed, fixed and previous peers survive exactly when their normalised address is not blacklisted, each under it and
  // else as configured.
  lemma OthersKeptIff(lists: PeerLists, blacklistedIPs: seq<string>, p: PeerInfo)
    requires SanitizePeerLists(lists, blacklistedIPs).Some?
    ensures var clean := SanitizePeerLists(lists, blacklistedIPs).value;
      && (p in clean.seedPeers <==>
            && p.ipAddress !in blacklistedIPs
            && exists i :: 0 <= i < |lists.seedPeers| && Cleaned(lists.seedPeers[i], p))
      && (p in clean.fixedPeers <==>
            && p.ipAddress !in blacklistedIPs
            && exists i :: 0 <= i < |lists.fixedPeers| && Cleaned(lists.fixedPeers[i], p))
      && (p in clean.previousPeers <==>
            && p.ipAddress !in blacklistedIPs
            && exists i :: 0 <= i < |lists.previousPeers| && Cleaned(lists.previousPeers[i], p))
  {
    hide Cleaned, NotBlacklisted, SanitizeAll;
    KeptIff(lists.seedPeers, blacklistedIPs, p);
    KeptIff(lists.fixedPeers, blacklistedIPs, p);
    KeptIff(lists.previousPeers, blacklistedIPs, p);
  }

  // A configured whitelisted peer survives exactly when its normalised address is not blacklisted, and no
  // configured fixed or seed peer with an address that is not blacklisted has its id.
  lemma WhitelistedKeptIff(lists: PeerLists, blacklistedIPs: seq<string>, i: nat)
    requires SanitizePeerLists(lists, blacklistedIPs).Some? && i < |lists.whitelisted|
    ensures SanitizePeerInfo(lists.whitelisted[i]).Some?
    ensures var p := SanitizePeerInfo(lists.whitelisted[i]).value;
      p in SanitizePeerLists(lists, blacklistedIPs).value.whitelisted
      <==> p.ipAddress !in blacklistedIPs
           && !Claims(lists.fixedPeers, blacklistedIPs, PeerIdOf(p))
           && !Claims(lists.seedPeers, blacklistedIPs, PeerIdOf(p))
  {
    hide SanitizePeerInfo, PeerIdOf;
    var whites := SanitizeAll(lists.whitelisted).value;
    var p := whites[i];
    assert SanitizePeerInfo(lists.whitelisted[i]) == Some(p) && p in whites;
    ClaimsIff(lists.fixedPeers, blacklistedIPs, PeerIdOf(p));
    ClaimsIff(lists.seedPeers, blacklistedIPs, PeerIdOf(p));
  }

  // Lists of supported addresses never make it throw, and give addresses in normal form.
  lemma SupportedLists(ps: seq<PeerInfo>)
    requires forall p | p in ps :: IsSupported(p.ipAddress)
    ensures SanitizeAll(ps).Some? && forall p | p in SanitizeAll(ps).value :: IsNormalIp(p.ipAddress)
  {
    hide NormalizeAddress, IsSupported, IsNormalIp;
    forall i | 0 <= i < |ps|
      ensures SanitizePeerInfo(ps[i]).Some? && IsNormalIp(SanitizePeerInfo(ps[i]).value.ipAddress)
    {
      assert ps[i] in ps;
      NormalizeSupported(ps[i].ipAddress);
    }
  }
}
