// Peer descriptions and the bucket and key they are stored under.
module Peers {
  import opened Wrappers
  import opened Text
  import opened Address
  import opened PeerId
  import opened Bucket

  // `isPassive` and `height` are the properties the library looks at; `rest` holds all others.
  datatype PeerInfo = PeerInfo(
    ipAddress: string, wsPort: nat, isPassive: bool, height: int, rest: map<string, string>)

  // `{ ...old, ...new }`
  function Merge(before: PeerInfo, after: PeerInfo): PeerInfo {
    after.(rest := before.rest + after.rest)
  }

  // What the later description says, and the properties that only the earlier one has.
  lemma MergeIs(before: PeerInfo, after: PeerInfo)
    ensures var r := Merge(before, after);
      && r.ipAddress == after.ipAddress && r.wsPort == after.wsPort
      && r.isPassive == after.isPassive && r.height == after.height
      && forall x ::
           && (x in r.rest <==> x in before.rest || x in after.rest)
           && (x in after.rest ==> r.rest[x] == after.rest[x])
           && (x in before.rest && x !in after.rest ==> r.rest[x] == before.rest[x])
  {}

  // The addresses for which neither the bucket nor the peer id computation throws.
  predicate Addressable(ip: string) {
    GetNetwork(ip).Some? && GetNetwork(ip).value != NetOther
  }

  lemma AddressableHasId(ip: string, port: nat)
    requires Addressable(ip)
    ensures GetPeerId(ip, port).Some?
  {
    if IsIPv4(ip) { IPv4Chars(ip); NoColonNotIPv6(ip); }
  }

  lemma AddressableHasBucket(hash: Hash, secret: nat, ip: string, bucketCount: nat)
    requires bucketCount >= 1
    ensures Addressable(ip) <==> GetBucketId(hash, secret, ip, bucketCount).Some?
  {}

  lemma NormalIsAddressable(ip: string)
    requires IsNormalIp(ip)
    ensures Addressable(ip)
  {
    NormalIpFixed(ip);
    SupportedHasBucket((b: seq<nat>) => 0, 0, ip, 1);
  }

  // The id of a peer; used only where computing it does not throw.
  function PeerIdOf(info: PeerInfo): string {
    match GetPeerId(info.ipAddress, info.wsPort)
    case Some(id) => id
    case None => ""
  }

  lemma PeerIdOfInjective(a: PeerInfo, b: PeerInfo)
    requires IsNormalIp(a.ipAddress) && IsNormalIp(b.ipAddress)
    requires PeerIdOf(a) == PeerIdOf(b)
    ensures a.ipAddress == b.ipAddress && a.wsPort == b.wsPort
  {
    NormalIsAddressable(a.ipAddress);
    NormalIsAddressable(b.ipAddress);
    AddressableHasId(a.ipAddress, a.wsPort);
    AddressableHasId(b.ipAddress, b.wsPort);
    PeerIdInjective(a.ipAddress, a.wsPort, b.ipAddress, b.wsPort);
  }

  // ----- ids of addresses in any spelling --------------------------------------------------------

  lemma BracketedText(ip: string)
    requires ip != "" && ip[0] == '['
    ensures !IsIPv4(ip) && !IsIPv6(ip) && !IsPrivate(ip)
  {
    if IsIPv4(ip) { IPv4Chars(ip); }
    var first := Split(ip, ':')[0];
    assert first != "" && first[0] == '[' && '[' in first;
    assert Prefix2(first)[0] == '[';
    if IsIPv6(ip) {
      var t := ParseIPv6(ip).value;
      RenderParse(ip);
      RenderParts(t);
      assert t.Parts()[0] == first;
      assert !IsGroup(first);
      if IsIPv4(first) { IPv4Chars(first); }
    }
  }

  lemma BracketedNotLocal(ip: string)
    requires ip != "" && ip[0] == '['
    ensures NormalizeIPv6(ip) != Some("0:0:0:0:0:0:0:1")
  {
    if NormalizeIPv6(ip).Some? {
      var text := ReplaceDoubleColons(ip, Colons(7 - CountColons(ip)));
      assert text[0] == '[';
      var first := Split(text, ':')[0];
      assert first[0] == '[';
      assert PartText(first) == "NaN";
      assert PartTexts(Split(text, ':'))[0] == "NaN";
      assert NormalizeIPv6(ip).value[0] == 'N';
    }
  }

  // No address that has a bucket is written in brackets.
  lemma AddressableNotBracketed(ip: string)
    requires Addressable(ip)
    ensures ip == "" || ip[0] != '['
  {
    hide IsIPv4, IsIPv6, NormalizeIPv6, IsPrivate;
    if ip != "" && ip[0] == '[' {
      BracketedText(ip);
      BracketedNotLocal(ip);
    }
  }

  // An address that has a bucket and the id of a normal form has that normal form.
  lemma SameIdSameForm(x: PeerInfo, f: PeerInfo)
    requires Addressable(x.ipAddress) && IsNormalIp(f.ipAddress) && PeerIdOf(x) == PeerIdOf(f)
    ensures Form(x.ipAddress) == Some(f.ipAddress)
  {
    hide Addressable, IsNormalIp, IsIPv4, IsIPv6, GetPeerId, NormalizeAddress;
    NormalIsAddressable(f.ipAddress);
    AddressableHasId(x.ipAddress, x.wsPort);
    AddressableHasId(f.ipAddress, f.wsPort);
    HasForm(x.ipAddress, x.wsPort);
    NormalIpFixed(f.ipAddress);
    IdBodies(x.ipAddress, x.wsPort, f.ipAddress, f.wsPort);
    AddressableNotBracketed(x.ipAddress);
    UnbracketedForm(x.ipAddress);
    if IsIPv6(f.ipAddress) {
      assert Body(NormalizeAddress(f.ipAddress).value)[1..|f.ipAddress| + 1] == f.ipAddress;
    }
  }

  lemma HasForm(ip: string, port: nat)
    requires GetPeerId(ip, port).Some?
    ensures NormalizeAddress(ip).Some?
  {}

  // Unless the protocol is IPv6 the body of the id has no bracket in front.
  lemma UnbracketedForm(ip: string)
    requires NormalizeAddress(ip).Some? && (ip == "" || ip[0] != '[')
    ensures var n := NormalizeAddress(ip).value;
      && (n.protocol.IPv4? && n.address != "" ==> n.address[0] != '[')
      && (n.protocol.IPv6? ==> Body(n)[0] == '[' && Body(n)[1..|Body(n)| - 1] == n.address)
  {
    if IsIPv6(ip) && HybridQuad(ip).Some? { LooseQuadChars(HybridQuad(ip).value); }
  }
}
