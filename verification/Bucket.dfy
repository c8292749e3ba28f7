// Which bucket an address falls in (src/utils.js). SHA-256 is an arbitrary function from bytes to
// the number read from the first four bytes of the digest.
module Bucket {
  import opened Wrappers
  import opened Text
  import opened Address

  type Hash = seq<nat> -> nat

  datatype Network = NetIPv4 | NetIPv6 | NetPrivate | NetLocal | NetOther {
    function Code(): nat {
      match this
      case NetIPv4 => 0
      case NetIPv6 => 1
      case NetPrivate => 2
      case NetLocal => 3
      case NetOther => 4
    }
  }

  function FirstOctets(ip: string): (nat, nat)
    requires IsIPv4(ip)
  {
    var parts := Split(ip, '.');
    (Value(parts[0], 10), Value(parts[1], 10))
  }

  function Prefix2(s: string): string {
    if |s| <= 2 then s else s[..2]
  }

  predicate IsPrivate(ip: string) {
    if IsIPv4(ip) then
      var (a, b) := FirstOctets(ip);
      a == 10 || (a == 172 && 16 <= b <= 31)
    else Prefix2(Split(ip, ':')[0]) in ["fc", "fd"]
  }

  // None means that the normalisation throws.
  function IsLocal(ip: string): Option<bool> {
    if IsIPv4(ip) then Some(FirstOctets(ip).0 in [127, 0])
    else
      match NormalizeIPv6(ip)
      case Some(n) => Some(n == "0:0:0:0:0:0:0:1")
      case None => None
  }

  function GetNetwork(ip: string): Option<Network> {
    match IsLocal(ip)
    case None => None
    case Some(local) => Some(
      if local then NetLocal
      else if IsPrivate(ip) then NetPrivate
      else if IsIPv4(ip) then NetIPv4
      else if IsIPv6(ip) then NetIPv6
      else NetOther)
  }

  function PadTo4(p: string): string
    decreases 4 - |p|
  {
    if |p| >= 4 then p else PadTo4("0" + p)
  }

  // `Buffer.from(text, "hex")`
  function HexBytes(text: string): seq<nat> {
    if |text| < 2 then [] else [Value(text[..2], 16)] + HexBytes(text[2..])
  }

  function PartsBytes(parts: seq<string>): seq<nat> {
    if parts == [] then [] else HexBytes(PadTo4(parts[0])) + PartsBytes(parts[1..])
  }

  // `getIPV6Bytes`; None means that the normalisation throws.
  function IPv6Bytes(ip: string): Option<seq<nat>> {
    match NormalizeIPv6(ip)
    case Some(n) => Some(PartsBytes(Split(n, ':')))
    case None => None
  }

  function IPv4Bytes(ip: string): seq<nat>
    requires IsIPv4(ip)
  {
    var parts := Split(ip, '.');
    seq(4, i requires 0 <= i < 4 => Value(parts[i], 10))
  }

  // The four bytes of `writeUInt32BE`.
  function UInt32Bytes(n: nat): (r: seq<nat>)
    ensures |r| == 4
  {
    [n / 0x1000000 % 256, n / 0x10000 % 256, n / 0x100 % 256, n % 256]
  }

  // The bytes that are hashed; None means that `getBucketId` throws.
  function BucketBytes(secret: nat, ip: string): Option<seq<nat>> {
    match GetNetwork(ip)
    case None => None
    case Some(network) =>
      var head := UInt32Bytes(secret) + [network.Code()];
      match network
      case NetOther => None
      case NetIPv6 => (match IPv6Bytes(ip) case Some(b) => Some(head + b) case None => None)
      case NetIPv4 => if IsIPv4(ip) then Some(head + IPv4Bytes(ip)) else None
      case _ => Some(head)
  }

  // `getBucketId`
  function GetBucketId(hash: Hash, secret: nat, ip: string, bucketCount: nat): (id: Option<nat>)
    requires bucketCount >= 1
    ensures id.Some? ==> id.value < bucketCount
  {
    match BucketBytes(secret, ip)
    case Some(bytes) => Some(hash(bytes) % bucketCount)
    case None => None
  }

  // ----- the sixteen bytes ------------------------------------------------------------------------

  lemma ValueConcat2(p: string, a: char, b: char)
    ensures Value(p + [a, b], 16) == Value(p, 16) * 256 + Value([a, b], 16)
  {
    assert p + [a, b] == p + [a] + [b] && [a, b] == [a] + [b] && [a] == "" + [a];
    ValueSnoc(p + [a], b, 16);
    ValueSnoc(p, a, 16);
    ValueSnoc([a], b, 16);
    ValueSnoc("", a, 16);
  }

  lemma {:induction false} LeadingZero(p: string)
    ensures Value("0" + p, 16) == Value(p, 16)
  {
    if p == "" {
      assert "0"[..0] == "";
    } else {
      LeadingZero(p[..|p| - 1]);
      assert ("0" + p)[..|p|] == "0" + p[..|p| - 1];
    }
  }

  lemma PadKeepsValue(p: string)
    requires |p| <= 4 && AllDigits(p, 16)
    ensures |PadTo4(p)| == 4 && AllDigits(PadTo4(p), 16) && Value(PadTo4(p), 16) == Value(p, 16)
    decreases 4 - |p|
  {
    if |p| < 4 {
      LeadingZero(p);
      PadKeepsValue("0" + p);
    }
  }

  lemma FourDigitBytes(q: string)
    requires |q| == 4 && AllDigits(q, 16)
    ensures HexBytes(q) == [Value(q, 16) / 256, Value(q, 16) % 256]
  {
    assert q == q[..2] + [q[2], q[3]] && q[2..] == [q[2], q[3]];
    ValueConcat2(q[..2], q[2], q[3]);
    HexValueBound(q[2..]);
    assert q[2..][..2] == q[2..];
    assert HexBytes(q[2..]) == [Value(q[2..], 16)] + HexBytes(q[2..][2..]);
  }

  lemma NumeralBytes(v: nat)
    requires v < 0x10000
    ensures HexBytes(PadTo4(Numeral(v, 16))) == [v / 256, v % 256]
  {
    NumeralGroup(v);
    PadKeepsValue(Numeral(v, 16));
    FourDigitBytes(PadTo4(Numeral(v, 16)));
  }

  function GroupBytes(groups: seq<nat>): seq<nat> {
    if groups == [] then [] else [groups[0] / 256, groups[0] % 256] + GroupBytes(groups[1..])
  }

  lemma {:induction false} NumeralsBytes(groups: seq<nat>)
    requires Are16Bit(groups)
    ensures PartsBytes(Numerals(groups)) == GroupBytes(groups)
  {
    if groups != [] {
      assert groups[0] in groups && forall g | g in groups[1..] :: g in groups;
      NumeralBytes(groups[0]);
      assert Numerals(groups)[1..] == Numerals(groups[1..]);
      NumeralsBytes(groups[1..]);
    }
  }

  lemma {:induction false} GroupBytesAt(groups: seq<nat>, i: nat)
    requires i < |groups|
    ensures |GroupBytes(groups)| == 2 * |groups|
    ensures GroupBytes(groups)[2 * i] == groups[i] / 256
    ensures GroupBytes(groups)[2 * i + 1] == groups[i] % 256
  {
    if |groups| > 1 { GroupBytesAt(groups[1..], if i > 0 then i - 1 else 0); }
  }

  lemma GroupBytesInjective(g: seq<nat>, h: seq<nat>)
    requires |g| == |h| && GroupBytes(g) == GroupBytes(h)
    ensures g == h
  {
    forall i | 0 <= i < |g| ensures g[i] == h[i] {
      GroupBytesAt(g, i);
      GroupBytesAt(h, i);
    }
  }

  // `getIPV6Bytes` gives the sixteen bytes of the address, most significant first.
  lemma IPv6BytesBigEndian(ip: string)
    requires IsPlainIPv6(ip) && CountColons(ip) <= 7
    ensures IPv6Bytes(ip).Some? && |IPv6Bytes(ip).value| == 16
    ensures forall i | 0 <= i < 8 ::
      IPv6Bytes(ip).value[2 * i] * 256 + IPv6Bytes(ip).value[2 * i + 1] == Meaning(ip)[i]
    ensures IPv6Bytes(ip) == Some(GroupBytes(Meaning(ip)))
  {
    NormalizeIPv6Meaning(ip);
    var g := Meaning(ip);
    CanonicalTextStable(g);
    NumeralsBytes(g);
    forall i | 0 <= i < 8
      ensures |GroupBytes(g)| == 16 && GroupBytes(g)[2 * i] * 256 + GroupBytes(g)[2 * i + 1] == g[i]
    {
      GroupBytesAt(g, i);
    }
  }

  // Two spellings give the same bytes exactly when they mean the same address.
  lemma IPv6BytesInjective(a: string, b: string)
    requires IsPlainIPv6(a) && CountColons(a) <= 7 && IsPlainIPv6(b) && CountColons(b) <= 7
    ensures IPv6Bytes(a) == IPv6Bytes(b) <==> Meaning(a) == Meaning(b)
  {
    IPv6BytesBigEndian(a);
    IPv6BytesBigEndian(b);
    if IPv6Bytes(a) == IPv6Bytes(b) { GroupBytesInjective(Meaning(a), Meaning(b)); }
  }

  // ----- when a bucket exists, and when it depends on the spelling ----------------------------------

  // Among IP addresses exactly those texts have no bucket that leave out one zero group at either end; any
  // other text has one when its first characters pass for a private IPv6 prefix, or it reads as the loopback
  // address, and it does not have too many colons.
  lemma BucketExistsIff(hash: Hash, secret: nat, ip: string, bucketCount: nat)
    requires bucketCount >= 1
    ensures GetBucketId(hash, secret, ip, bucketCount).Some?
       <==> if IsIPv4(ip) then true
            else if IsIPv6(ip) then !EightColons(ParseIPv6(ip).value)
            else CountColons(ip) <= 7 && (IsPrivate(ip) || NormalizeIPv6(ip) == Some("0:0:0:0:0:0:0:1"))
  {
    if IsIPv6(ip) { NormalizeThrowsIff(ip); }
  }

  lemma SupportedColons(ip: string)
    requires IsSupported(ip) && IsIPv6(ip)
    ensures CountColons(ip) <= 7
  {
    if HybridQuad(ip).Some? {
      var t := ParseIPv6(ip).value;
      RenderParse(ip);
      RenderParts(t);
      CountIsSplit(ip);
      HybridLast(ip);
    } else if IsIPv4(ip) {
      IPv4Chars(ip);
      NoColonNotIPv6(ip);
    }
  }

  // Every supported address has a bucket.
  lemma SupportedHasBucket(hash: Hash, secret: nat, ip: string, bucketCount: nat)
    requires bucketCount >= 1 && IsSupported(ip)
    ensures GetBucketId(hash, secret, ip, bucketCount).Some? && BucketBytes(secret, ip).Some?
    ensures GetNetwork(ip).Some? && GetNetwork(ip).value != NetOther
  {
    hide IsIPv4, ParseIPv6, HybridQuad, CountColons;
    SupportedForms(ip);
  }

  lemma SupportedForms(ip: string)
    requires IsSupported(ip)
    ensures IsIPv4(ip) || (IsIPv6(ip) && CountColons(ip) <= 7)
  {
    if !IsIPv4(ip) { SupportedColons(ip); }
  }

  lemma BytesShowNetwork(secret: nat, ip: string)
    requires BucketBytes(secret, ip).Some?
    ensures var b, net := BucketBytes(secret, ip).value, GetNetwork(ip).value;
      && |b| >= 5 && b[4] == net.Code()
      && (net.NetLocal? || net.NetPrivate? ==> b == UInt32Bytes(secret) + [net.Code()])
      && (net.NetIPv6? ==> IPv6Bytes(ip).Some? && b == UInt32Bytes(secret) + [1] + IPv6Bytes(ip).value)
  {}

  lemma SameIPv6Bytes(ip: string)
    requires IsSupported(ip) && NormalizeAddress(ip).Some? && IsIPv6(NormalizeAddress(ip).value.address)
    ensures IPv6Bytes(NormalizeAddress(ip).value.address) == IPv6Bytes(ip)
  {
    NormalizeSupported(ip);
    SameMeaningBytes(ip, NormalizeAddress(ip).value.address);
  }

  lemma SameMeaningBytes(ip: string, n: string)
    requires IsSupported(ip) && IsPlainIPv6(ip) && IsNormalIp(n) && IsIPv6(n)
    requires Meaning(n) == Meaning(ip)
    ensures IPv6Bytes(n) == IPv6Bytes(ip)
  {
    var groups := NormalIpGroups(n);
    SupportedColons(ip);
    IPv6BytesInjective(n, ip);
  }

  lemma SameNetworkSameBytes(secret: nat, ip: string)
    requires IsSupported(ip) && NormalizeAddress(ip).Some? && IsSupported(NormalizeAddress(ip).value.address)
    ensures var n := NormalizeAddress(ip).value.address;
      GetNetwork(n) == GetNetwork(ip) <==> BucketBytes(secret, n) == BucketBytes(secret, ip)
  {
    hide BucketBytes, GetNetwork, IsSupported, NormalizeAddress, IPv6Bytes, IsIPv6, IsIPv4, UInt32Bytes;
    var n := NormalizeAddress(ip).value.address;
    var hash := (b: seq<nat>) => 0;
    SupportedHasBucket(hash, secret, ip, 1);
    SupportedHasBucket(hash, secret, n, 1);
    BytesShowNetwork(secret, ip);
    BytesShowNetwork(secret, n);
    if GetNetwork(n) == GetNetwork(ip) {
      match GetNetwork(ip).value
      case NetIPv6 =>
        NetworkIPv6(n);
        SameIPv6Bytes(ip);
      case NetIPv4 => NetworkIPv4(ip);
      case _ =>
    }
  }

  lemma NetworkIPv6(ip: string)
    requires GetNetwork(ip) == Some(NetIPv6)
    ensures IsIPv6(ip)
  {}

  lemma NetworkIPv4(ip: string)
    requires GetNetwork(ip) == Some(NetIPv4) && NormalizeAddress(ip).Some?
    ensures NormalizeAddress(ip).value.address == ip
  {
    assert IsIPv4(ip);
    IPv4Chars(ip);
    NoColonNotIPv6(ip);
  }

  lemma SeparatingHash(hash: Hash, secret: nat, a: string, b: string, bucketCount: nat)
    requires bucketCount >= 2 && IsSupported(a) && IsSupported(b)
    requires BucketBytes(secret, a) != BucketBytes(secret, b)
    requires forall bytes :: hash(bytes) == if Some(bytes) == BucketBytes(secret, a) then 0 else 1
    ensures GetBucketId(hash, secret, a, bucketCount) != GetBucketId(hash, secret, b, bucketCount)
  {
    SupportedHasBucket(hash, secret, a, bucketCount);
    SupportedHasBucket(hash, secret, b, bucketCount);
  }

  lemma SameBucketIffSameBytes(secret: nat, a: string, b: string, bucketCount: nat)
    requires bucketCount >= 2 && IsSupported(a) && IsSupported(b)
    ensures (forall hash: Hash ::
               GetBucketId(hash, secret, a, bucketCount) == GetBucketId(hash, secret, b, bucketCount))
       <==> BucketBytes(secret, a) == BucketBytes(secret, b)
  {
    hide BucketBytes, IsSupported;
    if BucketBytes(secret, a) != BucketBytes(secret, b) {
      var hash: Hash := bytes => if Some(bytes) == BucketBytes(secret, a) then 0 else 1;
      SeparatingHash(hash, secret, a, b, bucketCount);
    }
  }

  // An address and its normal form fall in the same bucket, whatever the hash, exactly when they
  // are classified as the same kind of network.
  lemma BucketSpellingIff(secret: nat, ip: string, bucketCount: nat)
    requires bucketCount >= 2 && IsSupported(ip)
    ensures NormalizeAddress(ip).Some?
    ensures var n := NormalizeAddress(ip).value.address;
      (forall hash: Hash :: GetBucketId(hash, secret, n, bucketCount) == GetBucketId(hash, secret, ip, bucketCount))
      <==> GetNetwork(n) == GetNetwork(ip)
  {
    NormalizeSupported(ip);
    NormalIpFixed(NormalizeAddress(ip).value.address);
    SameNetworkSameBytes(secret, ip);
    SameBucketIffSameBytes(secret, NormalizeAddress(ip).value.address, ip, bucketCount);
  }

  // For plain IPv6 text the network is the same exactly when the address is the loopback one or
  // the two-character test for `fc`/`fd` gives the same answer on both spellings ...
  lemma PlainNetworkIff(ip: string)
    requires IsPlainIPv6(ip) && CountColons(ip) <= 7
    ensures NormalizeIPv6(ip).Some?
    ensures var n := NormalizeIPv6(ip).value;
      GetNetwork(n) == GetNetwork(ip) <==> IsLocal(ip) == Some(true) || IsPrivate(n) == IsPrivate(ip)
  {
    NormalizeIPv6Meaning(ip);
    CanonicalTextStable(Meaning(ip));
    if IsIPv4(ip) { IPv4Chars(ip); NoColonNotIPv6(ip); }
    var n := NormalizeIPv6(ip).value;
    if IsIPv4(n) { IPv4Chars(n); NoColonNotIPv6(n); }
  }

  // ... which is so when the first group is left out, or is in lower case without leading zeros.
  lemma PlainNetworkSame(ip: string)
    requires IsPlainIPv6(ip) && CountColons(ip) <= 7
    requires var first := Split(ip, ':')[0];
      first == "" || first == Numeral(Value(first, 16), 16)
    ensures NormalizeIPv6(ip).Some? && GetNetwork(NormalizeIPv6(ip).value) == GetNetwork(ip)
  {
    hide IsIPv4, IsGroup, ParseIPv6, Meaning, NormalizeIPv6, Split, Numeral, GetNetwork, IsLocal, PartRead, Value;
    PlainNetworkIff(ip);
    FirstPart(ip);
    SameFirstPart(ip);
    var n := NormalizeIPv6(ip).value;
    NormalizeIPv6Meaning(ip);
    CanonicalTextStable(Meaning(ip));
    PlainIsNotIPv4(ip);
    PlainIsNotIPv4(n);
  }

  // ... A text that is folded to a quad is no loopback address as written, so its network is that of the quad
  // exactly when both are taken for private.
  lemma FoldedNetworkIff(ip: string)
    requires IsIPv6(ip) && HybridQuad(ip).Some?
    ensures GetNetwork(HybridQuad(ip).value) == GetNetwork(ip) <==> IsPrivate(HybridQuad(ip).value) && IsPrivate(ip)
  {
    hide NormalizeIPv6, HybridQuad, ParseIPv6, IsIPv4;
    FoldedIsIPv4(ip);
    FoldedNotLocal(ip);
  }

  lemma FoldedIsIPv4(ip: string)
    requires IsIPv6(ip) && HybridQuad(ip).Some?
    ensures IsIPv4(HybridQuad(ip).value) && !IsIPv4(ip)
  {
    HybridLast(ip);
    if IsIPv4(ip) { IPv4Chars(ip); NoColonNotIPv6(ip); }
  }

  // The `ffff` before the quad is still there.
  lemma FoldedNotLocal(ip: string)
    requires IsIPv6(ip) && HybridQuad(ip).Some?
    ensures NormalizeIPv6(ip).Some? && NormalizeIPv6(ip) != Some("0:0:0:0:0:0:0:1")
  {
    hide IsIPv4, NormalizeIPv6, PartRead, HybridQuad, ParseIPv6, Expanded, Numeral, Join, IsGroup;
    FoldedPart(ip);
    var t := ParseIPv6(ip).value;
    RenderParse(ip);
    NormalizeReads(t);
    var g := ReadParts(Expanded(t));
    FfffRead();
    JoinHas(Numerals(g), ':', 'f', |g| - 2);
    assert 'f' !in "0:0:0:0:0:0:0:1";
  }

  lemma FoldedPart(ip: string)
    requires IsIPv6(ip) && HybridQuad(ip).Some?
    ensures var t := ParseIPv6(ip).value;
      |t.Parts()| <= 8 && |Expanded(t)| >= 2 && Expanded(t)[|Expanded(t)| - 2] == "ffff"
  {
    hide HybridQuad, IsIPv4, IPv6Text.Plain, AreGroups, Width;
    HybridLast(ip);
    FoldedExpanded(ParseIPv6(ip).value);
  }

  lemma FoldedExpanded(t: IPv6Text)
    requires t.Valid() && !t.Plain()
    requires t.Full? ==> |t.parts| == 7 && t.parts[5] == "ffff"
    requires t.Compressed? ==> |t.right| >= 2 && t.right[|t.right| - 2] == "ffff"
    ensures |t.Parts()| <= 8 && |Expanded(t)| >= 2 && Expanded(t)[|Expanded(t)| - 2] == "ffff"
  {
    hide IsIPv4, IsGroup;
  }

  lemma FfffRead()
    ensures PartRead("ffff") == 0xffff && 'f' in Numeral(0xffff, 16)
  {
    FfffValue();
    assert IsGroup("ffff");
    PartTextRead("ffff");
    assert Numeral(0xffff, 16) == Numeral(0xfff, 16) + ['f'];
  }

  lemma {:induction false} JoinHas(parts: seq<string>, sep: char, c: char, i: nat)
    requires i < |parts| && c in parts[i]
    ensures c in Join(parts, sep)
  {
    if |parts| > 1 && i > 0 { JoinHas(parts[1..], sep, c, i - 1); }
  }

  // The network differs for a private address in upper case: `FC00` is not taken for a private prefix, but the
  // `fc00` of the normal form is.
  lemma UpperCasePrivate(rest: seq<string>)
    requires |rest| == 7 && forall g | g in rest :: IsGroup(g)
    ensures var ip := Join(["FC00"] + rest, ':');
      && IsPlainIPv6(ip) && CountColons(ip) == 7 && GetNetwork(ip) == Some(NetIPv6)
      && NormalizeIPv6(ip).Some? && GetNetwork(NormalizeIPv6(ip).value) == Some(NetPrivate)
  {
    hide IsIPv4, IsPlainIPv6, Meaning, NormalizeIPv6, Split, Join, Numeral;
    var ip := Join(["FC00"] + rest, ':');
    UpperCaseParts(rest);
    PlainIsIPv6(ip);
    NormalizeIPv6Meaning(ip);
    CanonicalTextStable(Meaning(ip));
    PlainIsNotIPv4(ip);
    PlainIsNotIPv4(CanonicalText(Meaning(ip)));
    Fc00Text();
    LoopbackHead();
  }

  // So the two spellings, which have the same id, are hashed from different bytes.
  lemma UpperCaseNormalForm(rest: seq<string>)
    requires |rest| == 7 && forall g | g in rest :: IsGroup(g)
    ensures var raw := Join(["FC00"] + rest, ':');
      && IsSupported(raw) && NormalizeAddress(raw).Some?
      && var n := NormalizeAddress(raw).value.address;
      && IsSupported(n) && n != raw && GetNetwork(n) != GetNetwork(raw)
      && forall secret :: BucketBytes(secret, raw) != BucketBytes(secret, n)
  {
    hide IsIPv4, IsPlainIPv6, Meaning, NormalizeIPv6, Split, Join, IsNormalIp, GetNetwork, BucketBytes, HybridQuad;
    var raw := Join(["FC00"] + rest, ':');
    UpperCasePrivate(rest);
    PlainIsIPv6(raw);
    PlainNotFolded(raw);
    NormalizeSupported(raw);
    var n := NormalizeAddress(raw).value.address;
    NormalIpFixed(n);
    forall secret ensures BucketBytes(secret, raw) != BucketBytes(secret, n) {
      SupportedHasBucket(b => 0, secret, raw, 1);
      SupportedHasBucket(b => 0, secret, n, 1);
      BytesShowNetwork(secret, raw);
      BytesShowNetwork(secret, n);
    }
  }

  lemma PlainNotFolded(ip: string)
    requires IsPlainIPv6(ip)
    ensures HybridQuad(ip).None?
  {
    if HybridQuad(ip).Some? { HybridLast(ip); }
  }

  lemma UpperCaseParts(rest: seq<string>)
    requires |rest| == 7 && forall g | g in rest :: IsGroup(g)
    ensures var ip := Join(["FC00"] + rest, ':');
      && IsPlainIPv6(ip) && CountColons(ip) == 7 && Split(ip, ':')[0] == "FC00" && Meaning(ip)[0] == 0xfc00
  {
    hide IsIPv4, IsGroup, Join, Split, CountColons, Value;
    var parts := ["FC00"] + rest;
    Fc00Text();
    forall g | g in parts ensures IsGroup(g) && !IsIPv4(g) { GroupChars(g); }
    var ip := Join(parts, ':');
    assert ip == Full(parts).Render();
    ParseRender(Full(parts));
    RenderParts(Full(parts));
    CountIsSplit(ip);
  }

  lemma PlainIsIPv6(ip: string)
    requires IsPlainIPv6(ip)
    ensures IsIPv6(ip)
  {}

  lemma Fc00Text()
    ensures IsGroup("FC00") && Value("FC00", 16) == 0xfc00 && Prefix2("FC00") == "FC"
    ensures Numeral(0xfc00, 16) != "0" && Prefix2(Numeral(0xfc00, 16)) == "fc"
  {
    assert "FC00"[..3] == "FC0" && "FC0"[..2] == "FC" && "FC"[..1] == "F" && "F"[..0] == "";
    assert Numeral(0xfc00, 16) == Numeral(0xfc, 16) + ['0'] + ['0'];
    assert Numeral(0xfc, 16) == ['f'] + ['c'];
  }

  lemma LoopbackHead()
    ensures Split("0:0:0:0:0:0:0:1", ':')[0] == "0"
  {
    assert "0:0:0:0:0:0:0:1" == "0" + [':'] + "0:0:0:0:0:0:1";
    SplitHead("0", "0:0:0:0:0:0:1", ':');
  }

  lemma PlainIsNotIPv4(ip: string)
    requires IsPlainIPv6(ip)
    ensures !IsIPv4(ip)
  {
    if IsIPv4(ip) { IPv4Chars(ip); NoColonNotIPv6(ip); }
  }

  // The first part of the text is the first group of the address, or empty for a zero group.
  lemma FirstPart(ip: string)
    requires IsPlainIPv6(ip) && CountColons(ip) <= 7
    ensures var first := Split(ip, ':')[0];
      (first == "" || IsGroup(first)) && Meaning(ip)[0] == PartRead(first)
  {
    hide IsGroup, IsIPv4;
    var t := ParseIPv6(ip).value;
    RenderParse(ip);
    RenderParts(t);
    CountIsSplit(ip);
    ReadsMeaning(t);
    assert Expanded(t)[0] == Split(ip, ':')[0];
    FirstOfParts(t);
  }

  lemma FirstOfParts(t: IPv6Text)
    requires t.Valid() && t.Plain()
    ensures t.Parts()[0] == "" || IsGroup(t.Parts()[0])
  {}

  lemma SameFirstPart(ip: string)
    requires IsPlainIPv6(ip) && CountColons(ip) <= 7
    requires var first := Split(ip, ':')[0];
      && (first == "" || first == Numeral(Value(first, 16), 16))
      && (first == "" || IsGroup(first)) && Meaning(ip)[0] == PartRead(first)
    ensures NormalizeIPv6(ip).Some?
    ensures var first := Split(ip, ':')[0];
      Split(NormalizeIPv6(ip).value, ':')[0] == if first == "" then "0" else first
  {
    hide IsGroup, IsIPv4;
    NormalizeIPv6Meaning(ip);
    CanonicalTextStable(Meaning(ip));
    PartTextRead(Split(ip, ':')[0]);
  }
}
