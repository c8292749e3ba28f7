// How addresses are classified, and which bytes are hashed for a bucket (src/utils.js), said of the numbers that the
// addresses are written with.
module Networks {
  import opened Wrappers
  import opened Text
  import opened Address
  import opened Bucket

  // ----- dotted quads ----------------------------------------------------------------------------

  predicate AreBytes(b: seq<nat>) {
    |b| == 4 && b[0] < 256 && b[1] < 256 && b[2] < 256 && b[3] < 256
  }

  // The text of a quad: four decimal numbers without leading zeros.
  function Quad(b: seq<nat>): string
    requires AreBytes(b)
  {
    Join([Numeral(b[0], 10), Numeral(b[1], 10), Numeral(b[2], 10), Numeral(b[3], 10)], '.')
  }

  lemma NumeralOctet(v: nat)
    requires v < 256
    ensures IsOctet(Numeral(v, 10)) && '.' !in Numeral(v, 10) && Value(Numeral(v, 10), 10) == v
  {
    NumeralValue(v, 10);
    DigitsExclude(Numeral(v, 10), 10, '.');
  }

  lemma QuadSplit(b: seq<nat>)
    requires AreBytes(b)
    ensures Split(Quad(b), '.') == [Numeral(b[0], 10), Numeral(b[1], 10), Numeral(b[2], 10), Numeral(b[3], 10)]
    ensures forall i | 0 <= i < 4 ::
      IsOctet(Split(Quad(b), '.')[i]) && Value(Split(Quad(b), '.')[i], 10) == b[i]
  {
    hide IsOctet, Numeral, Value, Join, Split;
    NumeralOctet(b[0]);
    NumeralOctet(b[1]);
    NumeralOctet(b[2]);
    NumeralOctet(b[3]);
    SplitJoin([Numeral(b[0], 10), Numeral(b[1], 10), Numeral(b[2], 10), Numeral(b[3], 10)], '.');
  }

  // What the code reads of a quad are its four numbers, each one byte.
  lemma QuadRead(b: seq<nat>)
    requires AreBytes(b)
    ensures IsIPv4(Quad(b)) && IPv4Bytes(Quad(b)) == b
    ensures FirstOctets(Quad(b)) == (b[0], b[1])
    ensures QuadValues(Quad(b)) == [b[0] * 256 + b[1], b[2] * 256 + b[3]]
  {
    hide IsOctet, Numeral, Value, Quad, Split;
    QuadSplit(b);
    var parts := Split(Quad(b), '.');
    forall p | p in parts ensures IsOctet(p) {
      var i :| 0 <= i < |parts| && parts[i] == p;
    }
  }

  // Exactly the texts of four bytes are IPv4 addresses.
  lemma IPv4TextIff(s: string)
    ensures IsIPv4(s) <==> exists b: seq<nat> :: AreBytes(b) && s == Quad(b)
  {
    if IsIPv4(s) {
      var b := IPv4Text(s);
    }
    if exists b: seq<nat> :: AreBytes(b) && s == Quad(b) {
      var b: seq<nat> :| AreBytes(b) && s == Quad(b);
      QuadRead(b);
    }
  }

  lemma IPv4Text(s: string) returns (b: seq<nat>)
    requires IsIPv4(s)
    ensures AreBytes(b) && s == Quad(b) && IPv4Bytes(s) == b
  {
    hide Numeral, Value, Join, Split;
    var parts := Split(s, '.');
    assert IsOctet(parts[0]) && IsOctet(parts[1]) && IsOctet(parts[2]) && IsOctet(parts[3]);
    b := IPv4Bytes(s);
    assert b == [Value(parts[0], 10), Value(parts[1], 10), Value(parts[2], 10), Value(parts[3], 10)];
    assert parts == [Numeral(b[0], 10), Numeral(b[1], 10), Numeral(b[2], 10), Numeral(b[3], 10)];
    JoinSplit(s, '.');
  }

  // 0.x.x.x and 127.x.x.x are local, 10.x.x.x and 172.16.x.x to 172.31.x.x private, all others public.
  lemma QuadNetwork(b: seq<nat>)
    requires AreBytes(b)
    ensures GetNetwork(Quad(b)) == Some(
      if b[0] == 0 || b[0] == 127 then NetLocal
      else if b[0] == 10 || (b[0] == 172 && 16 <= b[1] && b[1] <= 31) then NetPrivate
      else NetIPv4)
  {
    hide Quad, IsIPv4, IsIPv6;
    QuadRead(b);
  }

  // ----- plain IPv6 text --------------------------------------------------------------------------

  // Local is the loopback address in any spelling.
  lemma PlainLocalIff(ip: string)
    requires IsPlainIPv6(ip) && CountColons(ip) <= 7
    ensures GetNetwork(ip) == Some(NetLocal) <==> Meaning(ip) == [0, 0, 0, 0, 0, 0, 0, 1]
  {
    hide NormalizeIPv6, CanonicalText, Meaning;
    NormalizeIPv6Meaning(ip);
    PlainIsNotIPv4(ip);
    LoopbackText();
    if CanonicalText(Meaning(ip)) == CanonicalText([0, 0, 0, 0, 0, 0, 0, 1]) {
      CanonicalTextStable(Meaning(ip));
      CanonicalTextStable([0, 0, 0, 0, 0, 0, 0, 1]);
    }
  }

  lemma LoopbackText()
    ensures CanonicalText([0, 0, 0, 0, 0, 0, 0, 1]) == "0:0:0:0:0:0:0:1"
  {
    LoopbackParts();
    hide Join, Numerals;
    JoinOne("1");
    JoinZero(["1"], "1");
    assert ["0"] + ["1"] == ["0", "1"] && "0:" + "1" == "0:1";
    JoinZero(["0", "1"], "0:1");
    assert ["0"] + ["0", "1"] == ["0", "0", "1"] && "0:" + "0:1" == "0:0:1";
    JoinZero(["0", "0", "1"], "0:0:1");
    assert ["0"] + ["0", "0", "1"] == ["0", "0", "0", "1"] && "0:" + "0:0:1" == "0:0:0:1";
    JoinZero(["0", "0", "0", "1"], "0:0:0:1");
    assert ["0"] + ["0", "0", "0", "1"] == ["0", "0", "0", "0", "1"] && "0:" + "0:0:0:1" == "0:0:0:0:1";
    JoinZero(["0", "0", "0", "0", "1"], "0:0:0:0:1");
    assert ["0"] + ["0", "0", "0", "0", "1"] == ["0", "0", "0", "0", "0", "1"] && "0:" + "0:0:0:0:1" == "0:0:0:0:0:1";
    JoinZero(["0", "0", "0", "0", "0", "1"], "0:0:0:0:0:1");
    assert ["0"] + ["0", "0", "0", "0", "0", "1"] == ["0", "0", "0", "0", "0", "0", "1"];
    assert "0:" + "0:0:0:0:0:1" == "0:0:0:0:0:0:1";
    JoinZero(["0", "0", "0", "0", "0", "0", "1"], "0:0:0:0:0:0:1");
    assert ["0"] + ["0", "0", "0", "0", "0", "0", "1"] == ["0", "0", "0", "0", "0", "0", "0", "1"];
    assert "0:" + "0:0:0:0:0:0:1" == "0:0:0:0:0:0:0:1";
  }

  lemma JoinZero(rest: seq<string>, text: string)
    requires rest != [] && Join(rest, ':') == text
    ensures Join(["0"] + rest, ':') == "0:" + text
  {
    JoinStep("0", rest);
  }

  lemma LoopbackParts()
    ensures Numerals([0, 0, 0, 0, 0, 0, 0, 1]) == ["0", "0", "0", "0", "0", "0", "0", "1"]
  {
    var n := Numerals([0, 0, 0, 0, 0, 0, 0, 1]);
    assert Numeral(0, 16) == "0" && Numeral(1, 16) == "1";
    hide Numeral;
    assert n == [n[0], n[1], n[2], n[3], n[4], n[5], n[6], n[7]];
  }

  lemma JoinOne(a: string)
    ensures Join([a], ':') == a
  {}

  lemma JoinStep(a: string, rest: seq<string>)
    requires rest != []
    ensures Join([a] + rest, ':') == a + [':'] + Join(rest, ':')
  {
    assert ([a] + rest)[1..] == rest;
  }

  // Groups whose numeral starts with `fc` or `fd`; four-digit ones are the private addresses of RFC 4193, the shorter
  // ones are not.
  predicate StartsPrivate(g: nat) {
    (0xfc00 <= g && g <= 0xfdff) || (0xfc0 <= g && g <= 0xfdf) || g == 0xfc || g == 0xfd
  }

  lemma NumeralDigits(g: nat)
    requires g < 0x10000
    ensures g < 0x10 ==> Numeral(g, 16) == [DIGITS[g]]
    ensures 0x10 <= g && g < 0x100 ==> Numeral(g, 16) == [DIGITS[g / 16], DIGITS[g % 16]]
    ensures 0x100 <= g && g < 0x1000 ==> Numeral(g, 16) == [DIGITS[g / 256], DIGITS[g / 16 % 16], DIGITS[g % 16]]
    ensures 0x1000 <= g ==>
      Numeral(g, 16) == [DIGITS[g / 4096], DIGITS[g / 256 % 16], DIGITS[g / 16 % 16], DIGITS[g % 16]]
  {
    if g >= 0x10 {
      var h := g / 16;
      assert Numeral(g, 16) == Numeral(h, 16) + [DIGITS[g % 16]];
      if h >= 0x10 {
        assert Numeral(h, 16) == Numeral(h / 16, 16) + [DIGITS[h % 16]];
        if h / 16 >= 0x10 {
          assert Numeral(h / 16, 16) == Numeral(h / 16 / 16, 16) + [DIGITS[h / 16 % 16]];
          assert h / 16 / 16 == g / 4096 && h / 16 % 16 == g / 256 % 16;
        }
        assert h / 16 == g / 256 && h % 16 == g / 16 % 16;
      }
    }
  }

  lemma DigitIs(d: nat)
    requires d < 16
    ensures DIGITS[d] == 'f' <==> d == 15
    ensures DIGITS[d] == 'c' <==> d == 12
    ensures DIGITS[d] == 'd' <==> d == 13
  {}

  lemma PrefixPrivate(g: nat)
    requires g < 0x10000
    ensures Prefix2(Numeral(g, 16)) in ["fc", "fd"] <==> StartsPrivate(g)
  {
    hide Numeral;
    NumeralDigits(g);
    var n := Numeral(g, 16);
    if g < 0x10 {
      assert Prefix2(n) == [DIGITS[g]];
    } else {
      var a, b := n[0], n[1];
      assert Prefix2(n) == [a, b];
      TopDigits(g);
    }
  }

  lemma TopDigits(g: nat)
    requires 0x10 <= g < 0x10000
    ensures var n := Numeral(g, 16);
      |n| >= 2 && (n[0] == 'f' && (n[1] == 'c' || n[1] == 'd') <==> StartsPrivate(g))
  {
    hide Numeral;
    NumeralDigits(g);
    if g < 0x100 {
      DigitIs(g / 16);
      DigitIs(g % 16);
    } else if g < 0x1000 {
      DigitIs(g / 256);
      DigitIs(g / 16 % 16);
      ThreeDigits(g);
    } else {
      DigitIs(g / 4096);
      DigitIs(g / 256 % 16);
      FourDigits(g);
    }
  }

  lemma ThreeDigits(g: nat)
    requires 0x100 <= g < 0x1000
    ensures g / 256 == 15 && (g / 16 % 16 == 12 || g / 16 % 16 == 13) <==> 0xfc0 <= g && g <= 0xfdf
  {
    assert g / 16 == g / 256 * 16 + g / 16 % 16;
  }

  lemma FourDigits(g: nat)
    requires 0x1000 <= g < 0x10000
    ensures g / 4096 == 15 && (g / 256 % 16 == 12 || g / 256 % 16 == 13) <==> 0xfc00 <= g && g <= 0xfdff
  {
    assert g / 256 == g / 4096 * 16 + g / 256 % 16;
  }

  // The network of an address written with eight groups in normal form.
  lemma CanonicalNetwork(groups: seq<nat>)
    requires |groups| == 8 && Are16Bit(groups)
    ensures GetNetwork(CanonicalText(groups)) == Some(
      if groups == [0, 0, 0, 0, 0, 0, 0, 1] then NetLocal
      else if StartsPrivate(groups[0]) then NetPrivate
      else NetIPv6)
  {
    hide NormalizeIPv6, CanonicalText, Meaning, Split, StartsPrivate, Prefix2, Numeral;
    CanonicalTextStable(groups);
    PlainLocalIff(CanonicalText(groups));
    PlainIsNotIPv4(CanonicalText(groups));
    assert groups[0] in groups;
    PrefixPrivate(groups[0]);
    PlainIsIPv6(CanonicalText(groups));
  }

  // ----- the bytes hashed --------------------------------------------------------------------------

  // Four bytes, most significant first; on 32-bit secrets nothing is lost.
  lemma UInt32BigEndian(n: nat)
    requires n < 0x1_0000_0000
    ensures var b := UInt32Bytes(n);
      AreBytes(b) && n == b[0] * 0x1000000 + b[1] * 0x10000 + b[2] * 0x100 + b[3]
  {
    var a, b, c := n / 0x100, n / 0x10000, n / 0x1000000;
    assert a == b * 0x100 + a % 0x100 && b == c * 0x100 + b % 0x100 && c < 0x100;
  }

  lemma UInt32Injective(m: nat, n: nat)
    requires m < 0x1_0000_0000 && n < 0x1_0000_0000 && UInt32Bytes(m) == UInt32Bytes(n)
    ensures m == n
  {
    hide UInt32Bytes;
    UInt32BigEndian(m);
    UInt32BigEndian(n);
  }

  // The secret, a byte for the network, and for public addresses the address.
  lemma BytesAre(secret: nat, ip: string)
    requires IsIPv4(ip) || (IsPlainIPv6(ip) && CountColons(ip) <= 7)
    ensures GetNetwork(ip).Some?
    ensures var head := UInt32Bytes(secret);
      match GetNetwork(ip).value
      case NetIPv4 => IsIPv4(ip) && BucketBytes(secret, ip) == Some(head + [0] + IPv4Bytes(ip))
      case NetIPv6 => IsPlainIPv6(ip) && BucketBytes(secret, ip) == Some(head + [1] + GroupBytes(Meaning(ip)))
      case NetPrivate => BucketBytes(secret, ip) == Some(head + [2])
      case NetLocal => BucketBytes(secret, ip) == Some(head + [3])
      case NetOther => false
  {
    hide NormalizeIPv6, Meaning, IPv6Bytes, IPv4Bytes, UInt32Bytes, IsIPv4, IsPrivate, GroupBytes;
    if IsPlainIPv6(ip) {
      PlainIsNotIPv4(ip);
      PlainIsIPv6(ip);
      if CountColons(ip) <= 7 { IPv6BytesBigEndian(ip); NormalizeIPv6Meaning(ip); }
    }
    if IsIPv4(ip) {
      NotIPv6Either(ip);
    }
  }

  lemma NotIPv6Either(ip: string)
    requires IsIPv4(ip)
    ensures !IsIPv6(ip)
  {
    IPv4Chars(ip);
    NoColonNotIPv6(ip);
  }

  lemma BucketIsRemainder(hash: Hash, secret: nat, ip: string, bucketCount: nat)
    requires bucketCount >= 1 && BucketBytes(secret, ip).Some?
    ensures GetBucketId(hash, secret, ip, bucketCount).Some?
    ensures exists q: nat ::
      hash(BucketBytes(secret, ip).value) == q * bucketCount + GetBucketId(hash, secret, ip, bucketCount).value
  {
    hide BucketBytes;
    var h := hash(BucketBytes(secret, ip).value);
    assert h == h / bucketCount * bucketCount + GetBucketId(hash, secret, ip, bucketCount).value;
  }

  // Another secret hashes other bytes.
  lemma SecretMatters(m: nat, n: nat, ip: string)
    requires m < 0x1_0000_0000 && n < 0x1_0000_0000 && (IsIPv4(ip) || (IsPlainIPv6(ip) && CountColons(ip) <= 7))
    ensures BucketBytes(m, ip) == BucketBytes(n, ip) <==> m == n
  {
    hide UInt32Bytes, GroupBytes, IPv4Bytes, IsIPv4, IsPlainIPv6, GetNetwork, BucketBytes;
    BytesAre(m, ip);
    BytesAre(n, ip);
    if BucketBytes(m, ip) == BucketBytes(n, ip) {
      assert BucketBytes(m, ip).value[..4] == UInt32Bytes(m) && BucketBytes(n, ip).value[..4] == UInt32Bytes(n);
      UInt32Injective(m, n);
    }
  }

  // Two public IPv4 addresses share a bucket under every hash exactly when they are equal,
  lemma IPv4SameBucketIff(secret: nat, a: string, b: string, bucketCount: nat)
    requires bucketCount >= 2 && IsIPv4(a) && IsIPv4(b)
    requires GetNetwork(a) == Some(NetIPv4) && GetNetwork(b) == Some(NetIPv4)
    ensures (forall hash: Hash ::
               GetBucketId(hash, secret, a, bucketCount) == GetBucketId(hash, secret, b, bucketCount))
       <==> a == b
  {
    hide UInt32Bytes, IPv4Bytes, IsIPv4, GetNetwork, BucketBytes, GetBucketId, Quad;
    SameBucketIffSameBytes(secret, a, b, bucketCount);
    BytesAre(secret, a);
    BytesAre(secret, b);
    var x := IPv4Text(a);
    var y := IPv4Text(b);
    if BucketBytes(secret, a) == BucketBytes(secret, b) {
      assert BucketBytes(secret, a).value[5..] == x && BucketBytes(secret, b).value[5..] == y;
    }
  }

  // two public IPv6 texts when they denote the same address,
  lemma IPv6SameBucketIff(secret: nat, a: string, b: string, bucketCount: nat)
    requires bucketCount >= 2 && IsPlainIPv6(a) && CountColons(a) <= 7 && IsPlainIPv6(b) && CountColons(b) <= 7
    requires GetNetwork(a) == Some(NetIPv6) && GetNetwork(b) == Some(NetIPv6)
    ensures (forall hash: Hash ::
               GetBucketId(hash, secret, a, bucketCount) == GetBucketId(hash, secret, b, bucketCount))
       <==> Meaning(a) == Meaning(b)
  {
    hide UInt32Bytes, GroupBytes, IsPlainIPv6, GetNetwork, BucketBytes, GetBucketId, Meaning;
    SameBucketIffSameBytes(secret, a, b, bucketCount);
    BytesAre(secret, a);
    BytesAre(secret, b);
    PlainIsIPv6(a);
    PlainIsIPv6(b);
    if BucketBytes(secret, a) == BucketBytes(secret, b) {
      assert BucketBytes(secret, a).value[5..] == GroupBytes(Meaning(a));
      assert BucketBytes(secret, b).value[5..] == GroupBytes(Meaning(b));
      GroupBytesInjective(Meaning(a), Meaning(b));
    }
  }

  // and all local ones share one bucket, as all private ones do.
  lemma GroupedNetworks(hash: Hash, secret: nat, a: string, b: string, bucketCount: nat)
    requires bucketCount >= 1 && IsSupported(a) && IsSupported(b) && GetNetwork(a) == GetNetwork(b)
    requires GetNetwork(a) == Some(NetLocal) || GetNetwork(a) == Some(NetPrivate)
    ensures GetBucketId(hash, secret, a, bucketCount) == GetBucketId(hash, secret, b, bucketCount)
  {}
}
