// What normalisation does to IPv6 texts that end in a dotted quad (src/utils.js).
module Quads {
  import opened Wrappers
  import opened Text
  import opened Address
  import opened PeerId

  // ----- what is read from a quad -----------------------------------------------------------------

  // A quad is read as one group: the digits of its first octet in radix sixteen.
  lemma QuadRead(q: string)
    requires IsIPv4(q)
    ensures PartRead(q) == Value(Split(q, '.')[0], 16)
  {
    var p := Split(q, '.');
    JoinSplit(q, '.');
    assert IsOctet(p[0]);
    OctetWidth(p[0]);
    assert q == p[0] + ['.'] + Join(p[1..], '.');
    DigitPrefixBefore(p[0], Join(p[1..], '.'));
  }

  lemma ZeroOctet(p: string)
    requires IsOctet(p)
    ensures Value(p, 10) == 0 ==> Value(p, 16) == 0
  {
    if Value(p, 10) == 0 {
      assert p == "0";
      assert "0"[..0] == "";
    }
  }

  // The first of the two groups of a zero quad is zero, and so is then what is read from the quad.
  lemma ZeroQuadRead(q: string)
    requires IsIPv4(q)
    ensures QuadValues(q)[0] == 0 ==> PartRead(q) == 0
  {
    QuadRead(q);
    assert IsOctet(Split(q, '.')[0]);
    ZeroOctet(Split(q, '.')[0]);
  }

  // ----- when the meaning survives -------------------------------------------------------------------

  ghost predicate AllZero(groups: seq<nat>) {
    forall g | g in groups :: g == 0
  }

  // Groups shifted by one position stay the same only if they are all zero.
  lemma {:induction false} ShiftedZero(r: seq<nat>, a: nat)
    requires r + [a] == [0] + r
    ensures AllZero(r) && a == 0
  {
    assert (r + [a])[0] == ([0] + r)[0];
    if r != [] {
      assert r == [0] + r[1..];
      assert r[1..] + [a] == (r + [a])[1..] == ([0] + r)[1..] == [0] + r[1..];
      ShiftedZero(r[1..], a);
    }
  }

  lemma ShiftedIff(l: seq<nat>, z: nat, r: seq<nat>, a: nat, b: nat, h: nat)
    requires a == 0 ==> h == 0
    ensures l + Zeros(z + 1) + (r + [h]) == l + Zeros(z) + (r + [a, b]) <==> AllZero(r + [a, b])
  {
    var x, y := l + Zeros(z + 1) + (r + [h]), l + Zeros(z) + (r + [a, b]);
    var n := |l| + z;
    assert x[n..] == [0] + r + [h] && y[n..] == r + [a, b];
    assert x[..n] == l + Zeros(z) == y[..n];
    if x == y {
      assert ([0] + r + [h])[..|r| + 1] == [0] + r && (r + [a, b])[..|r| + 1] == r + [a];
      assert (r + [a, b])[|r| + 1] == b && ([0] + r + [h])[|r| + 1] == h;
      ShiftedZero(r, a);
      assert AllZero(r + [a, b]);
    }
    if AllZero(r + [a, b]) {
      assert forall i | 0 <= i < |r| :: r[i] == (r + [a, b])[i];
      assert (r + [a, b])[|r|] == a && (r + [a, b])[|r| + 1] == b;
      var u, v := [0] + r + [h], r + [a, b];
      forall i | 0 <= i < |u| ensures u[i] == 0 == v[i] {
        assert v[i] in v && (i > 0 ==> v[i - 1] in v) && v[|r|] == a;
      }
      assert u == v;
      assert x == x[..n] + x[n..] && y == y[..n] + y[n..];
    }
  }

  lemma QuadGroups(t: IPv6Text)
    requires t.Valid() && !t.Plain() && t.Compressed?
    ensures |t.Parts()| <= 8
    ensures var r, z := t.right[..|t.right| - 1], 7 - |t.left| - |t.right|;
      && z >= 0 && IsIPv4(t.right[|t.right| - 1])
      && Values(t.right) == GroupValues(r) + QuadValues(t.right[|t.right| - 1])
      && t.Denote() == GroupValues(t.left) + Zeros(z) + (GroupValues(r) + QuadValues(t.right[|t.right| - 1]))
      && ReadParts(Expanded(t))
           == GroupValues(t.left) + Zeros(z + 1) + (GroupValues(r) + [PartRead(t.right[|t.right| - 1])])
  {
    hide IsIPv4, IsGroup, PartRead;
    var r, q := t.right[..|t.right| - 1], t.right[|t.right| - 1];
    QuadNotGroup(q);
    forall i | 0 <= i < |r| ensures IsGroup(r[i]) && !IsIPv4(r[i]) { assert IsGroup(t.right[i]); GroupChars(r[i]); }
    ReadGroups(t.left);
    ReadGroups(r);
    ReadCompressed(t.left, t.right, 8 - |OrEmptyPart(t.left)| - |OrEmptyPart(t.right)|);
    assert t.right == r + [q];
    assert ReadParts(t.right) == ReadParts(r) + [PartRead(q)];
  }

  lemma QuadNotGroup(q: string)
    requires IsIPv4(q)
    ensures !IsGroup(q)
  {
    if IsGroup(q) { GroupChars(q); }
  }

  // Normalisation keeps the meaning of exactly those texts that have no quad, or in which everything right of
  // the double colon, the quad included, is zero.
  lemma NormalizeKeepsMeaningIff(s: string)
    requires IsIPv6(s) && NormalizeIPv6(s).Some?
    ensures var t, n := ParseIPv6(s).value, NormalizeIPv6(s).value;
      IsIPv6(n) && Meaning(n) == Meaning(s) <==> t.Plain() || (t.Compressed? && AllZero(Values(t.right)))
  {
    hide IsIPv4, IsGroup, NormalizeIPv6, Values;
    var t := ParseIPv6(s).value;
    RenderParse(s);
    if t.Plain() {
      PlainMeaning(s);
    } else if t.Full? {
      FullQuadMeaningless(s);
    } else {
      QuadMeaningIff(t);
    }
  }

  lemma QuadMeaningIff(t: IPv6Text)
    requires t.Valid() && !t.Plain() && t.Compressed?
    ensures NormalizeIPv6(t.Render()).Some? && IsIPv6(NormalizeIPv6(t.Render()).value)
    ensures Meaning(NormalizeIPv6(t.Render()).value) == t.Denote() <==> AllZero(Values(t.right))
  {
    hide IsIPv4, PartRead, QuadValues, NormalizeIPv6, Meaning, IsIPv6, ReadParts, GroupValues, Expanded, Values, Zeros,
      IPv6Text.Denote, IPv6Text.Valid, IPv6Text.Plain, IPv6Text.Parts, IPv6Text.Render;
    QuadGroups(t);
    QuadNormal(t);
    var r, q := t.right[..|t.right| - 1], t.right[|t.right| - 1];
    ZeroQuadRead(q);
    ShiftedQuad(GroupValues(t.left), 7 - |t.left| - |t.right|, GroupValues(r), QuadValues(q), PartRead(q));
  }

  lemma QuadNormal(t: IPv6Text)
    requires t.Valid() && !t.Plain() && t.Compressed? && |t.Parts()| <= 8
    ensures var n := NormalizeIPv6(t.Render());
      n.Some? && IsIPv6(n.value) && Meaning(n.value) == ReadParts(Expanded(t))
  {
    hide IsIPv4, IsGroup, PartRead, NormalizeIPv6, Meaning, ReadParts, CanonicalText, AreGroups;
    NormalizeReads(t);
    CanonicalTextStable(ReadParts(Expanded(t)));
    CanonicalIsIPv6(ReadParts(Expanded(t)));
  }

  lemma ShiftedQuad(l: seq<nat>, z: nat, r: seq<nat>, v: seq<nat>, h: nat)
    requires |v| == 2 && (v[0] == 0 ==> h == 0)
    ensures l + Zeros(z + 1) + (r + [h]) == l + Zeros(z) + (r + v) <==> AllZero(r + v)
  {
    assert v == [v[0], v[1]];
    ShiftedIff(l, z, r, v[0], v[1], h);
  }

  lemma PlainMeaning(s: string)
    requires IsPlainIPv6(s) && NormalizeIPv6(s).Some?
    ensures var n := NormalizeIPv6(s).value; IsIPv6(n) && Meaning(n) == Meaning(s)
  {
    NormalizeIPv6Meaning(s);
    CanonicalTextStable(Meaning(s));
  }

  lemma CanonicalIsIPv6(groups: seq<nat>)
    requires IsPlainIPv6(CanonicalText(groups))
    ensures IsIPv6(CanonicalText(groups))
  {}

  // With eight groups and a quad among them the result is not even an address: it has seven groups.
  lemma FullQuadMeaningless(s: string)
    requires IsIPv6(s) && NormalizeIPv6(s).Some? && ParseIPv6(s).value.Full? && !ParseIPv6(s).value.Plain()
    ensures !IsIPv6(NormalizeIPv6(s).value)
  {
    var t := ParseIPv6(s).value;
    RenderParse(s);
    NormalizeReads(t);
    SevenGroupsNotIPv6(ReadParts(Expanded(t)));
  }

  // ----- different addresses with one id -----------------------------------------------------------------

  // Texts that differ only in the last three octets of a quad that is not folded mean different addresses and
  // have the same peer ids.
  lemma QuadIdCollision(left: seq<string>, r: seq<string>, q: string, u: string, port: nat)
    requires Compressed(left, r + [q]).Valid() && Compressed(left, r + [u]).Valid() && IsIPv4(q) && IsIPv4(u)
    requires q != u && Split(q, '.')[0] == Split(u, '.')[0] && (r == [] || r[|r| - 1] != "ffff")
    ensures var a, b := Compressed(left, r + [q]).Render(), Compressed(left, r + [u]).Render();
      && IsIPv6(a) && IsIPv6(b) && Meaning(a) != Meaning(b)
      && GetPeerId(a, port).Some? && GetPeerId(a, port) == GetPeerId(b, port)
  {
    hide IsIPv4, IsGroup, PartRead, QuadValues, GetPeerId, NormalizeIPv6, ParseIPv6, HybridQuad;
    var t, v := Compressed(left, r + [q]), Compressed(left, r + [u]);
    ParseRender(t);
    ParseRender(v);
    NotFolded(left, r, q);
    NotFolded(left, r, u);
    QuadRead(q);
    QuadRead(u);
    CollisionNormal(left, r, q);
    CollisionNormal(left, r, u);
    if QuadValues(q) == QuadValues(u) { QuadValuesInjective(q, u); }
    SameIds(t.Render(), v.Render(), port);
  }

  lemma CollisionNormal(left: seq<string>, r: seq<string>, q: string)
    requires Compressed(left, r + [q]).Valid() && IsIPv4(q)
    ensures var t := Compressed(left, r + [q]);
      && t.Denote()[6..] == QuadValues(q)
      && |left| + |r| <= 6
      && NormalizeIPv6(t.Render())
           == Some(CanonicalText(GroupValues(left) + Zeros(7 - |left| - |r|) + (GroupValues(r) + [PartRead(q)])))
  {
    hide IsIPv4, PartRead, QuadValues, NormalizeIPv6, CanonicalText, ReadParts, GroupValues, Expanded, Values,
      AreGroups, IPv6Text.Denote, IPv6Text.Render, IPv6Text.Parts;
    var t := Compressed(left, r + [q]);
    assert t.right[..|r|] == r;
    LastIsQuad(left, r, q);
    QuadGroups(t);
    NormalizeReads(t);
    LastTwo(GroupValues(left) + Zeros(6 - |left| - |r|), GroupValues(r), QuadValues(q));
  }

  lemma LastIsQuad(left: seq<string>, r: seq<string>, q: string)
    requires IsIPv4(q)
    ensures !Compressed(left, r + [q]).Plain()
  {}

  lemma LastTwo(l: seq<nat>, r: seq<nat>, v: seq<nat>)
    requires |v| == 2 && |l| + |r| == 6
    ensures (l + (r + v))[6..] == v
  {}

  lemma SameIds(a: string, b: string, port: nat)
    requires IsIPv6(a) && IsIPv6(b) && HybridQuad(a).None? && HybridQuad(b).None?
    requires NormalizeIPv6(a).Some? && NormalizeIPv6(a) == NormalizeIPv6(b)
    ensures GetPeerId(a, port).Some? && GetPeerId(a, port) == GetPeerId(b, port)
  {}

  lemma NotFolded(left: seq<string>, r: seq<string>, q: string)
    requires Compressed(left, r + [q]).Valid() && IsIPv4(q) && (r == [] || r[|r| - 1] != "ffff")
    ensures IsIPv6(Compressed(left, r + [q]).Render()) && HybridQuad(Compressed(left, r + [q]).Render()).None?
  {
    hide IsIPv4, IsGroup;
    var t := Compressed(left, r + [q]);
    ParseRender(t);
    RenderParts(t);
    FoldsExactly(t.Render());
  }

  lemma OctetValueInjective(p: string, o: string)
    requires IsOctet(p) && IsOctet(o) && Value(p, 10) == Value(o, 10)
    ensures p == o
  {}

  lemma QuadValuesInjective(q: string, u: string)
    requires IsIPv4(q) && IsIPv4(u) && QuadValues(q) == QuadValues(u)
    ensures q == u
  {
    hide IsOctet, Split;
    var p, o := Split(q, '.'), Split(u, '.');
    assert forall i | 0 <= i < 4 :: IsOctet(p[i]) && IsOctet(o[i]);
    OctetBound(p[1]);
    OctetBound(p[3]);
    OctetBound(o[1]);
    OctetBound(o[3]);
    SameHalves(Value(p[0], 10), Value(p[1], 10), Value(o[0], 10), Value(o[1], 10));
    SameHalves(Value(p[2], 10), Value(p[3], 10), Value(o[2], 10), Value(o[3], 10));
    forall i | 0 <= i < 4 ensures p[i] == o[i] { OctetValueInjective(p[i], o[i]); }
    assert |p| == |o| == 4 && p == o;
    JoinSplit(q, '.');
    JoinSplit(u, '.');
  }

  lemma OctetBound(p: string)
    requires IsOctet(p)
    ensures Value(p, 10) < 256
  {}

  lemma SameHalves(a: nat, b: nat, c: nat, d: nat)
    requires b < 256 && d < 256 && a * 256 + b == c * 256 + d
    ensures a == c && b == d
  {}

  // ----- folding more than IPv4-mapped addresses -----------------------------------------------------------

  // Five groups, not all zero, before the `ffff` and the quad: not an IPv4-mapped address, yet it is folded to
  // the quad and has the id of the IPv4 address.
  lemma UnmappedFolds(groups: seq<string>, q: string, port: nat)
    requires |groups| == 5 && (forall g | g in groups :: IsGroup(g)) && !AllZero(GroupValues(groups)) && IsIPv4(q)
    ensures var ip := Join(groups + ["ffff", q], ':');
      && IsIPv6(ip) && NormalizeAddress(ip) == Some(Normalized(IPv4, q))
      && Meaning(ip)[..5] == GroupValues(groups) != Zeros(5)
      && GetPeerId(ip, port) == GetPeerId(q, port)
  {
    hide IsIPv4, IsGroup, QuadValues, GetPeerId;
    var parts := groups + ["ffff", q];
    var ip := Join(parts, ':');
    UnmappedValid(groups, q);
    ParseRender(Full(parts));
    RenderParts(Full(parts));
    FoldsExactly(ip);
    HybridLast(ip);
    FoldMeaning(ip);
    assert parts[..6][..5] == groups;
    assert GroupValues(parts[..6])[..5] == GroupValues(groups);
    assert Meaning(ip)[..5] == GroupValues(groups);
    QuadId(ip, q, port);
  }

  lemma UnmappedValid(groups: seq<string>, q: string)
    requires |groups| == 5 && (forall g | g in groups :: IsGroup(g)) && IsIPv4(q)
    ensures Full(groups + ["ffff", q]).Valid() && !Full(groups + ["ffff", q]).Plain()
  {
    hide IsIPv4;
    var parts := groups + ["ffff", q];
    forall i | 0 <= i < 6 ensures IsGroup(parts[i]) { if i < 5 { assert parts[i] in groups; } }
  }

  lemma QuadId(ip: string, q: string, port: nat)
    requires NormalizeAddress(ip) == Some(Normalized(IPv4, q)) && IsIPv4(q)
    ensures GetPeerId(ip, port) == GetPeerId(q, port)
  {
    IPv4Chars(q);
    NoColonNotIPv6(q);
  }
}
