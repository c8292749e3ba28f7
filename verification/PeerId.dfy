// Peer ids: printing an (address, port) pair and reading it back (src/utils.js).
module PeerId {
  import opened Wrappers
  import opened Text
  import opened Address

  // `getPeerIdFromPeerInfo`; None means that it throws.
  function GetPeerId(ip: string, port: nat): Option<string> {
    match NormalizeAddress(ip)
    case Some(n) =>
      var suffix := ":" + Numeral(port, 10);
      Some(if n.protocol.IPv6? then "[" + n.address + "]" + suffix else n.address + suffix)
    case None => None
  }

  function LastIndex(s: string, c: char): (i: Option<nat>)
    ensures i.Some? ==> i.value < |s| && s[i.value] == c && c !in s[i.value + 1..]
    ensures i.None? ==> c !in s
  {
    if s == "" then None
    else if s[|s| - 1] == c then Some(|s| - 1)
    else
      var i := LastIndex(s[..|s| - 1], c);
      assert i.Some? ==> s[i.value + 1..] == s[..|s| - 1][i.value + 1..] + [s[|s| - 1]];
      i
  }

  function Before(s: string, c: char): (p: string)
    ensures c !in p && p <= s && (|p| < |s| ==> s[|p|] == c)
    ensures c !in s ==> p == s
  {
    if s == "" || s[0] == c then "" else [s[0]] + Before(s[1..], c)
  }

  // The group of `/\[([^\[]*)\]/`: leftmost opening bracket, then as much as possible.
  function HostGroup(id: string): (g: Option<string>)
    ensures g.Some? ==> '[' !in g.value
    ensures '[' !in id ==> g.None?
  {
    if id == "" then None
    else
      var segment := Before(id[1..], '[');
      var close := LastIndex(segment, ']');
      if id[0] == '[' && close.Some? then Some(segment[..close.value]) else HostGroup(id[1..])
  }

  // One match of `/\[[^\[]*\]:([^:]*)$/`: the brackets stand at `i` and `j`.
  ghost predicate PortMatch(id: string, i: nat, j: nat) {
    && i < j && j + 1 < |id| && id[i] == '[' && id[j] == ']' && id[j + 1] == ':'
    && '[' !in id[i + 1..j] && ':' !in id[j + 2..]
  }

  // The group of that pattern.
  function PortGroup(id: string): Option<string> {
    match LastIndex(id, ':')
    case Some(c) => if c >= 1 && id[c - 1] == ']' && '[' in id[..c - 1] then Some(id[c + 1..]) else None
    case None => None
  }

  // `getHostFromPeerId`; None means that it throws.
  function GetHost(id: string): Option<string> {
    match HostGroup(id)
    case Some(g) =>
      if g == "" then Some(Split(id, ':')[0])
      else (match NormalizeAddress(g) case Some(n) => Some(n.address) case None => None)
    case None => Some(Split(id, ':')[0])
  }

  // `getPortFromPeerId`; None is NaN.
  function GetPort(id: string): Option<nat> {
    var parts := Split(id, ':');
    match PortGroup(id)
    case Some(g) => if g == "" then PortOfParts(parts) else ParseInt(g, 10)
    case None => PortOfParts(parts)
  }

  function PortOfParts(parts: seq<string>): Option<nat> {
    if |parts| >= 2 then ParseInt(parts[1], 10) else None
  }

  function PrintId(host: string, port: Option<nat>): string {
    if IsIPv4(host) then host + ":" + PrintInt(port, 10) else "[" + host + "]:" + PrintInt(port, 10)
  }

  // `normalizePeerId`; None means that it throws.
  function NormalizePeerId(id: string): Option<string> {
    match GetHost(id)
    case Some(host) => Some(PrintId(host, GetPort(id)))
    case None => None
  }

  // ----- the two patterns -----------------------------------------------------------------------

  // One match of the pattern of `HostGroup`: the brackets stand at `i` and `j`.
  ghost predicate HostMatch(id: string, i: nat, j: nat) {
    i < j < |id| && id[i] == '[' && id[j] == ']' && '[' !in id[i + 1..j]
  }

  // The match that the pattern finds: the leftmost one, and the longest there.
  ghost predicate FirstHostMatch(id: string, i: nat, j: nat) {
    HostMatch(id, i, j) && forall x: nat, y: nat | HostMatch(id, x, y) :: i < x || (i == x && y <= j)
  }

  lemma HostMatchTail(id: string, i: nat, j: nat)
    requires id != "" && i > 0
    ensures HostMatch(id, i, j) <==> j > 0 && HostMatch(id[1..], i - 1, j - 1)
  {
    if i < j < |id| { assert id[1..][i..j - 1] == id[i + 1..j]; }
  }

  lemma HostMatchAtStart(id: string, j: nat)
    requires id != ""
    ensures HostMatch(id, 0, j) <==> id[0] == '[' && 0 < j <= |Before(id[1..], '[')| && id[j] == ']'
  {
    var segment := Before(id[1..], '[');
    if 0 < j < |id| {
      if j <= |segment| { assert id[1..j] == segment[..j - 1]; }
      else if j > |segment| + 1 { assert id[1..j][|segment|] == '['; }
    }
  }

  // `HostGroup` is None exactly when nothing matches, and otherwise the group of that match.
  lemma {:induction false} HostGroupMatches(id: string)
    ensures HostGroup(id).None? <==> forall i: nat, j: nat :: !HostMatch(id, i, j)
    ensures HostGroup(id).Some? ==>
      exists i: nat, j: nat :: FirstHostMatch(id, i, j) && HostGroup(id) == Some(id[i + 1..j])
  {
    hide Before, LastIndex;
    if id != "" {
      HostGroupMatches(id[1..]);
      if id[0] == '[' && LastIndex(Before(id[1..], '['), ']').Some? {
        MatchAtStart(id);
      } else if HostGroup(id[1..]).Some? {
        var i: nat, j: nat :| FirstHostMatch(id[1..], i, j) && HostGroup(id[1..]) == Some(id[1..][i + 1..j]);
        MatchLater(id, i, j);
        assert FirstHostMatch(id, i + 1, j + 1);
        assert id[1..][i + 1..j] == id[i + 2..j + 1];
      } else {
        forall i: nat, j: nat ensures !HostMatch(id, i, j) { NoMatchAtStart(id, i, j); }
      }
    } else {
      forall i: nat, j: nat ensures !HostMatch(id, i, j) { NoEmptyMatch(i, j); }
    }
  }

  lemma NoEmptyMatch(i: nat, j: nat)
    ensures !HostMatch("", i, j)
  {}

  lemma {:induction false} AtMostLast(s: string, c: char, i: nat)
    requires i < |s| && s[i] == c
    ensures LastIndex(s, c).Some? && i <= LastIndex(s, c).value
  {
    if s[|s| - 1] != c { AtMostLast(s[..|s| - 1], c, i); }
  }

  lemma LongestAtStart(id: string, y: nat)
    requires id != "" && HostMatch(id, 0, y)
    ensures var last := LastIndex(Before(id[1..], '['), ']');
      last.Some? && y <= last.value + 1
  {
    hide HostMatch, Before, LastIndex;
    var segment := Before(id[1..], '[');
    HostMatchAtStart(id, y);
    assert segment[y - 1] == id[1..][y - 1];
    AtMostLast(segment, ']', y - 1);
  }

  lemma MatchAtStart(id: string)
    requires id != "" && id[0] == '[' && LastIndex(Before(id[1..], '['), ']').Some?
    ensures var j := LastIndex(Before(id[1..], '['), ']').value + 1;
      FirstHostMatch(id, 0, j) && HostGroup(id) == Some(id[1..j])
  {
    hide HostMatch, Before, LastIndex;
    var segment := Before(id[1..], '[');
    var j := LastIndex(segment, ']').value + 1;
    assert segment[..j - 1] == id[1..j];
    HostMatchAtStart(id, j);
    forall x: nat, y: nat | HostMatch(id, x, y) ensures 0 < x || y <= j {
      if x == 0 { LongestAtStart(id, y); }
    }
  }

  // Where no group opens at the start, matches are those of the tail.
  lemma NoMatchAtStart(id: string, i: nat, j: nat)
    requires id != "" && !(id[0] == '[' && LastIndex(Before(id[1..], '['), ']').Some?)
    ensures HostMatch(id, i, j) <==> i > 0 && j > 0 && HostMatch(id[1..], i - 1, j - 1)
  {
    hide HostMatch, Before, LastIndex;
    var segment := Before(id[1..], '[');
    if i == 0 {
      HostMatchAtStart(id, j);
      if 0 < j <= |segment| { assert id[j] == segment[j - 1]; }
    } else {
      HostMatchTail(id, i, j);
    }
  }

  lemma MatchLater(id: string, i: nat, j: nat)
    requires id != "" && !(id[0] == '[' && LastIndex(Before(id[1..], '['), ']').Some?)
    requires FirstHostMatch(id[1..], i, j)
    ensures FirstHostMatch(id, i + 1, j + 1)
  {
    hide HostMatch, Before, LastIndex;
    NoMatchAtStart(id, i + 1, j + 1);
    forall x: nat, y: nat | HostMatch(id, x, y) ensures i + 1 < x || (i + 1 == x && y <= j + 1) {
      NoMatchAtStart(id, x, y);
    }
  }

  // `PortGroup` finds a match whenever there is one, and all matches capture the same group.
  lemma PortGroupMatches(id: string)
    ensures PortGroup(id).Some? <==> exists i, j :: PortMatch(id, i, j)
    ensures forall i, j :: PortMatch(id, i, j) ==> PortGroup(id) == Some(id[j + 2..])
  {
    forall i: nat, j: nat | PortMatch(id, i, j) ensures PortGroup(id) == Some(id[j + 2..]) {
      var c := LastIndex(id, ':').value;
      assert id[..j][i] == '[';
    }
    if PortGroup(id).Some? {
      var j := LastIndex(id, ':').value - 1;
      var i := LastIndex(id[..j], '[').value;
      assert id[i + 1..j] == id[..j][i + 1..];
      assert PortMatch(id, i, j);
    }
  }

  lemma PortText(port: Option<nat>)
    ensures var p := PrintInt(port, 10);
      && p != "" && ':' !in p && '[' !in p && ']' !in p && ParseInt(p, 10) == port
  {
    if port.Some? {
      NumeralValue(port.value, 10);
      ParseNumeral(port.value, 10);
      DigitsExclude(Numeral(port.value, 10), 10, ':');
      DigitsExclude(Numeral(port.value, 10), 10, '[');
      DigitsExclude(Numeral(port.value, 10), 10, ']');
    }
  }

  lemma LastIndexAt(a: string, c: char, b: string)
    requires c !in b
    ensures LastIndex(a + [c] + b, c) == Some(|a|)
  {
    var s := a + [c] + b;
    assert s[|a|] == c;
  }

  lemma BracketedGroups(h: string, p: string)
    requires '[' !in h && ':' !in p && '[' !in p && ']' !in p
    ensures HostGroup("[" + h + "]:" + p) == Some(h)
    ensures PortGroup("[" + h + "]:" + p) == Some(p)
  {
    hide HostGroup;
    var id := "[" + h + "]:" + p;
    HostGroupBracketed(h, ":" + p);
    assert id == "[" + h + "]" + (":" + p);
    assert id == ("[" + h + "]") + [':'] + p;
    LastIndexAt("[" + h + "]", ':', p);
    hide LastIndex;
    assert id[..|h| + 1][0] == '[';
  }

  lemma HostGroupAtStart(id: string, segment: string, close: nat)
    requires id != "" && id[0] == '[' && id[1..] == segment && '[' !in segment
    requires LastIndex(segment, ']') == Some(close)
    ensures HostGroup(id) == Some(segment[..close])
  {}

  lemma HostGroupBracketed(h: string, rest: string)
    requires '[' !in h && '[' !in rest && ']' !in rest
    ensures HostGroup("[" + h + "]" + rest) == Some(h)
  {
    hide HostGroup, LastIndex, Before;
    var segment := h + [']'] + rest;
    LastIndexAt(h, ']', rest);
    var id := "[" + h + "]" + rest;
    assert id == ['['] + segment;
    assert id[1..] == segment;
    HostGroupAtStart(id, segment, |h|);
    assert segment[..|h|] == h;
  }

  lemma UnbracketedGroups(h: string, p: string)
    requires '[' !in h && ':' !in h && ':' !in p && '[' !in p
    ensures HostGroup(h + ":" + p).None? && PortGroup(h + ":" + p).None?
    ensures Split(h + ":" + p, ':') == [h, p]
  {
    LastIndexAt(h, ':', p);
    SplitConcat(h, p, ':');
    SplitAtom(h, ':');
    SplitAtom(p, ':');
  }

  // ----- round trip -----------------------------------------------------------------------------

  lemma PrintIdReads(host: string, port: Option<nat>)
    requires host != "" && '[' !in host && NormalizeAddress(host).Some?
    requires NormalizeAddress(host).value.address == host
    ensures GetHost(PrintId(host, port)) == Some(host) && GetPort(PrintId(host, port)) == port
  {
    PortText(port);
    if IsIPv4(host) {
      IPv4Chars(host);
      UnbracketedGroups(host, PrintInt(port, 10));
    } else {
      BracketedGroups(host, PrintInt(port, 10));
    }
  }

  // Printing a supported address and a port, and reading the id: the normal form of the address
  // and the same port; and `normalizePeerId` leaves the id as it is.
  lemma PeerIdRoundTrip(ip: string, port: nat)
    requires IsSupported(ip)
    ensures GetPeerId(ip, port).Some?
    ensures var id := GetPeerId(ip, port).value;
      && GetHost(id) == Some(NormalizeAddress(ip).value.address)
      && GetPort(id) == Some(port)
      && NormalizePeerId(id) == Some(id)
  {
    hide IsSupported, NormalizeAddress, GetHost, GetPort, PrintId, Numeral, IsNormalIp, GetPeerId, IsIPv6, IsIPv4;
    NormalizeSupported(ip);
    var n := NormalizeAddress(ip).value;
    NormalIpFixed(n.address);
    PrintIdReads(n.address, Some(port));
    IdIsPrinted(ip, port);
  }

  lemma IdIsPrinted(ip: string, port: nat)
    requires NormalizeAddress(ip).Some?
    requires var n := NormalizeAddress(ip).value;
      IsIPv4(n.address) <==> n.protocol.IPv4?
    ensures GetPeerId(ip, port) == Some(PrintId(NormalizeAddress(ip).value.address, Some(port)))
  {
    hide NormalizeAddress, IsIPv4, Numeral;
    var n := NormalizeAddress(ip).value;
    assert "[" + n.address + "]" + (":" + Numeral(port, 10)) == "[" + n.address + "]:" + Numeral(port, 10);
    assert n.address + (":" + Numeral(port, 10)) == n.address + ":" + Numeral(port, 10);
  }

  // The part of an id before the port.
  function Body(n: Normalized): string {
    if n.protocol.IPv6? then "[" + n.address + "]" else n.address
  }

  lemma IdBodies(a: string, p: nat, b: string, q: nat)
    requires NormalizeAddress(a).Some? && NormalizeAddress(b).Some? && GetPeerId(a, p) == GetPeerId(b, q)
    ensures Body(NormalizeAddress(a).value) == Body(NormalizeAddress(b).value)
  {
    hide NormalizeAddress, Numeral;
    var x, y := Body(NormalizeAddress(a).value), Body(NormalizeAddress(b).value);
    PortText(Some(p));
    PortText(Some(q));
    assert GetPeerId(a, p).value == x + [':'] + Numeral(p, 10);
    assert GetPeerId(b, q).value == y + [':'] + Numeral(q, 10);
    LastIndexAt(x, ':', Numeral(p, 10));
    LastIndexAt(y, ':', Numeral(q, 10));
    assert x == GetPeerId(a, p).value[..|x|] && y == GetPeerId(b, q).value[..|y|];
  }

  // The id does not depend on how the address is spelled ...
  lemma PeerIdOfNormalForm(ip: string, port: nat)
    requires IsSupported(ip)
    ensures NormalizeAddress(ip).Some?
    ensures GetPeerId(NormalizeAddress(ip).value.address, port) == GetPeerId(ip, port)
  {
    NormalizeSupported(ip);
    NormalIpFixed(NormalizeAddress(ip).value.address);
  }

  // ... and on normal forms it determines the address and the port.
  lemma PeerIdInjective(a: string, p: nat, b: string, q: nat)
    requires IsNormalIp(a) && IsNormalIp(b) && GetPeerId(a, p) == GetPeerId(b, q)
    ensures a == b && p == q
  {
    NormalIpFixed(a);
    NormalIpFixed(b);
    PeerIdRoundTrip(a, p);
    PeerIdRoundTrip(b, q);
  }

  // ----- normalizePeerId on arbitrary text --------------------------------------------------------

  lemma NonEmptyNormalized(s: string)
    requires s != "" && NormalizeAddress(s).Some?
    ensures NormalizeAddress(s).value.address != ""
  {
    if IsIPv6(s) && HybridQuad(s).Some? {
      LooseQuadChars(HybridQuad(s).value);
    } else if IsIPv6(s) {
      var groups := NormalizedShape(s);
      CanonicalTextSplit(groups);
      SplitAtom("", ':');
    }
  }

  // A host read from an id is in normal form; if it was in brackets it is non-empty and has no
  // opening bracket, otherwise it has no colon.
  lemma HostShape(id: string)
    requires GetHost(id).Some?
    ensures var h := GetHost(id).value;
      && NormalizeAddress(h).Some? && NormalizeAddress(h).value.address == h
      && ((h != "" && '[' !in h) || (h == Split(id, ':')[0] && ':' !in h))
  {
    var g := HostGroup(id);
    if g.Some? && g.value != "" {
      NormalizeAddressIdempotent(g.value);
      NormalizeAddressBrackets(g.value);
      NonEmptyNormalized(g.value);
    } else {
      NoColonNotIPv6(GetHost(id).value);
    }
  }

  lemma BracketedHostUnique(h: string, p: string, h': string, p': string)
    requires ']' !in p && ']' !in p'
    requires "[" + h + "]:" + p == "[" + h' + "]:" + p'
    ensures h == h'
  {
    var s := "[" + h + "]:" + p;
    assert s == ("[" + h) + [']'] + (":" + p) && s == ("[" + h') + [']'] + (":" + p');
    LastIndexAt("[" + h, ']', ":" + p);
    LastIndexAt("[" + h', ']', ":" + p');
    assert h == s[1..1 + |h|] && h' == s[1..1 + |h'|];
  }

  // The id text has a non-empty group in brackets, or else a non-empty text without opening bracket before the
  // first colon.
  predicate NamesHost(id: string) {
    var first := Split(id, ':')[0];
    (HostGroup(id).Some? && HostGroup(id).value != "") || (first != "" && '[' !in first)
  }

  // `normalizePeerId` applied twice agrees with applying it once exactly for such ids.
  lemma NormalizePeerIdIdempotentIff(id: string)
    requires GetHost(id).Some?
    ensures NormalizePeerId(NormalizePeerId(id).value) == NormalizePeerId(id) <==> NamesHost(id)
    ensures NamesHost(id) <==> GetHost(id).value != "" && '[' !in GetHost(id).value
  {
    var h, port := GetHost(id).value, GetPort(id);
    HostShape(id);
    NamesHostIff(id);
    if h != "" && '[' !in h {
      PrintIdReads(h, port);
    } else {
      BadHostNotFixed(h, port);
    }
  }

  lemma NamesHostIff(id: string)
    requires GetHost(id).Some?
    ensures NamesHost(id) <==> GetHost(id).value != "" && '[' !in GetHost(id).value
  {
    var g := HostGroup(id);
    if g.Some? && g.value != "" {
      NormalizeAddressBrackets(g.value);
      NonEmptyNormalized(g.value);
    }
  }

  lemma BadHostNotFixed(h: string, port: Option<nat>)
    requires (h == "" || '[' in h) && ':' !in h
    ensures NormalizePeerId(PrintId(h, port)) != Some(PrintId(h, port))
  {
    if IsIPv4(h) { IPv4Chars(h); }
    var id := PrintId(h, port);
    if NormalizePeerId(id) == Some(id) {
      HostShape(id);
      PrintIdHost(GetHost(id).value, GetPort(id), h, port);
      BracketedHead(h, port);
    }
  }

  // An id with a bad host starts with a bracket, and no other host prints it.
  lemma PrintIdHost(h': string, port': Option<nat>, h: string, port: Option<nat>)
    requires !IsIPv4(h) && PrintId(h', port') == PrintId(h, port)
    ensures h' == h
  {
    PortText(port);
    PortText(port');
    if IsIPv4(h') {
      IPv4Chars(h');
    } else {
      BracketedHostUnique(h', PrintInt(port', 10), h, PrintInt(port, 10));
    }
  }

  lemma BracketedHead(h: string, port: Option<nat>)
    requires ':' !in h && !IsIPv4(h)
    ensures |Split(PrintId(h, port), ':')[0]| == |h| + 2
  {
    var p := PrintInt(port, 10);
    SplitHead("[" + h + "]", p, ':');
    assert PrintId(h, port) == ("[" + h + "]") + [':'] + p;
  }

  // A family on which it is not idempotent: unbracketed text that starts with a colon, such as `::1`
  // followed by a port.
  lemma NormalizePeerIdUnstable(id: string)
    requires id != "" && id[0] == ':' && '[' !in id
    ensures GetHost(id) == Some("")
    ensures NormalizePeerId(NormalizePeerId(id).value) != NormalizePeerId(id)
  {
    SplitHead("", id[1..], ':');
    assert "" + [':'] + id[1..] == id;
    NormalizePeerIdIdempotentIff(id);
  }
}
