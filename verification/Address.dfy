// Internet addresses as text: what they mean (RFC 4291 section 2.2) and how the library
// normalises them (src/utils.js).
module Address {
  import opened Wrappers
  import opened Text

  // ----- the texts that `net.isIPv4` and `net.isIPv6` accept ---------------------------------

  predicate IsOctet(p: string) {
    && p != "" && AllDigits(p, 10)
    && Value(p, 10) <= 255 && p == Numeral(Value(p, 10), 10)
  }

  predicate IsIPv4(s: string) {
    var parts := Split(s, '.');
    |parts| == 4 && forall p | p in parts :: IsOctet(p)
  }

  predicate IsGroup(p: string) {
    1 <= |p| <= 4 && AllDigits(p, 16)
  }

  // Hexadecimal groups, the last of which may be a dotted quad instead.
  predicate AreGroups(parts: seq<string>) {
    forall i | 0 <= i < |parts| :: IsGroup(parts[i]) || (i == |parts| - 1 && IsIPv4(parts[i]))
  }

  predicate EndsWithQuad(parts: seq<string>) {
    parts != [] && IsIPv4(parts[|parts| - 1])
  }

  // A dotted quad stands for two groups.
  function Width(parts: seq<string>): nat {
    |parts| + if EndsWithQuad(parts) then 1 else 0
  }

  function GroupValues(parts: seq<string>): (r: seq<nat>)
    ensures |r| == |parts|
  {
    seq(|parts|, i requires 0 <= i < |parts| => Value(parts[i], 16))
  }

  function QuadValues(quad: string): (r: seq<nat>)
    requires IsIPv4(quad)
    ensures |r| == 2 && r[0] < 0x10000 && r[1] < 0x10000
  {
    var p := Split(quad, '.');
    assert IsOctet(p[0]) && IsOctet(p[1]) && IsOctet(p[2]) && IsOctet(p[3]);
    [Value(p[0], 10) * 256 + Value(p[1], 10), Value(p[2], 10) * 256 + Value(p[3], 10)]
  }

  function Values(parts: seq<string>): (r: seq<nat>)
    ensures |r| == Width(parts)
  {
    if EndsWithQuad(parts)
    then GroupValues(parts[..|parts| - 1]) + QuadValues(parts[|parts| - 1])
    else GroupValues(parts)
  }

  function Zeros(n: nat): (r: seq<nat>)
    ensures |r| == n
  {
    seq(n, i => 0)
  }

  // The two spellings of an IPv6 address: all groups, or one run of zero groups left out.
  datatype IPv6Text = Full(parts: seq<string>) | Compressed(left: seq<string>, right: seq<string>) {
    predicate Valid() {
      match this
      case Full(parts) => AreGroups(parts) && Width(parts) == 8
      case Compressed(left, right) =>
        AreGroups(left) && !EndsWithQuad(left) && AreGroups(right) && |left| + Width(right) <= 7
    }

    function Render(): string {
      match this
      case Full(parts) => Join(parts, ':')
      case Compressed(left, right) => Join(left, ':') + "::" + Join(right, ':')
    }

    // The eight 16-bit groups the text stands for.
    function Denote(): (groups: seq<nat>)
      requires Valid()
      ensures |groups| == 8
    {
      match this
      case Full(parts) => Values(parts)
      case Compressed(left, right) =>
        Values(left) + Zeros(8 - |left| - Width(right)) + Values(right)
    }

    // No dotted quad in the text.
    predicate Plain() {
      match this
      case Full(parts) => !EndsWithQuad(parts)
      case Compressed(_, right) => !EndsWithQuad(right)
    }

    // The parts between the colons of the rendered text.
    function Parts(): (parts: seq<string>)
      requires Valid()
      ensures parts != []
    {
      match this
      case Full(parts) => parts
      case Compressed(left, right) => OrEmptyPart(left) + [""] + OrEmptyPart(right)
    }
  }

  function OrEmptyPart(parts: seq<string>): (r: seq<string>)
    ensures r != []
  {
    if parts == [] then [""] else parts
  }

  function FirstEmpty(parts: seq<string>): (i: nat)
    ensures i <= |parts|
    ensures i < |parts| ==> parts[i] == ""
    ensures forall j | 0 <= j < i :: parts[j] != ""
  {
    if parts == [] || parts[0] == "" then 0 else 1 + FirstEmpty(parts[1..])
  }

  function Shape(parts: seq<string>): Option<IPv6Text> {
    var i := FirstEmpty(parts);
    if i == |parts| then Some(Full(parts))
    else if i == 0 && (|parts| == 1 || parts[1] != "") then None
    else
      var tail := if i == 0 then parts[2..] else parts[i + 1..];
      if tail == [] then None
      else Some(Compressed(parts[..i], if tail == [""] then [] else tail))
  }

  function ParseIPv6(s: string): (t: Option<IPv6Text>)
    ensures t.Some? ==> t.value.Valid()
  {
    match Shape(Split(s, ':'))
    case Some(t) => if t.Valid() then Some(t) else None
    case None => None
  }

  predicate IsIPv6(s: string) {
    ParseIPv6(s).Some?
  }

  // IPv6 text without dotted quad.
  predicate IsPlainIPv6(s: string) {
    IsIPv6(s) && ParseIPv6(s).value.Plain()
  }

  function Meaning(s: string): (groups: seq<nat>)
    requires IsIPv6(s)
    ensures |groups| == 8
  {
    ParseIPv6(s).value.Denote()
  }

  // ----- normalisation ----------------------------------------------------------------------

  function CountColons(s: string): nat {
    if s == "" then 0 else (if s[0] == ':' then 1 else 0) + CountColons(s[1..])
  }

  function Colons(n: nat): (s: string)
    ensures |s| == n && forall c | c in s :: c == ':'
  {
    seq(n, i => ':')
  }

  // `s.replace(/::/g, "::" + fill)`
  function ReplaceDoubleColons(s: string, fill: string): string {
    if s == "" then ""
    else if |s| >= 2 && s[0] == ':' && s[1] == ':' then "::" + fill + ReplaceDoubleColons(s[2..], fill)
    else [s[0]] + ReplaceDoubleColons(s[1..], fill)
  }

  function PartText(part: string): string {
    if part == "" then "0" else PrintInt(ParseInt(part, 16), 16)
  }

  function PartTexts(parts: seq<string>): (r: seq<string>)
    ensures |r| == |parts|
  {
    seq(|parts|, i requires 0 <= i < |parts| => PartText(parts[i]))
  }

  // `normalizeIPv6Address`; None is the RangeError that `repeat` throws for a negative count.
  function NormalizeIPv6(s: string): Option<string> {
    var colons := CountColons(s);
    if colons > 7 then None
    else Some(Join(PartTexts(Split(ReplaceDoubleColons(s, Colons(7 - colons)), ':')), ':'))
  }

  predicate IsLooseQuad(s: string) {
    var parts := Split(s, '.');
    |parts| == 4 && forall p | p in parts :: 1 <= |p| <= 3 && AllDigits(p, 10)
  }

  // The quad captured by `/ffff:(d.d.d.d)$/`, which is not anchored at the start.
  function HybridQuad(s: string): Option<string> {
    HybridOfParts(Split(s, ':'))
  }

  function HybridOfParts(parts: seq<string>): Option<string> {
    var n := |parts|;
    if n >= 2 && IsLooseQuad(parts[n - 1])
       && |parts[n - 2]| >= 4 && parts[n - 2][|parts[n - 2]| - 4..] == "ffff"
    then Some(parts[n - 1]) else None
  }

  datatype Protocol = IPv4 | IPv6
  datatype Normalized = Normalized(protocol: Protocol, address: string)

  // `normalizeAddress`; None means that it throws.
  function NormalizeAddress(s: string): Option<Normalized> {
    if IsIPv6(s) then
      match HybridQuad(s)
      case Some(quad) => Some(Normalized(IPv4, quad))
      case None =>
        match NormalizeIPv6(s)
        case Some(text) => Some(Normalized(IPv6, text))
        case None => None
    else Some(Normalized(IPv4, s))
  }

  // The address written with eight groups in lower case and no leading zeros.
  function CanonicalText(groups: seq<nat>): string {
    Join(Numerals(groups), ':')
  }

  function Numerals(groups: seq<nat>): (r: seq<string>)
    ensures |r| == |groups|
  {
    seq(|groups|, i requires 0 <= i < |groups| => Numeral(groups[i], 16))
  }

  ghost predicate Are16Bit(groups: seq<nat>) {
    forall g | g in groups :: g < 0x10000
  }

  // ----- parsing undoes rendering -------------------------------------------------------------

  lemma {:induction false} JoinChars(parts: seq<string>, sep: char, c: char)
    requires c != sep && forall p | p in parts :: c !in p
    ensures c !in Join(parts, sep)
  {
    if |parts| > 1 { JoinChars(parts[1..], sep, c); }
  }

  lemma DigitsExclude(p: string, base: nat, c: char)
    requires AllDigits(p, base) && base <= DigitValue(c)
    ensures c !in p
  {}

  lemma IPv4Excludes(s: string, c: char)
    requires IsIPv4(s) && c != '.' && DigitValue(c) == 16
    ensures c !in s
  {
    var parts := Split(s, '.');
    forall p | p in parts ensures c !in p { DigitsExclude(p, 10, c); }
    JoinChars(parts, '.', c);
    JoinSplit(s, '.');
  }

  lemma IPv4Chars(s: string)
    requires IsIPv4(s)
    ensures s != "" && ':' !in s && '[' !in s && ']' !in s && '.' in s
  {
    IPv4Excludes(s, ':');
    IPv4Excludes(s, '[');
    IPv4Excludes(s, ']');
    if '.' !in s { SplitAtom(s, '.'); }
  }

  lemma GroupChars(p: string)
    requires IsGroup(p)
    ensures ':' !in p && '.' !in p && !IsIPv4(p)
  {
    DigitsExclude(p, 16, ':');
    DigitsExclude(p, 16, '.');
    SplitAtom(p, '.');
  }

  lemma GroupsSplit(parts: seq<string>)
    requires AreGroups(parts)
    ensures forall p | p in parts :: p != "" && ':' !in p
    ensures Split(Join(parts, ':'), ':') == OrEmptyPart(parts)
  {
    forall p | p in parts ensures p != "" && ':' !in p {
      var i :| 0 <= i < |parts| && parts[i] == p;
      if IsGroup(p) { GroupChars(p); } else { IPv4Chars(p); }
    }
    if parts != [] { SplitJoin(parts, ':'); } else { SplitAtom("", ':'); }
  }

  lemma SplitDoubleColon(a: string, b: string)
    ensures Split(a + "::" + b, ':') == Split(a, ':') + [""] + Split(b, ':')
  {
    SplitConcat(a, ":" + b, ':');
    SplitConcat("", b, ':');
    assert a + "::" + b == a + ":" + (":" + b);
    assert "" + ":" + b == ":" + b;
  }

  lemma RenderParts(t: IPv6Text)
    requires t.Valid()
    ensures Split(t.Render(), ':') == t.Parts()
  {
    match t
    case Full(parts) => GroupsSplit(parts);
    case Compressed(left, right) =>
      GroupsSplit(left);
      GroupsSplit(right);
      SplitDoubleColon(Join(left, ':'), Join(right, ':'));
  }

  lemma {:induction false} FirstEmptyAt(left: seq<string>, right: seq<string>)
    requires (forall p | p in left :: p != "") && (right == [] || right[0] == "")
    ensures FirstEmpty(left + right) == |left|
  {
    if left == [] {
      assert left + right == right;
    } else {
      assert (left + right)[1..] == left[1..] + right;
      assert left[0] in left && forall p | p in left[1..] :: p in left;
      FirstEmptyAt(left[1..], right);
    }
  }

  lemma ShapeCompressed(left: seq<string>, right: seq<string>)
    requires (forall p | p in left :: p != "") && (forall p | p in right :: p != "")
    ensures Shape(OrEmptyPart(left) + [""] + OrEmptyPart(right)) == Some(Compressed(left, right))
  {
    hide FirstEmpty, Shape;
    var tail := OrEmptyPart(right);
    if right != [] { assert right[0] in right; }
    if left == [] {
      FirstEmptyAt([], [""] + [""] + tail);
      assert [] + ([""] + [""] + tail) == [""] + [""] + tail;
      ShapeAtStart(tail);
    } else {
      FirstEmptyAt(left, [""] + tail);
      assert left + ([""] + tail) == left + [""] + tail;
      ShapeInside(left, tail);
    }
  }

  lemma ShapeAtStart(tail: seq<string>)
    requires tail != [] && FirstEmpty([""] + [""] + tail) == 0
    ensures Shape([""] + [""] + tail) == Some(Compressed([], if tail == [""] then [] else tail))
  {
    hide FirstEmpty;
    assert ([""] + [""] + tail)[2..] == tail;
  }

  lemma ShapeInside(left: seq<string>, tail: seq<string>)
    requires left != [] && tail != [] && FirstEmpty(left + [""] + tail) == |left|
    ensures Shape(left + [""] + tail) == Some(Compressed(left, if tail == [""] then [] else tail))
  {
    hide FirstEmpty;
    var ps := left + [""] + tail;
    assert ps[..|left|] == left && ps[|left| + 1..] == tail;
  }

  lemma ShapeParts(t: IPv6Text)
    requires t.Valid()
    ensures Shape(t.Parts()) == Some(t)
  {
    match t
    case Full(parts) =>
      GroupsSplit(parts);
      FirstEmptyAt(parts, []);
      assert parts + [] == parts;
    case Compressed(left, right) =>
      GroupsSplit(left);
      GroupsSplit(right);
      ShapeCompressed(left, right);
  }

  // Reading a well-formed text back gives the text's own structure, and every text that is read
  // successfully is the rendering of the structure found.
  lemma ParseRender(t: IPv6Text)
    requires t.Valid()
    ensures ParseIPv6(t.Render()) == Some(t)
  {
    RenderParts(t);
    ShapeParts(t);
  }

  lemma PartsOfShape(ps: seq<string>, t: IPv6Text)
    requires Shape(ps) == Some(t) && t.Valid()
    ensures t.Parts() == ps
  {
    hide AreGroups, EndsWithQuad, Width, IsIPv4;
    var i := FirstEmpty(ps);
    if i == 0 && ps != [] {
      assert ps == ["", ""] + ps[2..];
    } else if i < |ps| {
      assert ps == ps[..i] + [""] + ps[i + 1..];
    }
  }

  lemma RenderParse(s: string)
    requires IsIPv6(s)
    ensures ParseIPv6(s).value.Render() == s
  {
    var t := ParseIPv6(s).value;
    PartsOfShape(Split(s, ':'), t);
    RenderParts(t);
    JoinSplit(s, ':');
    JoinSplit(t.Render(), ':');
  }

  // ----- what normalisation computes ----------------------------------------------------------

  lemma {:induction false} CountIsSplit(s: string)
    ensures CountColons(s) == |Split(s, ':')| - 1
  {
    if s != "" { CountIsSplit(s[1..]); }
  }

  lemma {:induction false} ReplaceAtom(p: string, tail: string, fill: string)
    requires ':' !in p
    ensures ReplaceDoubleColons(p + tail, fill) == p + ReplaceDoubleColons(tail, fill)
  {
    if p == "" {
      assert p + tail == tail;
    } else {
      assert p[0] in p;
      assert (p + tail)[1..] == p[1..] + tail;
      ReplaceAtom(p[1..], tail, fill);
    }
  }

  // Single colons between non-empty parts are left alone.
  lemma {:induction false} ReplaceJoin(parts: seq<string>, tail: string, fill: string)
    requires forall p | p in parts :: p != "" && ':' !in p
    ensures ReplaceDoubleColons(Join(parts, ':') + tail, fill)
         == Join(parts, ':') + ReplaceDoubleColons(tail, fill)
  {
    hide ReplaceDoubleColons;
    if |parts| == 0 {
      assert Join(parts, ':') + tail == tail;
    } else if |parts| == 1 {
      ReplaceAtom(parts[0], tail, fill);
    } else {
      var rest := Join(parts[1..], ':') + tail;
      assert parts[1] in parts && forall p | p in parts[1..] :: p in parts;
      assert rest[0] == parts[1][0];
      ReplaceJoin(parts[1..], tail, fill);
      ReplaceColon(rest, fill);
      ReplaceAtom(parts[0], [':'] + rest, fill);
      assert Join(parts, ':') + tail == parts[0] + ([':'] + rest);
    }
  }

  lemma ReplaceColon(rest: string, fill: string)
    requires rest != "" && rest[0] != ':'
    ensures ReplaceDoubleColons([':'] + rest, fill) == [':'] + ReplaceDoubleColons(rest, fill)
  {
    assert ([':'] + rest)[1..] == rest;
  }

  function EmptyParts(n: nat): (r: seq<string>)
    ensures |r| == n
  {
    seq(n, i => "")
  }

  lemma ColonsCons(n: nat)
    requires n > 0
    ensures Colons(n) == [':'] + Colons(n - 1) && EmptyParts(n) == [""] + EmptyParts(n - 1)
  {}

  lemma SplitColon(b: string)
    ensures Split([':'] + b, ':') == [""] + Split(b, ':')
  {
    assert ([':'] + b)[1..] == b;
  }

  lemma {:induction false} SplitColons(n: nat, b: string)
    ensures Split(Colons(n) + b, ':') == EmptyParts(n) + Split(b, ':')
  {
    hide Split;
    if n == 0 {
      assert Colons(n) + b == b;
    } else {
      SplitColons(n - 1, b);
      SplitColon(Colons(n - 1) + b);
      ColonsCons(n);
      assert [':'] + Colons(n - 1) + b == [':'] + (Colons(n - 1) + b);
    }
  }

  // The parts of the text after the run of zero groups has been written out as empty parts.
  function Expanded(t: IPv6Text): (r: seq<string>)
    requires t.Valid() && |t.Parts()| <= 8
    ensures |r| == if t.Full? then |t.parts| else 8
  {
    match t
    case Full(parts) => parts
    case Compressed(left, right) =>
      OrEmptyPart(left) + EmptyParts(8 - |OrEmptyPart(left)| - |OrEmptyPart(right)|) + OrEmptyPart(right)
  }

  lemma ExpandedFull(parts: seq<string>, fill: string)
    requires AreGroups(parts) && parts != []
    ensures Split(ReplaceDoubleColons(Join(parts, ':'), fill), ':') == parts
  {
    GroupsSplit(parts);
    ReplaceJoin(parts, "", fill);
    assert Join(parts, ':') + "" == Join(parts, ':');
  }

  lemma ReplaceFirst(b: string, fill: string)
    ensures ReplaceDoubleColons("::" + b, fill) == "::" + fill + ReplaceDoubleColons(b, fill)
  {
    assert ("::" + b)[2..] == b;
  }

  lemma ReplaceCompressed(left: seq<string>, right: seq<string>, fill: string)
    requires forall p | p in left :: p != "" && ':' !in p
    requires forall p | p in right :: p != "" && ':' !in p
    ensures ReplaceDoubleColons(Join(left, ':') + "::" + Join(right, ':'), fill)
         == Join(left, ':') + "::" + (fill + Join(right, ':'))
  {
    var a, b := Join(left, ':'), Join(right, ':');
    calc {
      ReplaceDoubleColons(a + "::" + b, fill);
      { assert a + "::" + b == a + ("::" + b); }
      ReplaceDoubleColons(a + ("::" + b), fill);
      { ReplaceJoin(left, "::" + b, fill); }
      a + ReplaceDoubleColons("::" + b, fill);
      { ReplaceFirst(b, fill); ReplaceJoin(right, "", fill); assert b + "" == b; }
      a + ("::" + fill + b);
      a + "::" + (fill + b);
    }
  }

  lemma ExpandedCompressed(left: seq<string>, right: seq<string>, k: nat)
    requires AreGroups(left) && AreGroups(right)
    ensures Split(ReplaceDoubleColons(Join(left, ':') + "::" + Join(right, ':'), Colons(k)), ':')
         == OrEmptyPart(left) + EmptyParts(k + 1) + OrEmptyPart(right)
  {
    hide AreGroups, Split, Join, ReplaceDoubleColons;
    GroupsSplit(left);
    GroupsSplit(right);
    var a, b := Join(left, ':'), Join(right, ':');
    ReplaceCompressed(left, right, Colons(k));
    SplitDoubleColon(a, Colons(k) + b);
    SplitColons(k, b);
    ColonsCons(k + 1);
    var l, r := OrEmptyPart(left), OrEmptyPart(right);
    assert l + [""] + (EmptyParts(k) + r) == l + ([""] + EmptyParts(k)) + r;
  }

  lemma ExpandedText(t: IPv6Text)
    requires t.Valid() && |t.Parts()| <= 8
    ensures CountColons(t.Render()) <= 7
    ensures Split(ReplaceDoubleColons(t.Render(), Colons(7 - CountColons(t.Render()))), ':') == Expanded(t)
  {
    CountIsSplit(t.Render());
    RenderParts(t);
    var k := 7 - CountColons(t.Render());
    match t
    case Full(parts) => ExpandedFull(parts, Colons(k));
    case Compressed(left, right) => ExpandedCompressed(left, right, k);
  }

  function PartRead(part: string): nat {
    if part == "" then 0
    else match ParseInt(part, 16) case Some(v) => v case None => 0
  }

  function ReadParts(parts: seq<string>): (r: seq<nat>)
    ensures |r| == |parts|
  {
    seq(|parts|, i requires 0 <= i < |parts| => PartRead(parts[i]))
  }

  lemma {:induction false} DigitPrefixBefore(p: string, rest: string)
    requires AllDigits(p, 16)
    ensures DigitPrefix(p + ['.'] + rest, 16) == p
  {
    var s := p + ['.'] + rest;
    if p != "" {
      assert p[0] in p;
      assert s[1..] == p[1..] + ['.'] + rest;
      DigitPrefixBefore(p[1..], rest);
      assert p == [p[0]] + p[1..];
    }
  }

  lemma OctetWidth(p: string)
    requires IsOctet(p)
    ensures 1 <= |p| <= 3 && AllDigits(p, 16)
  {
    var v := Value(p, 10);
    if v >= 10 {
      assert Numeral(v, 10) == Numeral(v / 10, 10) + [DIGITS[v % 10]];
      if v / 10 >= 10 { assert |Numeral(v / 10, 10)| == |Numeral(v / 100, 10)| + 1; }
    }
  }

  // Every part is printed as the numeral of the 16-bit number that `parseInt` reads from it.
  lemma PartTextRead(p: string)
    requires p == "" || IsGroup(p) || IsIPv4(p)
    ensures PartText(p) == Numeral(PartRead(p), 16) && PartRead(p) < 0x10000
    ensures IsGroup(p) ==> PartRead(p) == Value(p, 16)
  {
    if IsGroup(p) {
      DigitPrefixAll(p, 16);
      HexValueBound(p);
    } else if IsIPv4(p) {
      var q := Split(p, '.');
      JoinSplit(p, '.');
      assert IsOctet(q[0]);
      OctetWidth(q[0]);
      assert p == q[0] + ['.'] + Join(q[1..], '.');
      DigitPrefixBefore(q[0], Join(q[1..], '.'));
      HexValueBound(q[0]);
    }
  }

  predicate IsPart(p: string) {
    p == "" || IsGroup(p) || IsIPv4(p)
  }

  lemma PartTextsRead(ps: seq<string>)
    requires forall p | p in ps :: IsPart(p)
    ensures PartTexts(ps) == Numerals(ReadParts(ps)) && Are16Bit(ReadParts(ps))
  {
    forall i | 0 <= i < |ps|
      ensures PartTexts(ps)[i] == Numerals(ReadParts(ps))[i] && ReadParts(ps)[i] < 0x10000
    {
      assert IsPart(ps[i]);
      PartTextRead(ps[i]);
    }
  }

  lemma ExpandedIsParts(t: IPv6Text)
    requires t.Valid() && |t.Parts()| <= 8
    ensures forall p | p in Expanded(t) :: IsPart(p)
  {}

  // Normalising any accepted text prints the numbers read from its expanded parts.
  lemma NormalizeReads(t: IPv6Text)
    requires t.Valid() && |t.Parts()| <= 8
    ensures NormalizeIPv6(t.Render()) == Some(CanonicalText(ReadParts(Expanded(t))))
    ensures Are16Bit(ReadParts(Expanded(t)))
  {
    ExpandedText(t);
    ExpandedIsParts(t);
    PartTextsRead(Expanded(t));
  }

  lemma ReadGroups(parts: seq<string>)
    requires AreGroups(parts) && !EndsWithQuad(parts)
    ensures ReadParts(parts) == GroupValues(parts) == Values(parts)
  {
    forall i | 0 <= i < |parts| ensures ReadParts(parts)[i] == GroupValues(parts)[i] {
      PartTextRead(parts[i]);
    }
  }

  // For plain text the numbers read are the groups that the text denotes.
  lemma ReadsMeaning(t: IPv6Text)
    requires t.Valid() && t.Plain() && |t.Parts()| <= 8
    ensures ReadParts(Expanded(t)) == t.Denote()
  {
    match t
    case Full(parts) => ReadGroups(parts);
    case Compressed(left, right) =>
      ReadGroups(left);
      ReadGroups(right);
      ReadCompressed(left, right, 8 - |OrEmptyPart(left)| - |OrEmptyPart(right)|);
  }

  lemma ReadCompressed(left: seq<string>, right: seq<string>, n: nat)
    ensures ReadParts(OrEmptyPart(left) + EmptyParts(n) + OrEmptyPart(right))
         == ReadParts(left) + Zeros((if left == [] then 1 else 0) + n + (if right == [] then 1 else 0))
            + ReadParts(right)
  {
    hide PartRead;
    EmptyReadsZero();
  }

  lemma EmptyReadsZero()
    ensures PartRead("") == 0
  {}

  // One zero group left out at either end: the double colon saves nothing, the text has eight colons.
  predicate EightColons(t: IPv6Text) {
    t.Compressed? && ((t.left == [] && |t.right| == 7) || (t.right == [] && |t.left| == 7))
  }

  lemma TooManyColons(t: IPv6Text)
    requires t.Valid()
    ensures |t.Parts()| > 8 <==> EightColons(t)
  {}

  // ----- main results ---------------------------------------------------------------------------

  // `normalizeIPv6Address` works on an IPv6 text exactly when the text has at most seven colons;
  // then the result is the canonical text of the very address that the text denotes.
  lemma NormalizeIPv6Meaning(s: string)
    requires IsPlainIPv6(s)
    ensures NormalizeIPv6(s).Some? <==> CountColons(s) <= 7
    ensures CountColons(s) <= 7 ==> NormalizeIPv6(s) == Some(CanonicalText(Meaning(s)))
    ensures CountColons(s) <= 7 ==> Are16Bit(Meaning(s))
  {
    var t := ParseIPv6(s).value;
    RenderParse(s);
    RenderParts(t);
    CountIsSplit(s);
    if |t.Parts()| <= 8 {
      NormalizeReads(t);
      ReadsMeaning(t);
    }
  }

  // The shape of every accepted text whose normalisation throws.
  lemma NormalizeThrowsIff(s: string)
    requires IsIPv6(s)
    ensures NormalizeIPv6(s).None? <==> EightColons(ParseIPv6(s).value)
  {
    var t := ParseIPv6(s).value;
    RenderParse(s);
    RenderParts(t);
    CountIsSplit(s);
    TooManyColons(t);
  }

  // Well-formed texts on which it throws: a run of zeros of length one at either end.
  lemma NormalizeIPv6Throws(groups: seq<string>)
    requires |groups| == 7 && forall g | g in groups :: IsGroup(g)
    ensures IsPlainIPv6(Join(groups, ':') + "::") && NormalizeIPv6(Join(groups, ':') + "::").None?
    ensures IsPlainIPv6("::" + Join(groups, ':')) && NormalizeIPv6("::" + Join(groups, ':')).None?
  {
    hide IsIPv4, IsGroup, Join, IsPlainIPv6, NormalizeIPv6;
    forall g | g in groups ensures !IsIPv4(g) { GroupChars(g); }
    EightColonsThrow(Compressed(groups, []));
    EightColonsThrow(Compressed([], groups));
    assert Join([], ':') == "" by { EmptyJoin(); }
    assert Join(groups, ':') + "::" + "" == Join(groups, ':') + "::";
    assert "" + "::" + Join(groups, ':') == "::" + Join(groups, ':');
  }

  lemma EmptyJoin()
    ensures Join([], ':') == ""
  {}

  lemma EightColonsThrow(t: IPv6Text)
    requires t.Valid() && t.Plain() && EightColons(t)
    ensures IsPlainIPv6(t.Render()) && NormalizeIPv6(t.Render()).None?
  {
    hide IsIPv4, IsGroup, NormalizeIPv6, Split, Join;
    ParseRender(t);
    NormalizeThrowsIff(t.Render());
  }

  lemma NumeralGroup(n: nat)
    requires n < 0x10000
    ensures IsGroup(Numeral(n, 16)) && !IsIPv4(Numeral(n, 16)) && Value(Numeral(n, 16), 16) == n
  {
    NumeralValue(n, 16);
    HexWidth(n);
    GroupChars(Numeral(n, 16));
  }

  lemma NumeralsAreGroups(groups: seq<nat>)
    requires Are16Bit(groups)
    ensures AreGroups(Numerals(groups)) && !EndsWithQuad(Numerals(groups))
    ensures GroupValues(Numerals(groups)) == groups
  {
    forall i | 0 <= i < |groups|
      ensures IsGroup(Numerals(groups)[i]) && !IsIPv4(Numerals(groups)[i])
           && Value(Numerals(groups)[i], 16) == groups[i]
    {
      assert groups[i] in groups;
      NumeralGroup(groups[i]);
    }
  }

  // Canonical text is an IPv6 text with seven colons, denotes its own groups, and is fixed by
  // normalisation; so normalisation is idempotent.
  lemma CanonicalTextStable(groups: seq<nat>)
    requires |groups| == 8 && Are16Bit(groups)
    ensures IsPlainIPv6(CanonicalText(groups)) && Meaning(CanonicalText(groups)) == groups
    ensures CountColons(CanonicalText(groups)) == 7
    ensures NormalizeIPv6(CanonicalText(groups)) == Some(CanonicalText(groups))
    ensures Split(CanonicalText(groups), ':') == Numerals(groups)
  {
    var t := Full(Numerals(groups));
    NumeralsAreGroups(groups);
    ParseRender(t);
    RenderParts(t);
    CountIsSplit(t.Render());
    NormalizeIPv6Meaning(CanonicalText(groups));
  }

  // Two texts normalise equally exactly when they denote the same address.
  lemma NormalFormIffSameMeaning(s: string, u: string)
    requires IsPlainIPv6(s) && CountColons(s) <= 7 && IsPlainIPv6(u) && CountColons(u) <= 7
    ensures NormalizeIPv6(s) == NormalizeIPv6(u) <==> Meaning(s) == Meaning(u)
  {
    NormalizeIPv6Meaning(s);
    NormalizeIPv6Meaning(u);
    CanonicalTextStable(Meaning(s));
    CanonicalTextStable(Meaning(u));
  }

  // The printed groups: lower case, no leading zero, one to four digits.
  lemma CanonicalGroup(groups: seq<nat>, i: nat)
    requires |groups| == 8 && Are16Bit(groups) && i < 8
    ensures var ps := Split(CanonicalText(groups), ':');
      |ps| == 8 && var p := ps[i];
      1 <= |p| <= 4 && (forall c | c in p :: IsLowerDigit(c)) && (p[0] == '0' ==> p == "0")
  {
    CanonicalTextStable(groups);
    assert groups[i] in groups;
    NumeralGroup(groups[i]);
    NumeralValue(groups[i], 16);
  }

  // ----- normalizeAddress on every text ---------------------------------------------------------

  // The addresses that `normalizeAddress` handles by meaning: dotted quads, IPv6 text without a
  // quad and with at most seven colons, and IPv6 text ending in `ffff:` and a quad.
  predicate IsSupported(s: string) {
    || IsIPv4(s)
    || (IsPlainIPv6(s) && CountColons(s) <= 7)
    || (IsIPv6(s) && HybridQuad(s).Some?)
  }

  // Addresses in normal form.
  predicate IsNormalIp(ip: string) {
    IsIPv4(ip) || (IsIPv6(ip) && HybridQuad(ip).None? && NormalizeIPv6(ip) == Some(ip))
  }

  lemma NoColonNotIPv6(s: string)
    requires ':' !in s
    ensures !IsIPv6(s)
  {
    SplitAtom(s, ':');
  }

  lemma LooseQuadChars(q: string)
    requires IsLooseQuad(q)
    ensures q != "" && !IsGroup(q) && '[' !in q && ']' !in q && ':' !in q
  {
    if IsGroup(q) { GroupChars(q); SplitAtom(q, '.'); }
    var parts := Split(q, '.');
    forall p | p in parts ensures '[' !in p && ']' !in p && ':' !in p {
      DigitsExclude(p, 10, '[');
      DigitsExclude(p, 10, ']');
      DigitsExclude(p, 10, ':');
    }
    JoinChars(parts, '.', '[');
    JoinChars(parts, '.', ']');
    JoinChars(parts, '.', ':');
    JoinSplit(q, '.');
  }

  // In an accepted text the last part that looks like a quad is one.
  lemma HybridLast(s: string)
    requires IsIPv6(s) && HybridQuad(s).Some?
    ensures var t := ParseIPv6(s).value;
      && IsIPv4(HybridQuad(s).value) && !t.Plain()
      && (t.Full? ==> |t.parts| == 7 && t.parts[5] == "ffff" && t.parts[6] == HybridQuad(s).value)
      && (t.Compressed? ==>
            var n := |t.right|;
            n >= 2 && t.right[n - 2] == "ffff" && t.right[n - 1] == HybridQuad(s).value)
  {
    var t := ParseIPv6(s).value;
    RenderParse(s);
    RenderParts(t);
    var ps := t.Parts();
    var n := |ps|;
    LooseQuadChars(ps[n - 1]);
    match t
    case Full(parts) =>
      assert IsGroup(parts[n - 2]);
    case Compressed(left, right) =>
      assert right != [] && right[|right| - 1] == ps[n - 1];
      assert IsGroup(right[|right| - 2]);
  }

  lemma QuadIsLoose(q: string)
    requires IsIPv4(q)
    ensures IsLooseQuad(q)
  {
    forall p | p in Split(q, '.') ensures 1 <= |p| <= 3 && AllDigits(p, 10) { OctetWidth(p); }
  }

  lemma QuadLast(t: IPv6Text)
    requires t.Valid() && !t.Plain()
    ensures var ps := t.Parts();
      |ps| >= 2 && IsIPv4(ps[|ps| - 1]) && |ps[|ps| - 2]| <= 4
  {
    var ps := t.Parts();
    assert t.Full? ==> |ps| == 7 && IsGroup(ps[5]);
    assert t.Compressed? ==> ps[|ps| - 1] == t.right[|t.right| - 1];
    if t.Compressed? && |t.right| >= 2 {
      assert ps[|ps| - 2] == t.right[|t.right| - 2];
      assert IsGroup(t.right[|t.right| - 2]);
    }
  }

  lemma HybridOfShortPart(ps: seq<string>)
    requires |ps| >= 2 && IsLooseQuad(ps[|ps| - 1]) && |ps[|ps| - 2]| <= 4
    ensures HybridOfParts(ps).Some? <==> ps[|ps| - 2] == "ffff"
  {
    var p := ps[|ps| - 2];
    if |p| == 4 { assert p[0..] == p; }
  }

  // A text ending in a quad is folded to the quad exactly when the group before the quad is
  // spelled `ffff` in lower case.
  lemma FoldsExactly(s: string)
    requires IsIPv6(s) && !ParseIPv6(s).value.Plain()
    ensures var ps := Split(s, ':');
      |ps| >= 2 && (HybridQuad(s).Some? <==> ps[|ps| - 2] == "ffff")
  {
    hide IsLooseQuad, IsIPv4;
    var t := ParseIPv6(s).value;
    RenderParse(s);
    RenderParts(t);
    QuadLast(t);
    var ps := Split(s, ':');
    QuadIsLoose(ps[|ps| - 1]);
    HybridOfShortPart(ps);
  }

  lemma FfffValue()
    ensures Value("ffff", 16) == 0xffff
  {
    assert "ffff"[..3] == "fff" && "fff"[..2] == "ff" && "ff"[..1] == "f" && "f"[..0] == "";
  }

  lemma FfffQuadValues(parts: seq<string>, q: string)
    requires |parts| >= 2 && parts[|parts| - 2] == "ffff" && parts[|parts| - 1] == q && IsIPv4(q)
    ensures |Values(parts)| == |parts| + 1
    ensures Values(parts)[|parts| - 2..] == [0xffff] + QuadValues(q)
  {
    FfffValue();
    var init := parts[..|parts| - 1];
    assert GroupValues(init)[|parts| - 2] == 0xffff;
    assert Values(parts) == GroupValues(init) + QuadValues(q);
  }

  lemma DenoteFfffQuad(t: IPv6Text, q: string)
    requires t.Valid() && IsIPv4(q)
    requires var parts := if t.Full? then t.parts else t.right;
      |parts| >= 2 && parts[|parts| - 2] == "ffff" && parts[|parts| - 1] == q
    ensures t.Denote()[5..] == [0xffff] + QuadValues(q)
  {
    var parts := if t.Full? then t.parts else t.right;
    FfffQuadValues(parts, q);
    var v, d := Values(parts), t.Denote();
    assert d == d[..8 - |v|] + v;
    assert d[5..] == v[|v| - 3..];
  }

  lemma HybridMeaning(s: string)
    requires IsIPv6(s) && HybridQuad(s).Some?
    ensures IsIPv4(HybridQuad(s).value)
    ensures Meaning(s)[5..] == [0xffff] + QuadValues(HybridQuad(s).value)
  {
    hide HybridQuad, ParseIPv6, IsIPv4, IsGroup, QuadValues, IPv6Text.Valid, IPv6Text.Denote, IPv6Text.Plain;
    HybridLast(s);
    DenoteFfffQuad(ParseIPv6(s).value, HybridQuad(s).value);
  }

  lemma ZerosPrefix(m: seq<nat>, tail: seq<nat>)
    requires |m| == 8 && m[5..] == tail
    ensures m == Zeros(5) + tail <==> m[..5] == Zeros(5)
  {
    assert m == m[..5] + m[5..];
  }

  // Folding: the last three groups are always those of the IPv4-mapped address (RFC 4291 section
  // 2.5.5.2) of the quad. The whole address is the mapped one exactly when the other five are zero;
  // the pattern does not check that.
  lemma FoldMeaning(s: string)
    requires IsIPv6(s) && HybridQuad(s).Some?
    ensures var q := HybridQuad(s).value;
      && NormalizeAddress(s) == Some(Normalized(IPv4, q)) && IsIPv4(q)
      && Meaning(s)[5..] == [0xffff] + QuadValues(q)
      && (Meaning(s) == Zeros(5) + ([0xffff] + QuadValues(q)) <==> Meaning(s)[..5] == Zeros(5))
  {
    HybridMeaning(s);
    ZerosPrefix(Meaning(s), [0xffff] + QuadValues(HybridQuad(s).value));
  }

  // What normalisation can print: seven or eight numerals.
  lemma NormalizedShape(s: string) returns (groups: seq<nat>)
    requires IsIPv6(s) && NormalizeIPv6(s).Some?
    ensures 7 <= |groups| <= 8 && Are16Bit(groups)
    ensures NormalizeIPv6(s) == Some(CanonicalText(groups))
  {
    var t := ParseIPv6(s).value;
    RenderParse(s);
    RenderParts(t);
    CountIsSplit(s);
    NormalizeReads(t);
    groups := ReadParts(Expanded(t));
  }

  lemma CanonicalTextSplit(groups: seq<nat>)
    requires groups != [] && Are16Bit(groups)
    ensures Split(CanonicalText(groups), ':') == Numerals(groups)
    ensures '[' !in CanonicalText(groups) && ']' !in CanonicalText(groups)
    ensures HybridQuad(CanonicalText(groups)).None?
  {
    NumeralsAreGroups(groups);
    var ps := Numerals(groups);
    GroupsSplit(ps);
    forall p | p in ps ensures '[' !in p && ']' !in p && IsGroup(p) {
      DigitsExclude(p, 16, '[');
      DigitsExclude(p, 16, ']');
    }
    JoinChars(ps, ':', '[');
    JoinChars(ps, ':', ']');
    var last := ps[|ps| - 1];
    assert last in ps && IsGroup(last);
    if IsLooseQuad(last) { LooseQuadChars(last); }
  }

  lemma SevenGroupsNotIPv6(groups: seq<nat>)
    requires |groups| == 7 && Are16Bit(groups)
    ensures !IsIPv6(CanonicalText(groups))
  {
    CanonicalTextSplit(groups);
    NumeralsAreGroups(groups);
    GroupsSplit(Numerals(groups));
    FirstEmptyAt(Numerals(groups), []);
    assert Numerals(groups) + [] == Numerals(groups);
  }

  // Normalising twice is normalising once, for every text whatsoever.
  lemma NormalizeAddressIdempotent(s: string)
    requires NormalizeAddress(s).Some?
    ensures var a := NormalizeAddress(s).value.address;
      NormalizeAddress(a).Some? && NormalizeAddress(a).value.address == a
  {
    if IsIPv6(s) && HybridQuad(s).Some? {
      var q := HybridQuad(s).value;
      LooseQuadChars(q);
      NoColonNotIPv6(q);
    } else if IsIPv6(s) {
      var groups := NormalizedShape(s);
      CanonicalTextSplit(groups);
      if |groups| == 8 { CanonicalTextStable(groups); } else { SevenGroupsNotIPv6(groups); }
    }
  }

  // The normal form of an address; None means that normalising throws.
  function Form(ip: string): Option<string> {
    match NormalizeAddress(ip)
    case Some(n) => Some(n.address)
    case None => None
  }

  lemma FormIs(ip: string)
    ensures Form(ip) == Some(ip) <==> NormalizeAddress(ip).Some? && NormalizeAddress(ip).value.address == ip
  {}

  lemma FormOfForm(ip: string)
    requires Form(ip).Some?
    ensures Form(Form(ip).value) == Form(ip)
  {
    NormalizeAddressIdempotent(ip);
  }

  // A bracket in the normal form was in the text already.
  lemma NormalizeAddressBrackets(s: string)
    requires NormalizeAddress(s).Some? && '[' !in s
    ensures '[' !in NormalizeAddress(s).value.address
  {
    if IsIPv6(s) && HybridQuad(s).Some? {
      LooseQuadChars(HybridQuad(s).value);
    } else if IsIPv6(s) {
      var groups := NormalizedShape(s);
      CanonicalTextSplit(groups);
    }
  }

  // The normal forms are exactly the results on supported addresses; there normalisation keeps
  // the meaning, and it fixes each normal form.
  lemma NormalizeSupported(s: string)
    requires IsSupported(s)
    ensures NormalizeAddress(s).Some? && IsNormalIp(NormalizeAddress(s).value.address)
    ensures var n := NormalizeAddress(s).value;
      && (n.protocol.IPv6? <==> IsIPv6(n.address)) && (IsIPv6(n.address) ==> IsPlainIPv6(s))
      && (IsPlainIPv6(s) ==> IsPlainIPv6(n.address) && Meaning(n.address) == Meaning(s))
  {
    if IsIPv4(s) {
      IPv4Chars(s);
      NoColonNotIPv6(s);
    } else if HybridQuad(s).Some? {
      FoldMeaning(s);
      HybridLast(s);
      IPv4Chars(HybridQuad(s).value);
      NoColonNotIPv6(HybridQuad(s).value);
    } else {
      NormalizeIPv6Meaning(s);
      CanonicalTextStable(Meaning(s));
      CanonicalTextSplit(Meaning(s));
    }
  }

  lemma NormalIpGroups(ip: string) returns (groups: seq<nat>)
    requires IsNormalIp(ip) && IsIPv6(ip)
    ensures |groups| == 8 && Are16Bit(groups) && ip == CanonicalText(groups)
    ensures IsPlainIPv6(ip) && CountColons(ip) == 7 && Meaning(ip) == groups
  {
    if IsIPv4(ip) { IPv4Chars(ip); NoColonNotIPv6(ip); }
    groups := NormalizedShape(ip);
    if |groups| == 7 { SevenGroupsNotIPv6(groups); }
    CanonicalTextStable(groups);
  }

  lemma NormalIpFixed(ip: string)
    requires IsNormalIp(ip)
    ensures IsSupported(ip)
    ensures NormalizeAddress(ip) == Some(Normalized(if IsIPv6(ip) then IPv6 else IPv4, ip))
    ensures '[' !in ip && ']' !in ip && ip != ""
    ensures IsIPv4(ip) <==> !IsIPv6(ip)
    ensures IsIPv4(ip) ==> ':' !in ip
  {
    if IsIPv4(ip) {
      IPv4Chars(ip);
      NoColonNotIPv6(ip);
    } else {
      var groups := NormalIpGroups(ip);
      CanonicalTextSplit(groups);
      SplitAtom("", ':');
    }
  }
}
