// The string primitives that the address and peer-id code is built from: `split`, `join`,
// `parseInt` and `toString` with a radix.
module Text {
  import opened Wrappers

  // ----- split and join --------------------------------------------------------------------

  function Split(s: string, sep: char): (parts: seq<string>)
    ensures parts != []
    ensures forall p | p in parts :: sep !in p
  {
    if s == "" then [""]
    else
      var rest := Split(s[1..], sep);
      if s[0] == sep then [""] + rest else [[s[0]] + rest[0]] + rest[1..]
  }

  function Join(parts: seq<string>, sep: char): string {
    if parts == [] then ""
    else if |parts| == 1 then parts[0]
    else parts[0] + [sep] + Join(parts[1..], sep)
  }

  lemma {:induction false} SplitAtom(s: string, sep: char)
    requires sep !in s
    ensures Split(s, sep) == [s]
  {
    if s != "" { SplitAtom(s[1..], sep); assert s == [s[0]] + s[1..]; }
  }

  // A separator always cuts the text in two independent halves.
  lemma {:induction false} SplitConcat(a: string, b: string, sep: char)
    ensures Split(a + [sep] + b, sep) == Split(a, sep) + Split(b, sep)
  {
    var s := a + [sep] + b;
    if a == "" {
      assert s[1..] == b;
    } else {
      assert s[1..] == a[1..] + [sep] + b;
      SplitConcat(a[1..], b, sep);
    }
  }

  lemma {:induction false} SplitJoin(parts: seq<string>, sep: char)
    requires parts != [] && forall p | p in parts :: sep !in p
    ensures Split(Join(parts, sep), sep) == parts
  {
    SplitAtom(parts[0], sep);
    if |parts| > 1 {
      SplitJoin(parts[1..], sep);
      SplitConcat(parts[0], Join(parts[1..], sep), sep);
    }
  }

  lemma {:induction false} JoinSplit(s: string, sep: char)
    ensures Join(Split(s, sep), sep) == s
  {
    if s != "" {
      JoinSplit(s[1..], sep);
      var rest := Split(s[1..], sep);
      if s[0] != sep && |rest| > 1 {
        assert Split(s, sep)[1..] == rest[1..];
      }
      assert s == [s[0]] + s[1..];
    }
  }

  // Joining two non-empty lists puts one separator between the two texts.
  lemma {:induction false} JoinConcat(a: seq<string>, b: seq<string>, sep: char)
    requires a != [] && b != []
    ensures Join(a + b, sep) == Join(a, sep) + [sep] + Join(b, sep)
  {
    assert (a + b)[1..] == a[1..] + b;
    if |a| > 1 { JoinConcat(a[1..], b, sep); }
  }

  // The first part of a split is the text before the first separator.
  lemma {:induction false} SplitHead(a: string, b: string, sep: char)
    requires sep !in a
    ensures Split(a + [sep] + b, sep)[0] == a
    ensures Split(a + [sep] + b, sep)[1..] == Split(b, sep)
  {
    SplitConcat(a, b, sep);
    SplitAtom(a, sep);
  }

  // ----- numerals --------------------------------------------------------------------------

  const DIGITS := "0123456789abcdef"

  // The value of a digit character; 16 for a character that is no digit in any radix used here.
  function DigitValue(c: char): (v: nat)
    ensures v <= 16
    ensures v < 16 ==> c != ':' && c != '[' && c != ']' && c != '.' && c != 'N'
  {
    if '0' <= c <= '9' then c as int - '0' as int
    else if 'a' <= c <= 'f' then c as int - 'a' as int + 10
    else if 'A' <= c <= 'F' then c as int - 'A' as int + 10
    else 16
  }

  predicate AllDigits(s: string, base: nat) {
    forall c | c in s :: DigitValue(c) < base
  }

  // `n.toString(base)`.
  function Numeral(n: nat, base: nat): (s: string)
    requires 2 <= base <= 16
  {
    if n < base then [DIGITS[n]] else Numeral(n / base, base) + [DIGITS[n % base]]
  }

  function Value(s: string, base: nat): nat {
    if s == "" then 0 else Value(s[..|s| - 1], base) * base + DigitValue(s[|s| - 1])
  }

  function DigitPrefix(s: string, base: nat): string {
    if s != "" && DigitValue(s[0]) < base then [s[0]] + DigitPrefix(s[1..], base) else ""
  }

  // `parseInt(s, base)` on text without leading blanks, sign or `0x`; None is NaN.
  function ParseInt(s: string, base: nat): Option<nat> {
    var p := DigitPrefix(s, base);
    if p == "" then None else Some(Value(p, base))
  }

  // How a parsed number is printed again.
  function PrintInt(n: Option<nat>, base: nat): string
    requires 2 <= base <= 16
  {
    match n case Some(v) => Numeral(v, base) case None => "NaN"
  }

  lemma {:induction false} DigitPrefixAll(s: string, base: nat)
    requires AllDigits(s, base)
    ensures DigitPrefix(s, base) == s
  {
    if s != "" { DigitPrefixAll(s[1..], base); assert s == [s[0]] + s[1..]; }
  }

  lemma {:induction false} DigitPrefixIsPrefix(s: string, base: nat)
    ensures |DigitPrefix(s, base)| <= |s| && AllDigits(DigitPrefix(s, base), base)
  {
    if s != "" { DigitPrefixIsPrefix(s[1..], base); }
  }

  predicate IsLowerDigit(c: char) {
    '0' <= c <= '9' || 'a' <= c <= 'f'
  }

  lemma DigitChar(d: nat)
    requires d < 16
    ensures DigitValue(DIGITS[d]) == d && IsLowerDigit(DIGITS[d])
  {}

  lemma ValueSnoc(t: string, c: char, base: nat)
    ensures Value(t + [c], base) == Value(t, base) * base + DigitValue(c)
  {
    assert (t + [c])[..|t|] == t;
  }

  lemma NumeralStep(n: nat, base: nat)
    requires 2 <= base <= n
    ensures n / base < n && n / base >= 1 && n % base < base
    ensures n / base * base + n % base == n
  {}

  // A numeral is a non-empty string of lower-case digits without leading zero, and denotes its number.
  lemma {:induction false} NumeralValue(n: nat, base: nat)
    requires 2 <= base <= 16
    ensures Numeral(n, base) != "" && AllDigits(Numeral(n, base), base)
    ensures Value(Numeral(n, base), base) == n
    ensures Numeral(n, base)[0] == '0' ==> n == 0
    ensures forall c | c in Numeral(n, base) :: IsLowerDigit(c)
  {
    if n < base {
      DigitChar(n);
      ValueSnoc("", DIGITS[n], base);
      assert Value("", base) * base == 0;
      assert "" + [DIGITS[n]] == Numeral(n, base);
    } else {
      var q, r := n / base, n % base;
      NumeralStep(n, base);
      NumeralValue(q, base);
      DigitChar(r);
      ValueSnoc(Numeral(q, base), DIGITS[r], base);
    }
  }

  lemma ParseNumeral(n: nat, base: nat)
    requires 2 <= base <= 16
    ensures ParseInt(Numeral(n, base), base) == Some(n)
  {
    NumeralValue(n, base);
    DigitPrefixAll(Numeral(n, base), base);
  }

  // At most four hexadecimal digits: a 16-bit number, and conversely.
  lemma HexWidth(n: nat)
    ensures n < 0x10000 <==> |Numeral(n, 16)| <= 4
  {
    if n >= 16 {
      if n / 16 >= 16 {
        assert Numeral(n, 16) == Numeral(n / 16 / 16, 16) + [DIGITS[n / 16 % 16]] + [DIGITS[n % 16]];
        var m := n / 16 / 16;
        if m >= 16 && m / 16 >= 16 {
          assert |Numeral(m, 16)| == |Numeral(m / 16 / 16, 16)| + 2;
          NumeralValue(m / 16 / 16, 16);
        }
      }
    }
  }

  lemma {:induction false} HexValueBound(s: string)
    requires |s| <= 4 && AllDigits(s, 16)
    ensures |s| == 0 ==> Value(s, 16) == 0
    ensures |s| == 1 ==> Value(s, 16) < 0x10
    ensures |s| == 2 ==> Value(s, 16) < 0x100
    ensures |s| == 3 ==> Value(s, 16) < 0x1000
    ensures Value(s, 16) < 0x10000
  {
    if s != "" {
      assert AllDigits(s[..|s| - 1], 16);
      HexValueBound(s[..|s| - 1]);
      assert s[|s| - 1] in s;
    }
  }
}
