/** Integer literals and exponents (src/literal/number.rs). The text is given
    as characters; every text these functions accept is ASCII, so character
    and byte positions agree wherever the source slices by bytes. */
module Numbers {
  import opened Wrappers

  const I64Min: int := -0x8000_0000_0000_0000
  const I64Max: int := 0x7fff_ffff_ffff_ffff

  /** `str.replace("_", "")`. */
  function RemoveUnderscores(s: string): (r: string)
    ensures '_' !in r
    ensures '_' !in s ==> r == s
    ensures |r| <= |s|
  {
    if s == [] then []
    else (if s[0] == '_' then [] else [s[0]]) + RemoveUnderscores(s[1..])
  }

  lemma {:induction false} RemoveUnderscoresAppend(a: string, b: string)
    ensures RemoveUnderscores(a + b) == RemoveUnderscores(a) + RemoveUnderscores(b)
  {
    if a != [] {
      assert (a + b)[0] == a[0];
      assert (a + b)[1..] == a[1..] + b;
      RemoveUnderscoresAppend(a[1..], b);
    } else {
      assert a + b == b;
    }
  }

  /** `char::to_digit`: the digit value of `c` in `radix`, if it is a digit there. */
  function Digit(c: char, radix: nat): (d: Option<nat>)
    ensures d.Some? ==> d.value < radix
  {
    var v: int :=
      if '0' <= c <= '9' then c as int - '0' as int
      else if 'a' <= c <= 'z' then c as int - 'a' as int + 10
      else if 'A' <= c <= 'Z' then c as int - 'A' as int + 10
      else radix;
    if 0 <= v < radix then Some(v) else None
  }

  /** The value of a run of digits, most significant first, accumulated as
      `from_str_radix` does: `acc * radix + digit` for each digit. */
  function DigitsValue(s: string, radix: nat): Option<nat>
    decreases |s|
  {
    if s == [] then Some(0)
    else
      var p := DigitsValue(s[..|s| - 1], radix);
      var d := Digit(s[|s| - 1], radix);
      if p.None? || d.None? then None else Some(p.value * radix + d.value)
  }

  /** The fold has a value exactly when every character is a digit of the
      radix. */
  lemma {:induction false} DigitsValueDefined(s: string, radix: nat)
    ensures DigitsValue(s, radix).Some? <==> forall i :: 0 <= i < |s| ==> Digit(s[i], radix).Some?
    decreases |s|
  {
    if s != [] {
      var p := s[..|s| - 1];
      DigitsValueDefined(p, radix);
      assert forall i :: 0 <= i < |p| ==> p[i] == s[i];
    }
  }

  function Pow(b: nat, k: nat): nat {
    if k == 0 then 1 else b * Pow(b, k - 1)
  }

  /** A run of k digits stays below radix^k. */
  lemma {:induction false} DigitsValueBound(s: string, radix: nat)
    requires DigitsValue(s, radix).Some?
    ensures DigitsValue(s, radix).value < Pow(radix, |s|)
  {
    if s != [] {
      var init := s[..|s| - 1];
      DigitsValueBound(init, radix);
      var p := DigitsValue(init, radix).value;
      var d := Digit(s[|s| - 1], radix).value;
      assert DigitsValue(s, radix).value == p * radix + d;
      StepBound(p, d, radix, Pow(radix, |init|));
      assert Pow(radix, |s|) == radix * Pow(radix, |init|);
    }
  }

  /** One more digit: below radix^k before means below radix^(k+1) after. */
  lemma StepBound(p: nat, d: nat, radix: nat, bound: nat)
    requires p < bound && d < radix
    ensures p * radix + d < radix * bound
  {
    MulMono(p + 1, bound, radix);
  }

  lemma MulMono(a: nat, b: nat, c: nat)
    requires a <= b
    ensures a * c <= b * c
  {
  }

  /** `i64::from_str_radix`: an optional `+` or `-`, then at least one digit of
      the radix, and the value must fit in an i64; anything else fails. */
  function FromStrRadix(s: string, radix: nat): (r: Option<int>)
    ensures r.Some? ==> I64Min <= r.value <= I64Max
    ensures r.Some? ==> s != [] && s != "+" && s != "-"
  {
    if s == [] || s == "+" || s == "-" then None
    else
      var digits := if s[0] == '+' || s[0] == '-' then s[1..] else s;
      var v := DigitsValue(digits, radix);
      if v.None? then None
      else
        var n: int := if s[0] == '-' then -(v.value as int) else v.value;
        if I64Min <= n <= I64Max then Some(n) else None
  }

  /** Digit runs short enough never overflow: radix^k - 1 fits in an i64. */
  lemma ShortDigitsFit(s: string, radix: nat)
    requires s != [] && s[0] != '+' && s[0] != '-'
    requires DigitsValue(s, radix).Some? && Pow(radix, |s|) <= I64Max + 1
    ensures FromStrRadix(s, radix) == Some(DigitsValue(s, radix).value)
  {
    DigitsValueBound(s, radix);
  }

  /** The radix and digit text `helper_parse_int` chooses for cleaned text:
      `0x`/`0X`, `0b`/`0B` and `0o`/`0O` select 16, 2 and 8 for the rest when
      the text is longer than two characters; otherwise the whole text is
      decimal. */
  function SplitRadix(t: string): (r: (nat, string))
    ensures r.0 in {2, 8, 10, 16}
    ensures r.0 == 10 ==> r.1 == t
    ensures r.0 != 10 ==> |t| > 2 && t[0] == '0' && r.1 == t[2..]
    ensures r.0 == 10 && |t| > 2 ==> t[..2] !in {"0x", "0X", "0b", "0B", "0o", "0O"}
  {
    if |t| > 2 then
      if t[..2] == "0x" || t[..2] == "0X" then (16, t[2..])
      else if t[..2] == "0b" || t[..2] == "0B" then (2, t[2..])
      else if t[..2] == "0o" || t[..2] == "0O" then (8, t[2..])
      else (10, t)
    else (10, t)
  }

  /** `helper_parse_int` before its `unwrap`: `None` where the source panics. */
  function ParseIntText(s: string): (r: Option<int>)
    ensures r.Some? ==> I64Min <= r.value <= I64Max
  {
    var t := RemoveUnderscores(s);
    var (radix, digits) := SplitRadix(t);
    FromStrRadix(digits, radix)
  }

  /** The text `helper_parse_int` accepts without panicking. */
  predicate IntParses(s: string) {
    ParseIntText(s).Some?
  }

  /** `helper_parse_int`. */
  function HelperParseInt(s: string): (n: int)
    requires IntParses(s)
    ensures I64Min <= n <= I64Max
  {
    ParseIntText(s).value
  }

  /** Underscores are ignored wherever they are. */
  lemma UnderscoresIgnored(s: string)
    ensures ParseIntText(s) == ParseIntText(RemoveUnderscores(s))
  {
  }

  /** The base a radix letter selects. */
  function PrefixRadix(p: char): nat {
    if p in "xX" then 16 else if p in "bB" then 2 else 8
  }

  /** A radix prefix selects its base for the rest of the (cleaned) text. */
  lemma {:induction false} PrefixSelectsRadix(p: char, rest: string)
    requires p in "xXbBoO"
    requires RemoveUnderscores(rest) != []
    ensures ParseIntText(['0', p] + rest) == FromStrRadix(RemoveUnderscores(rest), PrefixRadix(p))
  {
    RemoveUnderscoresAppend(['0', p], rest);
    assert ['0', p][1..] == [p] && [p][1..] == [];
    assert RemoveUnderscores(['0', p]) == ['0', p];
    SplitPrefixed(p, RemoveUnderscores(rest));
  }

  lemma SplitPrefixed(p: char, digits: string)
    requires p in "xXbBoO" && digits != []
    ensures SplitRadix(['0', p] + digits) == (PrefixRadix(p), digits)
  {
    var t := ['0', p] + digits;
    assert t[..2] == ['0', p] && t[2..] == digits;
  }

  /** Short text, and text without a radix prefix, is decimal. */
  lemma DecimalOtherwise(s: string)
    requires var t := RemoveUnderscores(s);
             |t| <= 2 || t[..2] !in {"0x", "0X", "0b", "0B", "0o", "0O"}
    ensures ParseIntText(s) == FromStrRadix(RemoveUnderscores(s), 10)
  {
    var t := RemoveUnderscores(s);
    assert SplitRadix(t) == (10, t);
  }

  /** Removing underscores from a one-character text. */
  lemma RemoveUnderscoresChar(c: char)
    ensures RemoveUnderscores([c]) == if c == '_' then [] else [c]
  {
    assert [c][1..] == [];
  }

  lemma Clean1010(t: string)
    requires t == "10_10"
    ensures RemoveUnderscores(t) == "1010"
  {
    var one, zero, u := '1', '0', '_';
    var d := [one] + [zero];
    assert t == d + ([u] + d);
    RemoveUnderscoresAppend(d, [u] + d);
    RemoveUnderscoresAppend([u], d);
    RemoveUnderscoresAppend([one], [zero]);
    RemoveUnderscoresChar(one);
    RemoveUnderscoresChar(zero);
    RemoveUnderscoresChar(u);
  }

  /** The digits `1010` in a radix that has them: radix^3 + radix. */
  lemma Digits1010(radix: nat)
    requires 2 <= radix <= 36
    ensures DigitsValue("1010", radix) == Some((radix * radix + 1) * radix)
  {
    assert "1010"[..3] == "101" && "101"[..2] == "10" && "10"[..1] == "1" && "1"[..0] == [];
    assert DigitsValue("1", radix) == Some(1);
    assert DigitsValue("10", radix) == Some(radix);
    assert DigitsValue("101", radix) == Some(radix * radix + 1);
  }

  /** `0?10_10` with a radix prefix is 1010 read in that radix. */
  lemma PrefixedExample(p: char, t: string)
    requires p in "xXbBoO" && t == "10_10"
    ensures var radix := PrefixRadix(p);
            ParseIntText(['0', p] + t) == Some((radix * radix + 1) * radix)
  {
    Clean1010(t);
    PrefixSelectsRadix(p, t);
    Digits1010(PrefixRadix(p));
  }

  /** The literal test `0b10_10`. */
  lemma BinaryLiteralExample(t: string)
    requires t == "10_10"
    ensures ParseIntText("0b" + t) == Some(10)
  {
    PrefixedExample('b', t);
  }

  /** The literal test `0o10_10`. */
  lemma OctalLiteralExample(t: string)
    requires t == "10_10"
    ensures ParseIntText("0o" + t) == Some(520)
  {
    PrefixedExample('o', t);
  }

  /** The literal test `0x10_10`. */
  lemma HexLiteralExample(t: string)
    requires t == "10_10"
    ensures ParseIntText("0x" + t) == Some(4112)
  {
    PrefixedExample('x', t);
  }

  /** The literal test `10_10`. */
  lemma DecimalLiteralExample()
    ensures ParseIntText("10_10") == Some(1010)
  {
    Clean1010("10_10");
    assert "1010"[..2] == "10";
    DecimalOtherwise("10_10");
    Digits1010(10);
  }

  predicate IsAscii(s: string) {
    forall k :: 0 <= k < |s| ==> s[k] < 128 as char
  }

  /** What `parse_exponent_part` demands of its text: the cut it makes falls
      after ASCII characters, the rest parses, and a negated value fits. */
  predicate ExponentParses(s: string) {
    if '-' in s then
      |s| >= 2 && IsAscii(s[..2]) && IntParses(s[2..]) && HelperParseInt(s[2..]) != I64Min
    else if '+' in s then
      |s| >= 2 && IsAscii(s[..2]) && IntParses(s[2..])
    else
      |s| >= 1 && IsAscii(s[..1]) && IntParses(s[1..])
  }

  /** `parse_exponent_part`: a `-` anywhere negates the integer after the
      first two characters; otherwise a `+` anywhere takes the integer after
      the first two; otherwise the integer after the first character. */
  function ParseExponentPart(s: string): (n: int)
    requires ExponentParses(s)
    ensures I64Min < n <= I64Max || ('-' !in s && n == I64Min)
  {
    if '-' in s then -HelperParseInt(s[2..])
    else if '+' in s then HelperParseInt(s[2..])
    else HelperParseInt(s[1..])
  }

  /** Text without a `-` never parses to a negative value. */
  lemma {:induction false} UnsignedNonNegative(t: string)
    requires '-' !in t && IntParses(t)
    ensures HelperParseInt(t) >= 0
  {
    var c := RemoveUnderscores(t);
    RemoveUnderscoresSubset(t, '-');
    var digits := SplitRadix(c).1;
    assert digits == c || digits == c[2..];
    if digits != [] {
      assert digits[0] in c by {
        if digits != c { assert digits[0] == c[2]; }
      }
    }
  }

  /** For an unsigned text `t`, `e-t` is the negation of `t`'s value. */
  lemma {:induction false} NegativeExponent(t: string)
    requires '-' !in t && IntParses(t)
    ensures ExponentParses("e-" + t) && ParseExponentPart("e-" + t) == -HelperParseInt(t)
  {
    var s := "e-" + t;
    assert s[1] == '-' && s[2..] == t && s[..2] == "e-";
    UnsignedNonNegative(t);
  }

  /** For a text `t` without signs, `e+t` is `t`'s value. */
  lemma {:induction false} PositiveExponent(t: string)
    requires '-' !in t && IntParses(t)
    ensures ExponentParses("e+" + t) && ParseExponentPart("e+" + t) == HelperParseInt(t)
  {
    var s := "e+" + t;
    assert s[1] == '+' && s[2..] == t && s[..2] == "e+";
    assert '-' !in s by {
      forall k | 0 <= k < |s| ensures s[k] != '-' {
        if k >= 2 { assert s[k] == t[k - 2]; }
      }
    }
  }

  /** For a text `t` without signs, `et` is `t`'s value. */
  lemma {:induction false} UnsignedExponent(t: string)
    requires '-' !in t && '+' !in t && IntParses(t)
    ensures ExponentParses("e" + t) && ParseExponentPart("e" + t) == HelperParseInt(t)
  {
    var s := "e" + t;
    assert s[1..] == t && s[..1] == "e";
    assert '-' !in s && '+' !in s by {
      forall k | 0 <= k < |s| ensures s[k] != '-' && s[k] != '+' {
        if k >= 1 { assert s[k] == t[k - 1]; }
      }
    }
  }

  /** Removing underscores introduces no other character. */
  lemma {:induction false} RemoveUnderscoresSubset(s: string, c: char)
    requires c !in s
    ensures c !in RemoveUnderscores(s)
  {
    if s != [] {
      RemoveUnderscoresSubset(s[1..], c);
    }
  }

  /** The exponent test `e-0b10_10` is -10. */
  lemma PrefixedExponentExample(t: string)
    requires t == "10_10"
    ensures ExponentParses("e-0b" + t) && ParseExponentPart("e-0b" + t) == -10
  {
    BinaryLiteralExample(t);
    assert "e-0b" + t == "e-" + ("0b" + t);
    NegativeExponent("0b" + t);
  }

  /** The exponent test `e-10` is -10. */
  lemma DecimalExponentExample()
    ensures ExponentParses("e-10") && ParseExponentPart("e-10") == -10
  {
    assert ParseIntText("10") == Some(10) by {
      assert "10"[1..] == "0" && "0"[1..] == [] && "10"[..1] == "1" && "1"[..0] == [];
      assert RemoveUnderscores("10") == "10";
      assert DigitsValue("1", 10) == Some(1);
    }
    NegativeExponent("10");
    assert "e-" + "10" == "e-10";
  }

  /** The four integer literal kinds, each holding its parsed value. */
  datatype IntLit = BinInt(value: int) | OctInt(value: int) | HexInt(value: int) | DecInt(value: int)

  /** `Int::value`: the stored value, whichever radix variant holds it. */
  function IntValue(i: IntLit): (v: int)
    ensures v == i.value
  {
    match i
    case BinInt(v) => v
    case OctInt(v) => v
    case HexInt(v) => v
    case DecInt(v) => v
  }

  /** Float literals are kept opaque; their value is floating point. */
  datatype FloatLit = FloatLit(text: string)

  datatype SapNumber = Float(floatLit: FloatLit) | Int(intLit: IntLit)

  /** `SapNumber` equality, without the float-float case: an integer never
      equals a float, and two integers are equal when their values are,
      whatever their radix. */
  function NumberEq(a: SapNumber, b: SapNumber): (r: bool)
    requires !(a.Float? && b.Float?)
    ensures r <==> a.Int? && b.Int? && IntValue(a.intLit) == IntValue(b.intLit)
  {
    match (a, b)
    case (Int(x), Int(y)) => IntValue(x) == IntValue(y)
    case _ => false
  }

  /** Integer equality is an equivalence that ignores the radix. */
  lemma NumberEqIsEquivalence(a: SapNumber, b: SapNumber, c: SapNumber)
    requires a.Int? && b.Int? && c.Int?
    ensures NumberEq(a, a)
    ensures NumberEq(a, b) == NumberEq(b, a)
    ensures NumberEq(a, b) && NumberEq(b, c) ==> NumberEq(a, c)
    ensures NumberEq(Int(HexInt(16)), Int(DecInt(16)))
  {
  }
}
