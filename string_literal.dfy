/** Escape handling and string values (src/literal/string.rs). */
module Strings {
  import opened Wrappers
  import opened Numbers

  /** `str::replace`: every occurrence of `pat`, found left to right without
      overlapping, becomes `rep`. */
  function Replace(s: string, pat: string, rep: string): (r: string)
    requires |pat| > 0
    ensures pat[0] !in s ==> r == s
    decreases |s|
  {
    if |s| < |pat| then s
    else if s[..|pat|] == pat then rep + Replace(s[|pat|..], pat, rep)
    else [s[0]] + Replace(s[1..], pat, rep)
  }

  /** The C escapes in the order `handle_c_escape` replaces them. An escaped
      backslash becomes the placeholder `\r` (backslash, `r`), which the
      last step of `handle_escape` turns back into one backslash. */
  const CEscapes: seq<(string, string)> := [
    ("\\r", "\r"),
    ("\\\\", "\\r"),
    ("\\a", [7 as char]),
    ("\\b", [8 as char]),
    ("\\e", [0x1b as char]),
    ("\\f", [0x0c as char]),
    ("\\n", "\n"),
    ("\\t", "\t"),
    ("\\v", [0x0b as char]),
    ("\\?", "?"),
    ("\\\"", "\"")
  ]

  /** Every pattern of a replacement table is a backslash and one character. */
  predicate EscapeTable(table: seq<(string, string)>) {
    forall i :: 0 <= i < |table| ==> |table[i].0| == 2 && table[i].0[0] == '\\'
  }

  /** The replacements of `table`, applied one after the other. */
  function ReplaceChain(s: string, table: seq<(string, string)>): (r: string)
    requires EscapeTable(table)
    ensures '\\' !in s ==> r == s
    decreases |table|
  {
    if table == [] then s
    else ReplaceChain(Replace(s, table[0].0, table[0].1), table[1..])
  }

  /** `handle_c_escape`: the eleven replacements in their order. */
  function HandleCEscape(s: string): (r: string)
    ensures '\\' !in s ==> r == s
  {
    ReplaceChain(s, CEscapes)
  }

  /** The four kinds of numeric escape, in the order `handle_special_escape`
      tries them: `\U` and eight hex digits, `\u` and four, `\x` and two, and
      a backslash followed by one to three octal digits. */
  datatype NumericEscape = Hex8 | Hex4 | Hex2 | Oct

  function Radix(k: NumericEscape): nat {
    if k.Oct? then 8 else 16
  }

  predicate AllDigits(s: string, radix: nat) {
    forall i :: 0 <= i < |s| ==> Digit(s[i], radix).Some?
  }

  /** A run of digits always has a value. */
  lemma {:induction false} AllDigitsHaveValue(s: string, radix: nat)
    requires AllDigits(s, radix)
    ensures DigitsValue(s, radix).Some?
    decreases |s|
  {
    if s != [] {
      AllDigitsHaveValue(s[..|s| - 1], radix);
    }
  }

  /** The number of leading octal digits, at most three (the greedy `{1,3}`). */
  function OctRun(s: string): (n: nat)
    ensures n <= 3 && n <= |s| && AllDigits(s[..n], 8)
    ensures n < 3 && n < |s| ==> Digit(s[n], 8).None?
  {
    if |s| >= 1 && Digit(s[0], 8).Some? then
      if |s| >= 2 && Digit(s[1], 8).Some? then
        if |s| >= 3 && Digit(s[2], 8).Some? then 3 else 2
      else 1
    else 0
  }

  /** The length of the escape of kind `k` that starts `s`, or 0 if none does. */
  function MatchLen(k: NumericEscape, s: string): (n: nat)
    ensures n == 0 || (2 <= n <= |s| && s[0] == '\\')
    ensures n > 0 ==> AllDigits(EscapeDigits(k, s, n), Radix(k))
  {
    if |s| == 0 || s[0] != '\\' then 0
    else match k
      case Oct => var d := OctRun(s[1..]); if d == 0 then 0 else 1 + d
      case _ =>
        var (w, marker) := match k
          case Hex8 => (8, 'U')
          case Hex4 => (4, 'u')
          case _ => (2, 'x');
        if |s| >= 2 + w && s[1] == marker && AllDigits(s[2..2 + w], 16) then 2 + w else 0
  }

  /** The digits of an escape of length `n` at the start of `s`. */
  function EscapeDigits(k: NumericEscape, s: string, n: nat): string
    requires 2 <= n <= |s|
  {
    if k.Oct? then s[1..n] else s[2..n]
  }

  /** The code point an escape at the start of `s` denotes. */
  function Code(k: NumericEscape, s: string): (c: nat)
    requires MatchLen(k, s) > 0
    ensures Pow(Radix(k), |EscapeDigits(k, s, MatchLen(k, s))|) > c
  {
    var d := EscapeDigits(k, s, MatchLen(k, s));
    AllDigitsHaveValue(d, Radix(k));
    DigitsValueBound(d, Radix(k));
    DigitsValue(d, Radix(k)).value
  }

  /** `char::from_u32` succeeds: a Unicode scalar value. */
  predicate IsScalar(n: int) {
    0 <= n < 0xD800 || 0xE000 <= n <= 0x10FFFF
  }

  /** `Regex::is_match`: an escape of kind `k` starts somewhere in `s`. */
  predicate HasMatch(k: NumericEscape, s: string): (r: bool)
    ensures r ==> '\\' in s
    decreases |s|
  {
    s != [] && (MatchLen(k, s) > 0 || HasMatch(k, s[1..]))
  }

  /** Every escape `ReplaceAll` meets denotes a scalar value, so no
      `unwrap` in the replacement closure panics. */
  predicate CodesValid(k: NumericEscape, s: string)
    decreases |s|
  {
    s == [] ||
    var n := MatchLen(k, s);
    if n > 0 then IsScalar(Code(k, s)) && CodesValid(k, s[n..])
    else CodesValid(k, s[1..])
  }

  /** `Regex::replace_all` with the decoding closure: the leftmost escape is
      replaced by its character, and the search resumes after it. */
  function ReplaceAll(k: NumericEscape, s: string): (r: string)
    requires CodesValid(k, s)
    ensures !HasMatch(k, s) ==> r == s
    decreases |s|
  {
    if s == [] then []
    else
      var n := MatchLen(k, s);
      if n > 0 then [Code(k, s) as char] + ReplaceAll(k, s[n..])
      else [s[0]] + ReplaceAll(k, s[1..])
  }

  /** Two hex digits and at most three octal digits are always scalars. */
  lemma {:induction false} SmallCodesValid(k: NumericEscape, s: string)
    requires k == Hex2 || k == Oct
    ensures CodesValid(k, s)
    decreases |s|
  {
    if s != [] {
      var n := MatchLen(k, s);
      if n > 0 {
        var c := Code(k, s);
        assert Pow(Radix(k), |EscapeDigits(k, s, n)|) <= 512 by {
          if k == Hex2 { assert |EscapeDigits(k, s, n)| == 2; }
          else {
            var d := |EscapeDigits(k, s, n)|;
            assert d <= 3;
            assert Pow(8, 0) == 1 && Pow(8, 1) == 8 && Pow(8, 2) == 64 && Pow(8, 3) == 512;
          }
        }
        SmallCodesValid(k, s[n..]);
      } else {
        SmallCodesValid(k, s[1..]);
      }
    }
  }

  /** What `handle_special_escape` needs to avoid a panic: the kind it
      chooses decodes to scalar values (`\x` and octal always do). */
  predicate SpecialEscapeDefined(s: string) {
    if HasMatch(Hex8, s) then CodesValid(Hex8, s)
    else if HasMatch(Hex4, s) then CodesValid(Hex4, s)
    else true
  }

  /** `handle_special_escape`: only the first kind that occurs at all is
      decoded; escapes of the later kinds are left as they are. */
  function HandleSpecialEscape(s: string): (r: string)
    requires SpecialEscapeDefined(s)
    ensures !HasMatch(Hex8, s) && !HasMatch(Hex4, s) && !HasMatch(Hex2, s) && !HasMatch(Oct, s) ==> r == s
  {
    if HasMatch(Hex8, s) then ReplaceAll(Hex8, s)
    else if HasMatch(Hex4, s) then ReplaceAll(Hex4, s)
    else if HasMatch(Hex2, s) then SmallCodesValid(Hex2, s); ReplaceAll(Hex2, s)
    else if HasMatch(Oct, s) then SmallCodesValid(Oct, s); ReplaceAll(Oct, s)
    else s
  }

  /** Text without a backslash holds no numeric escape. */
  lemma {:induction false} NoBackslashNoMatch(k: NumericEscape, s: string)
    requires '\\' !in s
    ensures !HasMatch(k, s)
    decreases |s|
  {
    if s != [] {
      NoBackslashNoMatch(k, s[1..]);
    }
  }

  /** What `handle_escape` needs to avoid a panic. */
  predicate EscapeDefined(s: string) {
    SpecialEscapeDefined(HandleCEscape(s))
  }

  /** `handle_escape` as written: C escapes, then numeric escapes, then the
      placeholder `\r` back to a backslash. */
  function HandleEscape(s: string): (r: string)
    requires EscapeDefined(s)
    ensures '\\' !in s ==> r == s
  {
    var r := Replace(HandleSpecialEscape(HandleCEscape(s)), "\\r", "\\");
    if '\\' !in s then NoBackslashNoMatch(Hex8, s); NoBackslashNoMatch(Hex4, s);
      NoBackslashNoMatch(Hex2, s); NoBackslashNoMatch(Oct, s); r
    else r
  }

  /** Once the C escapes leave no backslash, the numeric escapes and the
      placeholder step change nothing. */
  lemma PlainAfterCEscape(s: string)
    requires '\\' !in HandleCEscape(s)
    ensures EscapeDefined(s) && HandleEscape(s) == HandleCEscape(s)
  {
    var c := HandleCEscape(s);
    NoBackslashNoMatch(Hex8, c);
    NoBackslashNoMatch(Hex4, c);
    NoBackslashNoMatch(Hex2, c);
    NoBackslashNoMatch(Oct, c);
  }

  /** A replacement on text exactly as long as its pattern. */
  lemma ReplaceWhole(s: string, pat: string, rep: string)
    requires |s| == |pat| > 0
    ensures Replace(s, pat, rep) == if s == pat then rep else s
  {
    if s == pat {
      assert s[|pat|..] == [];
    } else {
      assert s[..|pat|] == s;
      assert |s[1..]| < |pat|;
    }
  }

  /** Table entries whose pattern differs from a two-character text pass it by. */
  lemma {:induction false} ChainSkip(s: string, table: seq<(string, string)>, i: nat)
    requires EscapeTable(table) && |s| == 2 && i <= |table|
    requires forall j :: 0 <= j < i ==> table[j].0 != s
    ensures ReplaceChain(s, table) == ReplaceChain(s, table[i..])
    decreases i
  {
    if i > 0 {
      ReplaceWhole(s, table[0].0, table[0].1);
      assert table[1..][i - 1..] == table[i..];
      ChainSkip(s, table[1..], i - 1);
    }
  }

  /** Each single-character C escape other than the escaped backslash
      decodes to its control or punctuation character. */
  lemma SimpleEscape(i: nat)
    requires i < |CEscapes| && i != 1
    ensures EscapeDefined(CEscapes[i].0) && HandleEscape(CEscapes[i].0) == CEscapes[i].1
  {
    var s := CEscapes[i].0;
    PatternsDistinct();
    ChainSkip(s, CEscapes, i);
    ReplaceWhole(s, CEscapes[i].0, CEscapes[i].1);
    assert CEscapes[i..][1..] == CEscapes[i + 1..];
    assert '\\' !in CEscapes[i].1;
    PlainAfterCEscape(s);
  }

  /** No two entries of the C escape table share a pattern. */
  lemma PatternsDistinct()
    ensures forall j, k :: 0 <= j < k < |CEscapes| ==> CEscapes[j].0 != CEscapes[k].0
  {
    assert forall j :: 0 <= j < |CEscapes| ==> CEscapes[j].0 == ['\\', CEscapeChars[j]];
  }

  /** The escaped backslash: `\\` decodes to one backslash. */
  lemma EscapedBackslash()
    ensures EscapeDefined("\\\\") && HandleEscape("\\\\") == "\\"
  {
    EscapedBackslashBefore([]);
    assert "\\\\" + [] == "\\\\";
  }


  /** The characters that follow a backslash in some C escape. */
  const CEscapeChars: string := "r\\abefntv?\""

  /** No C escape starts anywhere in `s`. */
  predicate NoCEscape(s: string) {
    forall i :: 0 <= i < |s| - 1 && s[i] == '\\' ==> s[i + 1] !in CEscapeChars
  }

  /** A two-character pattern that never occurs leaves the text as it is. */
  lemma {:induction false} ReplaceAbsent(s: string, pat: string, rep: string)
    requires |pat| == 2
    requires forall i :: 0 <= i < |s| - 1 ==> !(s[i] == pat[0] && s[i + 1] == pat[1])
    ensures Replace(s, pat, rep) == s
    decreases |s|
  {
    if |s| >= |pat| {
      assert s[..2] != pat by { assert !(s[0] == pat[0] && s[1] == pat[1]); }
      ReplaceAbsent(s[1..], pat, rep);
    }
  }

  /** Text without C escapes passes `handle_c_escape` unchanged. */
  lemma NoCEscapeUnchanged(s: string)
    requires NoCEscape(s)
    ensures HandleCEscape(s) == s
  {
    ChainAbsent(s, CEscapes);
  }

  /** No backslash in `s` is followed by `c`. */
  predicate Absent(s: string, c: char) {
    forall i :: 0 <= i < |s| - 1 && s[i] == '\\' ==> s[i + 1] != c
  }

  /** Replacements whose patterns never occur leave the text as it is. */
  lemma {:induction false} ChainAbsent(s: string, table: seq<(string, string)>)
    requires EscapeTable(table)
    requires forall j :: 0 <= j < |table| ==> Absent(s, table[j].0[1])
    ensures ReplaceChain(s, table) == s
    decreases |table|
  {
    if table != [] {
      ReplaceAbsent(s, table[0].0, table[0].1);
      ChainAbsent(s, table[1..]);
    }
  }

  /** The character after the backslash of a numeric escape is a marker
      or an octal digit, never the second character of a C escape. */
  lemma MarkerNotCEscape(k: NumericEscape, s: string)
    requires MatchLen(k, s) > 0
    ensures s[1] !in CEscapeChars
  {
    if k == Oct {
      var n := OctRun(s[1..]);
      assert s[1..][..n][0] == s[1];
      assert Digit(s[1], 8).Some?;
    }
  }

  /** The kind-selection conditions under which `handle_special_escape`
      decodes the escape of kind `k` that opens `s`, followed by
      backslash-free text. */
  predicate SingleEscapeOf(k: NumericEscape, s: string) {
    0 < MatchLen(k, s) && '\\' !in s[1..]
    && (k != Hex8 ==> MatchLen(Hex8, s) == 0)
    && (k == Hex2 || k == Oct ==> MatchLen(Hex4, s) == 0)
    && (k == Oct ==> MatchLen(Hex2, s) == 0)
    && IsScalar(Code(k, s))
  }

  /** `handle_special_escape` decodes kind `k` in `s`: it occurs, no earlier
      kind does, and every code it meets is a scalar value. */
  predicate Picks(k: NumericEscape, s: string) {
    HasMatch(k, s) && CodesValid(k, s)
    && (k != Hex8 ==> !HasMatch(Hex8, s))
    && (k == Hex2 || k == Oct ==> !HasMatch(Hex4, s))
    && (k == Oct ==> !HasMatch(Hex2, s))
  }

  /** One numeric escape followed by backslash-free text: the C escapes leave
      it alone and the numeric step decodes that one escape. */
  lemma SingleNumericSpecial(k: NumericEscape, s: string)
    requires SingleEscapeOf(k, s)
    ensures HandleCEscape(s) == s && EscapeDefined(s)
    ensures HandleSpecialEscape(s) == [Code(k, s) as char] + s[MatchLen(k, s)..]
    ensures Picks(k, s) && NoCEscape(s) && CodesValid(k, s[MatchLen(k, s)..])
    ensures '\\' !in s[MatchLen(k, s)..] && !HasMatch(k, s[MatchLen(k, s)..])
  {
    var n := MatchLen(k, s);
    var tail := s[n..];
    assert '\\' !in tail by {
      forall i | 0 <= i < |tail| ensures tail[i] != '\\' {
        assert tail[i] == s[1..][n - 1 + i];
      }
    }
    MarkerNotCEscape(k, s);
    NoCEscapeUnchanged(s);
    NoBackslashNoMatch(Hex8, s[1..]);
    NoBackslashNoMatch(Hex4, s[1..]);
    NoBackslashNoMatch(Hex2, s[1..]);
    NoBackslashNoMatch(Oct, s[1..]);
    NoBackslashNoMatch(k, tail);
    SmallCodesValid(Hex2, tail);
    SmallCodesValid(Oct, tail);
    assert CodesValid(k, tail) by {
      if k == Hex8 || k == Hex4 { NoBackslashCodesValid(k, tail); }
    }
    assert CodesValid(k, s);
    assert ReplaceAll(k, s) == [Code(k, s) as char] + tail;
  }

  /** The final step of `handle_escape` on one character before
      backslash-free text: only a backslash followed by `r` is merged. */
  lemma {:induction false} RestoreOne(c: char, t: string)
    requires '\\' !in t
    ensures Replace([c] + t, "\\r", "\\") ==
      if c == '\\' && t != [] && t[0] == 'r' then "\\" + t[1..] else [c] + t
  {
    var x := [c] + t;
    assert x[1..] == t;
    if c == '\\' && t != [] && t[0] == 'r' {
      assert x[..2] == "\\r" && x[2..] == t[1..];
      assert '\\' !in t[1..] by {
        forall i | 0 <= i < |t| - 1 ensures t[1..][i] != '\\' { assert t[1..][i] == t[i + 1]; }
      }
    } else if c == '\\' && |x| >= 2 {
      assert x[..2] != "\\r" by { assert x[1] == t[0]; }
    }
  }

  /** A text that is exactly one numeric escape of the kind
      `handle_special_escape` picks decodes to the one character it denotes,
      unless that character is a backslash followed by `r`. */
  lemma SingleNumericEscape(k: NumericEscape, s: string)
    requires SingleEscapeOf(k, s)
    requires Code(k, s) != '\\' as int || MatchLen(k, s) == |s| || s[MatchLen(k, s)] != 'r'
    ensures EscapeDefined(s) && HandleEscape(s) == [Code(k, s) as char] + s[MatchLen(k, s)..]
  {
    SingleNumericSpecial(k, s);
    var tail := s[MatchLen(k, s)..];
    RestoreOne(Code(k, s) as char, tail);
  }

  /** As written, a numeric escape that decodes to a backslash and is
      followed by `r` loses the `r`: the decoded backslash and the `r` look
      like the placeholder, and the last step merges them into one backslash. */
  lemma DecodedBackslashMerged(k: NumericEscape, s: string)
    requires SingleEscapeOf(k, s)
    requires Code(k, s) == '\\' as int && MatchLen(k, s) < |s| && s[MatchLen(k, s)] == 'r'
    ensures EscapeDefined(s) && HandleEscape(s) == "\\" + s[MatchLen(k, s) + 1..]
  {
    SingleNumericSpecial(k, s);
    var tail := s[MatchLen(k, s)..];
    RestoreOne(Code(k, s) as char, tail);
    assert tail[1..] == s[MatchLen(k, s) + 1..];
  }

  /** `\x5cr` (a hex escape for the backslash, then `r`) decodes to a lone
      backslash, not to a backslash then `r`. */
  lemma DecodedBackslashBeforeR(s: string)
    requires s == "\\x5cr"
    ensures EscapeDefined(s) && HandleEscape(s) == "\\"
    ensures HandleEscape(s) != "\\r"
  {
    HexDigits5c(s[2..4]);
    assert MatchLen(Hex2, s) == 4 && s[4] == 'r' && s[5..] == [];
    DecodedBackslashMerged(Hex2, s);
  }

  lemma HexDigits5c(d: string)
    requires d == "5c"
    ensures AllDigits(d, 16) && DigitsValue(d, 16) == Some(0x5c)
  {
    assert d[..1] == "5" && d[..1][..0] == [];
    assert DigitsValue(d[..1], 16) == Some(5);
  }

  /** Text without a backslash has no escape to decode. */
  lemma {:induction false} NoBackslashCodesValid(k: NumericEscape, s: string)
    requires '\\' !in s
    ensures CodesValid(k, s)
    decreases |s|
  {
    if s != [] {
      NoBackslashCodesValid(k, s[1..]);
    }
  }

  /** An octal escape takes at most three digits: `\1012` is `A` then `2`. */
  lemma OctalExample(s: string)
    requires s == "\\1012"
    ensures EscapeDefined(s) && HandleEscape(s) == "A2"
  {
    assert s[1..] == "1012" && OctRun("1012") == 3;
    assert MatchLen(Oct, s) == 4 && s[4..] == "2";
    var d := s[1..4];
    assert d == "101" && d[..2] == "10" && d[..1] == "1" && d[..0] == [];
    assert DigitsValue(d[..1], 8) == Some(1);
    assert DigitsValue(d[..2], 8) == Some(8);
    assert DigitsValue(d, 8) == Some(65);
    SingleNumericEscape(Oct, s);
  }

  /** A backslash-free prefix starts no escape. */
  lemma {:induction false} PlainPrefix(k: NumericEscape, p: string, q: string)
    requires '\\' !in p
    ensures HasMatch(k, p + q) == HasMatch(k, q)
    decreases |p|
  {
    if p == [] {
      assert p + q == q;
    } else {
      assert (p + q)[1..] == p[1..] + q;
      PlainPrefix(k, p[1..], q);
    }
  }

  /** Only the first kind present is decoded: in `\x41\101` the hex escape
      becomes `A` and the octal escape is left as written. */
  lemma FirstKindOnly(x: string, y: string)
    requires x == "\\x41" && y == "\\101"
    ensures EscapeDefined(x + y) && HandleEscape(x + y) == "A" + y
  {
    var s := x + y;
    assert s[..4] == x && s[4..] == y && s[1..] == x[1..] + y;
    assert NoCEscape(s) by {
      forall i | 0 <= i < |s| - 1 && s[i] == '\\' ensures s[i + 1] !in CEscapeChars {
        assert i == 0 || i == 4;
      }
    }
    NoCEscapeUnchanged(s);
    forall k: NumericEscape | k == Hex8 || k == Hex4 ensures !HasMatch(k, s) {
      NoBackslashNoMatch(k, y[1..]);
      PlainPrefix(k, x[1..], y);
    }
    HexDigits41(s[2..4]);
    assert MatchLen(Hex2, s) == 4;
    NoBackslashCodesValid(Hex2, y[1..]);
    NoBackslashNoMatch(Hex2, y[1..]);
    assert ReplaceAll(Hex2, y) == y;
    SmallCodesValid(Hex2, s);
    assert HandleSpecialEscape(s) == "A" + y;
    ReplaceAbsent("A" + y, "\\r", "\\");
  }

  lemma HexDigits41(d: string)
    requires d == "41"
    ensures AllDigits(d, 16) && DigitsValue(d, 16) == Some(0x41)
  {
    assert d[..1] == "4" && d[..1][..0] == [];
    assert DigitsValue(d[..1], 16) == Some(4);
  }

  /** The test `\x65` decodes to `e`. */
  lemma HexByteExample(s: string)
    requires s == "\\x65"
    ensures EscapeDefined(s) && HandleEscape(s) == "e"
  {
    assert s[2..4] == "65" && "65"[..1] == "6" && "6"[..0] == [];
    assert AllDigits(s[2..4], 16);
    assert MatchLen(Hex2, s) == 4;
    assert DigitsValue("65", 16) == Some(0x65);
    SingleNumericEscape(Hex2, s);
  }

  /** The test `\ue000` decodes to U+E000. */
  lemma Hex4Example(s: string)
    requires s == "\\ue000"
    ensures EscapeDefined(s) && HandleEscape(s) == [0xE000 as char]
  {
    var d := s[2..6];
    assert d == "e000";
    assert d[..3] == "e00" && d[..2] == "e0" && d[..1] == "e" && d[..0] == [];
    assert d[..3][..2] == d[..2] && d[..2][..1] == d[..1] && d[..1][..0] == [];
    assert AllDigits(d, 16);
    assert MatchLen(Hex4, s) == 6;
    assert DigitsValue(d[..1], 16) == Some(0xE);
    assert DigitsValue(d[..2], 16) == Some(0xE0);
    assert DigitsValue(d[..3], 16) == Some(0xE00);
    assert DigitsValue(d, 16) == Some(0xE000);
    SingleNumericEscape(Hex4, s);
  }

  /** The test `\U0010ffff` decodes to U+10FFFF. */
  lemma Hex8Example(s: string)
    requires s == "\\U0010ffff"
    ensures EscapeDefined(s) && HandleEscape(s) == [0x10FFFF as char]
  {
    var d := s[2..10];
    Hex8Digits(d);
    assert MatchLen(Hex8, s) == 10;
    SingleNumericEscape(Hex8, s);
  }

  lemma Hex8Digits(d: string)
    requires d == "0010ffff"
    ensures AllDigits(d, 16) && DigitsValue(d, 16) == Some(0x10FFFF)
  {
    assert d[..7] == "0010fff" && d[..6] == "0010ff" && d[..5] == "0010f" && d[..4] == "0010";
    assert d[..3] == "001" && d[..2] == "00" && d[..1] == "0" && d[..0] == [];
    forall k | 0 < k <= 8 ensures d[..k][..k - 1] == d[..k - 1] { }
    assert DigitsValue(d[..1], 16) == Some(0);
    assert DigitsValue(d[..2], 16) == Some(0);
    assert DigitsValue(d[..3], 16) == Some(1);
    assert DigitsValue(d[..4], 16) == Some(0x10);
    assert DigitsValue(d[..5], 16) == Some(0x10F);
    assert DigitsValue(d[..6], 16) == Some(0x10FF);
    assert DigitsValue(d[..7], 16) == Some(0x10FFF);
  }


  /** An escaped backslash followed by backslash-free text that does not
      start with `r` becomes the placeholder, and the text is kept. */
  lemma {:induction false} EscapedBackslashPrefix(t: string)
    requires '\\' !in t && (t == [] || t[0] != 'r')
    ensures HandleCEscape("\\\\" + t) == "\\r" + t
  {
    var s := "\\\\" + t;
    forall i | 0 <= i < |s| - 1 ensures !(s[i] == '\\' && s[i + 1] == 'r') {
      if i >= 2 { assert s[i] == t[i - 2]; }
      else if i == 1 { assert s[i + 1] == t[0]; }
    }
    ReplaceAbsent(s, "\\r", "\r");
    assert s[..2] == "\\\\" && s[2..] == t;
    var c := "\\r" + t;
    assert Replace(s, "\\\\", "\\r") == c;
    ChainAbsent(c, CEscapes[2..]);
    assert CEscapes[1..][1..] == CEscapes[2..];
    calc {
      HandleCEscape(s);
      ReplaceChain(Replace(s, "\\r", "\r"), CEscapes[1..]);
      ReplaceChain(Replace(s, "\\\\", "\\r"), CEscapes[2..]);
    }
  }

  /** The placeholder left by an escaped backslash starts no numeric escape,
      whatever backslash-free text follows it. */
  lemma {:induction false} PlaceholderNoMatch(k: NumericEscape, t: string)
    requires '\\' !in t
    ensures !HasMatch(k, "\\r" + t)
  {
    var c := "\\r" + t;
    assert c[1..] == "r" + t && c[1] == 'r';
    assert OctRun(c[1..]) == 0;
    NoBackslashNoMatch(k, c[1..]);
  }

  /** An escaped backslash before backslash-free text decodes to one
      backslash, provided the text does not start with `r`. */
  lemma EscapedBackslashBefore(t: string)
    requires '\\' !in t && (t == [] || t[0] != 'r')
    ensures EscapeDefined("\\\\" + t) && HandleEscape("\\\\" + t) == "\\" + t
  {
    EscapedBackslashPrefix(t);
    var c := "\\r" + t;
    PlaceholderNoMatch(Hex8, t);
    PlaceholderNoMatch(Hex4, t);
    PlaceholderNoMatch(Hex2, t);
    PlaceholderNoMatch(Oct, t);
    assert c[..2] == "\\r" && c[2..] == t;
  }

  /** The test `\\x65`: an escaped backslash keeps the following `x65`
      from being read as a hex escape. */
  lemma EscapedHexExample(s: string)
    requires s == "\\\\x65"
    ensures EscapeDefined(s) && HandleEscape(s) == "\\x65"
  {
    assert s == "\\\\" + "x65";
    EscapedBackslashBefore("x65");
  }

  /** `handle_escape` as written turns an escaped backslash followed by `r`
      into a backslash and a carriage return: the `\r` replacement runs
      before the escaped backslash is seen. */
  lemma EscapedBackslashBeforeR()
    ensures EscapeDefined("\\\\r") && HandleEscape("\\\\r") == "\\\r"
    ensures HandleEscape("\\\\r") != "\\r"
  {
    var s := "\\\\r";
    assert s[..2] == "\\\\" && s[1..] == "\\r" && s[1..][..2] == "\\r" && s[1..][2..] == [];
    var c := "\\\r";
    assert Replace(s, "\\r", "\r") == c;
    assert ReplaceChain(c, CEscapes[1..]) == c by {
      ChainAbsent(c, CEscapes[1..]);
    }
    assert HandleCEscape(s) == c;
    assert c[1..] == "\r" && OctRun("\r") == 0;
    NoBackslashNoMatch(Hex8, c[1..]);
    NoBackslashNoMatch(Hex4, c[1..]);
    NoBackslashNoMatch(Hex2, c[1..]);
    NoBackslashNoMatch(Oct, c[1..]);
    assert c[..2] != "\\r";
  }

  /** The replacement `table` gives for `pat`, if any. */
  function Lookup(table: seq<(string, string)>, pat: string): (r: Option<string>)
    requires EscapeTable(table)
    ensures r.Some? ==> |pat| == 2 && pat[0] == '\\'
    ensures r.Some? <==> exists i :: 0 <= i < |table| && table[i].0 == pat
    decreases |table|
  {
    if table == [] then None
    else if table[0].0 == pat then Some(table[0].1)
    else Lookup(table[1..], pat)
  }

  /** The C escapes decoded in one left-to-right scan, so that a decoded
      escape is never read again as part of another. */
  function CEscapeScan(s: string): (r: string)
    ensures '\\' !in s ==> r == s
    decreases |s|
  {
    if s == [] then []
    else if |s| >= 2 && Lookup(CEscapes, s[..2]).Some? then
      Lookup(CEscapes, s[..2]).value + CEscapeScan(s[2..])
    else [s[0]] + CEscapeScan(s[1..])
  }

  predicate EscapeFixedDefined(s: string) {
    SpecialEscapeDefined(CEscapeScan(s))
  }

  /** A decoded code point as the final restore step reads it: a backslash
      is written as the placeholder, which the restore turns back into one
      backslash whatever follows it. */
  function Protect(c: nat): (r: string)
    requires IsScalar(c)
    ensures Replace(r, "\\r", "\\") == [c as char]
  {
    if c == '\\' as int then
      assert "\\r"[..2] == "\\r" && "\\r"[2..] == [];
      "\\r"
    else [c as char]
  }

  /** `replace_all` with each decoded character protected from the restore. */
  function ReplaceAllFixed(k: NumericEscape, s: string): (r: string)
    requires CodesValid(k, s)
    ensures !HasMatch(k, s) ==> r == s
    decreases |s|
  {
    if s == [] then []
    else
      var n := MatchLen(k, s);
      if n > 0 then Protect(Code(k, s)) + ReplaceAllFixed(k, s[n..])
      else [s[0]] + ReplaceAllFixed(k, s[1..])
  }

  /** `handle_special_escape` with decoded characters protected. */
  function HandleSpecialEscapeFixed(s: string): (r: string)
    requires SpecialEscapeDefined(s)
    ensures !HasMatch(Hex8, s) && !HasMatch(Hex4, s) && !HasMatch(Hex2, s) && !HasMatch(Oct, s) ==> r == s
  {
    if HasMatch(Hex8, s) then ReplaceAllFixed(Hex8, s)
    else if HasMatch(Hex4, s) then ReplaceAllFixed(Hex4, s)
    else if HasMatch(Hex2, s) then SmallCodesValid(Hex2, s); ReplaceAllFixed(Hex2, s)
    else if HasMatch(Oct, s) then SmallCodesValid(Oct, s); ReplaceAllFixed(Oct, s)
    else s
  }

  /** `handle_escape` with the C escapes decoded in one scan and decoded
      backslashes protected from the restore step. */
  function HandleEscapeFixed(s: string): (r: string)
    requires EscapeFixedDefined(s)
    ensures '\\' !in s ==> r == s
  {
    var r := Replace(HandleSpecialEscapeFixed(CEscapeScan(s)), "\\r", "\\");
    if '\\' !in s then NoBackslashNoMatch(Hex8, s); NoBackslashNoMatch(Hex4, s);
      NoBackslashNoMatch(Hex2, s); NoBackslashNoMatch(Oct, s); r
    else r
  }

  /** Text with no C escape passes the one-scan decoder unchanged. */
  lemma {:induction false} NoCEscapeScan(s: string)
    requires NoCEscape(s)
    ensures CEscapeScan(s) == s
    decreases |s|
  {
    if s != [] {
      assert NoCEscape(s[1..]) by {
        forall i | 0 <= i < |s[1..]| - 1 && s[1..][i] == '\\' ensures s[1..][i + 1] !in CEscapeChars {
          assert s[1..][i] == s[i + 1] && s[1..][i + 1] == s[i + 2];
        }
      }
      NoCEscapeScan(s[1..]);
    }
  }

  /** Corrected: one numeric escape followed by backslash-free text decodes
      to its character followed by that text, a backslash before `r` included. */
  lemma DecodedBackslashFixed(k: NumericEscape, s: string)
    requires SingleEscapeOf(k, s)
    ensures EscapeFixedDefined(s) && HandleEscapeFixed(s) == [Code(k, s) as char] + s[MatchLen(k, s)..]
  {
    SingleNumericSpecial(k, s);
    NoCEscapeScan(s);
    var n := MatchLen(k, s);
    var tail := s[n..];
    var c := Code(k, s);
    assert HandleSpecialEscapeFixed(s) == Protect(c) + tail;
    if c == '\\' as int {
      var x := "\\r" + tail;
      assert x[..2] == "\\r" && x[2..] == tail;
    } else {
      RestoreOne(c as char, tail);
    }
  }

  /** Corrected: `\x5cr` decodes to a backslash then `r`. */
  lemma DecodedBackslashBeforeRFixed(s: string)
    requires s == "\\x5cr"
    ensures EscapeFixedDefined(s) && HandleEscapeFixed(s) == "\\r"
  {
    HexDigits5c(s[2..4]);
    assert MatchLen(Hex2, s) == 4 && s[4..] == "r";
    DecodedBackslashFixed(Hex2, s);
  }

  /** With one scan, an escaped backslash before any backslash-free text,
      `r` included, decodes to one backslash followed by that text. */
  lemma EscapedBackslashFixed(t: string)
    requires '\\' !in t
    ensures EscapeFixedDefined("\\\\" + t) && HandleEscapeFixed("\\\\" + t) == "\\" + t
  {
    var s := "\\\\" + t;
    assert s[..2] == "\\\\" && s[2..] == t;
    assert CEscapes[1].0 == "\\\\";
    assert Lookup(CEscapes, "\\\\") == Some("\\r");
    var c := "\\r" + t;
    assert CEscapeScan(s) == c;
    PlaceholderNoMatch(Hex8, t);
    PlaceholderNoMatch(Hex4, t);
    PlaceholderNoMatch(Hex2, t);
    PlaceholderNoMatch(Oct, t);
    assert c[..2] == "\\r" && c[2..] == t;
  }

  /** On a single C escape the scan decodes exactly as the replacement
      chain does, the escaped backslash included. */
  lemma SimpleEscapeFixed(i: nat)
    requires i < |CEscapes|
    ensures EscapeFixedDefined(CEscapes[i].0)
    ensures HandleEscapeFixed(CEscapes[i].0) == if i == 1 then "\\" else CEscapes[i].1
  {
    var s := CEscapes[i].0;
    assert s[..2] == s && s[2..] == [];
    if i == 1 {
      EscapedBackslashFixed([]);
      assert "\\\\" + [] == s;
    } else {
      assert Lookup(CEscapes, s) == Some(CEscapes[i].1) by {
        LookupFirst(CEscapes, i);
      }
      assert CEscapeScan(s) == CEscapes[i].1;
    }
  }

  /** A table with distinct patterns gives each pattern its own replacement. */
  lemma {:induction false} LookupFirst(table: seq<(string, string)>, i: nat)
    requires EscapeTable(table) && i < |table|
    requires forall j :: 0 <= j < i ==> table[j].0 != table[i].0
    ensures Lookup(table, table[i].0) == Some(table[i].1)
    decreases i
  {
    if i > 0 {
      LookupFirst(table[1..], i - 1);
    }
  }

  /** The parts of a quoted string: plain text as written, and escape
      sequences holding their decoded text. */
  datatype StringInner = NormalFragment(value: string) | EscapedFragment(value: string)

  /** The `escaped_string_fragment` conversion: its span, decoded by
      `handle_escape` as written. */
  function EscapedFragmentOf(span: string): (r: StringInner)
    requires EscapeDefined(span)
    ensures r.EscapedFragment?
    ensures '\\' !in span ==> r.value == span
  {
    EscapedFragment(HandleEscape(span))
  }

  /** The same conversion with the corrected decoder. */
  function EscapedFragmentFixedOf(span: string): (r: StringInner)
    requires EscapeFixedDefined(span)
    ensures r.EscapedFragment?
    ensures '\\' !in span ==> r.value == span
  {
    EscapedFragment(HandleEscapeFixed(span))
  }

  /** `NormalString::value`: the fragments' values joined with nothing
      between them. */
  function NormalStringValue(inner: seq<StringInner>): (r: string)
    ensures |inner| == 1 ==> r == inner[0].value
    decreases |inner|
  {
    if inner == [] then [] else inner[0].value + NormalStringValue(inner[1..])
  }

  /** The value of a split string is the join of the parts' values. */
  lemma {:induction false} NormalStringValueAppend(a: seq<StringInner>, b: seq<StringInner>)
    ensures NormalStringValue(a + b) == NormalStringValue(a) + NormalStringValue(b)
    decreases |a|
  {
    if a == [] {
      assert a + b == b;
    } else {
      assert (a + b)[0] == a[0] && (a + b)[1..] == a[1..] + b;
      NormalStringValueAppend(a[1..], b);
    }
  }

  datatype SapString = NormalString(inner: seq<StringInner>) | RawString(text: string)

  /** `SapString` equality: quoted strings compare by value, raw strings by
      text, and a quoted string never equals a raw one. */
  function StringEq(a: SapString, b: SapString): (r: bool)
    ensures r <==> (a.NormalString? && b.NormalString? && NormalStringValue(a.inner) == NormalStringValue(b.inner))
                   || (a.RawString? && b.RawString? && a.text == b.text)
  {
    match (a, b)
    case (NormalString(x), NormalString(y)) => NormalStringValue(x) == NormalStringValue(y)
    case (RawString(x), RawString(y)) => x == y
    case _ => false
  }

  /** Equality ignores how a quoted string is cut into fragments. */
  lemma FragmentationIgnored(x: string, y: string)
    ensures StringEq(NormalString([NormalFragment(x + y)]), NormalString([NormalFragment(x), NormalFragment(y)]))
    ensures !StringEq(NormalString([NormalFragment(x)]), RawString(x))
  {
    NormalStringValueAppend([NormalFragment(x)], [NormalFragment(y)]);
  }

  /** `StringEq` is an equivalence. */
  lemma StringEqIsEquivalence(a: SapString, b: SapString, c: SapString)
    ensures StringEq(a, a)
    ensures StringEq(a, b) == StringEq(b, a)
    ensures StringEq(a, b) && StringEq(b, c) ==> StringEq(a, c)
  {
  }
}
