# sap-parser expression core in Dafny

This project models the expression core of `sap-parser`, the parser of the
Sap language, and proves properties of the model.

- **Expression tree.** `Ast` holds `Expr` with its prefix, infix and postfix
  operators. `NoEphemeral` says that no `CAppParams` or `MlAppParam` postfix
  node is left anywhere in a tree. Those two postfixes exist only while the
  parser reduces a postfix.
- **Classifiers.** `Postfixes`, `Infixes` and `Prefixes` map grammar rule
  kinds to operators. A rule kind with no arm (`unreachable!()`) is a
  precondition.
- **Reduction callbacks.** `ExprFromPest` holds the four callbacks the
  operator-precedence climber calls in `Expr::from_pest`. `Fold` composes
  them along a given tree of reductions.
- **Application nanopass.** `ChurchEncoded` rewrites a juxtaposition
  argument (`a b`) into a flat `MLApply` and hoists it under a ternary or
  infix wrapper. It lifts a call's arguments (`a(b, c)`) into `CApply`.
- **Operator table.** `OperatorPrecedence` is the table built by
  `pratt_parser`: 21 levels, where level 0 is the weakest and each later
  `.op` call binds tighter.
- **Literals.**
  - `Numbers`: integer literals (`_` stripping, `0x`/`0b`/`0o` radix
    prefixes, i64 range), exponent parts, `Int::value` and number equality.
  - `Strings`: string escapes (C escapes, `\UHHHHHHHH`, `\uHHHH`, `\xHH`,
    octal), `NormalString::value` and string equality.
  - `Literals`: `parse_bool`.
  - `Patterns`: the `...name` eclipse pattern.
  - `Ids`: `Id::value`.

Points where the code is easy to misread:

- **The nanopass looks one wrapper deep.** The code inspects only the
  outermost wrapper. `ChurchEncoded.Reassociate` is a fully recursive
  variant that descends through every infix left operand and ternary
  condition. `ChurchEncoded.AgreesWithReassociate` proves that the two agree
  exactly when no wrapper is nested directly inside the outer one.
- **`match_equals` has its own level**, right after the ternary.
- **The call lift takes an optional body.** The code's call branch passes an
  optional argument list (`CAppParams`) to a lift that expects a present one.
  `ChurchEncoded.LiftCAppParams` lifts over the option, so a call with no
  arguments gives `CApply(e, [])`.

Runtime aborts become preconditions:

- `unreachable!()` in the classifiers;
- `unwrap` on integer text that does not parse;
- `char::from_u32` on a code that is not a Unicode scalar value;
- a slice shorter than its bound.

## Model

| member | source | states |
|---|---|---|
| Ast.NoEphemeral | src/expr/postfix.rs:55-57 | a clean tree has no `CAppParams` or `MlAppParam` postfix at its root and a clean operand under any postfix; every primary leaf is clean |
| Ids.Value | src/id.rs:35-43 | each of the three id variants yields its stored text |
| Ids.ValueRoundTrip | src/id.rs:35-43 | wrapping a text in any variant and taking `value` gives the text back unaltered |
| Postfixes.RuleOfPostfix | src/expr/postfix.rs:66-71 | every postfix operator comes from one of the six postfix rule kinds the classifier accepts |
| Postfixes.ParsePostfix | src/expr/postfix.rs:60-75 | defined exactly on the six postfix rule kinds; a success has the variant named by the rule and carries the converted child; it fails exactly when that child's conversion failed, with that error |
| Postfixes.ParsePostfixInjective | src/expr/postfix.rs:66-71 | two rule kinds that classify to the same operator are the same kind |
| Postfixes.ParsePostfixOnto | src/expr/postfix.rs:66-71 | every postfix operator is produced by its rule kind from the children it carries |
| Infixes.RuleOfInfix | src/expr/infix.rs:46-74 | every infix operator comes from a rule kind with an arm; only `Function` comes from `infix_function` |
| Infixes.InfixFromPest | src/expr/infix.rs:41-77 | defined exactly on the 26 rule kinds with an arm; fails only for `infix_function` with a failing id conversion, passing that error on; `infix_function` gives `Function(id)` |
| Infixes.InfixFromPestInjective | src/expr/infix.rs:45-74 | two rule kinds that classify to the same operator are the same kind |
| Infixes.InfixFromPestOnto | src/expr/infix.rs:45-74 | every infix operator is produced by its rule kind |
| Infixes.InfixExamples | src/expr/infix.rs:91-114 | `+` classifies as `Add`, and `~id~` as `Function(NormalId "id")` |
| Prefixes.RuleOfPrefix | src/expr/prefix.rs:24-27 | every prefix operator comes from one of the four prefix rule kinds |
| Prefixes.PrefixFromPest | src/expr/prefix.rs:19-30 | defined exactly on the four prefix rule kinds; the operator maps back to the rule it came from |
| Prefixes.PrefixBijection | src/expr/prefix.rs:7-28 | classification and its inverse are a bijection between the four rule kinds and the four operators |
| Prefixes.PrefixExamples | src/expr/prefix.rs:40-78 | not, bit-not, neg and yield classify as `Not`, `BitNot`, `Neg` and `Yield` |
| ChurchEncoded.Chain | src/expr/church_encoded.rs:8-14 | the argument list built for a pending argument is never empty |
| ChurchEncoded.LiftCParams | src/expr/church_encoded.rs:3-5 | the call lift yields `CApply(e, params)` with the arguments unchanged in order and length; it is free of ephemeral nodes exactly when `e` and the arguments are |
| ChurchEncoded.LiftCAppParams | src/expr/mod.rs:73-74 | the lift over the optional body: no body gives `CApply(e, [])`, a body gives its arguments unchanged; the ephemeral-node equivalence as above |
| ChurchEncoded.HandleMlApply | src/expr/church_encoded.rs:7-15 | the result is `MLApply` headed by `e`; a pending `MLApply(c, p)` gives arguments `[c] + p` (count `1 + \|p\|`, never nested); any other pending argument is the single argument |
| ChurchEncoded.ChainOfMlApply | src/expr/church_encoded.rs:7-15 | applying `e` prepends `e` to the flattened argument chain of the pending argument |
| ChurchEncoded.HandleInfix | src/expr/church_encoded.rs:17-35 | defined exactly for a pending `Infix`; keeps its operator and right operand; the left operand becomes an `MLApply` headed by `e`, flattened when it was an `MLApply` |
| ChurchEncoded.HandlePostfixTrinary | src/expr/church_encoded.rs:37-53 | defined exactly for a pending ternary; keeps both branches; the condition becomes an `MLApply` headed by `e`, flattened when it was an `MLApply` |
| ChurchEncoded.HandleChurchEncoded | src/expr/church_encoded.rs:55-59 | the result is a ternary, an `Infix` or an `MLApply` exactly as the pending argument is a ternary, an infix or anything else; never a call, prefix or primary |
| ChurchEncoded.OneLevelOnly | src/expr/church_encoded.rs:28-32 | an infix left operand that is itself an infix becomes one argument and is not descended into |
| ChurchEncoded.OneLevelOnlyTrinary | src/expr/church_encoded.rs:47-50 | a ternary condition that is itself a ternary becomes one argument and is not descended into |
| ChurchEncoded.MlApplyNoEphemeral | src/expr/church_encoded.rs:7-15 | plain application introduces no ephemeral node |
| ChurchEncoded.ChurchEncodedNoEphemeral | src/expr/church_encoded.rs:55-59 | the nanopass introduces no ephemeral node: clean inputs give a clean result |
| ChurchEncoded.Reassociate | src/expr/church_encoded.rs:17-53 | a fully recursive variant of the nanopass, descending through every infix left operand and ternary condition, keeps the outer wrapper kind |
| ChurchEncoded.AgreesWithReassociate | src/expr/church_encoded.rs:17-59 | the one-level nanopass equals the recursive rewrite if and only if no ternary or infix is nested directly inside the outer wrapper |
| ChurchEncoded.ReassociateDiffersOnNestedInfix | src/expr/church_encoded.rs:28-32 | on `a` applied to `b + c + d` the nanopass gives `(a (b + c)) + d`, the recursive rewrite `((a b) + c) + d` |
| ExprFromPest.MapPrimary | src/expr/mod.rs:53-57 | a converted primary becomes `Primary(leaf)`; a failed conversion passes its error on |
| ExprFromPest.MapPrefix | src/expr/mod.rs:58-63 | succeeds exactly when the operand did, giving `Prefix(op, operand)` with the operand unchanged and the operator of the rule; otherwise the operand's error |
| ExprFromPest.MapPostfix | src/expr/mod.rs:66-78 | succeeds exactly when the operand and the classifier do, else their first error; juxtaposition goes to the nanopass, a call to the lift, any other postfix wraps the operand unchanged; never an ephemeral `Postfix` node |
| ExprFromPest.MapInfix | src/expr/mod.rs:79-88 | succeeds exactly when lhs, the classifier and rhs do, else the first error in that order; gives `Infix(op, lhs, rhs)` with operands in source order |
| ExprFromPest.Fold | src/expr/mod.rs:52-89 | the callbacks composed along the reductions: a finished tree never has an ephemeral postfix at its root; it is a `Primary` exactly when the reduction is a primary; a prefix reduction gives a `Prefix` node and an infix reduction an `Infix` node |
| ExprFromPest.FromPest | src/expr/mod.rs:43-50 | an empty pair stream gives `NoMatch`; otherwise the callbacks folded over the reductions |
| ExprFromPest.PostfixPayloadClean | src/expr/postfix.rs:49-58 | a non-ephemeral postfix whose payload is clean, over a clean operand, is clean |
| ExprFromPest.FoldNoEphemeral | src/expr/mod.rs:52-88 | every finished tree built from clean inputs holds no ephemeral node |
| ExprFromPest.FoldErrorsSupplied | src/expr/mod.rs:52-88 | every error is one a leaf, id or child conversion supplied; the callbacks invent none |
| ExprFromPest.JuxtapositionExamples | src/expr/mod.rs:71-72 | `a b` gives `MLApply(a, [b])`; `a` applied to `b c` gives the flat `MLApply(a, [b, c])`; `a` applied to `b c ? 1 : 2` keeps the ternary outermost |
| ExprFromPest.CallExamples | src/expr/mod.rs:73-74 | `a(b, c)` gives `CApply(a, [b, c])` and `a()` gives `CApply(a, [])` |
| OperatorPrecedence.Precedence | src/operator_precedence.rs:10-68 | the 21-level table (`PrattTable`, one level per `.op` call) read as a map from rule kind to level and fixity: every level is inside the table, and every infix lies strictly between the annotative macro call and the unary operators |
| OperatorPrecedence.EntryInTable | src/operator_precedence.rs:10-68 | every kind the map knows sits in the table at its level with its fixity |
| OperatorPrecedence.TableInEntry | src/operator_precedence.rs:10-68 | every table entry is what the map gives for its kind |
| OperatorPrecedence.LooseLevelsInEntry | src/operator_precedence.rs:14-41 | the same for levels 0 to 10 |
| OperatorPrecedence.MiddleLevelsInEntry | src/operator_precedence.rs:43-53 | the same for levels 11 to 15 |
| OperatorPrecedence.TightLevelsInEntry | src/operator_precedence.rs:55-67 | the same for levels 16 to 20 |
| OperatorPrecedence.TableIsFunction | src/operator_precedence.rs:14-67 | the table has 21 levels, and a kind is at a level with a fixity exactly when the map says so: each kind is in one level only |
| OperatorPrecedence.SameCallSameLevel | src/operator_precedence.rs:14-67 | operators of one `.op` call have the same level |
| OperatorPrecedence.ArithmeticSharedLevels | src/operator_precedence.rs:50-57 | `+ -`, `* / %` and `<< >>` each share a level |
| OperatorPrecedence.ComparisonSharedLevels | src/operator_precedence.rs:43-48 | `< > <= >=` and `== !=` each share a level |
| OperatorPrecedence.LooseSharedLevels | src/operator_precedence.rs:16-25 | the four assignment operators share a level, as do the two pipes |
| OperatorPrecedence.TightSharedLevels | src/operator_precedence.rs:59-67 | the three unary operators share a level, as do slice, index, access and call |
| OperatorPrecedence.LogicalClassesOrdered | src/operator_precedence.rs:33-43 | `\|\|` < `&&` < `\|` < `^` < `&` < `==` in binding strength |
| OperatorPrecedence.NumericClassesOrdered | src/operator_precedence.rs:43-57 | `==` < `<` < `<<` < `+` < `*` in binding strength |
| OperatorPrecedence.LooseClassesOrdered | src/operator_precedence.rs:22-33 | `match_equals` < pipes < `~id~` < yield < `extends` < `\|\|` in binding strength |
| OperatorPrecedence.UnaryBetweenInfixAndPostfix | src/operator_precedence.rs:59-67 | not, neg and bit-not bind tighter than every infix and looser than every postfix except the ternary |
| OperatorPrecedence.JuxtapositionLevel | src/operator_precedence.rs:63-67 | juxtaposition is exactly one level looser than slice/index/access/call, and only those four bind tighter |
| OperatorPrecedence.TrinaryLevel | src/operator_precedence.rs:14-22 | the ternary sits above the assignment group and below `match_equals`; only the annotative macro call and the assignment group are looser |
| OperatorPrecedence.Associativity | src/operator_precedence.rs:16-57 | an infix is right-associative exactly when it is an assignment operator, `match_equals` or `extends` |
| OperatorPrecedence.AnnotativeMacroCallWeakest | src/operator_precedence.rs:14 | the annotative macro call is alone at the weakest level |
| OperatorPrecedence.ClassifierCoverage | src/operator_precedence.rs:14-67 | the classifiers accept exactly the table's kinds of each fixity, except `infix_set` and `prefix_annotative_macro_call`, which the table admits and no classifier handles |
| Numbers.RemoveUnderscores | src/literal/number.rs:8 | no `_` remains; text without `_` is unchanged; the result is no longer |
| Numbers.RemoveUnderscoresAppend | src/literal/number.rs:8 | stripping distributes over concatenation |
| Numbers.RemoveUnderscoresSubset | src/literal/number.rs:8 | stripping introduces no character |
| Numbers.DigitsValueDefined | src/literal/number.rs:12-18 | `DigitsValue`, the digit fold of `from_str_radix`, has a value exactly when every character is a digit of the radix |
| Numbers.Digit | src/literal/number.rs:12-18 | a digit's value is below the radix |
| Numbers.DigitsValueBound | src/literal/number.rs:12-18 | `n` digits in radix `b` denote a value below `b^n` |
| Numbers.FromStrRadix | src/literal/number.rs:12-18 | `from_str_radix`: a result lies in the i64 range, and the empty text and a lone sign never parse |
| Numbers.ShortDigitsFit | src/literal/number.rs:12-18 | unsigned digits whose maximum fits in i64 parse to their value |
| Numbers.SplitRadix | src/literal/number.rs:9-18 | the radix is 2, 8, 10 or 16; decimal keeps the whole text, and a prefixed radix needs more than two characters starting with `0` and takes the rest; cleaned text longer than two characters with a radix prefix is never read as decimal |
| Numbers.ParseIntText | src/literal/number.rs:7-20 | a parsed integer lies in the i64 range |
| Numbers.HelperParseInt | src/literal/number.rs:7-20 | on text that parses, the value lies in the i64 range |
| Numbers.UnderscoresIgnored | src/literal/number.rs:8 | the value depends only on the text with every `_` removed |
| Numbers.SplitPrefixed | src/literal/number.rs:9-14 | `0x`/`0b`/`0o` (either case) before non-empty digits select radix 16, 2 or 8 for the rest |
| Numbers.PrefixSelectsRadix | src/literal/number.rs:9-14 | a literal with a radix prefix is the remainder, stripped of `_`, parsed in that radix |
| Numbers.DecimalOtherwise | src/literal/number.rs:9-18 | cleaned text of length at most 2, or without a radix prefix, is parsed as decimal |
| Numbers.Clean1010 | src/literal/number.rs:209-251 | `10_10` cleans to `1010` |
| Numbers.Digits1010 | src/literal/number.rs:209-251 | `1010` in radix `b` is `b^3 + b` |
| Numbers.PrefixedExample | src/literal/number.rs:209-240 | `0<p>10_10` is `1010` read in the prefix's radix |
| Numbers.BinaryLiteralExample | src/literal/number.rs:209-218 | `0b10_10` is 10 |
| Numbers.OctalLiteralExample | src/literal/number.rs:220-229 | `0o10_10` is 520 |
| Numbers.HexLiteralExample | src/literal/number.rs:231-240 | `0x10_10` is 4112 |
| Numbers.DecimalLiteralExample | src/literal/number.rs:242-251 | `10_10` is 1010 |
| Numbers.ParseExponentPart | src/literal/number.rs:84-93 | the result is in the i64 range, and is i64's minimum only when no `-` occurs |
| Numbers.UnsignedNonNegative | src/literal/number.rs:7-20 | unsigned integer text has a non-negative value |
| Numbers.NegativeExponent | src/literal/number.rs:86-87 | `e-` followed by an integer is that integer negated |
| Numbers.PositiveExponent | src/literal/number.rs:88-89 | `e+` followed by an integer is that integer |
| Numbers.UnsignedExponent | src/literal/number.rs:90-91 | `e` followed by an unsigned integer is that integer |
| Numbers.PrefixedExponentExample | src/literal/number.rs:294-302 | `e-0b10_10` is -10 |
| Numbers.DecimalExponentExample | src/literal/number.rs:270-278 | `e-10` is -10 |
| Numbers.IntValue | src/literal/number.rs:64-73 | each radix variant yields its stored value |
| Numbers.NumberEq | src/literal/number.rs:190-200 | two numbers are equal exactly when both are integers with equal values; an integer never equals a float |
| Numbers.NumberEqIsEquivalence | src/literal/number.rs:190-200 | integer equality is reflexive, symmetric and transitive, and compares values across radixes (`0x10` equals `16`) |
| Strings.Replace | src/literal/string.rs:63-73 | `str::replace` leaves text without the pattern's first character unchanged |
| Strings.ReplaceWhole | src/literal/string.rs:63-73 | on text as long as the pattern, a replacement yields the replacement exactly when the text is the pattern |
| Strings.ReplaceAbsent | src/literal/string.rs:63-79 | a two-character pattern that never occurs leaves the text unchanged |
| Strings.HandleCEscape | src/literal/string.rs:62-74 | `handle_c_escape`, the eleven replacements in source order, leaves backslash-free text unchanged |
| Strings.ReplaceChain | src/literal/string.rs:62-74 | the replacement chain leaves backslash-free text unchanged |
| Strings.ChainSkip | src/literal/string.rs:62-74 | entries whose pattern differs from a two-character text pass it by |
| Strings.ChainAbsent | src/literal/string.rs:62-74 | entries whose patterns never occur leave the text unchanged |
| Strings.PatternsDistinct | src/literal/string.rs:62-74 | no two C escapes share a pattern |
| Strings.NoCEscapeUnchanged | src/literal/string.rs:62-74 | text with no C escape passes `handle_c_escape` unchanged |
| Strings.OctRun | src/literal/string.rs:47 | the octal run takes at most three digits, greedily: a shorter run stops at a non-digit or the end |
| Strings.AllDigitsHaveValue | src/literal/string.rs:13 | digits of the radix always have a value |
| Strings.MatchLen | src/literal/string.rs:8-47 | a match starts with a backslash, spans at least two characters and its digits are digits of its radix |
| Strings.Code | src/literal/string.rs:11-15 | the code an escape denotes is below radix^(digit count) |
| Strings.HasMatch | src/literal/string.rs:9 | `is_match`: an escape of the kind occurs only in text holding a backslash |
| Strings.ReplaceAll | src/literal/string.rs:10-17 | `replace_all`, a left-to-right non-overlapping scan, leaves text without a match unchanged |
| Strings.SmallCodesValid | src/literal/string.rs:34-59 | `\xHH` and octal codes are always scalar values, so those arms never panic |
| Strings.NoBackslashNoMatch | src/literal/string.rs:6-60 | backslash-free text holds no numeric escape |
| Strings.NoBackslashCodesValid | src/literal/string.rs:6-60 | backslash-free text has no code to reject |
| Strings.PlainPrefix | src/literal/string.rs:9-10 | a backslash-free prefix does not change whether an escape occurs |
| Strings.HandleSpecialEscape | src/literal/string.rs:6-60 | text with no numeric escape of any kind is returned unchanged |
| Strings.FirstKindOnly | src/literal/string.rs:6-60 | only the first kind present is decoded: `\x41\101` gives `A\101` |
| Strings.OctalExample | src/literal/string.rs:47-56 | an octal escape takes at most three digits: `\1012` gives `A2` |
| Strings.HandleEscape | src/literal/string.rs:76-80 | backslash-free text is returned unchanged |
| Strings.PlainAfterCEscape | src/literal/string.rs:76-80 | when the C escapes leave no backslash, the result is the C-escape result |
| Strings.SingleNumericEscape | src/literal/string.rs:76-80 | one numeric escape of the kind that is picked, followed by plain text, decodes to its character followed by that text, unless it decodes to a backslash and the text starts with `r` |
| Strings.MarkerNotCEscape | src/literal/string.rs:8-47 | the character after the backslash of a numeric escape starts no C escape |
| Strings.SingleNumericSpecial | src/literal/string.rs:6-74 | one picked numeric escape before plain text passes the C escapes unchanged and is the only thing the numeric step decodes |
| Strings.RestoreOne | src/literal/string.rs:79 | the final restore merges a backslash with a following `r` and changes nothing else |
| Strings.DecodedBackslashMerged | src/literal/string.rs:76-80 | as written, a numeric escape that decodes to a backslash, followed by `r`, decodes to one backslash and the `r` is lost |
| Strings.DecodedBackslashBeforeR | src/literal/string.rs:76-80 | as written, `\x5cr` decodes to `\`, not to `\r` |
| Strings.SimpleEscape | src/literal/string.rs:62-74 | every single-character C escape other than `\\` decodes to its fixed code |
| Strings.EscapedBackslash | src/literal/string.rs:62-80 | `\\` decodes to one backslash |
| Strings.EscapedBackslashPrefix | src/literal/string.rs:62-74 | `\\` followed by backslash-free text not starting with `r` becomes the placeholder `\r`, and the text is kept |
| Strings.PlaceholderNoMatch | src/literal/string.rs:6-60 | the placeholder `\r` starts no numeric escape |
| Strings.EscapedBackslashBefore | src/literal/string.rs:62-80 | an escaped backslash never starts another escape: `\\` then backslash-free text not starting with `r` gives `\` then the text |
| Strings.HexByteExample | src/literal/string.rs:194-211 | `\x65` gives `e` |
| Strings.Hex4Example | src/literal/string.rs:194-211 | `\ue000` gives U+E000 |
| Strings.Hex8Example | src/literal/string.rs:194-211 | `\U0010ffff` gives U+10FFFF |
| Strings.EscapedHexExample | src/literal/string.rs:194-211 | `\\x65` gives `\x65` |
| Strings.EscapedBackslashBeforeR | src/literal/string.rs:63-64 | as written, `\\r` decodes to a backslash and a carriage return, not to `\r` |
| Strings.Lookup | src/literal/string.rs:62-74 | an escape is found exactly when some table entry has that pattern |
| Strings.LookupFirst | src/literal/string.rs:62-74 | with distinct patterns, each entry's pattern looks up its own replacement |
| Strings.CEscapeScan | src/literal/string.rs:62-74 | the one-pass C-escape decoder leaves backslash-free text unchanged |
| Strings.Protect | src/literal/string.rs:79 | a decoded character, protected, comes out of the final restore as itself |
| Strings.ReplaceAllFixed | src/literal/string.rs:10-17 | the corrected `replace_all` leaves text without a match unchanged |
| Strings.HandleSpecialEscapeFixed | src/literal/string.rs:6-60 | the corrected numeric step returns text with no numeric escape unchanged |
| Strings.HandleEscapeFixed | src/literal/string.rs:76-80 | the corrected decoder leaves backslash-free text unchanged |
| Strings.NoCEscapeScan | src/literal/string.rs:62-74 | text with no C escape passes the one-scan decoder unchanged |
| Strings.DecodedBackslashFixed | src/literal/string.rs:76-80 | corrected: one picked numeric escape before plain text decodes to its character then the text, a backslash before `r` included |
| Strings.DecodedBackslashBeforeRFixed | src/literal/string.rs:76-80 | corrected: `\x5cr` decodes to a backslash then `r` |
| Strings.EscapedBackslashFixed | src/literal/string.rs:62-80 | corrected: `\\` followed by any backslash-free text, `r` included, gives `\` then that text |
| Strings.SimpleEscapeFixed | src/literal/string.rs:62-74 | corrected: every C escape, `\\` included, decodes to its table value |
| Strings.EscapedFragmentOf | src/literal/string.rs:82-87 | an escaped fragment holds its span decoded by `handle_escape` as written; a backslash-free span is kept as is |
| Strings.EscapedFragmentFixedOf | src/literal/string.rs:82-87 | the same conversion with the corrected decoder of the Findings rows |
| Strings.NormalStringValue | src/literal/string.rs:114-125 | a one-fragment string's value is that fragment's value |
| Strings.NormalStringValueAppend | src/literal/string.rs:114-125 | the value of concatenated fragments is the concatenation of the values, in order |
| Strings.StringEq | src/literal/string.rs:174-182 | quoted strings are equal by decoded value, raw strings by text, and a quoted string never equals a raw one |
| Strings.FragmentationIgnored | src/literal/string.rs:174-182 | equality ignores how a quoted string is cut into fragments |
| Strings.StringEqIsEquivalence | src/literal/string.rs:174-182 | string equality is reflexive, symmetric and transitive |
| Literals.ParseBool | src/literal/mod.rs:15-22 | defined on exactly `true` and `false`; the result is true exactly for `true` |
| Literals.BooleanOf | src/literal/mod.rs:24-29 | a `Boolean` node's value is `parse_bool` of its text: true exactly for `true`, and the text is the value's keyword |
| Literals.BoolText | src/literal/mod.rs:24-29 | each boolean has a source text `parse_bool` accepts |
| Literals.ParseBoolRoundTrip | src/literal/mod.rs:15-29 | `parse_bool` and the boolean's text are inverse on that domain |
| Patterns.EclipseFromPest | src/pattern/mod.rs:17-33 | the result is always a `NormalId`, and its value is the text with exactly its first three characters removed |
| Patterns.EclipseRoundTrip | src/pattern/mod.rs:26-30 | `...name` gives back `name` |
| Patterns.EclipseExample | src/pattern/mod.rs:59-68 | `...a` gives value `a` |

## Left out

- The operator-precedence climbing loop is library code (`pest::pratt_parser`). `Fold` composes the callbacks over a given tree of reductions instead.
- The grammar and every derived `FromPest` conversion are left out. The classifiers take their children's conversion results as inputs, and primary leaves are opaque. This also leaves out the postfix tests that parse `1,2` and `.a`.
- `Expr` equality is Dafny's structural equality on the datatype. Primary leaves compare by source text, which is finer than the derived `PartialEq`: it reaches `Literal`, whose numbers and strings compare by value, so the primaries `0x10` and `16` are equal in the source and unequal in the model.
- `Float::value`, `digits` and float equality in `SapNumber` use `f64`, `log10` and `powf`. `Numbers.NumberEq` requires that not both operands are floats.
- `ObjectKey::value` is left out. It calls a string method that the shown files do not define.
- The `OnceLock` around the table is left out; the table is a constant.
- `Serialize` impls, `Debug` output, `println!`, src/diagnostics.rs, src/formatter.rs and the `parse_expr` entry point of src/lib.rs are left out.
- The tests in src/expr/mod.rs only print. They are not turned into expected trees; `ExprFromPest.JuxtapositionExamples` is stated on reductions instead.
- The `regex` engine is left out. Each of the four patterns is a left-to-right, non-overlapping scan of fixed shape.
- Numbers.ParseExponentPart: the exponent `-` branch requires that the integer is not i64's minimum, because negating it overflows (a panic in debug builds).
- Numbers.HelperParseInt: it requires text that parses. `unwrap` on a failure is a panic, not a value.
- Numbers.ParseExponentPart: the slices `str[1..]` and `str[2..]` are byte offsets, so the first characters are required to be ASCII. The grammar guarantees this.
- Strings.HandleSpecialEscape: `\UHHHHHHHH` and `\uHHHH` codes that are not Unicode scalar values are a precondition, not a panic.
- Strings.HandleSpecialEscape: its contract states only the unchanged case. What it decodes is stated by `Strings.SingleNumericEscape`, `Strings.FirstKindOnly` and the test examples.
- Patterns.EclipseFromPest: it requires at least three characters, the first three ASCII, since `str[3..]` slices bytes.

## Findings

| source | as written | input that shows it | evidently intended | confidence | as-written member | corrected member |
|---|---|---|---|---|---|---|
| src/literal/string.rs:63-64 | `\r` is replaced by CR before `\\` is replaced by the placeholder `\r`, so the `\r` inside an escaped backslash followed by `r` is consumed first | `\\r` (escaped backslash, then `r`) decodes to a backslash and a carriage return | an escaped backslash followed by `r` decodes to a backslash then `r` | not executed | Strings.EscapedBackslashBeforeR | Strings.EscapedBackslashFixed |
| src/literal/string.rs:76-80 | a numeric escape that decodes to a backslash leaves a raw backslash, and the final replacement of `\r` by `\` then merges it with a following `r` | `\x5cr` (a hex escape for the backslash, then `r`) decodes to `\` alone | a numeric escape followed by `r` decodes to its character then `r` | not executed | Strings.DecodedBackslashMerged | Strings.DecodedBackslashFixed |
