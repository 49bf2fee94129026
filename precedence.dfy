/** The operator table built by `pratt_parser` (src/operator_precedence.rs).
    Each `.op(...)` call adds one level; operators joined by `|` share it;
    a later level binds tighter than every earlier one. The table is built
    once behind a `OnceLock` and never changed, so it is a constant here. */
module OperatorPrecedence {
  import opened Wrappers
  import opened Rules
  import opened Prefixes
  import opened Infixes
  import opened Postfixes

  datatype Assoc = Left | Right
  datatype Fixity = PrefixFix | PostfixFix | InfixFix(assoc: Assoc)
  datatype Op = Op(rule: Rule, fixity: Fixity)

  /** The `.op(...)` calls in the order they are made. */
  const PrattTable: seq<seq<Op>> := [
    [Op(PrefixAnnotativeMacroCall, PrefixFix)],
    [Op(InfixAssign, InfixFix(Right)), Op(InfixSet, InfixFix(Right)),
     Op(InfixAssignYield, InfixFix(Right)), Op(InfixAssignSlot, InfixFix(Right))],
    [Op(PostfixTrinaryOp, PostfixFix)],
    [Op(InfixMatchEquals, InfixFix(Right))],
    [Op(InfixPipe, InfixFix(Left)), Op(InfixFindAndCallWithThis, InfixFix(Left))],
    [Op(InfixFunction, InfixFix(Left))],
    [Op(PrefixYield, PrefixFix)],
    [Op(InfixExtends, InfixFix(Right))],
    [Op(InfixOr, InfixFix(Left))],
    [Op(InfixAnd, InfixFix(Left))],
    [Op(InfixBitOr, InfixFix(Left))],
    [Op(InfixBitXor, InfixFix(Left))],
    [Op(InfixBitAnd, InfixFix(Left))],
    [Op(InfixEq, InfixFix(Left)), Op(InfixNeq, InfixFix(Left))],
    [Op(InfixLt, InfixFix(Left)), Op(InfixGt, InfixFix(Left)),
     Op(InfixLe, InfixFix(Left)), Op(InfixGe, InfixFix(Left))],
    [Op(InfixBitShiftL, InfixFix(Left)), Op(InfixBitShiftR, InfixFix(Left))],
    [Op(InfixAdd, InfixFix(Left)), Op(InfixSub, InfixFix(Left))],
    [Op(InfixMul, InfixFix(Left)), Op(InfixDiv, InfixFix(Left)), Op(InfixMod, InfixFix(Left))],
    [Op(PrefixNot, PrefixFix), Op(PrefixNeg, PrefixFix), Op(PrefixBitNot, PrefixFix)],
    [Op(PostfixMlAppParam, PostfixFix)],
    [Op(PostfixSlice, PostfixFix), Op(PostfixIndex, PostfixFix),
     Op(PostfixAccess, PostfixFix), Op(PostfixCAppParams, PostfixFix)]
  ]

  /** Where an operator kind sits in the table: its level (0 is the weakest)
      and its fixity with associativity. */
  datatype Entry = Entry(level: nat, fixity: Fixity)

  /** The table read as a map from rule kind to entry. */
  function Precedence(rule: Rule): (r: Option<Entry>)
    ensures r.Some? ==> r.value.level < |PrattTable|
    ensures r.Some? && r.value.fixity.InfixFix? ==> 0 < r.value.level < 18
  {
    match rule
    case PrefixAnnotativeMacroCall => Some(Entry(0, PrefixFix))
    case InfixAssign => Some(Entry(1, InfixFix(Right)))
    case InfixSet => Some(Entry(1, InfixFix(Right)))
    case InfixAssignYield => Some(Entry(1, InfixFix(Right)))
    case InfixAssignSlot => Some(Entry(1, InfixFix(Right)))
    case PostfixTrinaryOp => Some(Entry(2, PostfixFix))
    case InfixMatchEquals => Some(Entry(3, InfixFix(Right)))
    case InfixPipe => Some(Entry(4, InfixFix(Left)))
    case InfixFindAndCallWithThis => Some(Entry(4, InfixFix(Left)))
    case InfixFunction => Some(Entry(5, InfixFix(Left)))
    case PrefixYield => Some(Entry(6, PrefixFix))
    case InfixExtends => Some(Entry(7, InfixFix(Right)))
    case InfixOr => Some(Entry(8, InfixFix(Left)))
    case InfixAnd => Some(Entry(9, InfixFix(Left)))
    case InfixBitOr => Some(Entry(10, InfixFix(Left)))
    case InfixBitXor => Some(Entry(11, InfixFix(Left)))
    case InfixBitAnd => Some(Entry(12, InfixFix(Left)))
    case InfixEq => Some(Entry(13, InfixFix(Left)))
    case InfixNeq => Some(Entry(13, InfixFix(Left)))
    case InfixLt => Some(Entry(14, InfixFix(Left)))
    case InfixGt => Some(Entry(14, InfixFix(Left)))
    case InfixLe => Some(Entry(14, InfixFix(Left)))
    case InfixGe => Some(Entry(14, InfixFix(Left)))
    case InfixBitShiftL => Some(Entry(15, InfixFix(Left)))
    case InfixBitShiftR => Some(Entry(15, InfixFix(Left)))
    case InfixAdd => Some(Entry(16, InfixFix(Left)))
    case InfixSub => Some(Entry(16, InfixFix(Left)))
    case InfixMul => Some(Entry(17, InfixFix(Left)))
    case InfixDiv => Some(Entry(17, InfixFix(Left)))
    case InfixMod => Some(Entry(17, InfixFix(Left)))
    case PrefixNot => Some(Entry(18, PrefixFix))
    case PrefixNeg => Some(Entry(18, PrefixFix))
    case PrefixBitNot => Some(Entry(18, PrefixFix))
    case PostfixMlAppParam => Some(Entry(19, PostfixFix))
    case PostfixSlice => Some(Entry(20, PostfixFix))
    case PostfixIndex => Some(Entry(20, PostfixFix))
    case PostfixAccess => Some(Entry(20, PostfixFix))
    case PostfixCAppParams => Some(Entry(20, PostfixFix))
    case OtherRule(_) => None
  }

  predicate InTable(rule: Rule) {
    Precedence(rule).Some?
  }

  function Level(rule: Rule): nat
    requires InTable(rule)
  {
    Precedence(rule).value.level
  }

  predicate IsInfix(rule: Rule) {
    InTable(rule) && Precedence(rule).value.fixity.InfixFix?
  }

  /** Every entry of the map names an operator added at its level. */
  lemma {:induction false} EntryInTable(rule: Rule)
    requires InTable(rule)
    ensures Level(rule) < |PrattTable|
    ensures Op(rule, Precedence(rule).value.fixity) in PrattTable[Level(rule)]
  {
    if Level(rule) < 8 {
      LooseEntryInTable(rule);
    } else if Level(rule) < 16 {
      MiddleEntryInTable(rule);
    } else if Level(rule) < 19 {
      TightEntryInTable(rule);
    } else {
      PostfixEntryInTable(rule);
    }
  }

  /** `EntryInTable`, one band of levels at a time. */
  lemma {:induction false} LooseEntryInTable(rule: Rule)
    requires InTable(rule) && Level(rule) < 8
    ensures Op(rule, Precedence(rule).value.fixity) in PrattTable[Level(rule)]
  {
    var lvl := Level(rule);
    var op := Op(rule, Precedence(rule).value.fixity);
    assert PrattTable[lvl][0] == op
        || PrattTable[lvl][1] == op
        || PrattTable[lvl][2] == op
        || PrattTable[lvl][3] == op;
  }

  lemma {:induction false} MiddleEntryInTable(rule: Rule)
    requires InTable(rule) && 8 <= Level(rule) < 16
    ensures Op(rule, Precedence(rule).value.fixity) in PrattTable[Level(rule)]
  {
    var lvl := Level(rule);
    var op := Op(rule, Precedence(rule).value.fixity);
    assert PrattTable[lvl][0] == op
        || PrattTable[lvl][1] == op
        || PrattTable[lvl][2] == op
        || PrattTable[lvl][3] == op;
  }

  lemma {:induction false} TightEntryInTable(rule: Rule)
    requires InTable(rule) && 16 <= Level(rule) < 19
    ensures Op(rule, Precedence(rule).value.fixity) in PrattTable[Level(rule)]
  {
    var lvl := Level(rule);
    var op := Op(rule, Precedence(rule).value.fixity);
    assert PrattTable[lvl][0] == op
        || PrattTable[lvl][1] == op
        || PrattTable[lvl][2] == op;
  }

  lemma {:induction false} PostfixEntryInTable(rule: Rule)
    requires InTable(rule) && 19 <= Level(rule)
    ensures Op(rule, Precedence(rule).value.fixity) in PrattTable[Level(rule)]
  {
    var lvl := Level(rule);
    var op := Op(rule, Precedence(rule).value.fixity);
    assert PrattTable[lvl][0] == op
        || PrattTable[lvl][1] == op
        || PrattTable[lvl][2] == op
        || PrattTable[lvl][3] == op;
  }

  /** Every operator added at a level has that level in the map. */
  lemma {:induction false} TableInEntry(lvl: nat, i: nat)
    requires lvl < |PrattTable| && i < |PrattTable[lvl]|
    ensures Precedence(PrattTable[lvl][i].rule) == Some(Entry(lvl, PrattTable[lvl][i].fixity))
  {
    if lvl < 11 {
      LooseLevelsInEntry(lvl, i);
    } else if lvl < 16 {
      MiddleLevelsInEntry(lvl, i);
    } else {
      TightLevelsInEntry(lvl, i);
    }
  }

  lemma {:induction false} LooseLevelsInEntry(lvl: nat, i: nat)
    requires lvl < 11 && i < |PrattTable[lvl]|
    ensures Precedence(PrattTable[lvl][i].rule) == Some(Entry(lvl, PrattTable[lvl][i].fixity))
  {
  }

  lemma {:induction false} MiddleLevelsInEntry(lvl: nat, i: nat)
    requires 11 <= lvl < 16 && i < |PrattTable[lvl]|
    ensures Precedence(PrattTable[lvl][i].rule) == Some(Entry(lvl, PrattTable[lvl][i].fixity))
  {
  }

  lemma {:induction false} TightLevelsInEntry(lvl: nat, i: nat)
    requires 16 <= lvl < |PrattTable| && i < |PrattTable[lvl]|
    ensures Precedence(PrattTable[lvl][i].rule) == Some(Entry(lvl, PrattTable[lvl][i].fixity))
  {
  }

  /** The builder has 21 levels, and the map agrees with it in both
      directions: every operator added at a level has that entry, and every
      entry names an operator added at its level. So no operator kind appears
      at two levels. */
  lemma TableIsFunction(rule: Rule, lvl: nat, fx: Fixity)
    ensures |PrattTable| == 21
    ensures lvl < |PrattTable| && Op(rule, fx) in PrattTable[lvl]
            <==> Precedence(rule) == Some(Entry(lvl, fx))
  {
    if lvl < |PrattTable| && Op(rule, fx) in PrattTable[lvl] {
      var i :| 0 <= i < |PrattTable[lvl]| && PrattTable[lvl][i] == Op(rule, fx);
      TableInEntry(lvl, i);
    }
    if Precedence(rule) == Some(Entry(lvl, fx)) {
      EntryInTable(rule);
    }
  }

  /** Operators joined by `|` in one `.op` call share a level. */
  lemma {:induction false} SameCallSameLevel(lvl: nat, i: nat, j: nat)
    requires lvl < |PrattTable| && i < |PrattTable[lvl]| && j < |PrattTable[lvl]|
    ensures InTable(PrattTable[lvl][i].rule) && InTable(PrattTable[lvl][j].rule)
    ensures Level(PrattTable[lvl][i].rule) == Level(PrattTable[lvl][j].rule) == lvl
  {
    TableInEntry(lvl, i);
    TableInEntry(lvl, j);
  }

  /** The arithmetic groups: `+ -`, `* / %` and `<< >>`. */
  lemma ArithmeticSharedLevels()
    ensures Level(InfixAdd) == Level(InfixSub)
    ensures Level(InfixMul) == Level(InfixDiv) == Level(InfixMod)
    ensures Level(InfixBitShiftL) == Level(InfixBitShiftR)
  {
    SameCallSameLevel(16, 0, 1);
    SameCallSameLevel(17, 0, 1);
    SameCallSameLevel(17, 1, 2);
    SameCallSameLevel(15, 0, 1);
  }

  /** The comparison groups: `< > <= >=` and `== !=`. */
  lemma ComparisonSharedLevels()
    ensures Level(InfixLt) == Level(InfixGt) == Level(InfixLe) == Level(InfixGe)
    ensures Level(InfixEq) == Level(InfixNeq)
  {
    SameCallSameLevel(14, 0, 1);
    SameCallSameLevel(14, 1, 2);
    SameCallSameLevel(14, 2, 3);
    SameCallSameLevel(13, 0, 1);
  }

  /** The assignment group and the pipes. */
  lemma LooseSharedLevels()
    ensures Level(InfixAssign) == Level(InfixSet) == Level(InfixAssignYield) == Level(InfixAssignSlot)
    ensures Level(InfixPipe) == Level(InfixFindAndCallWithThis)
  {
    SameCallSameLevel(1, 0, 1);
    SameCallSameLevel(1, 1, 2);
    SameCallSameLevel(1, 2, 3);
    SameCallSameLevel(4, 0, 1);
  }

  /** The unary operators and the tight postfixes. */
  lemma TightSharedLevels()
    ensures Level(PrefixNot) == Level(PrefixNeg) == Level(PrefixBitNot)
    ensures Level(PostfixSlice) == Level(PostfixIndex) == Level(PostfixAccess) == Level(PostfixCAppParams)
  {
    SameCallSameLevel(18, 0, 1);
    SameCallSameLevel(18, 1, 2);
    SameCallSameLevel(20, 0, 1);
    SameCallSameLevel(20, 1, 2);
    SameCallSameLevel(20, 2, 3);
  }

  /** Binding strength strictly increases along the logical and bitwise
      classes: `||`, `&&`, `|`, `^`, `&`, equality. */
  lemma LogicalClassesOrdered()
    ensures Level(InfixOr) < Level(InfixAnd) < Level(InfixBitOr) < Level(InfixBitXor)
            < Level(InfixBitAnd) < Level(InfixEq)
  {
    TableInEntry(8, 0);
    TableInEntry(9, 0);
    TableInEntry(10, 0);
    TableInEntry(11, 0);
    TableInEntry(12, 0);
    TableInEntry(13, 0);
  }

  /** ... and on along the numeric classes: equality, relations, shifts,
      `+`, `*`. */
  lemma NumericClassesOrdered()
    ensures Level(InfixEq) < Level(InfixLt) < Level(InfixBitShiftL) < Level(InfixAdd) < Level(InfixMul)
  {
    TableInEntry(13, 0);
    TableInEntry(14, 0);
    TableInEntry(15, 0);
    TableInEntry(16, 0);
    TableInEntry(17, 0);
  }

  /** Below `||`: `match_equals`, the pipes, `~id~`, prefix yield, `extends`. */
  lemma LooseClassesOrdered()
    ensures Level(InfixMatchEquals) < Level(InfixPipe) < Level(InfixFunction)
            < Level(PrefixYield) < Level(InfixExtends) < Level(InfixOr)
  {
    TableInEntry(3, 0);
    TableInEntry(4, 0);
    TableInEntry(5, 0);
    TableInEntry(6, 0);
    TableInEntry(7, 0);
    TableInEntry(8, 0);
  }

  /** Logical not, negation and bit-not bind tighter than every infix
      operator and looser than every postfix operator. */
  lemma UnaryBetweenInfixAndPostfix(rule: Rule)
    ensures IsInfix(rule) ==> Level(rule) < Level(PrefixNot)
    ensures InTable(rule) && Precedence(rule).value.fixity.PostfixFix? && rule != PostfixTrinaryOp
            ==> Level(PrefixNot) < Level(rule)
  {
  }

  /** Juxtaposition is exactly one level looser than slice, index, access and
      call, and tighter than everything else. */
  lemma JuxtapositionLevel(rule: Rule)
    ensures Level(PostfixMlAppParam) + 1 == Level(PostfixSlice)
    ensures InTable(rule) && Level(PostfixMlAppParam) < Level(rule)
            <==> rule in {PostfixSlice, PostfixIndex, PostfixAccess, PostfixCAppParams}
  {
  }

  /** The ternary sits above the assignment group and below `match_equals`. */
  lemma TrinaryLevel(rule: Rule)
    ensures Level(InfixAssign) < Level(PostfixTrinaryOp) < Level(InfixMatchEquals)
    ensures InTable(rule) && Level(rule) < Level(PostfixTrinaryOp)
            <==> rule in {PrefixAnnotativeMacroCall, InfixAssign, InfixSet, InfixAssignYield, InfixAssignSlot}
  {
  }

  /** The assignment group, `match_equals` and `extends` associate to the
      right; every other infix operator to the left. */
  lemma Associativity(rule: Rule)
    requires IsInfix(rule)
    ensures Precedence(rule).value.fixity.assoc == Right
            <==> rule in {InfixAssign, InfixSet, InfixAssignYield, InfixAssignSlot,
                          InfixMatchEquals, InfixExtends}
  {
  }

  /** `prefix_annotative_macro_call` is alone at the weakest level. */
  lemma AnnotativeMacroCallWeakest(rule: Rule)
    ensures Level(PrefixAnnotativeMacroCall) == 0
    ensures InTable(rule) && Level(rule) == 0 ==> rule == PrefixAnnotativeMacroCall
  {
  }

  /** The classifiers cover the table exactly, except for two operators the
      table admits and no classifier has an arm for: reducing `infix_set` or
      `prefix_annotative_macro_call` reaches `unreachable!()`. */
  lemma ClassifierCoverage(rule: Rule)
    ensures InTable(rule) && Precedence(rule).value.fixity.PostfixFix? <==> IsPostfixRule(rule)
    ensures IsInfix(rule) && !IsInfixRule(rule) <==> rule == InfixSet
    ensures IsInfixRule(rule) ==> IsInfix(rule)
    ensures InTable(rule) && Precedence(rule).value.fixity.PrefixFix? && !IsPrefixRule(rule)
            <==> rule == PrefixAnnotativeMacroCall
    ensures IsPrefixRule(rule) ==> InTable(rule) && Precedence(rule).value.fixity.PrefixFix?
  {
  }
}
