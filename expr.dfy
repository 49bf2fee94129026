/** `Expr::from_pest` (src/expr/mod.rs): the four callbacks the precedence
    climber calls once per reduction, and their composition over the tree of
    reductions the climber performs. The climbing loop itself belongs to the
    parsing library and is not part of this model: which reductions happen,
    and in which nesting, is an input here. */
module ExprFromPest {
  import opened Wrappers
  import opened Ids
  import opened Rules
  import opened Ast
  import opened Postfixes
  import opened Infixes
  import opened Prefixes
  import opened ChurchEncoded

  /** `map_primary`: the converted leaf becomes `Expr::Primary`. */
  function MapPrimary(leaf: Result<PrimaryLeaf>): (r: Result<Expr>)
    ensures r.Ok? <==> leaf.Ok?
    ensures leaf.Ok? ==> r.value == Primary(leaf.value)
    ensures leaf.Err? ==> r.error == leaf.error
  {
    if leaf.Err? then Err(leaf.error) else Ok(Primary(leaf.value))
  }

  /** `map_prefix`: classify the operator (it cannot fail on a prefix rule
      kind), then wrap the operand, unchanged; an operand error is passed on. */
  function MapPrefix(rule: Rule, operand: Result<Expr>): (r: Result<Expr>)
    requires IsPrefixRule(rule)
    ensures r.Ok? <==> operand.Ok?
    ensures operand.Err? ==> r.error == operand.error
    ensures r.Ok? ==> r.value.Prefix? && r.value.operand == operand.value
    ensures r.Ok? ==> RuleOfPrefix(r.value.prefix) == rule
  {
    var op := PrefixFromPest(rule);
    if operand.Err? then Err(operand.error) else Ok(Prefix(op, operand.value))
  }

  /** `map_postfix`: the operand error first, then the classifier's error;
      a juxtaposed argument goes through the nanopass, a call becomes
      `CApply`, and every other postfix wraps the operand unchanged. */
  function MapPostfix(operand: Result<Expr>, rule: Rule, ch: PostfixChildren): (r: Result<Expr>)
    requires IsPostfixRule(rule)
    ensures r.Ok? <==> operand.Ok? && ParsePostfix(rule, ch).Ok?
    ensures operand.Err? ==> r.error == operand.error
    ensures operand.Ok? && ParsePostfix(rule, ch).Err? ==> r.error == ParsePostfix(rule, ch).error
    ensures r.Ok? ==> !(r.value.Postfix? && IsEphemeral(r.value.postfix))
    ensures r.Ok? && rule == PostfixMlAppParam ==>
              r.value == HandleChurchEncoded(operand.value, ch.mlAppParam.value)
    ensures r.Ok? && rule == PostfixCAppParams ==>
              r.value == LiftCAppParams(operand.value, ch.cAppParams.value)
    ensures r.Ok? && rule != PostfixMlAppParam && rule != PostfixCAppParams ==>
              r.value.Postfix? && r.value.operand == operand.value
              && RuleOfPostfix(r.value.postfix) == rule && Carries(r.value.postfix, ch)
  {
    if operand.Err? then Err(operand.error)
    else
      var p := ParsePostfix(rule, ch);
      if p.Err? then Err(p.error)
      else match p.value
        case MlAppParam(pe) => Ok(HandleChurchEncoded(operand.value, pe))
        case CAppParams(body) => Ok(LiftCAppParams(operand.value, body))
        case _ => Ok(Postfix(p.value, operand.value))
  }

  /** `map_infix`: the left operand's error first, then the classifier's,
      then the right operand's; on success the operands stay in source order. */
  function MapInfix(lhs: Result<Expr>, rule: Rule, fnId: Result<Id>, rhs: Result<Expr>): (r: Result<Expr>)
    requires IsInfixRule(rule)
    ensures r.Ok? <==> lhs.Ok? && InfixFromPest(rule, fnId).Ok? && rhs.Ok?
    ensures lhs.Err? ==> r.error == lhs.error
    ensures lhs.Ok? && InfixFromPest(rule, fnId).Err? ==> r.error == fnId.error
    ensures lhs.Ok? && InfixFromPest(rule, fnId).Ok? && rhs.Err? ==> r.error == rhs.error
    ensures r.Ok? ==> r.value.Infix? && r.value.lhs == lhs.value && r.value.rhs == rhs.value
    ensures r.Ok? ==> RuleOfInfix(r.value.infix) == rule
  {
    if lhs.Err? then Err(lhs.error)
    else
      var op := InfixFromPest(rule, fnId);
      if op.Err? then Err(op.error)
      else if rhs.Err? then Err(rhs.error)
      else Ok(Infix(op.value, lhs.value, rhs.value))
  }

  /** One reduction the climber performs, with the conversions of the grammar
      nodes it consumes: a primary leaf, a prefix over an operand, a postfix
      over an operand, or an infix between two operands. */
  datatype Reduction =
    | ReducePrimary(leaf: Result<PrimaryLeaf>)
    | ReducePrefix(prefixRule: Rule, operand: Reduction)
    | ReducePostfix(operand: Reduction, postfixRule: Rule, children: PostfixChildren)
    | ReduceInfix(lhs: Reduction, infixRule: Rule, fnId: Result<Id>, rhs: Reduction)

  /** Every operator node carries a rule kind its classifier has an arm for
      (otherwise the classifier reaches `unreachable!()`). */
  predicate Classifiable(red: Reduction) {
    match red
    case ReducePrimary(_) => true
    case ReducePrefix(rule, x) => IsPrefixRule(rule) && Classifiable(x)
    case ReducePostfix(x, rule, _) => IsPostfixRule(rule) && Classifiable(x)
    case ReduceInfix(l, rule, _, rh) => IsInfixRule(rule) && Classifiable(l) && Classifiable(rh)
  }

  /** The callbacks composed along the reductions. */
  function Fold(red: Reduction): (r: Result<Expr>)
    requires Classifiable(red)
    ensures r.Ok? ==> !(r.value.Postfix? && IsEphemeral(r.value.postfix))
    ensures r.Ok? ==> (r.value.Primary? <==> red.ReducePrimary?)
    ensures r.Ok? && red.ReducePrefix? ==> r.value.Prefix?
    ensures r.Ok? && red.ReduceInfix? ==> r.value.Infix?
  {
    match red
    case ReducePrimary(leaf) => MapPrimary(leaf)
    case ReducePrefix(rule, x) => MapPrefix(rule, Fold(x))
    case ReducePostfix(x, rule, ch) => MapPostfix(Fold(x), rule, ch)
    case ReduceInfix(l, rule, id, rh) => MapInfix(Fold(l), rule, id, Fold(rh))
  }

  /** `Expr::from_pest`: an empty pair stream is `NoMatch`; otherwise the
      climb over the first pair's children. */
  function FromPest(first: Option<Reduction>): (r: Result<Expr>)
    requires first.Some? ==> Classifiable(first.value)
    ensures first.None? ==> r == Err(NoMatch)
    ensures first.Some? ==> r == Fold(first.value)
  {
    match first
    case None => Err(NoMatch)
    case Some(red) => Fold(red)
  }

  /** The sub-expressions the children conversions supplied are finished trees. */
  predicate ChildrenClean(ch: PostfixChildren) {
    && (ch.trinary.Ok? ==> NoEphemeral(ch.trinary.value.0) && NoEphemeral(ch.trinary.value.1))
    && (ch.slice.Ok? ==>
          && (ch.slice.value.0.Some? ==> NoEphemeral(ch.slice.value.0.value))
          && (ch.slice.value.1.Some? ==> NoEphemeral(ch.slice.value.1.value))
          && (ch.slice.value.2.Some? ==> NoEphemeral(ch.slice.value.2.value)))
    && (ch.index.Ok? ==> NoEphemeral(ch.index.value))
    && (ch.cAppParams.Ok? && ch.cAppParams.value.Some? ==> AllNoEphemeral(ch.cAppParams.value.value.params))
    && (ch.mlAppParam.Ok? ==> NoEphemeral(ch.mlAppParam.value))
  }

  predicate InputsClean(red: Reduction) {
    match red
    case ReducePrimary(_) => true
    case ReducePrefix(_, x) => InputsClean(x)
    case ReducePostfix(x, _, ch) => ChildrenClean(ch) && InputsClean(x)
    case ReduceInfix(l, _, _, rh) => InputsClean(l) && InputsClean(rh)
  }

  /** A postfix operator that is not ephemeral and carries clean children. */
  lemma PostfixPayloadClean(op: PostfixOp, ch: PostfixChildren, x: Expr)
    requires Carries(op, ch) && ChildrenClean(ch) && !IsEphemeral(op) && NoEphemeral(x)
    ensures NoEphemeral(Postfix(op, x))
  {
  }

  /** A finished tree holds no `CAppParams` or `MlAppParam` node, as long as
      the sub-expressions the grammar conversions supplied hold none. */
  lemma {:induction false} FoldNoEphemeral(red: Reduction)
    requires Classifiable(red) && InputsClean(red)
    ensures Fold(red).Ok? ==> NoEphemeral(Fold(red).value)
  {
    match red
    case ReducePrimary(_) =>
    case ReducePrefix(_, x) =>
      FoldNoEphemeral(x);
    case ReduceInfix(l, _, _, rh) =>
      FoldNoEphemeral(l);
      FoldNoEphemeral(rh);
    case ReducePostfix(x, rule, ch) =>
      FoldNoEphemeral(x);
      var r := Fold(red);
      if r.Ok? {
        var e := Fold(x).value;
        var op := ParsePostfix(rule, ch).value;
        if rule == PostfixMlAppParam {
          ChurchEncodedNoEphemeral(e, ch.mlAppParam.value);
        } else if rule == PostfixCAppParams {
        } else {
          assert r.value == Postfix(op, e);
          PostfixPayloadClean(op, ch, e);
        }
      }
  }

  /** Every error a conversion of the reductions can report. */
  function SuppliedErrors(red: Reduction): set<ConversionError> {
    match red
    case ReducePrimary(leaf) => if leaf.Err? then {leaf.error} else {}
    case ReducePrefix(_, x) => SuppliedErrors(x)
    case ReducePostfix(x, _, ch) => SuppliedErrors(x) + ChildErrors(ch)
    case ReduceInfix(l, _, id, rh) =>
      SuppliedErrors(l) + (if id.Err? then {id.error} else {}) + SuppliedErrors(rh)
  }

  function ChildErrors(ch: PostfixChildren): set<ConversionError> {
    (if ch.trinary.Err? then {ch.trinary.error} else {})
    + (if ch.slice.Err? then {ch.slice.error} else {})
    + (if ch.index.Err? then {ch.index.error} else {})
    + (if ch.access.Err? then {ch.access.error} else {})
    + (if ch.cAppParams.Err? then {ch.cAppParams.error} else {})
    + (if ch.mlAppParam.Err? then {ch.mlAppParam.error} else {})
  }

  /** Errors are passed on unchanged: a failed climb reports an error that one
      of the conversions it consumed reported; none is made up. */
  lemma {:induction false} FoldErrorsSupplied(red: Reduction)
    requires Classifiable(red)
    ensures Fold(red).Err? ==> Fold(red).error in SuppliedErrors(red)
  {
    match red
    case ReducePrimary(_) =>
    case ReducePrefix(_, x) =>
      FoldErrorsSupplied(x);
    case ReducePostfix(x, _, _) =>
      FoldErrorsSupplied(x);
    case ReduceInfix(l, _, _, rh) =>
      FoldErrorsSupplied(l);
      FoldErrorsSupplied(rh);
  }

  /** Worked reductions. The grammar (not part of this model) hands a
      juxtaposed argument over as the whole expression to its right, already
      converted; these are the trees the callbacks then build. */
  function LeafExpr(name: string): Expr {
    Primary(OpExpr(name))
  }

  function LeafReduction(name: string): Reduction {
    ReducePrimary(Ok(OpExpr(name)))
  }

  const NoChildren: PostfixChildren :=
    PostfixChildren(Err(NoMatch), Err(NoMatch), Err(NoMatch), Err(NoMatch), Err(NoMatch), Err(NoMatch))

  function Juxtapose(callee: Reduction, arg: Expr): Reduction {
    ReducePostfix(callee, PostfixMlAppParam, NoChildren.(mlAppParam := Ok(arg)))
  }

  function Call(callee: Reduction, body: Option<CParamsBody>): Reduction {
    ReducePostfix(callee, PostfixCAppParams, NoChildren.(cAppParams := Ok(body)))
  }

  /** `a b` is `MLApply(a, [b])`; `a b c` (argument `b c`) is the flat
      `MLApply(a, [b, c])`; `a b c ? 1 : 2` (argument `b c ? 1 : 2`) keeps the
      ternary outermost over `MLApply(a, [b, c])`. */
  lemma JuxtapositionExamples()
    ensures Fold(Juxtapose(LeafReduction("a"), LeafExpr("b")))
            == Ok(MLApply(LeafExpr("a"), [LeafExpr("b")]))
    ensures Fold(Juxtapose(LeafReduction("b"), LeafExpr("c")))
            == Ok(MLApply(LeafExpr("b"), [LeafExpr("c")]))
    ensures Fold(Juxtapose(LeafReduction("a"), MLApply(LeafExpr("b"), [LeafExpr("c")])))
            == Ok(MLApply(LeafExpr("a"), [LeafExpr("b"), LeafExpr("c")]))
    ensures Fold(Juxtapose(LeafReduction("a"),
                 Postfix(Trinary(LeafExpr("1"), LeafExpr("2")), MLApply(LeafExpr("b"), [LeafExpr("c")]))))
            == Ok(Postfix(Trinary(LeafExpr("1"), LeafExpr("2")),
                          MLApply(LeafExpr("a"), [LeafExpr("b"), LeafExpr("c")])))
  {
    assert [LeafExpr("b")] + [LeafExpr("c")] == [LeafExpr("b"), LeafExpr("c")];
  }

  /** `a(b, c)` is `CApply(a, [b, c])` and `a()` is `CApply(a, [])`. */
  lemma CallExamples()
    ensures Fold(Call(LeafReduction("a"), Some(CParamsBody([LeafExpr("b"), LeafExpr("c")]))))
            == Ok(CApply(LeafExpr("a"), [LeafExpr("b"), LeafExpr("c")]))
    ensures Fold(Call(LeafReduction("a"), None)) == Ok(CApply(LeafExpr("a"), []))
  {
  }
}
