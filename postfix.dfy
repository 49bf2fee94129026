/** The postfix classifier `parse_postfix` (src/expr/postfix.rs). */
module Postfixes {
  import opened Wrappers
  import opened Ids
  import opened Rules
  import opened Ast

  /** The results of the derived conversions of a postfix node's children,
      one per payload struct: `Trinary`, `Slice`, `Index`, `Access`,
      `CAppParams` and `MlAppParam`. The derived code is not part of this
      model; the classifier only picks which of them to use. */
  datatype PostfixChildren = PostfixChildren(
    trinary: Result<(Expr, Expr)>,
    slice: Result<(Option<Expr>, Option<Expr>, Option<Expr>)>,
    index: Result<Expr>,
    access: Result<Id>,
    cAppParams: Result<Option<CParamsBody>>,
    mlAppParam: Result<Expr>)

  /** The six rule kinds `parse_postfix` has an arm for. */
  predicate IsPostfixRule(rule: Rule) {
    rule in {PostfixTrinaryOp, PostfixSlice, PostfixIndex, PostfixAccess,
             PostfixCAppParams, PostfixMlAppParam}
  }

  /** The grammar rule each payload struct is derived from
      (its `#[pest_ast(rule(...))]` attribute). */
  function RuleOfPostfix(op: PostfixOp): (rule: Rule)
    ensures IsPostfixRule(rule)
  {
    match op
    case Trinary(_, _) => PostfixTrinaryOp
    case Slice(_, _, _) => PostfixSlice
    case Index(_) => PostfixIndex
    case Access(_) => PostfixAccess
    case CAppParams(_) => PostfixCAppParams
    case MlAppParam(_) => PostfixMlAppParam
  }

  /** The operator carries exactly the payload its struct's conversion gave. */
  predicate Carries(op: PostfixOp, ch: PostfixChildren) {
    match op
    case Trinary(t, f) => ch.trinary == Ok((t, f))
    case Slice(s, e, st) => ch.slice == Ok((s, e, st))
    case Index(i) => ch.index == Ok(i)
    case Access(id) => ch.access == Ok(id)
    case CAppParams(b) => ch.cAppParams == Ok(b)
    case MlAppParam(p) => ch.mlAppParam == Ok(p)
  }

  /** The error, if any, of the conversion that the struct for `rule` performs. */
  function FailedConversion(rule: Rule, ch: PostfixChildren): Option<ConversionError>
    requires IsPostfixRule(rule)
  {
    var failed := match rule
      case PostfixTrinaryOp => if ch.trinary.Err? then Some(ch.trinary.error) else None
      case PostfixSlice => if ch.slice.Err? then Some(ch.slice.error) else None
      case PostfixIndex => if ch.index.Err? then Some(ch.index.error) else None
      case PostfixAccess => if ch.access.Err? then Some(ch.access.error) else None
      case PostfixCAppParams => if ch.cAppParams.Err? then Some(ch.cAppParams.error) else None
      case PostfixMlAppParam => if ch.mlAppParam.Err? then Some(ch.mlAppParam.error) else None;
    failed
  }

  /** `parse_postfix`: each of the six postfix rule kinds becomes the variant of
      the same name, carrying its struct's converted payload; a failed
      conversion is passed on. Any other rule kind is `unreachable!()`. */
  function ParsePostfix(rule: Rule, ch: PostfixChildren): (r: Result<PostfixOp>)
    requires IsPostfixRule(rule)
    ensures r.Ok? ==> RuleOfPostfix(r.value) == rule && Carries(r.value, ch)
    ensures r.Err? <==> FailedConversion(rule, ch).Some?
    ensures r.Err? ==> FailedConversion(rule, ch) == Some(r.error)
  {
    match rule
    case PostfixTrinaryOp =>
      if ch.trinary.Ok? then Ok(Trinary(ch.trinary.value.0, ch.trinary.value.1))
      else Err(ch.trinary.error)
    case PostfixSlice =>
      if ch.slice.Ok? then Ok(Slice(ch.slice.value.0, ch.slice.value.1, ch.slice.value.2))
      else Err(ch.slice.error)
    case PostfixIndex =>
      if ch.index.Ok? then Ok(Index(ch.index.value)) else Err(ch.index.error)
    case PostfixAccess =>
      if ch.access.Ok? then Ok(Access(ch.access.value)) else Err(ch.access.error)
    case PostfixCAppParams =>
      if ch.cAppParams.Ok? then Ok(CAppParams(ch.cAppParams.value)) else Err(ch.cAppParams.error)
    case PostfixMlAppParam =>
      if ch.mlAppParam.Ok? then Ok(MlAppParam(ch.mlAppParam.value)) else Err(ch.mlAppParam.error)
  }

  /** Distinct rule kinds never classify to the same operator. */
  lemma ParsePostfixInjective(a: Rule, b: Rule, ca: PostfixChildren, cb: PostfixChildren)
    requires IsPostfixRule(a) && IsPostfixRule(b)
    requires ParsePostfix(a, ca).Ok? && ParsePostfix(b, cb).Ok?
    requires ParsePostfix(a, ca).value == ParsePostfix(b, cb).value
    ensures a == b
  {
  }

  /** Every postfix variant is produced by the classifier, from the rule kind
      of its own struct and the children that carry its payload: the
      classifier's domain is exactly the six postfix kinds and it is onto. */
  lemma ParsePostfixOnto(op: PostfixOp, ch: PostfixChildren)
    requires Carries(op, ch)
    ensures ParsePostfix(RuleOfPostfix(op), ch) == Ok(op)
  {
  }
}
