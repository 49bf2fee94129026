/** The infix classifier `Infix::from_pest` (src/expr/infix.rs). */
module Infixes {
  import opened Wrappers
  import opened Ids
  import opened Rules
  import opened Ast

  /** The 26 rule kinds `Infix::from_pest` has an arm for. `InfixSet` is not
      among them, although the precedence table admits it. */
  predicate IsInfixRule(rule: Rule) {
    rule in {InfixAdd, InfixAssignYield, InfixSub, InfixMul, InfixDiv, InfixMod,
             InfixEq, InfixNeq, InfixExtends, InfixLe, InfixGe, InfixLt, InfixGt,
             InfixAnd, InfixPipe, InfixFindAndCallWithThis, InfixOr, InfixBitOr,
             InfixBitAnd, InfixBitXor, InfixBitShiftL, InfixBitShiftR,
             InfixFunction, InfixAssign, InfixMatchEquals, InfixAssignSlot}
  }

  /** The rule kind whose arm yields each operator. */
  function RuleOfInfix(op: InfixOp): (rule: Rule)
    ensures IsInfixRule(rule)
    ensures rule == InfixFunction <==> op.Function?
  {
    match op
    case Add => InfixAdd
    case AssignYield => InfixAssignYield
    case Sub => InfixSub
    case Mul => InfixMul
    case Div => InfixDiv
    case Mod => InfixMod
    case Eq => InfixEq
    case Neq => InfixNeq
    case Extends => InfixExtends
    case Le => InfixLe
    case Ge => InfixGe
    case Lt => InfixLt
    case Gt => InfixGt
    case And => InfixAnd
    case Pipe => InfixPipe
    case FindAndCallWithThis => InfixFindAndCallWithThis
    case Or => InfixOr
    case BitOr => InfixBitOr
    case BitAnd => InfixBitAnd
    case BitXor => InfixBitXor
    case BitShiftL => InfixBitShiftL
    case BitShiftR => InfixBitShiftR
    case Function(_) => InfixFunction
    case Assign => InfixAssign
    case MatchEquals => InfixMatchEquals
    case AssignSlot => InfixAssignSlot
  }

  /** `Infix::from_pest`. `fnId` is the conversion of the `infix_function`
      node's child into an `Id`, consulted only for that rule kind. Any other
      rule kind is `unreachable!()`. */
  function InfixFromPest(rule: Rule, fnId: Result<Id>): (r: Result<InfixOp>)
    requires IsInfixRule(rule)
    ensures r.Ok? ==> RuleOfInfix(r.value) == rule
    ensures r.Err? <==> rule == InfixFunction && fnId.Err?
    ensures r.Err? ==> r.error == fnId.error
    ensures r.Ok? && rule == InfixFunction ==> r.value == Function(fnId.value)
  {
    match rule
    case InfixAdd => Ok(Add)
    case InfixAssignYield => Ok(AssignYield)
    case InfixSub => Ok(Sub)
    case InfixMul => Ok(Mul)
    case InfixDiv => Ok(Div)
    case InfixMod => Ok(Mod)
    case InfixEq => Ok(Eq)
    case InfixNeq => Ok(Neq)
    case InfixExtends => Ok(Extends)
    case InfixLe => Ok(Le)
    case InfixGe => Ok(Ge)
    case InfixLt => Ok(Lt)
    case InfixGt => Ok(Gt)
    case InfixAnd => Ok(And)
    case InfixPipe => Ok(Pipe)
    case InfixFindAndCallWithThis => Ok(FindAndCallWithThis)
    case InfixOr => Ok(Or)
    case InfixBitOr => Ok(BitOr)
    case InfixBitAnd => Ok(BitAnd)
    case InfixBitXor => Ok(BitXor)
    case InfixBitShiftL => Ok(BitShiftL)
    case InfixBitShiftR => Ok(BitShiftR)
    case InfixFunction => if fnId.Ok? then Ok(Function(fnId.value)) else Err(fnId.error)
    case InfixAssign => Ok(Assign)
    case InfixMatchEquals => Ok(MatchEquals)
    case InfixAssignSlot => Ok(AssignSlot)
  }

  /** Distinct rule kinds never classify to the same operator. */
  lemma InfixFromPestInjective(a: Rule, b: Rule, ia: Result<Id>, ib: Result<Id>)
    requires IsInfixRule(a) && IsInfixRule(b)
    requires InfixFromPest(a, ia).Ok? && InfixFromPest(b, ib).Ok?
    requires InfixFromPest(a, ia).value == InfixFromPest(b, ib).value
    ensures a == b
  {
  }

  /** Every operator comes out of its own arm: the classifier is onto the 26
      variants, and `Function(id)` comes from `infix_function` with `id`. */
  lemma {:induction false} InfixFromPestOnto(op: InfixOp)
    ensures InfixFromPest(RuleOfInfix(op), Ok(if op.Function? then op.fnId else NormalId(""))) == Ok(op)
  {
    match op
    case Function(id) =>
    case _ =>
  }

  /** The two classifier tests: `+` is `Add`, and `~id~` is the named infix
      function whose child converts to the normal id `id`. */
  lemma InfixExamples()
    ensures InfixFromPest(InfixAdd, Err(NoMatch)) == Ok(Add)
    ensures InfixFromPest(InfixFunction, Ok(NormalId("id"))) == Ok(Function(NormalId("id")))
  {
  }
}
