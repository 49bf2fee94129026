/** The prefix classifier `Prefix::from_pest` (src/expr/prefix.rs). */
module Prefixes {
  import opened Rules
  import opened Ast

  /** The four rule kinds `Prefix::from_pest` has an arm for.
      `PrefixAnnotativeMacroCall` is not among them, although the precedence
      table admits it. */
  predicate IsPrefixRule(rule: Rule) {
    rule in {PrefixNot, PrefixBitNot, PrefixNeg, PrefixYield}
  }

  /** The rule kind whose arm yields each operator. */
  function RuleOfPrefix(op: PrefixOp): (rule: Rule)
    ensures IsPrefixRule(rule)
  {
    match op
    case Not => PrefixNot
    case BitNot => PrefixBitNot
    case Neg => PrefixNeg
    case Yield => PrefixYield
  }

  /** `Prefix::from_pest`: never fails on the four kinds; any other kind is
      `unreachable!()`. Classifying undoes `RuleOfPrefix`. */
  function PrefixFromPest(rule: Rule): (op: PrefixOp)
    requires IsPrefixRule(rule)
    ensures RuleOfPrefix(op) == rule
  {
    match rule
    case PrefixNot => Not
    case PrefixBitNot => BitNot
    case PrefixNeg => Neg
    case PrefixYield => Yield
  }

  /** The classifier is a bijection between the four prefix rule kinds and the
      four variants: it is the inverse of `RuleOfPrefix` on both sides. */
  lemma {:induction false} PrefixBijection(op: PrefixOp, rule: Rule)
    ensures PrefixFromPest(RuleOfPrefix(op)) == op
    ensures IsPrefixRule(rule) ==> RuleOfPrefix(PrefixFromPest(rule)) == rule
  {
    match op
    case Not =>
    case BitNot =>
    case Neg =>
    case Yield =>
  }

  /** The classifier tests: `!`, `~`, `-` and `<-` are Not, BitNot, Neg, Yield. */
  lemma PrefixExamples()
    ensures PrefixFromPest(PrefixNot) == Not
    ensures PrefixFromPest(PrefixBitNot) == BitNot
    ensures PrefixFromPest(PrefixNeg) == Neg
    ensures PrefixFromPest(PrefixYield) == Yield
  {
  }
}
