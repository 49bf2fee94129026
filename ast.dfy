/** The expression tree: `Expr` (src/expr/mod.rs) and its operator types
    (src/expr/prefix.rs, src/expr/infix.rs, src/expr/postfix.rs). */
module Ast {
  import opened Wrappers
  import opened Ids

  /** A primary leaf. Operand expressions, lambdas, blocks, literals and
      patterns are conversions generated from the grammar; here they are
      opaque and keep only their source text. */
  datatype PrimaryLeaf = OpExpr(text: string) | Pattern(text: string)

  /** `Prefix` */
  datatype PrefixOp = Not | BitNot | Neg | Yield

  /** `Infix`: 25 payload-free operators and the named infix function `~id~`. */
  datatype InfixOp =
    | Add
    | AssignYield
    | Sub
    | Mul
    | Div
    | Mod
    | Eq
    | Neq
    | Extends
    | Le
    | Ge
    | Lt
    | Gt
    | And
    | Pipe
    | FindAndCallWithThis
    | Or
    | BitOr
    | BitAnd
    | BitXor
    | BitShiftL
    | BitShiftR
    | Function(fnId: Id)
    | Assign
    | MatchEquals
    | AssignSlot

  /** `CParamsBody`: the comma-separated arguments of a call. */
  datatype CParamsBody = CParamsBody(params: seq<Expr>)

  /** `Postfix`, with the payload structs written as constructor fields.
      `CAppParams` and `MlAppParam` are ephemeral: they exist only while a
      postfix is being reduced and never belong in a finished tree. */
  datatype PostfixOp =
    | Trinary(trueExpr: Expr, falseExpr: Expr)
    | Slice(start: Option<Expr>, end: Option<Expr>, step: Option<Expr>)
    | Index(index: Expr)
    | Access(id: Id)
    | CAppParams(body: Option<CParamsBody>)
    | MlAppParam(param: Expr)

  /** `Expr`. Dafny's equality on it is structural. Primary leaves compare by
      source text, which is finer than the derived `PartialEq`: that compares
      literal numbers and strings by value. */
  datatype Expr =
    | Prefix(prefix: PrefixOp, operand: Expr)
    | Primary(primary: PrimaryLeaf)
    | Postfix(postfix: PostfixOp, operand: Expr)
    | Infix(infix: InfixOp, lhs: Expr, rhs: Expr)
    | CApply(callee: Expr, args: seq<Expr>)
    | MLApply(callee: Expr, args: seq<Expr>)

  predicate IsEphemeral(op: PostfixOp) {
    op.CAppParams? || op.MlAppParam?
  }

  /** No `Postfix(CAppParams, _)` or `Postfix(MlAppParam, _)` node anywhere in
      `e`, including inside the payloads of the other postfix operators.
      Primary leaves are opaque and count as clean. */
  predicate NoEphemeral(e: Expr): (r: bool)
    ensures r && e.Postfix? ==> !IsEphemeral(e.postfix) && NoEphemeral(e.operand)
    ensures e.Primary? ==> r
  {
    match e
    case Prefix(_, x) => NoEphemeral(x)
    case Primary(_) => true
    case Postfix(op, x) =>
      && NoEphemeral(x)
      && (match op
         case Trinary(t, f) => NoEphemeral(t) && NoEphemeral(f)
         case Slice(s, en, st) =>
           && (s.Some? ==> NoEphemeral(s.value))
           && (en.Some? ==> NoEphemeral(en.value))
           && (st.Some? ==> NoEphemeral(st.value))
         case Index(i) => NoEphemeral(i)
         case Access(_) => true
         case CAppParams(_) => false
         case MlAppParam(_) => false)
    case Infix(_, l, r) => NoEphemeral(l) && NoEphemeral(r)
    case CApply(f, args) => NoEphemeral(f) && AllNoEphemeral(args)
    case MLApply(f, args) => NoEphemeral(f) && AllNoEphemeral(args)
  }

  predicate AllNoEphemeral(es: seq<Expr>) {
    forall i :: 0 <= i < |es| ==> NoEphemeral(es[i])
  }
}
