/** The application nanopass (src/expr/church_encoded.rs): what replaces a
    reduced `CAppParams` or `MlAppParam` postfix. */
module ChurchEncoded {
  import opened Wrappers
  import opened Ast

  /** The chain of juxtaposed terms an expression stands for when it is the
      pending argument of a juxtaposition: an `MLApply` contributes its callee
      followed by its arguments, anything else is a single term. */
  function Chain(x: Expr): (c: seq<Expr>)
    ensures |c| >= 1
  {
    if x.MLApply? then [x.callee] + x.args else [x]
  }

  /** `handle_expr_lift_c_params`: a call keeps its argument list as it is. */
  function LiftCParams(e: Expr, body: CParamsBody): (r: Expr)
    ensures r.CApply? && r.callee == e && r.args == body.params
    ensures NoEphemeral(r) <==> NoEphemeral(e) && AllNoEphemeral(body.params)
  {
    CApply(e, body.params)
  }

  /** The call-style reduction lifted over the optional body of `CAppParams`:
      an absent body (`f()`) is a call with no arguments. */
  function LiftCAppParams(e: Expr, body: Option<CParamsBody>): (r: Expr)
    ensures r.CApply? && r.callee == e
    ensures body.None? ==> r.args == []
    ensures body.Some? ==> r.args == body.value.params
    ensures NoEphemeral(r) <==> NoEphemeral(e) && (body.Some? ==> AllNoEphemeral(body.value.params))
  {
    match body
    case None => LiftCParams(e, CParamsBody([]))
    case Some(b) => LiftCParams(e, b)
  }

  /** `handle_mlapply`: a pending `MLApply(c, p)` continues the chain and is
      flattened into `MLApply(e, [c] + p)`; anything else becomes the single
      argument of `MLApply(e, [pending])`. */
  function HandleMlApply(e: Expr, pending: Expr): (r: Expr)
    ensures r.MLApply? && r.callee == e
    ensures r.args == Chain(pending)
    ensures pending.MLApply? ==> |r.args| == 1 + |pending.args| && r.args[0] == pending.callee
    ensures !pending.MLApply? ==> r.args == [pending]
  {
    match pending
    case MLApply(c, p) => MLApply(e, [c] + p)
    case _ => MLApply(e, [pending])
  }

  /** Applying `e` puts it in front of the pending chain, order kept. */
  lemma ChainOfMlApply(e: Expr, pending: Expr)
    ensures Chain(HandleMlApply(e, pending)) == [e] + Chain(pending)
  {
  }

  predicate IsTrinary(x: Expr) {
    x.Postfix? && x.postfix.Trinary?
  }

  /** `handle_infix`: when the pending argument is `Infix(i, l, r)`, the new
      application attaches to the left operand `l` only (flattened when `l` is
      an `MLApply`); operator and right operand are kept. */
  function HandleInfix(e: Expr, pending: Expr): (r: Option<Expr>)
    ensures r.Some? <==> pending.Infix?
    ensures r.Some? ==> r.value.Infix? && r.value.infix == pending.infix && r.value.rhs == pending.rhs
    ensures r.Some? ==> r.value.lhs.MLApply? && r.value.lhs.callee == e && r.value.lhs.args == Chain(pending.lhs)
  {
    match pending
    case Infix(i, c, ce) => Some(Infix(i, HandleMlApply(e, c), ce))
    case _ => None
  }

  /** `handle_postfix_trinary`: when the pending argument is a ternary over
      `cond`, the new application attaches to `cond` (flattened when `cond`
      is an `MLApply`); both branches are kept. */
  function HandlePostfixTrinary(e: Expr, pending: Expr): (r: Option<Expr>)
    ensures r.Some? <==> IsTrinary(pending)
    ensures r.Some? ==> IsTrinary(r.value) && r.value.postfix == pending.postfix
    ensures r.Some? ==> r.value.operand.MLApply? && r.value.operand.callee == e
    ensures r.Some? ==> r.value.operand.args == Chain(pending.operand)
  {
    match pending
    case Postfix(Trinary(t, f), c) => Some(Postfix(Trinary(t, f), HandleMlApply(e, c)))
    case _ => None
  }

  /** `handle_expr_church_encoded`: try the ternary rewrite, then the infix
      rewrite, then plain application. */
  function HandleChurchEncoded(e: Expr, pending: Expr): (r: Expr)
    ensures IsTrinary(r) <==> IsTrinary(pending)
    ensures r.Infix? <==> pending.Infix?
    ensures r.MLApply? <==> !IsTrinary(pending) && !pending.Infix?
    ensures !r.CApply? && !r.Prefix? && !r.Primary?
  {
    var t := HandlePostfixTrinary(e, pending);
    if t.Some? then t.value
    else
      var i := HandleInfix(e, pending);
      if i.Some? then i.value else HandleMlApply(e, pending)
  }

  /** Only one wrapper is looked through: an infix left operand that is
      itself an infix becomes one argument and is not descended into. */
  lemma OneLevelOnly(e: Expr, i: InfixOp, j: InfixOp, a: Expr, b: Expr, c: Expr)
    ensures HandleChurchEncoded(e, Infix(i, Infix(j, a, b), c))
            == Infix(i, MLApply(e, [Infix(j, a, b)]), c)
  {
  }

  /** The same for a ternary whose condition is itself a ternary. */
  lemma OneLevelOnlyTrinary(e: Expr, t: Expr, f: Expr, t': Expr, f': Expr, c: Expr)
    ensures HandleChurchEncoded(e, Postfix(Trinary(t, f), Postfix(Trinary(t', f'), c)))
            == Postfix(Trinary(t, f), MLApply(e, [Postfix(Trinary(t', f'), c)]))
  {
  }

  /** No ephemeral postfix node is introduced by the application rewrite. */
  lemma {:induction false} ChurchEncodedNoEphemeral(e: Expr, pending: Expr)
    requires NoEphemeral(e) && NoEphemeral(pending)
    ensures NoEphemeral(HandleChurchEncoded(e, pending))
  {
    var r := HandleChurchEncoded(e, pending);
    if IsTrinary(pending) {
      MlApplyNoEphemeral(e, pending.operand);
    } else if pending.Infix? {
      MlApplyNoEphemeral(e, pending.lhs);
    } else {
      MlApplyNoEphemeral(e, pending);
    }
  }

  lemma {:induction false} MlApplyNoEphemeral(e: Expr, pending: Expr)
    requires NoEphemeral(e) && NoEphemeral(pending)
    ensures NoEphemeral(HandleMlApply(e, pending))
  {
    var args := Chain(pending);
    if pending.MLApply? {
      forall k | 0 <= k < |args| ensures NoEphemeral(args[k]) {
        if k > 0 {
          assert args[k] == pending.args[k - 1];
        }
      }
    }
  }

  /** A fully recursive variant of the nanopass: descend through every infix
      left operand and ternary condition, then apply. The code inspects only
      the outermost wrapper; this definition is the reference it is compared
      with. */
  function Reassociate(e: Expr, pending: Expr): (r: Expr)
    ensures IsTrinary(r) <==> IsTrinary(pending)
    ensures r.Infix? <==> pending.Infix?
  {
    match pending
    case Postfix(Trinary(t, f), c) => Postfix(Trinary(t, f), Reassociate(e, c))
    case Infix(i, l, rhs) => Infix(i, Reassociate(e, l), rhs)
    case _ => HandleMlApply(e, pending)
  }

  /** The pending argument has a wrapper directly inside its outer wrapper. */
  predicate NestedWrapper(pending: Expr) {
    || (IsTrinary(pending) && (IsTrinary(pending.operand) || pending.operand.Infix?))
    || (pending.Infix? && (IsTrinary(pending.lhs) || pending.lhs.Infix?))
  }

  /** The nanopass agrees with the fully recursive variant exactly when
      the pending argument has no wrapper nested inside its outer wrapper. */
  lemma {:induction false} AgreesWithReassociate(e: Expr, pending: Expr)
    ensures HandleChurchEncoded(e, pending) == Reassociate(e, pending) <==> !NestedWrapper(pending)
  {
    var r := HandleChurchEncoded(e, pending);
    if IsTrinary(pending) {
      var c := pending.operand;
      if IsTrinary(c) || c.Infix? {
        assert IsTrinary(Reassociate(e, c)) || Reassociate(e, c).Infix?;
        assert r.operand.MLApply?;
        assert Reassociate(e, pending).operand == Reassociate(e, c);
      } else {
        assert Reassociate(e, c) == HandleMlApply(e, c);
      }
    } else if pending.Infix? {
      var l := pending.lhs;
      if IsTrinary(l) || l.Infix? {
        assert IsTrinary(Reassociate(e, l)) || Reassociate(e, l).Infix?;
        assert r.lhs.MLApply?;
        assert Reassociate(e, pending).lhs == Reassociate(e, l);
      } else {
        assert Reassociate(e, l) == HandleMlApply(e, l);
      }
    }
  }

  /** The recursive variant on `a (b + c + d)` (left-associative `+`) attaches
      `a` to `b` alone; the nanopass attaches it to `b + c`. */
  lemma ReassociateDiffersOnNestedInfix(a: Expr, b: Expr, c: Expr, d: Expr)
    requires !b.Infix? && !IsTrinary(b) && !b.MLApply?
    ensures Reassociate(a, Infix(Add, Infix(Add, b, c), d))
            == Infix(Add, Infix(Add, MLApply(a, [b]), c), d)
    ensures HandleChurchEncoded(a, Infix(Add, Infix(Add, b, c), d))
            == Infix(Add, MLApply(a, [Infix(Add, b, c)]), d)
  {
    assert Reassociate(a, b) == MLApply(a, [b]);
    assert Reassociate(a, Infix(Add, b, c)) == Infix(Add, MLApply(a, [b]), c);
  }
}
