/** The rule kinds of the grammar that the expression core dispatches on.
    The grammar itself is not part of this model; every rule kind that is not
    an operator is represented by `OtherRule`, named by its grammar name. */
module Rules {

  datatype Rule =
    // prefix operators
    | PrefixAnnotativeMacroCall
    | PrefixYield
    | PrefixNot
    | PrefixNeg
    | PrefixBitNot
    // infix operators
    | InfixAssign
    | InfixSet
    | InfixAssignYield
    | InfixAssignSlot
    | InfixMatchEquals
    | InfixPipe
    | InfixFindAndCallWithThis
    | InfixFunction
    | InfixExtends
    | InfixOr
    | InfixAnd
    | InfixBitOr
    | InfixBitXor
    | InfixBitAnd
    | InfixEq
    | InfixNeq
    | InfixLt
    | InfixGt
    | InfixLe
    | InfixGe
    | InfixBitShiftL
    | InfixBitShiftR
    | InfixAdd
    | InfixSub
    | InfixMul
    | InfixDiv
    | InfixMod
    // postfix operators
    | PostfixTrinaryOp
    | PostfixMlAppParam
    | PostfixSlice
    | PostfixIndex
    | PostfixAccess
    | PostfixCAppParams
    // any other grammar rule (primary, literal, pattern, ...)
    | OtherRule(name: string)
}
