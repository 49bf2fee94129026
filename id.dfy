/** Identifiers: `src/id.rs`. */
module Ids {

  /** The three identifier kinds; each stores the text of its grammar node. */
  datatype Id =
    | NormalId(text: string)
    | MacroId(text: string)
    | MagicFnId(text: string)

  /** `Id::value`: the stored text, whichever kind of identifier holds it. */
  function Value(id: Id): (r: string)
    ensures id.NormalId? ==> r == id.text
    ensures id.MacroId? ==> r == id.text
    ensures id.MagicFnId? ==> r == id.text
  {
    match id
    case NormalId(s) => s
    case MacroId(s) => s
    case MagicFnId(s) => s
  }

  /** `value` never alters the text: building an identifier of any kind
      from a string and taking its value gives that string back. */
  lemma ValueRoundTrip(s: string)
    ensures Value(NormalId(s)) == s
    ensures Value(MacroId(s)) == s
    ensures Value(MagicFnId(s)) == s
  {
  }
}
