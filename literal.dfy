/** Boolean literals (src/literal/mod.rs). */
module Literals {
  /** The only texts the `boolean` rule matches. */
  predicate IsBoolText(s: string) {
    s == "true" || s == "false"
  }

  /** `parse_bool`: `true` is true and `false` is false; no other text
      reaches it. */
  function ParseBool(s: string): (b: bool)
    requires IsBoolText(s)
    ensures b <==> s == "true"
  {
    s == "true"
  }

  /** The `Boolean` node holds the parsed value. */
  datatype Boolean = Boolean(value: bool)

  /** The `Boolean` conversion: the node's value is `parse_bool` of its text. */
  function BooleanOf(s: string): (b: Boolean)
    requires IsBoolText(s)
    ensures b.value <==> s == "true"
    ensures BoolText(b.value) == s
  {
    Boolean(ParseBool(s))
  }

  /** Rendering a value as its keyword and parsing it back gives the value. */
  function BoolText(b: bool): (s: string)
    ensures IsBoolText(s)
  {
    if b then "true" else "false"
  }

  lemma ParseBoolRoundTrip(b: bool, s: string)
    ensures ParseBool(BoolText(b)) == b
    ensures IsBoolText(s) ==> BoolText(ParseBool(s)) == s
  {
  }
}
