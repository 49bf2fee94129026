/** The eclipse (rest) pattern `...name` (src/pattern/mod.rs). */
module Patterns {
  import opened Ids

  datatype EclipsePattern = EclipsePattern(value: Id)

  /** What the conversion needs: the matched text is at least three
      characters long and they are single-byte, so cutting after the third
      byte cuts after the third character. The grammar puts `...` there. */
  predicate EclipseText(s: string) {
    |s| >= 3 && s[0] < 128 as char && s[1] < 128 as char && s[2] < 128 as char
  }

  /** The `eclipse_pattern` conversion: the text after the first three
      characters becomes a plain identifier. */
  function EclipseFromPest(s: string): (p: EclipsePattern)
    requires EclipseText(s)
    ensures p.value.NormalId? && s[..3] + Value(p.value) == s
  {
    EclipsePattern(NormalId(s[3..]))
  }

  /** Writing `...` before a name and converting gives back the name. */
  lemma EclipseRoundTrip(name: string)
    ensures EclipseText("..." + name)
    ensures Value(EclipseFromPest("..." + name).value) == name
  {
    assert ("..." + name)[3..] == name;
  }

  /** The pattern test: `...a` names `a`. */
  lemma EclipseExample()
    ensures EclipseText("...a") && Value(EclipseFromPest("...a").value) == "a"
  {
    EclipseRoundTrip("a");
    assert "..." + "a" == "...a";
  }
}
