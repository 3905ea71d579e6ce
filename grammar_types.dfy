/**
 * The data the edit applicator consumes and produces: the match objects
 * of the grammar-checking service (only the fields the applicator reads)
 * and the issue and result records of the application.
 */
module GrammarTypes {

  /** One suggested replacement of a match; only its text is read. */
  datatype Replacement = Replacement(value: string)

  /**
   * A match, in original-text coordinates: the span starting at `offset`
   * and `length` code units long, the suggested replacements in the
   * service's order, and the explanatory message.
   */
  datatype Match = Match(offset: nat, length: nat, replacements: seq<Replacement>, message: string)

  /** A user-facing record of one applied match. */
  datatype GrammarIssue = GrammarIssue(kind: string, description: string, original: string, corrected: string)

  /** The fields of the correction result the applicator fills in. */
  datatype CorrectionResult = CorrectionResult(original: string, corrected: string, issues: seq<GrammarIssue>)

  /** The category every issue the applicator emits carries. */
  const GrammarError: string := "Grammar Error"

  /** A match takes part only when it offers at least one replacement. */
  predicate HasReplacement(m: Match) {
    |m.replacements| > 0
  }

  /** The replacement the applicator uses: the first one offered. */
  function FirstReplacement(m: Match): string
    requires HasReplacement(m)
  {
    m.replacements[0].value
  }
}
