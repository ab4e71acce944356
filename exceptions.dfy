/** The exceptions the plugin's code can raise, as values. */
module Exceptions {

  datatype Fault =
      /** A `NullPointerException`: a missing XML node or attribute, a null
          content array, a null revision constraint, or a build type without a
          loadable descriptor. */
    | NullPointer
      /** An `XPathExpressionException`: the descriptor bytes are not a
          well-formed XML document. */
    | XPathError
      /** An `IOException` while reading an artifact's stream. */
    | IoError
      /** A `PatternSyntaxException`: a quantifier with nothing to repeat. */
    | PatternSyntax
      /** A revision constraint that uses regular-expression syntax outside the
          subset this model interprets (see module RevisionPattern). */
    | PatternUnsupported
}
