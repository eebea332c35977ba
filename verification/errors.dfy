/** The errors the resolution engine reports. */
module Errors {
  import opened Values

  /** Message of the error behind the "not a number" diagnostic. */
  const NotANumber: string := "not a number"

  /** Message of the error behind the "not a boolean" diagnostic. */
  const NotBoolean: string := "not y, n, yes, or no"

  /**
   * A chosen value whose type cannot be stored in the destination: a plain
   * value carrying the destination's type and the chosen value's type,
   * compared field by field.
   */
  datatype NotAssignableError = NotAssignableError(destination: Type, value: Type)

  /** The diagnostic line printed for a selection that cannot be used. */
  function InvalidSelection(reason: string): string
  {
    "invalid selection (" + reason + ")\r\n"
  }

  /** The diagnostic line printed for an answer that is not a boolean. */
  function InvalidInput(reason: string): string
  {
    "invalid input (" + reason + ")\r\n"
  }

  /** The two diagnostics quote the two error messages verbatim. */
  lemma DiagnosticTexts()
    ensures InvalidSelection(NotANumber) == "invalid selection (not a number)\r\n"
    ensures InvalidInput(NotBoolean) == "invalid input (not y, n, yes, or no)\r\n"
  {
  }
}
