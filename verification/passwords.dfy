/** The secret-text variant: the current value is never shown, only whether there is one. */
module Passwords {
  import opened Values
  import opened Steps

  /** ` ()` with no default, ` (has default)` with one, nothing when required. */
  function Suffix(current: string, required: bool): string
  {
    if required then "" else if current == "" then " ()" else " (has default)"
  }

  /**
   * The decision on one line (the blank-line rule of Required is applied by
   * the loop): every line is accepted; typed text is taken verbatim and a
   * blank line keeps the current secret.
   */
  function Decide(current: string, line: string): (st: Step)
    ensures st.Commit? && st.value.Password?
    ensures line != "" ==> st.value.secret == line
    ensures line == "" ==> st.value.secret == current
    ensures st.value.secret == "" <==> line == "" && current == ""
  {
    if line == "" then Commit(Password(current)) else Commit(Password(line))
  }
}
