/** The boolean variant: `y`/`yes`/`n`/`no`, with the default marked by a capital letter. */
module Bools {
  import opened Wrappers
  import opened Values
  import opened Errors
  import opened Steps

  /** The answer a line spells, if any. */
  function Answer(line: string): Option<bool>
  {
    if line == "y" || line == "yes" then Some(true)
    else if line == "n" || line == "no" then Some(false)
    else None
  }

  /** `[Yn]` or `[yN]` capitalise the default; `[yn]` when an answer is required. */
  function Suffix(current: bool, required: bool): string
  {
    if required then " [yn]" else if current then " [Yn]" else " [yN]"
  }

  /**
   * The decision on one line (the blank-line rule of Required is applied by
   * the loop): exactly the blank line and the four answers are accepted, an
   * answer means true exactly when it starts with `y`, and anything else is
   * refused with the not-a-boolean diagnostic.
   */
  function Decide(current: bool, line: string): (st: Step)
    ensures !st.Abort?
    ensures st.Commit? <==> line == "" || line == "y" || line == "yes" || line == "n" || line == "no"
    ensures st.Commit? ==> st.value.Bool?
    ensures line == "" ==> st == Commit(Bool(current))
    ensures st.Commit? && line != "" ==> (st.value.b <==> line[0] == 'y')
    ensures st.Retry? ==> st.diagnostic == InvalidInput(NotBoolean)
  {
    if line == "" then Commit(Bool(current))
    else
      match Answer(line)
      case Some(b) => Commit(Bool(b))
      case None => Retry(InvalidInput(NotBoolean))
  }
}
