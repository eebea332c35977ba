/**
 * The retry loop shared by every variant: write the prompt, read one line,
 * decide, and then commit, re-prompt (with or without a diagnostic) or stop.
 * The destination is a value that the loop either replaces once, on commit,
 * or hands back unchanged.
 */
module Resolver {
  import opened Wrappers
  import opened Values
  import opened Errors
  import opened Lines
  import opened Steps
  import Choices
  import Bools
  import Passwords

  /** What the caller asks: the prompt text and the (possibly empty) choices. */
  datatype Interaction = Interaction(prompt: string, choices: seq<Choices.Choice>)

  /** The destination cell's current value, and whether a Required wrapper is around it. */
  datatype Destination = Destination(value: Value, required: bool)

  datatype Outcome =
    | Resolved                           // a value was committed
    | EndOfInput                         // the input ended before a line was accepted
    | NotAssignable(error: NotAssignableError)

  /** The transcript written, the destination's final value, and the outcome. */
  datatype Resolution = Resolution(output: string, final: Value, outcome: Outcome)

  datatype Kind = ChoiceKind | BoolKind | PasswordKind

  /** The destinations the modelled variants resolve into. */
  predicate Supported(it: Interaction, dst: Destination)
  {
    |it.choices| > 0 || dst.value.Bool? || dst.value.Password?
  }

  /** Choices take precedence; otherwise the destination's type selects the variant. */
  function KindOf(it: Interaction, dst: Destination): Kind
    requires Supported(it, dst)
  {
    if |it.choices| > 0 then ChoiceKind
    else if dst.value.Bool? then BoolKind
    else PasswordKind
  }

  function Suffix(it: Interaction, dst: Destination): string
    requires Supported(it, dst)
  {
    match KindOf(it, dst)
    case ChoiceKind => Choices.Suffix(it.choices, dst.value, dst.required)
    case BoolKind => Bools.Suffix(dst.value.b, dst.required)
    case PasswordKind => Passwords.Suffix(dst.value.secret, dst.required)
  }

  /** The prompt written before every read. */
  function PromptLine(it: Interaction, dst: Destination): string
    requires Supported(it, dst)
  {
    it.prompt + Suffix(it, dst) + ": "
  }

  /**
   * What one read leaves on the output after the prompt: the echoed line
   * (nothing for a secret) and the line break.
   */
  function Echo(it: Interaction, dst: Destination, line: string): string
    requires Supported(it, dst)
  {
    (if KindOf(it, dst) == PasswordKind then "" else line) + CRLF
  }

  /**
   * Required turns a blank line into a silent retry; every other line is
   * decided by the variant the destination selects. Only a blank line is
   * refused silently; without Required a blank line keeps the destination's
   * value unless it is a choice set with no match; a committed value keeps
   * the destination's type; and only a typed choice selection can abort.
   */
  function Decide(it: Interaction, dst: Destination, line: string): (st: Step)
    requires Supported(it, dst)
    ensures dst.required && line == "" ==> st == Retry("")
    ensures st == Retry("") ==> line == ""
    ensures !dst.required && line == "" ==>
              st == Commit(dst.value) || (KindOf(it, dst) == ChoiceKind && st == Retry(""))
    ensures st.Commit? ==> TypeOf(st.value) == TypeOf(dst.value)
    ensures st.Abort? ==> KindOf(it, dst) == ChoiceKind && line != ""
    ensures !dst.required && line == "" && KindOf(it, dst) == ChoiceKind
            && (exists j :: 0 <= j < |it.choices| && Matches(dst.value, it.choices[j].value)) ==>
              st == Commit(dst.value)
    ensures !(dst.required && line == "") ==>
              && (KindOf(it, dst) == ChoiceKind ==> st == Choices.Decide(it.choices, dst.value, line))
              && (KindOf(it, dst) == BoolKind ==> st == Bools.Decide(dst.value.b, line))
              && (KindOf(it, dst) == PasswordKind ==> st == Passwords.Decide(dst.value.secret, line))
  {
    if dst.required && line == "" then Retry("")
    else
      match KindOf(it, dst)
      case ChoiceKind => Choices.Decide(it.choices, dst.value, line)
      case BoolKind => Bools.Decide(dst.value.b, line)
      case PasswordKind => Passwords.Decide(dst.value.secret, line)
  }

  predicate EndsWith(s: string, suffix: string)
  {
    |suffix| <= |s| && s[|s| - |suffix|..] == suffix
  }

  lemma EndsWithAfter(a: string, s: string, suffix: string)
    ensures EndsWith(s, suffix) ==> EndsWith(a + s, suffix)
  {
    if EndsWith(s, suffix) {
      assert (a + s)[|a + s| - |suffix|..] == s[|s| - |suffix|..];
    }
  }

  /** Whether `v` is what the choice at some index writes into the destination. */
  predicate IsChoiceOutcome(it: Interaction, dst: Destination, v: Value)
  {
    exists i :: 0 <= i < |it.choices| && Choices.Assign(TypeOf(dst.value), it.choices[i].value) == Success(v)
  }

  /** Whether `e` is what the choice at some index reports when it cannot be written. */
  predicate IsChoiceError(it: Interaction, dst: Destination, e: NotAssignableError)
  {
    exists i :: 0 <= i < |it.choices| && Choices.Assign(TypeOf(dst.value), it.choices[i].value) == Failure(e)
  }

  /**
   * The retry loop, on the input that remains. The destination never changes
   * type; it keeps its entry value unless a line was accepted; and running
   * out of input leaves a bare prompt at the end of the transcript.
   */
  function Loop(it: Interaction, dst: Destination, input: string): (r: Resolution)
    requires Supported(it, dst)
    ensures TypeOf(r.final) == TypeOf(dst.value)
    ensures !r.outcome.Resolved? ==> r.final == dst.value
    ensures r.outcome.EndOfInput? ==> EndsWith(r.output, PromptLine(it, dst))
    decreases |input|
  {
    var prompt := PromptLine(it, dst);
    match ReadLine(input)
    case None =>
      assert prompt[|prompt| - |prompt|..] == prompt;
      Resolution(prompt, dst.value, EndOfInput)
    case Some((line, rest)) =>
      var round := prompt + Echo(it, dst, line);
      match Decide(it, dst, line)
      case Commit(v) => Resolution(round, v, Resolved)
      case Abort(e) => Resolution(round, dst.value, NotAssignable(e))
      case Retry(diagnostic) =>
        var r := Loop(it, dst, rest);
        EndsWithAfter(round + diagnostic, r.output, prompt);
        Resolution(round + diagnostic + r.output, r.final, r.outcome)
  }

  /** Resolve one destination: the choice listing, once, then the retry loop. */
  function Resolve(it: Interaction, dst: Destination, input: string): (r: Resolution)
    requires Supported(it, dst)
    ensures TypeOf(r.final) == TypeOf(dst.value)
    ensures !r.outcome.Resolved? ==> r.final == dst.value
    ensures r.outcome.EndOfInput? ==> EndsWith(r.output, PromptLine(it, dst))
    ensures Choices.Listing(it.choices) <= r.output
  {
    var r := Loop(it, dst, input);
    Resolution(Choices.Listing(it.choices) + r.output, r.final, r.outcome)
  }

  /**
   * A choice resolution commits the value of one of the choices, and aborts
   * only with the error one of the choices raises; a resolution without
   * choices never aborts.
   */
  lemma {:induction false} LoopCommitsAChoice(it: Interaction, dst: Destination, input: string)
    requires Supported(it, dst)
    ensures var r := Loop(it, dst, input);
            && (r.outcome.Resolved? && KindOf(it, dst) == ChoiceKind ==> IsChoiceOutcome(it, dst, r.final))
            && (r.outcome.NotAssignable? ==> KindOf(it, dst) == ChoiceKind && IsChoiceError(it, dst, r.outcome.error))
    decreases |input|
  {
    match ReadLine(input)
    case None =>
    case Some((line, rest)) =>
      match Decide(it, dst, line)
      case Commit(v) =>
        if KindOf(it, dst) == ChoiceKind {
          var i := Choices.DecisionIndex(it.choices, dst.value, line);
        }
      case Abort(e) =>
        var i := Choices.DecisionIndex(it.choices, dst.value, line);
      case Retry(d) => LoopCommitsAChoice(it, dst, rest);
  }
}
