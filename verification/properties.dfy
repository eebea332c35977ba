/** Properties of the resolution loop over all inputs. */
module Properties {
  import opened Wrappers
  import opened Values
  import opened Errors
  import opened Decimal
  import opened Lines
  import opened Steps
  import Choices
  import Bools
  import opened Resolver

  /** An accepted first line: one round is written and the value is committed. */
  lemma CommitRound(it: Interaction, dst: Destination, line: string, rest: string, v: Value)
    requires Supported(it, dst)
    requires CR !in line
    requires Decide(it, dst, line) == Commit(v)
    ensures Loop(it, dst, line + [CR] + rest) == Resolution(PromptLine(it, dst) + Echo(it, dst, line), v, Resolved)
  {
    ReadLineOfLine(line, rest);
  }

  /** A first line that selects an unassignable choice: one round is written and resolution stops. */
  lemma AbortRound(it: Interaction, dst: Destination, line: string, rest: string, e: NotAssignableError)
    requires Supported(it, dst)
    requires CR !in line
    requires Decide(it, dst, line) == Abort(e)
    ensures Loop(it, dst, line + [CR] + rest) ==
            Resolution(PromptLine(it, dst) + Echo(it, dst, line), dst.value, NotAssignable(e))
  {
    ReadLineOfLine(line, rest);
  }

  /**
   * A rejected line is forgotten: the result is the one the remaining input
   * gives on its own, and the transcript differs only by the rejected round
   * and its diagnostic. The listing is not repeated.
   */
  lemma RetryIsForgotten(it: Interaction, dst: Destination, line: string, rest: string)
    requires Supported(it, dst)
    requires CR !in line
    requires Decide(it, dst, line).Retry?
    ensures var r := Loop(it, dst, line + [CR] + rest);
            var r' := Loop(it, dst, rest);
            && r.final == r'.final
            && r.outcome == r'.outcome
            && r.output == PromptLine(it, dst) + Echo(it, dst, line) + Decide(it, dst, line).diagnostic + r'.output
  {
    ReadLineOfLine(line, rest);
  }

  /**
   * The listing is printed once: after a rejected first line the run goes on
   * with the loop alone, whose later rounds never list the choices again.
   */
  lemma ListingNotRepeated(it: Interaction, dst: Destination, line: string, rest: string)
    requires Supported(it, dst)
    requires CR !in line
    requires Decide(it, dst, line).Retry?
    ensures Resolve(it, dst, line + [CR] + rest).output ==
            Choices.Listing(it.choices)
            + (PromptLine(it, dst) + Echo(it, dst, line) + Decide(it, dst, line).diagnostic)
            + Loop(it, dst, rest).output
  {
    RetryIsForgotten(it, dst, line, rest);
    var round := PromptLine(it, dst) + Echo(it, dst, line) + Decide(it, dst, line).diagnostic;
    assert Choices.Listing(it.choices) + (round + Loop(it, dst, rest).output)
        == Choices.Listing(it.choices) + round + Loop(it, dst, rest).output;
  }

  /** A rejected line of a variant that echoes: the echo, the diagnostic, then the rest of the loop. */
  lemma EchoedRetry(it: Interaction, dst: Destination, line: string, rest: string, diagnostic: string)
    requires Supported(it, dst)
    requires KindOf(it, dst) != PasswordKind
    requires CR !in line
    requires Decide(it, dst, line) == Retry(diagnostic)
    ensures var r := Loop(it, dst, line + [CR] + rest);
            var r' := Loop(it, dst, rest);
            && r.final == r'.final
            && r.outcome == r'.outcome
            && r.output == PromptLine(it, dst) + line + CRLF + diagnostic + r'.output
  {
    RetryIsForgotten(it, dst, line, rest);
    ConcatAssoc(PromptLine(it, dst), line, CRLF, diagnostic, Loop(it, dst, rest).output);
  }

  /**
   * Regrouping helpers: each states one concatenation identity on its own, so
   * that the lemmas that use it do not ask the solver to regroup strings.
   */
  lemma ConcatAssoc(a: string, b: string, c: string, d: string, e: string)
    ensures a + (b + c) + d + e == a + b + c + d + e
  {
  }

  /** A blank line followed by its carriage return is just the carriage return. */
  lemma BlankLine(rest: string)
    ensures [] + [CR] + rest == [CR] + rest
  {
  }

  /** A blank line that the decision refuses without a diagnostic: the prompt again, nothing else. */
  lemma SilentRetry(it: Interaction, dst: Destination, blank: string, rest: string)
    requires Supported(it, dst)
    requires blank == [] && Decide(it, dst, blank) == Retry([])
    ensures var r := Loop(it, dst, blank + [CR] + rest);
            var r' := Loop(it, dst, rest);
            && r.final == r'.final
            && r.outcome == r'.outcome
            && r.output == PromptLine(it, dst) + CRLF + r'.output
  {
    RetryIsForgotten(it, dst, blank, rest);
    assert Echo(it, dst, blank) == CRLF;
    assert PromptLine(it, dst) + CRLF + [] == PromptLine(it, dst) + CRLF;
  }

  /** Under Required a blank line prompts again, with no diagnostic, whatever the variant. */
  lemma RequiredBlankIsSilent(it: Interaction, dst: Destination, rest: string)
    requires Supported(it, dst)
    requires dst.required
    ensures var r := Loop(it, dst, [CR] + rest);
            var r' := Loop(it, dst, rest);
            && r.final == r'.final
            && r.outcome == r'.outcome
            && r.output == PromptLine(it, dst) + CRLF + r'.output
  {
    assert Decide(it, dst, []) == Retry([]);
    SilentRetry(it, dst, [], rest);
    BlankLine(rest);
  }

  /** Running out of input leaves the destination at its entry value, after a bare prompt. */
  lemma EndOfInputKeepsDestination(it: Interaction, dst: Destination, input: string)
    requires Supported(it, dst)
    requires CR !in input
    ensures Resolve(it, dst, input) ==
            Resolution(Choices.Listing(it.choices) + PromptLine(it, dst), dst.value, EndOfInput)
  {
  }

  // ---------------------------------------------------------------------------
  // Choices

  /**
   * Entering `i` for 1 <= i <= N commits choice i's value; if its type cannot
   * be assigned, resolution stops at once with both types named and the
   * destination unchanged.
   */
  lemma SelectionCommitsChoice(it: Interaction, dst: Destination, i: nat, rest: string)
    requires 1 <= i <= |it.choices|
    ensures var r := Loop(it, dst, NatToString(i) + [CR] + rest);
            var c := it.choices[i - 1].value;
            && r.output == PromptLine(it, dst) + NatToString(i) + CRLF
            && (c.Typed? && Assignable(TypeOf(c.v), TypeOf(dst.value)) ==> r.outcome == Resolved && r.final == c.v)
            && (c.Typed? && !Assignable(TypeOf(c.v), TypeOf(dst.value)) ==>
                  r.outcome == NotAssignable(NotAssignableError(TypeOf(dst.value), TypeOf(c.v))) && r.final == dst.value)
            && (c.UntypedNil? ==> r.outcome == Resolved && r.final == Zero(TypeOf(dst.value)))
  {
    var s := NatToString(i);
    NumberIsOneLine(i);
    assert KindOf(it, dst) == ChoiceKind;
    assert Choices.Decide(it.choices, dst.value, s) == Choices.Select(it.choices, dst.value, i);
    assert Decide(it, dst, s) == Choices.Select(it.choices, dst.value, i);
    assert Echo(it, dst, s) == s + CRLF;
    match Choices.Assign(TypeOf(dst.value), it.choices[i - 1].value)
    case Success(v) =>
      CommitRound(it, dst, s, rest, v);
    case Failure(e) =>
      AbortRound(it, dst, s, rest, e);
  }

  /** A selection number is a non-blank line that reads back as itself. */
  lemma NumberIsOneLine(i: nat)
    ensures CR !in NatToString(i) && NatToString(i) != ""
    ensures ParseInt(NatToString(i)) == Some(i as int)
  {
    var s := NatToString(i);
    ParseIntOfNatToString(i);
    assert forall k :: 0 <= k < |s| ==> IsDigit(s[k]);
  }

  /** Selecting a nil choice into a pointer destination clears it, even when it held a value. */
  lemma NilChoiceClearsPointer(it: Interaction, dst: Destination, i: nat, rest: string)
    requires 1 <= i <= |it.choices|
    requires TypeOf(dst.value) == ArbitraryPtrType
    requires it.choices[i - 1].value == UntypedNil
    ensures Loop(it, dst, NatToString(i) + [CR] + rest).final == NilArbitraryPtr
    ensures Loop(it, dst, NatToString(i) + [CR] + rest).outcome == Resolved
  {
    SelectionCommitsChoice(it, dst, i, rest);
  }

  /** A number outside 1..N is refused with the range diagnostic, and the loop goes on. */
  lemma OutOfRangeRetries(it: Interaction, dst: Destination, line: string, rest: string)
    requires |it.choices| > 0
    requires CR !in line
    requires ParseInt(line).Some? && !(1 <= ParseInt(line).value <= |it.choices|)
    ensures var r := Loop(it, dst, line + [CR] + rest);
            var r' := Loop(it, dst, rest);
            && r.final == r'.final
            && r.outcome == r'.outcome
            && r.output == PromptLine(it, dst) + line + CRLF
                           + InvalidSelection(Choices.RangeReason(|it.choices|)) + r'.output
  {
    assert Decide(it, dst, line) == Retry(InvalidSelection(Choices.RangeReason(|it.choices|)));
    EchoedRetry(it, dst, line, rest, InvalidSelection(Choices.RangeReason(|it.choices|)));
  }

  /** `0` is never a selection, not even when the destination matches a nil choice. */
  lemma ZeroIsNeverASelection(it: Interaction, dst: Destination, rest: string)
    requires |it.choices| > 0
    ensures var r := Loop(it, dst, "0" + [CR] + rest);
            var r' := Loop(it, dst, rest);
            && r.final == r'.final
            && r.outcome == r'.outcome
            && r.output == PromptLine(it, dst) + "0" + CRLF
                           + InvalidSelection(Choices.RangeReason(|it.choices|)) + r'.output
  {
    assert AllDigits("0");
    assert ParseInt("0") == Some(0);
    OutOfRangeRetries(it, dst, "0", rest);
  }

  /** Text that is not a number is refused with the not-a-number diagnostic. */
  lemma NotANumberRetries(it: Interaction, dst: Destination, line: string, rest: string)
    requires |it.choices| > 0
    requires CR !in line && line != ""
    requires ParseInt(line).None?
    ensures var r := Loop(it, dst, line + [CR] + rest);
            var r' := Loop(it, dst, rest);
            && r.final == r'.final
            && r.outcome == r'.outcome
            && r.output == PromptLine(it, dst) + line + CRLF + InvalidSelection(NotANumber) + r'.output
  {
    assert Decide(it, dst, line) == Retry(InvalidSelection(NotANumber));
    EchoedRetry(it, dst, line, rest, InvalidSelection(NotANumber));
  }

  /**
   * Without Required, the prompt shows ` (i+1)` for the first choice i that
   * matches the destination, and a blank line commits that choice, which
   * holds the destination's current value.
   */
  lemma ChoiceDefaultShown(it: Interaction, dst: Destination, i: nat, rest: string)
    requires |it.choices| > 0 && !dst.required
    requires Choices.IsFirstMatch(it.choices, dst.value, i)
    ensures PromptLine(it, dst) == it.prompt + (" (" + NatToString(i + 1) + ")") + ": "
    ensures Loop(it, dst, [CR] + rest) == Resolution(PromptLine(it, dst) + CRLF, dst.value, Resolved)
  {
    Choices.FirstMatchIsDefault(it.choices, dst.value, i);
    MatchedChoiceIsAssignable(dst.value, it.choices[i].value);
    assert Decide(it, dst, "") == Commit(dst.value);
    CommitRound(it, dst, "", rest, dst.value);
    assert "" + [CR] + rest == [CR] + rest;
  }

  /**
   * With no choice matching the destination there is no marker, and a blank
   * line prompts again without a diagnostic.
   */
  lemma ChoiceNoDefault(it: Interaction, dst: Destination, rest: string)
    requires |it.choices| > 0
    requires forall j :: 0 <= j < |it.choices| ==> !Matches(dst.value, it.choices[j].value)
    ensures PromptLine(it, dst) == it.prompt + ": "
    ensures var r := Loop(it, dst, [CR] + rest);
            var r' := Loop(it, dst, rest);
            && r.final == r'.final
            && r.outcome == r'.outcome
            && r.output == PromptLine(it, dst) + CRLF + r'.output
  {
    assert Choices.DefaultIndex(it.choices, dst.value).None?;
    assert Decide(it, dst, []) == Retry([]);
    SilentRetry(it, dst, [], rest);
    BlankLine(rest);
  }

  /** A choice that matches the destination can always be written back into it. */
  lemma MatchedChoiceIsAssignable(current: Value, c: ChoiceValue)
    requires Matches(current, c)
    ensures Choices.Assign(TypeOf(current), c) == Success(current)
  {
  }

  // ---------------------------------------------------------------------------
  // Booleans

  /** `[Yn]` for true, `[yN]` for false: the capital names the blank answer; `[yn]` under Required. */
  lemma BoolPrompt(it: Interaction, dst: Destination)
    requires |it.choices| == 0 && dst.value.Bool?
    ensures dst.required ==> PromptLine(it, dst) == it.prompt + " [yn]: "
    ensures !dst.required && dst.value.b ==> PromptLine(it, dst) == it.prompt + " [Yn]: "
    ensures !dst.required && !dst.value.b ==> PromptLine(it, dst) == it.prompt + " [yN]: "
  {
  }

  /** `y` and `yes` commit true, `n` and `no` commit false, whatever the current value, Required or not. */
  lemma BoolAnswerCommits(it: Interaction, dst: Destination, line: string, rest: string)
    requires |it.choices| == 0 && dst.value.Bool?
    requires line == "y" || line == "yes" || line == "n" || line == "no"
    ensures Loop(it, dst, line + [CR] + rest) ==
            Resolution(PromptLine(it, dst) + line + CRLF, Bool(line == "y" || line == "yes"), Resolved)
  {
    var b := line == "y" || line == "yes";
    assert Bools.Answer(line) == Some(b);
    assert Decide(it, dst, line) == Commit(Bool(b));
    assert CR !in line;
    CommitRound(it, dst, line, rest, Bool(b));
  }

  /** Without Required, a blank line commits the current value (the capitalised default). */
  lemma BoolBlankKeepsCurrent(it: Interaction, dst: Destination, rest: string)
    requires |it.choices| == 0 && dst.value.Bool? && !dst.required
    ensures Loop(it, dst, [CR] + rest) == Resolution(PromptLine(it, dst) + CRLF, dst.value, Resolved)
  {
    assert Decide(it, dst, "") == Commit(dst.value);
    CommitRound(it, dst, "", rest, dst.value);
    assert "" + [CR] + rest == [CR] + rest;
  }

  /** Any other non-blank text is refused with the not-a-boolean diagnostic. */
  lemma BoolInvalidRetries(it: Interaction, dst: Destination, line: string, rest: string)
    requires |it.choices| == 0 && dst.value.Bool?
    requires CR !in line && line != ""
    requires line != "y" && line != "yes" && line != "n" && line != "no"
    ensures var r := Loop(it, dst, line + [CR] + rest);
            var r' := Loop(it, dst, rest);
            && r.final == r'.final
            && r.outcome == r'.outcome
            && r.output == PromptLine(it, dst) + line + CRLF + InvalidInput(NotBoolean) + r'.output
  {
    assert Decide(it, dst, line) == Retry(InvalidInput(NotBoolean));
    EchoedRetry(it, dst, line, rest, InvalidInput(NotBoolean));
  }

  // ---------------------------------------------------------------------------
  // Passwords

  /**
   * The prompt reveals only whether there is a current secret, never the
   * secret: ` ()` without one, ` (has default)` with one, nothing under Required.
   */
  lemma PasswordPromptHidesSecret(it: Interaction, dst: Destination, other: Destination)
    requires |it.choices| == 0 && dst.value.Password? && other.value.Password?
    requires other.required == dst.required
    requires (other.value.secret == "") == (dst.value.secret == "")
    ensures PromptLine(it, dst) == PromptLine(it, other)
    ensures dst.required ==> PromptLine(it, dst) == it.prompt + ": "
    ensures !dst.required && dst.value.secret == "" ==> PromptLine(it, dst) == it.prompt + " (): "
    ensures !dst.required && dst.value.secret != "" ==> PromptLine(it, dst) == it.prompt + " (has default): "
  {
  }

  /** A non-blank line is committed verbatim and is not echoed. */
  lemma PasswordCommitsVerbatim(it: Interaction, dst: Destination, line: string, rest: string)
    requires |it.choices| == 0 && dst.value.Password?
    requires CR !in line && line != ""
    ensures Loop(it, dst, line + [CR] + rest) == Resolution(PromptLine(it, dst) + CRLF, Password(line), Resolved)
  {
    assert Decide(it, dst, line) == Commit(Password(line));
    CommitRound(it, dst, line, rest, Password(line));
  }

  /** Without Required, a blank line keeps the current secret, the empty one included. */
  lemma PasswordBlankKeepsCurrent(it: Interaction, dst: Destination, rest: string)
    requires |it.choices| == 0 && dst.value.Password? && !dst.required
    ensures Loop(it, dst, [CR] + rest) == Resolution(PromptLine(it, dst) + CRLF, dst.value, Resolved)
  {
    assert Decide(it, dst, "") == Commit(dst.value);
    CommitRound(it, dst, "", rest, dst.value);
    assert "" + [CR] + rest == [CR] + rest;
  }

  /**
   * The transcript of a secret entry is the one it would be had every typed
   * character been `*`: what is typed never reaches the output.
   */
  lemma {:induction false} PasswordTranscriptIsMasked(it: Interaction, dst: Destination, input: string)
    requires |it.choices| == 0 && dst.value.Password?
    ensures Loop(it, dst, input).output == Loop(it, dst, Mask(input)).output
    decreases |input|
  {
    ReadLineOfMask(input);
    match ReadLine(input)
    case None =>
    case Some((line, rest)) =>
      var ml := Mask(line);
      assert ReadLine(Mask(input)) == Some((ml, Mask(rest)));
      assert Echo(it, dst, line) == CRLF && Echo(it, dst, ml) == CRLF;
      assert |ml| == |line|;
      if dst.required && line == "" {
        assert ml == line;
        PasswordTranscriptIsMasked(it, dst, rest);
      } else {
        assert Decide(it, dst, line).Commit? && Decide(it, dst, ml).Commit?;
      }
  }
}
