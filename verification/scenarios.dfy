/**
 * Entries of the test tables, reproduced exactly from the general properties.
 * The prompt and the typed lines are parameters fixed by a precondition; each
 * run is split into its transcript over any interaction with the same shape,
 * the listing of the concrete choices, and the run as a whole.
 */
module Scenarios {
  import opened Values
  import opened Errors
  import opened Decimal
  import opened Lines
  import Choices
  import opened Resolver
  import opened Properties

  function UnoDosTres(): seq<Choices.Choice>
  {
    [ Choices.Choice("Uno", Typed(Arbitrary("uno"))),
      Choices.Choice("Dos", Typed(Arbitrary("dos"))),
      Choices.Choice("Tres", Typed(Arbitrary("tres"))) ]
  }

  function BogusChoices(): seq<Choices.Choice>
  {
    UnoDosTres() + [Choices.Choice("Bogus", Typed(Str("bogus")))]
  }

  function PointerChoices(): seq<Choices.Choice>
  {
    [ Choices.Choice("Uno", Typed(ArbitraryPtr("uno"))),
      Choices.Choice("Dos", Typed(ArbitraryPtr("dos"))),
      Choices.Choice("Tres", Typed(ArbitraryPtr("tres"))),
      Choices.Choice("none", UntypedNil) ]
  }

  /** A run is the listing followed by the rounds of the loop. */
  lemma ResolveFromLoop(it: Interaction, dst: Destination, input: string, listing: string, r: Resolution)
    requires Supported(it, dst)
    requires Choices.Listing(it.choices) == listing
    requires Loop(it, dst, input) == r
    ensures Resolve(it, dst, input) == Resolution(listing + r.output, r.final, r.outcome)
  {
  }

  /**
   * Regrouping of a concatenation, stated on its own so that the regrouped
   * prompt is related to the literal transcript in a small proof context.
   */
  lemma Assoc3(a: string, b: string, c: string)
    ensures a + b + c == a + (b + c)
  {
  }

  // ---------------------------------------------------------------------------
  // Booleans (bools_test.go)

  /** A non-boolean answer, then end of input: the diagnostic, a bare prompt, the value kept. */
  lemma BoolInvalidThenEnd(it: Interaction, dst: Destination, p: string, foo: string)
    requires p == "some prompt"
    requires it == Interaction(p, []) && dst == Destination(Bool(false), false)
    requires foo == "foo"
    ensures Resolve(it, dst, foo + "\r") ==
            Resolution(p + " [yN]: " + foo + "\r\n" + "invalid input (not y, n, yes, or no)\r\n"
                       + (p + " [yN]: "), Bool(false), EndOfInput)
  {
    BoolPrompt(it, dst);
    DiagnosticTexts();
    BoolInvalidRetries(it, dst, foo, "");
    assert foo + [CR] + "" == foo + "\r";
    var r := Loop(it, dst, foo + "\r");
    ResolveFromLoop(it, dst, foo + "\r", "", r);
    assert "" + r.output == r.output;
  }

  lemma RequiredBoolTail(it: Interaction, dst: Destination, y: string)
    requires |it.choices| == 0 && dst == Destination(Bool(false), true)
    requires y == "y"
    ensures Loop(it, dst, "\r" + (y + "\r")) ==
            Resolution(it.prompt + " [yn]: " + "\r\n" + (it.prompt + " [yn]: " + y + "\r\n"), Bool(true), Resolved)
  {
    BoolPrompt(it, dst);
    BoolAnswerCommits(it, dst, y, "");
    assert [CR] == "\r";
    assert y + [CR] + "" == y + "\r";
    RequiredBlankIsSilent(it, dst, y + "\r");
  }

  lemma RequiredBoolLoop(it: Interaction, dst: Destination, foo: string, y: string)
    requires |it.choices| == 0 && dst == Destination(Bool(false), true)
    requires foo == "foo" && y == "y"
    ensures Loop(it, dst, foo + "\r" + ("\r" + (y + "\r"))) ==
            Resolution(it.prompt + " [yn]: " + foo + "\r\n" + "invalid input (not y, n, yes, or no)\r\n"
                       + (it.prompt + " [yn]: " + "\r\n" + (it.prompt + " [yn]: " + y + "\r\n")), Bool(true), Resolved)
  {
    BoolPrompt(it, dst);
    DiagnosticTexts();
    RequiredBoolTail(it, dst, y);
    BoolInvalidRetries(it, dst, foo, "\r" + (y + "\r"));
    assert [CR] == "\r";
  }

  /** Under Required a blank line is retried silently, and an explicit `y` then decides. */
  lemma RequiredBoolBlankThenYes(it: Interaction, dst: Destination, p: string, foo: string, y: string)
    requires p == "some prompt"
    requires it == Interaction(p, []) && dst == Destination(Bool(false), true)
    requires foo == "foo" && y == "y"
    ensures Resolve(it, dst, foo + "\r" + ("\r" + (y + "\r"))) ==
            Resolution(p + " [yn]: " + foo + "\r\n" + "invalid input (not y, n, yes, or no)\r\n"
                       + (p + " [yn]: " + "\r\n" + (p + " [yn]: " + y + "\r\n")), Bool(true), Resolved)
  {
    RequiredBoolLoop(it, dst, foo, y);
    var r := Loop(it, dst, foo + "\r" + ("\r" + (y + "\r")));
    ResolveFromLoop(it, dst, foo + "\r" + ("\r" + (y + "\r")), "", r);
    assert "" + r.output == r.output;
  }

  // ---------------------------------------------------------------------------
  // Choices (choices_test.go)

  lemma BogusListing(cs: seq<Choices.Choice>)
    requires cs == BogusChoices()
    ensures Choices.Listing(cs) == "1: Uno\r\n" + "2: Dos\r\n" + "3: Tres\r\n" + "4: Bogus\r\n"
  {
    assert Choices.ListingLine(1, cs[0]) == "1: Uno\r\n";
    assert Choices.ListingLine(2, cs[1]) == "2: Dos\r\n";
    assert Choices.ListingLine(3, cs[2]) == "3: Tres\r\n";
    assert Choices.ListingLine(4, cs[3]) == "4: Bogus\r\n";
    assert Choices.ListingFrom(cs[4..], 5) == "";
    assert Choices.ListingFrom(cs[3..], 4) == "4: Bogus\r\n" + "";
    assert Choices.ListingFrom(cs[2..], 3) == "3: Tres\r\n" + Choices.ListingFrom(cs[3..], 4);
    assert Choices.ListingFrom(cs[1..], 2) == "2: Dos\r\n" + Choices.ListingFrom(cs[2..], 3);
    assert Choices.ListingFrom(cs, 1) == "1: Uno\r\n" + Choices.ListingFrom(cs[1..], 2);
  }

  lemma PointerListing(cs: seq<Choices.Choice>)
    requires cs == PointerChoices()
    ensures Choices.Listing(cs) == "1: Uno\r\n" + "2: Dos\r\n" + "3: Tres\r\n" + "4: none\r\n"
  {
    assert Choices.ListingLine(1, cs[0]) == "1: Uno\r\n";
    assert Choices.ListingLine(2, cs[1]) == "2: Dos\r\n";
    assert Choices.ListingLine(3, cs[2]) == "3: Tres\r\n";
    assert Choices.ListingLine(4, cs[3]) == "4: none\r\n";
    assert Choices.ListingFrom(cs[4..], 5) == "";
    assert Choices.ListingFrom(cs[3..], 4) == "4: none\r\n" + "";
    assert Choices.ListingFrom(cs[2..], 3) == "3: Tres\r\n" + Choices.ListingFrom(cs[3..], 4);
    assert Choices.ListingFrom(cs[1..], 2) == "2: Dos\r\n" + Choices.ListingFrom(cs[2..], 3);
    assert Choices.ListingFrom(cs, 1) == "1: Uno\r\n" + Choices.ListingFrom(cs[1..], 2);
  }

  lemma MarkerOfTwo()
    ensures " (" + NatToString(2) + ")" + ": " == " (2): "
  {
    assert NatToString(2) == "2";
  }

  lemma MarkerOfFour()
    ensures " (" + NatToString(4) + ")" + ": " == " (4): "
  {
    assert NatToString(4) == "4";
  }

  lemma RangeDiagnosticOfFour()
    ensures InvalidSelection(Choices.RangeReason(4)) == "invalid selection (must be 1-4)\r\n"
  {
    assert NatToString(4) == "4";
  }

  lemma UnassignableLoop(it: Interaction, dst: Destination, four: string)
    requires |it.choices| == 4 && dst.value == Arbitrary("")
    requires forall j :: 0 <= j < |it.choices| ==> !Matches(dst.value, it.choices[j].value)
    requires it.choices[3].value == Typed(Str("bogus"))
    requires four == "4"
    ensures Loop(it, dst, four + "\r") ==
            Resolution(it.prompt + ": " + four + "\r\n", Arbitrary(""),
                       NotAssignable(NotAssignableError(ArbitraryType, StringType)))
  {
    ChoiceNoDefault(it, dst, "");
    assert NatToString(4) == four;
    SelectionCommitsChoice(it, dst, 4, "");
    assert four + [CR] + "" == four + "\r";
  }

  /** Choosing a value of the wrong type stops at once, naming `arbitrary` and `string`. */
  lemma UnassignableChoiceAborts(it: Interaction, dst: Destination, p: string, four: string)
    requires p == "some prompt"
    requires it == Interaction(p, BogusChoices()) && dst == Destination(Arbitrary(""), false)
    requires four == "4"
    ensures Resolve(it, dst, four + "\r") ==
            Resolution(("1: Uno\r\n" + "2: Dos\r\n" + "3: Tres\r\n" + "4: Bogus\r\n")
                       + (p + ": " + four + "\r\n"),
                       Arbitrary(""), NotAssignable(NotAssignableError(ArbitraryType, StringType)))
  {
    assert forall j :: 0 <= j < |it.choices| ==> !Matches(dst.value, it.choices[j].value);
    UnassignableLoop(it, dst, four);
    BogusListing(it.choices);
    ResolveFromLoop(it, dst, four + "\r", "1: Uno\r\n" + "2: Dos\r\n" + "3: Tres\r\n" + "4: Bogus\r\n",
                    Loop(it, dst, four + "\r"));
  }

  lemma NilDefaultZeroLoop(it: Interaction, dst: Destination, zero: string)
    requires |it.choices| == 4 && !dst.required && Choices.IsFirstMatch(it.choices, dst.value, 3)
    requires zero == "0"
    ensures Loop(it, dst, zero + "\r") ==
            Resolution(it.prompt + " (4): " + zero + "\r\n" + "invalid selection (must be 1-4)\r\n"
                       + (it.prompt + " (4): "), dst.value, EndOfInput)
  {
    ZeroIsNeverASelection(it, dst, "");
    assert zero + [CR] + "" == zero + "\r";
    ChoiceDefaultShown(it, dst, 3, "");
    Assoc3(it.prompt, " (" + NatToString(4) + ")", ": ");
    MarkerOfFour();
    RangeDiagnosticOfFour();
  }

  /** A nil destination shows the nil choice as default; `0` is still out of range. */
  lemma NilDefaultZeroThenEnd(it: Interaction, dst: Destination, p: string, zero: string)
    requires p == "some prompt"
    requires it == Interaction(p, PointerChoices()) && dst == Destination(NilArbitraryPtr, false)
    requires zero == "0"
    ensures Resolve(it, dst, zero + "\r") ==
            Resolution(("1: Uno\r\n" + "2: Dos\r\n" + "3: Tres\r\n" + "4: none\r\n")
                       + (p + " (4): " + zero + "\r\n" + "invalid selection (must be 1-4)\r\n" + (p + " (4): ")),
                       NilArbitraryPtr, EndOfInput)
  {
    assert Choices.IsFirstMatch(it.choices, dst.value, 3);
    NilDefaultZeroLoop(it, dst, zero);
    PointerListing(it.choices);
    ResolveFromLoop(it, dst, zero + "\r", "1: Uno\r\n" + "2: Dos\r\n" + "3: Tres\r\n" + "4: none\r\n",
                    Loop(it, dst, zero + "\r"));
  }

  lemma NilChoiceLoop(it: Interaction, dst: Destination, four: string)
    requires |it.choices| == 4 && !dst.required && Choices.IsFirstMatch(it.choices, dst.value, 1)
    requires it.choices[3].value == UntypedNil && dst.value.ArbitraryPtr?
    requires four == "4"
    ensures Loop(it, dst, four + "\r") == Resolution(it.prompt + " (2): " + four + "\r\n", NilArbitraryPtr, Resolved)
  {
    SecondIsDefaultPrompt(it, dst);
    assert NatToString(4) == four;
    SelectionCommitsChoice(it, dst, 4, "");
    assert four + [CR] + "" == four + "\r";
  }

  /** The prompt when the second choice is the default. */
  lemma SecondIsDefaultPrompt(it: Interaction, dst: Destination)
    requires |it.choices| > 0 && !dst.required && Choices.IsFirstMatch(it.choices, dst.value, 1)
    ensures PromptLine(it, dst) == it.prompt + " (2): "
  {
    assert Suffix(it, dst) == " (" + NatToString(2) + ")";
    Assoc3(it.prompt, " (" + NatToString(2) + ")", ": ");
    MarkerOfTwo();
  }

  /** Selecting the nil choice clears a pointer destination that pointed at `dos`. */
  lemma NilChoiceIntoPointer(it: Interaction, dst: Destination, p: string, four: string)
    requires p == "some prompt"
    requires it == Interaction(p, PointerChoices()) && dst == Destination(ArbitraryPtr("dos"), false)
    requires four == "4"
    ensures Resolve(it, dst, four + "\r") ==
            Resolution(("1: Uno\r\n" + "2: Dos\r\n" + "3: Tres\r\n" + "4: none\r\n") + (p + " (2): " + four + "\r\n"),
                       NilArbitraryPtr, Resolved)
  {
    assert Choices.IsFirstMatch(it.choices, dst.value, 1);
    NilChoiceLoop(it, dst, four);
    PointerListing(it.choices);
    ResolveFromLoop(it, dst, four + "\r", "1: Uno\r\n" + "2: Dos\r\n" + "3: Tres\r\n" + "4: none\r\n",
                    Loop(it, dst, four + "\r"));
  }

  // ---------------------------------------------------------------------------
  // Secrets (passwords_test.go)

  lemma RequiredPasswordLoop(it: Interaction, dst: Destination, secret: string)
    requires |it.choices| == 0 && dst == Destination(Password(""), true)
    requires CR !in secret && secret != ""
    ensures Loop(it, dst, "\r" + secret + "\r") ==
            Resolution(it.prompt + ": " + "\r\n" + (it.prompt + ": " + "\r\n"), Password(secret), Resolved)
  {
    PasswordPromptHidesSecret(it, dst, dst);
    PasswordCommitsVerbatim(it, dst, secret, "");
    assert secret + [CR] + "" == secret + "\r";
    RequiredBlankIsSilent(it, dst, secret + "\r");
    assert [CR] + (secret + "\r") == "\r" + secret + "\r";
  }

  /** A required secret: a blank line is retried silently; the typed secret is never echoed. */
  lemma RequiredPasswordBlankThenSecret(it: Interaction, dst: Destination, p: string, secret: string)
    requires p == "some prompt"
    requires it == Interaction(p, []) && dst == Destination(Password(""), true)
    requires secret == "forty two"
    ensures Resolve(it, dst, "\r" + secret + "\r") ==
            Resolution(p + ": " + "\r\n" + (p + ": " + "\r\n"), Password(secret), Resolved)
  {
    assert CR !in secret;
    RequiredPasswordLoop(it, dst, secret);
    var r := Loop(it, dst, "\r" + secret + "\r");
    ResolveFromLoop(it, dst, "\r" + secret + "\r", "", r);
    assert "" + r.output == r.output;
  }

  /** A secret with a current value: the prompt says only that there is one, and a blank line keeps it. */
  lemma PasswordBlankKeepsDefault(it: Interaction, dst: Destination, p: string, secret: string)
    requires p == "some prompt"
    requires it == Interaction(p, []) && dst == Destination(Password(secret), false)
    requires secret == "some default"
    ensures Resolve(it, dst, "\r") == Resolution(p + " (has default): " + "\r\n", Password(secret), Resolved)
  {
    PasswordPromptHidesSecret(it, dst, dst);
    PasswordBlankKeepsCurrent(it, dst, "");
    assert [CR] + "" == "\r";
    var r := Loop(it, dst, "\r");
    ResolveFromLoop(it, dst, "\r", "", r);
    assert "" + r.output == r.output;
  }
}
