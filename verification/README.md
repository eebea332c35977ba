# go-interact value resolution, modelled in Dafny

`go-interact` asks a user for a value on a terminal and writes the answer
into a destination cell. Resolution is one loop:

- write the prompt;
- read one line, which is complete only at a carriage return;
- decide what the line means;
- then commit a value to the destination, prompt again (with or without a
  diagnostic), or stop with an error.

This project models that loop for the three variants the test tables fix:

- **booleans**: suffix `[yN]`, `[Yn]` or `[yn]`; answers `y`, `yes`, `n`, `no`;
- **secret text** (`interact.Password`): suffix ` ()` or ` (has default)`;
  the typed text is never echoed;
- **choice sets**:
  - a numbered listing `i: Display` is printed once;
  - the marker ` (k)` shows the first choice equal to the destination;
  - selections are 1-based, and range and number errors are retried;
  - committing an unassignable choice aborts with `NotAssignableError`.

It also models the **Required** wrapper, which can be put around any of the
three. It drops the default marker and turns a blank line into a silent retry.

The model is pure. `Resolver.Resolve(it, dst, input)` takes the prompt and
choices, the destination's current value and Required flag, and the whole
input as a character sequence. It returns the transcript written, the
destination's final value, and the outcome: `Resolved`, `EndOfInput` or
`NotAssignable(error)`. `Resolver.Loop` recurses on the input that remains.

Modules:

- `Values`: the closed set of runtime types and values, zero values,
  assignability, and default matching.
- `Errors`: the two error messages, the two diagnostic lines, and
  `NotAssignableError`.
- `Decimal`: rendering numerals and parsing typed selections.
- `Lines`: reading a carriage-return-terminated line, and masking.
- `Steps`: the decision taken on one line.
- `Choices`, `Bools`, `Passwords`: the three variants.
- `Resolver`: the loop.
- `Properties`: what the loop guarantees for all inputs.
- `Scenarios`: test-table entries reproduced exactly from those guarantees.

The implementation file of the library, `interaction.go`, is not part of this
model. The behaviour modelled is the one that the test tables
`interact/bools_test.go`, `interact/choices_test.go` and
`interact/passwords_test.go` and the declarations in `interact/errors.go` fix.
Two decisions follow directly from those tables:

- `0` is never a selection, even when nothing else matched: with a nil
  destination whose default is the nil choice, `0` is still refused with
  `must be 1-4` (`choices_test.go:289-297`), and with a zero-valued
  destination it is refused with `must be 1-3` (`choices_test.go:27-35`).
- Under Required only the blank line is refused. An explicit `n` commits
  `false`, the zero value (`bools_test.go:116-123`).

One further choice is made for lack of evidence rather than fixed by the
tables: answers are matched exactly, in lower case. The tables only show
lower-case answers being accepted (`bools_test.go:18-52`) and no entry types
an upper-case one, so case-insensitive matching is left out (see below).


## Model

| member | source | states |
|---|---|---|
| Values.Zero | interact/choices_test.go:591-598 | The zero value of a type has that type. The zero value of `*arbitrary` is the nil pointer, which an untyped `nil` choice writes. |
| Values.NilMatchesEitherNil | interact/choices_test.go:402-425 | A nil pointer destination matches an untyped `nil` choice and also a typed nil `*arbitrary` choice. |
| Values.MatchesCharacterization | interact/choices_test.go:531-552 | A pointer destination matches a pointer choice exactly when the pointed-to contents are equal. An untyped `nil` never matches a non-nil destination. A value of another type never matches. |
| Values.Matches | interact/choices_test.go:165-178 | A typed choice matches exactly when it holds the destination's own value, so `arbitrary{"dos"}` matches the `Dos` choice and no other, giving the ` (2)` marker. An untyped `nil` choice matches exactly the nil pointer. |
| Errors.DiagnosticTexts | interact/errors.go:9-10 | The choice diagnostic quotes `not a number` inside `invalid selection (...)`. The boolean diagnostic quotes `not y, n, yes, or no` inside `invalid input (...)`. Both texts are exact. |
| Decimal.NatToString | interact/choices_test.go:296 | Indices in the listing, the marker and the range diagnostic are non-empty decimal digit strings without a leading zero. |
| Decimal.ParseInt | interact/choices_test.go:111-119 | A line is a number exactly when it is an optional sign followed by at least one digit. Its value is the digits' decimal value, negated after `-`. Anything else, the blank line included, is not a number. |
| Decimal.ParseIntOfNatToString | interact/choices_test.go:46-71 | The number shown for choice i reads back as i (round trip). |
| Lines.ReadLine | interact/bools_test.go:63-71 | Input without a carriage return gives end of input. Otherwise the line read contains no carriage return, and line, carriage return and rest put back together are exactly the input. The rest is shorter than the input. |
| Lines.ReadLineOfLine | interact/bools_test.go:73-80 | A line followed by a carriage return and any further input is read back exactly, with that further input as the rest. |
| Lines.Mask | interact/passwords_test.go:18-25 | Masking keeps the length and the carriage-return positions. Every other character becomes `*`. |
| Lines.ReadLineOfMask | interact/passwords_test.go:62-69 | Masked input splits into the same lines as the original, masked. End of input is reached at the same point. |
| Choices.ListingAppend | interact/choices_test.go:140-159 | Appending a choice to a set appends exactly one line to the listing, `N+1: Display\r\n`, after the existing lines. The listing is therefore in declaration order and 1-based. |
| Choices.Listing | interact/choices_test.go:27-35 | The listing is empty exactly when there are no choices. Otherwise it starts with the line `1: ` and the first choice's label. |
| Choices.ListingInOrder | interact/choices_test.go:46-53 | Choice i (0-based) is listed as `i+1: label`, directly after the lines of the choices before it, so every choice is listed, in declaration order. |
| Choices.DefaultIndex | interact/choices_test.go:165-178 | The result is the 1-based index of the first choice that matches the destination: that choice matches and no earlier one does. It is None exactly when no choice matches. |
| Choices.FirstMatchIsDefault | interact/choices_test.go:165-178 | If choice i is the first to match the destination, the default is i+1. |
| Choices.Suffix | interact/choices_test.go:165-178 | The prompt carries a marker exactly when an answer is not required and some choice matches the destination. The marker is ` (i+1)` for the first matching choice i. |
| Choices.Assign | interact/choices_test.go:140-160 | An untyped `nil` writes the destination type's zero value. A typed value is written unchanged exactly when its type is assignable. Otherwise the result is `NotAssignableError` naming the destination type and the value type. A written value always has the destination's type. |
| Choices.DecisionIndex | interact/choices_test.go:46-71 | A line that commits or aborts does so through one choice. The committed value, or the error, is what assigning that choice gives. |
| Choices.Decide | interact/choices_test.go:46-137 | A blank line commits the current value when a choice matches it, and is otherwise refused without a diagnostic (only a blank line with no match is). Text that is not a number is refused with `not a number`, and a number outside 1..N with `must be 1-N`. A number i in 1..N (any spelling that parses, such as `+2` or `02`) is accepted: it commits what assigning choice i gives, or aborts with the error that assignment raises. A committed value has the destination's type, and a blank line never aborts. |
| Bools.Decide | interact/bools_test.go:18-89 | Exactly the blank line, `y`, `yes`, `n` and `no` are accepted, and nothing aborts. A blank line commits the current value. An answer commits true exactly when it starts with `y`. Anything else is refused with `invalid input (not y, n, yes, or no)`. |
| Passwords.Decide | interact/passwords_test.go:18-34 | Every line is accepted. Typed text is committed verbatim, and a blank line keeps the current secret. The committed secret is empty only when nothing was typed and none was set. |
| Resolver.Loop | interact/choices_test.go:27-35 | The final value has the destination's type. Unless a line was accepted, the destination keeps its entry value. On end of input the transcript ends with a bare prompt. |
| Resolver.Resolve | interact/choices_test.go:34-43 | The same guarantees hold for a whole run. The choice listing is a prefix of the transcript. |
| Resolver.Decide | interact/bools_test.go:134-142 | Under Required a blank line is refused silently, and only a blank line is ever refused silently. Every other line is decided by the destination's variant: the choice set's, the boolean or the secret decision. Without Required a blank line keeps the destination's value, and in a choice set it does so whenever some choice matches. A committed value has the destination's type. Only a typed choice selection aborts. |
| Resolver.LoopCommitsAChoice | interact/choices_test.go:46-71 | A resolved choice run commits what some choice assigns. Only a choice run aborts, and only with the error some choice raises. |
| Properties.CommitRound | interact/bools_test.go:18-25 | An accepted first line writes one round, the prompt and the echo, and commits the value. Later input is never read. |
| Properties.AbortRound | interact/choices_test.go:148-160 | A first line that selects an unassignable choice writes one round and stops with the error. The destination keeps its value and later input is never read. |
| Properties.RetryIsForgotten | interact/choices_test.go:37-43 | After a rejected line the run's result is the one the remaining input gives on its own. The transcript only gains the rejected round and its diagnostic in front. |
| Properties.ListingNotRepeated | interact/choices_test.go:37-43 | After a rejected first line the transcript is the listing, the rejected round, then the loop on the remaining input, so the choices are listed only once. |
| Properties.EchoedRetry | interact/bools_test.go:73-80 | A rejected line of an echoing variant writes the prompt, the line, `\r\n` and the diagnostic, and resolution goes on. |
| Properties.SilentRetry | interact/choices_test.go:92-100 | A blank line refused without a diagnostic writes only the prompt and `\r\n` before the next prompt. |
| Properties.RequiredBlankIsSilent | interact/bools_test.go:134-142 | Under Required, a blank line is a silent retry in every variant. |
| Properties.EndOfInputKeepsDestination | interact/choices_test.go:545-553 | Input with no carriage return leaves the destination at its entry value. The transcript is the listing plus a bare prompt, and the outcome is end of input. |
| Properties.SelectionCommitsChoice | interact/choices_test.go:46-71 | Entering i, with 1 ≤ i ≤ N, echoes i. It commits exactly choice i's value when that value is assignable, and the zero value for an untyped `nil`. Otherwise it stops with `NotAssignableError(destination type, value type)` and the destination unchanged. |
| Properties.NilChoiceClearsPointer | interact/choices_test.go:591-598 | Selecting an untyped `nil` choice into a pointer destination commits the nil pointer, even when the destination pointed at a value. |
| Properties.OutOfRangeRetries | interact/choices_test.go:73-81 | A number outside 1..N prints `invalid selection (must be 1-N)` and resolution goes on with the remaining input. |
| Properties.ZeroIsNeverASelection | interact/choices_test.go:289-297 | `0` is out of range for every choice set, whatever the destination. |
| Properties.NotANumberRetries | interact/choices_test.go:111-128 | Non-blank text that is not a number prints `invalid selection (not a number)`. A later line decides the result. |
| Properties.ChoiceDefaultShown | interact/choices_test.go:236-243 | Without Required, the prompt shows ` (i+1)` for the first matching choice i, and a blank line commits the destination's current value. |
| Properties.ChoiceNoDefault | interact/choices_test.go:92-109 | With no matching choice the prompt has no marker, and a blank line re-prompts without a diagnostic. |
| Properties.MatchedChoiceIsAssignable | interact/choices_test.go:363-370 | A choice that matches the destination can always be written back into it unchanged. |
| Properties.BoolPrompt | interact/bools_test.go:18-24 | The boolean suffix is `[yN]` for false and `[Yn]` for true. Under Required it is `[yn]`. |
| Properties.BoolAnswerCommits | interact/bools_test.go:18-52 | `y` and `yes` commit true, and `n` and `no` commit false. The line is echoed. This holds whatever the current value, Required or not. |
| Properties.BoolBlankKeepsCurrent | interact/bools_test.go:54-61 | Without Required, a blank line commits the current value. |
| Properties.BoolInvalidRetries | interact/bools_test.go:63-89 | Any other non-blank line prints `invalid input (not y, n, yes, or no)` and resolution goes on. |
| Properties.PasswordPromptHidesSecret | interact/passwords_test.go:74-87 | The prompt depends only on whether a secret is set, never on the secret. It ends in ` ()` when none is set and ` (has default)` when one is. Under Required there is no suffix. |
| Properties.PasswordCommitsVerbatim | interact/passwords_test.go:18-25 | A non-blank line is committed verbatim, and only `\r\n` follows the prompt. |
| Properties.PasswordBlankKeepsCurrent | interact/passwords_test.go:27-34 | Without Required, a blank line keeps the current secret, the empty one included. |
| Properties.PasswordTranscriptIsMasked | interact/passwords_test.go:43-50 | The transcript of a secret entry is identical for the typed input and for that input with every character masked. Nothing typed reaches the output. |
| Scenarios.BoolInvalidThenEnd | interact/bools_test.go:63-71 | Prompt `some prompt`, destination false, input `foo\r`: the exact transcript, destination false, end of input. |
| Scenarios.RequiredBoolBlankThenYes | interact/bools_test.go:173-180 | Required, input `foo\r\ry\r`: the diagnostic, a silent retry, then true is committed, with the exact transcript. |
| Scenarios.BogusListing | interact/choices_test.go:140-159 | The listing of Uno, Dos, Tres and Bogus is exactly `1: Uno\r\n2: Dos\r\n3: Tres\r\n4: Bogus\r\n`. |
| Scenarios.PointerListing | interact/choices_test.go:280-296 | The listing of the pointer choices with `none` is exactly `1: Uno\r\n2: Dos\r\n3: Tres\r\n4: none\r\n`. |
| Scenarios.UnassignableChoiceAborts | interact/choices_test.go:148-160 | Choosing `4` (the string `bogus`) into an `arbitrary` destination: the exact transcript, destination unchanged, `NotAssignableError(arbitrary, string)`. |
| Scenarios.NilDefaultZeroThenEnd | interact/choices_test.go:289-297 | Nil destination with a nil choice: marker ` (4)`, `0` refused with `must be 1-4`, then end of input with the destination still nil. |
| Scenarios.NilChoiceIntoPointer | interact/choices_test.go:591-598 | Destination pointing at `dos`: marker ` (2)`, then `4` (`none`) commits the nil pointer. |
| Scenarios.RequiredPasswordBlankThenSecret | interact/passwords_test.go:62-69 | Required secret, input `\rforty two\r`: two bare rounds, nothing echoed, then `forty two` is committed. |
| Scenarios.PasswordBlankKeepsDefault | interact/passwords_test.go:89-96 | Current secret `some default`: the prompt ends in ` (has default)`, and a blank line keeps the secret. |

## Left out

- Go reflection (`reflect.Type`, setting through `reflect.Value`) is replaced by the closed `Values.Type` tags and the `Values.Assignable` predicate. Interfaces are left out because no destination in the tables is an interface type, so assignability is type identity.
- The message of `NotAssignableError.Error()` (`interact/errors.go:17-19`) is not modelled. It applies `%T` to the reflected types and so names the reflection type rather than the user's types. The error is modelled as the two-field value the tables compare.
- Terminal raw mode, echo control, terminal line editing and the `io.Reader`/`io.Writer` plumbing are left out. Input is a character sequence and output is the transcript string.
- The Ginkgo table driver (`Example.Run` and its globals) is not part of this model.
- The plain-text (non-secret `string`) resolver is not modelled, because no table entry shows its behaviour. `Resolver.Supported` therefore requires a non-empty choice set, or a boolean or secret destination.
- Case-insensitive `Y`/`YES`/`N`/`NO` answers are not modelled. No table entry shows them, so answers are matched exactly.
- Decimal.ParseInt: does not model the 64-bit overflow of Go's `strconv.Atoi`, because integers are unbounded here. An over-long numeral is a number that is out of range in the model, whereas Atoi fails on it with a range error.
- Properties.RequiredBlankIsSilent: under Required a blank line is refused whatever the destination's current value. Every Required entry in the tables starts from a zero destination (`bools_test.go:92-182`, `passwords_test.go:37-70`), so refusing a blank line when the destination already holds `true` or a secret is extrapolated; keeping the non-zero value would be equally consistent with the tables.
- Required around a choice set is extrapolated, because no table entry shows it. The marker is dropped and a blank line is a silent retry, as for the other variants.
- Values.Zero: committing an untyped `nil` writes the destination type's zero value for every type. The tables only show the pointer case, where it is the nil pointer.
- Resolver.Loop: its contract states the type, unchanged-on-failure and end-of-input guarantees only. The full transcript of each case is stated by the `Properties` lemmas rather than by the function's own ensures.
- Resolver.Resolve: its contract states `Loop`'s guarantees and that the listing is a prefix of the transcript, no more. That the listing is printed only once is stated by `Properties.ListingNotRepeated`, and the committed value and the rest of the transcript by the other `Properties` and `Scenarios` lemmas.
