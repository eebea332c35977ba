/**
 * The choice-set variant: a numbered listing, a default found by matching the
 * destination's current value against the choices, 1-based selection with
 * range checks, and a commit-time assignability check.
 */
module Choices {
  import opened Wrappers
  import opened Values
  import opened Errors
  import opened Decimal
  import opened Steps

  datatype Choice = Choice(display: string, value: ChoiceValue)

  /** One line of the listing: `index: label`. */
  function ListingLine(index: nat, c: Choice): string
  {
    NatToString(index) + ": " + c.display + "\r\n"
  }

  /** The listing of `cs`, numbering the first choice `first`. */
  function ListingFrom(cs: seq<Choice>, first: nat): string
    decreases |cs|
  {
    if |cs| == 0 then "" else ListingLine(first, cs[0]) + ListingFrom(cs[1..], first + 1)
  }

  /** The listing printed once, before the first prompt, numbered from 1. */
  function Listing(cs: seq<Choice>): (l: string)
    ensures l == "" <==> cs == []
    ensures cs != [] ==> ListingLine(1, cs[0]) <= l
  {
    ListingFrom(cs, 1)
  }

  lemma {:induction false} ListingFromSplit(a: seq<Choice>, b: seq<Choice>, first: nat)
    ensures ListingFrom(a + b, first) == ListingFrom(a, first) + ListingFrom(b, first + |a|)
    decreases |a|
  {
    if |a| == 0 {
      assert a + b == b;
    } else {
      assert (a + b)[1..] == a[1..] + b;
      ListingFromSplit(a[1..], b, first + 1);
    }
  }

  /**
   * Every choice has its line in the listing, in declaration order: choice i
   * (0-based) is listed as `i+1: label`, right after the lines of the choices
   * before it.
   */
  lemma ListingInOrder(cs: seq<Choice>, i: nat)
    requires i < |cs|
    ensures ListingFrom(cs[..i], 1) + ListingLine(i + 1, cs[i]) <= Listing(cs)
  {
    assert cs == cs[..i + 1] + cs[i + 1..];
    ListingFromSplit(cs[..i + 1], cs[i + 1..], 1);
    assert cs[..i + 1] == cs[..i] + [cs[i]];
    ListingFromAppend(cs[..i], cs[i], 1);
  }

  lemma {:induction false} ListingFromAppend(cs: seq<Choice>, c: Choice, first: nat)
    ensures ListingFrom(cs + [c], first) == ListingFrom(cs, first) + ListingLine(first + |cs|, c)
    decreases |cs|
  {
    if |cs| == 0 {
      assert cs + [c] == [c];
      assert ListingFrom([c], first) == ListingLine(first, c) + ListingFrom([], first + 1);
    } else {
      assert (cs + [c])[1..] == cs[1..] + [c];
      ListingFromAppend(cs[1..], c, first + 1);
    }
  }

  /**
   * The listing follows declaration order: adding a choice at the end adds
   * exactly one line, `N+1: label`, at the end.
   */
  lemma ListingAppend(cs: seq<Choice>, c: Choice)
    ensures Listing(cs + [c]) == Listing(cs) + ListingLine(|cs| + 1, c)
  {
    ListingFromAppend(cs, c, 1);
  }

  /** The 1-based index of the first choice matching `current`, if any. */
  function DefaultIndex(cs: seq<Choice>, current: Value): (k: Option<nat>)
    ensures k.Some? ==> 1 <= k.value <= |cs| && Matches(current, cs[k.value - 1].value)
    ensures k.Some? ==> forall j :: 0 <= j < k.value - 1 ==> !Matches(current, cs[j].value)
    ensures k.None? ==> forall j :: 0 <= j < |cs| ==> !Matches(current, cs[j].value)
    decreases |cs|
  {
    if |cs| == 0 then None
    else if Matches(current, cs[0].value) then Some(1)
    else
      match DefaultIndex(cs[1..], current)
      case None => None
      case Some(k) => Some(k + 1)
  }

  /**
   * Write a chosen value into a cell of type `destType`: an untyped nil
   * becomes the destination type's zero value (a nil pointer for a pointer
   * destination); a typed value is written unchanged if its type is assignable
   * and is otherwise refused with both types named.
   */
  function Assign(destType: Type, c: ChoiceValue): (r: Result<Value, NotAssignableError>)
    ensures r.Success? ==> TypeOf(r.value) == destType
    ensures c.UntypedNil? ==> r == Success(Zero(destType))
    ensures c.Typed? ==> (r.Success? <==> Assignable(TypeOf(c.v), destType))
    ensures c.Typed? && r.Success? ==> r.value == c.v
    ensures r.Failure? ==> c.Typed? && r.error == NotAssignableError(destType, TypeOf(c.v))
  {
    match c
    case UntypedNil => Success(Zero(destType))
    case Typed(v) =>
      if Assignable(TypeOf(v), destType) then Success(v)
      else Failure(NotAssignableError(destType, TypeOf(v)))
  }

  /** Commit choice `k` (1-based), or abort if its value cannot be assigned. */
  function Select(cs: seq<Choice>, current: Value, k: nat): Step
    requires 1 <= k <= |cs|
  {
    match Assign(TypeOf(current), cs[k - 1].value)
    case Success(v) => Commit(v)
    case Failure(e) => Abort(e)
  }

  /** Why a number outside the choices is refused. */
  function RangeReason(n: nat): string
  {
    "must be 1-" + NatToString(n)
  }

  /** Choice `i` (0-based) is the first that matches the current value. */
  predicate IsFirstMatch(cs: seq<Choice>, current: Value, i: nat)
  {
    && i < |cs|
    && Matches(current, cs[i].value)
    && forall j :: 0 <= j < i ==> !Matches(current, cs[j].value)
  }

  lemma FirstMatchIsDefault(cs: seq<Choice>, current: Value, i: nat)
    requires IsFirstMatch(cs, current, i)
    ensures DefaultIndex(cs, current) == Some(i + 1)
  {
    var k := DefaultIndex(cs, current);
    assert k.Some?;
    assert !(k.value - 1 < i);
    assert !(i < k.value - 1);
  }

  lemma DefaultIsTheFirstMatch(cs: seq<Choice>, current: Value)
    ensures forall i: nat :: IsFirstMatch(cs, current, i) ==> DefaultIndex(cs, current) == Some(i + 1)
  {
    forall i: nat | IsFirstMatch(cs, current, i)
      ensures DefaultIndex(cs, current) == Some(i + 1)
    {
      FirstMatchIsDefault(cs, current, i);
    }
  }

  /**
   * The prompt suffix: the first matching choice's number in parentheses, or
   * nothing when no choice matches or an answer is required.
   */
  function Suffix(cs: seq<Choice>, current: Value, required: bool): (s: string)
    ensures s == "" <==> required || forall j :: 0 <= j < |cs| ==> !Matches(current, cs[j].value)
    ensures !required ==> forall i: nat :: IsFirstMatch(cs, current, i) ==> s == " (" + NatToString(i + 1) + ")"
  {
    DefaultIsTheFirstMatch(cs, current);
    if required then ""
    else
      match DefaultIndex(cs, current)
      case None => ""
      case Some(k) => " (" + NatToString(k) + ")"
  }

  /**
   * The decision on one line (the blank-line rule of Required is applied by
   * the loop). A blank line keeps the current value when a choice matches it
   * and otherwise prompts again silently. A typed line is accepted exactly
   * when it reads as a number in 1..N, and then selects that choice; text
   * that is not a number and numbers out of range get their own diagnostic.
   */
  function Decide(cs: seq<Choice>, current: Value, line: string): (st: Step)
    ensures line == "" ==> st == Commit(current) || st == Retry("")
    ensures st == Retry("") <==> line == "" && forall j :: 0 <= j < |cs| ==> !Matches(current, cs[j].value)
    ensures !st.Retry? && line != "" ==> ParseInt(line).Some? && 1 <= ParseInt(line).value <= |cs|
    ensures st.Retry? && line != "" ==>
              st.diagnostic == InvalidSelection(NotANumber) || st.diagnostic == InvalidSelection(RangeReason(|cs|))
    ensures st.Commit? ==> TypeOf(st.value) == TypeOf(current)
    ensures st.Abort? ==> line != ""
    ensures line != "" && ParseInt(line).None? ==> st == Retry(InvalidSelection(NotANumber))
    ensures line != "" && ParseInt(line).Some? && !(1 <= ParseInt(line).value <= |cs|) ==>
              st == Retry(InvalidSelection(RangeReason(|cs|)))
    ensures line != "" && ParseInt(line).Some? && 1 <= ParseInt(line).value <= |cs| ==>
              var a := Assign(TypeOf(current), cs[ParseInt(line).value - 1].value);
              && !st.Retry?
              && (st.Commit? <==> a.Success?)
              && (st.Commit? ==> a == Success(st.value))
              && (st.Abort? ==> a == Failure(st.error))
  {
    if line == "" then
      match DefaultIndex(cs, current)
      case None => Retry("")
      case Some(k) => Select(cs, current, k)
    else
      match ParseInt(line)
      case None => Retry(InvalidSelection(NotANumber))
      case Some(i) =>
        if 1 <= i <= |cs| then Select(cs, current, i)
        else Retry(InvalidSelection(RangeReason(|cs|)))
  }

  /**
   * A line that commits or aborts does so through exactly one choice: the
   * value committed, or the error raised, is what assigning that choice gives.
   */
  lemma DecisionIndex(cs: seq<Choice>, current: Value, line: string) returns (i: nat)
    requires Decide(cs, current, line).Commit? || Decide(cs, current, line).Abort?
    ensures i < |cs|
    ensures Decide(cs, current, line).Commit? ==>
              Assign(TypeOf(current), cs[i].value) == Success(Decide(cs, current, line).value)
    ensures Decide(cs, current, line).Abort? ==>
              Assign(TypeOf(current), cs[i].value) == Failure(Decide(cs, current, line).error)
  {
    if line == "" {
      i := DefaultIndex(cs, current).value - 1;
    } else {
      i := ParseInt(line).value - 1;
    }
  }
}
