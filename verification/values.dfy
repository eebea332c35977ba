/**
 * Values and runtime types of the destination cells and choices used by the
 * resolution engine. Go reflection is replaced by a closed set of type tags:
 * the types the test tables write into (`bool`, `interact.Password`,
 * `arbitrary`, `*arbitrary`) and the `string` of the misconfigured choice.
 */
module Values {

  /** Runtime type tags. */
  datatype Type =
    | BoolType              // bool
    | PasswordType          // interact.Password
    | StringType            // string
    | ArbitraryType         // the test tables' `arbitrary` struct
    | ArbitraryPtrType      // *arbitrary

  /**
   * A typed value. A pointer to an `arbitrary` is represented by what it points
   * to, so two pointers are equal exactly when their targets are: the engine
   * compares pointer choices by pointed-to contents, never by address.
   */
  datatype Value =
    | Bool(b: bool)
    | Password(secret: string)
    | Str(s: string)
    | Arbitrary(field: string)
    | NilArbitraryPtr               // a typed nil `*arbitrary`
    | ArbitraryPtr(target: string)  // a non-nil `*arbitrary` pointing at `arbitrary{target}`

  /** What a choice may carry: an untyped `nil`, or a typed value. */
  datatype ChoiceValue = UntypedNil | Typed(v: Value)

  function TypeOf(v: Value): Type
  {
    match v
    case Bool(_) => BoolType
    case Password(_) => PasswordType
    case Str(_) => StringType
    case Arbitrary(_) => ArbitraryType
    case NilArbitraryPtr => ArbitraryPtrType
    case ArbitraryPtr(_) => ArbitraryPtrType
  }

  /** The zero value of a type (`false`, `""`, `arbitrary{}`, a nil pointer). */
  function Zero(t: Type): (z: Value)
    ensures TypeOf(z) == t
    ensures t == ArbitraryPtrType ==> z.NilArbitraryPtr?
  {
    match t
    case BoolType => Bool(false)
    case PasswordType => Password("")
    case StringType => Str("")
    case ArbitraryType => Arbitrary("")
    case ArbitraryPtrType => NilArbitraryPtr
  }

  /** Only a pointer can be nil. */
  predicate IsNil(v: Value)
  {
    v.NilArbitraryPtr?
  }

  /**
   * Whether a value of type `valueType` may be stored in a cell declared with
   * type `destType`. Go admits identical types, or an interface the value
   * implements; the closed set of types here has no interfaces.
   */
  predicate Assignable(valueType: Type, destType: Type)
  {
    valueType == destType
  }

  /**
   * Whether a choice equals the destination's current value, for choosing the
   * displayed default: a nil destination equals an untyped or a typed nil
   * choice, and otherwise values are compared deeply (through one pointer).
   */
  function Matches(current: Value, choice: ChoiceValue): (m: bool)
    ensures choice.Typed? ==> (m <==> choice.v == current)
    ensures choice.UntypedNil? ==> (m <==> current == Zero(ArbitraryPtrType))
  {
    match choice
    case UntypedNil => IsNil(current)
    case Typed(v) => v == current
  }

  /** A nil destination matches both spellings of a nil choice. */
  lemma NilMatchesEitherNil()
    ensures Matches(NilArbitraryPtr, UntypedNil)
    ensures Matches(NilArbitraryPtr, Typed(NilArbitraryPtr))
  {
  }

  /**
   * Pointer choices match by pointed-to contents, an untyped nil choice never
   * matches a non-nil destination, and a value never matches a value of
   * another type.
   */
  lemma MatchesCharacterization(current: Value, choice: ChoiceValue)
    ensures current.ArbitraryPtr? && choice.Typed? && choice.v.ArbitraryPtr? ==>
              (Matches(current, choice) <==> current.target == choice.v.target)
    ensures !IsNil(current) ==> !Matches(current, UntypedNil)
    ensures choice.Typed? && TypeOf(choice.v) != TypeOf(current) ==> !Matches(current, choice)
  {
  }
}
