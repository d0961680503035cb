/** The immutable container Result<T, E>: either a success value or an error.
    An instance is the triple of the Java class's three final fields; which
    side it holds is the flag `present`, fixed when the instance is built.
    The static factories return an Outcome because each of them may throw. */
module Results {
  import opened JavaLang

  datatype Result<T, E> = Result(present: bool, value: Nullable<T>, error: Nullable<E>)
  {
    /** The shape of every instance the factories build (the constructor
        itself is private): a present result holds a value and no error, an
        empty one an error and no value. */
    predicate Valid() {
      if present then value.NonNull? && error.Null? else value.Null? && error.NonNull?
    }

    /** get(): the value when present, otherwise NoSuchElementException. */
    function Get(): (r: Outcome<T>)
      requires Valid()
      ensures r.Returns? <==> IsPresent()
      ensures r.Returns? ==> value == NonNull(r.value)
      ensures r.Throws? ==> r.failure == NoValuePresent
    {
      if present then Returns(value.obj) else Throws(NoValuePresent)
    }

    /** getError(): the error when empty, otherwise NoSuchElementException. */
    function GetError(): (r: Outcome<E>)
      requires Valid()
      ensures r.Returns? <==> IsEmpty()
      ensures r.Returns? ==> error == NonNull(r.value)
      ensures r.Throws? ==> r.failure == NoErrorPresent
    {
      if !present then Returns(error.obj) else Throws(NoErrorPresent)
    }

    function IsPresent(): bool {
      present
    }

    function IsEmpty(): bool {
      !present
    }

    /** hashCode(): Objects.hash(present, value, error), with the payloads'
        own hashCode methods given as `hT` and `hE`. */
    function HashCode(hT: T -> Int32, hE: E -> Int32): Int32 {
      ArraysHashCode([BooleanHashCode(present), ElementHashCode(hT, value), ElementHashCode(hE, error)])
    }

    /** equals(other): the flags agree and the values and the errors are
        Objects.equals, with the payloads' own equals methods given as `eqT` and `eqE`. */
    function Equals(eqT: (T, T) -> bool, eqE: (E, E) -> bool, other: Result<T, E>): bool {
      && present == other.present
      && ObjectsEquals(eqT, value, other.value)
      && ObjectsEquals(eqE, error, other.error)
    }

    /** toString(), with the payloads' own toString methods given as `showT` and `showE`. */
    function ToString(showT: T -> string, showE: E -> string): string {
      if present then "Result[" + StringValueOf(showT, value) + "]"
      else "Error[" + StringValueOf(showE, error) + "]"
    }
  }

  // ---------------------------------------------------------------------------
  // Construction

  /** of(value): a present result, or NullPointerException for a null value. */
  function Of<T, E>(v: Nullable<T>): (r: Outcome<Result<T, E>>)
    ensures r.Throws? <==> v.Null?
    ensures r.Throws? ==> r.failure == NullArgument(ValueParam)
    ensures r.Returns? ==> r.value.Valid() && r.value.IsPresent() && !r.value.IsEmpty()
    ensures r.Returns? ==> r.value.Get() == Returns(v.obj)
  {
    if v.Null? then Throws(NullArgument(ValueParam)) else Returns(Result(true, v, Null))
  }

  /** error(error): an empty result, or NullPointerException for a null error. */
  function Error<T, E>(e: Nullable<E>): (r: Outcome<Result<T, E>>)
    ensures r.Throws? <==> e.Null?
    ensures r.Throws? ==> r.failure == NullArgument(ErrorParam)
    ensures r.Returns? ==> r.value.Valid() && !r.value.IsPresent() && r.value.IsEmpty()
    ensures r.Returns? ==> r.value.GetError() == Returns(e.obj)
  {
    if e.Null? then Throws(NullArgument(ErrorParam)) else Returns(Result(false, Null, e))
  }

  /** ofNullable(value, error): the error must not be null, whatever the value;
      then a present result if the value is not null, otherwise an empty one. */
  function OfNullable<T, E>(v: Nullable<T>, e: Nullable<E>): (r: Outcome<Result<T, E>>)
    ensures r.Throws? <==> e.Null?
    ensures r.Throws? ==> r.failure == NullArgument(ErrorParam)
    ensures r.Returns? ==> r.value.Valid() && (r.value.IsPresent() <==> v.NonNull?)
    ensures r.Returns? && v.NonNull? ==> r.value.Get() == Returns(v.obj)
    ensures r.Returns? && v.Null? ==> r.value.GetError() == Returns(e.obj)
  {
    if e.Null? then Throws(NullArgument(ErrorParam))
    else if v.NonNull? then Of(v) else Error(e)
  }

  /** The null check on the error comes first: a null error is refused even
      when the value alone would have made a valid present result. */
  lemma OfNullableChecksErrorFirst<T, E>(v: Nullable<T>)
    ensures OfNullable<T, E>(v, Null) == Throws(NullArgument(ErrorParam))
    ensures v.NonNull? ==> Of<T, E>(v).Returns?
  {
  }

  /** With a non-null error, ofNullable is of(value) or error(error). */
  lemma OfNullableDelegates<T, E>(v: Nullable<T>, e: Nullable<E>)
    requires e.NonNull?
    ensures v.NonNull? ==> OfNullable(v, e) == Of(v)
    ensures v.Null? ==> OfNullable(v, e) == Error(e)
  {
  }

  // ---------------------------------------------------------------------------
  // The invariant

  /** The instances the factories can build are exactly the valid triples. */
  lemma ValidIsReachable<T, E>(r: Result<T, E>)
    ensures r.Valid() <==> (Of(r.value) == Returns(r) || Error(r.error) == Returns(r))
  {
  }

  /** Exactly one of isPresent() and isEmpty() holds, and it says which field is occupied. */
  lemma ExactlyOneVariant<T, E>(r: Result<T, E>)
    requires r.Valid()
    ensures r.IsPresent() != r.IsEmpty()
    ensures r.IsPresent() <==> r.value.NonNull?
    ensures r.IsEmpty() <==> r.error.NonNull?
    ensures r.value.NonNull? != r.error.NonNull?
  {
  }

  /** Extraction succeeds on exactly one side. */
  lemma ExactlyOneExtraction<T, E>(r: Result<T, E>)
    requires r.Valid()
    ensures r.Get().Returns? != r.GetError().Returns?
  {
  }

  // ---------------------------------------------------------------------------
  // Equality and hashing

  /** equals is an equivalence whenever the payloads' equals methods are. */
  lemma EqualsIsEquivalence<T(!new), E(!new)>(eqT: (T, T) -> bool, eqE: (E, E) -> bool)
    requires IsEquivalence(eqT) && IsEquivalence(eqE)
    ensures IsEquivalence((a: Result<T, E>, b: Result<T, E>) => a.Equals(eqT, eqE, b))
  {
    ObjectsEqualsIsEquivalence(eqT);
    ObjectsEqualsIsEquivalence(eqE);
  }

  /** When the payloads' equals is structural, equals is equality of the triples. */
  lemma EqualsIsStructural<T, E>(a: Result<T, E>, b: Result<T, E>)
    ensures a.Equals((x: T, y: T) => x == y, (x: E, y: E) => x == y, b) <==> a == b
  {
  }

  /** Two present results are equal iff their values are; two empty ones iff
      their errors are; a present result never equals an empty one. */
  lemma EqualsOnFactories<T, E>(eqT: (T, T) -> bool, eqE: (E, E) -> bool, x: T, x': T, y: E, y': E)
    ensures Of<T, E>(NonNull(x)).value.Equals(eqT, eqE, Of(NonNull(x')).value) <==> eqT(x, x')
    ensures Error<T, E>(NonNull(y)).value.Equals(eqT, eqE, Error(NonNull(y')).value) <==> eqE(y, y')
    ensures !Of<T, E>(NonNull(x)).value.Equals(eqT, eqE, Error(NonNull(y)).value)
    ensures !Error<T, E>(NonNull(y)).value.Equals(eqT, eqE, Of(NonNull(x)).value)
  {
  }

  /** Equal results have equal hash codes, provided each payload's hashCode
      agrees with its equals. */
  lemma EqualResultsHaveEqualHashes<T(!new), E(!new)>(
    eqT: (T, T) -> bool, eqE: (E, E) -> bool, hT: T -> Int32, hE: E -> Int32,
    a: Result<T, E>, b: Result<T, E>)
    requires HashAgreesWith(eqT, hT) && HashAgreesWith(eqE, hE)
    requires a.Equals(eqT, eqE, b)
    ensures a.HashCode(hT, hE) == b.HashCode(hT, hE)
  {
  }

  /** The hash code in closed form: 31^2 * (31 + h(present)) + 31 * h(value) + h(error), as an int. */
  lemma HashCodeClosedForm<T, E>(hT: T -> Int32, hE: E -> Int32, r: Result<T, E>)
    ensures r.HashCode(hT, hE) == Wrap(961 * (31 + BooleanHashCode(r.present) as int)
                                       + 31 * (ElementHashCode(hT, r.value) as int)
                                       + ElementHashCode(hE, r.error) as int)
  {
    var b, v, e := BooleanHashCode(r.present), ElementHashCode(hT, r.value), ElementHashCode(hE, r.error);
    var hs := [b, v, e];
    ArraysHashCodeIsWrappedExactHash(hs);
    assert hs[..2] == [b, v] && hs[..2][..1] == [b] && hs[..2][..1][..0] == [];
    assert ExactHash([b]) == 31 + b as int;
    assert ExactHash([b, v]) == 31 * (31 + b as int) + v as int;
    assert ExactHash(hs) == 961 * (31 + b as int) + 31 * (v as int) + e as int;
  }

  /** The hash codes of the two kinds of valid result. */
  lemma HashCodeOfFactories<T, E>(hT: T -> Int32, hE: E -> Int32, x: T, y: E)
    ensures Of<T, E>(NonNull(x)).value.HashCode(hT, hE) == Wrap(1212782 + 31 * (hT(x) as int))
    ensures Error<T, E>(NonNull(y)).value.HashCode(hT, hE) == Wrap(1218548 + hE(y) as int)
  {
    HashCodeClosedForm(hT, hE, Of<T, E>(NonNull(x)).value);
    HashCodeClosedForm(hT, hE, Error<T, E>(NonNull(y)).value);
  }

  // ---------------------------------------------------------------------------
  // Rendering

  /** A present result renders as Result[value], an empty one as Error[error]. */
  lemma ToStringOfFactories<T, E>(showT: T -> string, showE: E -> string, x: T, y: E)
    ensures Of<T, E>(NonNull(x)).value.ToString(showT, showE) == "Result[" + showT(x) + "]"
    ensures Error<T, E>(NonNull(y)).value.ToString(showT, showE) == "Error[" + showE(y) + "]"
  {
  }

  /** The rendering tells the two variants apart, whatever the payloads render as. */
  lemma ToStringDistinguishesVariants<T, E>(
    showT: T -> string, showE: E -> string, a: Result<T, E>, b: Result<T, E>)
    requires a.ToString(showT, showE) == b.ToString(showT, showE)
    ensures a.present == b.present
  {
    assert a.ToString(showT, showE)[0] == (if a.present then 'R' else 'E');
    assert b.ToString(showT, showE)[0] == (if b.present then 'R' else 'E');
  }

  /** The payload text sits between the frame's two brackets. */
  lemma ToStringPayload<T, E>(showT: T -> string, showE: E -> string, r: Result<T, E>)
    ensures var s := r.ToString(showT, showE);
            var n := if r.present then 7 else 6;
            n < |s| && s[n..|s| - 1] == (if r.present then StringValueOf(showT, r.value)
                                         else StringValueOf(showE, r.error))
  {
    var s := r.ToString(showT, showE);
    var p := if r.present then StringValueOf(showT, r.value) else StringValueOf(showE, r.error);
    var prefix := if r.present then "Result[" else "Error[";
    assert s == prefix + p + "]";
    assert s[|prefix|..|s| - 1] == p;
  }

  /** When the payloads render injectively, so do valid results: the text of
      a valid result determines it. */
  lemma ToStringInjective<T, E>(showT: T -> string, showE: E -> string, a: Result<T, E>, b: Result<T, E>)
    requires forall x, x' :: showT(x) == showT(x') ==> x == x'
    requires forall y, y' :: showE(y) == showE(y') ==> y == y'
    requires a.Valid() && b.Valid()
    requires a.ToString(showT, showE) == b.ToString(showT, showE)
    ensures a == b
  {
    ToStringDistinguishesVariants(showT, showE, a, b);
    ToStringPayload(showT, showE, a);
    ToStringPayload(showT, showE, b);
  }
}
