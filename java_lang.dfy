/** The few notions of the Java platform that the Result class leans on:
    references that may be null, the exceptions it throws (as tags), 32-bit
    int arithmetic, and the JDK helpers Objects.equals, Objects.hash and
    String.valueOf, each stated over payload operations passed in as
    parameters because the payload's own equals, hashCode and toString are
    code this model cannot see. */
module JavaLang {

  /** A Java reference of type T: either null or an object. */
  datatype Nullable<T> = Null | NonNull(obj: T)

  /** The argument that a null check refused. */
  datatype Param = ValueParam | ErrorParam

  /** The exceptions the Result class throws, as tags:
      NullArgument is the NullPointerException of Objects.requireNonNull,
      NoValuePresent and NoErrorPresent are the two NoSuchElementExceptions. */
  datatype Failure =
    | NullArgument(param: Param)
    | NoValuePresent
    | NoErrorPresent

  /** What a Java call does: return a value, or throw. */
  datatype Outcome<R> = Returns(value: R) | Throws(failure: Failure)

  /** The detail message each exception carries. */
  function Message(f: Failure): string {
    match f
    case NullArgument(ValueParam) => "value must not be null"
    case NullArgument(ErrorParam) => "error must not be null"
    case NoValuePresent => "No value present"
    case NoErrorPresent => "No error present"
  }

  /** The four messages are pairwise different, so a message names its exception. */
  lemma MessageInjective(f: Failure, g: Failure)
    ensures Message(f) == Message(g) <==> f == g
  {
  }

  // ---------------------------------------------------------------------------
  // 32-bit int

  const TWO_TO_THE_32: int := 0x1_0000_0000

  /** Java's int. */
  newtype Int32 = x: int | -0x8000_0000 <= x < 0x8000_0000

  /** The int that Java arithmetic yields for the mathematical value x:
      x reduced modulo 2^32 into the signed range. */
  function Wrap(x: int): (r: Int32)
    ensures (x - r as int) % TWO_TO_THE_32 == 0
    ensures -0x8000_0000 <= x < 0x8000_0000 ==> r as int == x
  {
    (((x + 0x8000_0000) % TWO_TO_THE_32) - 0x8000_0000) as Int32
  }

  /** Wrapping an intermediate result of `31 * result + h` changes nothing:
      Java may overflow at every step of a hash loop and still compute the
      wrap of the exact value. */
  lemma WrapMulAdd(x: int, y: int)
    ensures Wrap(31 * (Wrap(x) as int) + y) == Wrap(31 * x + y)
  {
    var w := Wrap(x) as int;
    var k := (x - w) / TWO_TO_THE_32;
    assert x - w == k * TWO_TO_THE_32;
    assert 31 * x + y == (31 * w + y) + (31 * k) * TWO_TO_THE_32;
    ModuloShift(31 * w + y, 31 * k);
  }

  /** Adding a multiple of 2^32 does not change the wrap. */
  lemma ModuloShift(a: int, k: int)
    ensures Wrap(a + k * TWO_TO_THE_32) == Wrap(a)
  {
    var b := a + 0x8000_0000;
    assert (b + k * TWO_TO_THE_32) % TWO_TO_THE_32 == b % TWO_TO_THE_32;
  }

  // ---------------------------------------------------------------------------
  // The JDK helpers

  /** Objects.equals(a, b): two nulls are equal, null and an object are not,
      and two objects are compared by their equals method `eq`. */
  function ObjectsEquals<T>(eq: (T, T) -> bool, a: Nullable<T>, b: Nullable<T>): bool {
    match (a, b)
    case (Null, Null) => true
    case (NonNull(x), NonNull(y)) => eq(x, y)
    case _ => false
  }

  /** Boolean.hashCode. */
  function BooleanHashCode(b: bool): Int32 {
    if b then 1231 else 1237
  }

  /** The contribution of one element to Objects.hash: 0 for null, else its hashCode `h`. */
  function ElementHashCode<T>(h: T -> Int32, a: Nullable<T>): Int32 {
    match a
    case Null => 0
    case NonNull(x) => h(x)
  }

  /** Arrays.hashCode over the elements' hash codes, which is what Objects.hash
      returns: start from 1 and fold `31 * result + h` over the elements in order,
      in int arithmetic. */
  function ArraysHashCode(hs: seq<Int32>): Int32 {
    if |hs| == 0 then 1
    else Wrap(31 * (ArraysHashCode(hs[..|hs| - 1]) as int) + hs[|hs| - 1] as int)
  }

  /** The same fold computed on mathematical integers and wrapped once at the end:
      an independent reference for ArraysHashCode. */
  function ExactHash(hs: seq<Int32>): int {
    if |hs| == 0 then 1
    else 31 * ExactHash(hs[..|hs| - 1]) + hs[|hs| - 1] as int
  }

  lemma {:induction false} ArraysHashCodeIsWrappedExactHash(hs: seq<Int32>)
    ensures ArraysHashCode(hs) == Wrap(ExactHash(hs))
  {
    if |hs| > 0 {
      var init := hs[..|hs| - 1];
      ArraysHashCodeIsWrappedExactHash(init);
      WrapMulAdd(ExactHash(init), hs[|hs| - 1] as int);
    }
  }

  /** String.valueOf, which string concatenation applies to a reference:
      "null" for null, else the object's toString `show`. */
  function StringValueOf<T>(show: T -> string, a: Nullable<T>): string {
    match a
    case Null => "null"
    case NonNull(x) => show(x)
  }

  // ---------------------------------------------------------------------------
  // The contract of equals and hashCode (java.lang.Object)

  /** `eq` is reflexive, symmetric and transitive. */
  ghost predicate IsEquivalence<T(!new)>(eq: (T, T) -> bool) {
    && (forall x :: eq(x, x))
    && (forall x, y :: eq(x, y) ==> eq(y, x))
    && (forall x, y, z :: eq(x, y) && eq(y, z) ==> eq(x, z))
  }

  /** Objects that are equal under `eq` have the same hash code under `h`. */
  ghost predicate HashAgreesWith<T(!new)>(eq: (T, T) -> bool, h: T -> Int32) {
    forall x, y :: eq(x, y) ==> h(x) == h(y)
  }

  /** Objects.equals is an equivalence on nullable references whenever the
      objects' own equals is one. */
  lemma ObjectsEqualsIsEquivalence<T(!new)>(eq: (T, T) -> bool)
    requires IsEquivalence(eq)
    ensures IsEquivalence((a: Nullable<T>, b: Nullable<T>) => ObjectsEquals(eq, a, b))
  {
  }
}
