# commons-result in Dafny

A model of `Result<T, E>` from commons-result. It is an immutable Java container that
holds either a success value or an error. An instance is the triple of the class's three
final fields: the flag `present`, the `value` and the `error`. That flag is set once, by the
private constructor, and it decides which side the instance holds. Clients build instances
only through the three static factories `of`, `error` and `ofNullable`. They read them through
`isPresent`, `isEmpty`, `get` and `getError`, and through the overridden `equals`,
`hashCode` and `toString`.

Files:

- `java_lang.dfy`, module `JavaLang`, holds the Java notions the class relies on:
  - `Nullable<T>`, a reference that may be null;
  - the class's exceptions as `Failure` tags inside an `Outcome` (returns or throws);
  - the exceptions' messages;
  - 32-bit `int` wrap-around;
  - `Objects.equals`, `Objects.hash` / `Arrays.hashCode`, `Boolean.hashCode` and `String.valueOf`;
  - the `equals`/`hashCode` contract of `java.lang.Object`.
- `result.dfy`, module `Results`, holds the class. `Result<T, E>` is a datatype over the
  triple. `Valid()` is the invariant the private constructor and the factories maintain.
  The factories are module functions that return `Outcome<Result<T, E>>`. The instance
  methods are member functions. Then come the lemmas.

The payloads' own `equals`, `hashCode` and `toString` are code this model cannot see. Each
operation that calls them takes them as function parameters (`eqT`/`eqE`, `hT`/`hE`,
`showT`/`showE`). The properties that depend on them assume what Java's `Object` contract
demands: `equals` is an equivalence, and `hashCode` agrees with it.

## Model

| member | source | states |
|---|---|---|
| `Results.Of` | src/main/java/io/github/chuikingshek/commons/result/Result.java:24-27 | throws the value null-check failure exactly for a null value; otherwise gives a valid, present, non-empty result whose `get()` returns the value |
| `Results.Error` | src/main/java/io/github/chuikingshek/commons/result/Result.java:34-37 | throws the error null-check failure exactly for a null error; otherwise gives a valid, empty, non-present result whose `getError()` returns the error |
| `Results.OfNullable` | src/main/java/io/github/chuikingshek/commons/result/Result.java:29-32 | throws, with the error null-check failure, exactly when the error is null (whatever the value); otherwise gives a valid result that is present iff the value is non-null and yields the value, or else the error |
| `Results.OfNullableChecksErrorFirst` | src/main/java/io/github/chuikingshek/commons/result/Result.java:30 | `ofNullable(v, null)` fails on the error argument, even for a non-null `v` that `of` would accept |
| `Results.OfNullableDelegates` | src/main/java/io/github/chuikingshek/commons/result/Result.java:31 | with a non-null error, `ofNullable(v, e)` is `of(v)` for non-null `v` and `error(e)` for null `v` |
| `Results.Result.Get` | src/main/java/io/github/chuikingshek/commons/result/Result.java:42-47 | on a valid result, returns exactly when present, and then returns the stored non-null value; otherwise throws NoValuePresent |
| `Results.Result.GetError` | src/main/java/io/github/chuikingshek/commons/result/Result.java:52-57 | on a valid result, returns exactly when empty, and then returns the stored non-null error; otherwise throws NoErrorPresent |
| `Results.ValidIsReachable` | src/main/java/io/github/chuikingshek/commons/result/Result.java:18-37 | a triple is valid iff `of` or `error` builds exactly that instance: the invariant describes precisely the reachable instances |
| `Results.ExactlyOneVariant` | src/main/java/io/github/chuikingshek/commons/result/Result.java:59-65 | `Result.IsPresent`/`Result.IsEmpty` model `isPresent()`/`isEmpty()`: on a result satisfying `Result.Valid` exactly one of them holds; `isPresent()` iff the value is non-null, `isEmpty()` iff the error is non-null, never both |
| `Results.ExactlyOneExtraction` | src/main/java/io/github/chuikingshek/commons/result/Result.java:42-57 | on a valid result exactly one of `get()` and `getError()` returns |
| `Results.EqualsIsEquivalence` | src/main/java/io/github/chuikingshek/commons/result/Result.java:73-81 | `Result.Equals` is reflexive, symmetric and transitive whenever the payloads' `equals` are |
| `Results.EqualsIsStructural` | src/main/java/io/github/chuikingshek/commons/result/Result.java:77-80 | `Result.Equals` models `equals`: with structural payload equality, it holds iff the flags, the values and the errors are all equal |
| `Results.EqualsOnFactories` | src/main/java/io/github/chuikingshek/commons/result/Result.java:78-80 | `of(x)` equals `of(x')` iff `x` equals `x'`, same for `error`, and `of(x)` never equals `error(y)` in either order |
| `Results.EqualResultsHaveEqualHashes` | src/main/java/io/github/chuikingshek/commons/result/Result.java:68-81 | results equal under `Result.Equals` have equal `Result.HashCode`, when the payloads' `hashCode` agrees with their `equals` |
| `Results.HashCodeClosedForm` | src/main/java/io/github/chuikingshek/commons/result/Result.java:69 | `Result.HashCode` models `hashCode`: it is `961 * (31 + hash(present)) + 31 * hash(value) + hash(error)` reduced to a 32-bit int, with 0 for a null field |
| `Results.HashCodeOfFactories` | src/main/java/io/github/chuikingshek/commons/result/Result.java:68-70 | `of(x).hashCode()` is `1212782 + 31 * x.hashCode()` and `error(y).hashCode()` is `1218548 + y.hashCode()`, both reduced to a 32-bit int |
| `Results.ToStringOfFactories` | src/main/java/io/github/chuikingshek/commons/result/Result.java:85 | `Result.ToString` models `toString`: `of(x)` renders as `Result[` + x + `]` and `error(y)` as `Error[` + y + `]` |
| `Results.ToStringDistinguishesVariants` | src/main/java/io/github/chuikingshek/commons/result/Result.java:85 | two results with the same rendering have the same flag, whatever the payloads render as |
| `Results.ToStringPayload` | src/main/java/io/github/chuikingshek/commons/result/Result.java:85 | the text between the frame's opening `[` and the closing `]` is the String.valueOf of the occupied field |
| `Results.ToStringInjective` | src/main/java/io/github/chuikingshek/commons/result/Result.java:84-86 | if the payloads render injectively, two valid results with the same rendering are the same result |
| `JavaLang.MessageInjective` | src/main/java/io/github/chuikingshek/commons/result/Result.java:25-56 | the four exception messages ("value must not be null", "error must not be null", "No value present", "No error present") differ pairwise, so each names its failure |
| `JavaLang.ObjectsEqualsIsEquivalence` | src/main/java/io/github/chuikingshek/commons/result/Result.java:79-80 | `Objects.equals` over nullable references is an equivalence whenever the objects' `equals` is |
| `JavaLang.Wrap` | src/main/java/io/github/chuikingshek/commons/result/Result.java:69 | the 32-bit result differs from the exact value by a multiple of 2^32 and equals it when it is in range |
| `JavaLang.ArraysHashCodeIsWrappedExactHash` | src/main/java/io/github/chuikingshek/commons/result/Result.java:69 | the `Objects.hash` fold, overflowing at every step, equals the exact integer fold reduced to 32 bits once at the end |

## Left out

- Reference identity: the `this == obj` shortcut of `equals` (Result.java:74-76) has no counterpart, because Dafny datatypes are values. Nor has the `a == b` shortcut inside `Objects.equals`: for one shared non-null payload Java returns true without calling its `equals`, where `JavaLang.ObjectsEquals` evaluates `eq(x, x)`. Neither makes a difference when the payloads' `equals` is reflexive, as Java's contract demands.
- `Results.Result.Equals` takes a `Result<T, E>`, not an arbitrary `Object`. The `instanceof Result<?, ?>` test (Result.java:77) and comparison with results of other type arguments are not modelled.
- `Objects.equals(x, null)` for a non-null `x` calls `x.equals(null)`. The model takes this to be false, as the `Object` contract requires. A payload that breaks that contract is not modelled.
- The payloads' own `equals`, `hashCode` and `toString` belong to the wrapped types, so they are parameters and not modelled code. The boxing of `present` is modelled only through `Boolean.hashCode` (1231 for true, 1237 for false).
- `Results.Result.Get` and `Results.Result.GetError` require `Valid()`. The private constructor makes every other triple unreachable (see `ValidIsReachable`). What `get()` would return on an inconsistent triple is therefore not modelled.
- The JetBrains `@NotNull`, `@Contract` and `@Flow` annotations (Result.java:39-41, 49-51) are static-analysis metadata with no runtime effect. `@NotNull` on `get`/`getError` is reflected in their contracts, which return the stored non-null field.
- Exceptions are tags (`NullArgument`, `NoValuePresent`, `NoErrorPresent`) with their messages, not Java exception objects. Stack traces and exception classes are not modelled.
- Thread-safety follows from immutability and is not modelled separately.
