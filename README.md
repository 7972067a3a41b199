# Yart result type, modelled in Dafny

Yart is a small C# library with one outcome type. It lets an operation report success or failure without throwing. It has three parts:

- `Error` (module `Errors`, file `errors.dfy`) is an immutable class. It holds an optional message, `Message`. A C# `string?` becomes `Option<string>`. The property is get-only, so it becomes a `const` field that only the constructor sets.
- `Result` (module `Results`, file `results.dfy`) is an untyped outcome. It is either a success or a failure, and a failure holds an `Error?`. It has the factories `Ok()` and `Failure(error)`, the predicates `IsSuccessful` and `IsFailure`, the partial accessor `Error`, both forms of `Match`, and the implicit conversion `Error -> Result` (here `FromError`).
- `Result<T>` (module `TypedResults`, file `typed_results.dfy`; the datatype is called `ResultOf<T>`) is the outcome that carries a value. It has the internal constructor (`Make`), the factory `Result.Ok<T>` (`Ok`), the partial accessors `Error` and `Value`, both forms of `Match`, and the two conversions. `FromUntyped` is `Result -> Result<T>` and is legal only from a failure. `ToUntyped` is `Result<T> -> Result`, which is always legal.

Modelling decisions:

- In C#, both results are read-only structs: a success flag plus optional fields, filled in once by a private or internal constructor. Here each one is a tagged union. A success holds only its payload and a failure holds only its error, because those are the only fields that the public members can read in each state.
- Success, failure with an `Error`, and failure with a null `Error` are three distinct values. `Error` is a Dafny class, so a result stores a reference to it. Comparing results therefore compares error objects by identity, as the tests do with `Assert.Same`. It does not compare their messages.
- Some operations throw `InvalidOperationException`: `Error` on a success, `Value` on a failure, and the conversion `Result -> Result<T>` from a success. Each of these becomes a `requires` clause. The exception type is not modelled.
- The test file expects `InvalidCastException` from the rejected conversion, but the code throws `InvalidOperationException`. The model follows the code, and states only that the conversion is rejected.
- The value form of `Match` is a higher-order function. The action form (`MatchAction`) passes the caller's state through the delegates. Each delegate is a function from the old state to the new one, so the side effect of calling it is a change of that state.
- `Result.Ok<T>` is declared in `Result.cs`, but it builds a `Result<T>`. It lives in `TypedResults` because Dafny modules cannot import each other in a cycle.

## Model

| member | source | states |
|---|---|---|
| `Errors.Error.constructor` | src/Yart.Yart/Error.cs:17-26 | any message, or none by default, is accepted, and `Message` is that message; `Message` is a `const`, so nothing changes it later |
| `Errors.NewErrorsAreDistinct` | src/Yart.Yart/Error.cs:12-26 | `Error` is a reference type: two errors built from the same message are different objects |
| `Errors.NewErrorWithoutMessage` | src/Yart.Yart/Error.cs:23 | `new Error()` with no argument has no message |
| `Results.Result.Ok` | src/Yart.Yart/Result.cs:22 | `Ok()` is successful and not a failure |
| `Results.Result.Failure` | src/Yart.Yart/Result.cs:37 | `Failure(e)` is a failure whose `Error` is exactly `e`, and the omitted error is null |
| `Results.Result.FromError` | src/Yart.Yart/Result.cs:98 | converting an `Error` gives a failure whose `Error` is that same object |
| `Results.Result.IsFailure` | src/Yart.Yart/Result.cs:51-55 | `IsFailure` holds exactly when `IsSuccessful` does not |
| `Results.Result.Match` | src/Yart.Yart/Result.cs:89-92 | on a success the result is `successFunc()`; on a failure it is `failureFunc` applied to the stored error |
| `Results.Result.MatchAction` | src/Yart.Yart/Result.cs:70-80 | on a success only the success action's effect happens; on a failure only the failure action's, given the stored error |
| `Results.MatchActionInvokesExactlyOne` | src/Yart.Yart/Result.cs:70-80 | with every delegate call logged, exactly one call is made: to the success action exactly when the result is a success, otherwise to the failure action with the stored error |
| `Results.MatchActionIsMatch` | src/Yart.Yart/Result.cs:70-92 | the action form gives the same outcome as the value form, with the state change as the returned value |
| `Results.MatchWithFactoriesRebuilds` | src/Yart.Yart/Result.cs:22-37 | matching with `Ok` and `Failure` as the delegates gives back the same result |
| `Results.MatchDeterminesResult` | src/Yart.Yart/Result.cs:89-92 | two results that give the same answer for every pair of `Match` delegates are equal, including their error object |
| `Results.ThreeStatesAreDistinct` | src/Yart.Yart/Result.cs:22-46 | success, failure without an error and failure with an error are pairwise different, and failures holding different error objects differ |
| `Results.FailureHoldsNewError` | test/Yart.Test/ResultTests.cs:31-61 | a new error given to `Failure`, or converted to a result, comes back from `Error` as the same object with its message |
| `Results.EveryResultIsBuiltByAFactory` | src/Yart.Yart/Result.cs:37-63 | every result is `Ok()`, or else a failure equal to `Failure` of its own `Error` |
| `TypedResults.ResultOf.IsFailure` | src/Yart.Yart/ResultOfT.cs:29-34 | `IsFailure` holds exactly when `IsSuccessful` does not |
| `TypedResults.Make` | src/Yart.Yart/ResultOfT.cs:16-24 | the internal constructor's result has the given state, with `Value` the given value on a success and `Error` the given error on a failure |
| `TypedResults.Ok` | src/Yart.Yart/Result.cs:30 | `Ok(v)` is successful, not a failure, and its `Value` is `v` |
| `TypedResults.ResultOf.Match` | src/Yart.Yart/ResultOfT.cs:78-81 | on a success the result is `successFunc(Value)`; on a failure it is `failureFunc(Error)` |
| `TypedResults.ResultOf.MatchAction` | src/Yart.Yart/ResultOfT.cs:59-69 | on a success only the success action's effect happens, given the value; on a failure only the failure action's, given the stored error |
| `TypedResults.MatchActionInvokesExactlyOne` | src/Yart.Yart/ResultOfT.cs:59-69 | with every delegate call logged, exactly one call is made, with the payload on a success and with the stored error on a failure |
| `TypedResults.FromUntyped` | src/Yart.Yart/ResultOfT.cs:83-86 | `Result -> Result<T>` is legal only from a failure, for every `T`, and gives a failure with the same error |
| `TypedResults.ToUntyped` | src/Yart.Yart/ResultOfT.cs:88-91 | `Result<T> -> Result` keeps `IsSuccessful` and, on a failure, the error object |
| `TypedResults.FromUntypedThenToUntyped` | src/Yart.Yart/ResultOfT.cs:83-91 | promoting a failing `Result` and projecting it back gives the same result |
| `TypedResults.ToUntypedThenFromUntyped` | src/Yart.Yart/ResultOfT.cs:83-91 | a failing `Result<T>` projects to a failure; promoting that back gives the same `Result<T>`, and promoting it to any other payload type keeps the error |
| `TypedResults.ToUntypedOfOkIsNotPromotable` | src/Yart.Yart/ResultOfT.cs:83-91 | after projecting `Ok(v)`, the result cannot be promoted back to any payload type |
| `TypedResults.FromUntypedRejectsExactlySuccess` | src/Yart.Yart/ResultOfT.cs:84-86 | the promotion's precondition holds for every result except the untyped success |
| `TypedResults.MatchWithFactoriesRebuilds` | src/Yart.Yart/ResultOfT.cs:78-81 | matching with `Ok` and the typed failure as the delegates gives back the same result |
| `TypedResults.MatchDeterminesResult` | src/Yart.Yart/ResultOfT.cs:78-81 | two typed results that give the same answer for every pair of `Match` delegates are equal: same payload, or same error object |
| `TypedResults.ToUntypedKeepsMatch` | src/Yart.Yart/ResultOfT.cs:88-91 | projecting commutes with `Match` when the success delegate ignores the payload, so only the value is dropped |
| `TypedResults.MatchOnOkScenario` | src/Yart.Yart/ResultOfT.cs:78-81 | matching `Ok(5)` with `v -> v * 2` and `_ -> -1` gives 10 |

The partial accessors `Results.Result.Error`, `TypedResults.ResultOf.Error` and `TypedResults.ResultOf.Value` each carry only their precondition. Their results are stated where the value is stored: in `Failure`, `FromError`, `Make`, `Ok`, `FromUntyped` and the lemmas above.

## Left out

- The implicit conversions to `Task<Result>` and `ValueTask<Result>` (src/Yart.Yart/Result.cs:104, 110). They only wrap a result in an already completed task, and tasks are not modelled.
- The two test methods for `Result<T>` that convert to `Task` and `ValueTask` (test/Yart.Test/ResultOfTTests.cs:74-101). `Result<T>` declares no such conversion.
- Which .NET exception class each contract violation throws. Each violation is a precondition instead.
- Side effects inside `Match` delegates, other than changing the caller's state that is passed through them.
- C# struct values outside the factories' range: a success holding a non-null error, and a failure holding a value. No member of the library builds them, and no public member could read the extra field anyway. `default(Result)` and `default(Result<T>)` are failures with a null error, and `Failure()` and `Make(false)` model them.
- Make: requires a value whenever it builds a success. C# lets the internal constructor build a success with `default(T)` as its value, but no caller in the library does this.
- Results.Result.FromError: takes a non-null `Error`, as the parameter's type annotation says. If C# code passes null anyway, the result is `Failure()`, the same as passing no error.
