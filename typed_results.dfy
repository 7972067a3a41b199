/** The value-carrying outcome of an operation (src/Yart.Yart/ResultOfT.cs),
    with the factory `Result.Ok<T>` that builds it (src/Yart.Yart/Result.cs).

    The source is a read-only struct holding `_isSuccessful`, `_error` and
    `_value`; here it is a tagged union in which a success holds only its
    payload and a failure only its (possibly null) error, the one field of
    each state that the public members can observe. */
module TypedResults {
  import opened Errors
  import Results

  datatype ResultOf<T> = Succeeded(payload: T) | Failed(stored: Error?) {

    predicate IsSuccessful() {
      Succeeded?
    }

    /** The two predicates are exclusive and exhaustive. */
    predicate IsFailure()
      ensures IsFailure() <==> !IsSuccessful()
    {
      Failed?
    }

    /** The stored error; reading it on a success is a contract violation. */
    function Error(): (e: Error?)
      requires IsFailure()
    {
      stored
    }

    /** The payload; reading it on a failure is a contract violation. */
    function Value(): (v: T)
      requires IsSuccessful()
    {
      payload
    }

    /** The value form of `Match`: the success delegate receives the payload,
        the failure delegate the stored error, and only one of them is applied. */
    function Match<R>(successFunc: T -> R, failureFunc: Error? -> R): (r: R)
      ensures IsSuccessful() ==> r == successFunc(Value())
      ensures IsFailure() ==> r == failureFunc(Error())
    {
      if IsSuccessful() then successFunc(payload) else failureFunc(stored)
    }

    /** The action form of `Match`. A delegate's side effect is a change of the
        caller's state `world`; exactly one of the two changes is applied. */
    function MatchAction<S>(world: S, successAction: (T, S) -> S, failureAction: (Error?, S) -> S): (after: S)
      ensures IsSuccessful() ==> after == successAction(Value(), world)
      ensures IsFailure() ==> after == failureAction(Error(), world)
    {
      if IsSuccessful() then successAction(payload, world) else failureAction(stored, world)
    }
  }

  /** The internal constructor `Result<T>(isSuccessful, error, value)`. Only the
      field that the resulting state exposes is kept: the value of a success,
      the error of a failure. Every caller in the library passes a value
      exactly when it builds a success. */
  function Make<T>(isSuccessful: bool, error: Error? := null, value: Option<T> := None): (r: ResultOf<T>)
    requires isSuccessful ==> value.Some?
    ensures r.IsSuccessful() == isSuccessful
    ensures r.IsSuccessful() ==> r.Value() == value.value
    ensures r.IsFailure() ==> r.Error() == error
  {
    if isSuccessful then Succeeded(value.value) else Failed(error)
  }

  /** `Result.Ok<T>(value)`: a success whose `Value` is `value`. */
  function Ok<T>(value: T): (r: ResultOf<T>)
    ensures r.IsSuccessful() && !r.IsFailure()
    ensures r.Value() == value
  {
    Make(true, value := Some(value))
  }

  /** The implicit conversion `Result -> Result<T>`. It is legal only from a
      failure (a success has no value to supply), for every `T`, and keeps the
      error object. */
  function FromUntyped<T>(result: Results.Result): (r: ResultOf<T>)
    requires result.IsFailure()
    ensures r.IsFailure()
    ensures r.Error() == result.Error()
  {
    Make(false, result.Error())
  }

  /** The implicit conversion `Result<T> -> Result`: always legal; it keeps the
      state and, on a failure, the error object, and drops the value. */
  function ToUntyped<T>(result: ResultOf<T>): (r: Results.Result)
    ensures r.IsSuccessful() == result.IsSuccessful()
    ensures r.IsFailure() ==> r.Error() == result.Error()
  {
    if result.IsSuccessful() then Results.Result.Ok() else Results.Result.Failure(result.stored)
  }

  /** Promoting a failure and projecting it back gives the same failure. */
  lemma FromUntypedThenToUntyped<T>(result: Results.Result)
    requires result.IsFailure()
    ensures ToUntyped(FromUntyped<T>(result)) == result
  {
  }

  /** Projecting a failure and promoting it back, to the same payload type or
      to any other, gives a failure with the same error. */
  lemma ToUntypedThenFromUntyped<T, U>(result: ResultOf<T>)
    requires result.IsFailure()
    ensures ToUntyped(result).IsFailure()
    ensures FromUntyped<T>(ToUntyped(result)) == result
    ensures FromUntyped<U>(ToUntyped(result)).Error() == result.Error()
  {
  }

  /** A success projected to the untyped result cannot be promoted again, to
      any payload type: the precondition of `FromUntyped` fails. */
  lemma ToUntypedOfOkIsNotPromotable<T>(value: T)
    ensures !ToUntyped(Ok(value)).IsFailure()
  {
  }

  /** Only failures can be promoted: the untyped success is rejected. */
  lemma FromUntypedRejectsExactlySuccess(result: Results.Result)
    ensures result.IsFailure() <==> result != Results.Result.Ok()
  {
  }

  /** Matching with `Ok` and the typed failure as delegates rebuilds the result:
      `Match` passes on the payload and the error unchanged. */
  lemma MatchWithFactoriesRebuilds<T>(r: ResultOf<T>)
    ensures r.Match(v => Ok(v), e => Make(false, e)) == r
  {
  }

  /** `Match` is a complete observer: typed results that no pair of delegates
      can tell apart hold the same payload or the same error object. */
  lemma MatchDeterminesResult<T>(r1: ResultOf<T>, r2: ResultOf<T>)
    requires forall f: T -> ResultOf<T>, g: Error? -> ResultOf<T> :: r1.Match(f, g) == r2.Match(f, g)
    ensures r1 == r2
  {
    var f: T -> ResultOf<T> := v => Ok(v);
    var g: Error? -> ResultOf<T> := e => Make(false, e);
    MatchWithFactoriesRebuilds(r1);
    MatchWithFactoriesRebuilds(r2);
    assert r1.Match(f, g) == r2.Match(f, g);
  }

  /** Projecting to the untyped result commutes with `Match` when the success
      delegate ignores the payload: only the value is dropped. */
  lemma ToUntypedKeepsMatch<T, R>(r: ResultOf<T>, successFunc: () -> R, failureFunc: Error? -> R)
    ensures ToUntyped(r).Match(successFunc, failureFunc) == r.Match(_ => successFunc(), failureFunc)
  {
  }

  /** A record of which `Match` delegate ran, and with what argument. */
  datatype Invocation<T> = SuccessInvoked(value: T) | FailureInvoked(argument: Error?)

  /** Logging every delegate call, the action form of `Match` makes exactly one
      call: to the success action with the payload, or to the failure action
      with the stored error. */
  lemma MatchActionInvokesExactlyOne<T>(r: ResultOf<T>, log: seq<Invocation<T>>)
    ensures var after := r.MatchAction(log, (v, l) => l + [SuccessInvoked(v)], (e, l) => l + [FailureInvoked(e)]);
      && |after| == |log| + 1
      && after[..|log|] == log
      && (r.IsSuccessful() ==> after[|log|] == SuccessInvoked(r.Value()))
      && (r.IsFailure() ==> after[|log|] == FailureInvoked(r.Error()))
  {
  }

  /** Matching `Ok(5)` with `v -> v * 2` and `_ -> -1` gives 10. */
  lemma MatchOnOkScenario()
    ensures Ok(5).Match(v => v * 2, _ => -1) == 10
  {
  }
}
