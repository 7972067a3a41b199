/** The untyped outcome of an operation (src/Yart.Yart/Result.cs).

    The source is a read-only struct holding `_isSuccessful` and `_error`,
    built only through its factories; here it is a tagged union whose two
    constructors are the two states those factories can produce. A failure
    may hold a null error, so success, failure with an error and failure
    without one are three distinct values. */
module Results {
  import opened Errors

  datatype Result = Succeeded | Failed(stored: Error?) {

    /** `Result.Ok()`: a success. */
    static function Ok(): (r: Result)
      ensures r.IsSuccessful() && !r.IsFailure()
    {
      Succeeded
    }

    /** `Result.Failure(error)`: a failure holding exactly `error`, which may be null
        (and is, when omitted). */
    static function Failure(error: Error? := null): (r: Result)
      ensures r.IsFailure() && !r.IsSuccessful()
      ensures r.Error() == error
    {
      Failed(error)
    }

    /** The implicit conversion `Error -> Result`: a failure holding that same object. */
    static function FromError(error: Error): (r: Result)
      ensures r.IsFailure()
      ensures r.Error() == error
    {
      Failure(error)
    }

    predicate IsSuccessful() {
      Succeeded?
    }

    /** The two predicates are exclusive and exhaustive. */
    predicate IsFailure()
      ensures IsFailure() <==> !IsSuccessful()
    {
      Failed?
    }

    /** The stored error; reading it on a success is a contract violation. */
    function Error(): (e: Error?)
      requires IsFailure()
    {
      stored
    }

    /** The value form of `Match`: exactly one delegate is applied, chosen by
        the state, and the failure delegate receives the stored error. */
    function Match<R>(successFunc: () -> R, failureFunc: Error? -> R): (r: R)
      ensures IsSuccessful() ==> r == successFunc()
      ensures IsFailure() ==> r == failureFunc(Error())
    {
      if IsSuccessful() then successFunc() else failureFunc(stored)
    }

    /** The action form of `Match`. A delegate's side effect is a change of the
        caller's state `world`; exactly one of the two changes is applied. */
    function MatchAction<S>(world: S, successAction: S -> S, failureAction: (Error?, S) -> S): (after: S)
      ensures IsSuccessful() ==> after == successAction(world)
      ensures IsFailure() ==> after == failureAction(Error(), world)
    {
      if IsSuccessful() then successAction(world) else failureAction(stored, world)
    }
  }

  /** A record of which `Match` delegate ran, and with what argument. */
  datatype Invocation = SuccessInvoked | FailureInvoked(argument: Error?)

  /** Logging every delegate call, the action form of `Match` makes exactly
      one call: to the success action on a success, and otherwise to the
      failure action with the stored error. */
  lemma MatchActionInvokesExactlyOne(r: Result, log: seq<Invocation>)
    ensures var after := r.MatchAction(log, l => l + [SuccessInvoked], (e, l) => l + [FailureInvoked(e)]);
      && |after| == |log| + 1
      && after[..|log|] == log
      && (after[|log|] == SuccessInvoked <==> r.IsSuccessful())
      && (r.IsFailure() ==> after[|log|] == FailureInvoked(r.Error()))
  {
  }

  /** The action form is the value form with the world change as the returned value. */
  lemma MatchActionIsMatch<S>(r: Result, world: S, successAction: S -> S, failureAction: (Error?, S) -> S)
    ensures r.MatchAction(world, successAction, failureAction)
         == r.Match(() => successAction(world), e => failureAction(e, world))
  {
  }

  /** Matching with the two factories as delegates rebuilds the result:
      `Match` passes on the state and the error unchanged. */
  lemma MatchWithFactoriesRebuilds(r: Result)
    ensures r.Match(() => Result.Ok(), e => Result.Failure(e)) == r
  {
  }

  /** `Match` is a complete observer: results that no pair of delegates can
      tell apart are the same result, with the same error object. */
  lemma MatchDeterminesResult(r1: Result, r2: Result)
    requires forall f: () -> Result, g: Error? -> Result :: r1.Match(f, g) == r2.Match(f, g)
    ensures r1 == r2
  {
    var f: () -> Result := () => Result.Ok();
    var g: Error? -> Result := e => Result.Failure(e);
    MatchWithFactoriesRebuilds(r1);
    MatchWithFactoriesRebuilds(r2);
    assert r1.Match(f, g) == r2.Match(f, g);
  }

  /** Success, failure without an error and failure with an error are three
      distinct states, and failures with different error objects differ even
      when the errors carry the same message. */
  lemma ThreeStatesAreDistinct(e: Error, other: Error)
    requires e != other
    ensures Result.Ok() != Result.Failure()
    ensures Result.Ok() != Result.Failure(e)
    ensures Result.Failure() != Result.Failure(e)
    ensures Result.Failure(e) != Result.Failure(other)
  {
  }

  /** A fresh error passed to `Failure`, or converted implicitly, is handed
      back by `Error` as the same object, with its message intact. */
  method FailureHoldsNewError(message: Option<string>) returns (e: Error, viaFactory: Result, viaConversion: Result)
    ensures viaFactory.IsFailure() && viaFactory.Error() == e
    ensures viaConversion.IsFailure() && viaConversion.Error() == e
    ensures e.Message == message
  {
    e := new Error(message);
    viaFactory := Result.Failure(e);
    viaConversion := Result.FromError(e);
  }

  /** Every result is `Ok()` or `Failure(e)` for its own error `e`. */
  lemma EveryResultIsBuiltByAFactory(r: Result)
    ensures r == Result.Ok() || (r.IsFailure() && r == Result.Failure(r.Error()))
  {
  }
}
