/** The `Result<TSuccess, TFailure>` type of src/Result.ts: a passive carrier
    with exactly two variants and no operations of its own. Each variant keeps
    its value in a private field set by the constructor and exposes it through
    a `Value` getter; as a datatype value it cannot change after construction. */
module Results {

  datatype Result<TSuccess, TFailure> = Success(success: TSuccess) | Failure(failure: TFailure) {

    /** `Success.Value`: the value the `Success` was built from, of type `TSuccess`.
        The getter exists only on `Success`. */
    function SuccessValue(): (v: TSuccess)
      requires Success?
      ensures this == Success(v)
    {
      success
    }

    /** `Failure.Value`: the value the `Failure` was built from, of type `TFailure`.
        The getter exists only on `Failure`. */
    function FailureValue(): (v: TFailure)
      requires Failure?
      ensures this == Failure(v)
    {
      failure
    }
  }

  /** Every result is exactly one of the two variants. */
  lemma TwoVariants<S, F>(r: Result<S, F>)
    ensures r.Success? != r.Failure?
  {
  }

  /** The getters return exactly the constructor arguments. */
  lemma ValueReturnsConstructorArgument<S, F>(s: S, f: F)
    ensures Result<S, F>.Success(s).SuccessValue() == s
    ensures Result<S, F>.Failure(f).FailureValue() == f
  {
  }
}
