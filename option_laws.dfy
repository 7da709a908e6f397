/** Properties of `Option` that relate several operations, or that state
    what the combinators do and do not promise. */
module OptionLaws {
  import opened Options

  /** Exactly one of `isSome` and `isNone` holds for every option. */
  lemma SomeNoneExclusive<T>(o: Option<T>)
    ensures o.IsSome() != o.IsNone()
  {
  }

  /** `toOption` returns the shared `None` exactly for `undefined` and `null`. */
  lemma ToOptionNoneIffAbsent<T>(v: Raw<T>)
    ensures ToOption(v) == None <==> (v == Undefined || v == Null)
  {
  }

  /** A present value comes back unchanged through `value` and `defaultValue`. */
  lemma ToOptionPresent<T>(x: T, d: Raw<T>)
    ensures ToOption(Present(x)).IsSome()
    ensures ToOption(Present(x)).Value() == Returned(Present(x))
    ensures ToOption(Present(x)).DefaultValue(d) == Present(x)
  {
  }

  /** Round trip: unwrapping a well-formed option with `undefined` as default and
      re-wrapping it gives the option back. */
  lemma ToOptionOfDefaultValue<T>(o: Option<T>)
    requires o.Valid()
    ensures ToOption(o.DefaultValue(Undefined)) == o
  {
  }

  /** The round trip above needs `Valid()`: a directly built `Some(null)` does not survive it.
      Its `defaultValue` also returns the held `null`, not the default. */
  lemma SomeOfNullIsNotValid<T>(d: T)
    ensures !Option<T>.Some(Null).Valid()
    ensures ToOption(Option<T>.Some(Null).DefaultValue(Undefined)) != Option<T>.Some(Null)
    ensures Option<T>.Some(Null).DefaultValue(Present(d)) == Null
  {
  }

  /** `map` on `None` is `None`, whatever the transform. */
  lemma MapOfNone<T, U>(f: Raw<Raw<T> -> Raw<U>>)
    ensures Option<T>.None.Map(f) == None
  {
  }

  /** Mapping a present value over `toOption` is `toOption` of the transformed
      value, including the collapse when the transform yields an absent value. */
  lemma MapOfToOption<T, U>(x: Raw<T>, f: Raw<T> -> Raw<U>)
    requires HasValue(x)
    ensures ToOption(x).Map(Present(f)) == ToOption(f(x))
  {
  }

  /** Where the transform's result is present, `map` agrees with the textbook functor map. */
  lemma MapAgreesWithFunctorWhenPresent<T, U>(x: Raw<T>, f: Raw<T> -> Raw<U>)
    requires HasValue(f(x))
    ensures Option.Some(x).Map(Present(f)) == Some(f(x))
  {
  }

  /** `map` is not the textbook functor map: some present transform turns a `Some`
      into `None`, where the functor map would give `Some` of the transformed value. */
  lemma MapIsNotFunctorMap<T, U>(x: T)
    ensures exists f: Raw<T> -> Raw<U> {:trigger Option<T>.Some(Present(x)).Map(Present(f))} ::
      Option<T>.Some(Present(x)).Map(Present(f)) == None &&
      Option<T>.Some(Present(x)).Map(Present(f)) != Some(f(Present(x)))
  {
    var f: Raw<T> -> Raw<U> := _ => Null;
    assert Option<T>.Some(Present(x)).Map(Present(f)) == None;
  }

  /** `map f` is `match` with `f` as the some-handler and no none-handler. */
  lemma MapIsMatchWithoutNoneHandler<T, U>(o: Option<T>, f: Raw<Raw<T> -> Raw<U>>)
    ensures o.Map(f) == o.Match(f, Undefined)
    ensures o.Map(f) == o.Match(f, Null)
  {
  }

  /** On `Some`, a missing some-handler gives `None` even when a none-handler is present. */
  lemma MatchDoesNotFallBack<T, U>(x: Raw<T>, noneValue: () -> Raw<U>)
    ensures Option.Some(x).Match(Undefined, Present(noneValue)) == None
    ensures Option.Some(x).Match(Null, Present(noneValue)) == None
  {
  }

  /** `match` on `Some` can collapse to `None`: some present handler returns an absent value. */
  lemma MatchCanCollapseSome<T, U>(x: T, noneValue: Raw<() -> Raw<U>>)
    ensures exists s: Raw<T> -> Raw<U> {:trigger Option<T>.Some(Present(x)).Match(Present(s), noneValue)} ::
      Option<T>.Some(Present(x)).Match(Present(s), noneValue) == None
  {
    var s: Raw<T> -> Raw<U> := _ => Undefined;
    assert Option<T>.Some(Present(x)).Match(Present(s), noneValue) == None;
  }

  /** On `None`, a none-handler whose result is present gives a `Some` holding that result,
      whatever the some-handler. */
  lemma MatchOnNoneWrapsPresentResult<T, U>(someValue: Raw<Raw<T> -> Raw<U>>, noneValue: () -> Raw<U>)
    requires HasValue(noneValue())
    ensures Option<T>.None.Match(someValue, Present(noneValue)) == Some(noneValue())
  {
  }

  /** `match` on `None` can produce a `Some` holding any chosen value `y`: some
      present none-handler returns it. */
  lemma MatchCanProduceSomeFromNone<T, U>(someValue: Raw<Raw<T> -> Raw<U>>, y: U)
    ensures exists n: () -> Raw<U> {:trigger Option<T>.None.Match(someValue, Present(n))} ::
      Option<T>.None.Match(someValue, Present(n)) == Some(Present(y))
  {
    var n: () -> Raw<U> := () => Present(y);
    assert Option<T>.None.Match(someValue, Present(n)) == Some(Present(y));
  }

  /** Chaining two transforms, where each step stops at an absent value. */
  function Then<T, U, V>(f: Raw<Raw<T> -> Raw<U>>, g: Raw<Raw<U> -> Raw<V>>): Raw<Raw<T> -> Raw<V>>
  {
    if HasValue(f) && HasValue(g) then
      Present((x: Raw<T>) => var y := f.v(x); if HasValue(y) then g.v(y) else Undefined)
    else Undefined
  }

  /** Two `map` calls in a row are one `map` with the chained transform: the
      collapse to `None` at either step carries through. */
  lemma MapFusion<T, U, V>(o: Option<T>, f: Raw<Raw<T> -> Raw<U>>, g: Raw<Raw<U> -> Raw<V>>)
    ensures o.Map(f).Map(g) == o.Map(Then(f, g))
  {
  }
}
