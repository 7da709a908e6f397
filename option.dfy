/** The `Option<T>` type of src/Option.ts.

    The library is handed arbitrary JavaScript values. `Raw<X>` describes such a
    value: `undefined`, `null`, or some other (present) value of type `X`.
    An `Option<T>` is either `Some`, holding one such value, or the single shared
    `None`. The `Some` constructor is public in the source, so `Some(Null)` can be
    built directly; the `Valid()` predicate says that a `Some` does not hold an
    absent value, and it is what `ToOption`, `Match` and `Map` guarantee.
 */
module Options {

  /** A JavaScript value as the library sees it: absent (`undefined` or `null`) or present. */
  datatype Raw<X> = Undefined | Null | Present(v: X)

  /** The outcome of reading the `value` getter: the held value, or the error thrown on `None`. */
  datatype Access<X> = Returned(v: X) | InvalidAccess

  /** `Option.hasValue`: a value exists when it is neither `undefined` nor `null`.
      It is applied both to data and to callbacks. */
  function HasValue<X>(value: Raw<X>): (b: bool)
    ensures b <==> value.Present?
  {
    !value.Undefined? && !value.Null?
  }

  /** `Option.toOption`: absent values become the shared `None`, every other value
      is wrapped in a `Some`. (The tests call an `Option.of` that src/Option.ts does
      not define; their scenarios are read with `toOption`.) */
  function ToOption<T>(v: Raw<T>): (o: Option<T>)
    ensures o == None <==> !HasValue(v)
    ensures o.Some? ==> o.val == v
    ensures o.Valid()
  {
    if !HasValue(v) then None else Some(v)
  }

  /** A closed two-variant type; the runtime `instanceof` tests of the source
      become the constructor tags `Some?` and `None?`. */
  datatype Option<T> = Some(val: Raw<T>) | None {

    /** The promise of the doc comment on `Some`: it never wraps `undefined` or `null`. */
    predicate Valid() {
      Some? ==> HasValue(val)
    }

    /** `isSome`: true exactly when `isNone` is false. */
    function IsSome(): (r: bool)
      ensures r <==> !IsNone()
    {
      Some?
    }

    /** `isNone`: true exactly for the shared `None` instance. */
    function IsNone(): (r: bool)
      ensures r <==> this == None
    {
      None?
    }

    /** The `value` getter: `Some` returns what it holds, `None` throws. */
    function Value(): (r: Access<Raw<T>>)
      ensures r.InvalidAccess? <==> IsNone()
      ensures IsSome() ==> r == Returned(val)
    {
      match this
      case Some(x) => Returned(x)
      case None => InvalidAccess
    }

    /** `defaultValue`: the safe counterpart of `Value`; it returns what `Value`
        would return, and `defValue` where `Value` would throw. */
    function DefaultValue(defValue: Raw<T>): (r: Raw<T>)
      ensures Value().Returned? ==> r == Value().v
      ensures Value().InvalidAccess? ==> r == defValue
    {
      // `None` returns `defValue`. The source's fall-through after both tag tests
      // (reached only by a third subclass of `Option`) also returns `defValue`; the
      // closed datatype has no such subclass, so that branch cannot be reached here.
      if IsSome() then val else defValue
    }

    /** `match`: on `Some` the `someValue` handler is applied to the held value, on
        `None` the `noneValue` handler is called; whichever runs, its raw result is
        re-wrapped through `ToOption`. A missing handler gives `None`; there is no
        fall-back to the other handler. */
    function Match<U>(someValue: Raw<Raw<T> -> Raw<U>>, noneValue: Raw<() -> Raw<U>>): (r: Option<U>)
      ensures r.Valid()
      ensures IsSome() ==> r == (if HasValue(someValue) then ToOption(someValue.v(val)) else None)
      ensures IsNone() ==> r == (if HasValue(noneValue) then ToOption(noneValue.v()) else None)
    {
      if IsSome() then
        if HasValue(someValue) then ToOption(someValue.v(val)) else None
      else
        if HasValue(noneValue) then ToOption(noneValue.v()) else None
    }

    /** `map`: `None` when the receiver is `None` or `transformFunc` is missing;
        otherwise the transform's raw result re-wrapped through `ToOption`, so a
        `Some` collapses to `None` when the transform yields an absent value. */
    function Map<U>(transformFunc: Raw<Raw<T> -> Raw<U>>): (r: Option<U>)
      ensures r.Valid()
      ensures r.IsSome() ==> IsSome() && HasValue(transformFunc) && r.val == transformFunc.v(val)
      ensures r.IsNone() <==> IsNone() || !HasValue(transformFunc) || !HasValue(transformFunc.v(val))
    {
      if !HasValue(transformFunc) || IsNone() then None
      else ToOption(transformFunc.v(val))
    }
  }
}
