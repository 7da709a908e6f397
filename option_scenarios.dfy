/** The scenarios of src/__tests__/Option.tests.ts, restated as facts about the
    model. `Option.of` in the tests is `toOption`. A `jest.fn()` mock is a present
    callback that returns `undefined`. */
module OptionScenarios {
  import opened Options
  import OptionTrace

  /** A `jest.fn()` mock taking the held value. */
  function MockSome<T, U>(): Raw<Raw<T> -> Raw<U>>
  {
    Present(_ => Undefined)
  }

  /** A `jest.fn()` mock taking no argument. */
  function MockNone<U>(): Raw<() -> Raw<U>>
  {
    Present(() => Undefined)
  }

  lemma OfAbsentIsNone()
    ensures ToOption<string>(Undefined) == None
    ensures ToOption<string>(Null) == None
  {
  }

  lemma OfValueIsSome()
    ensures ToOption(Present("Hello World")).IsSome()
    ensures ToOption(Present("Hello World")).Value() == Returned(Present("Hello World"))
    ensures !ToOption<string>(Undefined).IsSome()
  {
  }

  lemma DefaultValueScenarios()
    ensures Option<string>.None.DefaultValue(Present("Scooby")) == Present("Scooby")
    ensures ToOption(Present("Scooby")).DefaultValue(Present("Doo")) == Present("Scooby")
  {
  }

  lemma MatchWrapsHandlerResult()
    ensures ToOption(Present("Scooby")).Match(Present(_ => Present("Doo")), MockNone<string>()).Value()
      == Returned(Present("Doo"))
    ensures ToOption<string>(Null).Match(MockSome<string, string>(), Present(() => Present("Doo"))).Value()
      == Returned(Present("Doo"))
  {
  }

  lemma MapScenarios()
    ensures Option<string>.None.Map(Present(_ => Present(123))) == None
    ensures ToOption(Present("Scooby")).Map(Present(_ => Present(123))).Value() == Returned(Present(123))
  {
  }

  lemma ValueScenarios()
    ensures Option<string>.None.Value() == InvalidAccess
    ensures ToOption(Present("Hello")).Value() == Returned(Present("Hello"))
  {
  }

  /** `match` on `Some("Scooby")` with two mocks calls the some-handler once, with
      the held value, and the none-handler never. */
  method MatchOnSomeCallsSomeHandler() returns (calls: seq<OptionTrace.Call<string>>)
    ensures calls == [OptionTrace.SomeHandler(Present("Scooby"))]
  {
    var _, c := OptionTrace.RunMatch(ToOption(Present("Scooby")), MockSome<string, string>(), MockNone<string>());
    assert c[0] in c;
    calls := c;
  }

  /** `match` on `None` with two mocks calls the none-handler once and the
      some-handler never. */
  method MatchOnNoneCallsNoneHandler() returns (calls: seq<OptionTrace.Call<string>>)
    ensures calls == [OptionTrace.NoneHandler]
  {
    var _, c := OptionTrace.RunMatch(ToOption<string>(Undefined), MockSome<string, string>(), MockNone<string>());
    assert c[0] in c;
    calls := c;
  }
}
