# pp-options: Option and Result, modelled in Dafny

This project models the two algebraic types of the pp-options TypeScript library.

- `Option<T>` (src/Option.ts) is a closed two-variant type. `Some` holds one value and `None` is a single shared empty instance. It has a smart constructor `toOption`, the predicate `hasValue`, the tag tests `isSome` and `isNone`, the throwing `value` getter, `defaultValue`, and the combinators `match` and `map`. Both combinators re-wrap their callback's raw result through `toOption`, so a `Some` can collapse to `None`.
- `Result<TSuccess, TFailure>` (src/Result.ts) is a passive carrier. It has a `Success` and a `Failure` variant, and each has a `Value` getter.

How the model represents the system:

- A JavaScript value is `Raw<X> = Undefined | Null | Present(v)`. `hasValue` is false exactly for the first two.
- `Option<T> = Some(val: Raw<T>) | None`. The `Some` constructor is public in the source (src/Option.ts:114-115), so `Some(Null)` can be built even though the doc comment at src/Option.ts:112 says otherwise. The model keeps that general constructor. For such a `Some(null)`, `defaultValue` returns the held `null` (src/Option.ts:49-51), although its doc comment (src/Option.ts:44) promises the default for a null value; the model follows the code, and `OptionLaws.SomeOfNullIsNotValid` records it. The predicate `Option.Valid()` states "a `Some` never holds `undefined`/`null`". The contracts of `ToOption`, `Match` and `Map` prove it for the values those operations produce.
- The `instanceof` tests become the constructor tags `Some?`/`None?`. The `None` singleton is the nullary constructor `None`.
- Callbacks may be absent, so they are JavaScript values too. A some-handler or transform is a `Raw<Raw<T> -> Raw<U>>` and a none-handler is a `Raw<() -> Raw<U>>`.
- The `value` getter returns `Access<Raw<T>>`. `Returned(v)` is a normal return and `InvalidAccess` stands for the error thrown on `None`.
- Which callbacks run is recorded by the methods `OptionTrace.RunMatch` and `OptionTrace.RunMap`. They execute the combinators step by step and return the list of calls made, beside the result.
- The tests call `Option.of` (src/__tests__/Option.tests.ts:7 and twelve more lines), but src/Option.ts defines no `of` at all, only `toOption` (src/Option.ts:14). As written the test file would not type-check, and run as plain JavaScript those calls would throw a `TypeError`. The scenarios in `option_scenarios.dfy` read `of` as `toOption`.
- Files: `option.dfy` (module `Options`), `option_laws.dfy` (module `OptionLaws`), `option_trace.dfy` (module `OptionTrace`), `option_scenarios.dfy` (module `OptionScenarios`, the test file's scenarios), `result.dfy` (module `Results`).

## Model

| member | source | states |
|---|---|---|
| `Options.HasValue` | src/Option.ts:20-27 | a value exists exactly when it is neither `undefined` nor `null` |
| `Options.ToOption` | src/Option.ts:8-18 | the result is `None` exactly when the input is absent; otherwise it is a `Some` holding the input; the result never wraps an absent value |
| `Options.Option.IsSome` | src/Option.ts:29-34 | `isSome` holds exactly when `isNone` does not |
| `Options.Option.IsNone` | src/Option.ts:36-41 | `isNone` holds exactly for the shared `None` |
| `Options.Option.Value` | src/Option.ts:102-121 | on `None` the getter throws (`InvalidAccess`), and only there; on `Some` it returns the held value |
| `Options.Option.DefaultValue` | src/Option.ts:43-57 | returns what `Value` returns when `Value` succeeds, and the default exactly where `Value` would throw; it never fails |
| `Options.Option.Match` | src/Option.ts:59-83 | on `Some` the result is `toOption(someValue(x))` when the some-handler is present and `None` when it is absent, whatever the none-handler; on `None` it is `toOption(noneValue())` or `None`; the result never wraps an absent value |
| `Options.Option.Map` | src/Option.ts:85-99 | a `Some` result arises only from a `Some` receiver with a present transform, and holds the transform's result; the result is `None` exactly when the receiver is `None`, the transform is absent, or its result is absent; the result never wraps an absent value |
| `OptionLaws.SomeNoneExclusive` | src/Option.ts:29-41 | exactly one of `isSome` and `isNone` holds for every option |
| `OptionLaws.ToOptionNoneIffAbsent` | src/Option.ts:14-27 | `toOption(v)` is `None` if and only if `v` is `undefined` or `null` |
| `OptionLaws.ToOptionPresent` | src/Option.ts:14-57 | for a present `x`, `toOption(x)` is a `Some`, its `value` is `x` and its `defaultValue(d)` is `x` |
| `OptionLaws.ToOptionOfDefaultValue` | src/Option.ts:14-57 | round trip: for an option that never wraps an absent value, `toOption(o.defaultValue(undefined)) == o` |
| `OptionLaws.SomeOfNullIsNotValid` | src/Option.ts:43-122 | a directly built `Some(null)` breaks the doc comment's promise and the round trip above, and its `defaultValue(d)` returns the held `null` rather than `d` |
| `OptionLaws.MapOfNone` | src/Option.ts:91-95 | `None.map(f)` is `None` for every `f` |
| `OptionLaws.MapOfToOption` | src/Option.ts:91-99 | for present `x`, `toOption(x).map(f) == toOption(f(x))`, including the collapse when `f(x)` is absent |
| `OptionLaws.MapAgreesWithFunctorWhenPresent` | src/Option.ts:91-99 | when `f(x)` is present, `Some(x).map(f) == Some(f(x))` |
| `OptionLaws.MapIsNotFunctorMap` | src/Option.ts:91-99 | some present transform maps a `Some` to `None`, where a textbook functor map would give `Some(f(x))` |
| `OptionLaws.MapIsMatchWithoutNoneHandler` | src/Option.ts:66-99 | `map(f)` equals `match(f, undefined)` and `match(f, null)` on every option |
| `OptionLaws.MatchDoesNotFallBack` | src/Option.ts:66-83 | on `Some`, an absent some-handler gives `None` even when a none-handler is present |
| `OptionLaws.MatchCanCollapseSome` | src/Option.ts:70-75 | some present some-handler makes `match` on a `Some` return `None` |
| `OptionLaws.MatchOnNoneWrapsPresentResult` | src/Option.ts:76-80 | on `None`, every none-handler whose result is present gives a `Some` holding that result, whatever the some-handler |
| `OptionLaws.MatchCanProduceSomeFromNone` | src/Option.ts:76-80 | for every value `y` there is a present none-handler that turns `None` into `Some(y)` |
| `OptionLaws.MapFusion` | src/Option.ts:91-99 | two `map` calls in a row equal one `map` with the chained transform that stops at an absent value |
| `OptionTrace.RunMatch` | src/Option.ts:66-83 | computes `match`; at most one handler is invoked, at most once; one is invoked exactly when the handler for the receiver's variant is present; on `Some` only the some-handler runs, with the held value, and on `None` only the none-handler |
| `OptionTrace.RunMap` | src/Option.ts:91-99 | computes `map`; the transform is not invoked on `None` or when absent, and is otherwise invoked once with the held value |
| `OptionScenarios.OfAbsentIsNone` | src/__tests__/Option.tests.ts:5-17 | `of(undefined)` and `of(null)` are `None` |
| `OptionScenarios.OfValueIsSome` | src/__tests__/Option.tests.ts:19-45 | `of("Hello World")` is a `Some` whose value is `"Hello World"`; `of(undefined).isSome()` is false |
| `OptionScenarios.DefaultValueScenarios` | src/__tests__/Option.tests.ts:47-55 | `None.defaultValue("Scooby")` is `"Scooby"`; `of("Scooby").defaultValue("Doo")` is `"Scooby"` |
| `OptionScenarios.MatchOnSomeCallsSomeHandler` | src/__tests__/Option.tests.ts:57-68 | `match` on `of("Scooby")` with two mocks invokes only the some-handler, once, with `"Scooby"` |
| `OptionScenarios.MatchOnNoneCallsNoneHandler` | src/__tests__/Option.tests.ts:71-82 | `match` on `of(undefined)` with two mocks invokes only the none-handler, once |
| `OptionScenarios.MatchWrapsHandlerResult` | src/__tests__/Option.tests.ts:85-107 | the handler's result `"Doo"` comes back wrapped, on `Some` and on `None` |
| `OptionScenarios.MapScenarios` | src/__tests__/Option.tests.ts:109-121 | `None.map(_ => 123)` is `None`; `of("Scooby").map(_ => 123).value` is `123` |
| `OptionScenarios.ValueScenarios` | src/__tests__/Option.tests.ts:123-135 | `None.value` throws; `of("Hello").value` is `"Hello"` |
| `Results.Result.SuccessValue` | src/Result.ts:4-12 | `Value` on a `Success` is the `TSuccess` value it was built from, and that value determines the `Success` |
| `Results.Result.FailureValue` | src/Result.ts:14-21 | `Value` on a `Failure` is the `TFailure` value it was built from, and that value determines the `Failure` |
| `Results.TwoVariants` | src/Result.ts:1-21 | every result is exactly one of `Success` and `Failure` |
| `Results.ValueReturnsConstructorArgument` | src/Result.ts:4-21 | `new Success(v).Value` and `new Failure(v).Value` return exactly `v` |

## Left out

- Subclasses of `Option` other than `Some` and `NoneOption`: the abstract class is exported (src/Option.ts:4), so user code could add a third subclass that is neither `isSome` nor `isNone`. The source would then treat it inconsistently: `defaultValue` returns the default (src/Option.ts:56), `match` takes the none branch (src/Option.ts:76), and `map` treats it as a `Some` and reads its `value` (src/Option.ts:93-98). The model's `Option` is a closed datatype with exactly the two variants, so it does not capture such a subclass.
- JavaScript object identity of the `None` singleton (src/Option.ts:127): the nullary datatype constructor `None` is the one empty value, so there is no separate identity to prove.
- The message text of the error thrown by `value` on `None` (src/Option.ts:107): it is modelled as the `InvalidAccess` result only.
- TypeScript typing details: `any` parameters, the shadowed `<T, TResult>` on `match`/`map`, and their declared return type `Option<T>`. The model types the receiver's value as `T` and the result as `Option<U>`.
- Callbacks with side effects or exceptions of their own: callbacks are modelled as total functions of their arguments, and their invocations are recorded by `RunMatch`/`RunMap` instead.
- The Jest mock machinery of the tests: only its assertions are restated, with a mock (`jest.fn()`) modelled as a present callback that returns `undefined`.
- `Result` keeps its value in a private field behind a getter. As a datatype value it cannot change after construction, so immutability needs no separate statement.
