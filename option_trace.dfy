/** Running `match` and `map` step by step, recording every callback invocation,
    so that "which handler ran, and how often" can be stated. */
module OptionTrace {
  import opened Options

  /** One invocation of a callback passed to `match` or `map`. */
  datatype Call<T> = SomeHandler(arg: Raw<T>) | NoneHandler | Transform(arg: Raw<T>)

  /** `match`, executed: at most one handler runs, at most once; on `Some` only the
      some-handler can run, with the held value, and on `None` only the none-handler. */
  method RunMatch<T, U>(o: Option<T>, someValue: Raw<Raw<T> -> Raw<U>>, noneValue: Raw<() -> Raw<U>>)
    returns (r: Option<U>, calls: seq<Call<T>>)
    ensures r == o.Match(someValue, noneValue)
    ensures |calls| <= 1
    ensures |calls| == 1 <==> (if o.IsSome() then HasValue(someValue) else HasValue(noneValue))
    ensures forall c :: c in calls ==>
      (c.SomeHandler? && o.IsSome() && c.arg == o.val) || (c.NoneHandler? && o.IsNone())
  {
    calls := [];
    if o.IsSome() {
      if HasValue(someValue) {
        var raw := someValue.v(o.val);
        calls := calls + [SomeHandler(o.val)];
        r := ToOption(raw);
        return;
      }
    } else {
      if HasValue(noneValue) {
        var raw := noneValue.v();
        calls := calls + [NoneHandler];
        r := ToOption(raw);
        return;
      }
    }
    r := None;
  }

  /** `map`, executed: the transform is not invoked on `None` or when it is missing,
      and otherwise it is invoked exactly once, with the held value. */
  method RunMap<T, U>(o: Option<T>, transformFunc: Raw<Raw<T> -> Raw<U>>)
    returns (r: Option<U>, calls: seq<Call<T>>)
    ensures r == o.Map(transformFunc)
    ensures |calls| <= 1
    ensures calls == [] <==> (o.IsNone() || !HasValue(transformFunc))
    ensures forall c :: c in calls ==> c.Transform? && o.IsSome() && c.arg == o.val
  {
    calls := [];
    if !HasValue(transformFunc) || o.IsNone() {
      r := None;
      return;
    }
    var raw := transformFunc.v(o.val);
    calls := calls + [Transform(o.val)];
    r := ToOption(raw);
  }
}
