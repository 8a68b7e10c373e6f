/** The `Repeat` overloads of the partial class `DelegateExtensions`: run
    an action, or call a zero-argument expression, `count` times. */
module DelegateRepeat {
  import opened Iteration
  import opened DelegateWhile

  /** How many times `Repeat` runs: `count`; zero when `count` is zero or
      negative. */
  function Times(count: int): nat {
    if count > 0 then count else 0
  }

  /** The action together with the captured counter of `Action.Repeat`,
      whose predicate `() => count-- > 0` counts one down per check. The
      decrement is folded into the step: the counter is a local of
      `Repeat`, so the one extra decrement of the final check is not
      observable. */
  function CountDown<S>(action: S -> S): ((int, S)) -> (int, S)
  {
    (ce: (int, S)) => (ce.0 - 1, action(ce.1))
  }

  /** The predicate half of `() => count-- > 0`. */
  function StillCounting<S>(): ((int, S)) -> bool
  {
    (ce: (int, S)) => ce.0 > 0
  }

  /** After `k` counted steps the counter is `k` lower and the action has
      run `k` times. */
  lemma {:induction false} CountDownIterate<S>(action: S -> S, count: int, env: S, k: nat)
    ensures Iterate(CountDown(action), (count, env), k) == (count - k, Iterate(action, env, k))
    decreases k
  {
    if k > 0 {
      CountDownIterate(action, count, env, k - 1);
    }
  }

  /** The counted loop stops after exactly `Times(count)` steps. */
  lemma CountDownExit<S>(action: S -> S, count: int, env: S)
    ensures Halts(CountDown(action), (count, env), StillCounting())
    ensures Exit(CountDown(action), (count, env), StillCounting()) == Times(count)
  {
    var n := Times(count);
    CountDownIterate(action, count, env, n);
    forall i: nat | i < n
      ensures StillCounting()(Iterate(CountDown(action), (count, env), i))
    {
      CountDownIterate(action, count, env, i);
    }
    assert IsExit(CountDown(action), (count, env), StillCounting(), n);
  }

  /** `Action.Repeat(count)`: `action.While(() => count-- > 0)`. The
      action runs `count` times, and not at all for a count of zero or
      below. */
  method RepeatAction<S>(action: S -> S, env: S, count: int) returns (env': S)
    ensures env' == Iterate(action, env, Times(count))
    ensures count <= 0 ==> env' == env
  {
    CountDownExit(action, count, env);
    var counted := WhileAction(CountDown(action), (count, env), StillCounting());
    CountDownIterate(action, count, env, Times(count));
    env' := counted.1;
  }

  /** `Func<T>.Repeat(count)`: call the expression `count` times (none
      for a count of zero or below) and yield each value, in call order.
      The environment after the calls is returned too. */
  method RepeatNullary<T, S>(expression: S -> (T, S), env: S, count: int)
    returns (values: seq<T>, env': S)
    ensures values == Outputs(expression, env, Times(count))
    ensures |values| == Times(count)
    ensures env' == Iterate(Next(expression), env, |values|)
  {
    var remaining := count;
    values := [];
    env' := env;
    while remaining > 0
      invariant Times(remaining) + |values| == Times(count)
      invariant values == Outputs(expression, env, |values|)
      invariant env' == Iterate(Next(expression), env, |values|)
      decreases remaining
    {
      remaining := remaining - 1;
      OutputsSnoc(expression, env, |values|);
      var call := expression(env');
      values := values + [call.0];
      env' := call.1;
    }
  }

  /** An expression whose value never varies yields `n` copies of it, as
      `Enumerable.Repeat(expression(), n)` would. */
  lemma ConstantOutputs<T, S>(expression: S -> (T, S), v: T, env: S, n: nat)
    requires forall s :: expression(s).0 == v
    ensures Outputs(expression, env, n) == seq(n, i => v)
  {
  }

  /** `(() => ++callCount).Repeat(16)` leaves the counter at 16, and
      `Repeat(-21)` leaves it at 0. */
  method RepeatActionExamples() returns (sixteen: int, negative: int)
    ensures sixteen == 16 && negative == 0
  {
    var increment := (c: int) => c + 1;
    sixteen := RepeatAction(increment, 0, 16);
    IterateSuccessor(increment, 0, 16);
    negative := RepeatAction(increment, 0, -21);
  }

  /** `(() => ++counter).Repeat(4)` yields [1, 2, 3, 4]; `Repeat(0)` and
      `Repeat(-12)` yield nothing. */
  method RepeatNullaryExamples() returns (four: seq<int>, zero: seq<int>, negative: seq<int>)
    ensures four == [1, 2, 3, 4] && zero == [] && negative == []
  {
    var preIncrement := (c: int) => (c + 1, c + 1);
    IterateSuccessorUpTo(Next(preIncrement), 0, 4);
    var after;
    four, after := RepeatNullary(preIncrement, 0, 4);
    zero, after := RepeatNullary(preIncrement, 0, 0);
    negative, after := RepeatNullary(preIncrement, 0, -12);
  }
}
