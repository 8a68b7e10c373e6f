/** Vocabulary shared by every loop combinator: repeated application of a
    step function, the first index at which a loop predicate fails, and the
    adapters that turn a zero-argument expression over an environment into a
    step function.

    A zero-argument C# delegate (`Func<T>`, `Func<bool>`, `Action`) can only
    vary between calls through state it captures. That state is modelled as an
    explicit environment `S`: an expression is `S -> (T, S)` (its value and the
    environment after the call), a zero-argument predicate is `S -> bool`, and
    an action is `S -> S`. */
module Iteration {

  /** The value a loop `x := f(x)` holds after `k` steps from `x`. */
  function Iterate<T>(f: T -> T, x: T, k: nat): T
    decreases k
  {
    if k == 0 then x else f(Iterate(f, x, k - 1))
  }

  /** Some value of the chain x, f(x), f(f(x)), ... fails `p`: the loop
      `while p(x) x := f(x)` terminates. */
  ghost predicate Halts<T>(f: T -> T, x: T, p: T -> bool) {
    exists k: nat :: !p(Iterate(f, x, k))
  }

  /** Some value of the chain satisfies `p`: the loop
      `while !p(x) x := f(x)` terminates. */
  ghost predicate Reaches<T>(f: T -> T, x: T, p: T -> bool) {
    exists k: nat :: p(Iterate(f, x, k))
  }

  /** `k` is the first index of the chain whose value fails `p`; the values
      at indices below `k` all pass it. */
  ghost predicate IsExit<T>(f: T -> T, x: T, p: T -> bool, k: nat) {
    && !p(Iterate(f, x, k))
    && forall i: nat :: i < k ==> p(Iterate(f, x, i))
  }

  /** `k >= 1` is the first index after 0 whose value fails `p`: the
      iteration count of `do x := f(x) while p(x)`. */
  ghost predicate IsDoExit<T>(f: T -> T, x: T, p: T -> bool, k: nat) {
    && 1 <= k
    && !p(Iterate(f, x, k))
    && forall i: nat :: 1 <= i < k ==> p(Iterate(f, x, i))
  }

  /** Below any failing index lies a first one. */
  lemma {:induction false} ExitAtOrBelow<T>(f: T -> T, x: T, p: T -> bool, k: nat)
    requires !p(Iterate(f, x, k))
    ensures exists j: nat :: j <= k && IsExit(f, x, p, j)
    decreases k
  {
    if forall i: nat :: i < k ==> p(Iterate(f, x, i)) {
      assert IsExit(f, x, p, k);
    } else {
      var i: nat :| i < k && !p(Iterate(f, x, i));
      ExitAtOrBelow(f, x, p, i);
    }
  }

  /** The number of steps `while p(x) x := f(x)` takes. */
  ghost function Exit<T>(f: T -> T, x: T, p: T -> bool): (k: nat)
    requires Halts(f, x, p)
    ensures IsExit(f, x, p, k)
    ensures forall j: nat :: IsExit(f, x, p, j) ==> j == k
  {
    var w: nat :| !p(Iterate(f, x, w));
    ExitAtOrBelow(f, x, p, w);
    var k: nat :| IsExit(f, x, p, k);
    k
  }

  /** Starting one step later is the same as taking one more step. */
  lemma {:induction false} IterateShift<T>(f: T -> T, x: T, k: nat)
    ensures Iterate(f, f(x), k) == Iterate(f, x, k + 1)
    decreases k
  {
    if k > 0 {
      IterateShift(f, x, k - 1);
    }
  }

  /** The do-loop from `x` exits where the plain loop from `f(x)` does, one
      index later. */
  lemma DoExitShift<T>(f: T -> T, x: T, p: T -> bool, j: nat)
    ensures IsExit(f, f(x), p, j) <==> IsDoExit(f, x, p, j + 1)
  {
    forall i: nat | i <= j
      ensures Iterate(f, f(x), i) == Iterate(f, x, i + 1)
    {
      IterateShift(f, x, i);
    }
    if IsDoExit(f, x, p, j + 1) {
      forall i: nat | i < j
        ensures p(Iterate(f, f(x), i))
      {
        assert 1 <= i + 1 < j + 1;
      }
    }
    if IsExit(f, f(x), p, j) {
      forall i: nat | 1 <= i < j + 1
        ensures p(Iterate(f, x, i))
      {
        assert Iterate(f, f(x), i - 1) == Iterate(f, x, i);
      }
    }
  }

  /** At most one index is the first failing index of a do-loop. */
  lemma DoExitUnique<T>(f: T -> T, x: T, p: T -> bool, j: nat, k: nat)
    requires IsDoExit(f, x, p, j) && IsDoExit(f, x, p, k)
    ensures j == k
  {
  }

  /** The environment after a call of a zero-argument expression. */
  function Next<T, S>(expression: S -> (T, S)): S -> S
  {
    s => expression(s).1
  }

  /** The C# wrapper `t => expression()`: a step on (value, environment)
      pairs that ignores the value it is given. */
  function Lift<T, S>(expression: S -> (T, S)): ((T, S)) -> (T, S)
  {
    (vs: (T, S)) => expression(vs.1)
  }

  /** The value and environment produced by the `(i+1)`-th call of a
      zero-argument expression, started in environment `env`. */
  function Evaluation<T, S>(expression: S -> (T, S), env: S, i: nat): (T, S)
  {
    expression(Iterate(Next(expression), env, i))
  }

  /** After `k` lifted steps the environment has seen exactly `k` calls, and
      the value is that of the `k`-th call: the value the chain started from
      is never looked at. */
  lemma {:induction false} LiftIterate<T, S>(expression: S -> (T, S), v: T, env: S, k: nat)
    ensures Iterate(Lift(expression), (v, env), k).1 == Iterate(Next(expression), env, k)
    ensures k > 0 ==> Iterate(Lift(expression), (v, env), k) == Evaluation(expression, env, k - 1)
    decreases k
  {
    if k > 0 {
      LiftIterate(expression, v, env, k - 1);
    }
  }

  /** A lifted loop that ran `k >= 1` steps stopped at the value of the
      `k`-th call, and every earlier call's value passed the predicate. */
  lemma LiftedExit<T, S>(expression: S -> (T, S), v: T, env: S, p: ((T, S)) -> bool, k: nat)
    requires 1 <= k && IsExit(Lift(expression), (v, env), p, k)
    ensures Iterate(Lift(expression), (v, env), k) == Evaluation(expression, env, k - 1)
    ensures forall i: nat :: i < k - 1 ==> p(Evaluation(expression, env, i))
  {
    LiftIterate(expression, v, env, k);
    forall i: nat | i < k - 1
      ensures p(Evaluation(expression, env, i))
    {
      LiftIterate(expression, v, env, i + 1);
      assert p(Iterate(Lift(expression), (v, env), i + 1));
    }
  }

  /** The chain of lifted steps started from the first call's output runs
      through the outputs of the later calls. */
  lemma LiftedFromFirst<T, S>(expression: S -> (T, S), env: S, k: nat)
    ensures Iterate(Lift(expression), expression(env), k) == Evaluation(expression, env, k)
  {
    var v := expression(env).0;
    assert expression(env) == Lift(expression)((v, env));
    IterateShift(Lift(expression), (v, env), k);
    LiftIterate(expression, v, env, k + 1);
  }

  /** A lifted loop started from the first call's output that runs `k`
      steps stops at the value of the `(k+1)`-th call, and every earlier
      call's value passed the predicate. */
  lemma LiftedFromFirstExit<T, S>(expression: S -> (T, S), env: S, p: ((T, S)) -> bool, k: nat)
    requires IsExit(Lift(expression), expression(env), p, k)
    ensures Iterate(Lift(expression), expression(env), k) == Evaluation(expression, env, k)
    ensures forall i: nat :: i < k ==> p(Evaluation(expression, env, i))
  {
    LiftedFromFirst(expression, env, k);
    forall i: nat | i < k
      ensures p(Evaluation(expression, env, i))
    {
      LiftedFromFirst(expression, env, i);
    }
  }

  /** The values a loop `x := f(x)` produces in its first `n` steps from
      `x`: `f(x), f(f(x)), ...`; the start `x` itself is not among them. */
  function Chain<T>(f: T -> T, x: T, n: nat): (c: seq<T>)
    ensures |c| == n
  {
    seq(n, i requires 0 <= i < n => Iterate(f, x, i + 1))
  }

  /** One step more extends the produced values by the next one. */
  lemma ChainSnoc<T>(f: T -> T, x: T, n: nat)
    ensures Chain(f, x, n + 1) == Chain(f, x, n) + [Iterate(f, x, n + 1)]
  {
  }

  /** Produced values are threaded: the first is `f(x)` and each later one
      is `f` of the one before. */
  lemma ChainThreads<T>(f: T -> T, x: T, n: nat)
    ensures n > 0 ==> Chain(f, x, n)[0] == f(x)
    ensures forall i :: 0 <= i < n - 1 ==> Chain(f, x, n)[i + 1] == f(Chain(f, x, n)[i])
  {
    assert Iterate(f, x, 1) == f(Iterate(f, x, 0));
  }

  /** The values of the first `n` calls of a zero-argument expression,
      started in environment `env`. */
  function Outputs<T, S>(expression: S -> (T, S), env: S, n: nat): (o: seq<T>)
    ensures |o| == n
  {
    seq(n, i requires 0 <= i < n => Evaluation(expression, env, i).0)
  }

  lemma OutputsSnoc<T, S>(expression: S -> (T, S), env: S, n: nat)
    ensures Outputs(expression, env, n + 1) == Outputs(expression, env, n) + [Evaluation(expression, env, n).0]
  {
  }
}
