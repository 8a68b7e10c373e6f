/** The `DoWhile` overloads of the partial class `DelegateExtensions`: the
    expression runs once before the predicate is first consulted. */
module DelegateDoWhile {
  import opened Iteration
  import opened DelegateWhile

  /** `DoWhile(expression, initial, pred)`: `While(expression(initial),
      pred)`. The result is the first value after `initial` on the chain from
      `initial` that the predicate rejects. */
  method DoWhile<T>(expression: T -> T, initial: T, pred: T -> bool) returns (r: T)
    requires Halts(expression, expression(initial), pred)
    ensures r == WhileResult(expression, expression(initial), expression(initial), pred)
    ensures !pred(r)
    ensures exists k: nat :: IsDoExit(expression, initial, pred, k) && r == Iterate(expression, initial, k)
  {
    r := WhileInitial(expression, expression(initial), pred);
    ghost var j: nat :| IsExit(expression, expression(initial), pred, j) && r == Iterate(expression, expression(initial), j);
    DoExitShift(expression, initial, pred, j);
    IterateShift(expression, initial, j);
  }

  /** `DoWhile(expression, pred)` over `Func<T, T>`: the first call receives
      `default(T)`, the parameter `defaultOfT`. */
  method DoWhileDefault<T>(expression: T -> T, defaultOfT: T, pred: T -> bool) returns (r: T)
    requires Halts(expression, expression(defaultOfT), pred)
    ensures r == WhileResult(expression, expression(defaultOfT), expression(defaultOfT), pred)
    ensures !pred(r)
    ensures exists k: nat :: IsDoExit(expression, defaultOfT, pred, k) && r == Iterate(expression, defaultOfT, k)
  {
    r := DoWhile(expression, defaultOfT, pred);
  }

  /** `DoWhile(Func<T> expression, pred)`: the expression, wrapped as
      `t => expression()`, is handed to `DoWhile` over `Func<T, T>`. It runs
      at least once; the result is the output of the first call the
      predicate rejects. */
  method DoWhileNullary<T, S>(expression: S -> (T, S), env: S, defaultOfT: T, pred: ((T, S)) -> bool)
    returns (r: T, env': S)
    requires Halts(Lift(expression), expression(env), pred)
    ensures (r, env') == WhileResult(Lift(expression), expression(env), expression(env), pred)
    ensures exists k: nat ::
      && (r, env') == Evaluation(expression, env, k)
      && !pred((r, env'))
      && forall i: nat :: i < k ==> pred(Evaluation(expression, env, i))
  {
    assert Lift(expression)((defaultOfT, env)) == expression(env);
    var out := DoWhileDefault(Lift(expression), (defaultOfT, env), pred);
    r, env' := out.0, out.1;
    ghost var j := Exit(Lift(expression), expression(env), pred);
    LiftedFromFirstExit(expression, env, pred, j);
  }

  /** `Action.DoWhile(pred)`: the action runs, then runs again for each
      check of the predicate that comes out true. */
  method DoWhileAction<S>(action: S -> S, env: S, pred: S -> bool) returns (env': S)
    requires Halts(action, action(env), pred)
    ensures !pred(env')
    ensures exists k: nat :: IsDoExit(action, env, pred, k) && env' == Iterate(action, env, k)
  {
    ghost var j := Exit(action, action(env), pred);
    DoExitShift(action, env, pred, j);
    ghost var k := j + 1;
    ghost var n: nat := 1;
    env' := action(env);
    while pred(env')
      invariant 1 <= n <= k
      invariant env' == Iterate(action, env, n)
      decreases k - n
    {
      env' := action(env');
      n := n + 1;
    }
  }

  /** When the predicate accepts `initial`, the do-loop and the plain loop
      from `initial` take the same path and return the same value. */
  lemma {:induction false} DoWhileAgreesWithWhile<T>(f: T -> T, x: T, p: T -> bool)
    requires p(x) && Halts(f, x, p)
    ensures Halts(f, f(x), p)
    ensures WhileResult(f, f(x), f(x), p) == WhileResult(f, x, x, p)
  {
    var k := Exit(f, x, p);
    assert k != 0;
    assert IsDoExit(f, x, p, k);
    DoExitShift(f, x, p, k - 1);
    IterateShift(f, x, k - 1);
    assert !p(Iterate(f, f(x), k - 1));
    assert Exit(f, f(x), p) == k - 1;
  }

  /** `DoWhile(100, x => x < 10)` with `x + 1` runs the expression once and
      returns 101. */
  method DoWhileRunsOnce() returns (r: int)
    ensures r == 101
  {
    var succ := (x: int) => x + 1;
    var below10 := (x: int) => x < 10;
    assert !below10(Iterate(succ, succ(100), 0));
    r := DoWhile(succ, 100, below10);
    ghost var k: nat :| IsDoExit(succ, 100, below10, k) && r == Iterate(succ, 100, k);
    IterateSuccessor(succ, 100, k);
  }

  /** A `Func<bool>` that sets a captured flag, under `x => false`, still
      runs once; a `Func<int>` returning `executionCount++` under
      `x => executionCount < 10` leaves the counter at 10. */
  method DoWhileNullaryExamples() returns (flag: bool, count: int)
    ensures flag && count == 10
  {
    var setFlag := (executed: bool) => (true, true);
    var never := (vs: (bool, bool)) => false;
    assert !never(Iterate(Lift(setFlag), setFlag(false), 0));
    var ignored;
    ignored, flag := DoWhileNullary(setFlag, false, false, never);

    var postIncrement := (c: int) => (c, c + 1);
    var below10 := (vs: (int, int)) => vs.1 < 10;
    IterateSuccessor(Next(postIncrement), 0, 9);
    LiftedFromFirst(postIncrement, 0, 9);
    assert !below10(Iterate(Lift(postIncrement), postIncrement(0), 9));
    var value;
    value, count := DoWhileNullary(postIncrement, 0, 0, below10);
    ghost var k: nat :| && (value, count) == Evaluation(postIncrement, 0, k)
                        && !below10((value, count))
                        && forall i: nat :: i < k ==> below10(Evaluation(postIncrement, 0, i));
    IterateSuccessor(Next(postIncrement), 0, k);
  }

  /** An `Action` that increments a captured counter, under the check
      `() => executionCount < 10`, leaves the counter at 10. */
  method DoWhileActionExample() returns (count: int)
    ensures count == 10
  {
    var succ := (c: int) => c + 1;
    var below10 := (c: int) => c < 10;
    IterateSuccessor(succ, 0, 10);
    IterateShift(succ, 0, 9);
    count := DoWhileAction(succ, 0, below10);
    ghost var j: nat :| IsDoExit(succ, 0, below10, j) && count == Iterate(succ, 0, j);
    IterateSuccessor(succ, 0, j);
  }
}
