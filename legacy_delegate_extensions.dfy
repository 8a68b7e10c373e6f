/** The older, non-partial `DelegateExtensions` class, which writes `DoWhile`
    and the zero-argument `While` out as loops instead of delegating to the
    `While` kernel. Each operation is specified by the same function as its
    counterpart in the partial class, and the agreement methods at the end
    run both and return equal results. */
module LegacyDelegateExtensions {
  import opened Iteration
  import DelegateWhile
  import DelegateDoWhile

  /** `DoWhile(Func<T> expression, pred)`: call the expression, and call it
      again while the predicate accepts its latest output. */
  method DoWhileNullary<T, S>(expression: S -> (T, S), env: S, pred: ((T, S)) -> bool)
    returns (r: T, env': S)
    requires Halts(Lift(expression), expression(env), pred)
    ensures (r, env') == DelegateWhile.WhileResult(Lift(expression), expression(env), expression(env), pred)
    ensures exists k: nat ::
      && (r, env') == Evaluation(expression, env, k)
      && !pred((r, env'))
      && forall i: nat :: i < k ==> pred(Evaluation(expression, env, i))
  {
    ghost var k := Exit(Lift(expression), expression(env), pred);
    ghost var n: nat := 0;
    var result := expression(env);
    while pred(result)
      invariant n <= k
      invariant result == Iterate(Lift(expression), expression(env), n)
      decreases k - n
    {
      result := expression(result.1);
      n := n + 1;
    }
    r, env' := result.0, result.1;
    LiftedFromFirstExit(expression, env, pred, k);
  }

  /** `DoWhile(expression, initial, pred)` over `Func<T, T>`: apply the
      expression to `initial`, and again to each output the predicate
      accepts. */
  method DoWhile<T>(expression: T -> T, initial: T, pred: T -> bool) returns (r: T)
    requires Halts(expression, expression(initial), pred)
    ensures r == DelegateWhile.WhileResult(expression, expression(initial), expression(initial), pred)
    ensures !pred(r)
    ensures exists k: nat :: IsDoExit(expression, initial, pred, k) && r == Iterate(expression, initial, k)
  {
    ghost var j := Exit(expression, expression(initial), pred);
    DoExitShift(expression, initial, pred, j);
    ghost var n: nat := 1;
    var result := initial;
    result := expression(result);
    while pred(result)
      invariant 1 <= n <= j + 1
      invariant result == Iterate(expression, initial, n)
      decreases j + 1 - n
    {
      result := expression(result);
      n := n + 1;
    }
    IterateShift(expression, initial, j);
    r := result;
  }

  /** `DoWhile(expression, pred)` over `Func<T, T>`: seeded with
      `default(T)`, the parameter `defaultOfT`. */
  method DoWhileDefault<T>(expression: T -> T, defaultOfT: T, pred: T -> bool) returns (r: T)
    requires Halts(expression, expression(defaultOfT), pred)
    ensures r == DelegateWhile.WhileResult(expression, expression(defaultOfT), expression(defaultOfT), pred)
    ensures !pred(r)
    ensures exists k: nat :: IsDoExit(expression, defaultOfT, pred, k) && r == Iterate(expression, defaultOfT, k)
  {
    r := DoWhile(expression, defaultOfT, pred);
  }

  /** `Action.DoWhile(pred)`: run the action, then again for each check of
      the predicate that comes out true. */
  method DoWhileAction<S>(action: S -> S, env: S, pred: S -> bool) returns (env': S)
    requires Halts(action, action(env), pred)
    ensures !pred(env')
    ensures exists k: nat :: IsDoExit(action, env, pred, k) && env' == Iterate(action, env, k)
  {
    ghost var j := Exit(action, action(env), pred);
    DoExitShift(action, env, pred, j);
    ghost var n: nat := 0;
    env' := env;
    env' := action(env');
    n := n + 1;
    while pred(env')
      invariant 1 <= n <= j + 1
      invariant env' == Iterate(action, env, n)
      decreases j + 1 - n
    {
      env' := action(env');
      n := n + 1;
    }
  }

  /** `While(Func<T> expression, defaultResult, pred)`: starting from
      `defaultResult`, call the expression while the predicate accepts the
      latest value. */
  method WhileNullary<T, S>(expression: S -> (T, S), env: S, defaultResult: T, pred: ((T, S)) -> bool)
    returns (r: T, env': S)
    requires Halts(Lift(expression), (defaultResult, env), pred)
    ensures (r, env') == DelegateWhile.WhileResult(Lift(expression), (defaultResult, env), (defaultResult, env), pred)
    ensures !pred((defaultResult, env)) ==> r == defaultResult && env' == env
    ensures pred((defaultResult, env)) ==>
      exists k: nat ::
        && (r, env') == Evaluation(expression, env, k)
        && !pred((r, env'))
        && forall i: nat :: i < k ==> pred(Evaluation(expression, env, i))
  {
    ghost var k := Exit(Lift(expression), (defaultResult, env), pred);
    ghost var n: nat := 0;
    var result := (defaultResult, env);
    while pred(result)
      invariant n <= k
      invariant result == Iterate(Lift(expression), (defaultResult, env), n)
      decreases k - n
    {
      result := expression(result.1);
      n := n + 1;
    }
    r, env' := result.0, result.1;
    if pred((defaultResult, env)) {
      LiftedExit(expression, defaultResult, env, pred, k);
    }
  }

  /** `While(Func<T> expression, pred)`: `default(T)` is the default
      result. */
  method WhileNullaryDefault<T, S>(expression: S -> (T, S), env: S, defaultOfT: T, pred: ((T, S)) -> bool)
    returns (r: T, env': S)
    requires Halts(Lift(expression), (defaultOfT, env), pred)
    ensures (r, env') == DelegateWhile.WhileResult(Lift(expression), (defaultOfT, env), (defaultOfT, env), pred)
    ensures !pred((defaultOfT, env)) ==> r == defaultOfT && env' == env
    ensures pred((defaultOfT, env)) ==>
      exists k: nat ::
        && (r, env') == Evaluation(expression, env, k)
        && !pred((r, env'))
        && forall i: nat :: i < k ==> pred(Evaluation(expression, env, i))
  {
    r, env' := WhileNullary(expression, env, defaultOfT, pred);
  }

  /** The loop `DoWhile` and the partial class's `While(expression(initial),
      pred)` return the same value. */
  method DoWhileAgreement<T>(expression: T -> T, initial: T, pred: T -> bool) returns (legacy: T, current: T)
    requires Halts(expression, expression(initial), pred)
    ensures legacy == current
  {
    legacy := DoWhile(expression, initial, pred);
    current := DelegateDoWhile.DoWhile(expression, initial, pred);
  }

  method DoWhileDefaultAgreement<T>(expression: T -> T, defaultOfT: T, pred: T -> bool) returns (legacy: T, current: T)
    requires Halts(expression, expression(defaultOfT), pred)
    ensures legacy == current
  {
    legacy := DoWhileDefault(expression, defaultOfT, pred);
    current := DelegateDoWhile.DoWhileDefault(expression, defaultOfT, pred);
  }

  /** The zero-argument loop `DoWhile` and the partial class's wrapped
      delegation return the same value and leave the same environment. */
  method DoWhileNullaryAgreement<T, S>(expression: S -> (T, S), env: S, defaultOfT: T, pred: ((T, S)) -> bool)
    returns (legacy: T, legacyEnv: S, current: T, currentEnv: S)
    requires Halts(Lift(expression), expression(env), pred)
    ensures legacy == current && legacyEnv == currentEnv
  {
    legacy, legacyEnv := DoWhileNullary(expression, env, pred);
    current, currentEnv := DelegateDoWhile.DoWhileNullary(expression, env, defaultOfT, pred);
  }

  method DoWhileActionAgreement<S>(action: S -> S, env: S, pred: S -> bool) returns (legacy: S, current: S)
    requires Halts(action, action(env), pred)
    ensures legacy == current
  {
    legacy := DoWhileAction(action, env, pred);
    current := DelegateDoWhile.DoWhileAction(action, env, pred);
    ghost var j: nat :| IsDoExit(action, env, pred, j) && legacy == Iterate(action, env, j);
    ghost var k: nat :| IsDoExit(action, env, pred, k) && current == Iterate(action, env, k);
    DoExitUnique(action, env, pred, j, k);
  }

  /** The zero-argument loop `While` and the partial class's kernel-based
      `While` return the same value and leave the same environment. */
  method WhileNullaryAgreement<T, S>(expression: S -> (T, S), env: S, defaultResult: T, pred: ((T, S)) -> bool)
    returns (legacy: T, legacyEnv: S, current: T, currentEnv: S)
    requires Halts(Lift(expression), (defaultResult, env), pred)
    ensures legacy == current && legacyEnv == currentEnv
  {
    legacy, legacyEnv := WhileNullary(expression, env, defaultResult, pred);
    current, currentEnv := DelegateWhile.WhileNullary(expression, env, defaultResult, pred);
  }

  method WhileNullaryDefaultAgreement<T, S>(expression: S -> (T, S), env: S, defaultOfT: T, pred: ((T, S)) -> bool)
    returns (legacy: T, legacyEnv: S, current: T, currentEnv: S)
    requires Halts(Lift(expression), (defaultOfT, env), pred)
    ensures legacy == current && legacyEnv == currentEnv
  {
    legacy, legacyEnv := WhileNullaryDefault(expression, env, defaultOfT, pred);
    current, currentEnv := DelegateWhile.WhileNullaryDefault(expression, env, defaultOfT, pred);
  }
}
