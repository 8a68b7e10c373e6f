/** The `While` overloads of the partial class `DelegateExtensions`. The
    four-argument `While` over `Func<T, T>` is the kernel; every other
    overload is one call to it. */
module DelegateWhile {
  import opened Iteration

  /** What the kernel returns: `defaultResult` when the predicate rejects
      `initial` (the expression never runs), otherwise the first value of
      the chain `initial, expression(initial), ...` that the predicate
      rejects. */
  ghost function WhileResult<T>(expression: T -> T, initial: T, defaultResult: T, pred: T -> bool): T
    requires Halts(expression, initial, pred)
  {
    var k := Exit(expression, initial, pred);
    if k == 0 then defaultResult else Iterate(expression, initial, k)
  }

  /** `While(expression, initial, defaultResult, pred)`. */
  method While<T>(expression: T -> T, initial: T, defaultResult: T, pred: T -> bool) returns (r: T)
    requires Halts(expression, initial, pred)
    ensures r == WhileResult(expression, initial, defaultResult, pred)
    ensures !pred(initial) ==> r == defaultResult
    ensures pred(initial) ==>
      exists k: nat :: 1 <= k && IsExit(expression, initial, pred, k) && r == Iterate(expression, initial, k)
  {
    ghost var k := Exit(expression, initial, pred);
    ghost var n: nat := 0;
    var executed := false;
    var result := initial;
    while pred(result)
      invariant n <= k
      invariant result == Iterate(expression, initial, n)
      invariant executed <==> 0 < n
      decreases k - n
    {
      executed := true;
      result := expression(result);
      n := n + 1;
    }
    r := if executed then result else defaultResult;
  }

  /** `While(expression, initial, pred)`: `initial` doubles as the
      default result, so the result is always the first value of the chain
      from `initial` that the predicate rejects. */
  method WhileInitial<T>(expression: T -> T, initial: T, pred: T -> bool) returns (r: T)
    requires Halts(expression, initial, pred)
    ensures r == WhileResult(expression, initial, initial, pred)
    ensures !pred(initial) ==> r == initial
    ensures !pred(r)
    ensures exists k: nat :: IsExit(expression, initial, pred, k) && r == Iterate(expression, initial, k)
  {
    r := While(expression, initial, initial, pred);
  }

  /** `While(expression, pred)` over `Func<T, T>`: seeded with
      `default(T)`, which Dafny has no generic expression for and so is the
      parameter `defaultOfT`. */
  method WhileDefault<T>(expression: T -> T, defaultOfT: T, pred: T -> bool) returns (r: T)
    requires Halts(expression, defaultOfT, pred)
    ensures r == WhileResult(expression, defaultOfT, defaultOfT, pred)
    ensures !pred(defaultOfT) ==> r == defaultOfT
    ensures !pred(r)
    ensures exists k: nat :: IsExit(expression, defaultOfT, pred, k) && r == Iterate(expression, defaultOfT, k)
  {
    r := WhileInitial(expression, defaultOfT, pred);
  }

  /** `While(Func<T> expression, defaultResult, pred)`: the expression
      is wrapped as `t => expression()` and handed to the three-argument
      `While`. The predicate sees `defaultResult` first, then each value
      produced; it may also read the environment. Returns the value and the
      environment after the loop. */
  method WhileNullary<T, S>(expression: S -> (T, S), env: S, defaultResult: T, pred: ((T, S)) -> bool)
    returns (r: T, env': S)
    requires Halts(Lift(expression), (defaultResult, env), pred)
    ensures (r, env') == WhileResult(Lift(expression), (defaultResult, env), (defaultResult, env), pred)
    ensures !pred((defaultResult, env)) ==> r == defaultResult && env' == env
    ensures pred((defaultResult, env)) ==>
      exists k: nat ::
        && (r, env') == Evaluation(expression, env, k)
        && !pred((r, env'))
        && forall i: nat :: i < k ==> pred(Evaluation(expression, env, i))
  {
    var out := WhileInitial(Lift(expression), (defaultResult, env), pred);
    r, env' := out.0, out.1;
    if pred((defaultResult, env)) {
      ghost var k: nat :| IsExit(Lift(expression), (defaultResult, env), pred, k)
                          && out == Iterate(Lift(expression), (defaultResult, env), k);
      LiftedExit(expression, defaultResult, env, pred, k);
    }
  }

  /** `While(Func<T> expression, pred)`: seeded with `default(T)`. */
  method WhileNullaryDefault<T, S>(expression: S -> (T, S), env: S, defaultOfT: T, pred: ((T, S)) -> bool)
    returns (r: T, env': S)
    requires Halts(Lift(expression), (defaultOfT, env), pred)
    ensures (r, env') == WhileResult(Lift(expression), (defaultOfT, env), (defaultOfT, env), pred)
    ensures !pred((defaultOfT, env)) ==> r == defaultOfT && env' == env
    ensures pred((defaultOfT, env)) ==>
      exists k: nat ::
        && (r, env') == Evaluation(expression, env, k)
        && !pred((r, env'))
        && forall i: nat :: i < k ==> pred(Evaluation(expression, env, i))
  {
    r, env' := WhileNullary(expression, env, defaultOfT, pred);
  }

  /** `Action.While(pred)`: runs the action once for each check of the
      predicate that comes out true, and stops at the first false one. */
  method WhileAction<S>(action: S -> S, env: S, pred: S -> bool) returns (env': S)
    requires Halts(action, env, pred)
    ensures env' == Iterate(action, env, Exit(action, env, pred))
    ensures !pred(env')
    ensures !pred(env) ==> env' == env
  {
    ghost var k := Exit(action, env, pred);
    ghost var n: nat := 0;
    env' := env;
    while pred(env')
      invariant n <= k
      invariant env' == Iterate(action, env, n)
      decreases k - n
    {
      env' := action(env');
      n := n + 1;
    }
  }

  /** `(x => x + 1).While(x => x < 10)` from `default(int)` returns 10. */
  method WhileSuccessorFromDefault() returns (r: int)
    ensures r == 10
  {
    var succ := (x: int) => x + 1;
    var below10 := (x: int) => x < 10;
    IterateSuccessor(succ, 0, 10);
    r := WhileDefault(succ, 0, below10);
    ghost var k: nat :| IsExit(succ, 0, below10, k) && r == Iterate(succ, 0, k);
    IterateSuccessor(succ, 0, k);
  }

  /** `While(9, -99, x => x < 10)` with `x + 1` returns 10, and
      `While(9, -99, x => false)` returns -99. */
  method WhileInitialAndDefault() returns (ran: int, skipped: int)
    ensures ran == 10 && skipped == -99
  {
    var succ := (x: int) => x + 1;
    var below10 := (x: int) => x < 10;
    var never := (x: int) => false;
    assert !below10(Iterate(succ, 9, 1));
    ran := While(succ, 9, -99, below10);
    ghost var k: nat :| 1 <= k && IsExit(succ, 9, below10, k) && ran == Iterate(succ, 9, k);
    IterateSuccessor(succ, 9, k);
    assert !never(Iterate(succ, 9, 0));
    skipped := While(succ, 9, -99, never);
  }

  /** `Func<int>` that always returns 42, with a predicate that is false
      at once: the result is the default result 83 and the environment is
      untouched (the expression never ran). */
  method WhileNullaryNeverRuns(env: int) returns (r: int, env': int)
    ensures r == 83 && env' == env
  {
    var fortyTwo := (s: int) => (42, s);
    var never := (vs: (int, int)) => false;
    assert !never(Iterate(Lift(fortyTwo), (83, env), 0));
    r, env' := WhileNullary(fortyTwo, env, 83, never);
  }

  lemma {:induction false} IterateSuccessor(succ: int -> int, x: int, k: nat)
    requires forall y :: succ(y) == y + 1
    ensures Iterate(succ, x, k) == x + k
    decreases k
  {
    if k > 0 {
      IterateSuccessor(succ, x, k - 1);
    }
  }

  lemma IterateSuccessorUpTo(succ: int -> int, x: int, n: nat)
    requires forall y :: succ(y) == y + 1
    ensures forall i: nat :: i <= n ==> Iterate(succ, x, i) == x + i
  {
    forall i: nat | i <= n
      ensures Iterate(succ, x, i) == x + i
    {
      IterateSuccessor(succ, x, i);
    }
  }
}
