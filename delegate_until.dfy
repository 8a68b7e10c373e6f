/** The `Until` overloads of the partial class `DelegateExtensions`: each
    is the matching `While` overload called with `Not(pred)`. */
module DelegateUntil {
  import opened Iteration
  import opened DelegateNot
  import opened DelegateWhile

  /** A chain that reaches `p` is one whose `while Not(p)` loop halts. */
  lemma ReachesHaltsNegated<T>(f: T -> T, x: T, p: T -> bool)
    requires Reaches(f, x, p)
    ensures Halts(f, x, Not(p))
  {
    var k: nat :| p(Iterate(f, x, k));
    assert !Not(p)(Iterate(f, x, k));
  }

  /** Where the negated loop stops, `p` holds and it failed before. */
  lemma NegatedExitReached<T>(f: T -> T, x: T, p: T -> bool, k: nat)
    requires IsExit(f, x, Not(p), k)
    ensures p(Iterate(f, x, k))
    ensures forall i: nat :: i < k ==> !p(Iterate(f, x, i))
  {
    NotComplements(p);
  }

  /** The first index where `p` holds is where the negated loop stops. */
  lemma FirstReachedIsNegatedExit<T>(f: T -> T, x: T, p: T -> bool, k: nat)
    requires p(Iterate(f, x, k))
    requires forall i: nat :: i < k ==> !p(Iterate(f, x, i))
    ensures IsExit(f, x, Not(p), k)
  {
    NotComplements(p);
  }

  /** `Until(expression, initial, defaultResult, pred)`. */
  method Until<T>(expression: T -> T, initial: T, defaultResult: T, pred: T -> bool) returns (r: T)
    requires Reaches(expression, initial, pred)
    ensures Halts(expression, initial, Not(pred))
    ensures r == WhileResult(expression, initial, defaultResult, Not(pred))
    ensures pred(initial) ==> r == defaultResult
    ensures !pred(initial) ==>
      exists k: nat ::
        && 1 <= k && r == Iterate(expression, initial, k) && pred(r)
        && forall i: nat :: i < k ==> !pred(Iterate(expression, initial, i))
  {
    ReachesHaltsNegated(expression, initial, pred);
    r := While(expression, initial, defaultResult, Not(pred));
    if !pred(initial) {
      ghost var k: nat :| 1 <= k && IsExit(expression, initial, Not(pred), k) && r == Iterate(expression, initial, k);
      NegatedExitReached(expression, initial, pred, k);
    }
  }

  /** `Until(expression, initial, pred)`: `initial` doubles as the
      default, so the result is the first value of the chain from
      `initial` that satisfies the predicate. */
  method UntilInitial<T>(expression: T -> T, initial: T, pred: T -> bool) returns (r: T)
    requires Reaches(expression, initial, pred)
    ensures Halts(expression, initial, Not(pred))
    ensures r == WhileResult(expression, initial, initial, Not(pred))
    ensures pred(r)
    ensures pred(initial) ==> r == initial
    ensures exists k: nat ::
      && r == Iterate(expression, initial, k)
      && forall i: nat :: i < k ==> !pred(Iterate(expression, initial, i))
  {
    ReachesHaltsNegated(expression, initial, pred);
    r := WhileInitial(expression, initial, Not(pred));
    ghost var k: nat :| IsExit(expression, initial, Not(pred), k) && r == Iterate(expression, initial, k);
    NegatedExitReached(expression, initial, pred, k);
  }

  /** `Until(expression, pred)` over `Func<T, T>`: `While(Not(pred))`,
      which seeds with `default(T)`. */
  method UntilDefault<T>(expression: T -> T, defaultOfT: T, pred: T -> bool) returns (r: T)
    requires Reaches(expression, defaultOfT, pred)
    ensures Halts(expression, defaultOfT, Not(pred))
    ensures r == WhileResult(expression, defaultOfT, defaultOfT, Not(pred))
    ensures pred(r)
    ensures pred(defaultOfT) ==> r == defaultOfT
    ensures exists k: nat ::
      && r == Iterate(expression, defaultOfT, k)
      && forall i: nat :: i < k ==> !pred(Iterate(expression, defaultOfT, i))
  {
    ReachesHaltsNegated(expression, defaultOfT, pred);
    r := WhileDefault(expression, defaultOfT, Not(pred));
    ghost var k: nat :| IsExit(expression, defaultOfT, Not(pred), k) && r == Iterate(expression, defaultOfT, k);
    NegatedExitReached(expression, defaultOfT, pred, k);
  }

  /** `Until(Func<T> expression, defaultResult, pred)`: the zero-argument
      `While` with `Not(pred)`. */
  method UntilNullary<T, S>(expression: S -> (T, S), env: S, defaultResult: T, pred: ((T, S)) -> bool)
    returns (r: T, env': S)
    requires Reaches(Lift(expression), (defaultResult, env), pred)
    ensures Halts(Lift(expression), (defaultResult, env), Not(pred))
    ensures (r, env') == WhileResult(Lift(expression), (defaultResult, env), (defaultResult, env), Not(pred))
    ensures pred((defaultResult, env)) ==> r == defaultResult && env' == env
    ensures !pred((defaultResult, env)) ==>
      exists k: nat ::
        && (r, env') == Evaluation(expression, env, k)
        && pred((r, env'))
        && forall i: nat :: i < k ==> !pred(Evaluation(expression, env, i))
  {
    ReachesHaltsNegated(Lift(expression), (defaultResult, env), pred);
    r, env' := WhileNullary(expression, env, defaultResult, Not(pred));
  }

  /** `Until(Func<T> expression, pred)`: seeded with `default(T)`. */
  method UntilNullaryDefault<T, S>(expression: S -> (T, S), env: S, defaultOfT: T, pred: ((T, S)) -> bool)
    returns (r: T, env': S)
    requires Reaches(Lift(expression), (defaultOfT, env), pred)
    ensures Halts(Lift(expression), (defaultOfT, env), Not(pred))
    ensures (r, env') == WhileResult(Lift(expression), (defaultOfT, env), (defaultOfT, env), Not(pred))
    ensures pred((defaultOfT, env)) ==> r == defaultOfT && env' == env
    ensures !pred((defaultOfT, env)) ==>
      exists k: nat ::
        && (r, env') == Evaluation(expression, env, k)
        && pred((r, env'))
        && forall i: nat :: i < k ==> !pred(Evaluation(expression, env, i))
  {
    ReachesHaltsNegated(Lift(expression), (defaultOfT, env), pred);
    r, env' := WhileNullaryDefault(expression, env, defaultOfT, Not(pred));
  }

  /** `Action.Until(pred)`: `Action.While(Not(pred))`. */
  method UntilAction<S>(action: S -> S, env: S, pred: S -> bool) returns (env': S)
    requires Reaches(action, env, pred)
    ensures Halts(action, env, NotNullary(pred))
    ensures env' == Iterate(action, env, Exit(action, env, NotNullary(pred)))
    ensures pred(env')
    ensures pred(env) ==> env' == env
  {
    var k: nat :| pred(Iterate(action, env, k));
    assert !NotNullary(pred)(Iterate(action, env, k));
    env' := WhileAction(action, env, NotNullary(pred));
  }

  /** `Until(9, x => x >= 10)` with `x + 1` calls the expression once and
      returns 10; `(x => x + 1).Until(x => x >= 10)` from `default(int)`
      returns 10; with `x => true` the default result -99 comes back. */
  method UntilExamples() returns (once: int, fromDefault: int, skipped: int)
    ensures once == 10 && fromDefault == 10 && skipped == -99
  {
    var succ := (x: int) => x + 1;
    var atLeast10 := (x: int) => x >= 10;
    var always := (x: int) => true;
    assert atLeast10(Iterate(succ, 9, 1));
    once := UntilInitial(succ, 9, atLeast10);
    ghost var k: nat :| once == Iterate(succ, 9, k) && forall i: nat :: i < k ==> !atLeast10(Iterate(succ, 9, i));
    IterateSuccessor(succ, 9, k);
    IterateSuccessor(succ, 0, 10);
    fromDefault := UntilDefault(succ, 0, atLeast10);
    ghost var j: nat :| fromDefault == Iterate(succ, 0, j) && forall i: nat :: i < j ==> !atLeast10(Iterate(succ, 0, i));
    IterateSuccessor(succ, 0, j);
    assert always(Iterate(succ, 9, 0));
    skipped := Until(succ, 9, -99, always);
  }
}
