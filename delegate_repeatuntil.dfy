/** The `RepeatUntil` overloads of the partial class `DelegateExtensions`:
    each is the matching `RepeatWhile` overload called with `Not(pred)`. */
module DelegateRepeatUntil {
  import opened Iteration
  import opened DelegateNot
  import opened DelegateWhile
  import opened DelegateUntil
  import opened DelegateRepeatWhile

  /** `RepeatUntil(expression, initial, pred)`: the values produced until
      the first one that satisfies the predicate, that one included. */
  method RepeatUntil<T>(expression: T -> T, initial: T, pred: T -> bool) returns (values: seq<T>)
    requires Reaches(expression, initial, pred)
    ensures Halts(expression, initial, Not(pred))
    ensures values == Chain(expression, initial, Exit(expression, initial, Not(pred)))
    ensures values == [] <==> pred(initial)
    ensures forall i :: 0 <= i < |values| - 1 ==> !pred(values[i])
    ensures values != [] ==> pred(values[|values| - 1])
  {
    ReachesHaltsNegated(expression, initial, pred);
    values := RepeatWhile(expression, initial, Not(pred));
    NotComplements(pred);
  }

  /** `RepeatUntil(expression, pred)` over `Func<T, T>`:
      `RepeatWhile(expression, Not(pred))`, seeded with `default(T)`. */
  method RepeatUntilDefault<T>(expression: T -> T, defaultOfT: T, pred: T -> bool) returns (values: seq<T>)
    requires Reaches(expression, defaultOfT, pred)
    ensures Halts(expression, defaultOfT, Not(pred))
    ensures values == Chain(expression, defaultOfT, Exit(expression, defaultOfT, Not(pred)))
    ensures values == [] <==> pred(defaultOfT)
    ensures forall i :: 0 <= i < |values| - 1 ==> !pred(values[i])
    ensures values != [] ==> pred(values[|values| - 1])
  {
    ReachesHaltsNegated(expression, defaultOfT, pred);
    values := RepeatWhileDefault(expression, defaultOfT, Not(pred));
    NotComplements(pred);
  }

  /** A zero-argument predicate that becomes true stops the negated loop. */
  lemma ReachesHaltsNegatedNullary<S>(f: S -> S, env: S, pred: S -> bool)
    requires Reaches(f, env, pred)
    ensures Halts(f, env, NotNullary(pred))
  {
    var k: nat :| pred(Iterate(f, env, k));
    assert !NotNullary(pred)(Iterate(f, env, k));
  }

  /** `RepeatUntil(Func<T> expression, Func<bool> pred)`: call the
      expression and yield its value until the predicate holds. */
  method RepeatUntilNullary<T, S>(expression: S -> (T, S), env: S, pred: S -> bool)
    returns (values: seq<T>, env': S)
    requires Reaches(Next(expression), env, pred)
    ensures Halts(Next(expression), env, NotNullary(pred))
    ensures values == Outputs(expression, env, Exit(Next(expression), env, NotNullary(pred)))
    ensures env' == Iterate(Next(expression), env, |values|)
    ensures pred(env')
    ensures values == [] <==> pred(env)
  {
    ReachesHaltsNegatedNullary(Next(expression), env, pred);
    values, env' := RepeatWhileNullary(expression, env, NotNullary(pred));
  }

  /** `Action.RepeatUntil(pred)`: `Action.RepeatWhile(Not(pred))`. */
  method RepeatUntilAction<S>(action: S -> S, env: S, pred: S -> bool) returns (env': S)
    requires Reaches(action, env, pred)
    ensures Halts(action, env, NotNullary(pred))
    ensures env' == Iterate(action, env, Exit(action, env, NotNullary(pred)))
    ensures pred(env')
    ensures pred(env) ==> env' == env
  {
    ReachesHaltsNegatedNullary(action, env, pred);
    env' := RepeatWhileAction(action, env, NotNullary(pred));
  }

  /** `(x => x + 1).RepeatUntil(x => x >= 3)` from `default(int)` yields
      [1, 2, 3]. */
  method RepeatUntilFromDefault() returns (values: seq<int>)
    ensures values == [1, 2, 3]
  {
    var succ := (x: int) => x + 1;
    var atLeast3 := (x: int) => x >= 3;
    IterateSuccessorUpTo(succ, 0, 3);
    FirstReachedIsNegatedExit(succ, 0, atLeast3, 3);
    SuccessorChain(succ, 0, Not(atLeast3), 3);
    values := RepeatUntilDefault(succ, 0, atLeast3);
  }

  /** `RepeatUntil(5, x => x >= 8)` with `x + 1` yields [6, 7, 8]. */
  method RepeatUntilFromFive() returns (values: seq<int>)
    ensures values == [6, 7, 8]
  {
    var succ := (x: int) => x + 1;
    var atLeast8 := (x: int) => x >= 8;
    IterateSuccessorUpTo(succ, 5, 3);
    FirstReachedIsNegatedExit(succ, 5, atLeast8, 3);
    SuccessorChain(succ, 5, Not(atLeast8), 3);
    values := RepeatUntil(succ, 5, atLeast8);
  }

  /** `(x => x + 1).RepeatUntil(x => true)` yields nothing. */
  method RepeatUntilAlwaysDone() returns (values: seq<int>)
    ensures values == []
  {
    var succ := (x: int) => x + 1;
    var always := (x: int) => true;
    assert always(Iterate(succ, 0, 0));
    values := RepeatUntilDefault(succ, 0, always);
  }
}
