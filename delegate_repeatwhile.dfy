/** The `RepeatWhile` overloads of the partial class `DelegateExtensions`:
    the loop of `While`, yielding every value it produces. The C# methods
    are lazy iterators; here the sequence they produce when enumerated to
    the end is built eagerly. */
module DelegateRepeatWhile {
  import opened Iteration
  import opened DelegateWhile

  /** `RepeatWhile(expression, initial, pred)`: while the predicate accepts
      the current value, replace it by `expression` of it and yield the new
      value. */
  method RepeatWhile<T>(expression: T -> T, initial: T, pred: T -> bool) returns (values: seq<T>)
    requires Halts(expression, initial, pred)
    ensures values == Chain(expression, initial, Exit(expression, initial, pred))
    ensures values == [] <==> !pred(initial)
    ensures forall i :: 0 <= i < |values| - 1 ==> pred(values[i])
    ensures values != [] ==>
      && !pred(values[|values| - 1])
      && values[|values| - 1] == WhileResult(expression, initial, initial, pred)
  {
    ghost var k := Exit(expression, initial, pred);
    values := [];
    var result := initial;
    while pred(result)
      invariant |values| <= k
      invariant result == Iterate(expression, initial, |values|)
      invariant values == Chain(expression, initial, |values|)
      decreases k - |values|
    {
      ChainSnoc(expression, initial, |values|);
      result := expression(result);
      values := values + [result];
    }
    forall i | 0 <= i < |values| - 1
      ensures pred(values[i])
    {
      assert values[i] == Iterate(expression, initial, i + 1);
    }
  }

  /** `RepeatWhile(expression, pred)` over `Func<T, T>`: seeded with
      `default(T)`, the parameter `defaultOfT`. */
  method RepeatWhileDefault<T>(expression: T -> T, defaultOfT: T, pred: T -> bool) returns (values: seq<T>)
    requires Halts(expression, defaultOfT, pred)
    ensures values == Chain(expression, defaultOfT, Exit(expression, defaultOfT, pred))
    ensures values == [] <==> !pred(defaultOfT)
    ensures forall i :: 0 <= i < |values| - 1 ==> pred(values[i])
    ensures values != [] ==>
      && !pred(values[|values| - 1])
      && values[|values| - 1] == WhileResult(expression, defaultOfT, defaultOfT, pred)
  {
    values := RepeatWhile(expression, defaultOfT, pred);
  }

  /** `RepeatWhile(Func<T> expression, Func<bool> pred)`: while the
      zero-argument predicate holds in the current environment, call the
      expression and yield its value. The environment after the loop is
      returned too. */
  method RepeatWhileNullary<T, S>(expression: S -> (T, S), env: S, pred: S -> bool)
    returns (values: seq<T>, env': S)
    requires Halts(Next(expression), env, pred)
    ensures values == Outputs(expression, env, Exit(Next(expression), env, pred))
    ensures env' == Iterate(Next(expression), env, |values|)
    ensures !pred(env')
    ensures values == [] <==> !pred(env)
  {
    ghost var k := Exit(Next(expression), env, pred);
    ghost var n: nat := 0;
    values := [];
    env' := env;
    while pred(env')
      invariant n <= k && |values| == n
      invariant env' == Iterate(Next(expression), env, n)
      invariant values == Outputs(expression, env, n)
      decreases k - n
    {
      OutputsSnoc(expression, env, n);
      var call := expression(env');
      values := values + [call.0];
      env' := call.1;
      n := n + 1;
    }
    assert n == k;
  }

  /** `Action.RepeatWhile(pred)` is `Action.While(pred)`. */
  method RepeatWhileAction<S>(action: S -> S, env: S, pred: S -> bool) returns (env': S)
    requires Halts(action, env, pred)
    ensures env' == Iterate(action, env, Exit(action, env, pred))
    ensures !pred(env')
    ensures !pred(env) ==> env' == env
  {
    env' := WhileAction(action, env, pred);
  }

  /** A successor chain that stops after `n` steps produces `x + 1, ...,
      x + n`. */
  lemma SuccessorChain(succ: int -> int, x: int, p: int -> bool, n: nat)
    requires forall y :: succ(y) == y + 1
    requires IsExit(succ, x, p, n)
    ensures Halts(succ, x, p)
    ensures Chain(succ, x, Exit(succ, x, p)) == seq(n, i requires 0 <= i < n => x + i + 1)
  {
    IterateSuccessorUpTo(succ, x, n);
  }

  /** `(x => x + 1).RepeatWhile(x => x < 3)` from `default(int)` yields
      [1, 2, 3]; `RepeatWhile(5, x => x < 8)` yields [6, 7, 8]. */
  method RepeatWhileExamples() returns (fromDefault: seq<int>, fromFive: seq<int>)
    ensures fromDefault == [1, 2, 3] && fromFive == [6, 7, 8]
  {
    var succ := (x: int) => x + 1;
    var below3 := (x: int) => x < 3;
    var below8 := (x: int) => x < 8;
    IterateSuccessorUpTo(succ, 0, 3);
    SuccessorChain(succ, 0, below3, 3);
    fromDefault := RepeatWhileDefault(succ, 0, below3);
    IterateSuccessorUpTo(succ, 5, 3);
    SuccessorChain(succ, 5, below8, 3);
    fromFive := RepeatWhile(succ, 5, below8);
  }

  /** `(() => ++counter).RepeatWhile(() => counter < 3)` yields [1, 2, 3];
      with `() => false` it yields nothing and never calls the expression. */
  method RepeatWhileNullaryExamples() returns (counted: seq<int>, none: seq<int>, untouched: int)
    ensures counted == [1, 2, 3] && none == [] && untouched == 0
  {
    var preIncrement := (c: int) => (c + 1, c + 1);
    var below3 := (c: int) => c < 3;
    var never := (c: int) => false;
    forall i: nat | i <= 3
      ensures Iterate(Next(preIncrement), 0, i) == i
    {
      IterateSuccessor(Next(preIncrement), 0, i);
    }
    assert IsExit(Next(preIncrement), 0, below3, 3);
    var after;
    counted, after := RepeatWhileNullary(preIncrement, 0, below3);
    assert !never(Iterate(Next(preIncrement), 0, 0));
    none, untouched := RepeatWhileNullary(preIncrement, 0, never);
  }
}
