/** `GeneralExtensions`: extension methods for any type. A C# action
    `Action<T>` has no result; it can only act through state it reaches,
    modelled as an explicit environment `S`. */
module GeneralExtensions {
  import opened Nullables
  import opened Enumerable

  /** `t.Mutate(action)`: run the action on `t`, then return the same `t`.
      The result pairs the returned instance with the environment the
      action left. */
  function Mutate<T, S>(t: T, env: S, action: (T, S) -> S): (r: (T, S))
    ensures r.0 == t
    ensures r.1 == action(t, env)
  {
    var env' := action(t, env);
    (t, env')
  }

  /** `t.Execute(action)`: an alias for `Mutate`. */
  function Execute<T, S>(t: T, env: S, action: (T, S) -> S): (r: (T, S))
    ensures r.0 == t
    ensures r.1 == action(t, env)
  {
    Mutate(t, env, action)
  }

  /** `t.MutateWithObject(o, action)`: run the action on `t` and `o`, then
      return the same `t`. */
  function MutateWithObject<T, U, S>(t: T, o: U, env: S, action: (T, U, S) -> S): (r: (T, S))
    ensures r.0 == t
    ensures r.1 == action(t, o, env)
  {
    var env' := action(t, o, env);
    (t, env')
  }

  /** `t.ExecuteWithObject(o, action)`: an alias for `MutateWithObject`. */
  function ExecuteWithObject<T, U, S>(t: T, o: U, env: S, action: (T, U, S) -> S): (r: (T, S))
    ensures r.0 == t
    ensures r.1 == action(t, o, env)
  {
    MutateWithObject(t, o, env, action)
  }

  /** The C# `p ?? (_ => false)` applied to `t`: a null predicate rejects
      everything. */
  function Test<T>(p: Nullable<T -> bool>, t: T): bool
  {
    p.OrElse((_: T) => false)(t)
  }

  /** `t.MatchesAny(predicates)` over `IEnumerable<Func<T, bool>>`: a null
      list counts as empty and a null entry as a predicate that always
      fails, so the result is true exactly when some non-null entry accepts
      `t`. */
  function MatchesAny<T>(t: T, predicates: Nullable<seq<Nullable<T -> bool>>>): (r: bool)
    ensures r <==>
      && predicates.NonNull?
      && exists i :: 0 <= i < |predicates.value| && predicates.value[i].NonNull? && predicates.value[i].value(t)
  {
    Any(predicates.OrElse([]), (p: Nullable<T -> bool>) => Test(p, t))
  }

  /** `t.MatchesAny(params predicates)`: the array handed on as an
      enumerable. */
  function MatchesAnyParams<T>(t: T, predicates: Nullable<seq<Nullable<T -> bool>>>): (r: bool)
    ensures r <==>
      && predicates.NonNull?
      && exists i :: 0 <= i < |predicates.value| && predicates.value[i].NonNull? && predicates.value[i].value(t)
  {
    MatchesAny(t, predicates)
  }

  /** A null list, an empty list and a list of nulls all give false. */
  lemma MatchesAnyNothing<T>(t: T, nulls: seq<Nullable<T -> bool>>)
    requires forall i :: 0 <= i < |nulls| ==> nulls[i].Null?
    ensures !MatchesAny(t, Null)
    ensures !MatchesAny(t, NonNull([]))
    ensures !MatchesAny(t, NonNull(nulls))
  {
  }

  /** Appending a null predicate, or one that rejects `t`, leaves the result
      unchanged. */
  lemma {:induction false} MatchesAnyAppendRejecting<T>(t: T, predicates: seq<Nullable<T -> bool>>, extra: Nullable<T -> bool>)
    requires extra.Null? || !extra.value(t)
    ensures MatchesAny(t, NonNull(predicates + [extra])) == MatchesAny(t, NonNull(predicates))
  {
    var test := (p: Nullable<T -> bool>) => Test(p, t);
    AnyAppend(predicates, [extra], test);
    assert !Any([extra], test) by {
      assert [extra][0] == extra;
    }
  }

  /** Appending a predicate that accepts `t` makes the result true. */
  lemma MatchesAnyAppendAccepting<T>(t: T, predicates: seq<Nullable<T -> bool>>, extra: T -> bool)
    requires extra(t)
    ensures MatchesAny(t, NonNull(predicates + [NonNull(extra)]))
  {
    assert (predicates + [NonNull(extra)])[|predicates|] == NonNull(extra);
  }
}
