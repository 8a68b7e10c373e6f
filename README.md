# Ullet.Strix.Extensions: repeated-evaluation combinators, in Dafny

This project models the loop combinators that the C# library
Ullet.Strix.Extensions adds to delegates. It also models two small
"any-of" matchers from the same library. The combinators are:

- `Not`: negation of a predicate with zero to five arguments.
- `While`: the four-argument kernel `While(expression, initial,
  defaultResult, predicate)`, and every overload that calls it.
- `Until`: `While` with `Not(predicate)`.
- `DoWhile`: `While` seeded with one forced evaluation `expression(initial)`.
- `RepeatWhile` and `RepeatUntil`: the values the loop produces. `Repeat`:
  `count` runs or calls.
- The older, non-partial `DelegateExtensions` class, which writes `DoWhile`
  and the zero-argument `While` directly as loops.

The matchers are `MatchesAny` and `StartsWithAnyOf` / `StartsWithOneOf`.
`Mutate` and `Execute` are modelled only for their
"returns the same instance" contract.

How the C# constructs are rendered:

- A `Func<T, T>` is a Dafny `T -> T`. A loop's result is described through
  `Iterate(f, x, k)`, which is `f` applied `k` times to `x`, and through
  `Exit(f, x, p)`, the least `k` whose iterate fails `p`.
- A zero-argument delegate can vary between calls only through state it
  captures, so that state is an explicit environment `S`:
  - `Func<T>` becomes `S -> (T, S)`: the value, and the environment after
    the call.
  - `Func<bool>` becomes `S -> bool`.
  - `Action` and `Action<T>` become environment transformers.
  - The `Func<T, bool>` predicate of a zero-argument `While`/`DoWhile` may
    read the environment as well as the value. It is `((T, S)) -> bool`.
- `Lift(expression)` is the C# adapter `t => expression()`.
- `default(T)` has no generic Dafny counterpart. It is the explicit
  parameter `defaultOfT`.
- A loop the source does not guard may run forever. Every loop therefore
  requires that it terminates: `Halts` (some iterate fails the predicate) or,
  for `Until`, `Reaches` (some iterate satisfies it).
- Loops in the source are `while` loops in Dafny, with invariants, proved
  against these specification functions. An overload that only delegates is
  a method that makes the same call.
- The older class gets its own module. Agreement methods run an operation
  from the older class and its counterpart from the partial class, and
  prove that both return the same thing.

## Model

| member | source | states |
|---|---|---|
| DelegateNot.NotNullaryComplements | Ullet/Strix/Extensions/DelegateExtensions_Not.cs:16-19 | the negated zero-argument predicate is the complement of the predicate in every environment |
| DelegateNot.NotComplements | Ullet/Strix/Extensions/DelegateExtensions_Not.cs:24-27 | `Not(f)(t) == !f(t)` for every `t` |
| DelegateNot.Not2Complements | Ullet/Strix/Extensions/DelegateExtensions_Not.cs:32-35 | the two-argument negation forwards both arguments in order and complements the result |
| DelegateNot.Not3Complements | Ullet/Strix/Extensions/DelegateExtensions_Not.cs:40-44 | the same for three arguments |
| DelegateNot.Not4Complements | Ullet/Strix/Extensions/DelegateExtensions_Not.cs:49-53 | the same for four arguments |
| DelegateNot.Not5Complements | Ullet/Strix/Extensions/DelegateExtensions_Not.cs:58-62 | the same for five arguments |
| DelegateNot.DoubleNegation | Ullet/Strix/Extensions/DelegateExtensions_Not.cs:24-27 | `Not(Not(f))` agrees with `f` on every input |
| DelegateNot.NotNullaryDoubleNegation | Ullet/Strix/Extensions/DelegateExtensions_Not.cs:16-19 | double negation of a zero-argument predicate agrees with it in every environment |
| DelegateNot.NotNullaryConstants | Ullet/Strix/Tests/Unit/Extensions/DelegateExtensions/NotTests.cs:16-20 | `Not(() => true)()` is false and `Not(() => false)()` is true |
| DelegateNot.Not2Examples | Ullet/Strix/Tests/Unit/Extensions/DelegateExtensions/NotTests.cs:30-34 | `Not((a, b) => a > b)(2, 1)` is false and `Not((a, b) => a <= b)(2, 1)` is true |
| Iteration.Exit | Ullet/Strix/Extensions/DelegateExtensions_While.cs:192-196 | the loop's step count is the least index whose value fails the predicate. Every earlier value passes it, and no other index has both properties |
| Iteration.LiftIterate | Ullet/Strix/Extensions/DelegateExtensions_While.cs:83-87 | after `k` steps of the wrapper `t => expression()`, the environment has seen exactly `k` calls. The value is that of the `k`-th call, and the seed value is never read |
| Iteration.LiftedFromFirst | Ullet/Strix/Extensions/DelegateExtensions_DoWhile.cs:65-68 | the wrapper's chain started from the first call's output goes through the outputs of the later calls, in order |
| Iteration.ChainThreads | Ullet/Strix/Extensions/DelegateExtensions_RepeatWhile.cs:61-63 | the first produced value is `expression(initial)`, and each later one is `expression` of the one before |
| DelegateWhile.While | Ullet/Strix/Extensions/DelegateExtensions_While.cs:182-198 | when the predicate rejects `initial`, the result is `defaultResult`. Otherwise it is `Iterate(expression, initial, k)`, where `k >= 1` is the first failing index: the result fails the predicate and every earlier value passed it |
| DelegateWhile.WhileInitial | Ullet/Strix/Extensions/DelegateExtensions_While.cs:147-151 | with `initial` as the default, the result is always the first value of the chain from `initial` that fails the predicate (`initial` itself when the predicate rejects it) |
| DelegateWhile.WhileDefault | Ullet/Strix/Extensions/DelegateExtensions_While.cs:113-117 | the same, seeded with `default(T)` |
| DelegateWhile.WhileNullary | Ullet/Strix/Extensions/DelegateExtensions_While.cs:83-87 | the predicate sees `defaultResult` first. If it rejects it, nothing is called and the environment is unchanged. Otherwise the result is the output of call `k+1`, which the predicate rejects, and it accepted the outputs of all earlier calls |
| DelegateWhile.WhileNullaryDefault | Ullet/Strix/Extensions/DelegateExtensions_While.cs:43-46 | the same, with `default(T)` as the default result |
| DelegateWhile.WhileAction | Ullet/Strix/Extensions/DelegateExtensions_While.cs:235-240 | the action runs once per true check, stops at the first false one, and runs zero times when the first check is false |
| DelegateWhile.WhileSuccessorFromDefault | Ullet/Strix/Tests/Unit/Extensions/DelegateExtensionsTests/FuncTinoutWhileTests.cs:58-65 | `(x => x + 1).While(x => x < 10)` from `default(int)` returns 10 |
| DelegateWhile.WhileInitialAndDefault | Ullet/Strix/Tests/Unit/Extensions/DelegateExtensionsTests/FuncTinoutWhileTests.cs:103-123 | `While(9, -99, x => x < 10)` returns 10 and `While(9, -99, x => false)` returns -99 |
| DelegateWhile.WhileNullaryNeverRuns | Ullet/Strix/Tests/Unit/Extensions/DelegateExtensions/FuncToutTests/WhileTests.cs:83-94 | a zero-argument `While` whose predicate rejects the default result returns that default with the environment untouched |
| DelegateUntil.ReachesHaltsNegated | Ullet/Strix/Extensions/DelegateExtensions_Until.cs:182-189 | a chain that reaches the predicate makes the loop under `Not(predicate)` terminate |
| DelegateUntil.NegatedExitReached | Ullet/Strix/Extensions/DelegateExtensions_Until.cs:182-189 | where the loop under `Not(p)` stops, `p` holds, and `p` failed on every earlier value |
| DelegateUntil.FirstReachedIsNegatedExit | Ullet/Strix/Extensions/DelegateExtensions_Until.cs:182-189 | conversely, the first index where `p` holds is where the loop under `Not(p)` stops |
| DelegateUntil.Until | Ullet/Strix/Extensions/DelegateExtensions_Until.cs:182-189 | equals the kernel `While` under `Not(predicate)`. When the predicate holds on `initial`, the result is `defaultResult`. Otherwise the result satisfies the predicate and every earlier value of the chain does not |
| DelegateUntil.UntilInitial | Ullet/Strix/Extensions/DelegateExtensions_Until.cs:147-151 | with `initial` as the default, the result is the first value of the chain that satisfies the predicate, and `initial` itself when the predicate already holds on it |
| DelegateUntil.UntilDefault | Ullet/Strix/Extensions/DelegateExtensions_Until.cs:113-117 | the same, seeded with `default(T)`: `default(T)` itself when the predicate already holds on it |
| DelegateUntil.UntilNullary | Ullet/Strix/Extensions/DelegateExtensions_Until.cs:83-87 | equals the zero-argument `While(defaultResult, Not(predicate))` |
| DelegateUntil.UntilNullaryDefault | Ullet/Strix/Extensions/DelegateExtensions_Until.cs:43-46 | equals the zero-argument `While(Not(predicate))` seeded with `default(T)` |
| DelegateUntil.UntilAction | Ullet/Strix/Extensions/DelegateExtensions_Until.cs:218-221 | equals `Action.While(Not(predicate))`. It ends in an environment that satisfies the predicate, and runs nothing when the predicate already holds |
| DelegateUntil.UntilExamples | Ullet/Strix/Tests/Unit/Extensions/DelegateExtensions/FuncTinoutTests/UntilTests.cs:64-129 | `Until(9, x => x >= 10)` returns 10. `(x => x + 1).Until(x => x >= 10)` returns 10. `Until(9, -99, x => true)` returns -99 |
| DelegateDoWhile.DoWhile | Ullet/Strix/Extensions/DelegateExtensions_DoWhile.cs:123-127 | equals `While(expression(initial), pred)`. The result fails the predicate and is the first value after `initial` on the chain that does (a do-loop exit, at least one call) |
| DelegateDoWhile.DoWhileDefault | Ullet/Strix/Extensions/DelegateExtensions_DoWhile.cs:92-96 | the same, with `default(T)` as the first input |
| DelegateDoWhile.DoWhileNullary | Ullet/Strix/Extensions/DelegateExtensions_DoWhile.cs:65-68 | the expression runs at least once. The result is the output of the first call the predicate rejects, and every earlier output passed it |
| DelegateDoWhile.DoWhileAction | Ullet/Strix/Extensions/DelegateExtensions_DoWhile.cs:148-155 | the action runs once before the first check and once more per true check. The final environment fails the check |
| DelegateDoWhile.DoWhileAgreesWithWhile | Ullet/Strix/Extensions/DelegateExtensions_DoWhile.cs:123-127 | when the predicate accepts `initial`, `DoWhile` and `While` from `initial` return the same value |
| DelegateDoWhile.DoWhileRunsOnce | Ullet/Strix/Tests/Unit/Extensions/DelegateExtensions/FuncTinoutTests/DoWhileTests.cs:82-89 | `DoWhile(100, x => x < 10)` with `x + 1` returns 101 |
| DelegateDoWhile.DoWhileNullaryExamples | Ullet/Strix/Tests/Unit/Extensions/DelegateExtensions/FuncToutTests/DoWhileTests.cs:15-35 | a zero-argument `DoWhile` under `x => false` still runs once. `executionCount++` under `x => executionCount < 10` leaves the counter at 10 |
| DelegateDoWhile.DoWhileActionExample | Ullet/Strix/Tests/Unit/Extensions/DelegateExtensions/ActionTests/DoWhileTests.cs:26-35 | `Action.DoWhile` that counts, under `() => executionCount < 10`, leaves the counter at 10 |
| DelegateRepeatWhile.RepeatWhile | Ullet/Strix/Extensions/DelegateExtensions_RepeatWhile.cs:58-64 | yields the first `Exit` values after `initial` in order, and is empty exactly when the predicate rejects `initial`. Every value but the last passes the predicate, and the last fails it and equals the eager `While(expression, initial, pred)` result |
| DelegateRepeatWhile.RepeatWhileDefault | Ullet/Strix/Extensions/DelegateExtensions_RepeatWhile.cs:43-47 | the same, seeded with `default(T)` |
| DelegateRepeatWhile.RepeatWhileNullary | Ullet/Strix/Extensions/DelegateExtensions_RepeatWhile.cs:26-32 | yields the value of each call, one call per true check. It is empty exactly when the first check is false, and the final environment fails the check |
| DelegateRepeatWhile.RepeatWhileAction | Ullet/Strix/Extensions/DelegateExtensions_RepeatWhile.cs:77-80 | exactly `Action.While(pred)` |
| DelegateRepeatWhile.SuccessorChain | Ullet/Strix/Extensions/DelegateExtensions_RepeatWhile.cs:61-63 | a successor loop that stops after `n` steps yields `x + 1, ..., x + n` |
| DelegateRepeatWhile.RepeatWhileExamples | Ullet/Strix/Tests/Unit/Extensions/DelegateExtensions/FuncTinoutTests/RepeatWhileTests.cs:16-41 | `(x => x + 1).RepeatWhile(x => x < 3)` yields [1, 2, 3], and from 5 with `x < 8` it yields [6, 7, 8] |
| DelegateRepeatWhile.RepeatWhileNullaryExamples | Ullet/Strix/Tests/Unit/Extensions/DelegateExtensions/FuncToutTests/RepeatWhileTests.cs:16-37 | `(() => ++counter).RepeatWhile(() => counter < 3)` yields [1, 2, 3]. Under `() => false` it yields nothing and leaves the counter at 0 |
| DelegateRepeatUntil.RepeatUntil | Ullet/Strix/Extensions/DelegateExtensions_RepeatUntil.cs:56-60 | equals `RepeatWhile(initial, Not(pred))`. It is empty exactly when the predicate holds on `initial`. The last value satisfies the predicate and every earlier one does not |
| DelegateRepeatUntil.RepeatUntilDefault | Ullet/Strix/Extensions/DelegateExtensions_RepeatUntil.cs:41-45 | the same, seeded with `default(T)` |
| DelegateRepeatUntil.ReachesHaltsNegatedNullary | Ullet/Strix/Extensions/DelegateExtensions_RepeatUntil.cs:26-30 | an environment chain that reaches the zero-argument predicate makes the loop under its negation terminate |
| DelegateRepeatUntil.RepeatUntilNullary | Ullet/Strix/Extensions/DelegateExtensions_RepeatUntil.cs:26-30 | equals the zero-argument `RepeatWhile(Not(pred))`. It ends in an environment satisfying the predicate, and is empty exactly when the predicate already holds |
| DelegateRepeatUntil.RepeatUntilAction | Ullet/Strix/Extensions/DelegateExtensions_RepeatUntil.cs:73-76 | equals `Action.RepeatWhile(Not(pred))` |
| DelegateRepeatUntil.RepeatUntilFromDefault | Ullet/Strix/Tests/Unit/Extensions/DelegateExtensions/FuncTinoutTests/RepeatUntilTests.cs:16-23 | `(x => x + 1).RepeatUntil(x => x >= 3)` yields [1, 2, 3] |
| DelegateRepeatUntil.RepeatUntilFromFive | Ullet/Strix/Tests/Unit/Extensions/DelegateExtensions/FuncTinoutTests/RepeatUntilTests.cs:34-41 | `RepeatUntil(5, x => x >= 8)` yields [6, 7, 8] |
| DelegateRepeatUntil.RepeatUntilAlwaysDone | Ullet/Strix/Tests/Unit/Extensions/DelegateExtensions/FuncTinoutTests/RepeatUntilTests.cs:25-32 | `(x => x + 1).RepeatUntil(x => true)` is empty |
| DelegateRepeat.CountDownIterate | Ullet/Strix/Extensions/DelegateExtensions_Repeat.cs:17-20 | after `k` checks of `count-- > 0` the counter is `k` lower and the action has run `k` times |
| DelegateRepeat.CountDownExit | Ullet/Strix/Extensions/DelegateExtensions_Repeat.cs:17-20 | the loop `action.While(() => count-- > 0)` stops after exactly `max(count, 0)` runs |
| DelegateRepeat.RepeatAction | Ullet/Strix/Extensions/DelegateExtensions_Repeat.cs:17-20 | the action runs exactly `max(count, 0)` times. A count of zero or below leaves the environment unchanged |
| DelegateRepeat.RepeatNullary | Ullet/Strix/Extensions/DelegateExtensions_Repeat.cs:43-47 | yields `max(count, 0)` values. Element `i` is the value of call `i+1`, and the environment has seen exactly that many calls |
| DelegateRepeat.ConstantOutputs | Ullet/Strix/Extensions/DelegateExtensions_Repeat.cs:28-34 | an expression with a constant value yields `count` copies of it |
| DelegateRepeat.RepeatActionExamples | Ullet/Strix/Tests/Unit/Extensions/DelegateExtensionsTests/RepeatTests.cs:26-55 | `Repeat(16)` runs 16 times and `Repeat(-21)` runs none |
| DelegateRepeat.RepeatNullaryExamples | Ullet/Strix/Tests/Unit/Extensions/DelegateExtensionsTests/RepeatTests.cs:67-95 | `(() => ++counter).Repeat(4)` yields [1, 2, 3, 4], and `Repeat(0)` and `Repeat(-12)` yield nothing |
| LegacyDelegateExtensions.DoWhileNullary | Ullet/Strix/Extensions/DelegateExtensions.cs:65-73 | the expression runs at least once. The result is the first output the predicate rejects, and every earlier output passed it |
| LegacyDelegateExtensions.DoWhile | Ullet/Strix/Extensions/DelegateExtensions.cs:128-137 | the expression runs at least once and threads each output. The result is the first output that fails the predicate |
| LegacyDelegateExtensions.DoWhileDefault | Ullet/Strix/Extensions/DelegateExtensions.cs:97-101 | the same, with `default(T)` as the first input |
| LegacyDelegateExtensions.DoWhileAction | Ullet/Strix/Extensions/DelegateExtensions.cs:180-187 | the action runs before the first check and once more per true check |
| LegacyDelegateExtensions.WhileNullary | Ullet/Strix/Extensions/DelegateExtensions.cs:257-266 | the first predicate input is `defaultResult`, which is returned with no call when the predicate rejects it. Otherwise the result is the first output rejected |
| LegacyDelegateExtensions.WhileNullaryDefault | Ullet/Strix/Extensions/DelegateExtensions.cs:218-221 | the same, with `default(T)` as the default result |
| LegacyDelegateExtensions.DoWhileAgreement | Ullet/Strix/Extensions/DelegateExtensions.cs:131-136 | the loop `DoWhile` returns what the partial class's `While(expression(initial), pred)` returns |
| LegacyDelegateExtensions.DoWhileDefaultAgreement | Ullet/Strix/Extensions/DelegateExtensions.cs:97-101 | the loop version seeded with `default(T)` agrees with the partial class's |
| LegacyDelegateExtensions.DoWhileNullaryAgreement | Ullet/Strix/Extensions/DelegateExtensions.cs:65-73 | the zero-argument loop `DoWhile` and the partial class's wrapped delegation return the same value and environment |
| LegacyDelegateExtensions.DoWhileActionAgreement | Ullet/Strix/Extensions/DelegateExtensions.cs:180-187 | both `Action.DoWhile` loops leave the same environment |
| LegacyDelegateExtensions.WhileNullaryAgreement | Ullet/Strix/Extensions/DelegateExtensions.cs:257-266 | the zero-argument loop `While` and the partial class's kernel-based `While` return the same value and environment |
| LegacyDelegateExtensions.WhileNullaryDefaultAgreement | Ullet/Strix/Extensions/DelegateExtensions.cs:218-221 | the same for the overload seeded with `default(T)` |
| GeneralExtensions.Mutate | Ullet/Strix/Extensions/GeneralExtensions.cs:52-56 | returns the same instance `t`, after the action has acted on `t` |
| GeneralExtensions.Execute | Ullet/Strix/Extensions/GeneralExtensions.cs:30-33 | an alias of `Mutate`: returns `t` |
| GeneralExtensions.MutateWithObject | Ullet/Strix/Extensions/GeneralExtensions.cs:72-77 | returns the same instance `t`, after the action has acted on `t` and `o` |
| GeneralExtensions.ExecuteWithObject | Ullet/Strix/Extensions/GeneralExtensions.cs:62-66 | an alias of `MutateWithObject`: returns `t` |
| GeneralExtensions.MatchesAny | Ullet/Strix/Extensions/GeneralExtensions.cs:92-97 | true exactly when the list is non-null and some non-null entry accepts `t` |
| GeneralExtensions.MatchesAnyParams | Ullet/Strix/Extensions/GeneralExtensions.cs:112-116 | the params overload has the same meaning as the enumerable one |
| GeneralExtensions.MatchesAnyNothing | Ullet/Strix/Extensions/GeneralExtensions.cs:95-96 | a null list, an empty list and an all-null list give false |
| GeneralExtensions.MatchesAnyAppendRejecting | Ullet/Strix/Tests/Unit/Extensions/GeneralExtensionsTests/MatchesAnyTests/EnumerablePredicatesParameter.cs:65-107 | appending a null predicate, or one that rejects `t`, leaves the result unchanged |
| GeneralExtensions.MatchesAnyAppendAccepting | Ullet/Strix/Extensions/GeneralExtensions.cs:95-96 | appending a predicate that accepts `t` makes the result true |
| StringExtensions.StartsWithAnyOf | Ullet/Strix/Extensions/StringExtensions.cs:27-32 | a null string is read as empty. The result is true exactly when the list is non-null and some element is a prefix of the string |
| StringExtensions.StartsWithAnyOfParams | Ullet/Strix/Extensions/StringExtensions.cs:44-47 | the params overload has the same meaning |
| StringExtensions.StartsWithOneOf | Ullet/Strix/Extensions/StringExtensions.cs:59-63 | the same meaning as `StartsWithAnyOf` |
| StringExtensions.StartsWithOneOfParams | Ullet/Strix/Extensions/StringExtensions.cs:75-78 | the same meaning as `StartsWithAnyOf` |
| StringExtensions.NullStringIsEmpty | Ullet/Strix/Extensions/StringExtensions.cs:30 | a null string behaves exactly as the empty string |
| StringExtensions.NoPrefixes | Ullet/Strix/Extensions/StringExtensions.cs:31 | a null or empty prefix list gives false |
| StringExtensions.EmptyStringMatchesNoNonEmptyPrefix | Ullet/Strix/Tests/Unit/Extensions/StringExtensionsTests/StartsWithAnyOfTests/ParamsPrefixesParameter.cs:37-51 | a null or empty string starts with none of a list of non-empty prefixes |
| StringExtensions.CaseSensitive | Ullet/Strix/Tests/Unit/Extensions/StringExtensionsTests/StartsWithAnyOfTests/ParamsPrefixesParameter.cs:75-82 | "the String" does not start with "The", but does start with "the" |
| StringExtensions.AddingMatchingPrefix | Ullet/Strix/Extensions/StringExtensions.cs:31 | adding a prefix that begins the string makes the result true |

## Left out

- The doc comment of the kernel `While` (DelegateExtensions_While.cs lines
  178-181) says `initial` is returned when the expression never runs. The
  code (line 197) returns `defaultResult`, and so does the model.
- Several doc comments get the loop's polarity backwards. They speak of
  running "while the predicate is false", "zero times if the predicate is
  immediately true", or "until the predicate is true", or say the loop
  exits when the predicate is true. See DelegateExtensions_While.cs lines
  14-19, 28-30 and 49-55, and DelegateExtensions.cs lines 14-16, 190-192
  and 224-226. The code loops while the predicate is true, and so does the
  model.
- `default(T)`: there is no generic Dafny value for it, so the overloads
  that use it take it as the parameter `defaultOfT`.
- Zero-argument predicates (`Func<bool>`) are side-effect-free readers of
  the environment. A predicate that changes captured state is not modelled,
  except the counter `() => count-- > 0` inside `Action.Repeat`, whose
  decrement is folded into the loop step. The counter is a local of
  `Repeat`, so its final extra decrement is not observable.
- While, Until, DoWhile, RepeatWhile, RepeatUntil (the `Func<T, T>`
  overloads): their expressions are pure `T -> T` functions, and every
  `Func<T, bool>` predicate is a pure function of its argument (in the
  zero-argument forms, of the value and the environment). A closure that
  changes captured state, such as one that counts its calls or records the
  value it was given, is not modelled for these. How often the expression
  is called (never, when the first check fails; once per passing check
  otherwise) is stated only in the zero-argument forms, through the
  environment `S`, and there only for the expression, not the predicate.
- Termination: loops whose predicate never flips are excluded by a
  precondition (`Halts` / `Reaches`). Divergence is not modelled.
- Laziness: `RepeatWhile`, `RepeatUntil` and `Func<T>.Repeat` are C#
  iterators. The model builds the whole sequence eagerly. Deferred start,
  re-enumeration and abandoning an enumeration early are not modelled.
- Null delegates and exceptions raised inside caller closures are not
  modelled; the source does not guard against them.
- `StartsWithAnyOf` uses the culture-sensitive `String.StartsWith(string)`.
  The model uses an ordinal character-prefix test, and prefix lists hold
  non-null strings. The `ArgumentNullException` a null element would
  raise is not modelled. A Dafny `string` is a sequence of Unicode scalar
  values, while a C# string is a sequence of UTF-16 code units. A lone
  surrogate, or a prefix that ends inside a surrogate pair, cannot be
  expressed.
- MatchesAny: the caller's predicates are pure functions. LINQ `Any` stops
  at the first predicate that passes. A predicate with side effects would
  make that early stop observable, and the model does not capture it. The
  same holds for `StartsWithAnyOf`, though its prefix test has no side
  effects.
- `Mutate`, `Execute`, `MutateWithObject`, `ExecuteWithObject`: the
  caller's action is an environment transformer. What it does to `t` is up
  to the caller, and the model promises only that `t` itself is returned.
- `ToFunc` and `ToPredicate` convert between two .NET delegate types that
  are the same arrow type in Dafny. They are not modelled.
- `DoUntil`, `StartsWithAny`, `ContainsAnyOf`, `MatchesAnyOf`, `IsAny` and
  the value-parameter `MatchesAny` are exercised by tests. Their
  implementations are not part of this model.
- Integer width: `Repeat`'s `int count` is an unbounded integer. When
  `count` is `int.MinValue`, the last, failing check in `count-- > 0` wraps
  the counter to `int.MaxValue` (checked arithmetic would throw
  `OverflowException` instead). The counter is never read again, so under
  C#'s default unchecked arithmetic the result is the same.
