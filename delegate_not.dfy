/** Predicate negation for predicates of zero to five arguments
    (`DelegateExtensions.Not`). Each negation forwards its arguments
    unchanged, in order, and complements the result. */
module DelegateNot {

  /** `Not(Func<bool>)`: a zero-argument predicate reads the environment. */
  function NotNullary<S>(f: S -> bool): S -> bool
  {
    env => !f(env)
  }

  /** `Not(Func<T, bool>)`. */
  function Not<T>(f: T -> bool): T -> bool
  {
    t => !f(t)
  }

  /** `Not(Func<T1, T2, bool>)`. */
  function Not2<T1, T2>(f: (T1, T2) -> bool): (T1, T2) -> bool
  {
    (t1, t2) => !f(t1, t2)
  }

  /** `Not(Func<T1, T2, T3, bool>)`. */
  function Not3<T1, T2, T3>(f: (T1, T2, T3) -> bool): (T1, T2, T3) -> bool
  {
    (t1, t2, t3) => !f(t1, t2, t3)
  }

  /** `Not(Func<T1, T2, T3, T4, bool>)`. */
  function Not4<T1, T2, T3, T4>(f: (T1, T2, T3, T4) -> bool): (T1, T2, T3, T4) -> bool
  {
    (t1, t2, t3, t4) => !f(t1, t2, t3, t4)
  }

  /** `Not(Func<T1, T2, T3, T4, T5, bool>)`. */
  function Not5<T1, T2, T3, T4, T5>(f: (T1, T2, T3, T4, T5) -> bool): (T1, T2, T3, T4, T5) -> bool
  {
    (t1, t2, t3, t4, t5) => !f(t1, t2, t3, t4, t5)
  }

  lemma NotNullaryComplements<S>(f: S -> bool)
    ensures forall env :: NotNullary(f)(env) == !f(env)
  {
  }

  lemma NotComplements<T>(f: T -> bool)
    ensures forall t :: Not(f)(t) == !f(t)
  {
  }

  lemma Not2Complements<T1, T2>(f: (T1, T2) -> bool)
    ensures forall t1, t2 :: Not2(f)(t1, t2) == !f(t1, t2)
  {
  }

  lemma Not3Complements<T1, T2, T3>(f: (T1, T2, T3) -> bool)
    ensures forall t1, t2, t3 :: Not3(f)(t1, t2, t3) == !f(t1, t2, t3)
  {
  }

  lemma Not4Complements<T1, T2, T3, T4>(f: (T1, T2, T3, T4) -> bool)
    ensures forall t1, t2, t3, t4 :: Not4(f)(t1, t2, t3, t4) == !f(t1, t2, t3, t4)
  {
  }

  lemma Not5Complements<T1, T2, T3, T4, T5>(f: (T1, T2, T3, T4, T5) -> bool)
    ensures forall t1, t2, t3, t4, t5 :: Not5(f)(t1, t2, t3, t4, t5) == !f(t1, t2, t3, t4, t5)
  {
  }

  /** Negating twice gives back the predicate, pointwise. */
  lemma DoubleNegation<T>(f: T -> bool)
    ensures forall t :: Not(Not(f))(t) == f(t)
  {
  }

  lemma NotNullaryDoubleNegation<S>(f: S -> bool)
    ensures forall env :: NotNullary(NotNullary(f))(env) == f(env)
  {
  }

  /** `Not(() => true)()` is false and `Not(() => false)()` is true. */
  lemma NotNullaryConstants<S>(env: S)
    ensures !NotNullary((e: S) => true)(env)
    ensures NotNullary((e: S) => false)(env)
  {
  }

  /** `Not((a, b) => a > b)(2, 1)` is false, `Not((a, b) => a <= b)(2, 1)` is true. */
  lemma Not2Examples()
    ensures !Not2((a: int, b: int) => a > b)(2, 1)
    ensures Not2((a: int, b: int) => a <= b)(2, 1)
  {
  }
}
