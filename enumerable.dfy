/** The one LINQ operator the core uses. */
module Enumerable {

  /** `Enumerable.Any(source, test)`: some element passes the test. The
      test is applied front to back and the scan stops at the first pass;
      with side-effect-free tests the stop is not observable. */
  function Any<X>(source: seq<X>, test: X -> bool): (r: bool)
    ensures r <==> exists i :: 0 <= i < |source| && test(source[i])
    decreases |source|
  {
    if source == [] then false
    else test(source[0]) || Any(source[1..], test)
  }

  /** Any over a concatenation is Any over either part. */
  lemma AnyAppend<X>(xs: seq<X>, ys: seq<X>, test: X -> bool)
    ensures Any(xs + ys, test) == (Any(xs, test) || Any(ys, test))
  {
    if Any(xs, test) {
      var i :| 0 <= i < |xs| && test(xs[i]);
      assert (xs + ys)[i] == xs[i];
    }
    if Any(ys, test) {
      var j :| 0 <= j < |ys| && test(ys[j]);
      assert (xs + ys)[|xs| + j] == ys[j];
    }
    if Any(xs + ys, test) {
      var i :| 0 <= i < |xs + ys| && test((xs + ys)[i]);
      if i < |xs| {
        assert xs[i] == (xs + ys)[i];
      } else {
        assert ys[i - |xs|] == (xs + ys)[i];
      }
    }
  }
}
