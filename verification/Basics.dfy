/** Small shared vocabulary: optional values, results and sequences without repetition. */
module Basics {

  datatype Option<+T> = None | Some(value: T)

  datatype Result<+T, +E> = Ok(value: T) | Err(error: E)

  /** A step that may fail, for use with `:-`. */
  datatype Outcome<+E> = Pass | Fail(error: E) {
    predicate IsFailure() {
      Fail?
    }
    function PropagateFailure(): Outcome<E>
      requires Fail?
    {
      this
    }
  }

  /** A deadline that may pass between any two looks at the clock, and then has passed for good. */
  class Deadline {
    var passed: bool

    constructor ()
      ensures !passed
    {
      passed := false;
    }

    method Check() returns (late: bool)
      modifies this
      ensures late <==> passed
      ensures old(passed) ==> passed
    {
      var now: bool := *;
      passed := passed || now;
      late := passed;
    }
  }

  ghost predicate NoDup<T>(s: seq<T>) {
    forall i, j :: 0 <= i < j < |s| ==> s[i] != s[j]
  }

  lemma SplitLast<T>(s: seq<T>)
    requires s != []
    ensures s == s[..|s| - 1] + [s[|s| - 1]]
  {
  }

  lemma Associates<T>(a: seq<T>, b: seq<T>, c: seq<T>)
    ensures a + (b + c) == (a + b) + c
  {
  }

  /** The first index holding `x`. */
  function FindIndex<T(==)>(s: seq<T>, x: T): (r: Option<nat>)
    ensures r.Some? ==> r.value < |s| && s[r.value] == x && x !in s[..r.value]
    ensures r.None? ==> x !in s
  {
    if s == [] then None else
      var n := |s| - 1;
      var earlier := FindIndex(s[..n], x);
      assert s == s[..n] + [s[n]];
      if earlier.Some? then earlier
      else if s[n] == x then Some(n)
      else None
  }
}
