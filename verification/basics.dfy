/** Small generic helpers shared by the catalogue patcher and the data pipeline. */
module Basics {

  datatype Option<+T> = None | Some(value: T)

  /** `xs` with every occurrence of `x` removed, order kept. */
  function RemoveAll<T(==,!new)>(xs: seq<T>, x: T): (r: seq<T>)
    ensures |r| <= |xs|
    ensures forall y :: y in r <==> y in xs && y != x
  {
    if xs == [] then []
    else if xs[0] == x then RemoveAll(xs[1..], x)
    else [xs[0]] + RemoveAll(xs[1..], x)
  }

  predicate NoDuplicates<T(==)>(xs: seq<T>) {
    forall i, j :: 0 <= i < j < |xs| ==> xs[i] != xs[j]
  }

  /**
   * The distinct values of `xs` in order of first occurrence. Used for the
   * order of surviving catalogue entries and as the model of Python's
   * `list(set(...))`, whose order is unspecified.
   */
  function Distinct<T(==,!new)>(xs: seq<T>): (r: seq<T>)
    ensures NoDuplicates(r)
    ensures forall y :: y in r <==> y in xs
    decreases |xs|
  {
    if xs == [] then []
    else
      var rest := Distinct(RemoveAll(xs[1..], xs[0]));
      assert xs[0] !in rest;
      [xs[0]] + rest
  }

  /** Elements that appear in `xs`, as a set. */
  function Elements<T>(xs: seq<T>): set<T> {
    set x | x in xs
  }

  function Min(a: int, b: int): int {
    if a < b then a else b
  }
}
