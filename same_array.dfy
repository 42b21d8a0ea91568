/** src/is-same-array.ts: element-wise comparison of two arrays under a caller-supplied predicate. */
module SameArray {

  /**
   * `a.every((x, index) => same(x, b[index]))`, evaluated from index `i` on:
   * true exactly when the predicate holds at every remaining index.
   */
  function EveryFrom<T>(a: seq<T>, b: seq<T>, same: (T, T) -> bool, i: nat): (r: bool)
    requires |a| == |b| && i <= |a|
    ensures r <==> forall k :: i <= k < |a| ==> same(a[k], b[k])
    decreases |a| - i
  {
    if i == |a| then true else same(a[i], b[i]) && EveryFrom(a, b, same, i + 1)
  }

  /** `isSameArray`: the length check, then `every` only when the lengths agree. */
  function IsSameArray<T>(a: seq<T>, b: seq<T>, same: (T, T) -> bool): (r: bool)
    ensures r <==> |a| == |b| && forall i :: 0 <= i < |a| ==> same(a[i], b[i])
  {
    |a| == |b| && EveryFrom(a, b, same, 0)
  }

  ghost predicate Reflexive<T(!new)>(same: (T, T) -> bool) {
    forall x :: same(x, x)
  }

  ghost predicate Symmetric<T(!new)>(same: (T, T) -> bool) {
    forall x, y :: same(x, y) == same(y, x)
  }

  /** Arrays of different lengths never compare equal, whatever the predicate. */
  lemma DifferentLengthsDiffer<T>(a: seq<T>, b: seq<T>, same: (T, T) -> bool)
    requires |a| != |b|
    ensures !IsSameArray(a, b, same)
  {
  }

  /** Two empty arrays compare equal. */
  lemma EmptyArraysAreSame<T>(same: (T, T) -> bool)
    ensures IsSameArray([], [], same)
  {
  }

  /** Under a reflexive predicate every array compares equal to itself. */
  lemma SameArrayReflexive<T(!new)>(a: seq<T>, same: (T, T) -> bool)
    requires Reflexive(same)
    ensures IsSameArray(a, a, same)
  {
  }

  /** Under a symmetric predicate the comparison does not depend on the argument order. */
  lemma SameArraySymmetric<T(!new)>(a: seq<T>, b: seq<T>, same: (T, T) -> bool)
    requires Symmetric(same)
    ensures IsSameArray(a, b, same) == IsSameArray(b, a, same)
  {
  }
}
