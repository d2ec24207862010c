/** Order-preserving selection of elements from a sequence. */
module Sequences {

  /** True iff `a` can be obtained from `b` by deleting elements, keeping the
      relative order of the rest. */
  predicate IsSubsequence<T(==)>(a: seq<T>, b: seq<T>)
    decreases |b|
  {
    if |b| == 0 then |a| == 0
    else
      || (|a| > 0 && a[|a| - 1] == b[|b| - 1] && IsSubsequence(a[..|a| - 1], b[..|b| - 1]))
      || IsSubsequence(a, b[..|b| - 1])
  }

  /** Every element of a subsequence is an element of the sequence it was taken from. */
  lemma {:induction false} SubsequenceElements<T>(a: seq<T>, b: seq<T>)
    requires IsSubsequence(a, b)
    ensures forall x :: x in a ==> x in b
    decreases |b|
  {
    if |b| == 0 {
    } else if |a| > 0 && a[|a| - 1] == b[|b| - 1] && IsSubsequence(a[..|a| - 1], b[..|b| - 1]) {
      SubsequenceElements(a[..|a| - 1], b[..|b| - 1]);
      forall x | x in a ensures x in b {
        if x != a[|a| - 1] {
          assert a == a[..|a| - 1] + [a[|a| - 1]];
          assert x in a[..|a| - 1];
          assert x in b[..|b| - 1];
        }
      }
    } else {
      SubsequenceElements(a, b[..|b| - 1]);
      forall x | x in a ensures x in b {
        assert x in b[..|b| - 1];
      }
    }
  }
}
