/** Order-preserving selection from a sequence. */
module Sequences {

  /** `a` occurs in `b` in order, possibly with gaps. */
  predicate IsSubsequence<T(==)>(a: seq<T>, b: seq<T>)
    decreases |b|
  {
    if a == [] then true
    else if b == [] then false
    else if a[|a| - 1] == b[|b| - 1] then IsSubsequence(a[..|a| - 1], b[..|b| - 1])
    else IsSubsequence(a, b[..|b| - 1])
  }

  /** Each element of a subsequence is found somewhere in the sequence it came from. */
  lemma {:induction false} SubsequenceIndex<T>(a: seq<T>, b: seq<T>, k: nat) returns (j: nat)
    requires IsSubsequence(a, b) && k < |a|
    ensures j < |b| && b[j] == a[k]
    decreases |b|
  {
    if a[|a| - 1] == b[|b| - 1] {
      if k == |a| - 1 {
        j := |b| - 1;
      } else {
        j := SubsequenceIndex(a[..|a| - 1], b[..|b| - 1], k);
      }
    } else {
      j := SubsequenceIndex(a, b[..|b| - 1], k);
    }
  }

  /** A subsequence of all but the last element of `b` is a subsequence of `b`. */
  lemma {:induction false} SubsequenceExtend<T>(a: seq<T>, b: seq<T>)
    requires b != [] && IsSubsequence(a, b[..|b| - 1])
    ensures IsSubsequence(a, b)
    decreases |b|, 1
  {
    if a != [] && a[|a| - 1] == b[|b| - 1] {
      SubsequenceDropLast(a, b[..|b| - 1]);
    }
  }

  /** Dropping the last element of a subsequence leaves a subsequence. */
  lemma {:induction false} SubsequenceDropLast<T>(a: seq<T>, b: seq<T>)
    requires IsSubsequence(a, b) && a != []
    ensures IsSubsequence(a[..|a| - 1], b)
    decreases |b| + 1, 0
  {
    if a[|a| - 1] != b[|b| - 1] {
      SubsequenceDropLast(a, b[..|b| - 1]);
    }
    SubsequenceExtend(a[..|a| - 1], b);
  }
}
