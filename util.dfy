/** `is_sorted` (src/util.rs), the check binary search runs before it
    searches. Elements are integers under their natural order. */
module Util {

  /** Every adjacent pair is strictly ascending, which means exactly that
      every element is smaller than every element to its right: what
      makes halving sound. */
  predicate IsSorted(s: seq<int>): (b: bool)
    ensures b <==> forall i, j :: 0 <= i < j < |s| ==> s[i] < s[j]
  {
    AdjacentToPairwise(s);
    forall i :: 1 <= i < |s| ==> s[i - 1] < s[i]
  }

  /** Ascending neighbours make the whole sequence ascending. */
  lemma {:induction false} AdjacentToPairwise(s: seq<int>)
    ensures (forall i :: 1 <= i < |s| ==> s[i - 1] < s[i]) ==>
            forall i, j :: 0 <= i < j < |s| ==> s[i] < s[j]
    decreases |s|
  {
    if (forall i :: 1 <= i < |s| ==> s[i - 1] < s[i]) && |s| >= 2 {
      var t := s[1..];
      AdjacentToPairwise(t);
      forall i, j | 0 <= i < j < |s| ensures s[i] < s[j] {
        if i > 0 {
          assert s[i] == t[i - 1] && s[j] == t[j - 1];
        } else if j > 1 {
          assert s[1] == t[0] && s[j] == t[j - 1];
        }
      }
    }
  }

  /** Empty and one-element slices are sorted (the range `1..len` is
      empty), and two equal neighbours make the check fail. */
  lemma IsSortedEdgeCases(s: seq<int>, i: nat)
    ensures |s| <= 1 ==> IsSorted(s)
    ensures 1 <= i < |s| && s[i - 1] == s[i] ==> !IsSorted(s)
  {
  }

  /** The two slices the source checks. */
  lemma IsSortedExamples()
    ensures IsSorted([1, 2, 3, 4, 5])
    ensures !IsSorted([5, 4, 3, 2, 1])
  {
    assert [5, 4, 3, 2, 1][0] > [5, 4, 3, 2, 1][1];
  }
}
