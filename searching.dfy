/** The two searches of src/searching.rs. Both borrow the slice without
    changing it, so it is modelled as a sequence. */
module Searching {
  import opened Util

  datatype Option<T> = None | Some(value: T)

  /** `linear_search`: scan from the front and report the first index
      holding `x`, or `None` when the scan finds none. */
  method LinearSearch<T(==)>(a: seq<T>, x: T) returns (r: Option<nat>)
    ensures r.Some? ==> r.value < |a| && a[r.value] == x && x !in a[..r.value]
    ensures r.None? <==> x !in a
  {
    for i := 0 to |a|
      invariant x !in a[..i]
    {
      if a[i] == x {
        return Some(i);
      }
    }
    assert a[..|a|] == a;
    return None;
  }

  /** `binary_search`: reject a slice that is not strictly ascending with
      `None`, otherwise halve the inclusive range `[low, high]`.
      The source computes `arr.len() - 1` unconditionally, which underflows
      on an empty slice, so callers must pass a non-empty one. */
  method BinarySearch(a: seq<int>, x: int) returns (r: Option<nat>)
    requires |a| > 0
    ensures !IsSorted(a) ==> r == None
    ensures r.Some? ==> r.value < |a| && a[r.value] == x
    ensures IsSorted(a) ==> (r.None? <==> x !in a)
  {
    if !IsSorted(a) {
      return None;
    }
    var low: nat, high: nat := 0, |a| - 1;
    while low <= high
      invariant low <= high + 1 <= |a|
      invariant forall k :: 0 <= k < |a| && a[k] == x ==> low <= k <= high
      decreases high + 1 - low
    {
      var mid := (low + high) / 2;
      if x < a[mid] {
        if mid == 0 {
          return None;
        }
        high := mid - 1;
      } else if x > a[mid] {
        low := mid + 1;
      } else {
        return Some(mid);
      }
    }
    return None;
  }

  /** The searches the source's tests make, with the results they expect. */
  method LinearSearchExamples() returns (one: Option<nat>, five: Option<nat>, six: Option<nat>, zero: Option<nat>)
    ensures one == Some(0) && five == Some(4) && six == None && zero == None
  {
    var v := [1, 2, 3, 4, 5, 5, 4, 3, 2, 1];
    one := LinearSearch(v, 1);
    assert v[0] == 1;
    five := LinearSearch(v, 5);
    assert v[4] == 5 && v[..4] == [1, 2, 3, 4];
    six := LinearSearch(v, 6);
    zero := LinearSearch(v, 0);
  }

  /** Binary search over `0..1000` and over a descending slice. */
  method BinarySearchExamples() returns (one: Option<nat>, last: Option<nat>, above: Option<nat>, below: Option<nat>, unsorted: Option<nat>)
    ensures one == Some(1) && last == Some(999)
    ensures above == None && below == None
    ensures unsorted == None
  {
    var v := seq(1000, i => i);
    assert IsSorted(v);
    one := BinarySearch(v, 1);
    assert v[1] == 1;
    last := BinarySearch(v, 999);
    assert v[999] == 999;
    above := BinarySearch(v, 1000);
    below := BinarySearch(v, -1);
    var w := [5, 4, 3, 2, 1];
    assert w[0] > w[1];
    unsorted := BinarySearch(w, 4);
  }
}
