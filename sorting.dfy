/** The in-place sorts of src/sorting.rs. A Rust slice is an array; the
    sub-slices that merge sort and quick sort recurse on are the index
    ranges `[lo, hi)` of that array. Every comparator-driven sort asks of
    its comparator that it be a strict weak order. */
module Sorting {
  import opened Comparators

  /** `slice::swap`. */
  method Swap<T>(a: array<T>, i: nat, j: nat)
    requires i < a.Length && j < a.Length
    modifies a
    ensures a[..] == Swapped(old(a[..]), i, j)
  {
    a[i], a[j] := a[j], a[i];
  }

  /** A swap inside `[lo, hi)` keeps the elements of that range and leaves
      everything outside it alone. */
  lemma SwappedInRange<T>(s: seq<T>, i: nat, j: nat, lo: nat, hi: nat)
    requires lo <= i < hi && lo <= j < hi && hi <= |s|
    ensures multiset(Swapped(s, i, j)[lo..hi]) == multiset(s[lo..hi])
    ensures Swapped(s, i, j)[..lo] == s[..lo] && Swapped(s, i, j)[hi..] == s[hi..]
  {
    var t := Swapped(s, i, j);
    assert t[lo..hi] == s[lo..hi][i - lo := s[j]][j - lo := s[i]];
  }

  /** A permutation: swapping never changes the elements held. */
  lemma SwappedPermutes<T>(s: seq<T>, i: nat, j: nat)
    requires i < |s| && j < |s|
    ensures multiset(Swapped(s, i, j)) == multiset(s)
  {
    SwappedInRange(s, i, j, 0, |s|);
    assert s[0..|s|] == s && Swapped(s, i, j)[0..|s|] == Swapped(s, i, j);
  }

  // ---------------------------------------------------------------- bubble

  /** The last `k` positions of `s` are settled: each holds an element that
      must not come before anything to its left. */
  ghost predicate Settled<T>(cmp: (T, T) -> bool, s: seq<T>, k: nat) {
    forall p, q :: 0 <= p < q < |s| && q >= |s| - k ==> !cmp(s[q], s[p])
  }

  /** `s[i]` must not come before anything to its left. */
  ghost predicate MaxAt<T>(cmp: (T, T) -> bool, s: seq<T>, i: nat)
    requires i < |s|
  {
    forall p :: 0 <= p < i ==> !cmp(s[i], s[p])
  }

  /** No neighbour pair in `s[..i + 1]` is out of order. */
  ghost predicate NeighboursOrdered<T>(cmp: (T, T) -> bool, s: seq<T>, i: nat) {
    forall p :: 0 < p <= i && p < |s| ==> !cmp(s[p], s[p - 1])
  }

  /** A pass step that swaps: it happens only left of the settled part,
      keeps that part settled and carries the largest element so far. */
  lemma BubbleSwapStep<T(!new)>(cmp: (T, T) -> bool, s: seq<T>, k: nat, i: nat)
    requires StrictWeakOrder(cmp)
    requires i + 1 < |s| && k <= |s| - 1
    requires Settled(cmp, s, k) && MaxAt(cmp, s, i)
    requires cmp(s[i + 1], s[i])
    ensures i + 1 < |s| - k
    ensures Settled(cmp, Swapped(s, i, i + 1), k)
    ensures MaxAt(cmp, Swapped(s, i, i + 1), i + 1)
  {
    var t := Swapped(s, i, i + 1);
    forall p, q | 0 <= p < q < |t| && q >= |t| - k ensures !cmp(t[q], t[p]) {
      if p == i {
        assert t[p] == s[i + 1];
      } else if p == i + 1 {
        assert t[p] == s[i];
      }
    }
  }

  /** A pass step that does not swap keeps the largest element so far on
      the right. */
  lemma BubbleKeepStep<T(!new)>(cmp: (T, T) -> bool, s: seq<T>, i: nat)
    requires StrictWeakOrder(cmp)
    requires i + 1 < |s|
    requires MaxAt(cmp, s, i)
    requires !cmp(s[i + 1], s[i])
    ensures MaxAt(cmp, s, i + 1)
  {
  }

  /** Once a pass has carried the largest unsettled element to position
      `|s| - 1 - k`, one more position is settled. */
  lemma SettledGrow<T>(cmp: (T, T) -> bool, s: seq<T>, k: nat)
    requires k < |s|
    requires Settled(cmp, s, k) && MaxAt(cmp, s, |s| - 1 - k)
    ensures Settled(cmp, s, k + 1)
  {
  }

  /** What holds after the first `i` neighbour pairs of a pass over `s`
      that started from `orig` with `k` positions settled. */
  ghost predicate PassInvariant<T(!new)>(cmp: (T, T) -> bool, orig: seq<T>, s: seq<T>, k: nat, i: nat, swapped: bool) {
    && |s| == |orig| && i < |s| && k < |s|
    && Settled(cmp, s, k)
    && MaxAt(cmp, s, i)
    && (i >= |s| - 1 - k ==> MaxAt(cmp, s, |s| - 1 - k))
    && (swapped ==> k < |s| - 1)
    && (!swapped ==> NeighboursOrdered(cmp, s, i))
    && multiset(s) == multiset(orig)
    && Stable(cmp, orig, s)
  }

  /** A step of a pass that swaps keeps the pass invariant. */
  lemma PassSwapStep<T(!new)>(cmp: (T, T) -> bool, orig: seq<T>, s: seq<T>, k: nat, i: nat, swapped: bool)
    requires StrictWeakOrder(cmp)
    requires PassInvariant(cmp, orig, s, k, i, swapped) && i + 1 < |s|
    requires cmp(s[i + 1], s[i])
    ensures PassInvariant(cmp, orig, Swapped(s, i, i + 1), k, i + 1, true)
  {
    BubbleSwapStep(cmp, s, k, i);
    SwapNeighboursStable(cmp, s, i);
    SwappedPermutes(s, i, i + 1);
  }

  /** A step of a pass that does not swap keeps the pass invariant. */
  lemma PassKeepStep<T(!new)>(cmp: (T, T) -> bool, orig: seq<T>, s: seq<T>, k: nat, i: nat, swapped: bool)
    requires StrictWeakOrder(cmp)
    requires PassInvariant(cmp, orig, s, k, i, swapped) && i + 1 < |s|
    requires !cmp(s[i + 1], s[i])
    ensures PassInvariant(cmp, orig, s, k, i + 1, swapped)
  {
    BubbleKeepStep(cmp, s, i);
  }

  /** A pass starts with nothing swapped and ends having settled one more
      position. */
  lemma PassBounds<T(!new)>(cmp: (T, T) -> bool, s: seq<T>, t: seq<T>, k: nat, swapped: bool)
    requires StrictWeakOrder(cmp)
    requires k < |s| && Settled(cmp, s, k)
    ensures PassInvariant(cmp, s, s, k, 0, false)
    ensures PassInvariant(cmp, s, t, k, |s| - 1, swapped) ==>
      && Settled(cmp, t, k + 1)
      && (!swapped ==> NeighboursOrdered(cmp, t, |t| - 1))
  {
    if PassInvariant(cmp, s, t, k, |s| - 1, swapped) {
      SettledGrow(cmp, t, k);
    }
  }

  /** One neighbour pair of a pass: swap `a[i]` and `a[i + 1]` when the
      right one must come before the left one, and record the swap. */
  method BubbleStep<T(!new)>(a: array<T>, cmp: (T, T) -> bool, ghost orig: seq<T>, ghost k: nat, i: nat, swapped: bool)
    returns (swapped': bool)
    requires StrictWeakOrder(cmp)
    requires PassInvariant(cmp, orig, a[..], k, i, swapped) && i + 1 < a.Length
    modifies a
    ensures swapped' == (swapped || cmp(old(a[i + 1]), old(a[i])))
    ensures a[..] == if cmp(old(a[i + 1]), old(a[i])) then Swapped(old(a[..]), i, i + 1) else old(a[..])
    ensures PassInvariant(cmp, orig, a[..], k, i + 1, swapped')
  {
    swapped' := swapped;
    if cmp(a[i + 1], a[i]) {
      PassSwapStep(cmp, orig, a[..], k, i, swapped);
      Swap(a, i, i + 1);
      swapped' := true;
    } else {
      PassKeepStep(cmp, orig, a[..], k, i, swapped);
    }
  }

  /** One pass of `bubble_sort`: walk the neighbour pairs left to right,
      swapping a pair when its right element must come before its left one,
      and report whether any pair was swapped. It carries the largest
      element not yet settled into the settled part. */
  method BubblePass<T(!new)>(a: array<T>, cmp: (T, T) -> bool, ghost k: nat) returns (swapped: bool)
    requires StrictWeakOrder(cmp)
    requires k < a.Length && Settled(cmp, a[..], k)
    modifies a
    ensures Settled(cmp, a[..], k + 1)
    ensures swapped ==> k < a.Length - 1
    ensures !swapped ==> NeighboursOrdered(cmp, a[..], a.Length - 1)
    ensures multiset(a[..]) == multiset(old(a[..]))
    ensures Stable(cmp, old(a[..]), a[..])
  {
    var n := a.Length;
    swapped := false;
    PassBounds(cmp, a[..], a[..], k, swapped);
    for i := 0 to n - 1
      invariant PassInvariant(cmp, old(a[..]), a[..], k, i, swapped)
    {
      swapped := BubbleStep(a, cmp, old(a[..]), k, i, swapped);
    }
    PassBounds(cmp, old(a[..]), a[..], k, swapped);
  }

  /** `bubble_sort`: repeat passes until one swaps nothing. The loop stops
      only because the comparator is irreflexive: with a reflexive one,
      equal neighbours are swapped on every pass. The pass range
      `0..len - 1` underflows on an empty slice. */
  method BubbleSort<T(!new)>(a: array<T>, cmp: (T, T) -> bool)
    requires a.Length > 0
    requires StrictWeakOrder(cmp)
    modifies a
    ensures SortedBy(cmp, a[..])
    ensures multiset(a[..]) == multiset(old(a[..]))
    ensures Stable(cmp, old(a[..]), a[..])
    ensures SortedBy(cmp, old(a[..])) ==> a[..] == old(a[..])
  {
    ghost var k: nat := 0;  // passes done; the last k positions are settled
    while true
      invariant k <= a.Length - 1
      invariant Settled(cmp, a[..], k)
      invariant multiset(a[..]) == multiset(old(a[..]))
      invariant Stable(cmp, old(a[..]), a[..])
      decreases a.Length - 1 - k
    {
      var swapped := BubblePass(a, cmp, k);
      if !swapped {
        SortedFromNeighbours(cmp, a[..]);
        break;
      }
      k := k + 1;
    }
    if SortedBy(cmp, old(a[..])) {
      SortedInputUnchanged(cmp, old(a[..]), a[..]);
    }
  }

  // ------------------------------------------------------------- insertion

  /** Putting `e` at position `j` of the sorted `pre` keeps it sorted when
      `e` need not come before its new left neighbour and nothing to its
      right must come before it. */
  lemma InsertSorted<T(!new)>(cmp: (T, T) -> bool, pre: seq<T>, j: nat, e: T)
    requires StrictWeakOrder(cmp)
    requires SortedBy(cmp, pre) && j <= |pre|
    requires j == 0 || !cmp(e, pre[j - 1])
    requires forall k :: j <= k < |pre| ==> !cmp(pre[k], e)
    ensures SortedBy(cmp, pre[..j] + [e] + pre[j..])
  {
    var r := pre[..j] + [e] + pre[j..];
    forall p, q | 0 <= p < q < |r| ensures !cmp(r[q], r[p]) {
      if q < j {
        assert r[p] == pre[p] && r[q] == pre[q];
      } else if q == j {
        assert r[p] == pre[p] && r[q] == e;
        if p < j - 1 {
          assert !cmp(pre[j - 1], pre[p]);
        }
      } else if p < j {
        assert r[p] == pre[p] && r[q] == pre[q - 1];
      } else if p == j {
        assert r[p] == e && r[q] == pre[q - 1];
      } else {
        assert r[p] == pre[p - 1] && r[q] == pre[q - 1];
      }
    }
  }

  /** Concatenation regroups freely. */
  lemma Associative<T>(a: seq<T>, b: seq<T>, c: seq<T>)
    ensures a + (b + c) == (a + b) + c
  {
  }

  /** An empty middle part, or an empty left part, can be moved to the
      front of a three-part concatenation. */
  lemma MoveToFront<T>(l: seq<T>, h: seq<T>, r: seq<T>)
    requires l == [] || h == []
    ensures l + h + r == h + (l + r)
  {
  }

  /** An empty middle part, or an empty right part, can be moved to the
      back of a three-part concatenation. */
  lemma MoveToBack<T>(l: seq<T>, h: seq<T>, r: seq<T>)
    requires r == [] || h == []
    ensures l + h + r == (l + r) + h
  {
    if r == [] {
      assert l + h + r == l + h;
    } else {
      assert l + h == l;
    }
  }

  /** The peers of `pre` with `e` put in at position `j`. */
  lemma PeersOfInsert<T>(cmp: (T, T) -> bool, pre: seq<T>, j: nat, e: T, x: T)
    requires j <= |pre|
    ensures Peers(cmp, pre, x) == Peers(cmp, pre[..j], x) + Peers(cmp, pre[j..], x)
    ensures Peers(cmp, pre[..j] + [e] + pre[j..], x)
         == Peers(cmp, pre[..j], x) + (if Equiv(cmp, e, x) then [e] else []) + Peers(cmp, pre[j..], x)
  {
    assert pre == pre[..j] + pre[j..];
    PeersAppend(cmp, pre[..j] + [e], pre[j..], x);
    PeersAppend(cmp, pre[..j], [e], x);
    PeersAppend(cmp, pre[..j], pre[j..], x);
    PeersSingleton(cmp, e, x);
  }

  /** Putting `e` in at position `j` puts it ahead of all its peers when
      none is on its left. */
  lemma PeersInsertAhead<T>(cmp: (T, T) -> bool, pre: seq<T>, j: nat, e: T, x: T)
    requires j <= |pre|
    requires Equiv(cmp, e, x) ==> Peers(cmp, pre[..j], x) == []
    ensures Peers(cmp, pre[..j] + [e] + pre[j..], x)
         == (if Equiv(cmp, e, x) then [e] else []) + Peers(cmp, pre, x)
  {
    PeersOfInsert(cmp, pre, j, e, x);
    MoveToFront(Peers(cmp, pre[..j], x), if Equiv(cmp, e, x) then [e] else [], Peers(cmp, pre[j..], x));
  }

  /** Putting `e` in at position `j` puts it behind all its peers when
      none is on its right. */
  lemma PeersInsertBehind<T>(cmp: (T, T) -> bool, pre: seq<T>, j: nat, e: T, x: T)
    requires j <= |pre|
    requires Equiv(cmp, e, x) ==> Peers(cmp, pre[j..], x) == []
    ensures Peers(cmp, pre[..j] + [e] + pre[j..], x)
         == Peers(cmp, pre, x) + (if Equiv(cmp, e, x) then [e] else [])
  {
    PeersOfInsert(cmp, pre, j, e, x);
    MoveToBack(Peers(cmp, pre[..j], x), if Equiv(cmp, e, x) then [e] else [], Peers(cmp, pre[j..], x));
  }

  /** Where the source's insertion sort stops, right after an element that
      must come before `e`, every element on the left must come before `e`,
      so none of them is a peer of `e`. */
  lemma NoPeersAhead<T(!new)>(cmp: (T, T) -> bool, pre: seq<T>, j: nat, e: T, x: T)
    requires StrictWeakOrder(cmp)
    requires SortedBy(cmp, pre) && j <= |pre|
    requires j == 0 || cmp(pre[j - 1], e)
    requires Equiv(cmp, e, x)
    ensures Peers(cmp, pre[..j], x) == []
  {
    forall p | 0 <= p < j ensures !Equiv(cmp, pre[..j][p], x) {
      if p < j - 1 {
        assert !cmp(pre[j - 1], pre[p]);
      }
      assert cmp(pre[p], e);
      OrderedNotEquiv(cmp, pre[p], e, x);
    }
    NoPeers(cmp, pre[..j], x);
  }

  /** If `e` must come before every element on its right, none of them is
      a peer of `e`. */
  lemma NoPeersBehind<T(!new)>(cmp: (T, T) -> bool, pre: seq<T>, j: nat, e: T, x: T)
    requires StrictWeakOrder(cmp)
    requires j <= |pre|
    requires forall k :: j <= k < |pre| ==> cmp(e, pre[k])
    requires Equiv(cmp, e, x)
    ensures Peers(cmp, pre[j..], x) == []
  {
    forall p | 0 <= p < |pre| - j ensures !Equiv(cmp, pre[j..][p], x) {
      OrderedNotEquiv(cmp, pre[j + p], e, x);
    }
    NoPeers(cmp, pre[j..], x);
  }

  /** One outer step of the source's insertion sort, on the peers: if the
      sorted prefix holds every peer run of the input prefix reversed, so
      does the prefix one longer. */
  lemma InsertionStepReverses<T(!new)>(cmp: (T, T) -> bool, orig: seq<T>, pre: seq<T>, j: nat, e: T)
    requires StrictWeakOrder(cmp)
    requires SortedBy(cmp, pre) && j <= |pre|
    requires j == 0 || cmp(pre[j - 1], e)
    requires forall x :: Peers(cmp, pre, x) == Reverse(Peers(cmp, orig, x))
    ensures forall x :: Peers(cmp, pre[..j] + [e] + pre[j..], x) == Reverse(Peers(cmp, orig + [e], x))
  {
    forall x ensures Peers(cmp, pre[..j] + [e] + pre[j..], x) == Reverse(Peers(cmp, orig + [e], x)) {
      if Equiv(cmp, e, x) {
        NoPeersAhead(cmp, pre, j, e, x);
      }
      PeersInsertAhead(cmp, pre, j, e, x);
      PeersAppend(cmp, orig, [e], x);
      PeersSingleton(cmp, e, x);
      ReverseAppend(Peers(cmp, orig, x), Peers(cmp, [e], x));
      assert Reverse([e]) == [e] by {
        assert [e][1..] == [];
      }
    }
  }

  /** What the outer loop of the source's insertion sort keeps of the
      prefix `s` it has handled, which started out as `orig`: sorted, the
      same elements, every peer run reversed. */
  ghost predicate ReversedSort<T(!new)>(cmp: (T, T) -> bool, orig: seq<T>, s: seq<T>) {
    && SortedBy(cmp, s)
    && multiset(s) == multiset(orig)
    && forall x :: Peers(cmp, s, x) == Reverse(Peers(cmp, orig, x))
  }

  /** One outer step: inserting the next element where the inner loop
      stops keeps `ReversedSort` for the prefix one longer. */
  lemma InsertionOuterStep<T(!new)>(cmp: (T, T) -> bool, orig: seq<T>, pre: seq<T>, j: nat, e: T)
    requires StrictWeakOrder(cmp)
    requires ReversedSort(cmp, orig, pre) && j <= |pre|
    requires j == 0 || cmp(pre[j - 1], e)
    requires forall k :: j <= k < |pre| ==> !cmp(pre[k], e)
    ensures ReversedSort(cmp, orig + [e], pre[..j] + [e] + pre[j..])
  {
    InsertSorted(cmp, pre, j, e);
    InsertionStepReverses(cmp, orig, pre, j, e);
    assert pre == pre[..j] + pre[j..];
  }

  /** Swapping `e` with its left neighbour moves it one place left in
      `pre`, as one step of insertion sort's inner loop does. */
  lemma ShiftStep<T>(pre: seq<T>, j: nat, e: T, rest: seq<T>)
    requires 0 < j <= |pre|
    ensures var s := pre[..j] + [e] + pre[j..] + rest;
      && s[j - 1] == pre[j - 1] && s[j] == e
      && Swapped(s, j - 1, j) == pre[..j - 1] + [e] + pre[j - 1..] + rest
  {
    var s := pre[..j] + [e] + pre[j..] + rest;
    var t := pre[..j - 1] + [e] + pre[j - 1..] + rest;
    var u := Swapped(s, j - 1, j);
    forall k | 0 <= k < |t| ensures u[k] == t[k] {
      if k < j - 1 {
        assert u[k] == s[k] == pre[k] == t[k];
      } else if k == j - 1 {
        assert u[k] == s[j] == e;
      } else if k == j {
        assert u[k] == s[j - 1] == pre[j - 1] == t[k];
      } else if k <= |pre| {
        assert u[k] == s[k] == pre[k - 1] == t[k];
      } else {
        assert u[k] == s[k] == rest[k - |pre| - 1] == t[k];
      }
    }
  }

  /** The inner loop of `insertion_sort`: move `a[i]` left, one swap at a
      time, until its left neighbour must come before it. Returns where it
      stopped. Nothing it moved past must come before it. */
  method ShiftLeft<T>(a: array<T>, i: nat, cmp: (T, T) -> bool) returns (j: nat)
    requires i < a.Length
    modifies a
    ensures j <= i
    ensures a[..] == old(a[..i])[..j] + [old(a[i])] + old(a[..i])[j..] + old(a[i + 1..])
    ensures j == 0 || cmp(old(a[..i])[j - 1], old(a[i]))
    ensures forall k :: j <= k < i ==> !cmp(old(a[..i])[k], old(a[i]))
  {
    ghost var pre, e, rest := a[..i], a[i], a[i + 1..];
    assert a[..] == pre[..i] + [e] + pre[i..] + rest;
    j := i;
    // the source's `for j in (1..=i).rev()` with its `break`
    while j > 0 && !cmp(a[j - 1], a[j])
      invariant 0 <= j <= i
      invariant a[..] == pre[..j] + [e] + pre[j..] + rest
      invariant forall k :: j <= k < i ==> !cmp(pre[k], e)
    {
      ShiftStep(pre, j, e, rest);
      Swap(a, j - 1, j);
      j := j - 1;
    }
    if j > 0 {
      ShiftStep(pre, j, e, rest);
    }
  }

  /** One outer step of an insertion sort seen on whole contents: `s`
      before, `t` after moving `s[i]` to position `j` of the prefix, with
      `s0` the contents before the sort. The prefix grows by `s0[i]` and
      the rest is still as it was in `s0`. */
  lemma PrefixGrows<T>(s0: seq<T>, s: seq<T>, i: nat, j: nat, t: seq<T>)
    requires i < |s| == |s0| && s[i..] == s0[i..] && j <= i
    requires t == s[..i][..j] + [s[i]] + s[..i][j..] + s[i + 1..]
    ensures s0[..i + 1] == s0[..i] + [s[i]]
    ensures t[..i + 1] == s[..i][..j] + [s[i]] + s[..i][j..]
    ensures t[i + 1..] == s0[i + 1..]
  {
    var x := s[..i][..j] + [s[i]] + s[..i][j..];
    assert |x| == i + 1;
    assert t == x + s[i + 1..];
    assert t[..i + 1] == x && t[i + 1..] == s[i + 1..];
    assert s[i] == s[i..][0] == s0[i];
    assert s[i + 1..] == s[i..][1..] == s0[i..][1..] == s0[i + 1..];
  }

  /** `insertion_sort` as written: for each position `i` from 1 on, shift
      `a[i]` left into the sorted prefix. An element moves past every
      element that does not have to come before it, its equivalents
      included, so the result is sorted but every run of equivalent
      elements comes out in the reverse of its input order: the sort is
      not stable. */
  method InsertionSort<T(!new)>(a: array<T>, cmp: (T, T) -> bool)
    requires StrictWeakOrder(cmp)
    modifies a
    ensures SortedBy(cmp, a[..])
    ensures multiset(a[..]) == multiset(old(a[..]))
    ensures forall x :: Peers(cmp, a[..], x) == Reverse(Peers(cmp, old(a[..]), x))
    ensures Total(cmp) && SortedBy(cmp, old(a[..])) ==> a[..] == old(a[..])
  {
    if a.Length == 0 {
      // the range `1..len` is empty
      assert a[..] == [];
      return;
    }
    ghost var s0 := a[..];
    for i := 1 to a.Length
      invariant ReversedSort(cmp, s0[..i], a[..i])
      invariant a[i..] == s0[i..]
    {
      ghost var s := a[..];
      var j := ShiftLeft(a, i, cmp);
      PrefixGrows(s0, s, i, j, a[..]);
      InsertionOuterStep(cmp, s0[..i], s[..i], j, s[i]);
    }
    assert a[..] == a[..a.Length] && s0 == s0[..a.Length];
    if Total(cmp) && SortedBy(cmp, s0) {
      SortedInputUnchanged(cmp, s0, a[..]);
    }
  }

  /** The inner loop of the corrected insertion sort: move `a[i]` left
      only while it must come before its left neighbour, so it stops
      behind its equivalents. */
  method ShiftLeftStable<T>(a: array<T>, i: nat, cmp: (T, T) -> bool) returns (j: nat)
    requires i < a.Length
    modifies a
    ensures j <= i
    ensures a[..] == old(a[..i])[..j] + [old(a[i])] + old(a[..i])[j..] + old(a[i + 1..])
    ensures j == 0 || !cmp(old(a[i]), old(a[..i])[j - 1])
    ensures forall k :: j <= k < i ==> cmp(old(a[i]), old(a[..i])[k])
  {
    ghost var pre, e, rest := a[..i], a[i], a[i + 1..];
    assert a[..] == pre[..i] + [e] + pre[i..] + rest;
    j := i;
    while j > 0 && cmp(a[j], a[j - 1])
      invariant 0 <= j <= i
      invariant a[..] == pre[..j] + [e] + pre[j..] + rest
      invariant forall k :: j <= k < i ==> cmp(e, pre[k])
    {
      ShiftStep(pre, j, e, rest);
      Swap(a, j - 1, j);
      j := j - 1;
    }
    if j > 0 {
      ShiftStep(pre, j, e, rest);
    }
  }

  /** What a stable sort keeps of the prefix `s` it has handled, which
      started out as `orig`: sorted, the same elements, every peer run in
      its input order. */
  ghost predicate StableSort<T(!new)>(cmp: (T, T) -> bool, orig: seq<T>, s: seq<T>) {
    && SortedBy(cmp, s)
    && multiset(s) == multiset(orig)
    && Stable(cmp, orig, s)
  }

  /** Inserting `e` behind its peers keeps `StableSort` for the prefix one
      longer. */
  lemma StableOuterStep<T(!new)>(cmp: (T, T) -> bool, orig: seq<T>, pre: seq<T>, j: nat, e: T)
    requires StrictWeakOrder(cmp)
    requires StableSort(cmp, orig, pre) && j <= |pre|
    requires j == 0 || !cmp(e, pre[j - 1])
    requires forall k :: j <= k < |pre| ==> cmp(e, pre[k])
    ensures StableSort(cmp, orig + [e], pre[..j] + [e] + pre[j..])
  {
    forall k | j <= k < |pre| ensures !cmp(pre[k], e) {
      assert cmp(e, pre[k]);
    }
    InsertSorted(cmp, pre, j, e);
    forall x ensures Peers(cmp, pre[..j] + [e] + pre[j..], x) == Peers(cmp, orig + [e], x) {
      if Equiv(cmp, e, x) {
        NoPeersBehind(cmp, pre, j, e, x);
      }
      PeersInsertBehind(cmp, pre, j, e, x);
      PeersAppend(cmp, orig, [e], x);
      PeersSingleton(cmp, e, x);
    }
    assert pre == pre[..j] + pre[j..];
  }

  /** Insertion sort with the inner loop's test corrected to stop as soon
      as the left neighbour need not come after the moving element: sorted,
      a permutation, and stable. */
  method StableInsertionSort<T(!new)>(a: array<T>, cmp: (T, T) -> bool)
    requires StrictWeakOrder(cmp)
    modifies a
    ensures SortedBy(cmp, a[..])
    ensures multiset(a[..]) == multiset(old(a[..]))
    ensures Stable(cmp, old(a[..]), a[..])
    ensures SortedBy(cmp, old(a[..])) ==> a[..] == old(a[..])
  {
    if a.Length == 0 {
      assert a[..] == [];
      return;
    }
    ghost var s0 := a[..];
    for i := 1 to a.Length
      invariant StableSort(cmp, s0[..i], a[..i])
      invariant a[i..] == s0[i..]
    {
      ghost var s := a[..];
      var j := ShiftLeftStable(a, i, cmp);
      PrefixGrows(s0, s, i, j, a[..]);
      StableOuterStep(cmp, s0[..i], s[..i], j, s[i]);
    }
    assert a[..] == a[..a.Length] && s0 == s0[..a.Length];
    if SortedBy(cmp, s0) {
      SortedInputUnchanged(cmp, s0, a[..]);
    }
  }

  // ------------------------------------------------------------- selection

  /** The `min_by` of `selection_sort` over the suffix `a[lo..]`: the index
      of a minimum, the first one when several are equal. */
  method FirstMinIndex(a: array<int>, lo: nat) returns (m: nat)
    requires lo < a.Length
    ensures lo <= m < a.Length
    ensures forall k :: lo <= k < a.Length ==> a[m] <= a[k]
    ensures forall k :: lo <= k < m ==> a[m] < a[k]
  {
    m := lo;
    for k := lo + 1 to a.Length
      invariant lo <= m < k
      invariant forall p :: lo <= p < k ==> a[m] <= a[p]
      invariant forall p :: lo <= p < m ==> a[m] < a[p]
    {
      if a[k] < a[m] {
        m := k;
      }
    }
  }

  /** After `i` rounds of selection sort: the first `i` elements are in
      ascending order and none is greater than an element after them. */
  ghost predicate SelectedPrefix(s: seq<int>, i: nat) {
    && i <= |s|
    && (forall p, q :: 0 <= p < q < i ==> s[p] <= s[q])
    && (forall p, q :: 0 <= p < i <= q < |s| ==> s[p] <= s[q])
  }

  /** Swapping a minimum of `s[i..]` into position `i` selects one more. */
  lemma SelectionStep(s: seq<int>, i: nat, m: nat)
    requires SelectedPrefix(s, i) && i <= m < |s|
    requires forall k :: i <= k < |s| ==> s[m] <= s[k]
    ensures SelectedPrefix(Swapped(s, i, m), i + 1)
    ensures multiset(Swapped(s, i, m)) == multiset(s)
  {
    SwappedPermutes(s, i, m);
  }

  /** With all but the last element selected, the whole sequence is sorted. */
  lemma SelectionDone(s: seq<int>)
    requires |s| > 0 && SelectedPrefix(s, |s| - 1)
    ensures SortedBy(IntLess, s)
  {
  }

  /** `selection_sort`: for each `i` but the last, swap the first minimum
      of `a[i..]` into position `i`. The source computes `arr.len() - 1`
      unconditionally, which underflows on an empty slice, so callers must
      pass a non-empty one. */
  method SelectionSort(a: array<int>)
    requires a.Length > 0
    modifies a
    ensures SortedBy(IntLess, a[..])
    ensures multiset(a[..]) == multiset(old(a[..]))
    ensures SortedBy(IntLess, old(a[..])) ==> a[..] == old(a[..])
  {
    for i := 0 to a.Length - 1
      invariant SelectedPrefix(a[..], i)
      invariant multiset(a[..]) == multiset(old(a[..]))
    {
      var m := FirstMinIndex(a, i);
      SelectionStep(a[..], i, m);
      Swap(a, i, m);
    }
    SelectionDone(a[..]);
    if SortedBy(IntLess, old(a[..])) {
      IntLessTotalOrder();
      SortedInputUnchanged(IntLess, old(a[..]), a[..]);
    }
  }

  // ----------------------------------------------------------------- merge

  /** What `merge` writes for the sorted halves `l` and `r`: the left head
      while the right one is exhausted, the right head while the left one
      is, and otherwise the right head only when it must come before the
      left head, so a tie goes to the left half. */
  function Merged<T>(cmp: (T, T) -> bool, l: seq<T>, r: seq<T>): (m: seq<T>)
    ensures |m| == |l| + |r|
    decreases |l| + |r|
  {
    if l == [] then r
    else if r == [] then l
    else if cmp(r[0], l[0]) then [r[0]] + Merged(cmp, l, r[1..])
    else [l[0]] + Merged(cmp, l[1..], r)
  }

  /** Merging keeps every element of both halves. */
  lemma {:induction false} MergedPermutation<T>(cmp: (T, T) -> bool, l: seq<T>, r: seq<T>)
    ensures multiset(Merged(cmp, l, r)) == multiset(l) + multiset(r)
    decreases |l| + |r|
  {
    if l == [] {
      assert multiset(l) == multiset{};
    } else if r == [] {
      assert multiset(r) == multiset{};
    } else if cmp(r[0], l[0]) {
      var h, t := r[0], r[1..];
      assert Merged(cmp, l, r) == [h] + Merged(cmp, l, t);
      MergedPermutation(cmp, l, t);
      assert r == [h] + t;
      assert multiset(r) == multiset{h} + multiset(t);
    } else {
      var h, t := l[0], l[1..];
      assert Merged(cmp, l, r) == [h] + Merged(cmp, t, r);
      MergedPermutation(cmp, t, r);
      assert l == [h] + t;
      assert multiset(l) == multiset{h} + multiset(t);
    }
  }

  /** A sorted sequence with `h` put in front stays sorted when nothing in
      it must come before `h`. */
  lemma SortedCons<T>(cmp: (T, T) -> bool, h: T, t: seq<T>)
    requires SortedBy(cmp, t)
    requires forall k :: 0 <= k < |t| ==> !cmp(t[k], h)
    ensures SortedBy(cmp, [h] + t)
  {
    var s := [h] + t;
    forall i, j | 0 <= i < j < |s| ensures !cmp(s[j], s[i]) {
      assert s[j] == t[j - 1];
      if i > 0 {
        assert s[i] == t[i - 1];
      }
    }
  }

  /** Merging two sorted halves gives a sorted sequence. */
  lemma {:induction false} MergedSorted<T(!new)>(cmp: (T, T) -> bool, l: seq<T>, r: seq<T>)
    requires StrictWeakOrder(cmp)
    requires SortedBy(cmp, l) && SortedBy(cmp, r)
    ensures SortedBy(cmp, Merged(cmp, l, r))
    decreases |l| + |r|
  {
    if l == [] || r == [] {
    } else if cmp(r[0], l[0]) {
      var t := Merged(cmp, l, r[1..]);
      MergedSorted(cmp, l, r[1..]);
      MergedPermutation(cmp, l, r[1..]);
      forall k | 0 <= k < |t| ensures !cmp(t[k], r[0]) {
        assert t[k] in multiset(l) + multiset(r[1..]);
        if t[k] in l {
          var p :| 0 <= p < |l| && l[p] == t[k];
          if p > 0 {
            assert !cmp(l[p], l[0]);
          }
        } else {
          var p :| 0 <= p < |r[1..]| && r[1..][p] == t[k];
          assert r[1..][p] == r[p + 1];
        }
      }
      SortedCons(cmp, r[0], t);
    } else {
      var t := Merged(cmp, l[1..], r);
      MergedSorted(cmp, l[1..], r);
      MergedPermutation(cmp, l[1..], r);
      forall k | 0 <= k < |t| ensures !cmp(t[k], l[0]) {
        assert t[k] in multiset(l[1..]) + multiset(r);
        if t[k] in r {
          var p :| 0 <= p < |r| && r[p] == t[k];
          if p > 0 {
            assert !cmp(r[p], r[0]);
          }
        } else {
          var p :| 0 <= p < |l[1..]| && l[1..][p] == t[k];
          assert l[1..][p] == l[p + 1];
        }
      }
      SortedCons(cmp, l[0], t);
    }
  }

  /** An element that must come before the head of a sorted `l` must come
      before every element of `l`, so it is no peer of any of them. */
  lemma AheadOfSortedNoPeers<T(!new)>(cmp: (T, T) -> bool, h: T, l: seq<T>, x: T)
    requires StrictWeakOrder(cmp)
    requires SortedBy(cmp, l) && l != [] && cmp(h, l[0])
    requires Equiv(cmp, h, x)
    ensures Peers(cmp, l, x) == []
  {
    forall p | 0 <= p < |l| ensures !Equiv(cmp, l[p], x) {
      if p > 0 {
        assert !cmp(l[p], l[0]);
      }
      assert cmp(h, l[p]);
      OrderedNotEquiv(cmp, l[p], h, x);
    }
    NoPeers(cmp, l, x);
  }

  /** Writing `h` ahead of `m`, whose peers are those of `u` then `v`,
      counts `h` with `u`. */
  lemma PeersConsLeft<T>(cmp: (T, T) -> bool, h: T, m: seq<T>, u: seq<T>, v: seq<T>, x: T)
    requires Peers(cmp, m, x) == Peers(cmp, u, x) + Peers(cmp, v, x)
    ensures Peers(cmp, [h] + m, x) == Peers(cmp, [h] + u, x) + Peers(cmp, v, x)
  {
    var ph, pu, pv := Peers(cmp, [h], x), Peers(cmp, u, x), Peers(cmp, v, x);
    calc {
      Peers(cmp, [h] + m, x);
      == { PeersAppend(cmp, [h], m, x); }
      ph + (pu + pv);
      == { Associative(ph, pu, pv); }
      (ph + pu) + pv;
      == { PeersAppend(cmp, [h], u, x); }
      Peers(cmp, [h] + u, x) + pv;
    }
  }

  /** Writing `h` ahead of `m`, whose peers are those of `u` then `v`,
      counts `h` with `v` when `u` holds no peer of `h`. */
  lemma PeersConsRight<T>(cmp: (T, T) -> bool, h: T, m: seq<T>, u: seq<T>, v: seq<T>, x: T)
    requires Peers(cmp, m, x) == Peers(cmp, u, x) + Peers(cmp, v, x)
    requires Equiv(cmp, h, x) ==> Peers(cmp, u, x) == []
    ensures Peers(cmp, [h] + m, x) == Peers(cmp, u, x) + Peers(cmp, [h] + v, x)
  {
    PeersAppend(cmp, [h], m, x);
    PeersAppend(cmp, [h], v, x);
    PeersSingleton(cmp, h, x);
    MoveToFront(Peers(cmp, u, x), Peers(cmp, [h], x), Peers(cmp, v, x));
  }

  /** Merging is stable: the peers of every element are those of the left
      half followed by those of the right half. */
  lemma {:induction false} MergedPeers<T(!new)>(cmp: (T, T) -> bool, l: seq<T>, r: seq<T>, x: T)
    requires StrictWeakOrder(cmp)
    requires SortedBy(cmp, l)
    ensures Peers(cmp, Merged(cmp, l, r), x) == Peers(cmp, l, x) + Peers(cmp, r, x)
    decreases |l| + |r|
  {
    if l == [] {
      assert Peers(cmp, l, x) == [];
    } else if r == [] {
      assert Peers(cmp, r, x) == [];
    } else if cmp(r[0], l[0]) {
      MergedPeers(cmp, l, r[1..], x);
      if Equiv(cmp, r[0], x) {
        AheadOfSortedNoPeers(cmp, r[0], l, x);
      }
      PeersConsRight(cmp, r[0], Merged(cmp, l, r[1..]), l, r[1..], x);
      assert [r[0]] + r[1..] == r;
    } else {
      MergedPeers(cmp, l[1..], r, x);
      PeersConsLeft(cmp, l[0], Merged(cmp, l[1..], r), l[1..], r, x);
      assert [l[0]] + l[1..] == l;
    }
  }

  /** Where one half is exhausted `Merged` takes the other's head, as the
      source's element-by-element loop does. */
  lemma MergedExhausted<T>(cmp: (T, T) -> bool, l: seq<T>, r: seq<T>)
    ensures l == [] && r != [] ==> Merged(cmp, l, r) == [r[0]] + Merged(cmp, l, r[1..])
    ensures l != [] && r == [] ==> Merged(cmp, l, r) == [l[0]] + Merged(cmp, l[1..], r)
  {
    if l == [] && r != [] {
      assert r == [r[0]] + r[1..];
    }
    if l != [] && r == [] {
      assert l == [l[0]] + l[1..];
    }
  }

  /** One element of `merge`'s loop: which head it writes and which copy
      it advances. */
  method MergeNext<T>(left: seq<T>, right: seq<T>, li: nat, ri: nat, cmp: (T, T) -> bool)
    returns (v: T, li': nat, ri': nat)
    requires li <= |left| && ri <= |right| && li + ri < |left| + |right|
    ensures li' <= |left| && ri' <= |right|
    ensures (li' == li + 1 && ri' == ri && v == left[li]) || (li' == li && ri' == ri + 1 && v == right[ri])
    ensures ri' == ri + 1 <==> li == |left| || (ri < |right| && cmp(right[ri], left[li]))
    ensures Merged(cmp, left[li..], right[ri..]) == [v] + Merged(cmp, left[li'..], right[ri'..])
  {
    MergedExhausted(cmp, left[li..], right[ri..]);
    if li == |left| || (ri < |right| && cmp(right[ri], left[li])) {
      v, li', ri' := right[ri], li, ri + 1;
      assert right[ri..][1..] == right[ri'..];
    } else {
      v, li', ri' := left[li], li + 1, ri;
      assert left[li..][1..] == left[li'..];
    }
  }

  /** `s` is `orig` with `merged[..k - lo]` written over `[lo, k)`. */
  ghost predicate MergeWritten<T>(s: seq<T>, orig: seq<T>, lo: nat, k: nat, merged: seq<T>) {
    && |s| == |orig| && lo <= k <= |s| && k - lo <= |merged|
    && (forall p :: 0 <= p < |s| && !(lo <= p < k) ==> s[p] == orig[p])
    && (forall p :: lo <= p < k ==> s[p] == merged[p - lo])
  }

  /** Writing the next merged element at `k` extends the written range. */
  lemma MergeWriteStep<T>(s: seq<T>, orig: seq<T>, lo: nat, k: nat, merged: seq<T>)
    requires MergeWritten(s, orig, lo, k, merged) && k < |s| && k - lo < |merged|
    ensures MergeWritten(s[k := merged[k - lo]], orig, lo, k + 1, merged)
  {
  }

  /** Once all of `[lo, hi)` is written, the range holds `merged`. */
  lemma MergeWriteDone<T>(s: seq<T>, orig: seq<T>, lo: nat, hi: nat, merged: seq<T>)
    requires MergeWritten(s, orig, lo, hi, merged) && |merged| == hi - lo
    ensures s == orig[..lo] + merged + orig[hi..]
  {
    var r := orig[..lo] + merged + orig[hi..];
    assert |r| == |s|;
    forall p | 0 <= p < |s| ensures s[p] == r[p] {
      if p < lo {
        assert r[p] == orig[p];
      } else if p < hi {
        assert r[p] == merged[p - lo];
      } else {
        assert r[p] == orig[p];
      }
    }
  }

  /** `merge`: copy the halves `a[lo..mid]` and `a[mid..hi]` aside, then
      write `a[lo..hi]` left to right from the copies. */
  method Merge<T>(a: array<T>, lo: nat, mid: nat, hi: nat, cmp: (T, T) -> bool)
    requires lo <= mid <= hi <= a.Length
    modifies a
    ensures a[..] == old(a[..lo]) + Merged(cmp, old(a[lo..mid]), old(a[mid..hi])) + old(a[hi..])
  {
    var left, right := a[lo..mid], a[mid..hi];
    var li: nat, ri: nat := 0, 0;
    ghost var merged := Merged(cmp, left, right);
    for k := lo to hi
      invariant li <= |left| && ri <= |right| && li + ri == k - lo
      invariant MergeWritten(a[..], old(a[..]), lo, k, merged)
      invariant Merged(cmp, left[li..], right[ri..]) == merged[k - lo..]
    {
      var v;
      v, li, ri := MergeNext(left, right, li, ri, cmp);
      assert merged[k - lo] == v;
      assert merged[k - lo + 1..] == merged[k - lo..][1..];
      MergeWriteStep(a[..], old(a[..]), lo, k, merged);
      a[k] := v;
    }
    MergeWriteDone(a[..], old(a[..]), lo, hi, merged);
  }

  // ------------------------------------------------------------ merge sort

  /** What `merge_sort` leaves in a slice holding `s`: unchanged below two
      elements, otherwise both halves split at `|s| / 2` sorted and merged. */
  function MergeSorted<T>(cmp: (T, T) -> bool, s: seq<T>): (r: seq<T>)
    ensures |r| == |s|
    decreases |s|
  {
    if |s| < 2 then s
    else Merged(cmp, MergeSorted(cmp, s[..|s| / 2]), MergeSorted(cmp, s[|s| / 2..]))
  }

  /** Merge sort keeps every element. */
  lemma {:induction false} MergeSortedPermutation<T>(cmp: (T, T) -> bool, s: seq<T>)
    ensures multiset(MergeSorted(cmp, s)) == multiset(s)
    decreases |s|
  {
    if |s| >= 2 {
      var h := |s| / 2;
      MergeSortedPermutation(cmp, s[..h]);
      MergeSortedPermutation(cmp, s[h..]);
      MergedPermutation(cmp, MergeSorted(cmp, s[..h]), MergeSorted(cmp, s[h..]));
      assert s == s[..h] + s[h..];
    }
  }

  /** Merge sort sorts. */
  lemma {:induction false} MergeSortedSorted<T(!new)>(cmp: (T, T) -> bool, s: seq<T>)
    requires StrictWeakOrder(cmp)
    ensures SortedBy(cmp, MergeSorted(cmp, s))
    decreases |s|
  {
    if |s| >= 2 {
      var h := |s| / 2;
      MergeSortedSorted(cmp, s[..h]);
      MergeSortedSorted(cmp, s[h..]);
      MergedSorted(cmp, MergeSorted(cmp, s[..h]), MergeSorted(cmp, s[h..]));
    }
  }

  /** Merge sort is stable. */
  lemma {:induction false} MergeSortedStable<T(!new)>(cmp: (T, T) -> bool, s: seq<T>)
    requires StrictWeakOrder(cmp)
    ensures Stable(cmp, s, MergeSorted(cmp, s))
    decreases |s|
  {
    if |s| >= 2 {
      var h := |s| / 2;
      var l, r := MergeSorted(cmp, s[..h]), MergeSorted(cmp, s[h..]);
      MergeSortedStable(cmp, s[..h]);
      MergeSortedStable(cmp, s[h..]);
      MergeSortedSorted(cmp, s[..h]);
      forall x ensures Peers(cmp, MergeSorted(cmp, s), x) == Peers(cmp, s, x) {
        MergedPeers(cmp, l, r, x);
        PeersAppend(cmp, s[..h], s[h..], x);
        assert s == s[..h] + s[h..];
      }
    }
  }

  /** Merge sort leaves a sorted sequence as it is. */
  lemma MergeSortedOfSorted<T(!new)>(cmp: (T, T) -> bool, s: seq<T>)
    requires StrictWeakOrder(cmp) && SortedBy(cmp, s)
    ensures MergeSorted(cmp, s) == s
  {
    MergeSortedSorted(cmp, s);
    MergeSortedPermutation(cmp, s);
    MergeSortedStable(cmp, s);
    SortedInputUnchanged(cmp, s, MergeSorted(cmp, s));
  }

  /** Merge sorting twice gives what merge sorting once does. */
  lemma MergeSortedIdempotent<T(!new)>(cmp: (T, T) -> bool, s: seq<T>)
    requires StrictWeakOrder(cmp)
    ensures MergeSorted(cmp, MergeSorted(cmp, s)) == MergeSorted(cmp, s)
  {
    MergeSortedSorted(cmp, s);
    MergeSortedOfSorted(cmp, MergeSorted(cmp, s));
  }

  /** The three parts of a concatenation, sliced back out. */
  lemma ThreeParts<T>(p: seq<T>, m: seq<T>, q: seq<T>)
    ensures (p + m + q)[..|p|] == p
    ensures (p + m + q)[|p|..|p| + |m|] == m
    ensures (p + m + q)[|p| + |m|..] == q
  {
  }

  /** Replacing `a0[lo..mid]` by `m` leaves the rest of `a0` in place. */
  lemma ReplaceRange<T>(a0: seq<T>, lo: nat, mid: nat, hi: nat, m: seq<T>, a1: seq<T>)
    requires lo <= mid <= hi <= |a0| && |m| == mid - lo
    requires a1 == a0[..lo] + m + a0[mid..]
    ensures a1[..lo] == a0[..lo] && a1[lo..mid] == m
    ensures a1[mid..hi] == a0[mid..hi] && a1[hi..] == a0[hi..]
  {
    assert a0[mid..] == a0[mid..hi] + a0[hi..];
    ThreeParts(a0[..lo], m, a0[mid..]);
    ThreeParts(a0[..lo] + m, a0[mid..hi], a0[hi..]);
  }

  /** The array contents across one call of `MergeSortRange` on at least
      two elements: after sorting the left half (`a1`), then the right
      half (`a2`), merging the halves of `a2` gives `MergeSorted` of the
      range. */
  lemma MergeSortRangeStep<T>(cmp: (T, T) -> bool, a0: seq<T>, lo: nat, mid: nat, hi: nat, a1: seq<T>, a2: seq<T>)
    requires lo + 2 <= hi <= |a0| && mid == lo + (hi - lo) / 2
    requires a1 == a0[..lo] + MergeSorted(cmp, a0[lo..mid]) + a0[mid..]
    requires a2 == a1[..mid] + MergeSorted(cmp, a1[mid..hi]) + a1[hi..]
    ensures a2[..lo] + Merged(cmp, a2[lo..mid], a2[mid..hi]) + a2[hi..]
         == a0[..lo] + MergeSorted(cmp, a0[lo..hi]) + a0[hi..]
  {
    var sl := MergeSorted(cmp, a0[lo..mid]);
    ReplaceRange(a0, lo, mid, hi, sl, a1);
    var sr := MergeSorted(cmp, a0[mid..hi]);
    ReplaceRange(a1, mid, hi, hi, sr, a2);
    assert a2[..lo] == a1[..mid][..lo];
    assert a2[lo..mid] == a1[..mid][lo..];
    var s := a0[lo..hi];
    assert s[..|s| / 2] == a0[lo..mid] && s[|s| / 2..] == a0[mid..hi];
  }

  /** Merge-sorting the range `[0, |s|)` merge-sorts all of `s`. */
  lemma WholeRange<T>(cmp: (T, T) -> bool, s: seq<T>, t: seq<T>)
    requires t == s[..0] + MergeSorted(cmp, s[0..|s|]) + s[|s|..]
    ensures t == MergeSorted(cmp, s)
  {
    assert s[..0] == [] && s[0..|s|] == s && s[|s|..] == [];
  }

  /** `merge_sort` on the sub-slice `a[lo..hi]`: below two elements nothing
      happens; otherwise sort both halves in place, then merge them. */
  method MergeSortRange<T>(a: array<T>, lo: nat, hi: nat, cmp: (T, T) -> bool)
    requires lo <= hi <= a.Length
    modifies a
    ensures a[..] == old(a[..lo]) + MergeSorted(cmp, old(a[lo..hi])) + old(a[hi..])
    decreases hi - lo
  {
    ghost var a0 := a[..];
    if hi - lo < 2 {
      ThreeParts(a0[..lo], a0[lo..hi], a0[hi..]);
      assert a0 == a0[..lo] + a0[lo..hi] + a0[hi..];
      return;
    }
    var mid := lo + (hi - lo) / 2;
    MergeSortRange(a, lo, mid, cmp);
    ghost var a1 := a[..];
    MergeSortRange(a, mid, hi, cmp);
    ghost var a2 := a[..];
    Merge(a, lo, mid, hi, cmp);
    MergeSortRangeStep(cmp, a0, lo, mid, hi, a1, a2);
  }

  /** `merge_sort` on a whole slice: a sorted, stable permutation. */
  method MergeSort<T(!new)>(a: array<T>, cmp: (T, T) -> bool)
    requires StrictWeakOrder(cmp)
    modifies a
    ensures a[..] == MergeSorted(cmp, old(a[..]))
    ensures SortedBy(cmp, a[..])
    ensures multiset(a[..]) == multiset(old(a[..]))
    ensures Stable(cmp, old(a[..]), a[..])
    ensures SortedBy(cmp, old(a[..])) ==> a[..] == old(a[..])
  {
    ghost var s := a[..];
    MergeSortRange(a, 0, a.Length, cmp);
    WholeRange(cmp, s, a[..]);
    MergeSortedSorted(cmp, s);
    MergeSortedPermutation(cmp, s);
    MergeSortedStable(cmp, s);
    if SortedBy(cmp, s) {
      MergeSortedOfSorted(cmp, s);
    }
  }

  // ------------------------------------------------------------ quick sort

  /** The pivot index `len / 2` of `partition`, inside the range `[lo, hi)`. */
  function Middle(lo: nat, hi: nat): (m: nat)
    requires lo < hi
    ensures lo <= m < hi
  {
    lo + (hi - lo) / 2
  }

  /** What holds in `partition`'s loop after the elements before `i` have
      been visited: those before `store` must come before the pivot
      parked at `hi - 1`, those from `store` to `i` need not, and `s` is a
      rearrangement of `orig` that moved nothing outside `[lo, hi)`. */
  ghost predicate PartitionInvariant<T>(cmp: (T, T) -> bool, orig: seq<T>, s: seq<T>, lo: nat, hi: nat, pivot: T, store: nat, i: nat) {
    && |s| == |orig| && lo <= store <= i < hi <= |s|
    && s[hi - 1] == pivot
    && (forall k :: lo <= k < store ==> cmp(s[k], pivot))
    && (forall k :: store <= k < i ==> !cmp(s[k], pivot))
    && multiset(s) == multiset(orig)
    && (forall k :: 0 <= k < |s| && !(lo <= k < hi) ==> s[k] == orig[k])
  }

  /** Parking the middle element at the end starts the loop. */
  lemma PartitionStart<T>(cmp: (T, T) -> bool, orig: seq<T>, lo: nat, mid: nat, hi: nat)
    requires lo <= mid < hi <= |orig|
    ensures PartitionInvariant(cmp, orig, Swapped(orig, mid, hi - 1), lo, hi, orig[mid], lo, lo)
  {
    var t := Swapped(orig, mid, hi - 1);
    SwappedPermutes(orig, mid, hi - 1);
    assert t[hi - 1] == orig[mid];
    assert forall k :: 0 <= k < |t| && !(lo <= k < hi) ==> t[k] == orig[k];
  }

  /** One visit of the loop, moving `s[i]` to the front part or not. */
  lemma PartitionStep<T>(cmp: (T, T) -> bool, orig: seq<T>, s: seq<T>, lo: nat, hi: nat, pivot: T, store: nat, i: nat)
    requires PartitionInvariant(cmp, orig, s, lo, hi, pivot, store, i) && i < hi - 1
    ensures cmp(s[i], pivot) ==> PartitionInvariant(cmp, orig, Swapped(s, i, store), lo, hi, pivot, store + 1, i + 1)
    ensures !cmp(s[i], pivot) ==> PartitionInvariant(cmp, orig, s, lo, hi, pivot, store, i + 1)
  {
    if cmp(s[i], pivot) {
      SwappedPermutes(s, i, store);
    }
  }

  /** One iteration of `partition`'s loop: if `a[i]` must come before the
      pivot, swap it to `store` and advance `store`. */
  method PartitionVisit<T>(a: array<T>, lo: nat, hi: nat, i: nat, store: nat, cmp: (T, T) -> bool,
                           ghost orig: seq<T>, ghost pivot: T) returns (store': nat)
    requires PartitionInvariant(cmp, orig, a[..], lo, hi, pivot, store, i) && i < hi - 1
    modifies a
    ensures store' == if cmp(old(a[i]), pivot) then store + 1 else store
    ensures a[..] == if cmp(old(a[i]), pivot) then Swapped(old(a[..]), i, store) else old(a[..])
    ensures PartitionInvariant(cmp, orig, a[..], lo, hi, pivot, store', i + 1)
  {
    PartitionStep(cmp, orig, a[..], lo, hi, pivot, store, i);
    store' := store;
    if cmp(a[i], a[hi - 1]) {
      Swap(a, i, store);
      store' := store + 1;
    }
  }

  /** Swapping the pivot in at `store` ends `partition`: everything before
      it must come before it, nothing after it must. */
  lemma PartitionEnd<T>(cmp: (T, T) -> bool, orig: seq<T>, s: seq<T>, lo: nat, hi: nat, pivot: T, store: nat)
    requires 0 < hi && PartitionInvariant(cmp, orig, s, lo, hi, pivot, store, hi - 1)
    ensures var t := Swapped(s, store, hi - 1);
      && t[store] == pivot
      && (forall k :: lo <= k < store ==> cmp(t[k], t[store]))
      && (forall k :: store < k < hi ==> !cmp(t[k], t[store]))
      && multiset(t) == multiset(orig)
      && (forall k :: 0 <= k < |t| && !(lo <= k < hi) ==> t[k] == orig[k])
  {
    SwappedPermutes(s, store, hi - 1);
  }

  /** `partition` on the sub-slice `a[lo..hi]`: park the middle element at
      the end, move every element that must come before it to the front
      (Lomuto's scheme), and swap it in behind them. Returns its final
      position. The source computes `len - 1`, so the range must not be
      empty. */
  method Partition<T>(a: array<T>, lo: nat, hi: nat, cmp: (T, T) -> bool) returns (p: nat)
    requires lo < hi <= a.Length
    modifies a
    ensures lo <= p < hi
    ensures a[p] == old(a[Middle(lo, hi)])
    ensures forall k :: lo <= k < p ==> cmp(a[k], a[p])
    ensures forall k :: p < k < hi ==> !cmp(a[k], a[p])
    ensures multiset(a[..]) == multiset(old(a[..]))
    ensures forall k :: 0 <= k < a.Length && !(lo <= k < hi) ==> a[k] == old(a[k])
  {
    var pivotIndex, last := Middle(lo, hi), hi - 1;
    ghost var orig, pivot := a[..], a[pivotIndex];
    PartitionStart(cmp, orig, lo, pivotIndex, hi);
    Swap(a, pivotIndex, last);
    var store := lo;
    for i := lo to last
      invariant PartitionInvariant(cmp, orig, a[..], lo, hi, pivot, store, i)
    {
      store := PartitionVisit(a, lo, hi, i, store, cmp, orig, pivot);
    }
    PartitionEnd(cmp, orig, a[..], lo, hi, pivot, store);
    Swap(a, store, last);
    p := store;
  }

  /** Every element of `s` must come before `pivot`. */
  ghost predicate AllAhead<T>(cmp: (T, T) -> bool, s: seq<T>, pivot: T) {
    forall k :: 0 <= k < |s| ==> cmp(s[k], pivot)
  }

  /** No element of `s` must come before `pivot`. */
  ghost predicate NoneAhead<T>(cmp: (T, T) -> bool, s: seq<T>, pivot: T) {
    forall k :: 0 <= k < |s| ==> !cmp(s[k], pivot)
  }

  /** Both properties depend only on which elements `s` holds. */
  lemma AheadOfPermutation<T>(cmp: (T, T) -> bool, s: seq<T>, t: seq<T>, pivot: T)
    requires multiset(s) == multiset(t)
    ensures AllAhead(cmp, s, pivot) ==> AllAhead(cmp, t, pivot)
    ensures NoneAhead(cmp, s, pivot) ==> NoneAhead(cmp, t, pivot)
  {
    forall k | 0 <= k < |t| ensures exists j :: 0 <= j < |s| && s[j] == t[k] {
      assert t[k] in multiset(s);
    }
  }

  /** Two sorted sides of a pivot, everything on the left ahead of it and
      nothing on the right, make a sorted whole. */
  lemma SortedAroundPivot<T(!new)>(cmp: (T, T) -> bool, l: seq<T>, pivot: T, r: seq<T>)
    requires StrictWeakOrder(cmp)
    requires SortedBy(cmp, l) && SortedBy(cmp, r)
    requires AllAhead(cmp, l, pivot) && NoneAhead(cmp, r, pivot)
    ensures SortedBy(cmp, l + [pivot] + r)
  {
    var s := l + [pivot] + r;
    forall i, j | 0 <= i < j < |s| ensures !cmp(s[j], s[i]) {
      if j < |l| {
        assert s[i] == l[i] && s[j] == l[j];
      } else if j == |l| {
        assert cmp(s[i], pivot);
      } else if i > |l| {
        assert s[i] == r[i - |l| - 1] && s[j] == r[j - |l| - 1];
      } else if i == |l| {
        assert !cmp(s[j], pivot);
      } else {
        assert cmp(s[i], pivot) && !cmp(s[j], pivot);
      }
    }
  }

  /** A rearrangement that moves nothing outside `[lo, hi)` rearranges
      `[lo, hi)` itself. */
  lemma RangePermutation<T>(s: seq<T>, t: seq<T>, lo: nat, hi: nat)
    requires lo <= hi <= |s| == |t|
    requires multiset(t) == multiset(s)
    requires forall k :: 0 <= k < |s| && !(lo <= k < hi) ==> t[k] == s[k]
    ensures multiset(t[lo..hi]) == multiset(s[lo..hi])
  {
    var ms, mt := multiset(s[lo..hi]), multiset(t[lo..hi]);
    assert t[..lo] == s[..lo] && t[hi..] == s[hi..];
    var before, after := multiset(s[..lo]), multiset(s[hi..]);
    RangeBags(s, lo, hi);
    RangeBags(t, lo, hi);
    forall x ensures mt[x] == ms[x] {
      assert multiset(t)[x] == multiset(s)[x];
    }
  }

  /** The bag of `s` is the sum of the bags of its three parts around
      `[lo, hi)`. */
  lemma RangeBags<T>(s: seq<T>, lo: nat, hi: nat)
    requires lo <= hi <= |s|
    ensures multiset(s) == multiset(s[..lo]) + multiset(s[lo..hi]) + multiset(s[hi..])
  {
    assert s == s[..lo] + s[lo..hi] + s[hi..];
  }

  /** Sorting `[lo, hi)` in place keeps "all ahead of" or "none ahead of"
      a pivot for that range. */
  lemma SideAfterSort<T>(cmp: (T, T) -> bool, s: seq<T>, t: seq<T>, lo: nat, hi: nat, pivot: T)
    requires lo <= hi <= |s| == |t|
    requires multiset(t) == multiset(s)
    requires forall k :: 0 <= k < |s| && !(lo <= k < hi) ==> t[k] == s[k]
    ensures AllAhead(cmp, s[lo..hi], pivot) ==> AllAhead(cmp, t[lo..hi], pivot)
    ensures NoneAhead(cmp, s[lo..hi], pivot) ==> NoneAhead(cmp, t[lo..hi], pivot)
  {
    RangePermutation(s, t, lo, hi);
    AheadOfPermutation(cmp, s[lo..hi], t[lo..hi], pivot);
  }

  /** After `partition` left `s0` split at `p` and both sides were sorted
      in place (`s1`, then `s2`), the whole range is sorted. */
  lemma QuickSortStep<T(!new)>(cmp: (T, T) -> bool, s0: seq<T>, s1: seq<T>, s2: seq<T>, lo: nat, p: nat, hi: nat)
    requires StrictWeakOrder(cmp)
    requires lo <= p < hi <= |s0| == |s1| == |s2|
    requires forall k :: lo <= k < p ==> cmp(s0[k], s0[p])
    requires forall k :: p < k < hi ==> !cmp(s0[k], s0[p])
    requires multiset(s1) == multiset(s0) && SortedBy(cmp, s1[lo..p])
    requires forall k :: 0 <= k < |s1| && !(lo <= k < p) ==> s1[k] == s0[k]
    requires multiset(s2) == multiset(s1) && SortedBy(cmp, s2[p + 1..hi])
    requires forall k :: 0 <= k < |s2| && !(p + 1 <= k < hi) ==> s2[k] == s1[k]
    ensures SortedBy(cmp, s2[lo..hi])
  {
    var pivot := s0[p];
    assert AllAhead(cmp, s0[lo..p], pivot);
    SideAfterSort(cmp, s0, s1, lo, p, pivot);
    assert s2[lo..p] == s1[lo..p];
    assert NoneAhead(cmp, s0[p + 1..hi], pivot);
    assert s1[p + 1..hi] == s0[p + 1..hi];
    SideAfterSort(cmp, s1, s2, p + 1, hi, pivot);
    assert s2[p] == pivot;
    SortedAroundPivot(cmp, s2[lo..p], pivot, s2[p + 1..hi]);
    assert s2[lo..hi] == s2[lo..p] + [pivot] + s2[p + 1..hi];
  }

  /** `quick_sort` on the sub-slice `a[lo..hi]`: below two elements nothing
      happens; otherwise partition, then sort both sides of the pivot. */
  method QuickSortRange<T(!new)>(a: array<T>, lo: nat, hi: nat, cmp: (T, T) -> bool)
    requires StrictWeakOrder(cmp)
    requires lo <= hi <= a.Length
    modifies a
    ensures SortedBy(cmp, a[lo..hi])
    ensures multiset(a[..]) == multiset(old(a[..]))
    ensures forall k :: 0 <= k < a.Length && !(lo <= k < hi) ==> a[k] == old(a[k])
    decreases hi - lo
  {
    if hi - lo < 2 {
      return;
    }
    var p := Partition(a, lo, hi, cmp);
    ghost var s0 := a[..];
    QuickSortRange(a, lo, p, cmp);
    ghost var s1 := a[..];
    QuickSortRange(a, p + 1, hi, cmp);
    QuickSortStep(cmp, s0, s1, a[..], lo, p, hi);
  }

  /** `quick_sort` on a whole slice: a sorted permutation. */
  method QuickSort<T(!new)>(a: array<T>, cmp: (T, T) -> bool)
    requires StrictWeakOrder(cmp)
    modifies a
    ensures SortedBy(cmp, a[..])
    ensures multiset(a[..]) == multiset(old(a[..]))
    ensures Total(cmp) && SortedBy(cmp, old(a[..])) ==> a[..] == old(a[..])
  {
    QuickSortRange(a, 0, a.Length, cmp);
    assert a[0..a.Length] == a[..];
    if Total(cmp) && SortedBy(cmp, old(a[..])) {
      SortedInputUnchanged(cmp, old(a[..]), a[..]);
    }
  }
}
