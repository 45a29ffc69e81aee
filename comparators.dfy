/** What the sorting routines assume of their comparator, and the three
    properties they are proved against: sorted under `cmp`, a permutation
    of the input, and stable (elements `cmp` cannot tell apart keep their
    relative order).

    A comparator `cmp(x, y)` answers "must x come before y?", as the
    closures `|x, y| x < y` and `|x, y| x.len() < y.len()` do. */
module Comparators {

  /** `cmp` is a strict weak order: irreflexive, transitive, and
      "neither comes before the other" is transitive as well. */
  ghost predicate StrictWeakOrder<T(!new)>(cmp: (T, T) -> bool) {
    && (forall x :: !cmp(x, x))
    && (forall x, y, z {:trigger cmp(x, y), cmp(y, z)} :: cmp(x, y) && cmp(y, z) ==> cmp(x, z))
    && (forall x, y, z {:trigger cmp(x, y), cmp(y, z)} :: !cmp(x, y) && !cmp(y, z) ==> !cmp(x, z))
  }

  /** `cmp` tells every two distinct values apart (a strict total order
      when it is also a strict weak order), as `<` does on integers. */
  ghost predicate Total<T(!new)>(cmp: (T, T) -> bool) {
    forall x, y :: !cmp(x, y) && !cmp(y, x) ==> x == y
  }

  /** Neither of `x` and `y` has to come before the other. */
  predicate Equiv<T>(cmp: (T, T) -> bool, x: T, y: T) {
    !cmp(x, y) && !cmp(y, x)
  }

  /** No element of `s` has to come before an element on its left. */
  predicate SortedBy<T>(cmp: (T, T) -> bool, s: seq<T>) {
    forall i, j :: 0 <= i < j < |s| ==> !cmp(s[j], s[i])
  }

  /** The elements of `s` that `cmp` cannot tell apart from `x`, in the
      order they occur in `s`. */
  function Peers<T>(cmp: (T, T) -> bool, s: seq<T>, x: T): (r: seq<T>)
    ensures |r| <= |s|
  {
    if s == [] then []
    else (if Equiv(cmp, s[0], x) then [s[0]] else []) + Peers(cmp, s[1..], x)
  }

  /** `r` keeps every run of mutually equivalent elements of `s` in the
      order it has in `s`: the definition of a stable rearrangement. */
  ghost predicate Stable<T(!new)>(cmp: (T, T) -> bool, s: seq<T>, r: seq<T>) {
    forall x :: Peers(cmp, r, x) == Peers(cmp, s, x)
  }

  /** The elements of `s` in reverse order. */
  function Reverse<T>(s: seq<T>): (r: seq<T>)
    ensures |r| == |s|
  {
    if s == [] then [] else Reverse(s[1..]) + [s[0]]
  }

  /** `s` with the elements at `i` and `j` exchanged, as `slice::swap` leaves it. */
  function Swapped<T>(s: seq<T>, i: nat, j: nat): (r: seq<T>)
    requires i < |s| && j < |s|
    ensures |r| == |s| && r[i] == s[j] && r[j] == s[i]
    ensures forall k :: 0 <= k < |s| && k != i && k != j ==> r[k] == s[k]
  {
    s[i := s[j]][j := s[i]]
  }

  lemma {:induction false} ReverseAppend<T>(s: seq<T>, t: seq<T>)
    ensures Reverse(s + t) == Reverse(t) + Reverse(s)
    decreases |s|
  {
    if s == [] {
      assert s + t == t;
    } else {
      assert (s + t)[1..] == s[1..] + t;
      ReverseAppend(s[1..], t);
    }
  }

  /** Taking peers commutes with concatenation. */
  lemma {:induction false} PeersAppend<T>(cmp: (T, T) -> bool, s: seq<T>, t: seq<T>, x: T)
    ensures Peers(cmp, s + t, x) == Peers(cmp, s, x) + Peers(cmp, t, x)
    decreases |s|
  {
    if s == [] {
      assert s + t == t;
    } else {
      var h := if Equiv(cmp, s[0], x) then [s[0]] else [];
      assert (s + t)[0] == s[0] && (s + t)[1..] == s[1..] + t;
      assert Peers(cmp, s + t, x) == h + Peers(cmp, s[1..] + t, x);
      PeersAppend(cmp, s[1..], t, x);
      assert h + (Peers(cmp, s[1..], x) + Peers(cmp, t, x)) == (h + Peers(cmp, s[1..], x)) + Peers(cmp, t, x);
    }
  }

  /** The peers of a one-element sequence. */
  lemma PeersSingleton<T>(cmp: (T, T) -> bool, e: T, x: T)
    ensures Peers(cmp, [e], x) == if Equiv(cmp, e, x) then [e] else []
  {
    assert [e][1..] == [];
  }

  /** A sequence with no element equivalent to `x` has no peers of `x`. */
  lemma {:induction false} NoPeers<T>(cmp: (T, T) -> bool, s: seq<T>, x: T)
    requires forall p :: 0 <= p < |s| ==> !Equiv(cmp, s[p], x)
    ensures Peers(cmp, s, x) == []
    decreases |s|
  {
    if s != [] {
      NoPeers(cmp, s[1..], x);
    }
  }

  /** Under a strict weak order, equivalent elements are ordered alike
      against everything else: what one must precede, so must the other. */
  lemma OrderedNotEquiv<T(!new)>(cmp: (T, T) -> bool, y: T, e: T, x: T)
    requires StrictWeakOrder(cmp)
    requires cmp(y, e) || cmp(e, y)
    requires Equiv(cmp, e, x)
    ensures !Equiv(cmp, y, x)
  {
  }

  /** Two elements that `cmp` can tell apart are never both peers of `x`,
      so their order does not show in any peer subsequence. */
  lemma PeersOfDistinctPair<T(!new)>(cmp: (T, T) -> bool, u: T, v: T, x: T)
    requires StrictWeakOrder(cmp)
    requires cmp(v, u)
    ensures Peers(cmp, [u, v], x) == Peers(cmp, [v, u], x)
  {
    PeersAppend(cmp, [u], [v], x);
    PeersAppend(cmp, [v], [u], x);
    PeersSingleton(cmp, u, x);
    PeersSingleton(cmp, v, x);
    assert !(Equiv(cmp, u, x) && Equiv(cmp, v, x));
  }

  /** Exchanging two neighbours that `cmp` can tell apart moves no element
      past one of its peers: the step that keeps bubble sort stable. */
  lemma SwapNeighboursStable<T(!new)>(cmp: (T, T) -> bool, s: seq<T>, i: nat)
    requires StrictWeakOrder(cmp)
    requires i + 1 < |s| && cmp(s[i + 1], s[i])
    ensures Stable(cmp, s, Swapped(s, i, i + 1))
  {
    var t := Swapped(s, i, i + 1);
    var p, u, v, q := s[..i], s[i], s[i + 1], s[i + 2..];
    assert s == p + [u, v] + q;
    assert t == p + [v, u] + q;
    forall x ensures Peers(cmp, t, x) == Peers(cmp, s, x) {
      PeersAppend(cmp, p + [u, v], q, x);
      PeersAppend(cmp, p, [u, v], x);
      PeersAppend(cmp, p + [v, u], q, x);
      PeersAppend(cmp, p, [v, u], x);
      PeersOfDistinctPair(cmp, u, v, x);
    }
  }

  /** Checking neighbours is enough: for a strict weak order, a sequence in
      which no element must come before its left neighbour is sorted. */
  lemma {:induction false} SortedFromNeighbours<T(!new)>(cmp: (T, T) -> bool, s: seq<T>)
    requires StrictWeakOrder(cmp)
    requires forall i :: 0 < i < |s| ==> !cmp(s[i], s[i - 1])
    ensures SortedBy(cmp, s)
    decreases |s|
  {
    if |s| >= 2 {
      var t := s[..|s| - 1];
      assert forall i :: 0 < i < |t| ==> !cmp(t[i], t[i - 1]);
      SortedFromNeighbours(cmp, t);
      forall i, j | 0 <= i < j < |s| ensures !cmp(s[j], s[i]) {
        if j < |s| - 1 {
          assert s[i] == t[i] && s[j] == t[j];
        } else if i < j - 1 {
          assert !cmp(t[j - 1], t[i]);
        }
      }
    }
  }

  /** Dropping the same first element from two sequences with the same
      elements leaves two sequences with the same elements. */
  lemma SameTails<T>(r1: seq<T>, r2: seq<T>)
    requires multiset(r1) == multiset(r2)
    requires r1 != [] && r2 != [] && r1[0] == r2[0]
    ensures multiset(r1[1..]) == multiset(r2[1..])
  {
    assert r1 == [r1[0]] + r1[1..] && r2 == [r2[0]] + r2[1..];
    assert multiset(r1[1..]) == multiset(r1) - multiset{r1[0]};
    assert multiset(r2[1..]) == multiset(r2) - multiset{r2[0]};
  }

  /** Two sorted sequences with the same elements and the same peers of
      their first element start with the same element. */
  lemma SortedStableHeads<T(!new)>(cmp: (T, T) -> bool, r1: seq<T>, r2: seq<T>)
    requires StrictWeakOrder(cmp)
    requires SortedBy(cmp, r1) && SortedBy(cmp, r2)
    requires multiset(r1) == multiset(r2)
    requires r1 != [] && r2 != []
    requires Peers(cmp, r1, r1[0]) == Peers(cmp, r2, r1[0])
    ensures r1[0] == r2[0]
  {
    var a, b := r1[0], r2[0];
    // `b` occurs in the sorted r1, so it does not come before `a`
    assert b in multiset(r1);
    var k :| 0 <= k < |r1| && r1[k] == b;
    assert !cmp(b, a);
    // and `a` occurs in the sorted r2, so it does not come before `b`
    assert a in multiset(r2);
    var m :| 0 <= m < |r2| && r2[m] == a;
    assert !cmp(a, b);
    // so the peers of `a` start with `a` in r1 and with `b` in r2
    assert Peers(cmp, r1, a)[0] == a;
    assert Peers(cmp, r2, a)[0] == b;
  }

  /** Two sorted sequences with the same elements and the same peer
      subsequences are equal: a sorted stable permutation is unique. */
  lemma {:induction false} SortedStableUnique<T(!new)>(cmp: (T, T) -> bool, r1: seq<T>, r2: seq<T>)
    requires StrictWeakOrder(cmp)
    requires SortedBy(cmp, r1) && SortedBy(cmp, r2)
    requires multiset(r1) == multiset(r2)
    requires forall x :: Peers(cmp, r1, x) == Peers(cmp, r2, x)
    ensures r1 == r2
    decreases |r1|
  {
    assert |r1| == |multiset(r1)| == |multiset(r2)| == |r2|;
    if r1 != [] {
      SortedStableHeads(cmp, r1, r2);
      SameTails(r1, r2);
      var a, t1, t2 := r1[0], r1[1..], r2[1..];
      assert r1 == [a] + t1 && r2 == [a] + t2;
      forall x ensures Peers(cmp, t1, x) == Peers(cmp, t2, x) {
        var h := if Equiv(cmp, a, x) then [a] else [];
        assert Peers(cmp, r1, x) == h + Peers(cmp, t1, x);
        assert Peers(cmp, r2, x) == h + Peers(cmp, t2, x);
        assert Peers(cmp, t1, x) == Peers(cmp, r1, x)[|h|..];
        assert Peers(cmp, t2, x) == Peers(cmp, r2, x)[|h|..];
      }
      assert SortedBy(cmp, t1) && SortedBy(cmp, t2);
      SortedStableUnique(cmp, t1, t2);
    }
  }

  /** For a total order the peers of `x` are just the copies of `x`. */
  lemma {:induction false} PeersAreCopies<T(!new)>(cmp: (T, T) -> bool, s: seq<T>, x: T)
    requires StrictWeakOrder(cmp) && Total(cmp)
    ensures Peers(cmp, s, x) == seq(multiset(s)[x], _ => x)
    decreases |s|
  {
    if s != [] {
      PeersAreCopies(cmp, s[1..], x);
      assert s == [s[0]] + s[1..];
      assert multiset(s) == multiset{s[0]} + multiset(s[1..]);
      if s[0] == x {
        assert seq(multiset(s)[x], _ => x) == [x] + seq(multiset(s[1..])[x], _ => x);
      }
    }
  }

  /** Under a total order every permutation is stable. */
  lemma TotalPermutationStable<T(!new)>(cmp: (T, T) -> bool, s: seq<T>, r: seq<T>)
    requires StrictWeakOrder(cmp) && Total(cmp)
    requires multiset(r) == multiset(s)
    ensures Stable(cmp, s, r)
  {
    forall x ensures Peers(cmp, r, x) == Peers(cmp, s, x) {
      PeersAreCopies(cmp, r, x);
      PeersAreCopies(cmp, s, x);
    }
  }

  /** Under a total order a sorted permutation is unique, which pins down
      the output of every sort, stable or not. */
  lemma SortedPermutationUnique<T(!new)>(cmp: (T, T) -> bool, r1: seq<T>, r2: seq<T>)
    requires StrictWeakOrder(cmp) && Total(cmp)
    requires SortedBy(cmp, r1) && SortedBy(cmp, r2)
    requires multiset(r1) == multiset(r2)
    ensures r1 == r2
  {
    TotalPermutationStable(cmp, r1, r2);
    SortedStableUnique(cmp, r1, r2);
  }

  /** Sorting a sequence that is already sorted gives it back, when the
      order is total or the sort is stable; since every sort's output is
      sorted, sorting twice then gives what sorting once does. */
  lemma SortedInputUnchanged<T(!new)>(cmp: (T, T) -> bool, s: seq<T>, r: seq<T>)
    requires StrictWeakOrder(cmp)
    requires SortedBy(cmp, s) && SortedBy(cmp, r)
    requires multiset(r) == multiset(s)
    requires Total(cmp) || Stable(cmp, s, r)
    ensures r == s
  {
    if Total(cmp) {
      SortedPermutationUnique(cmp, r, s);
    } else {
      SortedStableUnique(cmp, r, s);
    }
  }

  /** Every element of `s` has to come before every element on its right. */
  predicate StrictlySortedBy<T>(cmp: (T, T) -> bool, s: seq<T>) {
    forall i, j :: 0 <= i < j < |s| ==> cmp(s[i], s[j])
  }

  /** A sorted sequence and a strictly sorted one with the same elements
      start with the same element. */
  lemma StrictlySortedHeads<T(!new)>(cmp: (T, T) -> bool, r1: seq<T>, r2: seq<T>)
    requires forall x :: !cmp(x, x)
    requires SortedBy(cmp, r1) && StrictlySortedBy(cmp, r2)
    requires multiset(r1) == multiset(r2)
    requires r1 != [] && r2 != []
    ensures r1[0] == r2[0]
  {
    var a, b := r1[0], r2[0];
    // `b` occurs in the sorted r1, so it does not come before `a`
    assert b in multiset(r1);
    var k :| 0 <= k < |r1| && r1[k] == b;
    assert !cmp(b, a);
    // `a` occurs in r2, where everything after `b` comes after `b`
    assert a in multiset(r2);
    var m :| 0 <= m < |r2| && r2[m] == a;
    assert m == 0;
  }

  /** A sequence sorted under `cmp` has only one sorted permutation when
      that permutation has no two elements `cmp` cannot tell apart, even
      when `cmp` is not total. */
  lemma {:induction false} StrictlySortedUnique<T(!new)>(cmp: (T, T) -> bool, r1: seq<T>, r2: seq<T>)
    requires forall x :: !cmp(x, x)
    requires SortedBy(cmp, r1)
    requires StrictlySortedBy(cmp, r2)
    requires multiset(r1) == multiset(r2)
    ensures r1 == r2
    decreases |r1|
  {
    assert |r1| == |multiset(r1)| == |multiset(r2)| == |r2|;
    if r1 != [] {
      StrictlySortedHeads(cmp, r1, r2);
      SameTails(r1, r2);
      var t1, t2 := r1[1..], r2[1..];
      assert SortedBy(cmp, t1) && StrictlySortedBy(cmp, t2);
      StrictlySortedUnique(cmp, t1, t2);
      assert r1 == [r1[0]] + t1 && r2 == [r2[0]] + t2;
    }
  }

  /** The natural order on integers, the closure `|x, y| x < y`. */
  predicate IntLess(x: int, y: int) {
    x < y
  }

  /** `<` on integers is a strict total order. */
  lemma IntLessTotalOrder()
    ensures StrictWeakOrder(IntLess) && Total(IntLess)
  {
  }
}
