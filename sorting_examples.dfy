/** The test vectors of src/sorting.rs, with the results the tests expect,
    and the record type `Data` the stability tests use. Every expected
    result follows from the sorts' contracts: under a total order, or when
    the expected result has no ties, there is only one sorted permutation.

    Sorting the records by key alone, which the tests do not do, shows the
    difference between the stable sorts and `insertion_sort`, which
    reverses equal keys. */
module SortingExamples {
  import opened Comparators
  import opened Sorting

  /** The closure `|x, y| x > y`, which sorts descending. */
  predicate IntGreater(x: int, y: int) {
    x > y
  }

  lemma IntGreaterTotalOrder()
    ensures StrictWeakOrder(IntGreater) && Total(IntGreater)
  {
  }

  /** The test record: a key and the satellite data that rides along. */
  datatype Data = Data(key: int, satellite: int)

  /** `<` on `Data` as `#[derive(PartialOrd, Ord)]` defines it: by key,
      then by satellite data. It is total, so it cannot tell a stable sort
      from an unstable one. */
  predicate DataLess(x: Data, y: Data) {
    x.key < y.key || (x.key == y.key && x.satellite < y.satellite)
  }

  lemma DataLessTotalOrder()
    ensures StrictWeakOrder(DataLess) && Total(DataLess)
  {
  }

  /** Comparing keys only, the comparator under which stability shows. */
  predicate ByKey(x: Data, y: Data) {
    x.key < y.key
  }

  lemma ByKeyStrictWeakOrder()
    ensures StrictWeakOrder(ByKey)
  {
  }

  function SampleData(): seq<Data> {
    [Data(1, 1), Data(2, 2), Data(3, 4), Data(2, 3), Data(3, 5)]
  }

  function SortedSampleData(): seq<Data> {
    [Data(1, 1), Data(2, 2), Data(2, 3), Data(3, 4), Data(3, 5)]
  }

  /** The comparator of the string tests, `|x, y| x.len() < y.len()`.
      Strings of equal length are equivalent, so it is not total. */
  predicate LenLess(x: string, y: string) {
    |x| < |y|
  }

  lemma LenLessStrictWeakOrder()
    ensures StrictWeakOrder(LenLess)
  {
  }

  /** What `insertion_sort` as written leaves of the sample records under
      `ByKey`: every pair of equal keys comes out in reverse. */
  function ReversedTiesSampleData(): seq<Data> {
    [Data(1, 1), Data(2, 3), Data(2, 2), Data(3, 5), Data(3, 4)]
  }

  // Facts about the literal vectors alone, each computed on its own.

  lemma AscendingStrict()
    ensures StrictlySortedBy(IntLess, [1, 2, 3, 4, 5])
  {
  }

  lemma DescendingStrict()
    ensures StrictlySortedBy(IntGreater, [5, 4, 3, 2, 1])
  {
  }

  lemma ReversedBag()
    ensures multiset([5, 4, 3, 2, 1]) == multiset([1, 2, 3, 4, 5])
  {
  }

  lemma DuplicatesSorted()
    ensures SortedBy(IntLess, [1, 1, 2, 2, 3, 3, 4, 4, 5, 5])
  {
  }

  lemma DuplicatesBag()
    ensures multiset([1, 2, 3, 4, 5, 5, 4, 3, 2, 1]) == multiset{1, 1, 2, 2, 3, 3, 4, 4, 5, 5}
  {
  }

  lemma SortedDuplicatesBag()
    ensures multiset([1, 1, 2, 2, 3, 3, 4, 4, 5, 5]) == multiset{1, 1, 2, 2, 3, 3, 4, 4, 5, 5}
  {
  }

  lemma SampleStrict()
    ensures StrictlySortedBy(DataLess, SortedSampleData())
  {
  }

  lemma SampleBag()
    ensures multiset(SortedSampleData()) == multiset(SampleData())
  {
  }

  lemma SampleByKey()
    ensures SortedBy(ByKey, SortedSampleData())
  {
  }

  lemma ReversedTiesByKey()
    ensures SortedBy(ByKey, ReversedTiesSampleData())
  {
  }

  lemma ReversedTiesBag()
    ensures multiset(ReversedTiesSampleData()) == multiset(SampleData())
  {
  }

  lemma LengthsStrict()
    ensures StrictlySortedBy(LenLess, ["a", "ab", "abc", "abcd", "abcde"])
  {
  }

  lemma LengthsBag()
    ensures multiset(["a", "ab", "abc", "abcd", "abcde"]) == multiset(["abcde", "abcd", "abc", "ab", "a"])
  {
  }

  /** The records with key 2 and with key 3 are the ties of the sample:
      the stable result keeps each pair in its input order. */
  lemma SamplePeersKept(x: Data)
    ensures Peers(ByKey, SortedSampleData(), x) == Peers(ByKey, SampleData(), x)
  {
    if x.key == 1 {
      assert Peers(ByKey, SampleData(), x) == [Data(1, 1)];
    } else if x.key == 2 {
      assert Peers(ByKey, SampleData(), x) == [Data(2, 2), Data(2, 3)];
    } else if x.key == 3 {
      assert Peers(ByKey, SampleData(), x) == [Data(3, 4), Data(3, 5)];
    } else {
      assert Peers(ByKey, SampleData(), x) == [];
    }
  }

  /** ... and the result with reversed ties turns each pair round. */
  lemma SamplePeersReversed(x: Data)
    ensures Peers(ByKey, ReversedTiesSampleData(), x) == Reverse(Peers(ByKey, SampleData(), x))
  {
    var p := Peers(ByKey, SampleData(), x);
    if x.key == 1 {
      assert p == [Data(1, 1)];
      assert Reverse(p) == p;
    } else if x.key == 2 {
      assert p == [Data(2, 2), Data(2, 3)];
      assert Reverse(p) == [Data(2, 3), Data(2, 2)];
    } else if x.key == 3 {
      assert p == [Data(3, 4), Data(3, 5)];
      assert Reverse(p) == [Data(3, 5), Data(3, 4)];
    } else {
      assert p == [];
    }
  }

  /** ... and turning the pairs round once more gives the stable result. */
  lemma SortedPeersReversed(x: Data)
    ensures Peers(ByKey, SortedSampleData(), x) == Reverse(Peers(ByKey, ReversedTiesSampleData(), x))
  {
    var p := Peers(ByKey, ReversedTiesSampleData(), x);
    if x.key == 1 {
      assert p == [Data(1, 1)];
      assert Reverse(p) == p;
    } else if x.key == 2 {
      assert p == [Data(2, 3), Data(2, 2)];
      assert Reverse(p) == [Data(2, 2), Data(2, 3)];
    } else if x.key == 3 {
      assert p == [Data(3, 5), Data(3, 4)];
      assert Reverse(p) == [Data(3, 4), Data(3, 5)];
    } else {
      assert p == [];
    }
  }

  /** Reversing the ties of the sample is not stable: the two records with
      key 2 trade places. */
  lemma ReversedTiesNotStable()
    ensures ReversedTiesSampleData() != SortedSampleData()
    ensures !Stable(ByKey, SampleData(), ReversedTiesSampleData())
  {
    assert ReversedTiesSampleData()[1] != SortedSampleData()[1];
    var x := Data(2, 2);
    SamplePeersReversed(x);
    var p := Peers(ByKey, SampleData(), x);
    assert p == [Data(2, 2), Data(2, 3)];
    assert Reverse(p) == [Data(2, 3), Data(2, 2)];
    assert Peers(ByKey, ReversedTiesSampleData(), x) != p;
  }

  // What each test expects, as the only output a correct sort can give:
  // the expected vector is the one sorted (and, where it says so, stable)
  // permutation of the input.

  /** `[5, 4, 3, 2, 1]` sorted ascending is `[1, 2, 3, 4, 5]`. */
  lemma ReversedVector(r: seq<int>)
    requires SortedBy(IntLess, r) && multiset(r) == multiset([5, 4, 3, 2, 1])
    ensures r == [1, 2, 3, 4, 5]
  {
    AscendingStrict();
    ReversedBag();
    StrictlySortedUnique(IntLess, r, [1, 2, 3, 4, 5]);
  }

  /** `[1, 2, 3, 4, 5]` sorted ascending is itself. */
  lemma AscendingVector(r: seq<int>)
    requires SortedBy(IntLess, r) && multiset(r) == multiset([1, 2, 3, 4, 5])
    ensures r == [1, 2, 3, 4, 5]
  {
    AscendingStrict();
    StrictlySortedUnique(IntLess, r, [1, 2, 3, 4, 5]);
  }

  /** `[1, 2, 3, 4, 5]` sorted by `>` is `[5, 4, 3, 2, 1]`. */
  lemma DescendingVector(r: seq<int>)
    requires SortedBy(IntGreater, r) && multiset(r) == multiset([1, 2, 3, 4, 5])
    ensures r == [5, 4, 3, 2, 1]
  {
    DescendingStrict();
    ReversedBag();
    StrictlySortedUnique(IntGreater, r, [5, 4, 3, 2, 1]);
  }

  /** `[1, 2, 3, 4, 5, 5, 4, 3, 2, 1]` sorted ascending keeps both copies
      of every value, side by side. */
  lemma DuplicatesVector(r: seq<int>)
    requires SortedBy(IntLess, r) && multiset(r) == multiset([1, 2, 3, 4, 5, 5, 4, 3, 2, 1])
    ensures r == [1, 1, 2, 2, 3, 3, 4, 4, 5, 5]
  {
    DuplicatesSorted();
    DuplicatesBag();
    SortedDuplicatesBag();
    IntLessTotalOrder();
    SortedPermutationUnique(IntLess, r, [1, 1, 2, 2, 3, 3, 4, 4, 5, 5]);
  }

  /** The sample records sorted by the derived order are
      `sorted_sample_data()`, whether or not the sort is stable. */
  lemma SampleDataVector(r: seq<Data>)
    requires SortedBy(DataLess, r) && multiset(r) == multiset(SampleData())
    ensures r == SortedSampleData()
  {
    SampleStrict();
    SampleBag();
    StrictlySortedUnique(DataLess, r, SortedSampleData());
  }

  /** The five strings sorted by length, though the comparator is not
      total: their lengths differ, so only one order is sorted. */
  lemma LengthsVector(r: seq<string>)
    requires SortedBy(LenLess, r) && multiset(r) == multiset(["abcde", "abcd", "abc", "ab", "a"])
    ensures r == ["a", "ab", "abc", "abcd", "abcde"]
  {
    LengthsStrict();
    LengthsBag();
    StrictlySortedUnique(LenLess, r, ["a", "ab", "abc", "abcd", "abcde"]);
  }

  /** Sorted by key alone, a stable sort must still give
      `sorted_sample_data()`: the test that tells stability apart. */
  lemma StableByKeyVector(r: seq<Data>)
    requires SortedBy(ByKey, r) && multiset(r) == multiset(SampleData())
    requires Stable(ByKey, SampleData(), r)
    ensures r == SortedSampleData()
  {
    ByKeyStrictWeakOrder();
    SampleByKey();
    SampleBag();
    forall x ensures Peers(ByKey, r, x) == Peers(ByKey, SortedSampleData(), x) {
      SamplePeersKept(x);
    }
    SortedStableUnique(ByKey, r, SortedSampleData());
  }

  /** Sorted by key alone, a sort that reverses ties, as `insertion_sort`
      does, gives a different result from `sorted_sample_data()`. */
  lemma ReversedTiesByKeyVector(r: seq<Data>)
    requires SortedBy(ByKey, r) && multiset(r) == multiset(SampleData())
    requires forall x :: Peers(ByKey, r, x) == Reverse(Peers(ByKey, SampleData(), x))
    ensures r == ReversedTiesSampleData()
  {
    ByKeyStrictWeakOrder();
    ReversedTiesByKey();
    ReversedTiesBag();
    forall x ensures Peers(ByKey, r, x) == Peers(ByKey, ReversedTiesSampleData(), x) {
      SamplePeersReversed(x);
    }
    SortedStableUnique(ByKey, r, ReversedTiesSampleData());
  }

  /** Sorting the reversed-ties result by key once more with a sort that
      reverses ties turns them back: such a sort is not idempotent. */
  lemma ReversedTiesResortedVector(r: seq<Data>)
    requires SortedBy(ByKey, r) && multiset(r) == multiset(ReversedTiesSampleData())
    requires forall x :: Peers(ByKey, r, x) == Reverse(Peers(ByKey, ReversedTiesSampleData(), x))
    ensures r == SortedSampleData()
  {
    ByKeyStrictWeakOrder();
    SampleByKey();
    SampleBag();
    ReversedTiesBag();
    forall x ensures Peers(ByKey, r, x) == Peers(ByKey, SortedSampleData(), x) {
      SortedPeersReversed(x);
    }
    SortedStableUnique(ByKey, r, SortedSampleData());
  }

  /** A fresh array holding `s`, as `vec![...]` builds one. */
  method FromSeq<T>(s: seq<T>) returns (a: array<T>)
    ensures fresh(a) && a[..] == s
  {
    a := new T[|s|](i requires 0 <= i < |s| => s[i]);
  }

  // The tests of src/sorting.rs, one method per sort: each runs the sort
  // on fresh arrays holding the test inputs and returns what it left.

  /** `test_bubble_sort`, on the integer vectors. */
  method BubbleSortTests() returns (up: seq<int>, dups: seq<int>, down: seq<int>)
    ensures up == [1, 2, 3, 4, 5] && dups == [1, 1, 2, 2, 3, 3, 4, 4, 5, 5] && down == [5, 4, 3, 2, 1]
  {
    IntLessTotalOrder();
    IntGreaterTotalOrder();
    var a := FromSeq([5, 4, 3, 2, 1]);
    BubbleSort(a, IntLess);
    ReversedVector(a[..]);
    up := a[..];
    var b := FromSeq([1, 2, 3, 4, 5, 5, 4, 3, 2, 1]);
    BubbleSort(b, IntLess);
    DuplicatesVector(b[..]);
    dups := b[..];
    var c := FromSeq([1, 2, 3, 4, 5]);
    BubbleSort(c, IntGreater);
    DescendingVector(c[..]);
    down := c[..];
  }

  /** The record and string vectors of `test_bubble_sort`, plus the sample
      records sorted by key alone, which only a stable sort puts in
      `sorted_sample_data()` order. */
  method BubbleSortRecordTests() returns (data: seq<Data>, byKey: seq<Data>, lengths: seq<string>)
    ensures data == SortedSampleData() && byKey == SortedSampleData()
    ensures lengths == ["a", "ab", "abc", "abcd", "abcde"]
  {
    DataLessTotalOrder();
    ByKeyStrictWeakOrder();
    LenLessStrictWeakOrder();
    var d := FromSeq(SampleData());
    BubbleSort(d, DataLess);
    SampleDataVector(d[..]);
    data := d[..];
    var e := FromSeq(SampleData());
    BubbleSort(e, ByKey);
    StableByKeyVector(e[..]);
    byKey := e[..];
    var f := FromSeq(["abcde", "abcd", "abc", "ab", "a"]);
    BubbleSort(f, LenLess);
    LengthsVector(f[..]);
    lengths := f[..];
  }

  /** `test_insertion_sort`, on the integer vectors. */
  method InsertionSortTests() returns (up: seq<int>, dups: seq<int>, down: seq<int>)
    ensures up == [1, 2, 3, 4, 5] && dups == [1, 1, 2, 2, 3, 3, 4, 4, 5, 5] && down == [5, 4, 3, 2, 1]
  {
    IntLessTotalOrder();
    IntGreaterTotalOrder();
    var a := FromSeq([5, 4, 3, 2, 1]);
    InsertionSort(a, IntLess);
    ReversedVector(a[..]);
    up := a[..];
    var b := FromSeq([1, 2, 3, 4, 5, 5, 4, 3, 2, 1]);
    InsertionSort(b, IntLess);
    DuplicatesVector(b[..]);
    dups := b[..];
    var c := FromSeq([1, 2, 3, 4, 5]);
    InsertionSort(c, IntGreater);
    DescendingVector(c[..]);
    down := c[..];
  }

  /** The record and string vectors of `test_insertion_sort`, plus the
      sample records sorted by key alone: there the equal keys come out
      reversed, so the result is not `sorted_sample_data()`. */
  method InsertionSortRecordTests() returns (data: seq<Data>, byKey: seq<Data>, lengths: seq<string>)
    ensures data == SortedSampleData() && byKey == ReversedTiesSampleData()
    ensures byKey != SortedSampleData() && !Stable(ByKey, SampleData(), byKey)
    ensures lengths == ["a", "ab", "abc", "abcd", "abcde"]
  {
    DataLessTotalOrder();
    ByKeyStrictWeakOrder();
    LenLessStrictWeakOrder();
    var d := FromSeq(SampleData());
    InsertionSort(d, DataLess);
    SampleDataVector(d[..]);
    data := d[..];
    var e := FromSeq(SampleData());
    InsertionSort(e, ByKey);
    ReversedTiesByKeyVector(e[..]);
    byKey := e[..];
    ReversedTiesNotStable();
    var f := FromSeq(["abcde", "abcd", "abc", "ab", "a"]);
    InsertionSort(f, LenLess);
    LengthsVector(f[..]);
    lengths := f[..];
  }

  /** Insertion sort as written, run twice on the sample records by key
      alone: the second run turns the ties round again, so the result of
      sorting twice differs from the result of sorting once. */
  method InsertionSortTwiceTests() returns (once: seq<Data>, twice: seq<Data>)
    ensures once == ReversedTiesSampleData() && twice == SortedSampleData()
    ensures twice != once
  {
    ByKeyStrictWeakOrder();
    var e := FromSeq(SampleData());
    InsertionSort(e, ByKey);
    ReversedTiesByKeyVector(e[..]);
    once := e[..];
    InsertionSort(e, ByKey);
    ReversedTiesResortedVector(e[..]);
    twice := e[..];
    ReversedTiesNotStable();
  }

  /** `test_insertion_sort` run on the corrected insertion sort, on the
      integer vectors. */
  method StableInsertionSortTests() returns (up: seq<int>, dups: seq<int>, down: seq<int>)
    ensures up == [1, 2, 3, 4, 5] && dups == [1, 1, 2, 2, 3, 3, 4, 4, 5, 5] && down == [5, 4, 3, 2, 1]
  {
    IntLessTotalOrder();
    IntGreaterTotalOrder();
    var a := FromSeq([5, 4, 3, 2, 1]);
    StableInsertionSort(a, IntLess);
    ReversedVector(a[..]);
    up := a[..];
    var b := FromSeq([1, 2, 3, 4, 5, 5, 4, 3, 2, 1]);
    StableInsertionSort(b, IntLess);
    DuplicatesVector(b[..]);
    dups := b[..];
    var c := FromSeq([1, 2, 3, 4, 5]);
    StableInsertionSort(c, IntGreater);
    DescendingVector(c[..]);
    down := c[..];
  }

  /** The record and string vectors of `test_insertion_sort` run on the
      corrected insertion sort, which also gives `sorted_sample_data()`
      when sorting by key alone. */
  method StableInsertionSortRecordTests() returns (data: seq<Data>, byKey: seq<Data>, lengths: seq<string>)
    ensures data == SortedSampleData() && byKey == SortedSampleData()
    ensures lengths == ["a", "ab", "abc", "abcd", "abcde"]
  {
    DataLessTotalOrder();
    ByKeyStrictWeakOrder();
    LenLessStrictWeakOrder();
    var d := FromSeq(SampleData());
    StableInsertionSort(d, DataLess);
    SampleDataVector(d[..]);
    data := d[..];
    var e := FromSeq(SampleData());
    StableInsertionSort(e, ByKey);
    StableByKeyVector(e[..]);
    byKey := e[..];
    var f := FromSeq(["abcde", "abcd", "abc", "ab", "a"]);
    StableInsertionSort(f, LenLess);
    LengthsVector(f[..]);
    lengths := f[..];
  }

  /** `test_selection_sort`. */
  method SelectionSortTests() returns (up: seq<int>, dups: seq<int>, same: seq<int>)
    ensures up == [1, 2, 3, 4, 5] && dups == [1, 1, 2, 2, 3, 3, 4, 4, 5, 5] && same == [1, 2, 3, 4, 5]
  {
    var a := FromSeq([5, 4, 3, 2, 1]);
    SelectionSort(a);
    ReversedVector(a[..]);
    up := a[..];
    var b := FromSeq([1, 2, 3, 4, 5, 5, 4, 3, 2, 1]);
    SelectionSort(b);
    DuplicatesVector(b[..]);
    dups := b[..];
    var c := FromSeq([1, 2, 3, 4, 5]);
    SelectionSort(c);
    AscendingVector(c[..]);
    same := c[..];
  }

  /** `test_merge_sort`, on the integer vectors. */
  method MergeSortTests() returns (up: seq<int>, dups: seq<int>, down: seq<int>)
    ensures up == [1, 2, 3, 4, 5] && dups == [1, 1, 2, 2, 3, 3, 4, 4, 5, 5] && down == [5, 4, 3, 2, 1]
  {
    IntLessTotalOrder();
    IntGreaterTotalOrder();
    var a := FromSeq([5, 4, 3, 2, 1]);
    MergeSort(a, IntLess);
    ReversedVector(a[..]);
    up := a[..];
    var b := FromSeq([1, 2, 3, 4, 5, 5, 4, 3, 2, 1]);
    MergeSort(b, IntLess);
    DuplicatesVector(b[..]);
    dups := b[..];
    var c := FromSeq([1, 2, 3, 4, 5]);
    MergeSort(c, IntGreater);
    DescendingVector(c[..]);
    down := c[..];
  }

  /** The record and string vectors of `test_merge_sort`, plus the sample
      records sorted by key alone, which the stable merge sort puts in
      `sorted_sample_data()` order. */
  method MergeSortRecordTests() returns (data: seq<Data>, byKey: seq<Data>, lengths: seq<string>)
    ensures data == SortedSampleData() && byKey == SortedSampleData()
    ensures lengths == ["a", "ab", "abc", "abcd", "abcde"]
  {
    DataLessTotalOrder();
    ByKeyStrictWeakOrder();
    LenLessStrictWeakOrder();
    var d := FromSeq(SampleData());
    MergeSort(d, DataLess);
    SampleDataVector(d[..]);
    data := d[..];
    var e := FromSeq(SampleData());
    MergeSort(e, ByKey);
    StableByKeyVector(e[..]);
    byKey := e[..];
    var f := FromSeq(["abcde", "abcd", "abc", "ab", "a"]);
    MergeSort(f, LenLess);
    LengthsVector(f[..]);
    lengths := f[..];
  }

  /** `test_quick_sort`, on the integer vectors. */
  method QuickSortTests() returns (up: seq<int>, dups: seq<int>, down: seq<int>)
    ensures up == [1, 2, 3, 4, 5] && dups == [1, 1, 2, 2, 3, 3, 4, 4, 5, 5] && down == [5, 4, 3, 2, 1]
  {
    IntLessTotalOrder();
    IntGreaterTotalOrder();
    var a := FromSeq([5, 4, 3, 2, 1]);
    QuickSort(a, IntLess);
    ReversedVector(a[..]);
    up := a[..];
    var b := FromSeq([1, 2, 3, 4, 5, 5, 4, 3, 2, 1]);
    QuickSort(b, IntLess);
    DuplicatesVector(b[..]);
    dups := b[..];
    var c := FromSeq([1, 2, 3, 4, 5]);
    QuickSort(c, IntGreater);
    DescendingVector(c[..]);
    down := c[..];
  }

  /** The record and string vectors of `test_quick_sort`. Quick sort is
      not stable, so nothing is claimed for the records sorted by key
      alone. */
  method QuickSortRecordTests() returns (data: seq<Data>, lengths: seq<string>)
    ensures data == SortedSampleData()
    ensures lengths == ["a", "ab", "abc", "abcd", "abcde"]
  {
    DataLessTotalOrder();
    ByKeyStrictWeakOrder();
    LenLessStrictWeakOrder();
    var d := FromSeq(SampleData());
    QuickSort(d, DataLess);
    SampleDataVector(d[..]);
    data := d[..];
    var f := FromSeq(["abcde", "abcd", "abc", "ab", "a"]);
    QuickSort(f, LenLess);
    LengthsVector(f[..]);
    lengths := f[..];
  }
}
