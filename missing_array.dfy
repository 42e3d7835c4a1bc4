/**
 * MissingArray.missingArraySort: sort an int array in place, then scan it for the first
 * index whose element differs from the index. The printed message becomes the returned index.
 */
module MissingArray {
  import opened Wrappers

  predicate Sorted(s: seq<int>) {
    forall j, k :: 0 <= j < k < |s| ==> s[j] <= s[k]
  }

  /** The position of a smallest element of a[from..]. */
  method IndexOfMin(a: array<int>, from: nat) returns (m: nat)
    requires from < a.Length
    ensures from <= m < a.Length
    ensures forall t :: from <= t < a.Length ==> a[m] <= a[t]
  {
    m := from;
    var k := from + 1;
    while k < a.Length
      invariant from <= m < a.Length && from < k <= a.Length
      invariant forall t :: from <= t < k ==> a[m] <= a[t]
    {
      if a[k] < a[m] {
        m := k;
      }
      k := k + 1;
    }
  }

  /** Exchanges two elements; the array keeps the same multiset of elements. */
  method Swap(a: array<int>, i: nat, j: nat)
    requires i < a.Length && j < a.Length
    modifies a
    ensures a[i] == old(a[j]) && a[j] == old(a[i])
    ensures forall k :: 0 <= k < a.Length && k != i && k != j ==> a[k] == old(a[k])
    ensures multiset(a[..]) == multiset(old(a[..]))
  {
    a[i], a[j] := a[j], a[i];
  }

  /**
   * Arrays.sort(int[]): afterwards the array is in ascending order and holds the same
   * elements. The JDK's algorithm is not part of this model; a selection sort stands in for it,
   * and only its contract is relied on.
   */
  method Sort(a: array<int>)
    modifies a
    ensures Sorted(a[..])
    ensures multiset(a[..]) == multiset(old(a[..]))
  {
    var i := 0;
    while i < a.Length
      invariant 0 <= i <= a.Length
      invariant forall j, k :: 0 <= j < k < i ==> a[j] <= a[k]
      invariant forall j, k :: 0 <= j < i <= k < a.Length ==> a[j] <= a[k]
      invariant multiset(a[..]) == multiset(old(a[..]))
    {
      var m := IndexOfMin(a, i);
      Swap(a, i, m);
      i := i + 1;
    }
  }

  /** The first index at or after `from` whose element differs from the index, if any. */
  function FirstMismatchFrom(s: seq<int>, from: nat): (r: Option<nat>)
    requires from <= |s|
    ensures r.Some? ==> from <= r.value < |s| && s[r.value] != r.value
    ensures r.Some? ==> forall j :: from <= j < r.value ==> s[j] == j
    ensures r.None? <==> forall j :: from <= j < |s| ==> s[j] == j
    decreases |s| - from
  {
    if from == |s| then None
    else if s[from] != from then Some(from)
    else FirstMismatchFrom(s, from + 1)
  }

  /** The smallest index i with s[i] != i, or None when every element equals its index. */
  function FirstMismatch(s: seq<int>): (r: Option<nat>)
    ensures r.Some? ==> r.value < |s| && s[r.value] != r.value
    ensures r.Some? ==> forall j :: 0 <= j < r.value ==> s[j] == j
    ensures r.None? <==> forall j :: 0 <= j < |s| ==> s[j] == j
  {
    FirstMismatchFrom(s, 0)
  }

  /** The scan loop: reads the array, never writes it, and stops at the first mismatch. */
  method FindMismatch(a: array<int>) returns (missing: Option<nat>)
    ensures missing == FirstMismatch(a[..])
  {
    var i := 0;
    while i < a.Length
      invariant 0 <= i <= a.Length
      invariant forall j :: 0 <= j < i ==> a[j] == j
    {
      if a[i] != i {
        return Some(i);
      }
      i := i + 1;
    }
    return None;
  }

  /** missingArraySort on a given array: sort, then report the first index that is off, if any. */
  method MissingArraySort(arr: array<int>) returns (missing: Option<nat>)
    modifies arr
    ensures Sorted(arr[..])
    ensures multiset(arr[..]) == multiset(old(arr[..]))
    ensures missing == FirstMismatch(arr[..])
  {
    Sort(arr);
    missing := FindMismatch(arr);
  }

  /** The only ascending arrangement of {3, 0, 1} is [0, 1, 3]. */
  lemma SortedArrangementOf301(s: seq<int>)
    requires Sorted(s) && multiset(s) == multiset{3, 0, 1}
    ensures s == [0, 1, 3]
  {
    assert |s| == |multiset(s)| == 3;
    forall k | 0 <= k < 3 ensures s[k] in {0, 1, 3} {
      assert s[k] in multiset(s);
    }
    assert 0 in multiset(s);
    var z :| 0 <= z < 3 && s[z] == 0;
    assert s[0] == 0;
    assert 3 in multiset(s);
    var t :| 0 <= t < 3 && s[t] == 3;
    assert s[2] == 3;
    assert s == [0, s[1], 3];
    assert multiset(s) == multiset{0, s[1], 3};
    assert 1 in multiset{0, s[1], 3};
  }

  /** The method as the source runs it, on its hard-coded array {3, 0, 1}: it reports 2. */
  method MissingArraySortDemo() returns (missing: Option<nat>)
    ensures missing == Some(2)
  {
    var arr := new int[3];
    arr[0], arr[1], arr[2] := 3, 0, 1;
    ghost var before := arr[..];
    assert before == [3, 0, 1];
    missing := MissingArraySort(arr);
    assert multiset(arr[..]) == multiset{3, 0, 1};
    SortedArrangementOf301(arr[..]);
    assert FirstMismatch([0, 1, 3]) == Some(2) by {
      assert FirstMismatchFrom([0, 1, 3], 2) == Some(2);
    }
  }

  // ----- the missing number the documentation promises -----

  /** Distinct numbers, each between 0 and the length: one number of 0..n is absent. */
  predicate DistinctUpToLength(s: seq<int>) {
    (forall j, k :: 0 <= j < k < |s| ==> s[j] != s[k])
    && (forall j :: 0 <= j < |s| ==> 0 <= s[j] <= |s|)
  }

  /**
   * The missing number as the documentation describes it: the first index where the sorted
   * element is off, or the length n when every index matches.
   */
  function MissingNumber(sorted: seq<int>): (r: nat)
    ensures r <= |sorted|
    ensures FirstMismatch(sorted).Some? ==> r == FirstMismatch(sorted).value
    ensures FirstMismatch(sorted).None? ==> r == |sorted|
  {
    match FirstMismatch(sorted)
    case Some(i) => i
    case None => |sorted|
  }

  lemma {:induction false} AtLeastIndex(s: seq<int>, i: nat)
    requires Sorted(s) && DistinctUpToLength(s) && i < |s|
    ensures s[i] >= i
  {
    if i > 0 {
      AtLeastIndex(s, i - 1);
    }
  }

  lemma {:induction false} AtMostIndexPlusOne(s: seq<int>, i: nat)
    requires Sorted(s) && DistinctUpToLength(s) && i < |s|
    ensures s[i] <= i + 1
    decreases |s| - i
  {
    if i < |s| - 1 {
      AtMostIndexPlusOne(s, i + 1);
    }
  }

  /** Past an element one above its index, every element stays one above its index. */
  lemma {:induction false} OneAboveFrom(s: seq<int>, i: nat, j: nat)
    requires Sorted(s) && DistinctUpToLength(s) && i <= j < |s|
    requires s[i] == i + 1
    ensures s[j] == j + 1
  {
    if j > i {
      OneAboveFrom(s, i, j - 1);
      AtMostIndexPlusOne(s, j);
    }
  }

  /**
   * On distinct numbers from 0..n, sorted, MissingNumber is the number of 0..n that is absent:
   * it does not occur, and every other number of 0..n does.
   */
  lemma MissingNumberIsAbsent(s: seq<int>)
    requires Sorted(s) && DistinctUpToLength(s)
    ensures 0 <= MissingNumber(s) <= |s|
    ensures MissingNumber(s) !in s
    ensures forall v :: 0 <= v <= |s| && v != MissingNumber(s) ==> v in s
  {
    var m := MissingNumber(s);
    match FirstMismatch(s)
    case None =>
      forall v | 0 <= v <= |s| && v != m ensures v in s {
        assert s[v] == v;
      }
    case Some(i) =>
      AtLeastIndex(s, i);
      AtMostIndexPlusOne(s, i);
      forall j | i < j < |s| ensures s[j] != m {
        assert s[j] > s[i];
      }
      forall v | 0 <= v <= |s| && v != m ensures v in s {
        if v < i {
          assert s[v] == v;
        } else {
          OneAboveFrom(s, i, v - 1);
        }
      }
  }

  /**
   * As written, the scan reports nothing when the absent number is n itself: for {1, 0}
   * (numbers from 0..2, with 2 absent) the sorted array is [0, 1] and no index is off.
   */
  lemma ScanMissesLargestNumber()
    ensures Sorted([0, 1]) && DistinctUpToLength([0, 1])
    ensures FirstMismatch([0, 1]).None?
    ensures MissingNumber([0, 1]) == 2 && 2 !in [0, 1]
  {
  }
}
