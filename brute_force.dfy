/** Sort the array in place, then walk back from the end to the first value
    that differs from the maximum. */
module BruteForce {
  import opened Wrappers
  import opened SecondLargestSpec

  predicate Ascending(s: seq<int32>)
  {
    forall p, q :: 0 <= p < q < |s| ==> s[p] <= s[q]
  }

  /** The position of a smallest element of `a[from..]`. */
  method MinIndex(a: array<int32>, from: int) returns (m: int)
    requires 0 <= from < a.Length
    ensures from <= m < a.Length
    ensures forall q :: from <= q < a.Length ==> a[m] <= a[q]
  {
    m := from;
    for j := from + 1 to a.Length
      invariant from <= m < a.Length
      invariant forall q :: from <= q < j ==> a[m] <= a[q]
    {
      if a[j] < a[m] {
        m := j;
      }
    }
  }

  /** Exchanges `a[i]` and `a[j]`. */
  method Swap(a: array<int32>, i: int, j: int)
    requires 0 <= i < a.Length && 0 <= j < a.Length
    modifies a
    ensures a[i] == old(a[j]) && a[j] == old(a[i])
    ensures forall k :: 0 <= k < a.Length && k != i && k != j ==> a[k] == old(a[k])
    ensures multiset(a[..]) == old(multiset(a[..]))
  {
    a[i], a[j] := a[j], a[i];
  }

  /** Sorts `a` into ascending order, keeping its elements; stands in for
      `Arrays.sort` on an `int[]` (a selection sort). */
  method SortAscending(a: array<int32>)
    modifies a
    ensures Ascending(a[..])
    ensures multiset(a[..]) == old(multiset(a[..]))
  {
    for i := 0 to a.Length
      invariant multiset(a[..]) == old(multiset(a[..]))
      invariant forall p, q :: 0 <= p < q < i ==> a[p] <= a[q]
      invariant forall p, q :: 0 <= p < i <= q < a.Length ==> a[p] <= a[q]
    {
      var m := MinIndex(a, i);
      Swap(a, i, m);
    }
  }

  /** In a sorted permutation of `orig`, the value just before the run of
      maximal values at the end is the second largest value of `orig`. */
  lemma SortedScanFinds(orig: seq<int32>, s: seq<int32>, i: int)
    requires multiset(s) == multiset(orig) && Ascending(s)
    requires 0 <= i < |s| - 1 && s[i] != s[i + 1]
    requires forall j :: i < j < |s| ==> s[j] == s[|s| - 1]
    ensures SecondLargest(orig) == Some(s[i])
  {
    var n := |s|;
    assert forall x :: x in orig <==> x in s by {
      forall x ensures x in orig <==> x in s {
        assert x in orig <==> multiset(orig)[x] > 0;
        assert x in s <==> multiset(s)[x] > 0;
      }
    }
    assert forall x :: x in s ==> x <= s[n - 1];
    LargestIs(orig, s[n - 1]);
    forall x | x in orig && x < s[n - 1] ensures x <= s[i] {
      var k :| 0 <= k < n && s[k] == x;
      assert s[k] < s[n - 1];
      assert k <= i;
    }
    assert s[i] < s[i + 1];
    MaxBelowIs(orig, s[n - 1], s[i]);
  }

  /** If a sorted permutation of `orig` holds a single value, `orig` has no
      second largest value. */
  lemma SortedScanFindsNone(orig: seq<int32>, s: seq<int32>)
    requires multiset(s) == multiset(orig) && |s| > 0
    requires forall j :: 0 <= j < |s| ==> s[j] == s[|s| - 1]
    ensures SecondLargest(orig) == None
  {
    forall x | x in orig ensures x == s[|s| - 1] {
      assert multiset(orig)[x] > 0;
      assert x in s;
    }
    assert orig != [] by {
      assert s[0] in multiset(s);
    }
    forall j | 0 <= j < |orig| ensures orig[j] == orig[0] {
      assert orig[j] in orig && orig[0] in orig;
    }
    NoSecondLargest(orig);
  }

  /** Sorts `nums` (when it has two elements or more) and returns the second
      largest distinct value, or -1. */
  method FindSecondLargest(nums: array<int32>) returns (r: int32)
    modifies nums
    ensures r == ExactAnswer(old(nums[..]))
    ensures nums.Length < 2 ==> nums[..] == old(nums[..])
    ensures nums.Length >= 2 ==> Ascending(nums[..]) && multiset(nums[..]) == multiset(old(nums[..]))
  {
    if nums.Length < 2 {
      NoSecondLargest(nums[..]);
      return -1;
    }
    SortAscending(nums);
    var n := nums.Length;
    var i := n - 2;
    while i >= 0
      invariant -1 <= i <= n - 2
      invariant forall j :: i < j < n ==> nums[j] == nums[n - 1]
    {
      if nums[i] != nums[i + 1] {
        SortedScanFinds(old(nums[..]), nums[..], i);
        return nums[i];
      }
      i := i - 1;
    }
    SortedScanFindsNone(old(nums[..]), nums[..]);
    return -1;
  }
}
