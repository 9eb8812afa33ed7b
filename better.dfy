/** One pass over the distinct values, remembering the two largest seen so
    far (`null` for "not yet"). */
module Better {
  import opened Wrappers
  import opened SecondLargestSpec

  method FindSecondLargest(arr: array<int32>) returns (r: int32)
    ensures r == ExactAnswer(arr[..])
  {
    var seen: set<int32> := {};
    var largest: Option<int32> := None;
    var secondLargest: Option<int32> := None;
    for i := 0 to arr.Length
      invariant forall x :: x in seen <==> x in arr[..i]
      invariant largest.None? <==> i == 0
      invariant largest.Some? ==> i > 0 && largest.value == Largest(arr[..i])
      invariant secondLargest == SecondLargest(arr[..i])
    {
      var num := arr[i];
      assert arr[..i + 1] == arr[..i] + [num];
      if num in seen {
        // `seen.add(num)` returned false: a repeated value changes nothing.
        AppendSeen(arr[..i], num);
        continue;
      }
      seen := seen + {num};
      if largest.None? || num > largest.value {
        if largest.None? {
          assert arr[..i + 1] == [num];
          NoSecondLargest([num]);
        } else {
          AppendAbove(arr[..i], num);
        }
        secondLargest := largest;
        largest := Some(num);
      } else {
        AppendBelow(arr[..i], num);
        if secondLargest.None? || num > secondLargest.value {
          secondLargest := Some(num);
        }
      }
    }
    assert arr[..arr.Length] == arr[..];
    r := if secondLargest.None? then -1 else secondLargest.value;
  }
}
