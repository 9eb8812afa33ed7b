/** Two passes with `Integer.MIN_VALUE` as the starting value of both the
    maximum and the second maximum. */
module Optimal {
  import opened Wrappers
  import opened SecondLargestSpec

  method FindSecondLargest(nums: array<int32>) returns (r: int32)
    ensures r == SentinelAnswer(nums[..])
  {
    if nums.Length < 2 {
      return -1;
    }
    var largest := MIN_VALUE;
    var secondLargest := MIN_VALUE;
    // First pass: the maximum.
    for i := 0 to nums.Length
      invariant largest == if i == 0 then MIN_VALUE else Largest(nums[..i])
    {
      assert nums[..i + 1] == nums[..i] + [nums[i]];
      if nums[i] > largest {
        largest := nums[i];
      }
    }
    assert nums[..nums.Length] == nums[..];
    // Second pass: the largest value below the maximum, MIN_VALUE if none.
    for i := 0 to nums.Length
      invariant secondLargest == MaxBelow(nums[..i], largest).GetOr(MIN_VALUE)
    {
      assert nums[..i + 1] == nums[..i] + [nums[i]];
      if nums[i] < largest && nums[i] > secondLargest {
        secondLargest := nums[i];
      }
    }
    assert nums[..nums.Length] == nums[..];
    r := if secondLargest == MIN_VALUE then -1 else secondLargest;
  }
}
