/**
 * Maximum average of a length-k subarray (leetcode/problems/643.c), up to
 * its last step: the model returns the integer `max_sum` that the source
 * divides by k as a double.
 */
module MaxAverage {
  import opened WindowSums

  /**
   * findMaxAverage before the division: 0 when the array is shorter than
   * k, otherwise the largest sum of a length-k window.
   */
  method FindMaxAverageSum(nums: seq<int>, k: int) returns (maxSum: int)
    requires k >= 0
    ensures |nums| < k ==> maxSum == 0
    ensures k <= |nums| ==> IsMaxWindowSum(nums, k, maxSum)
  {
    if |nums| < k {
      return 0;
    }
    maxSum := 0;
    for i := 0 to k
      invariant maxSum == Sum(nums, 0, i)
    {
      maxSum := maxSum + nums[i];
    }
    var sum := maxSum;
    ghost var best := 0;
    for i := k to |nums|
      invariant sum == Sum(nums, i - k, i)
      invariant 0 <= best <= i - k && WindowSum(nums, best, k) == maxSum
      invariant forall j :: 0 <= j <= i - k ==> WindowSum(nums, j, k) <= maxSum
    {
      if k > 0 {
        Slide(nums, i - k, i);
      }
      sum := sum - nums[i - k];
      sum := sum + nums[i];
      if maxSum < sum {
        maxSum := sum;
        best := i - k + 1;
      }
    }
  }

  /** The source's tests: 51 for k = 4 (an average of 12.75), and 5 for [5] with k = 1. */
  lemma KnownMaxAverageSums()
    ensures IsMaxWindowSum([1, 12, -5, -6, 50, 3], 4, 51)
    ensures IsMaxWindowSum([5], 1, 5)
  {
    var a := [1, 12, -5, -6, 50, 3];
    assert WindowSum(a, 0, 4) == 2 && WindowSum(a, 1, 4) == 51 && WindowSum(a, 2, 4) == 42;
    assert WindowSum([5], 0, 1) == 5;
  }
}
