/**
 * Search-insert position in a sorted array (leetcode/problems/35.c): the
 * index of the target when present, otherwise the index it would be
 * inserted at to keep the array sorted.
 */
module SearchInsert {
  predicate Sorted(s: seq<int>)
  {
    forall i, j :: 0 <= i < j < |s| ==> s[i] <= s[j]
  }

  /** Where `target` belongs in `s`: everything before is smaller, everything from there on larger. */
  predicate InsertionPoint(s: seq<int>, target: int, r: int)
  {
    0 <= r <= |s| &&
    (forall i :: 0 <= i < r ==> s[i] < target) &&
    (forall i :: r <= i < |s| ==> s[i] > target)
  }

  /**
   * searchInsert. The source reads `nums[mid]` after the loop, so it needs
   * at least one element.
   */
  method SearchInsert(nums: seq<int>, target: int) returns (r: int)
    requires |nums| >= 1 && Sorted(nums)
    ensures 0 <= r <= |nums|
    ensures target in nums ==> r < |nums| && nums[r] == target
    ensures target !in nums ==> InsertionPoint(nums, target, r)
  {
    var begin := 0;
    var mid := 0;
    var end := |nums| - 1;
    while begin <= end
      invariant 0 <= begin <= |nums| && -1 <= end < |nums| && 0 <= mid < |nums|
      invariant begin <= end + 1
      invariant forall i :: 0 <= i < begin ==> nums[i] < target
      invariant forall i :: end < i < |nums| ==> nums[i] > target
      invariant (begin == 0 && end == |nums| - 1)
        || (begin == mid + 1 && nums[mid] < target)
        || (end == mid - 1 && nums[mid] > target)
      decreases end - begin
    {
      mid := (end + begin) / 2;
      if nums[mid] == target {
        return mid;
      }
      if nums[mid] < target {
        begin := mid + 1;
      } else {
        end := mid - 1;
      }
    }
    r := if nums[mid] > target then mid else mid + 1;
    assert r == begin;
  }

  /** The insertion point is unique, so the answers expected by the source's tests are forced. */
  lemma {:induction false} InsertionPointUnique(s: seq<int>, target: int, r1: int, r2: int)
    requires InsertionPoint(s, target, r1) && InsertionPoint(s, target, r2)
    ensures r1 == r2
  {
    // Nothing larger than the target sits before either point.
    assert forall i :: 0 <= i < |s| && s[i] > target ==> r1 <= i && r2 <= i;
    assert r2 < |s| ==> s[r2] > target;
    assert r1 < |s| ==> s[r1] > target;
  }

  /** The source's tests on [1, 3, 5, 6]: 2 goes to 1, 7 to 4 and 0 to 0. */
  lemma KnownInsertionPoints()
    ensures InsertionPoint([1, 3, 5, 6], 2, 1)
    ensures InsertionPoint([1, 3, 5, 6], 7, 4)
    ensures InsertionPoint([1, 3, 5, 6], 0, 0)
  {
  }
}
