/**
 * Generic binary search over a sorted array (leetcode/core/binsearch.c),
 * with the elements taken as integers and the comparator as their order.
 */
module BinSearch {
  predicate Sorted(s: seq<int>)
  {
    forall i, j :: 0 <= i < j < |s| ==> s[i] <= s[j]
  }

  /**
   * The element the source compares at index `i`: inside the array its
   * value, and at index |a| (one past the end) whatever the memory there
   * holds, given as `beyond`.
   */
  function Cell(a: seq<int>, beyond: int, i: int): (v: int)
    requires 0 <= i <= |a|
    ensures i < |a| ==> v == a[i]
  {
    if i < |a| then a[i] else beyond
  }

  /**
   * The loop as written: `end` starts at `array + size` rather than at the
   * last element, so the range searched is [begin, end] over index |a| too.
   */
  function SearchAsWritten(a: seq<int>, beyond: int, value: int, begin: int, end: int): (r: int)
    requires 0 <= begin && end <= |a| && -1 <= end
    ensures r == -1 || (begin <= r <= end && Cell(a, beyond, r) == value)
    decreases end - begin + 1
  {
    if begin > end then -1
    else
      var mid := begin + (end - begin) / 2;
      if Cell(a, beyond, mid) == value then mid
      else if Cell(a, beyond, mid) < value then SearchAsWritten(a, beyond, value, mid + 1, end)
      else SearchAsWritten(a, beyond, value, begin, mid - 1)
  }

  /**
   * Searching [1] for 2 reaches index 1, past the end, and when the memory
   * there happens to hold 2 the search reports index 1 of a one-element array.
   */
  lemma OnePastTheEndAsWritten()
    ensures SearchAsWritten([1], 2, 2, 0, 1) == 1
  {
  }

  /**
   * binsearch with `end` starting at the last element: -1 exactly when the
   * value is absent, otherwise an index holding it.
   */
  method Search(a: seq<int>, value: int) returns (r: int)
    requires Sorted(a)
    ensures -1 <= r < |a|
    ensures r == -1 <==> value !in a
    ensures r >= 0 ==> a[r] == value
  {
    var begin := 0;
    var end := |a| - 1;
    while begin <= end
      invariant 0 <= begin <= |a| && -1 <= end < |a|
      invariant forall i :: 0 <= i < begin ==> a[i] < value
      invariant forall i :: end < i < |a| ==> a[i] > value
      decreases end - begin
    {
      var mid := begin + (end - begin) / 2;
      if a[mid] == value {
        return mid;
      }
      if a[mid] < value {
        begin := mid + 1;
      } else {
        end := mid - 1;
      }
    }
    return -1;
  }
}
