/**
 * Sums of contiguous windows of an integer array, the specification shared
 * by the sliding-window kernels (leetcode/core/sliding_window.c and
 * leetcode/problems/643.c).
 */
module WindowSums {
  /** The sum of `a[lo..hi]`, built up from the right end. */
  function Sum(a: seq<int>, lo: int, hi: int): (r: int)
    requires 0 <= lo <= hi <= |a|
    ensures lo == hi ==> r == 0
    ensures lo + 1 == hi ==> r == a[lo]
    decreases hi - lo
  {
    if lo == hi then 0 else Sum(a, lo, hi - 1) + a[hi - 1]
  }

  /** Taking the first element off a window. */
  lemma {:induction false} SumFront(a: seq<int>, lo: int, hi: int)
    requires 0 <= lo < hi <= |a|
    ensures Sum(a, lo, hi) == a[lo] + Sum(a, lo + 1, hi)
    decreases hi - lo
  {
    if lo + 1 < hi {
      SumFront(a, lo, hi - 1);
    }
  }

  /** Moving a length-k window one step right: add the new element, drop the old one. */
  lemma Slide(a: seq<int>, lo: int, hi: int)
    requires 0 <= lo < hi < |a|
    ensures Sum(a, lo + 1, hi + 1) == Sum(a, lo, hi) - a[lo] + a[hi]
  {
    SumFront(a, lo, hi);
  }

  predicate NonNegative(a: seq<int>)
  {
    forall i :: 0 <= i < |a| ==> a[i] >= 0
  }

  /** Over non-negative elements a window's sum grows when it extends either way. */
  lemma {:induction false} SumMonotone(a: seq<int>, lo: int, lo': int, hi': int, hi: int)
    requires NonNegative(a) && 0 <= lo <= lo' <= hi' <= hi <= |a|
    ensures Sum(a, lo', hi') <= Sum(a, lo, hi)
    decreases hi - hi' + lo' - lo
  {
    if hi' < hi {
      SumMonotone(a, lo, lo', hi', hi - 1);
    } else if lo < lo' {
      SumFront(a, lo, hi);
      SumMonotone(a, lo + 1, lo', hi', hi);
    }
  }

  /** The sum of the length-k window starting at i. */
  function WindowSum(a: seq<int>, i: int, k: int): (r: int)
    requires 0 <= i && 0 <= k && i + k <= |a|
    ensures k == 1 ==> r == a[i]
  {
    Sum(a, i, i + k)
  }

  /** `m` is the largest sum of a window of length k of `a`, and some such window has it. */
  predicate IsMaxWindowSum(a: seq<int>, k: int, m: int)
    requires 0 <= k <= |a|
  {
    (exists i :: 0 <= i <= |a| - k && WindowSum(a, i, k) == m) &&
    (forall i :: 0 <= i <= |a| - k ==> WindowSum(a, i, k) <= m)
  }

  /** The largest window sum is unique, so a method whose contract gives IsMaxWindowSum is determined. */
  lemma MaxWindowSumUnique(a: seq<int>, k: int, m1: int, m2: int)
    requires 0 <= k <= |a| && IsMaxWindowSum(a, k, m1) && IsMaxWindowSum(a, k, m2)
    ensures m1 == m2
  {
    var i1 :| 0 <= i1 <= |a| - k && WindowSum(a, i1, k) == m1;
    var i2 :| 0 <= i2 <= |a| - k && WindowSum(a, i2, k) == m2;
    assert m1 <= m2 && m2 <= m1;
  }
}
