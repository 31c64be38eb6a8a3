/**
 * Longest harmonious subsequence (leetcode/problems/594.c): sort the array
 * in place, then slide two indices l <= r over it; the answer is the
 * longest stretch nums[l..r] whose largest and smallest values differ by
 * exactly 1, or 0 when there is none.
 */
module Harmonious {
  predicate Sorted(s: seq<int>)
  {
    forall i, j :: 0 <= i < j < |s| ==> s[i] <= s[j]
  }

  /** The stretch from p to q (both included) of a sorted sequence runs from s[p] to s[q] = s[p] + 1. */
  predicate Harmonious(s: seq<int>, p: int, q: int)
  {
    0 <= p <= q < |s| && s[q] - s[p] == 1
  }

  /**
   * `res` is the length of the longest harmonious stretch ending before r:
   * every such stretch is at most `res` long, and `res` is 0 or the length
   * of one of them.
   */
  ghost predicate LongestBefore(s: seq<int>, r: int, res: int)
  {
    && (forall p, q :: Harmonious(s, p, q) && q < r ==> q - p + 1 <= res)
    && (res == 0 || exists p, q :: Harmonious(s, p, q) && q < r && res == q - p + 1)
  }

  /** Exchange two entries. */
  method Swap(a: array<int>, i: int, j: int)
    requires 0 <= i < a.Length && 0 <= j < a.Length
    modifies a
    ensures a[..] == old(a[..])[i := old(a[j])][j := old(a[i])]
    ensures multiset(a[..]) == multiset(old(a[..]))
  {
    a[i], a[j] := a[j], a[i];
  }

  /**
   * Move a[i] left past every larger entry of the sorted prefix a[..i],
   * so that a[..i + 1] is sorted.
   */
  method InsertAt(a: array<int>, i: int)
    requires 0 <= i < a.Length && Sorted(a[..i])
    modifies a
    ensures Sorted(a[..i + 1]) && a[i + 1..] == old(a[i + 1..])
    ensures multiset(a[..]) == multiset(old(a[..]))
  {
    var j := i;
    while j > 0 && a[j - 1] > a[j]
      invariant 0 <= j <= i
      invariant forall x, y :: 0 <= x < y <= i && y != j ==> a[x] <= a[y]
      invariant 0 < j < i ==> a[j - 1] <= a[j + 1]
      invariant a[i + 1..] == old(a[i + 1..])
      invariant multiset(a[..]) == multiset(old(a[..]))
    {
      Swap(a, j - 1, j);
      j := j - 1;
    }
  }

  /** qsort with the comparator `a - b`: ascending order, the same values. */
  method Sort(a: array<int>)
    modifies a
    ensures Sorted(a[..]) && multiset(a[..]) == multiset(old(a[..]))
  {
    var i := 0;
    while i < a.Length
      invariant 0 <= i <= a.Length && Sorted(a[..i])
      invariant multiset(a[..]) == multiset(old(a[..]))
    {
      InsertAt(a, i);
      i := i + 1;
    }
    assert a[..a.Length] == a[..];
  }

  /** A stretch ending at r that is no longer than `best` leaves the longest length unchanged one step on. */
  lemma ExtendBefore(s: seq<int>, r: int, res: int, best: int)
    requires 0 <= r < |s| && LongestBefore(s, r, res)
    requires forall p :: Harmonious(s, p, r) ==> r - p + 1 <= best
    requires best <= res
    ensures LongestBefore(s, r + 1, res)
  {
    if res != 0 {
      var p, q :| Harmonious(s, p, q) && q < r && res == q - p + 1;
      assert Harmonious(s, p, q) && q < r + 1;
    }
  }

  /** Recording the stretch l..r, the longest ending at r, keeps LongestBefore one step on. */
  lemma RecordBefore(s: seq<int>, l: int, r: int, res: int)
    requires Harmonious(s, l, r) && LongestBefore(s, r, res)
    requires forall p :: Harmonious(s, p, r) ==> l <= p
    ensures LongestBefore(s, r + 1, if res >= r - l + 1 then res else r - l + 1)
  {
    if res >= r - l + 1 {
      ExtendBefore(s, r, res, r - l + 1);
    }
  }

  /**
   * The two-index scan of findLHS over the sorted values: a difference of 1
   * records the stretch l..r and moves r, a difference below 1 moves r, a
   * larger one moves l.
   */
  method LongestHarmonious(s: seq<int>) returns (res: int)
    requires Sorted(s)
    ensures LongestBefore(s, |s|, res)
  {
    res := 0;
    var l, r := 0, 1;
    if |s| < 2 {
      return;
    }
    assert !Harmonious(s, 0, 0);
    while r < |s|
      invariant 0 <= l <= r <= |s|
      invariant r < |s| ==> forall p :: 0 <= p < l ==> s[r] - s[p] > 1
      invariant LongestBefore(s, r, res)
      decreases 2 * |s| - l - r
    {
      var diff := s[r] - s[l];
      if diff == 1 {
        RecordBefore(s, l, r, res);
        res := if res >= r - l + 1 then res else r - l + 1;
        r := r + 1;
      } else if diff < 1 {
        assert forall p :: Harmonious(s, p, r) ==> false by {
          forall p | 0 <= p < l ensures s[r] - s[p] > 1 { }
          forall p | l <= p <= r ensures s[r] - s[p] <= diff { assert s[l] <= s[p]; }
        }
        ExtendBefore(s, r, res, res);
        r := r + 1;
      } else {
        l := l + 1;
      }
      if r < |s| {
        forall p | 0 <= p < l ensures s[r] - s[p] > 1 {
          assert s[r - 1] <= s[r];
        }
      }
    }
  }

  /**
   * findLHS: sorts `nums` in place, then returns the length of the longest
   * stretch of the sorted values whose extremes differ by exactly 1.
   */
  method FindLHS(nums: array<int>) returns (res: int)
    modifies nums
    ensures Sorted(nums[..]) && multiset(nums[..]) == multiset(old(nums[..]))
    ensures LongestBefore(nums[..], nums.Length, res)
  {
    Sort(nums);
    res := LongestHarmonious(nums[..]);
  }

  /** LongestBefore pins the answer down: two lengths that both satisfy it are equal. */
  lemma LongestUnique(s: seq<int>, r: int, res1: int, res2: int)
    requires LongestBefore(s, r, res1) && LongestBefore(s, r, res2)
    ensures res1 == res2
  {
    if res1 != 0 {
      var p, q :| Harmonious(s, p, q) && q < r && res1 == q - p + 1;
      assert res1 <= res2;
    }
    if res2 != 0 {
      var p, q :| Harmonious(s, p, q) && q < r && res2 == q - p + 1;
      assert res2 <= res1;
    }
  }

  /** Fewer than two values, or values none of which differ by exactly 1, give 0. */
  lemma NoPairGivesZero(s: seq<int>, res: int)
    requires LongestBefore(s, |s|, res)
    requires forall i, j :: 0 <= i < |s| && 0 <= j < |s| ==> s[j] - s[i] != 1
    ensures res == 0
  {
    forall p, q ensures !Harmonious(s, p, q) {
      if 0 <= p <= q < |s| {
        assert s[q] - s[p] != 1;
      }
    }
  }

  /** The source's tests 2 and 4, on their values sorted: [1, 2, 3, 4] gives 2 and [1, 1, 2, 2] gives 4. */
  lemma KnownLengths()
    ensures LongestBefore([1, 2, 3, 4], 4, 2)
    ensures LongestBefore([1, 1, 2, 2], 4, 4)
  {
    assert Harmonious([1, 2, 3, 4], 0, 1);
    assert Harmonious([1, 1, 2, 2], 0, 3);
  }

  /** The source's tests 1, 3 and 5, on their values sorted: 5, 0 and 4. */
  lemma MoreKnownLengths()
    ensures LongestBefore([1, 2, 2, 2, 3, 3, 5, 7], 8, 5)
    ensures LongestBefore([1, 1, 1, 1], 4, 0)
    ensures LongestBefore([-3, -3, -2, -1, -1, -1], 6, 4)
  {
    assert Harmonious([1, 2, 2, 2, 3, 3, 5, 7], 1, 5);
    assert Harmonious([-3, -3, -2, -1, -1, -1], 2, 5);
  }

  /** The source's test 6, on its values sorted: 6. */
  lemma LongestKnownLength()
    ensures LongestBefore([0, 0, 1, 1, 1, 2, 2, 2, 3, 3, 3], 11, 6)
  {
    assert Harmonious([0, 0, 1, 1, 1, 2, 2, 2, 3, 3, 3], 2, 7);
  }
}
