/**
 * The four sliding-window kernels of leetcode/core/sliding_window.c. Arrays
 * are read-only inputs, so they are sequences; the `indexes[2]` out-array
 * of the last two kernels is an `array<int>` of length 2.
 */
module SlidingWindow {
  import opened WindowSums

  const IntMax: int := 0x7FFF_FFFF

  /**
   * find_max_sum_of_all_subarrays_of_size_k: -1 when the array is shorter
   * than k, otherwise the largest sum of a length-k window.
   */
  method MaxSumOfSizeK(a: seq<int>, k: int) returns (r: int)
    requires k >= 0
    ensures |a| < k ==> r == -1
    ensures k <= |a| ==> IsMaxWindowSum(a, k, r)
  {
    if |a| < k {
      return -1;
    }
    var maxSum := 0;
    for i := 0 to k
      invariant maxSum == Sum(a, 0, i)
    {
      maxSum := maxSum + a[i];
    }
    var sum := maxSum;
    ghost var best := 0;
    for i := k to |a|
      invariant sum == Sum(a, i - k, i)
      invariant 0 <= best <= i - k && WindowSum(a, best, k) == maxSum
      invariant forall j :: 0 <= j <= i - k ==> WindowSum(a, j, k) <= maxSum
    {
      if k > 0 {
        Slide(a, i - k, i);
      }
      sum := sum + (a[i] - a[i - k]);
      if sum > maxSum {
        maxSum := sum;
        best := i - k + 1;
      }
    }
    return maxSum;
  }

  /** The answers the source's tests expect: 700 for k = 2 and 39 for k = 4. */
  lemma KnownMaxSums()
    ensures IsMaxWindowSum([100, 200, 300, 400], 2, 700)
    ensures IsMaxWindowSum([1, 4, 2, 10, 23, 3, 1, 0, 20], 4, 39)
  {
    var a := [100, 200, 300, 400];
    assert WindowSum(a, 0, 2) == 300 && WindowSum(a, 1, 2) == 500 && WindowSum(a, 2, 2) == 700;
    var b := [1, 4, 2, 10, 23, 3, 1, 0, 20];
    assert WindowSum(b, 0, 4) == 17 && WindowSum(b, 1, 4) == 39 && WindowSum(b, 2, 4) == 38;
    assert WindowSum(b, 3, 4) == 37 && WindowSum(b, 4, 4) == 27 && WindowSum(b, 5, 4) == 24;
  }

  /** Every window of `a` that ends at or before `e` and whose sum exceeds x is at least `len` long. */
  predicate CoveredUpTo(a: seq<int>, x: int, e: int, len: int)
  {
    forall p, n :: 0 <= p && 0 <= n && p + n <= e && p + n <= |a| && WindowSum(a, p, n) > x ==> len <= n
  }

  /** Growing the window's right end keeps the windows ending there covered while its sum stays at most x. */
  lemma Extend(a: seq<int>, x: int, begin: int, end: int, len: int)
    requires NonNegative(a) && 0 <= begin <= end <= |a|
    requires Sum(a, begin, end) <= x && CoveredUpTo(a, x, end - 1, len)
    requires begin > 0 ==> len <= end - begin + 1
    ensures CoveredUpTo(a, x, end, len)
  {
    forall p, n | 0 <= p && 0 <= n && p + n <= end && WindowSum(a, p, n) > x
      ensures len <= n
    {
      if p + n == end && p >= begin {
        SumMonotone(a, begin, p, p + n, end);
      }
    }
  }

  /** After the shrink, the windows ending at `end` that exceed x are those starting at or before `begin`. */
  lemma Record(a: seq<int>, x: int, begin: int, end: int, len: int)
    requires NonNegative(a) && 0 <= begin < end <= |a|
    requires Sum(a, begin + 1, end) <= x && CoveredUpTo(a, x, end - 1, len)
    requires len <= end - begin
    ensures CoveredUpTo(a, x, end, len)
  {
    forall p, n | 0 <= p && 0 <= n && p + n <= end && WindowSum(a, p, n) > x
      ensures len <= n
    {
      if p + n == end && p > begin {
        SumMonotone(a, begin + 1, p, p + n, end);
      }
    }
  }

  /**
   * find_smallest_subarray_with_sum_greater_that_value: 0 when no window
   * is found, otherwise the length of a window whose sum exceeds x. Over
   * non-negative elements the result is 0 exactly when no window exceeds x,
   * and is the smallest such length otherwise. The source reads past the
   * array for a negative x, so x >= 0 is required.
   */
  method SmallestSubarraySumAbove(a: seq<int>, x: int) returns (r: int)
    requires x >= 0 && |a| < IntMax
    ensures r == 0 || (1 <= r <= |a| && exists i :: 0 <= i <= |a| - r && WindowSum(a, i, r) > x)
    ensures NonNegative(a) ==> (r == 0 <==> forall p, n :: 0 <= p && 0 <= n && p + n <= |a| ==> WindowSum(a, p, n) <= x)
    ensures NonNegative(a) && r != 0 ==> CoveredUpTo(a, x, |a|, r)
  {
    var begin := 0;
    var end := 0;
    var minLength := IntMax;
    var sum := 0;
    ghost var found := 0;
    while end < |a|
      invariant 0 <= begin <= end <= |a|
      invariant sum == Sum(a, begin, end) && sum <= x
      invariant minLength == IntMax || (1 <= minLength <= |a| && 0 <= found <= |a| - minLength && WindowSum(a, found, minLength) > x)
      invariant NonNegative(a) ==> CoveredUpTo(a, x, end, minLength)
      invariant NonNegative(a) && begin > 0 ==> minLength <= end - begin + 1
      decreases |a| - end
    {
      ghost var end0 := end;
      while end < |a| && sum <= x
        invariant begin <= end <= |a| && end0 <= end
        invariant sum == Sum(a, begin, end) && (end == end0 ==> sum <= x)
        invariant NonNegative(a) ==> CoveredUpTo(a, x, end - 1, minLength)
        invariant NonNegative(a) && sum <= x ==> CoveredUpTo(a, x, end, minLength)
        invariant NonNegative(a) && begin > 0 ==> minLength <= end - begin + 1
      {
        sum := sum + a[end];
        end := end + 1;
        if NonNegative(a) && sum <= x {
          Extend(a, x, begin, end, minLength);
        }
      }
      if end == |a| && sum <= x {
        break;
      }
      while begin < end && sum - a[begin] > x
        invariant begin <= end && sum == Sum(a, begin, end) && sum > x
      {
        SumFront(a, begin, end);
        sum := sum - a[begin];
        begin := begin + 1;
      }
      SumFront(a, begin, end);
      var length := end - begin;
      if minLength > length {
        minLength := length;
        found := begin;
      }
      if NonNegative(a) {
        Record(a, x, begin, end, minLength);
      }
      sum := sum - a[begin];
      begin := begin + 1;
    }
    if minLength == IntMax {
      return 0;
    }
    return minLength;
  }

  /** Where the given-sum search stops: a window [lo, hi), (-1, -1), or a read past the array. */
  datatype Search = Window(lo: int, hi: int) | ReadsPastEnd

  /**
   * The search's own invariant: `sum` is the target minus the elements
   * between `left` and `right`, kept as a difference of prefix sums because
   * with a negative target the retreat loop can carry `left` past `right`.
   */
  predicate Scanning(a: seq<int>, target: int, left: int, right: int, sum: int)
  {
    0 <= left <= |a| && 0 <= right <= |a| && sum == target - Sum(a, 0, right) + Sum(a, 0, left)
  }

  /** A result the search may report: not found, or a non-empty window summing to the target. */
  predicate Reportable(a: seq<int>, target: int, r: Search)
  {
    r.Window? ==> r == Window(-1, -1) || (0 <= r.lo < r.hi <= |a| && Sum(a, r.lo, r.hi) == target)
  }

  /** A window's sum is the difference of the prefix sums at its ends. */
  lemma {:induction false} SumPrefixes(a: seq<int>, lo: int, hi: int)
    requires 0 <= lo <= hi <= |a|
    ensures Sum(a, lo, hi) == Sum(a, 0, hi) - Sum(a, 0, lo)
    decreases hi - lo
  {
    if lo < hi {
      SumPrefixes(a, lo, hi - 1);
    }
  }

  /**
   * find_subarray_with_given_sum_in_an_array_of_non_negative_integers as
   * written: neither its advance loop nor its retreat loop is bounded by
   * the array's end.
   */
  function GivenSumAsWritten(a: seq<int>, target: int): (r: Search)
    requires NonNegative(a)
    ensures Reportable(a, target, r)
  {
    Outer(a, target, 0, 0, target)
  }

  /** The outer loop: runs while `right` is inside the array. */
  function Outer(a: seq<int>, target: int, left: int, right: int, sum: int): (r: Search)
    requires NonNegative(a) && Scanning(a, target, left, right, sum)
    ensures Reportable(a, target, r)
    decreases 3 * (2 * |a| - left - right) + 2
  {
    if right >= |a| then Window(-1, -1) else Advance(a, target, left, right, sum)
  }

  /** The advance loop, then the test for an exact hit. */
  function Advance(a: seq<int>, target: int, left: int, right: int, sum: int): (r: Search)
    requires NonNegative(a) && Scanning(a, target, left, right, sum)
    ensures Reportable(a, target, r)
    decreases 3 * (2 * |a| - left - right) + 1
  {
    if sum > 0 then
      if right == |a| then ReadsPastEnd
      else Advance(a, target, left, right + 1, sum - a[right])
    else if sum == 0 then
      if left < right then SumPrefixes(a, left, right); Window(left, right) else Window(-1, -1)
    else Retreat(a, target, left, right, sum)
  }

  /** The retreat loop: drops elements from the left while the window's sum is over the target. */
  function Retreat(a: seq<int>, target: int, left: int, right: int, sum: int): (r: Search)
    requires NonNegative(a) && Scanning(a, target, left, right, sum) && sum < 0
    ensures Reportable(a, target, r)
    decreases 3 * (2 * |a| - left - right)
  {
    if left == |a| then ReadsPastEnd
    else
      var sum' := sum + a[left];
      if sum' < 0 then Retreat(a, target, left + 1, right, sum')
      else Outer(a, target, left + 1, right, sum')
  }

  /** Looking for 5 in [1] runs the advance loop to a[1], one past the end. */
  lemma GivenSumReadsPastEndAsWritten()
    ensures GivenSumAsWritten([1], 5) == ReadsPastEnd
  {
  }

  /** Looking for -5 in [1] runs the retreat loop to a[1], one past the end. */
  lemma GivenSumRetreatsPastEndAsWritten()
    ensures GivenSumAsWritten([1], -5) == ReadsPastEnd
  {
  }

  /**
   * Looking for -1 in [1, 0]: the retreat loop brings the sum to 0 with
   * `left` past `right`, and the search reports nothing.
   */
  lemma GivenSumRetreatsPastRightAsWritten()
    ensures GivenSumAsWritten([1, 0], -1) == Window(-1, -1)
    ensures Retreat([1, 0], -1, 0, 0, -1) == Outer([1, 0], -1, 1, 0, 0)
  {
  }

  /**
   * Looking for 2 in [1, 2]: the window [1, 2) is completed by the retreat
   * loop after `right` has reached the end, and the outer loop stops
   * before testing it.
   */
  lemma GivenSumMissesLastWindowAsWritten()
    ensures GivenSumAsWritten([1, 2], 2) == Window(-1, -1)
    ensures Sum([1, 2], 1, 2) == 2
  {
    var a := [1, 2];
    assert Sum(a, 0, 1) == 1 && Sum(a, 0, 2) == 3;
    assert Advance(a, 2, 0, 2, -1) == Retreat(a, 2, 0, 2, -1);
  }

  /** The search's answer once a read past the end is taken to find nothing. */
  function Settle(r: Search): (w: Search)
    ensures w.Window?
    ensures r.Window? ==> w == r
  {
    if r.ReadsPastEnd? then Window(-1, -1) else r
  }

  /**
   * The given-sum search with both loops bounded by the array's end: it
   * reports what the search as written reports whenever that stays inside
   * the array, and (-1, -1) where that would read past it.
   */
  method GivenSum(a: seq<int>, target: int, indexes: array<int>)
    requires NonNegative(a) && indexes.Length == 2
    modifies indexes
    ensures Window(indexes[0], indexes[1]) == Settle(GivenSumAsWritten(a, target))
    ensures Reportable(a, target, Window(indexes[0], indexes[1]))
  {
    ghost var answer := Settle(GivenSumAsWritten(a, target));
    indexes[0] := -1;
    indexes[1] := -1;
    var left := 0;
    var right := 0;
    var sum := target;
    while right < |a|
      invariant Scanning(a, target, left, right, sum)
      invariant answer == Settle(Outer(a, target, left, right, sum))
      invariant indexes[0] == -1 && indexes[1] == -1
      decreases 2 * |a| - left - right
    {
      ghost var measure := 2 * |a| - left - right;
      while sum > 0 && right < |a|
        invariant Scanning(a, target, left, right, sum)
        invariant answer == Settle(Advance(a, target, left, right, sum))
        invariant 2 * |a| - left - right <= measure
        invariant indexes[0] == -1 && indexes[1] == -1
      {
        sum := sum - a[right];
        right := right + 1;
      }
      if sum == 0 {
        if left < right {
          indexes[0] := left;
          indexes[1] := right;
        }
        return;
      }
      if sum > 0 {
        assert answer == Window(-1, -1);
        assert right == |a|;
      }
      while sum < 0 && left < |a|
        invariant Scanning(a, target, left, right, sum)
        invariant sum < 0 ==> answer == Settle(Retreat(a, target, left, right, sum))
        invariant sum >= 0 ==> answer == Settle(Outer(a, target, left, right, sum)) && 2 * |a| - left - right < measure
        invariant 2 * |a| - left - right <= measure
        invariant indexes[0] == -1 && indexes[1] == -1
        decreases |a| - left
      {
        sum := sum + a[left];
        left := left + 1;
      }
      if sum < 0 {
        // the retreat loop as written would go on to read a[|a|]
        return;
      }
    }
  }

  /** The distinct characters of a string. */
  function Chars(s: seq<char>): (cs: set<char>)
    ensures forall i :: 0 <= i < |s| ==> s[i] in cs
  {
    set c | c in s
  }

  /** The char indexing of the source needs codes below 128, where a signed `char` is non-negative. */
  predicate Ascii(s: seq<char>)
  {
    forall i :: 0 <= i < |s| ==> s[i] < 128 as char
  }

  /** `s[lo..hi]` holds every distinct character of `s`. */
  predicate Covers(s: seq<char>, lo: int, hi: int)
    requires 0 <= lo <= hi <= |s|
  {
    Chars(s) <= Chars(s[lo..hi])
  }

  /** `counts` is a 256-entry table of how often each character occurs in `s[lo..hi]`. */
  predicate Counts(s: seq<char>, lo: int, hi: int, counts: seq<int>)
    requires 0 <= lo <= hi <= |s|
  {
    |counts| == 256 && forall c :: 0 <= c < 256 ==> counts[c] == multiset(s[lo..hi])[c as char]
  }

  /** Counting one more character on the right. */
  lemma CountPush(s: seq<char>, lo: int, hi: int, counts: seq<int>)
    requires Ascii(s) && 0 <= lo <= hi < |s| && Counts(s, lo, hi, counts)
    ensures Counts(s, lo, hi + 1, counts[s[hi] as int := counts[s[hi] as int] + 1])
  {
    assert s[lo..hi + 1] == s[lo..hi] + [s[hi]];
  }

  /** Dropping the leftmost character from the count. */
  lemma CountDrop(s: seq<char>, lo: int, hi: int, counts: seq<int>)
    requires Ascii(s) && 0 <= lo < hi <= |s| && Counts(s, lo, hi, counts)
    ensures Counts(s, lo + 1, hi, counts[s[lo] as int := counts[s[lo] as int] - 1])
  {
    assert s[lo..hi] == [s[lo]] + s[lo + 1..hi];
  }

  /** A subset as large as its superset is the whole superset. */
  lemma SubsetSameSize<T>(a: set<T>, b: set<T>)
    requires a <= b && |a| == |b|
    ensures a == b
  {
    assert |b - a| == |b| - |a|;
  }

  /** No window starting after `start` and ending at `hi` covers `s` when s[start] occurs once in s[start..hi]. */
  lemma TightStart(s: seq<char>, start: int, hi: int)
    requires 0 <= start < hi <= |s| && s[start] !in s[start + 1..hi]
    ensures forall p :: start < p <= hi ==> !Covers(s, p, hi)
  {
    forall p | start < p <= hi
      ensures s[start] !in Chars(s[p..hi])
    {
      forall k | p <= k < hi
        ensures s[k] != s[start]
      {
        assert s[k] == s[start + 1..hi][k - start - 1];
      }
    }
    assert s[start] in Chars(s);
  }

  /** The distinct characters of a prefix grow by the next character. */
  lemma CharsPush(s: seq<char>, i: int)
    requires 0 <= i < |s|
    ensures s[..i + 1] == s[..i] + [s[i]]
    ensures Chars(s[..i + 1]) == Chars(s[..i]) + {s[i]}
  {
    assert s[..i + 1] == s[..i] + [s[i]];
  }

  /** The first loop of the source: marks each character in `ascii` and counts the distinct ones. */
  method CountDistinct(s: seq<char>) returns (variance: int)
    requires Ascii(s)
    ensures variance == |Chars(s)|
  {
    var ascii := new int[256](_ => 0);
    variance := 0;
    for i := 0 to |s|
      invariant forall c :: 0 <= c < 256 ==> (ascii[c] == 1 <==> c as char in s[..i]) && (ascii[c] == 0 || ascii[c] == 1)
      invariant variance == |Chars(s[..i])|
    {
      CharsPush(s, i);
      if ascii[s[i] as int] == 0 {
        ascii[s[i] as int] := 1;
        variance := variance + 1;
      }
    }
    assert s[..|s|] == s;
  }

  /**
   * The shrink loop of the source: drops characters from the left of a
   * covering window while they occur again inside it, so the window still
   * covers and its first character occurs only once.
   */
  method ShrinkWindow(s: seq<char>, start: int, hi: int, currCount: array<int>) returns (start': int)
    requires Ascii(s) && 0 <= start < hi <= |s|
    requires Counts(s, start, hi, currCount[..]) && Chars(s[start..hi]) == Chars(s)
    modifies currCount
    ensures start <= start' < hi && Counts(s, start', hi, currCount[..])
    ensures Chars(s[start'..hi]) == Chars(s) && s[start'] !in s[start' + 1..hi]
  {
    start' := start;
    while currCount[s[start'] as int] > 1
      invariant start <= start' < hi
      invariant Counts(s, start', hi, currCount[..])
      invariant Chars(s[start'..hi]) == Chars(s)
      decreases hi - start'
    {
      DropRepeated(s, start', hi, currCount[..]);
      currCount[s[start'] as int] := currCount[s[start'] as int] - 1;
      start' := start' + 1;
    }
    LastOnce(s, start', hi, currCount[..]);
  }

  /** One turn of the shrink loop: a first character that occurs again can go, and the window still covers. */
  lemma DropRepeated(s: seq<char>, lo: int, hi: int, counts: seq<int>)
    requires Ascii(s) && 0 <= lo < hi <= |s| && Counts(s, lo, hi, counts)
    requires Chars(s[lo..hi]) == Chars(s) && counts[s[lo] as int] > 1
    ensures lo + 1 < hi && Counts(s, lo + 1, hi, counts[s[lo] as int := counts[s[lo] as int] - 1])
    ensures Chars(s[lo + 1..hi]) == Chars(s)
  {
    assert s[lo..hi] == [s[lo]] + s[lo + 1..hi];
    assert multiset(s[lo..hi])[s[lo]] > 1;
    assert s[lo] in s[lo + 1..hi];
    CountDrop(s, lo, hi, counts);
  }

  /** When the shrink loop stops, the first character of the window occurs only once in it. */
  lemma LastOnce(s: seq<char>, lo: int, hi: int, counts: seq<int>)
    requires Ascii(s) && 0 <= lo < hi <= |s| && Counts(s, lo, hi, counts) && counts[s[lo] as int] <= 1
    ensures s[lo] !in s[lo + 1..hi]
  {
    assert s[lo..hi] == [s[lo]] + s[lo + 1..hi];
  }

  /** Before every character has been seen, no window ending at `hi` covers `s`. */
  lemma NotYetCovered(s: seq<char>, hi: int)
    requires 0 <= hi <= |s| && Chars(s[..hi]) != Chars(s)
    ensures forall p :: 0 <= p <= hi ==> !Covers(s, p, hi)
  {
    forall p | 0 <= p <= hi
      ensures Chars(s[p..hi]) <= Chars(s[..hi])
    {
      forall k | p <= k < hi
        ensures s[k] in s[..hi]
      {
        assert s[k] == s[..hi][k];
      }
    }
    assert Chars(s[..hi]) <= Chars(s);
  }

  /** Every window of `s` ending at or before `hi` that covers `s` is at least `len` long. */
  predicate ShortestUpTo(s: seq<char>, hi: int, len: int)
    requires hi <= |s|
  {
    forall p, q :: 0 <= p <= q <= hi && Covers(s, p, q) ==> len <= q - p
  }

  /** The characters of a prefix are characters of the string. */
  lemma PrefixChars(s: seq<char>, hi: int)
    requires 0 <= hi <= |s|
    ensures Chars(s[..hi]) <= Chars(s)
  {
    forall k | 0 <= k < hi
      ensures s[..hi][k] in s
    {
      assert s[..hi][k] == s[k];
    }
  }

  /**
   * Counting s[hi] into the window [start, hi): the prefix gains a new
   * distinct character exactly when the count of s[hi] was 0, and the
   * window keeps all characters of the prefix.
   */
  lemma PushChars(s: seq<char>, start: int, hi: int, counts: seq<int>)
    requires Ascii(s) && 0 <= start <= hi < |s| && Counts(s, start, hi, counts)
    requires Chars(s[start..hi]) == Chars(s[..hi])
    ensures |Chars(s[..hi + 1])| == |Chars(s[..hi])| + (if counts[s[hi] as int] == 0 then 1 else 0)
    ensures Chars(s[start..hi + 1]) == Chars(s[..hi + 1])
  {
    assert s[..hi + 1] == s[..hi] + [s[hi]];
    assert s[start..hi + 1] == s[start..hi] + [s[hi]];
    if counts[s[hi] as int] == 0 {
      assert s[hi] !in s[start..hi];
      assert Chars(s[..hi + 1]) == Chars(s[..hi]) + {s[hi]};
    } else {
      assert s[hi] in s[start..hi];
      assert Chars(s[..hi + 1]) == Chars(s[..hi]);
    }
  }

  /** Recording the window [start, hi) extends the shortest-cover claim to windows ending at hi. */
  lemma RecordCover(s: seq<char>, start: int, hi: int, len: int)
    requires 0 <= start < hi <= |s| && ShortestUpTo(s, hi - 1, len) && len <= hi - start
    requires s[start] !in s[start + 1..hi]
    ensures ShortestUpTo(s, hi, len)
  {
    TightStart(s, start, hi);
  }

  /** When the prefix up to hi lacks a character, the shortest-cover claim extends to hi unchanged. */
  lemma SkipCover(s: seq<char>, hi: int, len: int)
    requires 0 < hi <= |s| && ShortestUpTo(s, hi - 1, len) && Chars(s[..hi]) != Chars(s)
    ensures ShortestUpTo(s, hi, len)
  {
    NotYetCovered(s, hi);
  }

  /**
   * One step of the source's second loop before the window is recorded:
   * counts s[hi - 1] into the window and, once every character has been
   * seen, shrinks the window from the left.
   */
  method CountAndShrink(s: seq<char>, start: int, hi: int, currCount: array<int>, count: int, variance: int)
    returns (start': int, count': int)
    requires Ascii(s) && 0 <= start < hi <= |s| && variance == |Chars(s)|
    requires Counts(s, start, hi - 1, currCount[..])
    requires Chars(s[start..hi - 1]) == Chars(s[..hi - 1]) && count == |Chars(s[..hi - 1])|
    modifies currCount
    ensures start <= start' < hi && Counts(s, start', hi, currCount[..])
    ensures Chars(s[start'..hi]) == Chars(s[..hi]) && count' == |Chars(s[..hi])|
    ensures count' == variance ==> Covers(s, start', hi) && s[start'] !in s[start' + 1..hi]
    ensures count' != variance ==> Chars(s[..hi]) != Chars(s)
  {
    ghost var before := currCount[..];
    var i := hi - 1;
    PushChars(s, start, i, before);
    CountPush(s, start, i, before);
    var c := s[i] as int;
    count' := count;
    if currCount[c] == 0 {
      count' := count + 1;
    }
    currCount[c] := currCount[c] + 1;
    assert currCount[..] == before[c := before[c] + 1];
    start' := start;
    if count' == variance {
      PrefixChars(s, hi);
      SubsetSameSize(Chars(s[..hi]), Chars(s));
      start' := ShrinkWindow(s, start, hi, currCount);
    }
  }

  /** The best window recorded so far: none yet, or `indexes` holding a covering window of length `len` that ends by `hi`. */
  predicate Best(s: seq<char>, lo: int, hi': int, hi: int, len: int)
    requires hi <= |s|
  {
    len == IntMax || (0 <= lo && hi' == lo + len <= hi && 0 < len && Covers(s, lo, hi'))
  }

  /**
   * The end of a step of the source's second loop: once every character
   * is in the window [start, hi), a window shorter than the best so far
   * replaces it in `indexes`.
   */
  method UpdateBest(s: seq<char>, indexes: array<int>, start: int, hi: int, complete: bool, minLength: int)
    returns (minLength': int)
    requires indexes.Length == 2 && 0 <= start < hi <= |s| && |s| < IntMax
    requires Best(s, indexes[0], indexes[1], hi - 1, minLength) && ShortestUpTo(s, hi - 1, minLength)
    requires complete ==> Covers(s, start, hi) && s[start] !in s[start + 1..hi]
    requires !complete ==> Chars(s[..hi]) != Chars(s)
    modifies indexes
    ensures Best(s, indexes[0], indexes[1], hi, minLength') && ShortestUpTo(s, hi, minLength')
  {
    minLength' := minLength;
    if complete {
      var windowLength := hi - start;
      if minLength' > windowLength {
        minLength' := windowLength;
        indexes[0] := start;
        indexes[1] := start + minLength';
      }
      RecordCover(s, start, hi, minLength');
    } else {
      SkipCover(s, hi, minLength');
    }
  }

  /** One turn of the source's second loop: the window now ends at `hi`, and the best window is updated. */
  method ScanStep(s: seq<char>, indexes: array<int>, currCount: array<int>, start: int, hi: int, count: int,
                  variance: int, minLength: int)
    returns (start': int, count': int, minLength': int)
    requires Ascii(s) && |s| < IntMax && variance == |Chars(s)| && indexes.Length == 2 && indexes != currCount
    requires 0 <= start < hi <= |s| && Counts(s, start, hi - 1, currCount[..])
    requires Chars(s[start..hi - 1]) == Chars(s[..hi - 1]) && count == |Chars(s[..hi - 1])|
    requires Best(s, indexes[0], indexes[1], hi - 1, minLength) && ShortestUpTo(s, hi - 1, minLength)
    modifies indexes, currCount
    ensures start <= start' < hi && Counts(s, start', hi, currCount[..])
    ensures Chars(s[start'..hi]) == Chars(s[..hi]) && count' == |Chars(s[..hi])|
    ensures Best(s, indexes[0], indexes[1], hi, minLength') && ShortestUpTo(s, hi, minLength')
  {
    start', count' := CountAndShrink(s, start, hi, currCount, count, variance);
    minLength' := UpdateBest(s, indexes, start', hi, count' == variance, minLength);
  }

  /**
   * find_smallest_window_that_contains_all_characters_of_string_itself:
   * (0, 0) for strings of length at most 1; otherwise a half-open window
   * holding every distinct character of the string, and no window that
   * holds them all is shorter.
   */
  method SmallestWindowWithAllCharacters(s: seq<char>, indexes: array<int>)
    requires Ascii(s) && |s| < IntMax && indexes.Length == 2
    modifies indexes
    ensures |s| <= 1 ==> indexes[0] == 0 && indexes[1] == 0
    ensures |s| >= 2 ==> 0 <= indexes[0] < indexes[1] <= |s| && Covers(s, indexes[0], indexes[1])
    ensures |s| >= 2 ==> ShortestUpTo(s, |s|, indexes[1] - indexes[0])
  {
    indexes[0] := 0;
    indexes[1] := 0;
    if |s| <= 1 {
      return;
    }
    var variance := CountDistinct(s);
    var start := 0;
    var minLength := IntMax;
    var count := 0;
    var currCount := new int[256](_ => 0);
    StartScan(s, currCount[..]);
    var i := 0;
    while i < |s|
      invariant 0 <= start <= i <= |s|
      invariant Counts(s, start, i, currCount[..])
      invariant Chars(s[start..i]) == Chars(s[..i]) && count == |Chars(s[..i])|
      invariant Best(s, indexes[0], indexes[1], i, minLength) && ShortestUpTo(s, i, minLength)
    {
      start, count, minLength := ScanStep(s, indexes, currCount, start, i + 1, count, variance, minLength);
      i := i + 1;
    }
    FinishScan(s, indexes[0], indexes[1], minLength);
  }

  /** Before the second loop: an empty count table and no window recorded yet. */
  lemma StartScan(s: seq<char>, counts: seq<int>)
    requires |s| > 0 && |counts| == 256 && forall c :: 0 <= c < 256 ==> counts[c] == 0
    ensures Counts(s, 0, 0, counts) && Chars(s[0..0]) == Chars(s[..0]) && |Chars(s[..0])| == 0
    ensures Best(s, 0, 0, 0, IntMax) && ShortestUpTo(s, 0, IntMax)
  {
    assert s[..0] == [];
    assert Chars(s[..0]) == {};
    assert s[0] in Chars(s) && !Covers(s, 0, 0);
  }

  /** After the second loop: the whole string covers itself, so a best window was recorded. */
  lemma FinishScan(s: seq<char>, lo: int, hi: int, len: int)
    requires 2 <= |s| < IntMax && Best(s, lo, hi, |s|, len) && ShortestUpTo(s, |s|, len)
    ensures 0 <= lo < hi <= |s| && Covers(s, lo, hi) && ShortestUpTo(s, |s|, hi - lo)
  {
    assert s[0..|s|] == s;
    assert Covers(s, 0, |s|);
  }
}
