/**
 * Integer square root by a shrinking upper bound (leetcode/problems/69.c):
 * `begin` stays 1, `end` only moves down, and `end` never drops below the
 * floor of the square root.
 */
module Sqrt {
  /** `(r + 1)^2` exceeds x: the square root of x lies below r + 1. */
  predicate AtLeastRoot(r: int, x: int)
  {
    (r + 1) * (r + 1) > x
  }

  /** Squaring is monotone on the naturals. */
  lemma SquareMonotone(a: int, b: int)
    requires 0 <= a <= b
    ensures a * a <= b * b
  {
    calc {
      a * a;
    <= { assert a * (b - a) >= 0; }
      a * b;
    <= { assert (b - a) * b >= 0; }
      b * b;
    }
  }

  /** Every x >= 0 lies below the square of x + 1, so `end := x` starts as a bound. */
  lemma StartsAboveRoot(x: int)
    requires x >= 0
    ensures AtLeastRoot(x, x)
  {
    SquareMonotone(1, x + 1);
    assert (x + 1) * (x + 1) == x * x + 2 * x + 1;
    assert x * x >= 0;
  }

  /** mySqrt: the floor of the square root for x >= 1, and 0 when the loop never runs (x <= 0). */
  method MySqrt(x: int) returns (r: int)
    ensures x <= 0 ==> r == 0
    ensures x >= 1 ==> 1 <= r && r * r <= x < (r + 1) * (r + 1)
  {
    var begin := 1;
    var end := x;
    if x >= 1 {
      StartsAboveRoot(x);
    }
    while begin <= end
      invariant begin == 1
      invariant x >= 1 ==> 1 <= end && AtLeastRoot(end, x)
      invariant x <= 0 ==> end == x
      decreases end
    {
      var mid := (begin + end) / 2;
      if mid * mid <= x {
        while end * end > x
          invariant mid <= end && AtLeastRoot(end, x)
          decreases end
        {
          if end == mid {
            assert false;
          }
          end := end - 1;
        }
        return end;
      } else {
        assert mid >= 2 && mid - 1 >= 1;
        end := mid - 1;
      }
    }
    return 0;
  }

  /**
   * The contract of MySqrt pins its result down: two floor roots of the same
   * x agree, so the expected answers 2 for 4, 8 and 5, and 1 for 1 are the
   * only ones it may give.
   */
  lemma {:induction false} FloorRootUnique(x: int, r1: int, r2: int)
    requires 1 <= r1 && r1 * r1 <= x < (r1 + 1) * (r1 + 1)
    requires 1 <= r2 && r2 * r2 <= x < (r2 + 1) * (r2 + 1)
    ensures r1 == r2
  {
    if r1 < r2 {
      SquareMonotone(r1 + 1, r2);
    } else if r2 < r1 {
      SquareMonotone(r2 + 1, r1);
    }
  }

  /**
   * The source's four tests: whatever result MySqrt's contract allows for
   * 4, 8, 1 and 5 is the expected 2, 2, 1 and 2.
   */
  lemma KnownRoots(x: int, r: int)
    requires x == 4 || x == 8 || x == 1 || x == 5
    requires 1 <= r && r * r <= x < (r + 1) * (r + 1)
    ensures r == (if x == 1 then 1 else 2)
  {
    FloorRootUnique(x, r, if x == 1 then 1 else 2);
  }
}
