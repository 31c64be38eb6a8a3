/**
 * Contains duplicate II (leetcode/problems/219.c): is there a pair of equal
 * values at most k positions apart? The source keeps one table slot per
 * `abs(value) % n` holding the latest index stored there, so two values
 * that share a slot overwrite each other; that version is modelled as
 * written, and a version keyed by the value itself answers the question.
 */
module NearbyDuplicate {
  /** Two equal values at most k positions apart. */
  ghost predicate HasNearbyDuplicate(nums: seq<int>, k: int)
  {
    exists a, b :: 0 <= a < b < |nums| && nums[a] == nums[b] && b - a <= k
  }

  function Abs(x: int): (r: nat)
    ensures r == x || r == -x
  {
    if x < 0 then -x else x
  }

  /** The slot of a value: `abs(value) % numsSize`. */
  function Slot(v: int, n: int): (h: int)
    requires n > 0
    ensures 0 <= h < n
  {
    Abs(v) % n
  }

  /**
   * The table after the first i values: every slot is -1 if no earlier
   * value hashed there, and otherwise the latest earlier index that did.
   */
  predicate Latest(nums: seq<int>, table: seq<int>, i: int)
  {
    && |table| == |nums| && 0 <= i <= |nums|
    && forall h :: 0 <= h < |table| ==>
         if table[h] == -1 then forall j :: 0 <= j < i ==> Slot(nums[j], |nums|) != h
         else 0 <= table[h] < i && Slot(nums[table[h]], |nums|) == h
              && forall j :: table[h] < j < i ==> Slot(nums[j], |nums|) != h
  }

  /** Storing index i in its slot keeps every slot at its latest index. */
  lemma LatestStep(nums: seq<int>, table: seq<int>, i: int)
    requires Latest(nums, table, i) && i < |nums|
    ensures Latest(nums, table[Slot(nums[i], |nums|) := i], i + 1)
  {
  }

  /**
   * The loop of containsNearbyDuplicate from index i, as written: a hit
   * needs the slot's index to hold the same value and lie at most k back;
   * otherwise the slot is overwritten with i. A true answer always has a
   * witness pair.
   */
  function ScanAsWritten(nums: seq<int>, k: int, table: seq<int>, i: int): (r: bool)
    requires Latest(nums, table, i)
    ensures r ==> HasNearbyDuplicate(nums, k)
    decreases |nums| - i
  {
    if i == |nums| then false
    else
      var h := Slot(nums[i], |nums|);
      if table[h] != -1 && nums[table[h]] == nums[i] && i - table[h] <= k then true
      else LatestStep(nums, table, i); ScanAsWritten(nums, k, table[h := i], i + 1)
  }

  /** The table as memset leaves it: every slot -1. */
  function EmptyTable(n: nat): (t: seq<int>)
    ensures |t| == n && forall h :: 0 <= h < n ==> t[h] == -1
  {
    seq(n, _ => -1)
  }

  /** containsNearbyDuplicate as written: it computes ScanAsWritten, so a 1 always has a witness pair. */
  method ContainsNearbyDuplicateAsWritten(nums: seq<int>, k: int) returns (r: bool)
    ensures r == ScanAsWritten(nums, k, EmptyTable(|nums|), 0)
    ensures r ==> HasNearbyDuplicate(nums, k)
  {
    var table := new int[|nums|](_ => -1);
    assert table[..] == EmptyTable(|nums|);
    var i := 0;
    while i < |nums|
      invariant 0 <= i <= |nums| && Latest(nums, table[..], i)
      invariant ScanAsWritten(nums, k, table[..], i) == ScanAsWritten(nums, k, EmptyTable(|nums|), 0)
      decreases |nums| - i
    {
      var hash := Abs(nums[i]) % |nums|;
      if table[hash] != -1 && nums[table[hash]] == nums[i] {
        if i - table[hash] <= k {
          return true;
        }
      }
      ghost var before := table[..];
      LatestStep(nums, before, i);
      table[hash] := i;
      assert table[..] == before[hash := i];
      i := i + 1;
    }
    return false;
  }

  /**
   * Two values that share a slot overwrite each other: in [1, 4, 1] with
   * k = 2, 4 replaces the index of the first 1, so the pair at distance 2
   * is missed.
   */
  lemma CollisionMissesPairAsWritten()
    ensures HasNearbyDuplicate([1, 4, 1], 2)
    ensures !ScanAsWritten([1, 4, 1], 2, EmptyTable(3), 0)
  {
    var nums := [1, 4, 1];
    assert nums[0] == nums[2];
    var t0 := EmptyTable(3);
    assert t0 == [-1, -1, -1];
    assert ScanAsWritten(nums, 2, t0, 0) == ScanAsWritten(nums, 2, [-1, 0, -1], 1);
    assert ScanAsWritten(nums, 2, [-1, 0, -1], 1) == ScanAsWritten(nums, 2, [-1, 1, -1], 2);
    assert ScanAsWritten(nums, 2, [-1, 1, -1], 2) == ScanAsWritten(nums, 2, [-1, 2, -1], 3);
  }

  /** Where no two values share a slot, the written loop is exact. */
  lemma {:induction false} NoCollisionExact(nums: seq<int>, k: int, table: seq<int>, i: int)
    requires Latest(nums, table, i) && |nums| > 0
    requires forall a, b :: 0 <= a < b < |nums| && nums[a] != nums[b] ==> Slot(nums[a], |nums|) != Slot(nums[b], |nums|)
    requires forall a, b :: 0 <= a < b < i && nums[a] == nums[b] ==> b - a > k
    ensures ScanAsWritten(nums, k, table, i) <==> HasNearbyDuplicate(nums, k)
    decreases |nums| - i
  {
    if i < |nums| {
      var h := Slot(nums[i], |nums|);
      if table[h] != -1 && nums[table[h]] == nums[i] && i - table[h] <= k {
      } else {
        forall a | 0 <= a < i && nums[a] == nums[i]
          ensures i - a > k
        {
          assert Slot(nums[a], |nums|) == h;
          assert table[h] != -1 && a <= table[h];
          assert nums[table[h]] == nums[i];
        }
        NoCollisionExact(nums, k, table[h := i], i + 1);
      }
    }
  }

  /** `last` maps every value among nums[..i] to the latest index holding it. */
  predicate LastSeen(nums: seq<int>, last: map<int, int>, i: int)
  {
    && 0 <= i <= |nums|
    && (forall j :: 0 <= j < i ==> nums[j] in last)
    && forall v :: v in last ==>
         0 <= last[v] < i && nums[last[v]] == v && forall j :: last[v] < j < i ==> nums[j] != v
  }

  /**
   * containsNearbyDuplicate with a table keyed by the value itself, so
   * nothing is overwritten but the value's own older index: true exactly
   * when two equal values lie at most k apart.
   */
  method ContainsNearbyDuplicate(nums: seq<int>, k: int) returns (r: bool)
    ensures r <==> HasNearbyDuplicate(nums, k)
  {
    var last: map<int, int> := map[];
    var i := 0;
    while i < |nums|
      invariant LastSeen(nums, last, i)
      invariant forall a, b :: 0 <= a < b < i && nums[a] == nums[b] ==> b - a > k
      decreases |nums| - i
    {
      if nums[i] in last && i - last[nums[i]] <= k {
        assert nums[last[nums[i]]] == nums[i];
        return true;
      }
      last := last[nums[i] := i];
      i := i + 1;
    }
    return false;
  }

  /** The source's three tests, on the written loop. */
  lemma KnownAnswersAsWritten()
    ensures ScanAsWritten([1, 2, 3, 1], 3, EmptyTable(4), 0)
    ensures ScanAsWritten([1, 0, 1, 1], 1, EmptyTable(4), 0)
    ensures !ScanAsWritten([1, 2, 3, 1, 2, 3], 2, EmptyTable(6), 0)
  {
    assert EmptyTable(4) == [-1, -1, -1, -1];
    assert EmptyTable(6) == [-1, -1, -1, -1, -1, -1];
  }

  /** The source's three tests hold of the question itself, so ContainsNearbyDuplicate answers 1, 1 and 0. */
  lemma KnownAnswers()
    ensures HasNearbyDuplicate([1, 2, 3, 1], 3)
    ensures HasNearbyDuplicate([1, 0, 1, 1], 1)
    ensures !HasNearbyDuplicate([1, 2, 3, 1, 2, 3], 2)
  {
    var a, b := [1, 2, 3, 1], [1, 0, 1, 1];
    assert a[0] == a[3] && b[2] == b[3];
  }
}
