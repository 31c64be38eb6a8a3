/**
 * The fixed-capacity descriptor index pool of the Direct3D 12 driver
 * (LearningRendering/viddriver_d3d12.cpp, template DescriptorAllocator).
 *
 * A pool of `size` descriptor slots hands out indices from a bump cursor
 * (`maxOffset`) and recycles released indices through a LIFO free stack
 * (`offsets`, whose top is its last element).  The heap object itself and
 * the device queries made by `Init` are opaque: the start address of the
 * heap and the handle increment are plain numbers supplied by the caller.
 */
module DescriptorHeap {
  import opened Results

  /** The error thrown when the heap is full: the source reports the heap type. */
  datatype AllocError = HeapLimitReached(heapType: nat)

  /** What Allocate returns: the CPU descriptor handle and the slot index. */
  datatype Allocation = Allocation(cpuHandle: nat, offset: nat)

  /** The value part of an allocator: its free stack and its bump cursor. */
  datatype Pool = Pool(free: seq<nat>, maxOffset: nat)

  /** The slot indices below `n`. */
  function Below(n: nat): set<nat>
  {
    if n == 0 then {} else Below(n - 1) + {n - 1}
  }

  lemma {:induction false} BelowMembers(n: nat)
    ensures forall k: nat :: k in Below(n) <==> k < n
  {
    if n > 0 {
      BelowMembers(n - 1);
    }
  }

  lemma {:induction false} BelowCardinality(n: nat)
    ensures |Below(n)| == n
  {
    if n > 0 {
      BelowCardinality(n - 1);
      BelowMembers(n - 1);
    }
  }

  /** The elements of a sequence are pairwise different. */
  predicate Distinct(s: seq<nat>)
  {
    forall i, j :: 0 <= i < j < |s| ==> s[i] != s[j]
  }

  /**
   * The bookkeeping invariant of a pool of capacity `size` whose indices in
   * `live` are held by callers: every index below the cursor is either live
   * or on the free stack, never both, and never twice on the stack.
   */
  ghost predicate PoolInv(p: Pool, live: set<nat>, size: nat)
  {
    && p.maxOffset <= size
    && Distinct(p.free)
    && (forall i :: 0 <= i < |p.free| ==> p.free[i] < p.maxOffset && p.free[i] !in live)
    && live + (set x | x in p.free) == Below(p.maxOffset)
  }

  /**
   * One call of Allocate on a pool of capacity `size`: None when the source
   * throws, otherwise the index handed out and the pool afterwards.
   */
  function AllocateSpec(p: Pool, size: nat): Option<(nat, Pool)>
  {
    if p.maxOffset == size && p.free == [] then None
    else if p.free == [] then Some((p.maxOffset, Pool([], p.maxOffset + 1)))
    else Some((p.free[|p.free| - 1], Pool(p.free[..|p.free| - 1], p.maxOffset)))
  }

  /** One call of Release: the index goes on top of the free stack, unchecked. */
  function ReleaseSpec(p: Pool, offset: nat): Pool
  {
    Pool(p.free + [offset], p.maxOffset)
  }

  /** The handle of slot `offset`: heap start plus one increment per slot. */
  function HandleOf(heapStart: nat, incrementSize: nat, offset: nat): nat
  {
    heapStart + incrementSize * offset
  }

  /** Allocate throws exactly when every slot of the capacity is held by a caller. */
  lemma {:induction false} ExhaustedIffAllLive(p: Pool, live: set<nat>, size: nat)
    requires PoolInv(p, live, size)
    ensures AllocateSpec(p, size).None? <==> |live| == size
  {
    var onStack := set x | x in p.free;
    BelowCardinality(p.maxOffset);
    assert live !! onStack;
    if p.maxOffset == size && p.free == [] {
      assert onStack == {};
      assert live == Below(size);
    } else {
      if p.free != [] {
        var top := p.free[|p.free| - 1];
        assert top in onStack && top !in live;
        assert live < Below(p.maxOffset);
      } else {
        assert live == Below(p.maxOffset);
      }
      assert |live| < size;
    }
  }

  /**
   * Allocation keeps the bookkeeping and hands out an index below the
   * capacity that no caller holds; it comes from the top of the free stack
   * when there is one and from the cursor otherwise.
   */
  lemma {:induction false} AllocateKeepsInvariant(p: Pool, live: set<nat>, size: nat)
    requires PoolInv(p, live, size)
    requires AllocateSpec(p, size).Some?
    ensures var (o, q) := AllocateSpec(p, size).value;
      && o < size && o !in live
      && PoolInv(q, live + {o}, size)
      && (p.free == [] ==> o == p.maxOffset && q.maxOffset == p.maxOffset + 1)
      && (p.free != [] ==> o == p.free[|p.free| - 1] && q.maxOffset == p.maxOffset)
  {
    if p.free == [] {
      BumpKeepsInvariant(p, live, size);
    } else {
      PopKeepsInvariant(p, live, size);
    }
  }

  /** Allocating from the cursor: the cursor's index is held by nobody and the cursor moves on. */
  lemma BumpKeepsInvariant(p: Pool, live: set<nat>, size: nat)
    requires PoolInv(p, live, size) && p.free == [] && p.maxOffset < size
    ensures p.maxOffset !in live && PoolInv(Pool([], p.maxOffset + 1), live + {p.maxOffset}, size)
  {
    BelowMembers(p.maxOffset);
    assert p.maxOffset !in Below(p.maxOffset);
    assert Below(p.maxOffset + 1) == Below(p.maxOffset) + {p.maxOffset};
  }

  /** Allocating from the free stack: its top is held by nobody and is popped. */
  lemma PopKeepsInvariant(p: Pool, live: set<nat>, size: nat)
    requires PoolInv(p, live, size) && p.free != []
    ensures var o, rest := p.free[|p.free| - 1], p.free[..|p.free| - 1];
      o < size && o !in live && PoolInv(Pool(rest, p.maxOffset), live + {o}, size)
  {
    var n := |p.free| - 1;
    var o, rest := p.free[n], p.free[..n];
    assert p.free == rest + [o];
    assert (set x | x in p.free) == (set x | x in rest) + {o};
    forall i | 0 <= i < |rest|
      ensures rest[i] != o
    {
      assert rest[i] == p.free[i];
    }
  }

  /** Releasing a held index keeps the bookkeeping: the index is free again. */
  lemma {:induction false} ReleaseKeepsInvariant(p: Pool, live: set<nat>, size: nat, offset: nat)
    requires PoolInv(p, live, size)
    requires offset in live
    ensures PoolInv(ReleaseSpec(p, offset), live - {offset}, size)
  {
    var q := ReleaseSpec(p, offset);
    BelowMembers(p.maxOffset);
    assert offset in Below(p.maxOffset);
    assert (set x | x in q.free) == (set x | x in p.free) + {offset};
    assert offset !in (set x | x in p.free);
    forall i, j | 0 <= i < j < |q.free|
      ensures q.free[i] != q.free[j]
    {
      if j == |p.free| {
        assert q.free[i] == p.free[i];
        assert p.free[i] in (set x | x in p.free);
      }
    }
  }

  /** The last index released is the next one allocated, and the pool is as before (LIFO). */
  lemma {:induction false} ReleaseThenAllocate(p: Pool, size: nat, offset: nat)
    ensures AllocateSpec(ReleaseSpec(p, offset), size) == Some((offset, p))
  {
    assert (p.free + [offset])[..|p.free|] == p.free;
  }

  /** Pushes every index of `offsets`, first to last. */
  function ReleaseAll(p: Pool, offsets: seq<nat>): Pool
    decreases |offsets|
  {
    if offsets == [] then p else ReleaseAll(ReleaseSpec(p, offsets[0]), offsets[1..])
  }

  /** Allocates `n` times; the indices in the order they were handed out. */
  function AllocateMany(p: Pool, size: nat, n: nat): Option<(seq<nat>, Pool)>
    decreases n
  {
    if n == 0 then Some(([], p))
    else match AllocateSpec(p, size)
      case None => None
      case Some((o, q)) =>
        match AllocateMany(q, size, n - 1)
        case None => None
        case Some((os, r)) => Some(([o] + os, r))
  }

  function Reversed(s: seq<nat>): seq<nat>
  {
    if s == [] then [] else Reversed(s[1..]) + [s[0]]
  }

  lemma {:induction false} ReleaseAllPushes(p: Pool, offsets: seq<nat>)
    ensures ReleaseAll(p, offsets) == Pool(p.free + offsets, p.maxOffset)
    decreases |offsets|
  {
    if offsets != [] {
      ReleaseAllPushes(ReleaseSpec(p, offsets[0]), offsets[1..]);
      assert p.free + [offsets[0]] + offsets[1..] == p.free + offsets;
    }
  }

  lemma {:induction false} AllocateManyPops(free: seq<nat>, maxOffset: nat, size: nat, offsets: seq<nat>)
    ensures AllocateMany(Pool(free + offsets, maxOffset), size, |offsets|)
         == Some((Reversed(offsets), Pool(free, maxOffset)))
    decreases |offsets|
  {
    if offsets != [] {
      var n := |offsets| - 1;
      var last := offsets[n];
      assert free + offsets == (free + offsets[..n]) + [last];
      assert (free + offsets)[..|free + offsets| - 1] == free + offsets[..n];
      AllocateManyPops(free, maxOffset, size, offsets[..n]);
      ReversedSnoc(offsets[..n], last);
      assert offsets[..n] + [last] == offsets;
    } else {
      assert free + offsets == free;
    }
  }

  lemma {:induction false} ReversedSnoc(s: seq<nat>, x: nat)
    ensures Reversed(s + [x]) == [x] + Reversed(s)
    decreases |s|
  {
    if s != [] {
      assert (s + [x])[1..] == s[1..] + [x];
      ReversedSnoc(s[1..], x);
    }
  }

  /**
   * Releasing N indices and allocating N again (what the swap-chain resize
   * does with its render-target views) gives the same indices back in
   * reverse order and leaves the pool exactly as it was, whatever was on
   * the free stack before.
   */
  lemma {:induction false} ReleaseAllThenAllocateReverses(p: Pool, size: nat, offsets: seq<nat>)
    ensures AllocateMany(ReleaseAll(p, offsets), size, |offsets|) == Some((Reversed(offsets), p))
  {
    ReleaseAllPushes(p, offsets);
    AllocateManyPops(p.free, p.maxOffset, size, offsets);
  }

  /** Release does not check for a double release: the same index is then handed out twice. */
  lemma {:induction false} DoubleReleaseHandsOutTwice(p: Pool, size: nat, offset: nat)
    ensures AllocateMany(ReleaseSpec(ReleaseSpec(p, offset), offset), size, 2) == Some(([offset, offset], p))
  {
    ReleaseThenAllocate(ReleaseSpec(p, offset), size, offset);
    ReleaseThenAllocate(p, size, offset);
    assert AllocateMany(p, size, 0) == Some(([], p));
    assert [offset] + [] == [offset];
    assert AllocateMany(ReleaseSpec(p, offset), size, 1) == Some(([offset], p));
    assert [offset] + [offset] == [offset, offset];
  }

  /** Two different slots of one heap never share a CPU handle. */
  lemma HandlesDistinct(heapStart: nat, incrementSize: nat, a: nat, b: nat)
    requires incrementSize > 0 && a != b
    ensures HandleOf(heapStart, incrementSize, a) != HandleOf(heapStart, incrementSize, b)
  {
    if a < b {
      assert incrementSize * b == incrementSize * a + incrementSize * (b - a);
    } else {
      assert incrementSize * a == incrementSize * b + incrementSize * (a - b);
    }
  }

  /**
   * DescriptorAllocator<Type, Size>: `offsets` is the free stack,
   * `maxOffset` the bump cursor; `live` (ghost) is the set of indices
   * currently held by callers.
   */
  class DescriptorAllocator {
    const heapType: nat
    const size: nat
    var heapStart: nat
    var incrementSize: nat
    var offsets: seq<nat>
    var maxOffset: nat
    ghost var live: set<nat>

    ghost predicate Valid()
      reads this
    {
      PoolInv(Pool(offsets, maxOffset), live, size)
    }

    function View(): Pool
      reads this
    {
      Pool(offsets, maxOffset)
    }

    /** A pool whose heap has not been created yet: nothing handed out. */
    constructor (heapType: nat, size: nat)
      ensures Valid()
      ensures this.heapType == heapType && this.size == size
      ensures offsets == [] && maxOffset == 0 && live == {}
      ensures heapStart == 0 && incrementSize == 0
    {
      this.heapType := heapType;
      this.size := size;
      heapStart, incrementSize := 0, 0;
      offsets, maxOffset := [], 0;
      live := {};
    }

    /**
     * Init: the heap is created by the device (opaque); its start address
     * and the device's handle increment for this heap type are recorded.
     */
    method Init(heapStart: nat, incrementSize: nat)
      requires Valid()
      modifies this
      ensures Valid()
      ensures this.heapStart == heapStart && this.incrementSize == incrementSize
      ensures offsets == old(offsets) && maxOffset == old(maxOffset) && live == old(live)
    {
      this.heapStart := heapStart;
      this.incrementSize := incrementSize;
    }

    method Allocate() returns (r: Result<Allocation, AllocError>)
      requires Valid()
      modifies this
      ensures Valid()
      ensures heapStart == old(heapStart) && incrementSize == old(incrementSize)
      ensures r.Err? <==> AllocateSpec(old(View()), size).None?
      ensures r.Err? ==> (r.error == HeapLimitReached(heapType)
        && offsets == old(offsets) && maxOffset == old(maxOffset) && live == old(live))
      ensures r.Ok? ==> (AllocateSpec(old(View()), size) == Some((r.value.offset, View()))
        && r.value.offset < size && r.value.offset !in old(live)
        && live == old(live) + {r.value.offset}
        && r.value.cpuHandle == HandleOf(heapStart, incrementSize, r.value.offset))
    {
      if maxOffset == size && |offsets| == 0 {
        return Err(HeapLimitReached(heapType));
      }
      AllocateKeepsInvariant(View(), live, size);
      var offset := 0;
      if |offsets| == 0 {
        offset := maxOffset;
        maxOffset := maxOffset + 1;
      } else {
        offset := offsets[|offsets| - 1];
        offsets := offsets[..|offsets| - 1];
      }
      live := live + {offset};
      var cpuHandle := heapStart + incrementSize * offset;
      r := Ok(Allocation(cpuHandle, offset));
    }

    /**
     * Release pushes the index on the free stack without any check; the
     * caller's contract is to release only an index it holds, once.
     */
    method Release(offset: nat)
      requires Valid() && offset in live
      modifies this
      ensures Valid()
      ensures View() == ReleaseSpec(old(View()), offset)
      ensures live == old(live) - {offset}
      ensures heapStart == old(heapStart) && incrementSize == old(incrementSize)
    {
      ReleaseKeepsInvariant(View(), live, size, offset);
      offsets := offsets + [offset];
      live := live - {offset};
    }
  }
}
