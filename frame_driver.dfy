/**
 * The frame bookkeeping of the Direct3D 12 video driver
 * (LearningRendering/viddriver_d3d12.cpp, class VidDriver).
 *
 * What is kept of the driver: the frame counter and the per-slot lists of
 * staging buffers, the render-target descriptor indices of the N swap-chain
 * back buffers, the commands recorded into the graphics command list (only
 * the resource barriers, copies and render-target bindings the modelled
 * calls record), and the two fences as monotone counters.  Every device,
 * queue and swap-chain call is opaque; the completed value of a fence, which
 * the GPU advances on its own, is a parameter of the call that reads it.
 */
module FrameDriver {
  import opened Results
  import opened DescriptorHeap
  import opened ModArith

  /** Capacity of the render-target-view descriptor pool. */
  const RtvHeapSize: nat := 1024

  /** The D3D12 resource states the modelled calls name. */
  datatype ResourceState = Common | CopySource | CopyDest | RenderTarget | Present

  /**
   * A GPU buffer (Buffer::Impl): its stored state tag, which starts at
   * COMMON, the state it is created in, and the bytes last written to it by
   * the CPU.  `uploadFrame` is the frame whose UploadBuffer created it,
   * meaningful for staging buffers only.
   */
  class Buffer {
    var state: ResourceState
    var bytes: seq<bv8>
    ghost const uploadFrame: nat

    /** A buffer created by the application (CreateBuffer): COMMON, no data yet. */
    constructor ()
      ensures state == Common && bytes == [] && uploadFrame == 0
    {
      state := Common;
      bytes := [];
      uploadFrame := 0;
    }

    /** The staging buffer of an upload in frame `frame`: COMMON, holding `data`. */
    constructor Staging(data: seq<bv8>, frame: nat)
      ensures state == Common && bytes == data && uploadFrame == frame
    {
      state := Common;
      bytes := data;
      uploadFrame := frame;
    }
  }

  /** A resource a barrier can name: a buffer object, or the back buffer of a swap-chain slot. */
  datatype Resource = BufferResource(buffer: Buffer) | BackBuffer(slot: nat)

  /** The commands the modelled calls record into the graphics command list. */
  datatype Command =
    | Barrier(resource: Resource, before: ResourceState, after: ResourceState)
    | CopyResource(dst: Resource, src: Resource)
    | SetRootSignature
    | SetRenderTarget(cpuHandle: nat)

  /** The actual state of each resource on the GPU timeline. */
  type Tracker = map<Resource, ResourceState>

  /**
   * Executes one command against the actual resource states: a transition
   * barrier is valid only when its before-state is the resource's state, a
   * copy only from a COPY_SOURCE resource to a COPY_DEST one.
   */
  function Apply(t: Tracker, c: Command): Option<Tracker>
  {
    match c
    case Barrier(r, before, after) =>
      if r in t && t[r] == before then Some(t[r := after]) else None
    case CopyResource(dst, src) =>
      if dst in t && src in t && t[dst] == CopyDest && t[src] == CopySource then Some(t) else None
    case SetRootSignature => Some(t)
    case SetRenderTarget(_) => Some(t)
  }

  /** Executes a command list in order; None at the first invalid command. */
  function Replay(t: Tracker, cmds: seq<Command>): Option<Tracker>
    decreases |cmds|
  {
    if cmds == [] then Some(t)
    else match Apply(t, cmds[0])
      case None => None
      case Some(t') => Replay(t', cmds[1..])
  }

  /** Replaying two lists one after the other is replaying their concatenation. */
  lemma {:induction false} ReplayAppend(t: Tracker, a: seq<Command>, b: seq<Command>)
    ensures Replay(t, a + b) == match Replay(t, a) case None => None case Some(t') => Replay(t', b)
    decreases |a|
  {
    if a == [] {
      assert a + b == b;
    } else {
      assert (a + b)[0] == a[0];
      assert (a + b)[1..] == a[1..] + b;
      match Apply(t, a[0])
      case None =>
      case Some(t') =>
        ReplayAppend(t', a[1..], b);
        assert Replay(t, a + b) == Replay(t', a[1..] + b);
        assert Replay(t, a) == Replay(t', a[1..]);
    }
  }

  /**
   * The five commands UploadBuffer records: staging to COPY_SOURCE and
   * destination to COPY_DEST from their stored tags, the copy, then both
   * back to their stored tags.
   */
  function UploadCommands(staging: Resource, stagingTag: ResourceState, dst: Resource, dstTag: ResourceState): seq<Command>
  {
    [ Barrier(staging, stagingTag, CopySource), Barrier(dst, dstTag, CopyDest),
      CopyResource(dst, staging),
      Barrier(staging, CopySource, stagingTag), Barrier(dst, CopyDest, dstTag) ]
  }

  /**
   * The upload's barriers are valid exactly when both stored tags are the
   * resources' actual states, and then the pairs are inverse: every
   * resource ends in the state it started in, so the tags stay right.
   */
  lemma UploadRestoresStates(t: Tracker, staging: Resource, stagingTag: ResourceState, dst: Resource, dstTag: ResourceState)
    requires staging != dst && staging in t && dst in t
    ensures Replay(t, UploadCommands(staging, stagingTag, dst, dstTag)).Some?
        <==> t[staging] == stagingTag && t[dst] == dstTag
    ensures t[staging] == stagingTag && t[dst] == dstTag
        ==> Replay(t, UploadCommands(staging, stagingTag, dst, dstTag)) == Some(t)
  {
    var cmds := UploadCommands(staging, stagingTag, dst, dstTag);
    if t[staging] == stagingTag && t[dst] == dstTag {
      var t1 := t[staging := CopySource];
      var t2 := t1[dst := CopyDest];
      var t4 := t2[staging := stagingTag];
      assert Apply(t, cmds[0]) == Some(t1);
      assert Apply(t1, cmds[1]) == Some(t2);
      assert Apply(t2, cmds[2]) == Some(t2);
      assert Apply(t2, cmds[3]) == Some(t4);
      assert Apply(t4, cmds[4]) == Some(t4[dst := dstTag]);
      assert Replay(t4, cmds[4..]) == Some(t4[dst := dstTag]) by {
        assert cmds[4..][1..] == [];
      }
      assert Replay(t2, cmds[3..]) == Replay(t4, cmds[4..]) by { assert cmds[3..][1..] == cmds[4..]; }
      assert Replay(t2, cmds[2..]) == Replay(t2, cmds[3..]) by { assert cmds[2..][1..] == cmds[3..]; }
      assert Replay(t1, cmds[1..]) == Replay(t2, cmds[2..]) by { assert cmds[1..][1..] == cmds[2..]; }
      assert t4[dst := dstTag] == t;
    } else if t[staging] != stagingTag {
      assert Apply(t, cmds[0]) == None;
    } else {
      var t1 := t[staging := CopySource];
      assert Apply(t, cmds[0]) == Some(t1);
      assert Apply(t1, cmds[1]) == None;
      assert Replay(t1, cmds[1..]) == None;
    }
  }

  /** One recorded upload: the two resources and their stored tags. */
  datatype Upload = Upload(staging: Resource, stagingTag: ResourceState, dst: Resource, dstTag: ResourceState)

  function UploadsCommands(us: seq<Upload>): seq<Command>
    decreases |us|
  {
    if us == [] then []
    else UploadCommands(us[0].staging, us[0].stagingTag, us[0].dst, us[0].dstTag) + UploadsCommands(us[1..])
  }

  /**
   * Any number of uploads recorded into one list leaves every resource in
   * its starting state, provided each upload's tags are the actual states
   * (which holds because the driver never writes a tag).
   */
  lemma {:induction false} UploadsRestoreStates(t: Tracker, us: seq<Upload>)
    requires forall i :: 0 <= i < |us| ==>
      us[i].staging != us[i].dst && us[i].staging in t && us[i].dst in t
      && t[us[i].staging] == us[i].stagingTag && t[us[i].dst] == us[i].dstTag
    ensures Replay(t, UploadsCommands(us)) == Some(t)
    decreases |us|
  {
    if us != [] {
      var u := us[0];
      UploadRestoresStates(t, u.staging, u.stagingTag, u.dst, u.dstTag);
      ReplayAppend(t, UploadCommands(u.staging, u.stagingTag, u.dst, u.dstTag), UploadsCommands(us[1..]));
      UploadsRestoreStates(t, us[1..]);
    }
  }

  /** What SetRenderTargets and then Present record for slot `slot`. */
  function PresentBracket(slot: nat, cpuHandle: nat): seq<Command>
  {
    [ Barrier(BackBuffer(slot), Present, RenderTarget), SetRenderTarget(cpuHandle),
      Barrier(BackBuffer(slot), RenderTarget, Present) ]
  }

  /**
   * SetRenderTargets then Present is valid exactly when the slot's back
   * buffer is in PRESENT, and brings it back to PRESENT.
   */
  lemma PresentBracketRestores(t: Tracker, slot: nat, cpuHandle: nat)
    requires BackBuffer(slot) in t
    ensures Replay(t, PresentBracket(slot, cpuHandle)).Some? <==> t[BackBuffer(slot)] == Present
    ensures t[BackBuffer(slot)] == Present ==> Replay(t, PresentBracket(slot, cpuHandle)) == Some(t)
  {
    var cmds := PresentBracket(slot, cpuHandle);
    var bb := BackBuffer(slot);
    if t[bb] == Present {
      var t1 := t[bb := RenderTarget];
      assert Apply(t, cmds[0]) == Some(t1);
      assert Apply(t1, cmds[1]) == Some(t1);
      assert Apply(t1, cmds[2]) == Some(t1[bb := Present]);
      assert Replay(t1, cmds[2..]) == Some(t1[bb := Present]) by { assert cmds[2..][1..] == []; }
      assert Replay(t1, cmds[1..]) == Replay(t1, cmds[2..]) by { assert cmds[1..][1..] == cmds[2..]; }
      assert t1[bb := Present] == t;
    } else {
      assert Apply(t, cmds[0]) == None;
    }
  }

  /** The slot indices of the back buffers' render-target views. */
  function Offsets(bs: seq<Allocation>): seq<nat>
  {
    seq(|bs|, i requires 0 <= i < |bs| => bs[i].offset)
  }

  lemma {:induction false} AllocateManyStep(p: Pool, size: nat, n: nat)
    requires AllocateMany(p, size, n).Some?
    ensures var (os, q) := AllocateMany(p, size, n).value;
      AllocateMany(p, size, n + 1) ==
        match AllocateSpec(q, size)
        case None => None
        case Some((o, r)) => Some((os + [o], r))
    decreases n
  {
    if n == 0 {
      match AllocateSpec(p, size)
      case None =>
      case Some((o, r)) =>
        assert AllocateMany(r, size, 0) == Some(([], r));
        assert [o] + [] == [] + [o];
    } else {
      var (o1, q1) := AllocateSpec(p, size).value;
      AllocateManyStep(q1, size, n - 1);
      var (os, q) := AllocateMany(q1, size, n - 1).value;
      assert AllocateMany(p, size, n) == Some(([o1] + os, q));
      match AllocateSpec(q, size)
      case None =>
      case Some((o, r)) =>
        assert AllocateMany(q1, size, n) == Some((os + [o], r));
        assert AllocateMany(p, size, n + 1) == Some(([o1] + (os + [o]), r));
        assert [o1] + (os + [o]) == ([o1] + os) + [o];
    }
  }

  lemma {:induction false} AllocateManyFailsOnward(p: Pool, size: nat, n: nat, m: nat)
    requires AllocateMany(p, size, n).None? && n <= m
    ensures AllocateMany(p, size, m).None?
    decreases n
  {
    if n > 0 {
      match AllocateSpec(p, size)
      case None =>
      case Some((o, q)) => AllocateManyFailsOnward(q, size, n - 1, m - 1);
    }
  }

  /** The numbers lo, lo + 1, ..., hi - 1. */
  function Range(lo: nat, hi: nat): seq<nat>
    decreases hi - lo
  {
    if lo >= hi then [] else [lo] + Range(lo + 1, hi)
  }

  /** From an untouched pool the cursor hands out m, m + 1, ..., m + n - 1. */
  lemma {:induction false} FreshPoolBumps(m: nat, size: nat, n: nat)
    requires m + n <= size
    ensures AllocateMany(Pool([], m), size, n) == Some((Range(m, m + n), Pool([], m + n)))
    decreases n
  {
    if n > 0 {
      FreshPoolBumps(m + 1, size, n - 1);
      assert AllocateSpec(Pool([], m), size) == Some((m, Pool([], m + 1)));
    }
  }

  /** The elements of a sequence of indices. */
  function Elems(s: seq<nat>): set<nat>
  {
    set x | x in s
  }

  lemma DistinctSnoc(s: seq<nat>, x: nat)
    requires Distinct(s) && x !in Elems(s)
    ensures Distinct(s + [x]) && Elems(s + [x]) == Elems(s) + {x}
  {
    assert forall i :: 0 <= i < |s| ==> s[i] in Elems(s);
  }

  /** Each back buffer's CPU handle is the handle of its descriptor slot. */
  predicate HandlesMatch(bs: seq<Allocation>, heapStart: nat, incrementSize: nat)
  {
    forall i :: 0 <= i < |bs| ==> bs[i].cpuHandle == HandleOf(heapStart, incrementSize, bs[i].offset)
  }

  /** Writing entry i of the back buffers extends the written prefix by one. */
  lemma PrefixStep(bs: seq<Allocation>, i: nat, a: Allocation, heapStart: nat, incrementSize: nat)
    requires i < |bs| && HandlesMatch(bs[..i], heapStart, incrementSize)
    requires a.cpuHandle == HandleOf(heapStart, incrementSize, a.offset)
    ensures HandlesMatch(bs[i := a][..i + 1], heapStart, incrementSize)
    ensures Offsets(bs[i := a][..i + 1]) == Offsets(bs[..i]) + [a.offset]
  {
    assert bs[i := a][..i + 1] == bs[..i] + [a];
  }

  /** The one frame slot a frame number uses. */
  function SlotOf(frame: nat, n: nat): nat
    requires n >= 1
  {
    frame % n
  }

  /**
   * A staging buffer sitting in the slot that EndFrame clears came from
   * frame next - N, so with N >= 2 its fence value (frame + 1) is at most
   * the frame EndFrame waited for.
   */
  lemma ClearedSlotFrame(f: nat, cur: nat, n: nat)
    requires n >= 1 && f % n == (cur + 1) % n && cur < f + n && f <= cur
    ensures f + n == cur + 1
  {
    if cur + 1 - f < n {
      ModCloseDistinct(f, cur + 1 - f, n);
    }
  }

  /**
   * The driver: N frames in flight, the render-target-view pool, the back
   * buffers' views, the frame counter and per-slot staging lists, the
   * recorded command list, and the two fences.
   */
  class VidDriver {
    const framesInFlight: nat
    const rtv: DescriptorAllocator
    var backBuffers: seq<Allocation>
    var frameNumber: nat
    var uploadBuffers: seq<seq<Buffer>>
    var commands: seq<Command>
    ghost var submitted: seq<seq<Command>>
    var presentedSlots: seq<nat>
    /** The completed value of the frame fence; the queue signals frame f's end with f + 1. */
    var frameFenceCompleted: nat
    /** The function-local static counter of FlushAndWait. */
    var flushValue: nat
    var flushFenceCompleted: nat

    /** Everything but the back buffers and the descriptor pool. */
    ghost function FrameBook(): (nat, seq<seq<Buffer>>, seq<Command>, seq<seq<Command>>, seq<nat>, nat, nat, nat)
      reads this
    {
      (frameNumber, uploadBuffers, commands, submitted, presentedSlots, frameFenceCompleted, flushValue, flushFenceCompleted)
    }

    ghost predicate Valid()
      reads this, rtv
    {
      && 1 <= framesInFlight <= RtvHeapSize
      && rtv.Valid() && rtv.size == RtvHeapSize
      && |backBuffers| == framesInFlight
      && Distinct(Offsets(backBuffers)) && Elems(Offsets(backBuffers)) <= rtv.live
      && HandlesMatch(backBuffers, rtv.heapStart, rtv.incrementSize)
      && |uploadBuffers| == framesInFlight
      && (forall s, b :: 0 <= s < |uploadBuffers| && b in uploadBuffers[s] ==>
            b.uploadFrame % framesInFlight == s
            && b.uploadFrame <= frameNumber < b.uploadFrame + framesInFlight)
      && frameFenceCompleted <= frameNumber
      && flushFenceCompleted == flushValue
    }

    /**
     * InitAPI's bookkeeping: frame 0, empty staging lists, fences at 0, and
     * CreateBackBuffers on the fresh pool, which always succeeds because N
     * is at most the pool's capacity.
     */
    constructor (n: nat, rtvHeapStart: nat, rtvIncrementSize: nat)
      requires 1 <= n <= RtvHeapSize
      ensures Valid()
      ensures framesInFlight == n && frameNumber == 0 && commands == []
      ensures Offsets(backBuffers) == Range(0, n)
      ensures forall s :: 0 <= s < n ==> uploadBuffers[s] == []
    {
      framesInFlight := n;
      var pool := new DescriptorAllocator(2, RtvHeapSize);
      pool.Init(rtvHeapStart, rtvIncrementSize);
      rtv := pool;
      backBuffers := seq(n, i => Allocation(0, 0));
      frameNumber := 0;
      uploadBuffers := seq(n, i => []);
      commands := [];
      submitted := [];
      presentedSlots := [];
      frameFenceCompleted := 0;
      flushValue := 0;
      flushFenceCompleted := 0;
      new;
      FreshPoolBumps(0, RtvHeapSize, n);
      var r := CreateBackBuffers();
      assert r.Ok?;
    }

    /**
     * Allocates one render-target view per slot, in slot order; the
     * exception for an exhausted pool is the error result.
     */
    method CreateBackBuffers() returns (r: Result<(), AllocError>)
      requires 1 <= framesInFlight <= RtvHeapSize
      requires rtv.Valid() && rtv.size == RtvHeapSize && |backBuffers| == framesInFlight
      modifies this, rtv
      ensures rtv.size == RtvHeapSize && rtv.heapStart == old(rtv.heapStart) && rtv.incrementSize == old(rtv.incrementSize)
      ensures |backBuffers| == framesInFlight && rtv.Valid()
      ensures r.Ok? <==> AllocateMany(old(rtv.View()), rtv.size, framesInFlight).Some?
      ensures r.Ok? ==> (
        && AllocateMany(old(rtv.View()), rtv.size, framesInFlight) == Some((Offsets(backBuffers), rtv.View()))
        && rtv.live == old(rtv.live) + Elems(Offsets(backBuffers))
        && Distinct(Offsets(backBuffers)) && old(rtv.live) !! Elems(Offsets(backBuffers)))
      ensures r.Ok? ==> HandlesMatch(backBuffers, rtv.heapStart, rtv.incrementSize)
      ensures FrameBook() == old(FrameBook())
    {
      ghost var start := rtv.View();
      ghost var got: seq<nat> := [];
      var i := 0;
      while i < framesInFlight
        invariant 0 <= i <= framesInFlight && |backBuffers| == framesInFlight && |got| == i
        invariant rtv.Valid() && rtv.size == RtvHeapSize
        invariant rtv.heapStart == old(rtv.heapStart) && rtv.incrementSize == old(rtv.incrementSize)
        invariant AllocateMany(start, rtv.size, i) == Some((got, rtv.View()))
        invariant rtv.live == old(rtv.live) + Elems(got)
        invariant Distinct(got) && old(rtv.live) !! Elems(got)
        invariant Offsets(backBuffers[..i]) == got
        invariant HandlesMatch(backBuffers[..i], rtv.heapStart, rtv.incrementSize)
        invariant FrameBook() == old(FrameBook())
      {
        AllocateManyStep(start, rtv.size, i);
        var a := rtv.Allocate();
        if a.Err? {
          AllocateManyFailsOnward(start, rtv.size, i + 1, framesInFlight);
          return Err(a.error);
        }
        PrefixStep(backBuffers, i, a.value, rtv.heapStart, rtv.incrementSize);
        backBuffers := backBuffers[i := a.value];
        DistinctSnoc(got, a.value.offset);
        got := got + [a.value.offset];
        i := i + 1;
      }
      assert backBuffers[..i] == backBuffers;
      r := Ok(());
    }

    /** Records the root signature binding at the start of a frame; no wait happens here. */
    method BeginFrame()
      requires Valid()
      modifies this
      ensures Valid()
      ensures commands == old(commands) + [SetRootSignature]
      ensures frameNumber == old(frameNumber) && uploadBuffers == old(uploadBuffers)
      ensures backBuffers == old(backBuffers) && submitted == old(submitted)
      ensures presentedSlots == old(presentedSlots) && frameFenceCompleted == old(frameFenceCompleted)
      ensures flushValue == old(flushValue) && flushFenceCompleted == old(flushFenceCompleted)
    {
      commands := commands + [SetRootSignature];
    }

    /** The back buffer of slot frameNumber % N goes PRESENT -> RENDER_TARGET and is bound. */
    method SetRenderTargets()
      requires Valid()
      modifies this
      ensures Valid()
      ensures var slot := SlotOf(frameNumber, framesInFlight);
        commands == old(commands)
          + [Barrier(BackBuffer(slot), ResourceState.Present, RenderTarget), SetRenderTarget(backBuffers[slot].cpuHandle)]
      ensures frameNumber == old(frameNumber) && uploadBuffers == old(uploadBuffers)
      ensures backBuffers == old(backBuffers) && submitted == old(submitted)
      ensures presentedSlots == old(presentedSlots) && frameFenceCompleted == old(frameFenceCompleted)
      ensures flushValue == old(flushValue) && flushFenceCompleted == old(flushFenceCompleted)
    {
      var slot := frameNumber % framesInFlight;
      commands := commands + [Barrier(BackBuffer(slot), ResourceState.Present, RenderTarget), SetRenderTarget(backBuffers[slot].cpuHandle)];
    }

    /**
     * The same slot's back buffer goes RENDER_TARGET -> PRESENT; the list is
     * closed and executed, and the swap chain presents.
     */
    method Present()
      requires Valid()
      modifies this
      ensures Valid()
      ensures var slot := SlotOf(frameNumber, framesInFlight);
        && submitted == old(submitted) + [old(commands) + [Barrier(BackBuffer(slot), RenderTarget, ResourceState.Present)]]
        && presentedSlots == old(presentedSlots) + [slot]
      ensures commands == []
      ensures frameNumber == old(frameNumber) && uploadBuffers == old(uploadBuffers)
      ensures backBuffers == old(backBuffers) && frameFenceCompleted == old(frameFenceCompleted)
      ensures flushValue == old(flushValue) && flushFenceCompleted == old(flushFenceCompleted)
    {
      var slot := frameNumber % framesInFlight;
      commands := commands + [Barrier(BackBuffer(slot), RenderTarget, ResourceState.Present)];
      submitted := submitted + [commands];
      commands := [];
      presentedSlots := presentedSlots + [slot];
    }

    /**
     * Advances the frame counter, signals the frame fence with the new
     * value, waits until the frame just finished has been reached (the
     * GPU's completed value at that moment is `observed`), resets the
     * command list and clears the staging list of the new frame's slot.
     * The u64 counter is assumed not to wrap.
     */
    method EndFrame(observed: nat)
      requires Valid()
      requires frameFenceCompleted <= observed <= frameNumber + 1
      modifies this
      ensures Valid()
      ensures frameNumber == old(frameNumber) + 1
      ensures frameFenceCompleted == if observed < old(frameNumber) then old(frameNumber) else observed
      ensures uploadBuffers == old(uploadBuffers)[SlotOf(frameNumber, framesInFlight) := []]
      ensures framesInFlight >= 2 ==>
        forall b :: b in old(uploadBuffers)[SlotOf(frameNumber, framesInFlight)] ==> b.uploadFrame < frameFenceCompleted
      ensures commands == [] && submitted == old(submitted) && presentedSlots == old(presentedSlots)
      ensures backBuffers == old(backBuffers)
      ensures flushValue == old(flushValue) && flushFenceCompleted == old(flushFenceCompleted)
    {
      var current := frameNumber;
      frameNumber := frameNumber + 1;
      var next := frameNumber;
      frameFenceCompleted := observed;
      if observed < current {
        frameFenceCompleted := current;
      }
      var slot := next % framesInFlight;
      commands := [];
      forall s, b | 0 <= s < |uploadBuffers| && b in uploadBuffers[s]
        ensures s == slot ==> b.uploadFrame + framesInFlight == next
        ensures s != slot ==> next < b.uploadFrame + framesInFlight
      {
        if b.uploadFrame + framesInFlight == next {
          ModShift(b.uploadFrame, framesInFlight);
        } else if s == slot {
          ClearedSlotFrame(b.uploadFrame, current, framesInFlight);
        }
      }
      uploadBuffers := uploadBuffers[slot := []];
    }

    /**
     * Creates a staging buffer holding `data` in the current frame's slot
     * and records the barrier pair around the copy into `dst`.
     */
    method UploadBuffer(data: seq<bv8>, dst: Buffer) returns (staging: Buffer)
      requires Valid()
      modifies this
      ensures Valid()
      ensures fresh(staging) && staging.state == Common && staging.bytes == data
      ensures var slot := SlotOf(frameNumber, framesInFlight);
        uploadBuffers == old(uploadBuffers)[slot := old(uploadBuffers)[slot] + [staging]]
      ensures commands == old(commands)
        + UploadCommands(BufferResource(staging), Common, BufferResource(dst), dst.state)
      ensures frameNumber == old(frameNumber) && backBuffers == old(backBuffers)
      ensures submitted == old(submitted) && presentedSlots == old(presentedSlots)
      ensures frameFenceCompleted == old(frameFenceCompleted)
      ensures flushValue == old(flushValue) && flushFenceCompleted == old(flushFenceCompleted)
    {
      var slot := frameNumber % framesInFlight;
      staging := new Buffer.Staging(data, frameNumber);
      uploadBuffers := uploadBuffers[slot := uploadBuffers[slot] + [staging]];
      commands := commands + UploadCommands(BufferResource(staging), staging.state, BufferResource(dst), dst.state);
    }

    /**
     * Waits for the frame fence to reach the current frame, submits the
     * recorded list and reopens it, then signals the flush fence with the
     * next flush value and waits for it: the queue has drained.
     */
    method FlushAndWait()
      requires Valid()
      modifies this
      ensures Valid()
      ensures flushValue == old(flushValue) + 1 && flushFenceCompleted == flushValue
      ensures frameFenceCompleted == frameNumber
      ensures submitted == old(submitted) + [old(commands)] && commands == []
      ensures frameNumber == old(frameNumber) && uploadBuffers == old(uploadBuffers)
      ensures backBuffers == old(backBuffers) && presentedSlots == old(presentedSlots)
    {
      if frameFenceCompleted < frameNumber {
        frameFenceCompleted := frameNumber;
      }
      submitted := submitted + [commands];
      commands := [];
      flushValue := flushValue + 1;
      flushFenceCompleted := flushValue;
    }

    /**
     * Flushes, releases every back buffer's view in slot order, and
     * allocates them again: the pool ends as it began and the slots get the
     * same views in reverse order.
     */
    method ResizeSwapChain() returns (r: Result<(), AllocError>)
      requires Valid()
      modifies this, rtv
      ensures r.Ok? && Valid()
      ensures Offsets(backBuffers) == Reversed(Offsets(old(backBuffers)))
      ensures rtv.View() == old(rtv.View()) && rtv.live == old(rtv.live)
      ensures flushValue == old(flushValue) + 1 && frameFenceCompleted == frameNumber
      ensures frameNumber == old(frameNumber) && uploadBuffers == old(uploadBuffers) && commands == []
    {
      FlushAndWait();
      ghost var start := rtv.View();
      ghost var offs := Offsets(backBuffers);
      ghost var live0 := rtv.live;
      var i := 0;
      while i < framesInFlight
        invariant 0 <= i <= framesInFlight && |backBuffers| == framesInFlight
        invariant offs == Offsets(backBuffers)
        invariant rtv.Valid() && rtv.size == RtvHeapSize
        invariant rtv.heapStart == old(rtv.heapStart) && rtv.incrementSize == old(rtv.incrementSize)
        invariant rtv.View() == Pool(start.free + offs[..i], start.maxOffset)
        invariant rtv.live == live0 - (set j | 0 <= j < i :: offs[j])
        invariant frameNumber == old(frameNumber) && uploadBuffers == old(uploadBuffers) && commands == []
        invariant flushValue == old(flushValue) + 1 && flushFenceCompleted == flushValue
        invariant frameFenceCompleted == frameNumber
        invariant forall s, b :: 0 <= s < |uploadBuffers| && b in uploadBuffers[s] ==>
            b.uploadFrame % framesInFlight == s
            && b.uploadFrame <= frameNumber < b.uploadFrame + framesInFlight
      {
        assert offs[i] == backBuffers[i].offset;
        assert offs[i] !in set j | 0 <= j < i :: offs[j];
        rtv.Release(backBuffers[i].offset);
        assert offs[..i + 1] == offs[..i] + [offs[i]];
        i := i + 1;
      }
      assert offs[..i] == offs;
      ReleaseAllPushes(start, offs);
      ReleaseAllThenAllocateReverses(start, rtv.size, offs);
      r := CreateBackBuffers();
      assert Offsets(backBuffers) == Reversed(offs);
      assert rtv.live == live0 by {
        ReversedSameElements(offs);
      }
    }
  }

  lemma {:induction false} ReversedSameElements(s: seq<nat>)
    ensures |Reversed(s)| == |s|
    ensures forall x :: x in Reversed(s) <==> x in s
    decreases |s|
  {
    if s != [] {
      ReversedSameElements(s[1..]);
      assert s == [s[0]] + s[1..];
    }
  }
}
