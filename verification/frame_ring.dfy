/** The frame-context ring and its fence bookkeeping (Renderer.h / Renderer.cpp).

    Three frame contexts, each owning a command allocator, are used in turn,
    picked by a 32-bit frame counter modulo the ring size. Each context
    remembers the fence value that marks the end of the GPU work last
    submitted from it; before a context is reused the CPU waits for the GPU
    fence to reach that value. The GPU's progress is the fence's completed
    value `completed`: it never decreases, never passes the last value the CPU
    asked the queue to signal, and can advance between any two operations. */
module FrameRing {
  import opened Ints
  import opened Config

  /** A command allocator, seen through its GPU-side lifetime: the GPU may
      read the commands last recorded into it until the fence reaches
      `busyUntil` (0 when nothing was ever submitted from it). */
  datatype CommandAllocator = CommandAllocator(busyUntil: uint64)

  /** `FrameContext`: the allocator and the fence value to wait for before
      reusing it; 0 means there is nothing to wait for. */
  datatype FrameContext = FrameContext(allocator: CommandAllocator, fenceValue: uint64)

  const IDLE_CONTEXT: FrameContext := FrameContext(CommandAllocator(0), 0)

  /** `m_frameContext[NUM_FRAMES_IN_FLIGHT]` */
  type Contexts = s: seq<FrameContext> | |s| == NUM_FRAMES_IN_FLIGHT
    witness [IDLE_CONTEXT, IDLE_CONTEXT, IDLE_CONTEXT]

  /** The renderer's synchronisation state: the ring, `m_frameIndex`,
      `m_fenceLastSignaledValue`, and the fence's completed value. */
  datatype Ring = Ring(
    frameContext: Contexts,
    frameIndex: uint32,
    fenceLastSignaledValue: uint64,
    completed: uint64)

  /** The ring entry a frame counter designates. */
  function SlotOf(frameIndex: uint32): (slot: nat)
    ensures slot < NUM_FRAMES_IN_FLIGHT
    ensures frameIndex < NUM_FRAMES_IN_FLIGHT ==> slot == frameIndex
  {
    frameIndex % NUM_FRAMES_IN_FLIGHT
  }

  /** The entry of the frame currently being (or last) recorded. */
  function CurrentSlot(r: Ring): nat {
    SlotOf(r.frameIndex)
  }

  /** Resetting a context's allocator is safe once the GPU has finished the
      work last recorded into it. */
  predicate SafeToReset(r: Ring, slot: nat)
    requires slot < NUM_FRAMES_IN_FLIGHT
  {
    r.completed >= r.frameContext[slot].allocator.busyUntil
  }

  /** Per-context part of the invariant: a pending context waits for exactly
      the work its allocator holds, and an idle context's allocator is done. */
  predicate ContextInv(r: Ring, fc: FrameContext) {
    && fc.fenceValue <= r.fenceLastSignaledValue
    && fc.allocator.busyUntil <= r.fenceLastSignaledValue
    && (fc.fenceValue != 0 ==> fc.fenceValue == fc.allocator.busyUntil)
    && (fc.fenceValue == 0 ==> r.completed >= fc.allocator.busyUntil)
  }

  /** The ring invariant: the GPU is not ahead of the CPU's last signal, every
      context satisfies `ContextInv`, and no two contexts wait for the same
      nonzero fence value. */
  predicate Inv(r: Ring) {
    && r.completed <= r.fenceLastSignaledValue
    && (forall i :: 0 <= i < NUM_FRAMES_IN_FLIGHT ==> ContextInv(r, r.frameContext[i]))
    && (forall i, j ::
          (0 <= i < NUM_FRAMES_IN_FLIGHT && 0 <= j < NUM_FRAMES_IN_FLIGHT && i != j && r.frameContext[i].fenceValue != 0)
          ==> r.frameContext[i].fenceValue != r.frameContext[j].fenceValue)
  }

  /** The state right after construction and `CreateFence(0, …)`: every
      context idle, counter and fence values 0. */
  function Initial(): (r: Ring)
    ensures Inv(r)
    ensures r.frameIndex == 0 && r.fenceLastSignaledValue == 0 && r.completed == 0
    ensures forall i :: 0 <= i < NUM_FRAMES_IN_FLIGHT ==> r.frameContext[i].fenceValue == 0
  {
    Ring([IDLE_CONTEXT, IDLE_CONTEXT, IDLE_CONTEXT], 0, 0, 0)
  }

  /** An infinite OS wait on the fence event (`SetEventOnCompletion(v, …)`
      followed by `WaitFor…Object`): it returns once the fence has reached `v`,
      and changes nothing else. */
  function WaitForFence(r: Ring, v: uint64): (r': Ring)
    ensures r'.completed >= v && r'.completed >= r.completed
    ensures r'.completed == v || r'.completed == r.completed
    ensures r' == r.(completed := r'.completed)
  {
    if r.completed >= v then r else r.(completed := v)
  }

  /** The GPU finishing work: the fence moves to `value` when that is forward
      and no further than the last value signaled, and stays put otherwise. */
  function GpuProgress(r: Ring, value: uint64): (r': Ring)
    ensures r'.completed >= r.completed
    ensures r.completed <= r.fenceLastSignaledValue ==> r'.completed <= r.fenceLastSignaledValue
    ensures r.completed <= value <= r.fenceLastSignaledValue ==> r'.completed == value
    ensures r' == r.(completed := r'.completed)
    ensures Inv(r) ==> Inv(r')
  {
    if r.completed <= value <= r.fenceLastSignaledValue then r.(completed := value) else r
  }

  /** `WaitForNextFrameResources`' result: the state and the acquired entry. */
  datatype Acquired = Acquired(ring: Ring, slot: nat)

  /** `WaitForNextFrameResources`: advance the 32-bit counter, take the entry
      it designates, and if that entry has a pending fence value, clear it and
      wait for the fence to reach it. (The additional wait on the swap chain's
      frame-latency object has no state in this model.) */
  function WaitForNextFrameResources(r: Ring): (a: Acquired)
    ensures a.ring.frameIndex == WrapU32(r.frameIndex + 1)
    ensures a.slot == SlotOf(a.ring.frameIndex) && a.slot < NUM_FRAMES_IN_FLIGHT
    ensures a.ring.frameContext[a.slot].fenceValue == 0
    ensures a.ring.frameContext[a.slot].allocator == r.frameContext[a.slot].allocator
    ensures forall i :: 0 <= i < NUM_FRAMES_IN_FLIGHT && i != a.slot ==> a.ring.frameContext[i] == r.frameContext[i]
    ensures a.ring.fenceLastSignaledValue == r.fenceLastSignaledValue
    ensures r.frameContext[a.slot].fenceValue != 0 ==> a.ring.completed >= r.frameContext[a.slot].fenceValue
    ensures r.frameContext[a.slot].fenceValue == 0 ==> a.ring.completed == r.completed
    ensures a.ring.completed >= r.completed
    ensures Inv(r) ==> Inv(a.ring) && SafeToReset(a.ring, a.slot)
  {
    var nextFrameIndex := WrapU32(r.frameIndex + 1);
    var slot := SlotOf(nextFrameIndex);
    var fenceValue := r.frameContext[slot].fenceValue;
    var advanced := r.(frameIndex := nextFrameIndex);
    if fenceValue != 0 then
      var cleared := advanced.(frameContext := r.frameContext[slot := r.frameContext[slot].(fenceValue := 0)]);
      Acquired(WaitForFence(cleared, fenceValue), slot)
    else
      Acquired(advanced, slot)
  }

  /** `WaitForLastSubmittedFrame`: nothing to do when the current entry has no
      pending value; otherwise clear it and, unless the fence already reached
      it, wait until it does. */
  function WaitForLastSubmittedFrame(r: Ring): (r': Ring)
    ensures r.frameContext[CurrentSlot(r)].fenceValue == 0 ==> r' == r
    ensures r.frameContext[CurrentSlot(r)].fenceValue != 0 ==>
      && r'.completed >= r.frameContext[CurrentSlot(r)].fenceValue
      && r'.frameContext[CurrentSlot(r)].fenceValue == 0
    ensures r'.frameIndex == r.frameIndex && r'.fenceLastSignaledValue == r.fenceLastSignaledValue
    ensures r'.completed >= r.completed
    ensures forall i :: 0 <= i < NUM_FRAMES_IN_FLIGHT ==> r'.frameContext[i].allocator == r.frameContext[i].allocator
    ensures forall i :: 0 <= i < NUM_FRAMES_IN_FLIGHT && i != CurrentSlot(r) ==> r'.frameContext[i] == r.frameContext[i]
    ensures Inv(r) ==> Inv(r')
  {
    var slot := CurrentSlot(r);
    var fenceValue := r.frameContext[slot].fenceValue;
    if fenceValue == 0 then r
    else
      var cleared := r.(frameContext := r.frameContext[slot := r.frameContext[slot].(fenceValue := 0)]);
      if r.completed >= fenceValue then cleared
      else WaitForFence(cleared, fenceValue)
  }

  /** The end of `RenderUI`, after the command list went to the queue: signal
      one past the last value, record it as the last value, and store it in
      the frame's entry, whose allocator the submitted work now occupies. */
  function SignalFrame(r: Ring, slot: nat): (r': Ring)
    requires slot < NUM_FRAMES_IN_FLIGHT
    ensures r'.fenceLastSignaledValue == WrapU64(r.fenceLastSignaledValue + 1)
    ensures r'.frameContext[slot].fenceValue == r'.fenceLastSignaledValue
    ensures r'.frameContext[slot].allocator.busyUntil == r'.fenceLastSignaledValue
    ensures forall i :: 0 <= i < NUM_FRAMES_IN_FLIGHT && i != slot ==> r'.frameContext[i] == r.frameContext[i]
    ensures r'.frameIndex == r.frameIndex && r'.completed == r.completed
    ensures Inv(r) && r.fenceLastSignaledValue < UINT64_MAX ==> Inv(r')
  {
    var fenceValue := WrapU64(r.fenceLastSignaledValue + 1);
    r.(fenceLastSignaledValue := fenceValue,
       frameContext := r.frameContext[slot := FrameContext(CommandAllocator(fenceValue), fenceValue)])
  }

  /** Signaling past 2^64 - 1 wraps the fence value to 0: the entry then
      stores 0, which the next acquire of it reads as "nothing to wait for",
      and a fence that had completed any work is ahead of the last value
      signaled. The invariant held before and fails after. */
  lemma SignalAtFenceWrapBreaksInv()
    ensures var r := Ring([IDLE_CONTEXT, IDLE_CONTEXT, IDLE_CONTEXT], 0, UINT64_MAX, 1);
      && Inv(r)
      && SignalFrame(r, 0).fenceLastSignaledValue == 0
      && SignalFrame(r, 0).frameContext[0].fenceValue == 0
      && !Inv(SignalFrame(r, 0))
  {
  }

  /** The first frame uses entry 1, not 0: the counter is advanced before it
      is used as an index. */
  lemma FirstAcquireUsesSlotOne()
    ensures WaitForNextFrameResources(Initial()).slot == 1
  {
  }

  /** Successive frames take successive entries, except when the 32-bit
      counter wraps: 2^32 is 1 modulo 3, so the frame after counter value
      2^32 - 1 (entry 0) is frame 0 (entry 0 again). */
  lemma AcquireSlotSuccession(r: Ring)
    ensures WaitForNextFrameResources(r).slot == CurrentSlot(r) <==> r.frameIndex == UINT32_MAX
    ensures r.frameIndex < UINT32_MAX ==>
      WaitForNextFrameResources(r).slot == (CurrentSlot(r) + 1) % NUM_FRAMES_IN_FLIGHT
  {
    assert UINT32_MAX % NUM_FRAMES_IN_FLIGHT == 0;
  }

  /** At the wrap the entry just signaled is reused at once, so the acquire
      waits for the frame submitted just before: a stall, but a safe one,
      because the wait is driven by the stored fence value and not by the
      entry order. */
  lemma WrapAroundWaitsForPreviousFrame(r: Ring)
    requires Inv(r)
    requires r.frameIndex == UINT32_MAX
    requires r.frameContext[CurrentSlot(r)].fenceValue == r.fenceLastSignaledValue
    ensures WaitForNextFrameResources(r).slot == CurrentSlot(r)
    ensures WaitForNextFrameResources(r).ring.completed == r.fenceLastSignaledValue
    ensures SafeToReset(WaitForNextFrameResources(r).ring, CurrentSlot(r))
  {
    AcquireSlotSuccession(r);
  }

  /** The drain at teardown: when the current entry holds the last value
      signaled (as it does after every frame), waiting for it leaves the GPU
      with no outstanding work from any allocator. */
  lemma DrainAfterFrameIsComplete(r: Ring)
    requires Inv(r)
    requires r.frameContext[CurrentSlot(r)].fenceValue == r.fenceLastSignaledValue
    ensures WaitForLastSubmittedFrame(r).completed == r.fenceLastSignaledValue
    ensures forall i :: 0 <= i < NUM_FRAMES_IN_FLIGHT ==> SafeToReset(WaitForLastSubmittedFrame(r), i)
  {
    var r' := WaitForLastSubmittedFrame(r);
    forall i | 0 <= i < NUM_FRAMES_IN_FLIGHT
      ensures SafeToReset(r', i)
    {
      assert ContextInv(r, r.frameContext[i]);
    }
  }
}
