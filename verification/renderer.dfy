/** `Renderer` (Renderer.h / Renderer.cpp): one frame of `RenderUI`, the
    teardown order of `CleanupRenderTarget` / `CleanupDevice`, the scissor
    rectangle kept for resizes, and runs of many frames interleaved with GPU
    progress. */
module Renderer {
  import opened Ints
  import opened Config
  import opened FrameRing
  import opened CommandList

  type BackBufferIndex = i: nat | i < NUM_BACK_BUFFERS
  type SlotIndex = i: nat | i < NUM_FRAMES_IN_FLIGHT

  /** `D3D12_RECT` / `CD3DX12_RECT`: edges as 32-bit `LONG`s. */
  datatype Rect = Rect(left: int32, top: int32, right: int32, bottom: int32)

  /** The device objects the renderer holds a reference to (a non-null member). */
  datatype GpuObject =
    | BackBuffer(index: BackBufferIndex)   // m_mainRenderTargetResource[i]
    | SwapChain
    | SwapChainWaitable                    // m_hSwapChainWaitableObject
    | Allocator(slot: SlotIndex)           // m_frameContext[i].CommandAllocator
    | CommandQueue
    | GraphicsCommandList
    | RtvDescriptorHeap
    | SrvDescriptorHeap
    | Fence
    | FenceEvent
    | Device
    | PipelineState                        // m_pipelineState
    | RootSignature                        // m_rootSignature
    | CbvDescriptorHeap                    // m_cbvHeap
    | VertexBuffer                         // m_vertexBuffer
    | ConstantBuffer                       // m_constantBuffer
    | ConstantBufferGlobals                // m_constantBufferGlobals

  /** The renderer: synchronisation state, held objects, scissor rectangle. */
  datatype State = State(ring: Ring, held: set<GpuObject>, scissor: Rect)

  /** A teardown step: the drain returning, or an object given up. */
  datatype TeardownEvent =
    | Drained(completed: uint64)
    | Released(obj: GpuObject)   // `->Release()` (`CloseHandle` for the fence event), member set to null
    | Closed(obj: GpuObject)     // `CloseHandle`, the member left as it was

  datatype Teardown = Teardown(state: State, events: seq<TeardownEvent>)

  /** Everything `Init` creates and keeps. */
  function AllObjects(): set<GpuObject> {
    (set i: BackBufferIndex :: BackBuffer(i)) + (set s: SlotIndex :: Allocator(s))
    + {SwapChain, SwapChainWaitable, CommandQueue, GraphicsCommandList, RtvDescriptorHeap, SrvDescriptorHeap, Fence, FenceEvent, Device}
    + {PipelineState, RootSignature, CbvDescriptorHeap, VertexBuffer, ConstantBuffer, ConstantBufferGlobals}
  }

  /** The scissor rectangle the constructor builds from unsigned sizes: a
      `static_cast<LONG>` of each, so sizes of 2^31 and above come out negative. */
  function InitialScissor(width: uint32, height: uint32): (r: Rect)
    ensures r.left == 0 && r.top == 0
    ensures width < TWO_TO_THE_31 ==> r.right == width
    ensures height < TWO_TO_THE_31 ==> r.bottom == height
    ensures width >= TWO_TO_THE_31 ==> r.right < 0
    ensures height >= TWO_TO_THE_31 ==> r.bottom < 0
  {
    Rect(0, 0, AsInt32(width), AsInt32(height))
  }

  /** The renderer after construction and a successful `Init`. */
  function Initialized(width: uint32, height: uint32): (s: State)
    ensures Inv(s.ring) && s.ring == Initial()
    ensures s.held == AllObjects() && forall o: GpuObject :: o in s.held
    ensures s.scissor == InitialScissor(width, height)
  {
    forall o: GpuObject ensures o in AllObjects() {
      AllObjectsComplete(o);
    }
    State(Initial(), AllObjects(), InitialScissor(width, height))
  }

  lemma AllObjectsComplete(o: GpuObject)
    ensures o in AllObjects()
  {
    if o.BackBuffer? {
      assert o == BackBuffer(o.index);
    } else if o.Allocator? {
      assert o == Allocator(o.slot);
    }
  }

  /** `HandleResize(width, height)`: only the scissor rectangle (and the
      viewport, not modelled) change. No drain happens, the frame ring is
      untouched, and the back buffers stay held across `ResizeBuffers`. */
  function HandleResize(s: State, width: int32, height: int32): (s': State)
    ensures s'.scissor.left == 0 && s'.scissor.top == 0
    ensures s'.scissor.right - s'.scissor.left == width
    ensures s'.scissor.bottom - s'.scissor.top == height
    ensures s'.ring == s.ring && s'.held == s.held
  {
    s.(scissor := Rect(0, 0, width, height))
  }

  /** What one call of `RenderUI` does: the state after it, the context entry
      it used, the commands it recorded and the queue work it issued. */
  datatype FrameOutput = FrameOutput(state: State, slot: nat, commands: seq<Command>, queue: seq<QueueOp>)

  /** `RenderUI`: acquire the next context, record the frame into it for back
      buffer `backBufferIdx` (the swap chain's current index), submit, present,
      and signal one past the last fence value into the acquired context. */
  function RenderUI(s: State, backBufferIdx: BackBufferIndex): (f: FrameOutput)
    ensures f.slot == CurrentSlot(f.state.ring)
    ensures f.state.ring.frameIndex == WrapU32(s.ring.frameIndex + 1)
    ensures BracketedAt(f.commands, f.slot, backBufferIdx, 6, 14)
    ensures f.queue == [ExecuteCommandLists, PresentFrame(VSYNC_INTERVAL), Signal(f.state.ring.fenceLastSignaledValue)]
    ensures f.state.ring.fenceLastSignaledValue == WrapU64(s.ring.fenceLastSignaledValue + 1)
    ensures f.state.ring.frameContext[f.slot].fenceValue == f.state.ring.fenceLastSignaledValue
    ensures forall i :: 0 <= i < NUM_FRAMES_IN_FLIGHT && i != f.slot ==> f.state.ring.frameContext[i] == s.ring.frameContext[i]
    ensures f.state.ring.completed >= s.ring.completed
    ensures f.state.held == s.held && f.state.scissor == s.scissor
    ensures Inv(s.ring) ==> SafeToReset(WaitForNextFrameResources(s.ring).ring, f.slot)
    ensures Inv(s.ring) && s.ring.fenceLastSignaledValue < UINT64_MAX ==> Inv(f.state.ring)
  {
    var next := AdvanceFrame(s.ring);
    FrameOutput(s.(ring := next.ring), next.slot, RecordFrame(next.slot, backBufferIdx), SubmitFrame(next.ring.fenceLastSignaledValue))
  }

  /** The ring side of `RenderUI`: acquire the next context, then signal into
      it once its commands are submitted. */
  function AdvanceFrame(r: Ring): (a: Acquired)
    ensures a.slot == CurrentSlot(a.ring) && a.slot < NUM_FRAMES_IN_FLIGHT
    ensures a.ring.frameIndex == WrapU32(r.frameIndex + 1)
    ensures a.ring.fenceLastSignaledValue == WrapU64(r.fenceLastSignaledValue + 1)
    ensures a.ring.frameContext[a.slot].fenceValue == a.ring.fenceLastSignaledValue
    ensures forall i :: 0 <= i < NUM_FRAMES_IN_FLIGHT && i != a.slot ==> a.ring.frameContext[i] == r.frameContext[i]
    ensures a.ring.completed >= r.completed
    ensures Inv(r) ==> SafeToReset(WaitForNextFrameResources(r).ring, a.slot)
    ensures Inv(r) && r.fenceLastSignaledValue < UINT64_MAX ==> Inv(a.ring)
  {
    var acquired := WaitForNextFrameResources(r);
    Acquired(SignalFrame(acquired.ring, acquired.slot), acquired.slot)
  }

  /** The queue work of a frame ends with the signal of exactly the value
      the frame's context keeps, after the list is executed: waiting for that
      value later waits for this frame's commands, which are also what guards
      the context's allocator. */
  lemma SignalGuardsSubmittedWork(s: State, backBufferIdx: BackBufferIndex)
    ensures var f := RenderUI(s, backBufferIdx);
      && f.queue[0] == ExecuteCommandLists
      && f.queue[|f.queue| - 1] == Signal(f.state.ring.frameContext[f.slot].fenceValue)
      && f.state.ring.frameContext[f.slot].allocator.busyUntil == f.state.ring.frameContext[f.slot].fenceValue
  {
  }

  /** Giving up one held object: the swap chain's waitable handle is closed
      with `CloseHandle` and its member left as it was; every other object
      is released (or, for the fence event, closed) and its member nulled. */
  function GiveUp(o: GpuObject): (e: TeardownEvent)
    ensures !e.Drained? && e.obj == o
    ensures e.Closed? <==> o == SwapChainWaitable
  {
    if o == SwapChainWaitable then Closed(o) else Released(o)
  }

  /** Index of the first occurrence of `o` in `objs`. */
  function Position(objs: seq<GpuObject>, o: GpuObject): (i: nat)
    requires o in objs
    ensures i < |objs| && objs[i] == o
    decreases |objs|
  {
    if objs[0] == o then 0 else 1 + Position(objs[1..], o)
  }

  /** Every event is about one of `objs`, and the events follow the order of
      `objs`. */
  predicate InOrder(objs: seq<GpuObject>, events: seq<TeardownEvent>) {
    && (forall e :: e in events ==> !e.Drained? && e.obj in objs)
    && (forall i, j :: 0 <= i < j < |events| ==> Position(objs, events[i].obj) < Position(objs, events[j].obj))
  }

  /** No element occurs twice. */
  predicate Distinct<T(==)>(s: seq<T>) {
    forall i, j :: 0 <= i < j < |s| ==> s[i] != s[j]
  }

  lemma DistinctConcat<T>(a: seq<T>, b: seq<T>)
    requires Distinct(a) && Distinct(b)
    requires forall x :: x in a ==> x !in b
    ensures Distinct(a + b)
  {
    forall i, j | 0 <= i < j < |a + b| ensures (a + b)[i] != (a + b)[j] {
      if j < |a| {
      } else if i >= |a| {
        assert (a + b)[i] == b[i - |a|] && (a + b)[j] == b[j - |a|];
      } else {
        assert (a + b)[i] in a && (a + b)[j] in b;
      }
    }
  }

  /** Giving up, in the order of `objs`, each one still held
      (`if (p) { p->Release(); p = NULL; }` per member). Each object is
      given up at most once, since its member is null afterwards. */
  function ReleaseHeld(held: set<GpuObject>, objs: seq<GpuObject>): (events: seq<TeardownEvent>)
    ensures forall e :: e in events ==> !e.Drained? && e == GiveUp(e.obj) && e.obj in objs && e.obj in held
    ensures forall o :: o in objs && o in held ==> GiveUp(o) in events
    ensures InOrder(objs, events)
    ensures Distinct(events)
    decreases |objs|
  {
    if |objs| == 0 then []
    else
      var o := objs[0];
      var rest := ReleaseHeld(held - {o}, objs[1..]);
      assert forall x :: x in objs <==> x == o || x in objs[1..];
      RestOrdered(objs, rest);
      if o in held then
        HeadFirst(objs, rest);
        OrderedDistinct(objs, [GiveUp(o)] + rest);
        [GiveUp(o)] + rest
      else
        OrderedDistinct(objs, rest);
        rest
  }

  /** The events of the objects after the first keep their order when
      positions are counted in the whole sequence. */
  lemma RestOrdered(objs: seq<GpuObject>, rest: seq<TeardownEvent>)
    requires |objs| > 0
    requires forall e :: e in rest ==> !e.Drained? && e.obj in objs[1..] && e.obj != objs[0]
    requires forall i, j :: 0 <= i < j < |rest| ==> Position(objs[1..], rest[i].obj) < Position(objs[1..], rest[j].obj)
    ensures forall e :: e in rest ==> e.obj in objs && Position(objs, e.obj) == 1 + Position(objs[1..], e.obj)
    ensures forall i, j :: 0 <= i < j < |rest| ==> Position(objs, rest[i].obj) < Position(objs, rest[j].obj)
  {
    forall e | e in rest ensures e.obj in objs && Position(objs, e.obj) == 1 + Position(objs[1..], e.obj) {
      PositionTail(objs, e.obj);
    }
    forall i, j | 0 <= i < j < |rest| ensures Position(objs, rest[i].obj) < Position(objs, rest[j].obj) {
      assert rest[i] in rest && rest[j] in rest;
    }
  }

  /** When the first object is held, its event comes first: every later
      event is about an object at a later position. */
  lemma HeadFirst(objs: seq<GpuObject>, rest: seq<TeardownEvent>)
    requires |objs| > 0
    requires forall e :: e in rest ==> !e.Drained? && e.obj in objs && Position(objs, e.obj) > 0
    requires forall i, j :: 0 <= i < j < |rest| ==> Position(objs, rest[i].obj) < Position(objs, rest[j].obj)
    ensures forall e :: e in [GiveUp(objs[0])] + rest ==> !e.Drained? && e.obj in objs
    ensures forall i, j :: 0 <= i < j < |[GiveUp(objs[0])] + rest| ==>
      Position(objs, ([GiveUp(objs[0])] + rest)[i].obj) < Position(objs, ([GiveUp(objs[0])] + rest)[j].obj)
  {
    var events := [GiveUp(objs[0])] + rest;
    forall j | 0 < j < |events|
      ensures events[j] == rest[j - 1] && Position(objs, events[j].obj) > 0
    {
      assert events[j] in rest;
    }
    forall i, j | 0 <= i < j < |events|
      ensures Position(objs, events[i].obj) < Position(objs, events[j].obj)
    {
      if i > 0 {
        assert Position(objs, rest[i - 1].obj) < Position(objs, rest[j - 1].obj);
      }
    }
  }

  /** Events whose objects appear at strictly increasing positions are all
      different. */
  lemma OrderedDistinct(objs: seq<GpuObject>, events: seq<TeardownEvent>)
    requires forall e :: e in events ==> !e.Drained? && e.obj in objs
    requires forall i, j :: 0 <= i < j < |events| ==> Position(objs, events[i].obj) < Position(objs, events[j].obj)
    ensures Distinct(events)
  {
  }

  lemma PositionTail(objs: seq<GpuObject>, x: GpuObject)
    requires |objs| > 0 && x in objs[1..] && x != objs[0]
    ensures x in objs && Position(objs, x) == 1 + Position(objs[1..], x)
  {
  }

  /** `m_mainRenderTargetResource[0..NUM_BACK_BUFFERS)`, in index order. */
  const BACK_BUFFERS: seq<GpuObject> := [BackBuffer(0), BackBuffer(1), BackBuffer(2)]

  lemma BackBufferPosition(o: GpuObject)
    requires o.BackBuffer?
    ensures o in BACK_BUFFERS && Position(BACK_BUFFERS, o) == o.index
  {
    assert o == BACK_BUFFERS[o.index];
  }

  /** Releasing the held back buffers: exactly the held ones, each once, in
      index order. */
  lemma BackBufferReleases(held: set<GpuObject>)
    ensures var r := ReleaseHeld(held, BACK_BUFFERS);
      && (forall e :: e in r ==> e.Released? && e.obj.BackBuffer? && e.obj in held)
      && (forall o :: o in held && o.BackBuffer? ==> Released(o) in r)
      && (forall i, j :: 0 <= i < j < |r| ==> r[i].Released? && r[j].Released? && r[i].obj.index < r[j].obj.index)
      && Distinct(r)
  {
    var r := ReleaseHeld(held, BACK_BUFFERS);
    forall o: GpuObject | o.BackBuffer? ensures o in BACK_BUFFERS && Position(BACK_BUFFERS, o) == o.index {
      BackBufferPosition(o);
    }
    forall e | e in r ensures e.Released? && e.obj.BackBuffer? {
      assert e.obj in BACK_BUFFERS;
    }
    forall i, j | 0 <= i < j < |r| ensures r[i].obj.index < r[j].obj.index {
      assert r[i] in r && r[j] in r;
    }
  }

  /** A drain followed by distinct releases: the releases are the events from
      index 1 on, and no event repeats. */
  lemma DrainFirst(completed: uint64, released: seq<TeardownEvent>)
    requires Distinct(released) && forall e :: e in released ==> e.Released?
    ensures ([Drained(completed)] + released)[1..] == released
    ensures forall i :: 1 <= i < |released| + 1 ==> ([Drained(completed)] + released)[i] == released[i - 1]
    ensures Distinct([Drained(completed)] + released)
  {
    DistinctConcat([Drained(completed)], released);
  }

  /** `CleanupRenderTarget`: drain the last submitted frame, then release and
      null every back buffer, in index order. */
  function CleanupRenderTarget(s: State): (t: Teardown)
    ensures |t.events| > 0 && t.events[0] == Drained(t.state.ring.completed)
    ensures t.state.ring == WaitForLastSubmittedFrame(s.ring)
    ensures forall o :: o in t.state.held <==> o in s.held && !o.BackBuffer?
    ensures forall o :: o in s.held && o.BackBuffer? ==> Released(o) in t.events
    ensures forall e :: e in t.events[1..] ==> e.Released? && e.obj.BackBuffer? && e.obj in s.held
    ensures forall i, j :: 1 <= i < j < |t.events| ==>
      t.events[i].Released? && t.events[j].Released? && t.events[i].obj.index < t.events[j].obj.index
    ensures Distinct(t.events)
    ensures t.state.scissor == s.scissor
  {
    var ring := WaitForLastSubmittedFrame(s.ring);
    var released := ReleaseHeld(s.held, BACK_BUFFERS);
    BackBufferReleases(s.held);
    DrainFirst(ring.completed, released);
    forall o ensures o in s.held - (set o | o in BACK_BUFFERS) <==> o in s.held && !o.BackBuffer? {
      if o.BackBuffer? {
        BackBufferPosition(o);
      }
    }
    Teardown(s.(ring := ring, held := s.held - set o | o in BACK_BUFFERS), [Drained(ring.completed)] + released)
  }

  /** What `CleanupDevice` gives up after the back buffers, in its order:
      the swap chain, its waitable handle, the allocators, the queue, the
      list, the two heaps, the fence, the fence event and the device. */
  const DEVICE_TEARDOWN_ORDER: seq<GpuObject> :=
    [SwapChain, SwapChainWaitable, Allocator(0), Allocator(1), Allocator(2),
     CommandQueue, GraphicsCommandList, RtvDescriptorHeap, SrvDescriptorHeap, Fence, FenceEvent, Device]

  /** What `Init` creates and keeps but `CleanupDevice` never gives up: the
      `ComPtr` members (released only when the renderer itself is destroyed)
      and the raw `m_vertexBuffer`, which nothing releases. */
  const NOT_RELEASED: set<GpuObject> :=
    {PipelineState, RootSignature, CbvDescriptorHeap, VertexBuffer, ConstantBuffer, ConstantBufferGlobals}

  /** Every object is a back buffer, one `CleanupDevice` gives up, or one it
      never releases. */
  lemma ObjectsCovered(o: GpuObject)
    ensures o.BackBuffer? || o in DEVICE_TEARDOWN_ORDER || o in NOT_RELEASED
    ensures o in DEVICE_TEARDOWN_ORDER ==> !o.BackBuffer? && o !in NOT_RELEASED
  {
    if o.Allocator? {
      assert o == Allocator(o.slot);
    }
  }

  lemma ConcatFacts<T>(a: seq<T>, b: seq<T>)
    requires |a| > 0
    ensures (a + b)[..|a|] == a && (a + b)[0] == a[0] && (a + b)[1..] == a[1..] + b
  {
  }

  /** `CleanupDevice`: `CleanupRenderTarget` first, then the swap chain, the
      waitable handle (closed but not nulled), the allocators, queue, list,
      heaps, fence, event and device. The pipeline state, root signature,
      constant-buffer heap, vertex buffer and constant buffers stay held. */
  function CleanupDevice(s: State): (t: Teardown)
    ensures |t.events| >= |CleanupRenderTarget(s).events|
    ensures t.events[..|CleanupRenderTarget(s).events|] == CleanupRenderTarget(s).events
    ensures t.events[0] == Drained(t.state.ring.completed)
    ensures t.state.ring == WaitForLastSubmittedFrame(s.ring)
    ensures forall o :: o in t.state.held <==> o in s.held && (o == SwapChainWaitable || o in NOT_RELEASED)
  {
    var targets := CleanupRenderTarget(s);
    var later := DeviceTeardownEvents(targets.state.held);
    ConcatFacts(targets.events, later);
    Teardown(targets.state.(held := HeldAfterDevice(s.held, targets.state.held)), targets.events + later)
  }

  /** What is still held once `CleanupDevice` has given up the objects in
      `DEVICE_TEARDOWN_ORDER` from `held`, the objects left after the back
      buffers of `original` went. */
  function HeldAfterDevice(original: set<GpuObject>, held: set<GpuObject>): (held': set<GpuObject>)
    requires forall o :: o in held <==> o in original && !o.BackBuffer?
    ensures forall o :: o in held' <==> o in original && (o == SwapChainWaitable || o in NOT_RELEASED)
  {
    var held' := held - set o | o in DEVICE_TEARDOWN_ORDER && o != SwapChainWaitable;
    forall o ensures o in held' <==> o in original && (o == SwapChainWaitable || o in NOT_RELEASED) {
      ObjectsCovered(o);
    }
    held'
  }

  /** The events of `CleanupDevice` after `CleanupRenderTarget`'s, given the
      objects still held at that point: in the source's order, each held
      object once. */
  function DeviceTeardownEvents(held: set<GpuObject>): (events: seq<TeardownEvent>)
    ensures forall e :: e in events ==> e.Released? || e == Closed(SwapChainWaitable)
    ensures forall o :: Released(o) in events ==>
      o in held && o != SwapChainWaitable && !o.BackBuffer? && o !in NOT_RELEASED
    ensures forall o :: o in held && !o.BackBuffer? && o != SwapChainWaitable && o !in NOT_RELEASED ==> Released(o) in events
    ensures SwapChainWaitable in held <==> Closed(SwapChainWaitable) in events
    ensures InOrder(DEVICE_TEARDOWN_ORDER, events)
    ensures Distinct(events)
  {
    var events := ReleaseHeld(held, DEVICE_TEARDOWN_ORDER);
    forall o ensures (Released(o) in events <==> o in held && o != SwapChainWaitable && !o.BackBuffer? && o !in NOT_RELEASED)
      && (Closed(o) in events <==> o in held && o == SwapChainWaitable)
    {
      ReleasedExactly(held, DEVICE_TEARDOWN_ORDER, o);
      ObjectsCovered(o);
    }
    forall e | e in events ensures e.Released? || e == Closed(SwapChainWaitable) {
      assert e == GiveUp(e.obj);
    }
    events
  }

  /** Which events giving up `objs` contains: a release for each listed, held
      object other than the waitable handle, and a close for that handle. */
  lemma ReleasedExactly(held: set<GpuObject>, objs: seq<GpuObject>, o: GpuObject)
    ensures Released(o) in ReleaseHeld(held, objs) <==> o in objs && o in held && o != SwapChainWaitable
    ensures Closed(o) in ReleaseHeld(held, objs) <==> o in objs && o in held && o == SwapChainWaitable
  {
    var events := ReleaseHeld(held, objs);
    if o in objs && o in held {
      assert GiveUp(o) in events;
    }
    if Released(o) in events {
      assert GiveUp(Released(o).obj) == Released(o);
    }
    if Closed(o) in events {
      assert GiveUp(Closed(o).obj) == Closed(o);
    }
  }

  /** Teardown order: the drain comes first and is the only one; everything
      after it releases an object or closes the waitable handle; no event
      happens twice; and an object is released exactly when it was held and
      is neither that handle nor one `CleanupDevice` never releases. */
  lemma CleanupDeviceDrainsBeforeReleasing(s: State)
    ensures var t := CleanupDevice(s);
      && t.events[0].Drained?
      && (forall k :: 1 <= k < |t.events| ==> t.events[k].Released? || t.events[k] == Closed(SwapChainWaitable))
      && Distinct(t.events)
      && (forall o :: o in s.held && o != SwapChainWaitable && o !in NOT_RELEASED <==> Released(o) in t.events)
      && (SwapChainWaitable in s.held <==> Closed(SwapChainWaitable) in t.events)
  {
    var t := CleanupDevice(s);
    var targets := CleanupRenderTarget(s);
    var later := DeviceTeardownEvents(targets.state.held);
    assert t.events == targets.events + later;
    ConcatFacts(targets.events, later);
    forall k | 1 <= k < |t.events|
      ensures t.events[k].Released? || t.events[k] == Closed(SwapChainWaitable)
    {
      if k < |targets.events| {
        assert t.events[k] in targets.events[1..];
      } else {
        assert t.events[k] in later;
      }
    }
    assert targets.events == [targets.events[0]] + targets.events[1..];
    forall e | e in targets.events ensures e !in later {
      if e != targets.events[0] {
        assert e in targets.events[1..];
      }
    }
    DistinctConcat(targets.events, later);
  }

  /** `m_vertexBuffer` is created by `Init` and never released: it is still
      held, and was never given up, after `CleanupDevice`. */
  lemma VertexBufferOutlivesCleanup(s: State)
    requires VertexBuffer in s.held
    ensures VertexBuffer in CleanupDevice(s).state.held
    ensures forall e :: e in CleanupDevice(s).events ==> e != Released(VertexBuffer)
  {
    CleanupDeviceDrainsBeforeReleasing(s);
  }

  /** Calling `CleanupDevice` a second time releases nothing, but closes the
      swap chain's waitable handle again, since the first call closed it
      without clearing the member. */
  lemma SecondCleanupClosesWaitableAgain(s: State)
    requires SwapChainWaitable in s.held
    ensures var t2 := CleanupDevice(CleanupDevice(s).state);
      && Closed(SwapChainWaitable) in t2.events
      && forall o :: Released(o) !in t2.events
  {
    var s2 := CleanupDevice(s).state;
    assert SwapChainWaitable in s2.held;
    assert forall o :: o in s2.held ==> o == SwapChainWaitable || o in NOT_RELEASED;
    CleanupDeviceDrainsBeforeReleasing(s2);
  }

  /** Shutting down right after a frame: the drain in `CleanupDevice` waits
      for the frame just signaled, so by the time anything is released the
      GPU has finished every submitted frame and no allocator is in use. */
  lemma ShutdownAfterFrameIsIdle(s: State, backBufferIdx: BackBufferIndex)
    requires Inv(s.ring) && s.ring.fenceLastSignaledValue < UINT64_MAX
    ensures
      var f := RenderUI(s, backBufferIdx);
      var t := CleanupDevice(f.state);
      && t.state.ring.completed == f.state.ring.fenceLastSignaledValue
      && forall i :: 0 <= i < NUM_FRAMES_IN_FLIGHT ==> SafeToReset(t.state.ring, i)
  {
    var f := RenderUI(s, backBufferIdx);
    DrainAfterFrameIsComplete(f.state.ring);
  }

  /** What can happen between two observations: the CPU renders a frame, the
      GPU finishes work up to some fence value, or the CPU drains the current
      frame (as `CleanupRenderTarget` does). */
  datatype Step =
    | RenderFrame(backBufferIdx: BackBufferIndex)
    | GpuAdvance(value: uint64)
    | WaitLastFrame

  function StepState(s: State, step: Step): State {
    match step
    case RenderFrame(b) => RenderUI(s, b).state
    case GpuAdvance(v) => s.(ring := GpuProgress(s.ring, v))
    case WaitLastFrame => s.(ring := WaitForLastSubmittedFrame(s.ring))
  }

  /** The final state of a run and the fence values it signaled, in order. */
  datatype RunResult = RunResult(state: State, signaled: seq<uint64>)

  /** Number of frames rendered in a run. */
  function FrameCount(steps: seq<Step>): (n: nat)
    ensures n <= |steps|
    decreases |steps|
  {
    if |steps| == 0 then 0 else (if steps[0].RenderFrame? then 1 else 0) + FrameCount(steps[1..])
  }

  /** Runs the steps in order, collecting the value each frame signals. */
  function Run(s: State, steps: seq<Step>): (res: RunResult)
    ensures |res.signaled| == FrameCount(steps)
    ensures res.state.ring.completed >= s.ring.completed
    ensures res.state.held == s.held && res.state.scissor == s.scissor
    decreases |steps|
  {
    if |steps| == 0 then RunResult(s, [])
    else
      var next := StepState(s, steps[0]);
      var rest := Run(next, steps[1..]);
      if steps[0].RenderFrame?
      then RunResult(rest.state, [next.ring.fenceLastSignaledValue] + rest.signaled)
      else rest
  }

  /** Every frame of a run resets its allocator only once the GPU has
      finished the work last recorded into it. */
  predicate ResetsSafe(s: State, steps: seq<Step>)
    decreases |steps|
  {
    |steps| == 0 ||
    (&& (steps[0].RenderFrame? ==>
           var acquired := WaitForNextFrameResources(s.ring);
           SafeToReset(acquired.ring, acquired.slot))
     && ResetsSafe(StepState(s, steps[0]), steps[1..]))
  }

  /** The protocol over any run, whatever the GPU does in between and however
      the frame counter wraps: the ring invariant holds throughout, no
      allocator is reset while the GPU may still read it, and the fence values
      signaled are consecutive, one per frame, continuing from the last one. */
  lemma {:induction false} RunKeepsProtocol(s: State, steps: seq<Step>)
    requires Inv(s.ring)
    requires s.ring.fenceLastSignaledValue + |steps| <= UINT64_MAX
    ensures Inv(Run(s, steps).state.ring)
    ensures ResetsSafe(s, steps)
    ensures forall i :: 0 <= i < |Run(s, steps).signaled| ==>
      Run(s, steps).signaled[i] == s.ring.fenceLastSignaledValue + 1 + i
    ensures Run(s, steps).state.ring.fenceLastSignaledValue == s.ring.fenceLastSignaledValue + FrameCount(steps)
    decreases |steps|
  {
    if |steps| > 0 {
      var next := StepState(s, steps[0]);
      StepKeepsProtocol(s, steps[0]);
      RunKeepsProtocol(next, steps[1..]);
      RunSignals(s, steps);
    }
  }

  /** The values a run signals: the first frame's value, then the rest's. */
  lemma RunSignals(s: State, steps: seq<Step>)
    requires |steps| > 0
    requires StepState(s, steps[0]).ring.fenceLastSignaledValue == s.ring.fenceLastSignaledValue + (if steps[0].RenderFrame? then 1 else 0)
    requires forall i :: 0 <= i < |Run(StepState(s, steps[0]), steps[1..]).signaled| ==>
      Run(StepState(s, steps[0]), steps[1..]).signaled[i] == StepState(s, steps[0]).ring.fenceLastSignaledValue + 1 + i
    ensures forall i :: 0 <= i < |Run(s, steps).signaled| ==> Run(s, steps).signaled[i] == s.ring.fenceLastSignaledValue + 1 + i
  {
  }

  /** One step of a run: the invariant is kept, a frame resets its allocator
      safely and signals one past the last value, and nothing else signals. */
  lemma StepKeepsProtocol(s: State, step: Step)
    requires Inv(s.ring)
    requires s.ring.fenceLastSignaledValue < UINT64_MAX
    ensures Inv(StepState(s, step).ring)
    ensures step.RenderFrame? ==> SafeToReset(WaitForNextFrameResources(s.ring).ring, WaitForNextFrameResources(s.ring).slot)
    ensures StepState(s, step).ring.fenceLastSignaledValue == s.ring.fenceLastSignaledValue + (if step.RenderFrame? then 1 else 0)
  {
  }
}
