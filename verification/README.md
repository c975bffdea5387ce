# dx12-starter renderer core in Dafny

This project models the `Renderer` of dx12-starter, a small Direct3D 12 sample
that draws a cube and an immediate-mode UI. The core of the renderer is a
ring of `NUM_FRAMES_IN_FLIGHT` (3) frame contexts. Each context holds a
command allocator and the fence value signalled when its last frame was
submitted. `WaitForNextFrameResources` advances the 32-bit `m_frameIndex`.
It picks the slot `index % 3` and waits until the GPU fence reaches that
slot's stored value. Only then does `RenderUI` reset the slot's allocator and
record a frame. The frame is submitted and the next 64-bit fence value is
signalled.

The modules follow the source:

- `Ints`: the fixed-width integers of the source. `UINT` wraps modulo 2^32,
  `UINT64` wraps modulo 2^64, and an `unsigned int` cast to `LONG` is
  reinterpreted as two's complement.
- `Outcomes`: what a C++ call can do instead of returning (a thrown `HRESULT` or
  a `std::exception`), plus `Result` and `Option`.
- `Config`: `NUM_BACK_BUFFERS` and `NUM_FRAMES_IN_FLIGHT`.
- `Hresult`: the `SUCCEEDED`/`FAILED` macros and `ThrowIfFailed`.
- `AssetPath`: `GetAssetsPath` (module path truncated after its last backslash),
  `wcsrchr`, and `GetAssetFullPath`.
- `Descriptors`: the render-target-view handle arithmetic in `Init`.
- `FrameRing`: the frame-context ring, the fence bookkeeping and the two waits.
  The GPU's completed fence value is part of the state, and GPU progress is
  its own step. The invariant `FrameRing.Inv` says:
  - every allocator is either idle or guarded by its slot's fence value;
  - no two slots hold the same nonzero fence value.
- `CommandList`: the command stream `RenderUI` records and the queue operations it
  issues. A replay semantics tracks the recording state, each back buffer's
  resource state and the bound render target.
- `Renderer`: the whole object. It covers the constructor's scissor rectangle,
  `HandleResize`, `RenderUI`, and `CleanupRenderTarget`/`CleanupDevice` as
  sequences of drain/release/close events. It also models runs of frames
  interleaved with GPU progress.

Some behaviour of the code that the model keeps as written:

- `HandleResize` does not drain the GPU or rebuild the render targets. Those
  calls are commented out, so only the scissor rectangle (and the viewport)
  change.
- The return values of the waits are ignored, so a removed device is not
  surfaced as a distinct error.
- `CleanupDevice` closes the swap-chain waitable handle but does not clear
  it, so a second `CleanupDevice` closes it again
  (`Renderer.SecondCleanupClosesWaitableAgain`).
- `CleanupDevice` never releases the pipeline state, root signature,
  constant-buffer heap, vertex buffer or constant buffers. The `ComPtr`
  members among them go when the renderer object is destroyed; the raw
  `m_vertexBuffer` is never released (`Renderer.VertexBufferOutlivesCleanup`).

## Model

| member | source | states |
|---|---|---|
| Ints.WrapU32 | dx12-starter/Renderer.cpp:563-564 | the UINT frame index after `+ 1` is the mathematical value reduced into 0..2^32-1, congruent to it modulo 2^32 |
| Ints.WrapU64 | dx12-starter/Renderer.cpp:511 | the UINT64 fence value after `+ 1` is the mathematical value reduced into 0..2^64-1, congruent to it modulo 2^64 |
| Ints.AsInt32 | dx12-starter/Renderer.cpp:5 | casting an unsigned 32-bit value to LONG keeps it modulo 2^32 and is negative exactly when the value is 2^31 or more |
| Hresult.Succeeded | dx12-starter/Renderer.h:25-26 | SUCCEEDED holds exactly when FAILED does not |
| Hresult.SucceededCode | dx12-starter/Renderer.h:25 | a raw 32-bit status code passes SUCCEEDED exactly when its severity bit (2^31) is clear |
| Hresult.ThrowIfFailed | dx12-starter/Renderer.h:43-50 | throws exactly when the code is negative, and then throws that code; otherwise returns normally |
| Hresult.ExactlyOneOfSucceededFailed | dx12-starter/Renderer.h:25-50 | for every code exactly one of SUCCEEDED and FAILED holds, and ThrowIfFailed returns exactly for succeeding codes |
| Hresult.InitChecksStricterThanSucceeded | dx12-starter/Renderer.cpp:28-29 | every code Init's `!= S_OK` test accepts also passes SUCCEEDED and ThrowIfFailed, while every positive success code (S_FALSE among them) passes both yet makes Init return false |
| Hresult.FirstRejected | dx12-starter/Renderer.cpp:28-38 | Init's checked creation steps, run in order: none rejected exactly when every code is S_OK; otherwise the first step whose code is not S_OK, all earlier ones having been S_OK |
| Hresult.SFalseStopsInit | dx12-starter/Renderer.cpp:28-38 | a step returning S_FALSE after steps returning S_OK is where Init returns false |
| AssetPath.LastIndexOf | dx12-starter/Renderer.h:67 | absent exactly when the character does not occur; otherwise an index holding the character with no occurrence after it |
| AssetPath.Wcsrchr | dx12-starter/Renderer.h:67 | a forward scan that remembers the last match finds exactly the last occurrence |
| AssetPath.TruncateAfterLastBackslash | dx12-starter/Renderer.h:67-71 | the result is a prefix of the path that ends in a backslash with no backslash after it; a path without a backslash is unchanged |
| AssetPath.GetModuleFileName | dx12-starter/Renderer.h:60 | the documented Win32 contract: 0 on failure, the buffer size on truncation, otherwise the name's length and the name itself |
| AssetPath.GetAssetsPath | dx12-starter/Renderer.h:53-72 | throws std::exception exactly for a null buffer, a failed lookup or a truncated name; otherwise yields the module name cut after its last backslash, unchanged when it has none |
| AssetPath.GetAssetFullPath | dx12-starter/Renderer.cpp:585-588 | the full path has the assets path as prefix and the asset name as suffix, and nothing else |
| AssetPath.TruncateIdempotent | dx12-starter/Renderer.h:67-71 | truncating an already truncated path changes nothing |
| AssetPath.FullPathDirectory | dx12-starter/Renderer.cpp:585-588 | for an assets path ending in a backslash and a bare file name, truncating the full path recovers the assets path |
| AssetPath.ShaderPathBesideExecutable | dx12-starter/Renderer.cpp:14-17 | when GetAssetsPath succeeds on a module name that contains a backslash, `shaders.hlsl` resolves to a file in the executable's own directory |
| Descriptors.CreateRtvHandles | dx12-starter/Renderer.cpp:65-70 | the loop yields one handle per back buffer, handle i being heap start plus i increments modulo 2^64 |
| Descriptors.HandlesOrdered | dx12-starter/Renderer.cpp:65-70 | without overflow, handle i lies below handle j (i < j) exactly when the increment is positive, and all coincide for increment 0 |
| FrameRing.SlotOf | dx12-starter/Renderer.cpp:569 | every frame index selects a slot inside the three-context array |
| FrameRing.Initial | dx12-starter/Renderer.h:90-101 | the fresh renderer (index 0, fence values 0, fence created at 0) satisfies the ring invariant |
| FrameRing.WaitForFence | dx12-starter/Renderer.cpp:574-579 | an infinite wait returns only once the completed value has reached the awaited value, never lowering it |
| FrameRing.GpuProgress | dx12-starter/Renderer.cpp:512 | the GPU only moves the fence forward and never past the last signalled value, and this keeps the ring invariant |
| FrameRing.WaitForNextFrameResources | dx12-starter/Renderer.cpp:561-582 | advances the index with UINT wrap; selects slot index % 3; clears only that slot's fence value; waits for the old value when it was nonzero; leaves the slot's allocator safe to reset under the invariant |
| FrameRing.WaitForLastSubmittedFrame | dx12-starter/Renderer.cpp:440-454 | does nothing when the current slot's fence value is 0; otherwise clears it and returns only after the GPU reached it; keeps the invariant |
| FrameRing.SignalFrame | dx12-starter/Renderer.cpp:511-514 | the new fence value is one past the last one (modulo 2^64), is stored in the submitting slot only, and keeps the invariant while below 2^64-1 |
| FrameRing.SignalAtFenceWrapBreaksInv | dx12-starter/Renderer.cpp:511-514 | with the last fence value at 2^64-1 and the invariant holding, the frame signals 0, the entry stores 0, and the invariant no longer holds |
| FrameRing.FirstAcquireUsesSlotOne | dx12-starter/Renderer.cpp:563-569 | the first frame after construction uses slot 1, because the index is incremented before use |
| FrameRing.AcquireSlotSuccession | dx12-starter/Renderer.cpp:563-569 | consecutive frames use consecutive slots modulo 3, except at the 2^32 wrap where slot 0 is reused twice |
| FrameRing.WrapAroundWaitsForPreviousFrame | dx12-starter/Renderer.cpp:563-579 | even at the index wrap that reuses a slot, the acquire waits for that slot's previous frame |
| FrameRing.DrainAfterFrameIsComplete | dx12-starter/Renderer.cpp:440-454 | when the current slot holds the last signalled value, the drain leaves the GPU fully idle and every allocator safe to reset |
| CommandList.RecordFrame | dx12-starter/Renderer.cpp:460-501 | the list is reset on the frame's allocator first and closed last; the back buffer goes present to render-target before any render command and back after all of them; between the two barriers its descriptor is cleared, then bound, then the 36-vertex cube is drawn, then the UI |
| CommandList.SubmitFrame | dx12-starter/Renderer.cpp:505-512 | execute first, then present with sync interval 1, then one signal of the new fence value, which comes last and is the only signal |
| CommandList.RenderOrderPositions | dx12-starter/Renderer.cpp:485-496 | the in-order reading of the frame's rendering gives positions, strictly between the two barriers and increasing, that hold the clear of the back buffer, its binding, the cube's draw and the UI's draw |
| CommandList.BodyRendersInOrder | dx12-starter/Renderer.cpp:485-496 | the drawing commands contain the clear, the bind, the 36-vertex draw and the UI draw in that order |
| CommandList.BodyRenders | dx12-starter/Renderer.cpp:485-496 | the drawing commands are valid exactly when the back buffer is already a render target |
| CommandList.FrameReplaysCleanly | dx12-starter/Renderer.cpp:460-501 | replaying the recorded frame from an idle list succeeds and returns every buffer to the present state, with the frame's buffer bound |
| CommandList.MissingOpeningBarrierIsInvalid | dx12-starter/Renderer.cpp:475-482 | without the opening barrier the clear targets a buffer in the present state and the frame is invalid |
| CommandList.MissingClosingBarrierLeavesRenderTarget | dx12-starter/Renderer.cpp:498-500 | without the closing barrier the buffer is left as a render target when presented |
| Renderer.InitialScissor | dx12-starter/Renderer.cpp:3-5 | the constructor's scissor spans 0..width by 0..height, with widths of 2^31 or more turning negative through the LONG cast |
| Renderer.Initialized | dx12-starter/Renderer.cpp:3-10 | after construction and Init the renderer satisfies the ring invariant and holds every modelled object: back buffers, swap chain and waitable, allocators, queue, list, heaps (including the constant-buffer heap), fence, event, device, pipeline state, root signature, vertex and constant buffers |
| Renderer.HandleResize | dx12-starter/Renderer.cpp:517-535 | the scissor becomes the rectangle from (0, 0) with the new width and height, and the frame ring and held objects are untouched (no drain) |
| Renderer.SignalGuardsSubmittedWork | dx12-starter/Renderer.cpp:505-514 | a frame's queue work executes the list first and ends by signalling exactly the value its context keeps, the value that also guards the context's allocator |
| Renderer.RenderUI | dx12-starter/Renderer.cpp:456-515 | acquires the next slot, records a well-bracketed frame on it, and submits execute/present/signal with the next fence value, which the slot keeps; the other two contexts are unchanged; the allocator is safe to reset; the invariant is kept |
| Renderer.ReleaseHeld | dx12-starter/Renderer.cpp:435-436 | gives up exactly the listed objects that are still held, each once and in the order listed (closing the waitable handle, releasing the others) |
| Renderer.BackBufferReleases | dx12-starter/Renderer.cpp:435-436 | the back-buffer loop releases exactly the held back buffers, each once, in index order |
| Renderer.CleanupRenderTarget | dx12-starter/Renderer.cpp:431-438 | first drains the last frame, then releases each held back buffer once, in index order; no event repeats and nothing else is released |
| Renderer.DeviceTeardownEvents | dx12-starter/Renderer.cpp:409-419 | in the source's order and each once: closes the waitable when held and releases every other held object it names; never touches back buffers or the objects it does not release |
| Renderer.CleanupDevice | dx12-starter/Renderer.cpp:406-419 | starts with CleanupRenderTarget's events; afterwards only the closed but not cleared waitable handle and the objects it never releases (pipeline state, root signature, constant-buffer heap, vertex and constant buffers) stay held |
| Renderer.CleanupDeviceDrainsBeforeReleasing | dx12-starter/Renderer.cpp:406-419 | the drain precedes every release; no event repeats; an object is released exactly when it was held and is neither the waitable nor one never released; the waitable is closed exactly when held |
| Renderer.VertexBufferOutlivesCleanup | dx12-starter/Renderer.cpp:406-419 | the vertex buffer Init creates is still held, and never released, after CleanupDevice |
| Renderer.SecondCleanupClosesWaitableAgain | dx12-starter/Renderer.cpp:410 | a second CleanupDevice closes the waitable handle a second time |
| Renderer.ShutdownAfterFrameIsIdle | dx12-starter/Renderer.cpp:406-408 | shutting down right after a frame leaves the GPU fence at the last signalled value and every allocator safe to reset |
| Renderer.Run | dx12-starter/Renderer.cpp:456-515 | a run signals one value per rendered frame, never lowers the completed fence value, and leaves held objects and scissor alone |
| Renderer.RunKeepsProtocol | dx12-starter/Renderer.cpp:511-514 | over any run the invariant holds, every allocator reset is safe, and the signalled values are consecutive from the starting fence value |

## Left out

- Device, adapter, queue, heap, swap-chain, root-signature, pipeline and buffer creation in `Init` and `GetHardwareAdapter`: these are COM calls. The model takes their joint effect as "every modelled object held" (`Renderer.Initialized`), and their result codes only as the sequence `Hresult.FirstRejected` checks. Temporaries that `Init` creates and releases itself (factory, first swap-chain interface, shader blobs) are not modelled.
- The renderer's destruction, where the `ComPtr` members (pipeline state, root signature, constant-buffer heap, constant buffers) release their objects, is outside `CleanupDevice` and not modelled.
- `CloseHandle` on the fence event is recorded as a `Released` event, because, like the released objects, its member is nulled afterwards.
- The OS waits (`WaitForMultipleObjects`, `WaitForSingleObject`, `SetEventOnCompletion`) are modelled only by their effect on the fence. The swap-chain waitable carries no state, because the frame-latency wait does not affect the ring.
- Floating point is not modelled: viewport, clear colour, vertex data, camera and matrix updates (`OnUpdate`, `UpdateCB`).
- Shader compilation (`D3DCompileFromFile`) is a foreign call. Only the path it is given is modelled.
- `CreateRenderTarget`'s `GetBuffer`/`CreateRenderTargetView` are foreign calls. Back buffer i is taken to be viewed by descriptor i.
- `ResizeBuffers` inside `HandleResize` is a foreign call, and its result is ignored by the source. `HandleResizeCallback` only forwards to `HandleResize`.
- The HRESULTs of `Reset`, `Close`, `Present` and `Signal` are ignored by the source and not modelled.
- The UI's own draw calls (`RenderDrawData`) are a single command, because they come from a library outside the core.
- ComPtr reference counting is modelled as a single release per object.
- The window, application loop, entry point and UI header are plumbing outside the renderer core.
- The debug-layer live-object report at the end of `CleanupDevice` is diagnostic output only.
- AssetPath.GetModuleFileName: models the documented Win32 contract, not Windows itself, and takes module names to contain no NUL character.
- FrameRing.SignalFrame: keeps the invariant only while the last fence value is below 2^64-1. At the wrap the invariant fails: the source signals 0, stores 0 in the entry, and a later acquire of that entry does not wait (`FrameRing.SignalAtFenceWrapBreaksInv`). Reaching it takes 2^64 frames.
- Renderer.RenderUI: keeps the invariant under the same bound on the fence value as `FrameRing.SignalFrame`.
- Renderer.RunKeepsProtocol: requires the run to end before the 64-bit fence value wraps, for the same reason.
