/** The commands `Renderer::RenderUI` records into its one graphics command
    list each frame, and what it then asks of the command queue and the swap
    chain. Commands are abstract tokens; resources and render-target
    descriptors are named by back-buffer index, since descriptor `i` is the
    view `CreateRenderTarget` made of back buffer `i`. */
module CommandList {
  import opened Ints
  import opened Config
  import opened Outcomes

  /** The two resource states a back buffer moves between. */
  datatype ResourceState = StatePresent | StateRenderTarget

  /** The two shader-visible descriptor heaps bound during the frame. */
  datatype Heap = CbvHeap | SrvHeap

  datatype Command =
    | Reset(allocatorSlot: nat)        // open the list on the frame's allocator
    | SetRootSignature
    | SetDescriptorHeaps(heap: Heap)
    | SetRootDescriptorTable(rootIndex: nat)
    | SetViewport
    | SetScissor
    | Barrier(resource: nat, before: ResourceState, after: ResourceState)
    | ClearRenderTarget(descriptor: nat)
    | SetRenderTarget(descriptor: nat)
    | SetTopology
    | SetVertexBuffer
    | Draw(vertexCount: nat)
    | UiDraw                           // the UI back end appends its own draws
    | Close

  /** Work handed to the queue and the swap chain after recording. */
  datatype QueueOp =
    | ExecuteCommandLists
    | PresentFrame(syncInterval: nat)
    | Signal(value: uint64)

  /** The cube: 6 faces of 2 triangles. */
  const CUBE_VERTEX_COUNT: nat := 36
  /** `Present(1, 0)`: wait for one vertical blank. */
  const VSYNC_INTERVAL: nat := 1

  /** Commands that draw into, or bind, the frame's render target. */
  predicate IsRenderOp(c: Command) {
    c.ClearRenderTarget? || c.SetRenderTarget? || c.Draw? || c.UiDraw?
  }

  /** The frame discipline, positions `p` and `q` being the two barriers:
      the list is started once on the frame's allocator and closed once at the
      end; the only barriers are PRESENT to RENDER_TARGET at `p` and back at
      `q`, both on back buffer `b`; every render command lies strictly between
      them and targets the descriptor of that same back buffer; inside them
      the target is cleared, then bound, then the cube is drawn, then the UI. */
  ghost predicate BracketedAt(cmds: seq<Command>, slot: nat, b: nat, p: nat, q: nat) {
    && 0 < p < q < |cmds| - 1
    && OpenedAndClosed(cmds, slot)
    && BarriersAt(cmds, b, p, q)
    && RendersBetween(cmds, b, p, q)
    && RenderOrder(cmds, b, p, q)
  }

  /** Started once on `slot`'s allocator, closed once at the end. */
  ghost predicate OpenedAndClosed(cmds: seq<Command>, slot: nat) {
    && |cmds| > 0
    && cmds[0] == Reset(slot)
    && cmds[|cmds| - 1] == Close
    && (forall k :: 0 < k < |cmds| ==> !cmds[k].Reset?)
    && (forall k :: 0 <= k < |cmds| - 1 ==> !cmds[k].Close?)
  }

  /** The only barriers are back buffer `b`'s transitions at `p` and `q`. */
  ghost predicate BarriersAt(cmds: seq<Command>, b: nat, p: nat, q: nat) {
    && p < q < |cmds|
    && cmds[p] == Barrier(b, StatePresent, StateRenderTarget)
    && cmds[q] == Barrier(b, StateRenderTarget, StatePresent)
    && (forall k :: 0 <= k < |cmds| && cmds[k].Barrier? ==> k == p || k == q)
  }

  /** Every render command lies between the barriers and targets `b`. */
  ghost predicate RendersBetween(cmds: seq<Command>, b: nat, p: nat, q: nat) {
    && (forall k :: 0 <= k < |cmds| && IsRenderOp(cmds[k]) ==> p < k < q)
    && (forall k :: 0 <= k < |cmds| && (cmds[k].ClearRenderTarget? || cmds[k].SetRenderTarget?) ==> cmds[k].descriptor == b)
  }

  /** `pattern` occurs in `cmds` in order, other commands possibly in between. */
  ghost predicate OccursInOrder(pattern: seq<Command>, cmds: seq<Command>)
    decreases |cmds|
  {
    if |pattern| == 0 then true
    else if |cmds| == 0 then false
    else if cmds[0] == pattern[0] then OccursInOrder(pattern[1..], cmds[1..])
    else OccursInOrder(pattern, cmds[1..])
  }

  /** What the frame renders, in the order it renders it. */
  function RenderSequence(b: nat): seq<Command> {
    [ClearRenderTarget(b), SetRenderTarget(b), Draw(CUBE_VERTEX_COUNT), UiDraw]
  }

  /** Between the barriers: clear `b`, bind `b`, draw the cube, draw the UI. */
  ghost predicate RenderOrder(cmds: seq<Command>, b: nat, p: nat, q: nat) {
    && p < q <= |cmds|
    && OccursInOrder(RenderSequence(b), cmds[p + 1..q])
  }

  /** An in-order occurrence starts at a position holding the pattern's head,
      and the rest of the pattern occurs after it. */
  lemma {:induction false} OccursInOrderHead(pattern: seq<Command>, cmds: seq<Command>)
    requires |pattern| > 0 && OccursInOrder(pattern, cmds)
    ensures exists i :: 0 <= i < |cmds| && cmds[i] == pattern[0] && OccursInOrder(pattern[1..], cmds[i + 1..])
    decreases |cmds|
  {
    if cmds[0] == pattern[0] {
      assert cmds[0 + 1..] == cmds[1..];
    } else {
      OccursInOrderHead(pattern, cmds[1..]);
      var i :| 0 <= i < |cmds[1..]| && cmds[1..][i] == pattern[0] && OccursInOrder(pattern[1..], cmds[1..][i + 1..]);
      assert cmds[1..][i + 1..] == cmds[i + 1 + 1..];
    }
  }

  /** The same, for the window `cmds[lo..hi]`, with positions in `cmds`. */
  lemma NextInOrder(pattern: seq<Command>, cmds: seq<Command>, lo: nat, hi: nat) returns (i: nat)
    requires |pattern| > 0 && lo <= hi <= |cmds| && OccursInOrder(pattern, cmds[lo..hi])
    ensures lo <= i < hi && cmds[i] == pattern[0] && OccursInOrder(pattern[1..], cmds[i + 1..hi])
  {
    OccursInOrderHead(pattern, cmds[lo..hi]);
    var j :| 0 <= j < |cmds[lo..hi]| && cmds[lo..hi][j] == pattern[0] && OccursInOrder(pattern[1..], cmds[lo..hi][j + 1..]);
    assert cmds[lo..hi][j + 1..] == cmds[lo + j + 1..hi];
    i := lo + j;
  }

  /** `RenderOrder` spelled out with positions: `p < c < t < d < u < q` hold
      the clear, the bind, the cube's draw and the UI's draw. */
  lemma RenderOrderPositions(cmds: seq<Command>, b: nat, p: nat, q: nat)
    requires RenderOrder(cmds, b, p, q)
    ensures exists c :: p < c < q && cmds[c] == ClearRenderTarget(b) &&
              (exists t :: c < t < q && cmds[t] == SetRenderTarget(b) &&
                (exists d :: t < d < q && cmds[d] == Draw(CUBE_VERTEX_COUNT) &&
                  (exists u :: d < u < q && cmds[u] == UiDraw)))
  {
    var pat := RenderSequence(b);
    var c := NextInOrder(pat, cmds, p + 1, q);
    var t := NextInOrder(pat[1..], cmds, c + 1, q);
    assert pat[1..][1..] == pat[2..];
    var d := NextInOrder(pat[2..], cmds, t + 1, q);
    assert pat[2..][1..] == pat[3..];
    var u := NextInOrder(pat[3..], cmds, d + 1, q);
    assert cmds[u] == UiDraw;
  }

  /** The frame body renders in `RenderSequence`'s order. */
  lemma BodyRendersInOrder(b: nat)
    ensures OccursInOrder(RenderSequence(b), FrameBody(b))
  {
    var pat, body := RenderSequence(b), FrameBody(b);
    assert OccursInOrder(pat[4..], body[7..]);
    assert OccursInOrder(pat[3..], body[6..]);
    assert OccursInOrder(pat[2..], body[5..]);
    assert OccursInOrder(pat[2..], body[3..]);
    assert OccursInOrder(pat[1..], body[1..]);
  }

  /** The opening of the frame: open the list on the frame's allocator and
      bind the pipeline's root signature, constant buffers, viewport and
      scissor rectangle. */
  function FrameSetup(slot: nat): seq<Command> {
    [Reset(slot), SetRootSignature, SetDescriptorHeaps(CbvHeap), SetRootDescriptorTable(0), SetViewport, SetScissor]
  }

  /** The rendering proper: clear and bind back buffer `b`'s descriptor, bind
      the UI's heap and the cube's geometry, draw the cube, then the UI. */
  function FrameBody(b: nat): seq<Command> {
    [ClearRenderTarget(b), SetRenderTarget(b), SetDescriptorHeaps(SrvHeap), SetTopology, SetVertexBuffer,
     Draw(CUBE_VERTEX_COUNT), UiDraw]
  }

  /** `RenderUI`'s recording, from `Reset` to `Close`, for the frame whose
      context is `slot` and whose back buffer is `backBufferIdx`. */
  function RecordFrame(slot: nat, backBufferIdx: nat): (cmds: seq<Command>)
    ensures BracketedAt(cmds, slot, backBufferIdx, 6, 14)
  {
    var cmds := FrameSetup(slot)
      + [Barrier(backBufferIdx, StatePresent, StateRenderTarget)]
      + FrameBody(backBufferIdx)
      + [Barrier(backBufferIdx, StateRenderTarget, StatePresent), Close];
    assert OpenedAndClosed(cmds, slot);
    assert BarriersAt(cmds, backBufferIdx, 6, 14);
    assert RendersBetween(cmds, backBufferIdx, 6, 14);
    assert RenderOrder(cmds, backBufferIdx, 6, 14) by {
      assert cmds[7..14] == FrameBody(backBufferIdx);
      BodyRendersInOrder(backBufferIdx);
    }
    cmds
  }

  /** After recording: execute the list, present with vsync, then signal `v`. */
  function SubmitFrame(v: uint64): (ops: seq<QueueOp>)
    ensures |ops| == 3 && ops[|ops| - 1] == Signal(v)
    ensures forall k :: 0 <= k < |ops| - 1 ==> !ops[k].Signal?
    ensures ops[0] == ExecuteCommandLists && ops[1] == PresentFrame(VSYNC_INTERVAL)
  {
    [ExecuteCommandLists, PresentFrame(VSYNC_INTERVAL), Signal(v)]
  }

  /** What the GPU-side validation of a command list tracks: whether the list
      is open, the state of each back buffer, and the bound render target. */
  datatype ListState = ListState(recording: bool, resources: seq<ResourceState>, bound: Option<nat>)

  /** All back buffers presentable, list closed, nothing bound: the state
      between frames. */
  function Idle(bound: Option<nat>): ListState {
    ListState(false, seq(NUM_BACK_BUFFERS, _ => StatePresent), bound)
  }

  /** One command's effect, or `None` when it is invalid: recording into a
      closed list, resetting an open one, a barrier whose "before" state is
      not the resource's state, or rendering to a buffer that is not in the
      render-target state. */
  function Apply(st: ListState, c: Command): Option<ListState> {
    match c
    case Reset(_) => if st.recording then None else Some(st.(recording := true, bound := None))
    case Close => if st.recording then Some(st.(recording := false)) else None
    case Barrier(res, before, after) =>
      if st.recording && res < |st.resources| && st.resources[res] == before
      then Some(st.(resources := st.resources[res := after])) else None
    case ClearRenderTarget(d) =>
      if st.recording && IsRenderTarget(st, d) then Some(st) else None
    case SetRenderTarget(d) =>
      if st.recording && IsRenderTarget(st, d) then Some(st.(bound := Some(d))) else None
    case Draw(_) =>
      if st.recording && st.bound.Some? && IsRenderTarget(st, st.bound.value) then Some(st) else None
    case UiDraw =>
      if st.recording && st.bound.Some? && IsRenderTarget(st, st.bound.value) then Some(st) else None
    case _ => if st.recording then Some(st) else None
  }

  /** Back buffer `d` exists and is in the render-target state. */
  predicate IsRenderTarget(st: ListState, d: nat) {
    d < |st.resources| && st.resources[d] == StateRenderTarget
  }

  /** Runs a whole list, failing at the first invalid command. */
  function Replay(st: ListState, cmds: seq<Command>): Option<ListState>
    decreases |cmds|
  {
    if |cmds| == 0 then Some(st)
    else match Apply(st, cmds[0])
      case None => None
      case Some(st') => Replay(st', cmds[1..])
  }

  /** Replaying a concatenation replays the first part, then the second. */
  lemma {:induction false} ReplayAppend(st: ListState, a: seq<Command>, b: seq<Command>)
    ensures Replay(st, a + b) == (match Replay(st, a) case None => None case Some(st') => Replay(st', b))
    decreases |a|
  {
    if |a| == 0 {
      assert a + b == b;
    } else {
      assert (a + b)[0] == a[0];
      assert (a + b)[1..] == a[1..] + b;
      match Apply(st, a[0])
      case None =>
      case Some(st') => ReplayAppend(st', a[1..], b);
    }
  }

  /** Replaying from position `k` takes the step of command `k`. */
  lemma ReplayStepAt(st: ListState, cmds: seq<Command>, k: nat, st': ListState)
    requires k < |cmds| && Apply(st, cmds[k]) == Some(st')
    ensures Replay(st, cmds[k..]) == Replay(st', cmds[k + 1..])
  {
    assert cmds[k..][1..] == cmds[k + 1..];
  }

  /** The opening part opens a closed list and unbinds the render target. */
  lemma SetupOpens(slot: nat, st: ListState)
    requires !st.recording
    ensures Replay(st, FrameSetup(slot)) == Some(st.(recording := true, bound := None))
  {
    var st' := st.(recording := true, bound := None);
    var cmds := FrameSetup(slot);
    assert cmds[0..] == cmds;
    ReplayStepAt(st, cmds, 0, st');
    ReplayStepAt(st', cmds, 1, st');
    ReplayStepAt(st', cmds, 2, st');
    ReplayStepAt(st', cmds, 3, st');
    ReplayStepAt(st', cmds, 4, st');
    ReplayStepAt(st', cmds, 5, st');
  }

  /** The rendering proper is valid exactly on a back buffer in the
      render-target state, and leaves its descriptor bound. */
  lemma BodyRenders(b: nat, st: ListState)
    requires st.recording
    ensures Replay(st, FrameBody(b)) == if IsRenderTarget(st, b) then Some(st.(bound := Some(b))) else None
  {
    if IsRenderTarget(st, b) {
      BodyRendersOnTarget(b, st);
    } else {
      assert Apply(st, FrameBody(b)[0]) == None;
    }
  }

  /** The valid case of `BodyRenders`: the clear and the bind, then the
      commands that keep the state. */
  lemma BodyRendersOnTarget(b: nat, st: ListState)
    requires st.recording && IsRenderTarget(st, b)
    ensures Replay(st, FrameBody(b)) == Some(st.(bound := Some(b)))
  {
    var st' := st.(bound := Some(b));
    var bind := [ClearRenderTarget(b), SetRenderTarget(b)];
    assert FrameBody(b) == bind + AFTER_BINDING;
    assert Replay(st, bind) == Some(st') by {
      ReplayStepAt(st, bind, 0, st);
      assert bind[0..] == bind;
      ReplayStepAt(st, bind, 1, st');
    }
    AfterBindingKeepsState(st');
    ReplayAppend(st, bind, AFTER_BINDING);
  }

  /** The body's commands after the clear and the bind. */
  const AFTER_BINDING: seq<Command> :=
    [SetDescriptorHeaps(SrvHeap), SetTopology, SetVertexBuffer, Draw(CUBE_VERTEX_COUNT), UiDraw]

  /** Drawing onto a bound render target changes nothing validation tracks. */
  lemma AfterBindingKeepsState(st: ListState)
    requires st.recording && st.bound.Some? && IsRenderTarget(st, st.bound.value)
    ensures Replay(st, AFTER_BINDING) == Some(st)
  {
    var cmds := AFTER_BINDING;
    assert cmds[0..] == cmds;
    ReplayStepAt(st, cmds, 0, st);
    ReplayStepAt(st, cmds, 1, st);
    ReplayStepAt(st, cmds, 2, st);
    ReplayStepAt(st, cmds, 3, st);
    ReplayStepAt(st, cmds, 4, st);
  }

  /** The part after the opening barrier, given the list is open and `b` is
      the target: it renders and then runs `tail`. */
  lemma AfterOpening(b: nat, st: ListState, tail: seq<Command>)
    requires st.recording && IsRenderTarget(st, b)
    ensures Replay(st, FrameBody(b) + tail) == Replay(st.(bound := Some(b)), tail)
  {
    ReplayAppend(st, FrameBody(b), tail);
    BodyRenders(b, st);
  }

  /** A frame is valid command-list work: starting between frames (list
      closed, every back buffer presentable), every barrier and every
      render-target use is legal, every render command finds its target in
      the render-target state, and the
      frame ends closed with every back buffer presentable again. */
  lemma FrameReplaysCleanly(slot: nat, b: nat, bound: Option<nat>)
    requires b < NUM_BACK_BUFFERS
    ensures Replay(Idle(bound), RecordFrame(slot, b)) == Some(Idle(Some(b)))
  {
    var presentable := seq(NUM_BACK_BUFFERS, _ => StatePresent);
    var started := ListState(true, presentable, None);
    var target := ListState(true, presentable[b := StateRenderTarget], None);
    var drawing := target.(bound := Some(b));
    var done := ListState(true, presentable, Some(b));
    var closing := [Barrier(b, StateRenderTarget, StatePresent), Close];
    var afterSetup := [Barrier(b, StatePresent, StateRenderTarget)] + FrameBody(b) + closing;
    assert RecordFrame(slot, b) == FrameSetup(slot) + afterSetup;
    ReplayAppend(Idle(bound), FrameSetup(slot), afterSetup);
    SetupOpens(slot, Idle(bound));
    assert afterSetup[1..] == FrameBody(b) + closing;
    assert Replay(started, afterSetup) == Replay(target, FrameBody(b) + closing);
    AfterOpening(b, target, closing);
    assert presentable[b := StateRenderTarget][b := StatePresent] == presentable;
    assert Replay(drawing, closing) == Replay(done, [Close]);
  }

  /** Without the opening barrier the frame is invalid: the clear finds its
      back buffer still in the present state. */
  lemma MissingOpeningBarrierIsInvalid(slot: nat, b: nat, bound: Option<nat>)
    requires b < NUM_BACK_BUFFERS
    ensures Replay(Idle(bound), FrameSetup(slot) + FrameBody(b) + [Barrier(b, StateRenderTarget, StatePresent), Close]) == None
  {
    var started := ListState(true, seq(NUM_BACK_BUFFERS, _ => StatePresent), None);
    var rest := FrameBody(b) + [Barrier(b, StateRenderTarget, StatePresent), Close];
    assert FrameSetup(slot) + FrameBody(b) + [Barrier(b, StateRenderTarget, StatePresent), Close] == FrameSetup(slot) + rest;
    ReplayAppend(Idle(bound), FrameSetup(slot), rest);
    SetupOpens(slot, Idle(bound));
    ReplayAppend(started, FrameBody(b), [Barrier(b, StateRenderTarget, StatePresent), Close]);
    BodyRenders(b, started);
  }

  /** Without the closing barrier the frame ends with its back buffer still a
      render target, so it cannot be presented. */
  lemma MissingClosingBarrierLeavesRenderTarget(slot: nat, b: nat, bound: Option<nat>)
    requires b < NUM_BACK_BUFFERS
    ensures Replay(Idle(bound), FrameSetup(slot) + [Barrier(b, StatePresent, StateRenderTarget)] + FrameBody(b) + [Close])
      == Some(ListState(false, seq(NUM_BACK_BUFFERS, _ => StatePresent)[b := StateRenderTarget], Some(b)))
  {
    var presentable := seq(NUM_BACK_BUFFERS, _ => StatePresent);
    var started := ListState(true, presentable, None);
    var target := ListState(true, presentable[b := StateRenderTarget], None);
    var afterSetup := [Barrier(b, StatePresent, StateRenderTarget)] + FrameBody(b) + [Close];
    assert FrameSetup(slot) + [Barrier(b, StatePresent, StateRenderTarget)] + FrameBody(b) + [Close] == FrameSetup(slot) + afterSetup;
    ReplayAppend(Idle(bound), FrameSetup(slot), afterSetup);
    SetupOpens(slot, Idle(bound));
    assert afterSetup[1..] == FrameBody(b) + [Close];
    assert Replay(started, afterSetup) == Replay(target, FrameBody(b) + [Close]);
    AfterOpening(b, target, [Close]);
  }
}
