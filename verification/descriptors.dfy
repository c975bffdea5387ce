/** The render-target-view descriptor handles laid out by `Renderer::Init`:
    one handle per back buffer, consecutive in the RTV heap, each one
    descriptor-increment after the previous. A handle is a `SIZE_T` address,
    so the `ptr +=` step wraps modulo 2^64. */
module Descriptors {
  import opened Ints
  import opened Config

  /** The address of the `i`-th descriptor: heap start plus `i` increments. */
  function RtvHandle(heapStart: uint64, increment: uint32, i: nat): uint64
  {
    WrapU64(heapStart + i * increment)
  }

  /** Adding after a wrap is the same as adding and then wrapping once. */
  lemma WrapU64Add(x: int, d: int)
    ensures WrapU64(WrapU64(x) + d) == WrapU64(x + d)
  {
    var q := x / TWO_TO_THE_64;
    assert x == q * TWO_TO_THE_64 + WrapU64(x);
    assert x + d == q * TWO_TO_THE_64 + (WrapU64(x) + d);
  }

  /** One step of the loop moves from the `i`-th descriptor to the next. */
  lemma RtvHandleStep(heapStart: uint64, increment: uint32, i: nat)
    ensures RtvHandle(heapStart, increment, i + 1) == WrapU64(RtvHandle(heapStart, increment, i) + increment)
  {
    assert (i + 1) * increment == i * increment + increment;
    WrapU64Add(heapStart + i * increment, increment);
  }

  /** The descriptor loop: starting at the heap start, hand out the current
      handle and advance it by the increment, once per back buffer. */
  method CreateRtvHandles(heapStart: uint64, increment: uint32) returns (handles: seq<uint64>)
    ensures |handles| == NUM_BACK_BUFFERS
    ensures forall i :: 0 <= i < |handles| ==> handles[i] == WrapU64(heapStart + i * increment)
  {
    handles := [];
    var rtvHandle: uint64 := heapStart;
    var i := 0;
    while i < NUM_BACK_BUFFERS
      invariant i <= NUM_BACK_BUFFERS
      invariant |handles| == i
      invariant forall k :: 0 <= k < i ==> handles[k] == RtvHandle(heapStart, increment, k)
      invariant rtvHandle == RtvHandle(heapStart, increment, i)
    {
      handles := handles + [rtvHandle];
      RtvHandleStep(heapStart, increment, i);
      rtvHandle := WrapU64(rtvHandle + increment);
      i := i + 1;
    }
  }

  /** When the three descriptors fit below the top of the address space,
      later descriptors lie strictly above earlier ones exactly when the
      increment is positive; with a zero increment they all coincide. */
  lemma HandlesOrdered(heapStart: uint64, increment: uint32, i: nat, j: nat)
    requires heapStart + (NUM_BACK_BUFFERS - 1) * increment < TWO_TO_THE_64
    requires i < j < NUM_BACK_BUFFERS
    ensures RtvHandle(heapStart, increment, i) < RtvHandle(heapStart, increment, j) <==> increment > 0
    ensures increment == 0 ==> RtvHandle(heapStart, increment, i) == RtvHandle(heapStart, increment, j)
  {
    assert i * increment <= j * increment <= (NUM_BACK_BUFFERS - 1) * increment by {
      MulMono(i, j, increment);
      MulMono(j, NUM_BACK_BUFFERS - 1, increment);
    }
    if increment > 0 {
      MulStrict(i, j, increment);
    }
  }

  lemma MulMono(a: nat, b: nat, c: nat)
    requires a <= b
    ensures a * c <= b * c
  {
  }

  lemma MulStrict(a: nat, b: nat, c: nat)
    requires a < b && c > 0
    ensures a * c < b * c
  {
  }
}
