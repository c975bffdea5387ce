/** Fixed sizes of the renderer (Renderer.h). */
module Config {
  /** Images in the swap chain, and render-target descriptors in the RTV heap. */
  const NUM_BACK_BUFFERS: nat := 3
  /** Entries in the frame-context ring. */
  const NUM_FRAMES_IN_FLIGHT: nat := 3
}
