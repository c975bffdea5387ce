/** Fixed-width integers of the Windows ABI the renderer is compiled for.
    Dafny integers are unbounded, so every place where the C++ code relies on
    a width (a `UINT` counter, a `UINT64` fence value, a `SIZE_T` pointer, a
    signed `HRESULT`/`LONG`) goes through one of the conversions below. */
module Ints {

  const TWO_TO_THE_31: int := 0x8000_0000
  const TWO_TO_THE_32: int := 0x1_0000_0000
  const TWO_TO_THE_64: int := 0x1_0000_0000_0000_0000

  const UINT32_MAX: int := TWO_TO_THE_32 - 1
  const UINT64_MAX: int := TWO_TO_THE_64 - 1

  /** `UINT` / `DWORD` */
  type uint32 = x: int | 0 <= x < 0x1_0000_0000
  /** `UINT64` / `SIZE_T` on 64-bit Windows */
  type uint64 = x: int | 0 <= x < 0x1_0000_0000_0000_0000
  /** `INT` / `LONG` / `HRESULT` */
  type int32 = x: int | -0x8000_0000 <= x < 0x8000_0000

  /** Unsigned 32-bit arithmetic result: the value kept after wrap-around. */
  function WrapU32(x: int): (r: uint32)
    ensures 0 <= x < TWO_TO_THE_32 ==> r == x
    ensures (x - r) % TWO_TO_THE_32 == 0
  {
    x % TWO_TO_THE_32
  }

  /** Unsigned 64-bit arithmetic result: the value kept after wrap-around. */
  function WrapU64(x: int): (r: uint64)
    ensures 0 <= x < TWO_TO_THE_64 ==> r == x
    ensures (x - r) % TWO_TO_THE_64 == 0
  {
    x % TWO_TO_THE_64
  }

  /** Reinterprets the 32 bits of an unsigned value as a two's complement
      signed value (a `(HRESULT)` or `static_cast<LONG>` of an unsigned). */
  function AsInt32(u: uint32): (r: int32)
    ensures (u - r) % TWO_TO_THE_32 == 0
    ensures r < 0 <==> u >= TWO_TO_THE_31
  {
    if u < TWO_TO_THE_31 then u else u - TWO_TO_THE_32
  }

  /** The inverse reinterpretation: the bits of a signed value read as unsigned. */
  function AsUint32(i: int32): (r: uint32)
    ensures (r - i) % TWO_TO_THE_32 == 0
    ensures r >= TWO_TO_THE_31 <==> i < 0
  {
    if i >= 0 then i else i + TWO_TO_THE_32
  }

  /** The two reinterpretations are mutually inverse, so no bit pattern is lost. */
  lemma ReinterpretRoundTrip(u: uint32, i: int32)
    ensures AsUint32(AsInt32(u)) == u
    ensures AsInt32(AsUint32(i)) == i
  {
  }
}
