/** The `SUCCEEDED`/`FAILED` macros and `ThrowIfFailed` from Renderer.h.
    An `HRESULT` is a signed 32-bit code whose top (severity) bit marks a
    failure; the macros cast their argument to `HRESULT` before testing the
    sign, so an unsigned status code such as 0x80004005 counts as failed. */
module Hresult {
  import opened Ints
  import opened Outcomes

  type HRESULT = int32

  const S_OK: HRESULT := 0
  const S_FALSE: HRESULT := 1

  /** `FAILED(hr)`: the code is negative. */
  predicate Failed(hr: HRESULT) {
    hr < 0
  }

  /** `SUCCEEDED(hr)`: the code is non-negative, i.e. exactly when it has not failed. */
  function Succeeded(hr: HRESULT): (b: bool)
    ensures b <==> !Failed(hr)
  {
    hr >= 0
  }

  /** `SUCCEEDED((HRESULT)code)` for a raw 32-bit status word: success exactly
      when the severity bit (bit 31) is clear. */
  function SucceededCode(code: uint32): (b: bool)
    ensures b <==> code < TWO_TO_THE_31
  {
    Succeeded(AsInt32(code))
  }

  /** `ThrowIfFailed(hr)`: throws `hr` when it failed, otherwise returns with
      no effect. */
  function ThrowIfFailed(hr: HRESULT): (r: Outcome)
    ensures r.Thrown? <==> hr < 0
    ensures r.Thrown? ==> r.exception == HrException(hr)
  {
    if Failed(hr) then Thrown(HrException(hr)) else Returned
  }

  /** For every code exactly one of the two macros holds, and `ThrowIfFailed`
      lets through precisely the codes `SUCCEEDED` accepts. */
  lemma ExactlyOneOfSucceededFailed(hr: HRESULT)
    ensures Succeeded(hr) != Failed(hr)
    ensures ThrowIfFailed(hr).Returned? <==> Succeeded(hr)
  {
  }

  /** One of `Init`'s creation checks, `if (call(...) != S_OK) return false;`:
      the step passes only on exactly `S_OK`. */
  predicate InitAccepts(hr: HRESULT) {
    hr == S_OK
  }

  /** `Init`'s checks are stricter than `SUCCEEDED`: every code they accept
      succeeds, but every positive success code (such as `S_FALSE`) passes
      `SUCCEEDED` and `ThrowIfFailed` yet makes `Init` return false. */
  lemma InitChecksStricterThanSucceeded(hr: HRESULT)
    ensures InitAccepts(hr) ==> Succeeded(hr) && ThrowIfFailed(hr).Returned?
    ensures hr > 0 ==> Succeeded(hr) && ThrowIfFailed(hr).Returned? && !InitAccepts(hr)
    ensures Succeeded(S_FALSE) && !InitAccepts(S_FALSE)
  {
  }

  /** Running `Init`'s checked creation steps in order, given each call's
      code: the index of the step at which `Init` returns false, or `None`
      when every step passes. No step after the first rejected one runs. */
  function FirstRejected(codes: seq<HRESULT>): (r: Option<nat>)
    ensures r.None? <==> forall i :: 0 <= i < |codes| ==> InitAccepts(codes[i])
    ensures r.Some? ==> r.value < |codes| && !InitAccepts(codes[r.value])
    ensures r.Some? ==> forall i :: 0 <= i < r.value ==> InitAccepts(codes[i])
    decreases |codes|
  {
    if |codes| == 0 then None
    else if !InitAccepts(codes[0]) then Some(0)
    else
      match FirstRejected(codes[1..])
      case None => None
      case Some(i) => Some(i + 1)
  }

  /** `Init` stops at the first step returning `S_FALSE`, even when every
      earlier and later code would pass `SUCCEEDED`. */
  lemma {:induction false} SFalseStopsInit(codes: seq<HRESULT>, k: nat)
    requires k < |codes| && codes[k] == S_FALSE
    requires forall i :: 0 <= i < k ==> codes[i] == S_OK
    ensures FirstRejected(codes) == Some(k)
    decreases k
  {
    if k > 0 {
      SFalseStopsInit(codes[1..], k - 1);
    }
  }
}
