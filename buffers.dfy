/** A reference-counted Netty ByteBuf, reduced to its reference count. */
module Buffers {
  import opened Options

  /** The buffer's only observable state here: its outstanding claims. */
  datatype Buffer = Buffer(refCnt: nat)

  /** Netty refuses to release a buffer whose count is already zero
      (an IllegalReferenceCountException: the double-free case). */
  datatype ReleaseError = IllegalReferenceCount

  /** `ReferenceCountUtil.release`: give up one claim on the buffer. */
  function Release(b: Buffer): (r: Result<Buffer, ReleaseError>)
    ensures r.Success? <==> b.refCnt > 0
    ensures r.Success? ==> r.value.refCnt + 1 == b.refCnt
  {
    if b.refCnt == 0 then Failure(IllegalReferenceCount) else Success(Buffer(b.refCnt - 1))
  }

  /** The guarded release of EXCHANGE_RELEASE: release only while the count is
      positive. The guard is exactly the condition under which `Release` cannot
      fail, so the error case is never reached. */
  function GuardedRelease(b: Buffer): (r: Buffer)
    ensures b.refCnt > 0 ==> r.refCnt + 1 == b.refCnt
    ensures b.refCnt == 0 ==> r == b
    ensures r.refCnt <= b.refCnt
  {
    if b.refCnt > 0 then Release(b).value else b
  }
}
