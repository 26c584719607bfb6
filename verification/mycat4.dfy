/** mycat4.c: an `align_alloc` buffer as large as the larger of the page
    size and the file system's block size, rounded up to whole pages. */
module Mycat4 {
  import Mycat3
  import opened Bits
  import opened Syscalls
  import opened Transfer
  import opened AlignedAlloc
  import opened AlignedBuffer
  import opened BufferSize

  /** `main` of mycat4.c. */
  function Execute(w: World): (r: Outcome)
    requires ValidPageReply(w.pageSize) && ValidPageReply(w.allocPageSize)
    requires w.pageSize.Some? && w.blockSize.Some? ==>
      MallocResult(w.block, AllocRequest(BlockAlignedSize(w.pageSize.value, w.blockSize.value), w.allocPageSize))
    ensures w.argc != 2 ==> r == Outcome(Failure(Usage), [])
    ensures w.argc == 2 && !w.openOk ==> r == Outcome(Failure(OpenError), [Open])
    ensures w.argc == 2 && w.openOk && w.pageSize.None? ==> r == Outcome(Failure(PageSizeError), [Open, Close])
    ensures w.argc == 2 && w.openOk && w.pageSize.Some? && w.blockSize.None? ==>
      r == Outcome(Failure(StatError), [Open, Close])
    ensures w.argc == 2 && w.openOk && w.pageSize.Some? && w.blockSize.Some? ==>
      var size := BlockAlignedSize(w.pageSize.value, w.blockSize.value);
      var request := AllocRequest(size, w.allocPageSize);
      && [Open, Alloc(request, w.block)] <= r.trace
      && (w.block == Null ==> r == Outcome(Failure(OutOfMemory), [Open, Alloc(request, Null), Close]))
      && (w.block != Null ==> StreamedThenReleased(w.file, r, size, w.block, 2))
  {
    if w.argc != 2 then Outcome(Failure(Usage), [])
    else if !w.openOk then Outcome(Failure(OpenError), [Open])
    else if w.pageSize.None? then Outcome(Failure(PageSizeError), [Open, Close])
    else if w.blockSize.None? then Outcome(Failure(StatError), [Open, Close])
    else
      var setup := [Open];
      assert |setup| + 1 == 2;
      AllocateCopyRelease(w, BlockAlignedSize(w.pageSize.value, w.blockSize.value), setup)
  }

  /** When `fstat` succeeds with a block size no larger than a page, the
      buffer is one page and mycat4.c runs exactly as mycat3.c does. */
  lemma SmallBlocksAsMycat3(w: World)
    requires ValidPageReply(w.pageSize) && ValidPageReply(w.allocPageSize)
    requires w.pageSize.Some? ==> MallocResult(w.block, AllocRequest(w.pageSize.value, w.allocPageSize))
    requires w.pageSize.Some? && w.blockSize.Some? && w.blockSize.value <= w.pageSize.value
    ensures BlockAlignedSize(w.pageSize.value, w.blockSize.value) == w.pageSize.value
    ensures Execute(w) == Mycat3.Execute(w)
  {
    var page := w.pageSize.value;
    assert Max(page, w.blockSize.value) == page;
    DivModUnique(page, page, 1, 0);
  }
}
