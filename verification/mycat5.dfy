/** mycat5.c: a fixed 32 KiB `align_alloc` buffer. The page size and the
    block size are still queried, and a failure of either query is still
    fatal, but neither value is used. */
module Mycat5 {
  import opened Wrappers
  import opened Syscalls
  import opened Transfer
  import opened AlignedAlloc
  import opened AlignedBuffer
  import opened BufferSize

  /** `main` of mycat5.c. */
  function Execute(w: World): (r: Outcome)
    requires ValidPageReply(w.pageSize) && ValidPageReply(w.allocPageSize)
    requires MallocResult(w.block, AllocRequest(TunedSize, w.allocPageSize))
    ensures w.argc != 2 ==> r == Outcome(Failure(Usage), [])
    ensures w.argc == 2 && !w.openOk ==> r == Outcome(Failure(OpenError), [Open])
    ensures w.argc == 2 && w.openOk && w.pageSize.None? ==> r == Outcome(Failure(PageSizeError), [Open, Close])
    ensures w.argc == 2 && w.openOk && w.pageSize.Some? && w.blockSize.None? ==>
      r == Outcome(Failure(StatError), [Open, Close])
    ensures w.argc == 2 && w.openOk && w.pageSize.Some? && w.blockSize.Some? ==>
      var request := AllocRequest(TunedSize, w.allocPageSize);
      && [Open, Alloc(request, w.block)] <= r.trace
      && (w.block == Null ==> r == Outcome(Failure(OutOfMemory), [Open, Alloc(request, Null), Close]))
      && (w.block != Null ==> StreamedThenReleased(w.file, r, TunedSize, w.block, 2))
  {
    if w.argc != 2 then Outcome(Failure(Usage), [])
    else if !w.openOk then Outcome(Failure(OpenError), [Open])
    else if w.pageSize.None? then Outcome(Failure(PageSizeError), [Open, Close])
    else if w.blockSize.None? then Outcome(Failure(StatError), [Open, Close])
    else
      var setup := [Open];
      assert |setup| + 1 == 2;
      AllocateCopyRelease(w, TunedSize, setup)
  }

  /** Once both queries succeed, the values they return change nothing. */
  lemma SizeIgnoresQueries(w: World, page: nat, blksize: nat)
    requires ValidPageReply(w.pageSize) && ValidPageReply(w.allocPageSize)
    requires MallocResult(w.block, AllocRequest(TunedSize, w.allocPageSize))
    requires w.pageSize.Some? && w.blockSize.Some? && ValidPageSize(page)
    ensures Execute(w.(pageSize := Some(page), blockSize := Some(blksize))) == Execute(w)
  {
  }
}
