/** mycat6.c: mycat5.c with a 64 KiB buffer and a sequential-access hint
    given to the kernel right after the file is opened; the hint's result is
    compared with 0, but nothing happens either way. */
module Mycat6 {
  import opened Wrappers
  import opened Syscalls
  import opened Transfer
  import opened AlignedAlloc
  import opened AlignedBuffer
  import opened BufferSize

  /** `main` of mycat6.c. */
  function Execute(w: World): (r: Outcome)
    requires ValidPageReply(w.pageSize) && ValidPageReply(w.allocPageSize)
    requires MallocResult(w.block, AllocRequest(AdvisedSize, w.allocPageSize))
    ensures w.argc != 2 ==> r == Outcome(Failure(Usage), [])
    ensures w.argc == 2 && !w.openOk ==> r == Outcome(Failure(OpenError), [Open])
    ensures w.argc == 2 && w.openOk && w.pageSize.None? ==>
      r == Outcome(Failure(PageSizeError), [Open, Advise, Close])
    ensures w.argc == 2 && w.openOk && w.pageSize.Some? && w.blockSize.None? ==>
      r == Outcome(Failure(StatError), [Open, Advise, Close])
    ensures w.argc == 2 && w.openOk && w.pageSize.Some? && w.blockSize.Some? ==>
      var request := AllocRequest(AdvisedSize, w.allocPageSize);
      && [Open, Advise, Alloc(request, w.block)] <= r.trace
      && (w.block == Null ==> r == Outcome(Failure(OutOfMemory), [Open, Advise, Alloc(request, Null), Close]))
      && (w.block != Null ==> StreamedThenReleased(w.file, r, AdvisedSize, w.block, 3))
  {
    if w.argc != 2 then Outcome(Failure(Usage), [])
    else if !w.openOk then Outcome(Failure(OpenError), [Open])
    else
      // the hint's return value is compared with 0, and both outcomes carry on alike
      if w.adviseResult != 0 then Configure(w) else Configure(w)
  }

  /** mycat6.c from the page-size query on, after the hint. */
  function Configure(w: World): (r: Outcome)
    requires w.argc == 2 && w.openOk
    requires ValidPageReply(w.pageSize) && ValidPageReply(w.allocPageSize)
    requires MallocResult(w.block, AllocRequest(AdvisedSize, w.allocPageSize))
    ensures w.pageSize.None? ==> r == Outcome(Failure(PageSizeError), [Open, Advise, Close])
    ensures w.pageSize.Some? && w.blockSize.None? ==> r == Outcome(Failure(StatError), [Open, Advise, Close])
    ensures w.pageSize.Some? && w.blockSize.Some? ==>
      var request := AllocRequest(AdvisedSize, w.allocPageSize);
      && [Open, Advise, Alloc(request, w.block)] <= r.trace
      && (w.block == Null ==> r == Outcome(Failure(OutOfMemory), [Open, Advise, Alloc(request, Null), Close]))
      && (w.block != Null ==> StreamedThenReleased(w.file, r, AdvisedSize, w.block, 3))
  {
    if w.pageSize.None? then Outcome(Failure(PageSizeError), [Open, Advise, Close])
    else if w.blockSize.None? then Outcome(Failure(StatError), [Open, Advise, Close])
    else
      var setup := [Open, Advise];
      assert |setup| + 1 == 3;
      AllocateCopyRelease(w, AdvisedSize, setup)
  }

  /** Whatever posix_fadvise returns, the run is the same. */
  lemma AdviceIgnored(w: World, result: int)
    requires ValidPageReply(w.pageSize) && ValidPageReply(w.allocPageSize)
    requires MallocResult(w.block, AllocRequest(AdvisedSize, w.allocPageSize))
    ensures Execute(w.(adviseResult := result)) == Execute(w)
  {
  }

  /** Once both queries succeed, the values they return change nothing:
      the buffer is 64 KiB whatever the page size or block size. */
  lemma SizeIgnoresQueries(w: World, page: nat, blksize: nat)
    requires ValidPageReply(w.pageSize) && ValidPageReply(w.allocPageSize)
    requires MallocResult(w.block, AllocRequest(AdvisedSize, w.allocPageSize))
    requires w.pageSize.Some? && w.blockSize.Some? && ValidPageSize(page)
    ensures Execute(w.(pageSize := Some(page), blockSize := Some(blksize))) == Execute(w)
  {
  }
}
