/** mycat2.c: a buffer of one page from plain `malloc`, one page per `read`. */
module Mycat2 {
  import opened Syscalls
  import opened Transfer
  import opened AlignedAlloc

  /** `main` of mycat2.c. */
  function Execute(w: World): (r: Outcome)
    requires ValidPageReply(w.pageSize)
    requires w.pageSize.Some? ==> MallocResult(w.block, w.pageSize.value)
    ensures w.argc != 2 ==> r == Outcome(Failure(Usage), [])
    ensures w.argc == 2 && !w.openOk ==> r == Outcome(Failure(OpenError), [Open])
    ensures w.argc == 2 && w.openOk && w.pageSize.None? ==> r == Outcome(Failure(PageSizeError), [Open, Close])
    ensures w.argc == 2 && w.openOk && w.pageSize.Some? ==>
      var page := w.pageSize.value;
      && [Open, Alloc(page, w.block)] <= r.trace
      && (w.block == Null ==> r == Outcome(Failure(OutOfMemory), [Open, Alloc(page, Null), Close]))
      && (w.block != Null ==> StreamedThenReleased(w.file, r, page, w.block, 2))
  {
    if w.argc != 2 then Outcome(Failure(Usage), [])
    else if !w.openOk then Outcome(Failure(OpenError), [Open])
    else if w.pageSize.None? then Outcome(Failure(PageSizeError), [Open, Close])
    else
      var page := w.pageSize.value;
      if w.block == Null then Outcome(Failure(OutOfMemory), [Open, Alloc(page, Null), Close])
      else StreamThenRelease(w.file, page, w.readAnswers, w.writeAnswers, [Open, Alloc(page, w.block)], w.block)
  }
}
