/** mycat3.c: a one-page buffer from `align_alloc`, one page per `read`. */
module Mycat3 {
  import Mycat2
  import opened Syscalls
  import opened Transfer
  import opened AlignedAlloc
  import opened AlignedBuffer

  /** `main` of mycat3.c. */
  function Execute(w: World): (r: Outcome)
    requires ValidPageReply(w.pageSize) && ValidPageReply(w.allocPageSize)
    requires w.pageSize.Some? ==> MallocResult(w.block, AllocRequest(w.pageSize.value, w.allocPageSize))
    ensures w.argc != 2 ==> r == Outcome(Failure(Usage), [])
    ensures w.argc == 2 && !w.openOk ==> r == Outcome(Failure(OpenError), [Open])
    ensures w.argc == 2 && w.openOk && w.pageSize.None? ==> r == Outcome(Failure(PageSizeError), [Open, Close])
    ensures w.argc == 2 && w.openOk && w.pageSize.Some? ==>
      var page := w.pageSize.value;
      var request := AllocRequest(page, w.allocPageSize);
      && [Open, Alloc(request, w.block)] <= r.trace
      && (w.block == Null ==> r == Outcome(Failure(OutOfMemory), [Open, Alloc(request, Null), Close]))
      && (w.block != Null ==> StreamedThenReleased(w.file, r, page, w.block, 2))
  {
    if w.argc != 2 then Outcome(Failure(Usage), [])
    else if !w.openOk then Outcome(Failure(OpenError), [Open])
    else if w.pageSize.None? then Outcome(Failure(PageSizeError), [Open, Close])
    else
      var setup := [Open];
      assert |setup| + 1 == 2;
      AllocateCopyRelease(w, w.pageSize.value, setup)
  }

  /** Taking the buffer from `align_alloc` instead of plain `malloc`
      changes neither the exit status nor what reaches standard output:
      mycat3.c and mycat2.c copy a file alike. */
  lemma SameCopyAsMycat2(w: World)
    requires ValidPageReply(w.pageSize) && ValidPageReply(w.allocPageSize)
    requires w.pageSize.Some? ==> MallocResult(w.block, AllocRequest(w.pageSize.value, w.allocPageSize))
    ensures w.pageSize.Some? ==> MallocResult(w.block, w.pageSize.value)
    ensures Execute(w).exit == Mycat2.Execute(w).exit
    ensures Output(Execute(w).trace) == Output(Mycat2.Execute(w).trace)
  {
    if w.argc == 2 && w.openOk && w.pageSize.Some? && w.block != Null {
      var page := w.pageSize.value;
      var request := AllocRequest(page, w.allocPageSize);
      var aligned := [Open] + [Alloc(request, w.block)];
      var plain := [Open, Alloc(page, w.block)];
      SameAsPlainBuffer(w, page, [Open]);
      assert SetupOnly(plain);
      assert Execute(w) == StreamThenRelease(w.file, page, w.readAnswers, w.writeAnswers, aligned, w.block);
      assert Mycat2.Execute(w) == StreamThenRelease(w.file, page, w.readAnswers, w.writeAnswers, plain, w.block);
      ReleaseIgnoresSetup(w.file, page, w.readAnswers, w.writeAnswers, aligned, w.block, plain, w.block);
    } else {
      OutputSilent(Execute(w).trace);
      OutputSilent(Mycat2.Execute(w).trace);
    }
  }
}
