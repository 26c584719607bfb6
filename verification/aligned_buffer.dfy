/** The part of `main` that mycat3.c to mycat6.c share once the buffer size
    is known: `align_alloc(size)`, the transfer loop, and `align_free` and
    `close` on every exit. */
module AlignedBuffer {
  import opened Syscalls
  import opened Transfer
  import opened AlignedAlloc

  /** From `align_alloc(size)` to the end of `main`, after the calls in
      `setup`. A NULL buffer closes the file and fails; otherwise the loop
      runs on `size`-byte reads and its exits hand `align_free`'s result to
      `free`. */
  function AllocateCopyRelease(w: World, size: nat, setup: seq<Event>): (r: Outcome)
    requires size > 0 && SetupOnly(setup)
    requires ValidPageReply(w.allocPageSize)
    requires MallocResult(w.block, AllocRequest(size, w.allocPageSize))
    ensures var request := AllocRequest(size, w.allocPageSize);
      && setup + [Alloc(request, w.block)] <= r.trace
      && (w.block == Null ==> r == Outcome(Failure(OutOfMemory), setup + [Alloc(request, Null), Close]))
      && (w.block != Null ==> StreamedThenReleased(w.file, r, size, w.block, |setup| + 1))
  {
    var buffer := AlignAlloc(size, w.allocPageSize, w.block, w.heap);
    var request := AllocRequest(size, w.allocPageSize);
    if buffer.ptr == Null then
      Outcome(Failure(OutOfMemory), setup + [Alloc(request, Null), Close])
    else
      AlignFreeRecoversBlock(size, w.allocPageSize, w.block, w.heap);
      var prefix := setup + [Alloc(request, w.block)];
      SetupExtends(setup, Alloc(request, w.block));
      assert |prefix| == |setup| + 1;
      assert buffer.heap[buffer.ptr - PointerSize] == w.block;
      CopyThenAlignFree(w, size, prefix, buffer)
  }

  /** The loop on an `align_alloc` buffer, whose exits pass what
      `align_free(buffer)` finds in the hidden slot to `free`. */
  function CopyThenAlignFree(w: World, size: nat, setup: seq<Event>, buffer: Allocation): (r: Outcome)
    requires size > 0 && SetupOnly(setup)
    requires buffer.ptr >= PointerSize && buffer.ptr - PointerSize in buffer.heap
    ensures setup <= r.trace
    ensures StreamedThenReleased(w.file, r, size, buffer.heap[buffer.ptr - PointerSize], |setup|)
  {
    var freed := AlignFree(buffer.ptr, buffer.heap).value;
    assert freed == buffer.heap[buffer.ptr - PointerSize];
    StreamThenRelease(w.file, size, w.readAnswers, w.writeAnswers, setup, freed)
  }

  /** Once `malloc` succeeds, the run is the one a plain `malloc` buffer
      would give: the same loop, and the same block handed to `free`. */
  lemma SameAsPlainBuffer(w: World, size: nat, setup: seq<Event>)
    requires size > 0 && SetupOnly(setup)
    requires ValidPageReply(w.allocPageSize)
    requires MallocResult(w.block, AllocRequest(size, w.allocPageSize))
    requires w.block != Null
    ensures var request := AllocRequest(size, w.allocPageSize);
      && SetupOnly(setup + [Alloc(request, w.block)])
      && AllocateCopyRelease(w, size, setup)
         == StreamThenRelease(w.file, size, w.readAnswers, w.writeAnswers, setup + [Alloc(request, w.block)], w.block)
  {
    var request := AllocRequest(size, w.allocPageSize);
    SetupExtends(setup, Alloc(request, w.block));
    AlignFreeRecoversBlock(size, w.allocPageSize, w.block, w.heap);
  }
}
