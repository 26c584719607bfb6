/** The system calls the programs make, as oracles and as a trace of events.
    Nothing here performs I/O: the environment is a `World` value that fixes
    every answer the kernel and the allocator give during one run, and a run
    is described by its exit status and the calls it made, in order. */
module Syscalls {
  import opened Wrappers

  type byte = bv8

  /** The kernel's answer to one `read`: `Supply(want)` delivers as many of
      the remaining bytes as `want` asks for, but always between 1 and the
      smaller of the requested count and what is left (0 at end of file), so
      a `want` of 0 is read as 1; `ReadErrno` is a return value of -1. */
  datatype ReadReply = Supply(want: nat) | ReadErrno

  /** The kernel's answer to one `write`: `Accept(count)` takes up to `count`
      of the offered bytes (a short write when fewer than offered); `WriteErrno`
      is a return value of -1. */
  datatype WriteReply = Accept(count: nat) | WriteErrno

  /** Everything outside the program that decides how a run goes. */
  datatype World = World(
    argc: int,                   // argument count, program name included
    file: seq<byte>,             // contents of the named file
    openOk: bool,                // whether open(argv[1], O_RDONLY) succeeds
    adviseResult: int,           // what posix_fadvise returns (mycat6.c)
    pageSize: Option<nat>,       // sysconf(_SC_PAGESIZE) in main; None is -1
    allocPageSize: Option<nat>,  // the second sysconf(_SC_PAGESIZE), inside align_alloc
    blockSize: Option<nat>,      // st_blksize from fstat; None when fstat fails
    block: nat,                  // what the program's one malloc returns (0 is NULL)
    heap: map<nat, nat>,         // pointer-sized words of memory before the run
    readAnswers: nat -> ReadReply,     // answer to the i-th read, counting from 0
    writeAnswers: nat -> WriteReply)   // answer to the i-th write, counting from 0

  /** The observable calls of a run. */
  datatype Event =
    | Open                                 // open(argv[1], O_RDONLY)
    | Advise                               // posix_fadvise(fd, 0, 0, POSIX_FADV_SEQUENTIAL)
    | Alloc(request: nat, block: nat)      // malloc(request) returned block
    | Read(limit: nat, data: seq<byte>)    // read(fd, buf, limit) returned |data| >= 0 bytes
    | ReadFail(limit: nat)                 // read(fd, buf, limit) returned -1
    | Write(data: seq<byte>, written: int) // write(1, buf, |data|) returned written
    | Free(block: nat)                     // free(block)
    | Close                                // close(fd)

  /** Which step a failing run stopped at. */
  datatype Cause = Usage | OpenError | PageSizeError | StatError | OutOfMemory | ReadError | ShortWrite

  /** `return 0` or `exit(EXIT_FAILURE)`. */
  datatype Exit = Success | Failure(cause: Cause)

  datatype Outcome = Outcome(exit: Exit, trace: seq<Event>)

  function Min(a: nat, b: nat): nat {
    if a < b then a else b
  }

  /** The return value of `read(fd, buf, limit)` with `remaining` bytes left
      in the file. */
  function ReadCount(remaining: nat, limit: nat, reply: ReadReply): (n: int)
    ensures n == -1 <==> reply.ReadErrno?
    ensures n >= 0 ==> n <= limit && n <= remaining
    ensures n == 0 <==> reply.Supply? && (remaining == 0 || limit == 0)
  {
    match reply
    case ReadErrno => -1
    case Supply(want) =>
      if remaining == 0 || limit == 0 then 0
      else if want == 0 then 1
      else Min(want, Min(limit, remaining))
  }

  /** The return value of `write(1, buf, n)`. */
  function WriteCount(n: nat, reply: WriteReply): (w: int)
    ensures -1 <= w <= n
    ensures w == -1 <==> reply.WriteErrno?
  {
    match reply
    case WriteErrno => -1
    case Accept(count) => Min(count, n)
  }

  /** The bytes one event puts on standard output. */
  function Written(e: Event): seq<byte> {
    if e.Write? && 0 <= e.written <= |e.data| then e.data[..e.written] else []
  }

  /** Everything a run writes to standard output, in order. */
  function Output(t: seq<Event>): seq<byte> {
    if t == [] then [] else Written(t[0]) + Output(t[1..])
  }

  lemma {:induction false} OutputAppend(a: seq<Event>, b: seq<Event>)
    ensures Output(a + b) == Output(a) + Output(b)
    decreases |a|
  {
    if a == [] {
      assert a + b == b;
    } else {
      assert (a + b)[0] == a[0];
      assert (a + b)[1..] == a[1..] + b;
      OutputAppend(a[1..], b);
      calc {
        Output(a + b);
        Written(a[0]) + Output(a[1..] + b);
        Written(a[0]) + (Output(a[1..]) + Output(b));
        (Written(a[0]) + Output(a[1..])) + Output(b);
      }
    }
  }

  lemma OutputPair(e: Event, f: Event)
    ensures Output([e, f]) == Written(e) + Written(f)
  {
    assert [e, f][1..] == [f];
    assert [f][1..] == [];
    assert Output([f]) == Written(f) + Output([]);
    assert Output([]) == [];
  }

  /** Events that write nothing to standard output. */
  lemma {:induction false} OutputSilent(t: seq<Event>)
    requires forall e <- t :: !e.Write?
    ensures Output(t) == []
    decreases |t|
  {
    if t != [] {
      assert forall e <- t[1..] :: e in t;
      OutputSilent(t[1..]);
    }
  }
}
