/** The read/write loop all six programs share, and the release of the
    buffer and the file that follows it in mycat2.c to mycat6.c. */
module Transfer {
  import Bits
  import opened Syscalls

  /** Every write offers exactly the bytes the read just before it returned. */
  predicate Echoes(t: seq<Event>) {
    forall i :: 0 <= i < |t| && t[i].Write? ==> 0 < i && t[i - 1].Read? && t[i - 1].data == t[i].data
  }

  /** Every read asks for `limit` bytes and receives at most that many. */
  predicate ReadsAsk(t: seq<Event>, limit: nat) {
    forall e <- t :: (e.Read? ==> e.limit == limit && |e.data| <= limit) && (e.ReadFail? ==> e.limit == limit)
  }

  /** Only reads and writes. */
  predicate OnlyTransfers(t: seq<Event>) {
    forall e <- t :: e.Read? || e.ReadFail? || e.Write?
  }

  /** Only the calls a program makes before its loop: open, posix_fadvise,
      malloc. */
  predicate SetupOnly(t: seq<Event>) {
    forall e <- t :: e.Open? || e.Advise? || e.Alloc?
  }

  lemma SetupExtends(setup: seq<Event>, e: Event)
    requires SetupOnly(setup) && e.Alloc?
    ensures SetupOnly(setup + [e])
  {
  }

  /** A call after which the loop stops: a read at end of file, a failed
      read, or a write that did not take everything it was offered. */
  predicate StopsLoop(e: Event) {
    (e.Read? && e.data == []) || e.ReadFail? || (e.Write? && e.written != |e.data|)
  }

  /** The calls `t[from..upto]` are the loop: only reads and writes, none of
      which stops it but the last. */
  predicate LoopBetween(t: seq<Event>, from: nat, upto: nat) {
    && from < upto <= |t|
    && OnlyTransfers(t[from..upto])
    && (forall i :: from <= i < upto - 1 ==> !StopsLoop(t[i]))
    && StopsLoop(t[upto - 1])
  }

  /** The run ends by freeing `block` and then closing the file, and frees or
      closes nothing anywhere else. */
  predicate ReleasedInOrder(t: seq<Event>, block: nat) {
    && |t| >= 2
    && t[|t| - 2] == Free(block)
    && t[|t| - 1] == Close
    && forall i :: 0 <= i < |t| - 2 ==> !t[i].Free? && !t[i].Close?
  }

  /** The run ends by closing the file, closes nothing before, and frees
      nothing at all. */
  predicate ClosedAtEnd(t: seq<Event>) {
    && |t| >= 1
    && t[|t| - 1] == Close
    && forall i :: 0 <= i < |t| - 1 ==> !t[i].Free? && !t[i].Close?
  }

  lemma EchoesAppend(a: seq<Event>, b: seq<Event>)
    requires Echoes(a) && Echoes(b)
    ensures Echoes(a + b)
  {
    forall i | 0 <= i < |a + b| && (a + b)[i].Write?
      ensures 0 < i && (a + b)[i - 1].Read? && (a + b)[i - 1].data == (a + b)[i].data
    {
      if i >= |a| {
        assert (a + b)[i] == b[i - |a|];
        assert (a + b)[i - 1] == b[i - 1 - |a|];
      }
    }
  }

  /** How the loop ended. */
  datatype LoopEnd = AtEof | AtReadError | AtShortWrite

  /** The loop's calls, how it ended, and how far into the file it read. */
  datatype Streamed = Streamed(end: LoopEnd, pos: nat, trace: seq<Event>)

  /** `while ((bytes_read = read(fd, buf, limit)) > 0) { if (write(1, buf,
      bytes_read) != bytes_read) <stop>; }` started at file offset `pos`,
      after `call` reads (and as many writes) have been answered. */
  function Stream(file: seq<byte>, limit: nat, readAnswers: nat -> ReadReply, writeAnswers: nat -> WriteReply,
                  pos: nat, call: nat): (s: Streamed)
    requires pos <= |file| && limit > 0
    ensures pos <= s.pos <= |file|
    ensures s.end == AtEof ==> s.pos == |file|
    decreases |file| - pos
  {
    var got := ReadCount(|file| - pos, limit, readAnswers(call));
    if got == -1 then Streamed(AtReadError, pos, [ReadFail(limit)])
    else if got == 0 then Streamed(AtEof, pos, [Read(limit, [])])
    else
      var data := file[pos..pos + got];
      var put := WriteCount(got, writeAnswers(call));
      var step := [Read(limit, data), Write(data, put)];
      if put != got then Streamed(AtShortWrite, pos + got, step)
      else
        var rest := Stream(file, limit, readAnswers, writeAnswers, pos + got, call + 1);
        Streamed(rest.end, rest.pos, step + rest.trace)
  }

  /** Calls that only read and write, in which each write offers the bytes
      the read just before returned and each read asks for `limit` bytes. */
  predicate LoopCalls(t: seq<Event>, limit: nat) {
    t != [] && OnlyTransfers(t) && Echoes(t) && ReadsAsk(t, limit)
  }

  /** The loop only reads and writes, each of its writes offers the bytes
      the read just before returned, and each of its reads asks for `limit`
      bytes. */
  lemma {:induction false} StreamCalls(file: seq<byte>, limit: nat, readAnswers: nat -> ReadReply,
                                       writeAnswers: nat -> WriteReply, pos: nat, call: nat)
    requires pos <= |file| && limit > 0
    ensures LoopCalls(Stream(file, limit, readAnswers, writeAnswers, pos, call).trace, limit)
    decreases |file| - pos
  {
    var got := ReadCount(|file| - pos, limit, readAnswers(call));
    if got > 0 && WriteCount(got, writeAnswers(call)) == got {
      StreamCalls(file, limit, readAnswers, writeAnswers, pos + got, call + 1);
      StreamCallsStep(file, limit, readAnswers, writeAnswers, pos, call);
    } else {
      StreamCallsLast(file, limit, readAnswers, writeAnswers, pos, call);
    }
  }

  /** A loop whose first call stops it. */
  lemma StreamCallsLast(file: seq<byte>, limit: nat, readAnswers: nat -> ReadReply,
                        writeAnswers: nat -> WriteReply, pos: nat, call: nat)
    requires pos <= |file| && limit > 0
    requires var got := ReadCount(|file| - pos, limit, readAnswers(call));
      got <= 0 || WriteCount(got, writeAnswers(call)) != got
    ensures LoopCalls(Stream(file, limit, readAnswers, writeAnswers, pos, call).trace, limit)
  {
    var s := Stream(file, limit, readAnswers, writeAnswers, pos, call);
    var got := ReadCount(|file| - pos, limit, readAnswers(call));
    if got == -1 {
      assert s.trace == [ReadFail(limit)];
    } else if got == 0 {
      assert s.trace == [Read(limit, [])];
    } else {
      var data := file[pos..pos + got];
      var put := WriteCount(got, writeAnswers(call));
      assert s.trace == [Read(limit, data), Write(data, put)] + [];
      StepCalls(limit, data, put, []);
    }
  }

  /** A read and a full write in front of the rest of the loop. */
  lemma StreamCallsStep(file: seq<byte>, limit: nat, readAnswers: nat -> ReadReply,
                        writeAnswers: nat -> WriteReply, pos: nat, call: nat)
    requires pos <= |file| && limit > 0
    requires var got := ReadCount(|file| - pos, limit, readAnswers(call));
      && got > 0 && WriteCount(got, writeAnswers(call)) == got
      && LoopCalls(Stream(file, limit, readAnswers, writeAnswers, pos + got, call + 1).trace, limit)
    ensures LoopCalls(Stream(file, limit, readAnswers, writeAnswers, pos, call).trace, limit)
  {
    var got := ReadCount(|file| - pos, limit, readAnswers(call));
    var data := file[pos..pos + got];
    var rest := Stream(file, limit, readAnswers, writeAnswers, pos + got, call + 1);
    assert Stream(file, limit, readAnswers, writeAnswers, pos, call).trace
      == [Read(limit, data), Write(data, got)] + rest.trace;
    StepCalls(limit, data, got, rest.trace);
  }

  /** A read of `data` followed by its write, in front of calls that already
      have the shape `StreamCalls` describes, keeps that shape. */
  lemma StepCalls(limit: nat, data: seq<byte>, put: int, rest: seq<Event>)
    requires |data| <= limit
    requires OnlyTransfers(rest) && Echoes(rest) && ReadsAsk(rest, limit)
    ensures var t := [Read(limit, data), Write(data, put)] + rest;
      OnlyTransfers(t) && Echoes(t) && ReadsAsk(t, limit)
  {
    var step := [Read(limit, data), Write(data, put)];
    assert Echoes(step);
    EchoesAppend(step, rest);
  }

  /** Standard output of a loop started at `pos` is the file from `pos` on,
      cut short only by a short write, and the whole rest of the file at
      end of file. */
  predicate WritesFileFrom(file: seq<byte>, pos: nat, s: Streamed) {
    && pos <= s.pos <= |file|
    && Output(s.trace) <= file[pos..]
    && (s.end != AtShortWrite ==> Output(s.trace) == file[pos..s.pos])
    && (s.end == AtEof ==> Output(s.trace) == file[pos..])
  }

  /** Standard output receives the file in order from `pos` on, all of it
      when the loop reaches end of file. */
  lemma {:induction false} StreamOutput(file: seq<byte>, limit: nat, readAnswers: nat -> ReadReply,
                                        writeAnswers: nat -> WriteReply, pos: nat, call: nat)
    requires pos <= |file| && limit > 0
    ensures WritesFileFrom(file, pos, Stream(file, limit, readAnswers, writeAnswers, pos, call))
    decreases |file| - pos
  {
    var got := ReadCount(|file| - pos, limit, readAnswers(call));
    if got > 0 && WriteCount(got, writeAnswers(call)) == got {
      StreamOutput(file, limit, readAnswers, writeAnswers, pos + got, call + 1);
      StreamOutputStep(file, limit, readAnswers, writeAnswers, pos, call);
    } else {
      StreamOutputLast(file, limit, readAnswers, writeAnswers, pos, call);
    }
  }

  /** A loop whose first call stops it. */
  lemma StreamOutputLast(file: seq<byte>, limit: nat, readAnswers: nat -> ReadReply,
                         writeAnswers: nat -> WriteReply, pos: nat, call: nat)
    requires pos <= |file| && limit > 0
    requires var got := ReadCount(|file| - pos, limit, readAnswers(call));
      got <= 0 || WriteCount(got, writeAnswers(call)) != got
    ensures WritesFileFrom(file, pos, Stream(file, limit, readAnswers, writeAnswers, pos, call))
  {
    var s := Stream(file, limit, readAnswers, writeAnswers, pos, call);
    var got := ReadCount(|file| - pos, limit, readAnswers(call));
    if got <= 0 {
      assert s.pos == pos && |s.trace| == 1 && !s.trace[0].Write?;
      OutputSilent(s.trace);
      assert file[pos..pos] == [];
    } else {
      var data := file[pos..pos + got];
      var put := WriteCount(got, writeAnswers(call));
      assert s == Streamed(AtShortWrite, pos + got, [Read(limit, data), Write(data, put)]);
      ShortStepOutput(file, pos, got, limit, put);
    }
  }

  /** A read and a full write in front of the rest of the loop. */
  lemma StreamOutputStep(file: seq<byte>, limit: nat, readAnswers: nat -> ReadReply,
                         writeAnswers: nat -> WriteReply, pos: nat, call: nat)
    requires pos <= |file| && limit > 0
    requires var got := ReadCount(|file| - pos, limit, readAnswers(call));
      && got > 0 && WriteCount(got, writeAnswers(call)) == got
      && WritesFileFrom(file, pos + got, Stream(file, limit, readAnswers, writeAnswers, pos + got, call + 1))
    ensures WritesFileFrom(file, pos, Stream(file, limit, readAnswers, writeAnswers, pos, call))
  {
    var got := ReadCount(|file| - pos, limit, readAnswers(call));
    var data := file[pos..pos + got];
    var rest := Stream(file, limit, readAnswers, writeAnswers, pos + got, call + 1);
    assert Stream(file, limit, readAnswers, writeAnswers, pos, call)
      == Streamed(rest.end, rest.pos, [Read(limit, data), Write(data, got)] + rest.trace);
    FullStepOutput(file, pos, got, limit, rest.trace, rest.pos, rest.end != AtShortWrite);
  }

  /** A read of `got` bytes at `pos` whose write takes them all, followed by
      the rest of the loop. */
  lemma FullStepOutput(file: seq<byte>, pos: nat, got: nat, limit: nat, rest: seq<Event>, upto: nat, exact: bool)
    requires pos + got <= upto <= |file|
    requires Output(rest) <= file[pos + got..]
    requires exact ==> Output(rest) == file[pos + got..upto]
    ensures var data := file[pos..pos + got];
      var t := [Read(limit, data), Write(data, got)] + rest;
      && Output(t) <= file[pos..]
      && (exact ==> Output(t) == file[pos..upto])
  {
    var data := file[pos..pos + got];
    var step := [Read(limit, data), Write(data, got)];
    OutputPair(Read(limit, data), Write(data, got));
    assert data[..got] == data;
    OutputAppend(step, rest);
    OutputPrepend(file, pos, got, Output(rest), upto, exact);
  }

  /** A read of `got` bytes at `pos` whose write takes only `put` of them. */
  lemma ShortStepOutput(file: seq<byte>, pos: nat, got: nat, limit: nat, put: int)
    requires pos + got <= |file| && -1 <= put <= got
    ensures var data := file[pos..pos + got];
      Output([Read(limit, data), Write(data, put)]) <= file[pos..]
  {
    var data := file[pos..pos + got];
    OutputPair(Read(limit, data), Write(data, put));
    assert file[pos..] == data + file[pos + got..];
  }

  /** Prepending the bytes at `pos..pos + got` to output that is a prefix of
      the rest of the file from `pos + got`. */
  lemma OutputPrepend(file: seq<byte>, pos: nat, got: nat, rest: seq<byte>, upto: nat, exact: bool)
    requires pos + got <= upto <= |file|
    requires rest <= file[pos + got..]
    requires exact ==> rest == file[pos + got..upto]
    ensures file[pos..pos + got] + rest <= file[pos..]
    ensures exact ==> file[pos..pos + got] + rest == file[pos..upto]
  {
    assert file[pos..] == file[pos..pos + got] + file[pos + got..];
    assert file[pos..upto] == file[pos..pos + got] + file[pos + got..upto];
  }

  /** The loop's calls stop it only at the last one, which tells how it
      ended. */
  predicate StopsOnlyAtEnd(s: Streamed, limit: nat) {
    && s.trace != []
    && (forall i :: 0 <= i < |s.trace| - 1 ==> !StopsLoop(s.trace[i]))
    && StopsLoop(s.trace[|s.trace| - 1])
    && (s.end == AtEof <==> s.trace[|s.trace| - 1] == Read(limit, []))
    && (s.end == AtReadError <==> s.trace[|s.trace| - 1] == ReadFail(limit))
    && (s.end == AtShortWrite <==> s.trace[|s.trace| - 1].Write?)
  }

  /** The loop stops at the first end of file, failed read or short write,
      and its last call tells which of the three it was. */
  lemma {:induction false} StreamStops(file: seq<byte>, limit: nat, readAnswers: nat -> ReadReply,
                                       writeAnswers: nat -> WriteReply, pos: nat, call: nat)
    requires pos <= |file| && limit > 0
    ensures StopsOnlyAtEnd(Stream(file, limit, readAnswers, writeAnswers, pos, call), limit)
    decreases |file| - pos
  {
    var got := ReadCount(|file| - pos, limit, readAnswers(call));
    if got > 0 && WriteCount(got, writeAnswers(call)) == got {
      StreamStops(file, limit, readAnswers, writeAnswers, pos + got, call + 1);
      StreamStopsStep(file, limit, readAnswers, writeAnswers, pos, call);
    } else {
      StreamStopsLast(file, limit, readAnswers, writeAnswers, pos, call);
    }
  }

  /** A loop whose first call stops it. */
  lemma StreamStopsLast(file: seq<byte>, limit: nat, readAnswers: nat -> ReadReply,
                        writeAnswers: nat -> WriteReply, pos: nat, call: nat)
    requires pos <= |file| && limit > 0
    requires var got := ReadCount(|file| - pos, limit, readAnswers(call));
      got <= 0 || WriteCount(got, writeAnswers(call)) != got
    ensures StopsOnlyAtEnd(Stream(file, limit, readAnswers, writeAnswers, pos, call), limit)
  {
    var s := Stream(file, limit, readAnswers, writeAnswers, pos, call);
    var got := ReadCount(|file| - pos, limit, readAnswers(call));
    if got == -1 {
      assert s == Streamed(AtReadError, pos, [ReadFail(limit)]);
    } else if got == 0 {
      assert s == Streamed(AtEof, pos, [Read(limit, [])]);
    } else {
      var data := file[pos..pos + got];
      var put := WriteCount(got, writeAnswers(call));
      assert s == Streamed(AtShortWrite, pos + got, [Read(limit, data), Write(data, put)]);
    }
  }

  /** A read and a full write in front of a loop that stops only at its end. */
  lemma StreamStopsStep(file: seq<byte>, limit: nat, readAnswers: nat -> ReadReply,
                        writeAnswers: nat -> WriteReply, pos: nat, call: nat)
    requires pos <= |file| && limit > 0
    requires var got := ReadCount(|file| - pos, limit, readAnswers(call));
      && got > 0 && WriteCount(got, writeAnswers(call)) == got
      && StopsOnlyAtEnd(Stream(file, limit, readAnswers, writeAnswers, pos + got, call + 1), limit)
    ensures StopsOnlyAtEnd(Stream(file, limit, readAnswers, writeAnswers, pos, call), limit)
  {
    var got := ReadCount(|file| - pos, limit, readAnswers(call));
    var data := file[pos..pos + got];
    var step := [Read(limit, data), Write(data, got)];
    var rest := Stream(file, limit, readAnswers, writeAnswers, pos + got, call + 1);
    assert Stream(file, limit, readAnswers, writeAnswers, pos, call) == Streamed(rest.end, rest.pos, step + rest.trace);
    StepStops(step, rest.trace);
  }

  /** Calls that do not stop the loop, in front of a run that stops only at
      its last call, leave the last call the only one that stops. */
  lemma StepStops(step: seq<Event>, rest: seq<Event>)
    requires forall i :: 0 <= i < |step| ==> !StopsLoop(step[i])
    requires rest != [] && forall i :: 0 <= i < |rest| - 1 ==> !StopsLoop(rest[i])
    ensures var t := step + rest;
      && t[|t| - 1] == rest[|rest| - 1]
      && forall i :: 0 <= i < |t| - 1 ==> !StopsLoop(t[i])
  {
    var t := step + rest;
    forall i | 0 <= i < |t| - 1
      ensures !StopsLoop(t[i])
    {
      if i >= |step| {
        assert t[i] == rest[i - |step|];
      }
    }
  }

  /** The number of reads of `limit` bytes needed to cover `n` bytes, one
      read at a time. */
  function Chunks(n: nat, limit: nat): nat
    requires limit > 0
    decreases n
  {
    if n == 0 then 0 else 1 + Chunks(n - Min(limit, n), limit)
  }

  /** The count of reads is the ceiling of `n / limit`. */
  lemma {:induction false} ChunksIsCeiling(n: nat, limit: nat)
    requires limit > 0
    ensures Chunks(n, limit) == (n + limit - 1) / limit
    decreases n
  {
    if n == 0 {
      Bits.DivModUnique(limit - 1, limit, 0, limit - 1);
    } else if n <= limit {
      Bits.DivModUnique(n + limit - 1, limit, 1, n - 1);
    } else {
      ChunksIsCeiling(n - limit, limit);
      assert n - limit + limit - 1 == n - 1;
      Bits.DivAddDivisor(n - 1, limit);
    }
  }

  /** A kernel that always delivers as much as is asked for and takes
      everything it is offered. */
  ghost predicate Cooperative(limit: nat, readAnswers: nat -> ReadReply, writeAnswers: nat -> WriteReply) {
    && (forall i :: readAnswers(i).Supply? && readAnswers(i).want >= limit)
    && (forall i :: writeAnswers(i).Accept? && writeAnswers(i).count >= limit)
  }

  /** The loop reached end of file after `Chunks(remaining, limit)` reads
      that returned data, each followed by its write, and one final read. */
  predicate ReadsInChunks(s: Streamed, remaining: nat, limit: nat)
    requires limit > 0
  {
    s.end == AtEof && |s.trace| == 2 * Chunks(remaining, limit) + 1
  }

  /** When the kernel always delivers as much as is asked for and takes
      everything it is offered, the loop reaches end of file after
      `Chunks(|file| - pos, limit)` reads that return data, each followed by
      its write, and one final read that returns nothing. */
  lemma {:induction false} CooperativeStream(file: seq<byte>, limit: nat, readAnswers: nat -> ReadReply,
                                             writeAnswers: nat -> WriteReply, pos: nat, call: nat)
    requires pos <= |file| && limit > 0
    requires Cooperative(limit, readAnswers, writeAnswers)
    ensures ReadsInChunks(Stream(file, limit, readAnswers, writeAnswers, pos, call), |file| - pos, limit)
    decreases |file| - pos
  {
    var remaining := |file| - pos;
    if remaining == 0 {
      assert Stream(file, limit, readAnswers, writeAnswers, pos, call) == Streamed(AtEof, pos, [Read(limit, [])]);
    } else {
      CooperativeStream(file, limit, readAnswers, writeAnswers, pos + Min(limit, remaining), call + 1);
      CooperativeStep(file, limit, readAnswers, writeAnswers, pos, call);
    }
  }

  /** Before end of file, a cooperative kernel delivers `min(limit,
      remaining)` bytes and takes them all, and the loop goes on. */
  lemma CooperativeStep(file: seq<byte>, limit: nat, readAnswers: nat -> ReadReply,
                        writeAnswers: nat -> WriteReply, pos: nat, call: nat)
    requires pos < |file| && limit > 0
    requires Cooperative(limit, readAnswers, writeAnswers)
    requires var got := Min(limit, |file| - pos);
      ReadsInChunks(Stream(file, limit, readAnswers, writeAnswers, pos + got, call + 1), |file| - (pos + got), limit)
    ensures ReadsInChunks(Stream(file, limit, readAnswers, writeAnswers, pos, call), |file| - pos, limit)
  {
    var remaining := |file| - pos;
    var got := ReadCount(remaining, limit, readAnswers(call));
    assert got == Min(limit, remaining);
    assert WriteCount(got, writeAnswers(call)) == got;
    var data := file[pos..pos + got];
    var rest := Stream(file, limit, readAnswers, writeAnswers, pos + got, call + 1);
    assert Stream(file, limit, readAnswers, writeAnswers, pos, call)
      == Streamed(rest.end, rest.pos, [Read(limit, data), Write(data, got)] + rest.trace);
    assert |file| - (pos + got) == remaining - got;
    assert Chunks(remaining, limit) == 1 + Chunks(remaining - got, limit);
  }

  function ExitOfLoop(end: LoopEnd): Exit {
    match end
    case AtEof => Success
    case AtReadError => Failure(ReadError)
    case AtShortWrite => Failure(ShortWrite)
  }

  /** Everything the tail of `main` in mycat2.c to mycat6.c guarantees once
      the buffer exists, after the `prefix` calls made before the loop. */
  predicate StreamedThenReleased(file: seq<byte>, r: Outcome, limit: nat, block: nat, prefix: nat) {
    && |r.trace| >= prefix + 3
    && LoopBetween(r.trace, prefix, |r.trace| - 2)
    && ReleasedInOrder(r.trace, block)
    && Echoes(r.trace)
    && ReadsAsk(r.trace, limit)
    && Output(r.trace) <= file
    && (r.exit == Success ==> Output(r.trace) == file)
    && (r.exit == Success <==> r.trace[|r.trace| - 3] == Read(limit, []))
    && (r.exit == Failure(ReadError) <==> r.trace[|r.trace| - 3] == ReadFail(limit))
    && (r.exit == Failure(ShortWrite) <==> r.trace[|r.trace| - 3].Write?)
    && (r.exit.Success? || r.exit == Failure(ReadError) || r.exit == Failure(ShortWrite))
  }

  /** The loop of mycat2.c to mycat6.c followed by its three exits — end of
      file, failed read, short write — each of which releases the buffer
      (`free(freed)`) and then closes the file. */
  function StreamThenRelease(file: seq<byte>, limit: nat, readAnswers: nat -> ReadReply, writeAnswers: nat -> WriteReply,
                             setup: seq<Event>, freed: nat): (r: Outcome)
    requires limit > 0 && SetupOnly(setup)
    ensures setup <= r.trace
    ensures StreamedThenReleased(file, r, limit, freed, |setup|)
  {
    var s := Stream(file, limit, readAnswers, writeAnswers, 0, 0);
    var r := Outcome(ExitOfLoop(s.end), setup + s.trace + [Free(freed), Close]);
    ReleaseFacts(file, limit, readAnswers, writeAnswers, setup, freed);
    r
  }

  /** What the loop copies and how the program exits do not depend on the
      calls made before the loop or on the address handed to `free`. */
  lemma ReleaseIgnoresSetup(file: seq<byte>, limit: nat, readAnswers: nat -> ReadReply, writeAnswers: nat -> WriteReply,
                            setup: seq<Event>, freed: nat, setup': seq<Event>, freed': nat)
    requires limit > 0 && SetupOnly(setup) && SetupOnly(setup')
    ensures var r := StreamThenRelease(file, limit, readAnswers, writeAnswers, setup, freed);
      var r' := StreamThenRelease(file, limit, readAnswers, writeAnswers, setup', freed');
      r.exit == r'.exit && Output(r.trace) == Output(r'.trace)
  {
    var s := Stream(file, limit, readAnswers, writeAnswers, 0, 0);
    OutputAround(setup, s.trace, [Free(freed), Close]);
    OutputAround(setup', s.trace, [Free(freed'), Close]);
  }

  lemma ReleaseFacts(file: seq<byte>, limit: nat, readAnswers: nat -> ReadReply, writeAnswers: nat -> WriteReply,
                     setup: seq<Event>, freed: nat)
    requires limit > 0 && SetupOnly(setup)
    ensures var s := Stream(file, limit, readAnswers, writeAnswers, 0, 0);
      var r := Outcome(ExitOfLoop(s.end), setup + s.trace + [Free(freed), Close]);
      && setup <= r.trace
      && StreamedThenReleased(file, r, limit, freed, |setup|)
  {
    var s := Stream(file, limit, readAnswers, writeAnswers, 0, 0);
    StreamCalls(file, limit, readAnswers, writeAnswers, 0, 0);
    StreamOutput(file, limit, readAnswers, writeAnswers, 0, 0);
    StreamStops(file, limit, readAnswers, writeAnswers, 0, 0);
    assert file[0..] == file;
    ReleaseAfterLoop(file, limit, s, setup, freed);
  }

  /** The same, for any loop run with the guarantees of `StreamCalls`,
      `StreamOutput` and `StreamStops`. */
  lemma ReleaseAfterLoop(file: seq<byte>, limit: nat, s: Streamed, setup: seq<Event>, freed: nat)
    requires SetupOnly(setup)
    requires s.trace != [] && OnlyTransfers(s.trace) && Echoes(s.trace) && ReadsAsk(s.trace, limit)
    requires StopsOnlyAtEnd(s, limit)
    requires Output(s.trace) <= file
    requires s.end == AtEof ==> Output(s.trace) == file
    ensures var r := Outcome(ExitOfLoop(s.end), setup + s.trace + [Free(freed), Close]);
      && setup <= r.trace
      && StreamedThenReleased(file, r, limit, freed, |setup|)
  {
    var t := setup + s.trace + [Free(freed), Close];
    WrapShape(setup, s.trace, freed, limit);
    OutputAround(setup, s.trace, [Free(freed), Close]);
    assert t[|t| - 3] == s.trace[|s.trace| - 1];
    assert Output(t) == Output(s.trace);
  }

  /** Setup calls before the loop and the release after it change neither
      who writes what nor how reads are asked for. */
  lemma WrapShape(setup: seq<Event>, loop: seq<Event>, freed: nat, limit: nat)
    requires SetupOnly(setup) && OnlyTransfers(loop) && Echoes(loop) && ReadsAsk(loop, limit) && loop != []
    requires forall i :: 0 <= i < |loop| - 1 ==> !StopsLoop(loop[i])
    requires StopsLoop(loop[|loop| - 1])
    ensures var t := setup + loop + [Free(freed), Close];
      && setup <= t
      && |t| >= |setup| + 3
      && t[|t| - 3] == loop[|loop| - 1]
      && LoopBetween(t, |setup|, |t| - 2)
      && Echoes(t)
      && ReadsAsk(t, limit)
      && ReleasedInOrder(t, freed)
  {
    var tail := [Free(freed), Close];
    var t := setup + loop + tail;
    assert t[..|setup|] == setup;
    assert forall i :: 0 <= i < |setup| ==> setup[i] in setup;
    EchoesAround(setup, loop, tail);
    assert t[|setup|..|t| - 2] == loop;
    forall i | |setup| <= i < |t| - 3
      ensures !StopsLoop(t[i])
    {
      assert t[i] == loop[i - |setup|];
    }
    forall i | 0 <= i < |t| - 2
      ensures !t[i].Free? && !t[i].Close?
    {
      if i < |setup| {
        assert t[i] in setup;
      } else {
        assert t[i] == loop[i - |setup|];
        assert t[i] in loop;
      }
    }
  }

  /** Calls that write nothing around the loop leave the writes echoing
      their reads. */
  lemma EchoesAround(head: seq<Event>, loop: seq<Event>, tail: seq<Event>)
    requires forall e <- head :: !e.Write?
    requires forall e <- tail :: !e.Write?
    requires Echoes(loop)
    ensures Echoes(head + loop + tail)
  {
    assert forall i :: 0 <= i < |head| ==> head[i] in head;
    assert forall i :: 0 <= i < |tail| ==> tail[i] in tail;
    EchoesAppend(head, loop);
    EchoesAppend(head + loop, tail);
  }

  /** Calls that write nothing around the loop add nothing to standard
      output. */
  lemma OutputAround(head: seq<Event>, loop: seq<Event>, tail: seq<Event>)
    requires forall e <- head :: !e.Write?
    requires forall e <- tail :: !e.Write?
    ensures Output(head + loop + tail) == Output(loop)
  {
    OutputSilent(head);
    OutputSilent(tail);
    OutputAppend(head, loop);
    OutputAppend(head + loop, tail);
  }
}
