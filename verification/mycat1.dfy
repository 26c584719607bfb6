/** mycat1.c: one byte per `read`, one byte per `write`, no buffer to
    allocate. Its loop is `while (read(fd, &c, 1) > 0)`, so a failed read
    ends it exactly as end of file does, and the program then returns 0. */
module Mycat1 {
  import opened Wrappers
  import opened Syscalls
  import opened Transfer

  /** `main` of mycat1.c. */
  function Execute(w: World): (r: Outcome)
    ensures w.argc != 2 ==> r == Outcome(Failure(Usage), [])
    ensures w.argc == 2 && !w.openOk ==> r == Outcome(Failure(OpenError), [Open])
    ensures w.argc == 2 && w.openOk ==>
      && |r.trace| >= 3
      && r.trace[0] == Open
      && LoopBetween(r.trace, 1, |r.trace| - 1)
      && ClosedAtEnd(r.trace)
      && (forall e <- r.trace :: !e.Alloc?)
      && Echoes(r.trace)
      && ReadsAsk(r.trace, 1)
      && Output(r.trace) <= w.file
      && (r.exit.Success? || r.exit == Failure(ShortWrite))
      && (r.exit == Failure(ShortWrite) <==> r.trace[|r.trace| - 2].Write?)
      && (r.trace[|r.trace| - 2] == Read(1, []) ==> r.exit == Success && Output(r.trace) == w.file)
      && (r.trace[|r.trace| - 2] == ReadFail(1) ==> r.exit == Success)
  {
    if w.argc != 2 then Outcome(Failure(Usage), [])
    else if !w.openOk then Outcome(Failure(OpenError), [Open])
    else
      var s := Stream(w.file, 1, w.readAnswers, w.writeAnswers, 0, 0);
      var exit := if s.end == AtShortWrite then Failure(ShortWrite) else Success;
      ByteLoopFacts(w.file, w.readAnswers, w.writeAnswers);
      Outcome(exit, [Open] + s.trace + [Close])
  }

  lemma ByteLoopFacts(file: seq<byte>, readAnswers: nat -> ReadReply, writeAnswers: nat -> WriteReply)
    ensures var s := Stream(file, 1, readAnswers, writeAnswers, 0, 0);
      var t := [Open] + s.trace + [Close];
      && |t| >= 3
      && t[|t| - 2] == s.trace[|s.trace| - 1]
      && LoopBetween(t, 1, |t| - 1)
      && ClosedAtEnd(t)
      && (forall e <- t :: !e.Alloc?)
      && Echoes(t)
      && ReadsAsk(t, 1)
      && Output(t) <= file
      && (s.end == AtEof ==> Output(t) == file)
      && (s.end == AtEof <==> t[|t| - 2] == Read(1, []))
      && (s.end == AtReadError <==> t[|t| - 2] == ReadFail(1))
      && (s.end == AtShortWrite <==> t[|t| - 2].Write?)
  {
    var s := Stream(file, 1, readAnswers, writeAnswers, 0, 0);
    StreamCalls(file, 1, readAnswers, writeAnswers, 0, 0);
    StreamOutput(file, 1, readAnswers, writeAnswers, 0, 0);
    StreamStops(file, 1, readAnswers, writeAnswers, 0, 0);
    assert file[0..] == file;
    OutputAround([Open], s.trace, [Close]);
    EchoesAround([Open], s.trace, [Close]);
    ClosedAround(s.trace);
  }

  lemma ClosedAround(loop: seq<Event>)
    requires OnlyTransfers(loop) && loop != []
    requires forall i :: 0 <= i < |loop| - 1 ==> !StopsLoop(loop[i])
    requires StopsLoop(loop[|loop| - 1])
    ensures var t := [Open] + loop + [Close];
      && t[|t| - 2] == loop[|loop| - 1]
      && LoopBetween(t, 1, |t| - 1)
      && ClosedAtEnd(t)
      && (forall e <- t :: !e.Alloc?)
  {
    var t := [Open] + loop + [Close];
    assert t[1..|t| - 1] == loop;
    forall i | 1 <= i < |t| - 2
      ensures !StopsLoop(t[i])
    {
      assert t[i] == loop[i - 1];
    }
    forall i | 0 <= i < |t| - 1
      ensures !t[i].Free? && !t[i].Close?
    {
      if i > 0 {
        assert t[i] == loop[i - 1];
        assert t[i] in loop;
      }
    }
  }

  /** A read error that happens before the end of a non-empty file still
      ends in exit status 0, with the rest of the file never written. */
  lemma ReadErrorTruncatesOutput()
    ensures var w := World(2, [0x41], true, 0, None, None, None, 0, map[],
                           _ => ReadErrno, _ => Accept(1));
      var r := Execute(w);
      && r == Outcome(Success, [Open, ReadFail(1), Close])
      && Output(r.trace) == []
      && Output(r.trace) != w.file
  {
    var w := World(2, [0x41], true, 0, None, None, None, 0, map[],
                   _ => ReadErrno, _ => Accept(1));
    var t := [Open, ReadFail(1), Close];
    assert Execute(w).trace == [Open] + [ReadFail(1)] + [Close];
    OutputSilent(t);
  }

  /** A three-byte file copied by a cooperative kernel: three one-byte reads,
      each followed by its one-byte write, then a read at end of file, and
      exit status 0 with the whole file on standard output. */
  lemma ThreeBytesOneAtATime()
    ensures var w := World(2, [0x41, 0x42, 0x43], true, 0, None, None, None, 0, map[],
                           _ => Supply(1), _ => Accept(1));
      var r := Execute(w);
      && r.exit == Success
      && Output(r.trace) == w.file
      && |r.trace| == 9
  {
    var w := World(2, [0x41, 0x42, 0x43], true, 0, None, None, None, 0, map[],
                   _ => Supply(1), _ => Accept(1));
    CooperativeStream(w.file, 1, w.readAnswers, w.writeAnswers, 0, 0);
    assert Chunks(3, 1) == 3;
    ByteLoopFacts(w.file, w.readAnswers, w.writeAnswers);
  }
}
