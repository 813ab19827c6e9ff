/** writev against one write of everything. */
module WritevTheorems {
  import opened Prelude
  import opened RingBuffer
  import opened VfsSpec
  import opened VfsRuns

  /** A vector the loop passes over. */
  predicate Skipped(v: Option<seq<byte>>) {
    v.None? || v.value == []
  }

  /** The bytes of all vectors that are not passed over. */
  function Joined(iov: seq<Option<seq<byte>>>): seq<byte> {
    if iov == [] then [] else (if Skipped(iov[0]) then [] else iov[0].value) + Joined(iov[1..])
  }

  predicate AllSkipped(iov: seq<Option<seq<byte>>>) {
    forall i :: 0 <= i < |iov| ==> Skipped(iov[i])
  }

  /** Descriptors whose writes go into a ring: the write end of a pipe, or a unix socket. */
  predicate Streams(s: Vfs, fd: int) {
    fd >= 3 && (IsKind(s, fd, PipeWrite) || IsKind(s, fd, UnixSocket))
  }

  /** The other end takes data: the pipe has a reader, or the peer is open and connected. */
  predicate Takes(s: Vfs, fd: int)
    requires Streams(s, fd) && SaneDesc(s.fds[fd]) && |s.pipes| == POOL && |s.unix| == POOL
  {
    if IsKind(s, fd, PipeWrite) then s.pipes[s.fds[fd].target].readers != 0
    else
      var peer := s.unix[s.fds[fd].target].peer;
      peer < POOL && s.unix[peer].used && s.unix[peer].connected
  }

  lemma ClosedEndRefuses(s: Vfs, fd: int, data: seq<byte>, file: FileWrite)
    requires Sane(s) && Streams(s, fd) && !Takes(s, fd)
    ensures SysWrite(s, fd, data, file).0 == s && SysWrite(s, fd, data, file).1 < 0
    ensures SysWrite(s, fd, data, file).1 == SysWrite(s, fd, [], file).1
  {
  }

  /** Writing to an open end never fails, keeps it open, and may be cut anywhere. */
  lemma WriteSplits(s: Vfs, fd: int, a: seq<byte>, b: seq<byte>, file: FileWrite)
    requires Sane(s) && Streams(s, fd) && Takes(s, fd)
    ensures var (s1, m) := SysWrite(s, fd, a, file);
      && m >= 0 && Streams(s1, fd) && Takes(s1, fd)
      && var (s2, n) := SysWrite(s1, fd, b, file);
      && SysWrite(s, fd, a + b, file) == (s2, m + n)
  {
    var t := s.fds[fd].target;
    if IsKind(s, fd, PipeWrite) {
      PutSplits(s.pipes[t].ring, a, b);
      var ring1 := Put(s.pipes[t].ring, a).0;
      var ring2 := Put(ring1, b).0;
      assert s.pipes[t := s.pipes[t].(ring := ring1)][t := s.pipes[t].(ring := ring2)] == s.pipes[t := s.pipes[t].(ring := ring2)];
    } else {
      var p := s.unix[t].peer;
      PutSplits(s.unix[p].ring, a, b);
      var ring1 := Put(s.unix[p].ring, a).0;
      var ring2 := Put(ring1, b).0;
      assert s.unix[p := s.unix[p].(ring := ring1)][p := s.unix[p].(ring := ring2)] == s.unix[p := s.unix[p].(ring := ring2)];
    }
  }

  lemma NothingWritten(s: Vfs, fd: int, file: FileWrite)
    requires Sane(s) && Streams(s, fd) && Takes(s, fd)
    ensures SysWrite(s, fd, [], file) == (s, 0)
  {
    var t := s.fds[fd].target;
    if IsKind(s, fd, PipeWrite) {
      assert s.pipes[t := s.pipes[t]] == s.pipes;
    } else {
      var p := s.unix[t].peer;
      assert s.unix[p := s.unix[p]] == s.unix;
    }
  }

  ghost predicate OneWrite(s: Vfs, fd: int, iov: seq<Option<seq<byte>>>, total: int, file: FileWrite)
    requires Sane(s)
  {
    var (s', n) := SysWrite(s, fd, Joined(iov), file);
    WriteVectors(s, fd, iov, total, file) == (s', total + n)
  }

  /** A vector that is not passed over is written, and the rest after it. */
  lemma OneVectorMore(s: Vfs, fd: int, iov: seq<Option<seq<byte>>>, total: int, file: FileWrite)
    requires Sane(s) && Streams(s, fd) && Takes(s, fd) && iov != [] && !Skipped(iov[0])
    ensures var (s1, m) := SysWrite(s, fd, iov[0].value, file);
      && Streams(s1, fd) && Takes(s1, fd)
      && WriteVectors(s, fd, iov, total, file) == WriteVectors(s1, fd, iov[1..], total + m, file)
      && var (s2, n) := SysWrite(s1, fd, Joined(iov[1..]), file);
      && SysWrite(s, fd, Joined(iov), file) == (s2, m + n)
  {
    WriteSplits(s, fd, iov[0].value, Joined(iov[1..]), file);
    assert Joined(iov) == iov[0].value + Joined(iov[1..]);
  }

  lemma NoVectors(s: Vfs, fd: int, total: int, file: FileWrite)
    requires Sane(s) && Streams(s, fd) && Takes(s, fd)
    ensures OneWrite(s, fd, [], total, file)
  {
    NothingWritten(s, fd, file);
  }

  lemma SkippedVector(s: Vfs, fd: int, iov: seq<Option<seq<byte>>>, total: int, file: FileWrite)
    requires Sane(s) && iov != [] && Skipped(iov[0]) && OneWrite(s, fd, iov[1..], total, file)
    ensures OneWrite(s, fd, iov, total, file)
  {
    assert Joined(iov) == Joined(iov[1..]);
  }

  /** On an open end, writev queues the same bytes and returns the same count as one write of the
    * joined vectors, also when the ring fills part-way. */
  lemma {:induction false} VectorsAreOneWrite(s: Vfs, fd: int, iov: seq<Option<seq<byte>>>, total: int, file: FileWrite)
    requires Sane(s) && Streams(s, fd) && Takes(s, fd)
    ensures OneWrite(s, fd, iov, total, file)
    decreases |iov|
  {
    if iov == [] {
      NoVectors(s, fd, total, file);
    } else if Skipped(iov[0]) {
      VectorsAreOneWrite(s, fd, iov[1..], total, file);
      SkippedVector(s, fd, iov, total, file);
    } else {
      OneVectorMore(s, fd, iov, total, file);
      var (s1, m) := SysWrite(s, fd, iov[0].value, file);
      VectorsAreOneWrite(s1, fd, iov[1..], total + m, file);
    }
  }

  /** On a closed end the first vector that is not passed over decides. */
  lemma {:induction false} VectorsRefused(s: Vfs, fd: int, iov: seq<Option<seq<byte>>>, total: int, file: FileWrite)
    requires Sane(s) && Streams(s, fd) && !Takes(s, fd)
    ensures WriteVectors(s, fd, iov, total, file) == if AllSkipped(iov) then (s, total) else (s, SysWrite(s, fd, [], file).1)
    decreases |iov|
  {
    if iov != [] {
      if Skipped(iov[0]) {
        VectorsRefused(s, fd, iov[1..], total, file);
        assert AllSkipped(iov) <==> AllSkipped(iov[1..]);
      } else {
        ClosedEndRefuses(s, fd, iov[0].value, file);
      }
    }
  }

  /** writev is one write of the joined vectors, exactly unless it has nothing to write and the other
    * end is closed: it then returns 0 where the write fails. */
  lemma WritevIsOneWriteExactly(s: Vfs, fd: int, iov: seq<Option<seq<byte>>>, file: FileWrite)
    requires Sane(s) && Streams(s, fd)
    ensures Writev(s, fd, Some(iov), file) == SysWrite(s, fd, Joined(iov), file) <==> Takes(s, fd) || !AllSkipped(iov)
  {
    if Takes(s, fd) {
      VectorsAreOneWrite(s, fd, iov, 0, file);
    } else {
      VectorsRefused(s, fd, iov, 0, file);
      ClosedEndRefuses(s, fd, Joined(iov), file);
    }
  }

  /** Descriptor 4 writes to pipe 0, which nobody reads. */
  ghost predicate HalfClosed(s: Vfs) {
    Sane(s) && s.fds[4] == Desc(PipeWrite, 0, 0) && s.pipes[0].readers == 0
  }

  lemma HalfClosedDiffers(s: Vfs, file: FileWrite)
    requires HalfClosed(s)
    ensures Streams(s, 4) && !Takes(s, 4) && Writev(s, 4, Some([]), file).1 == 0 && SysWrite(s, 4, [], file).1 == -32
  {
  }

  lemma FirstPipe()
    ensures var s := MakePipe(Boot()).0;
      s.fds[3] == Desc(PipeRead, 0, 0) && s.fds[4] == Desc(PipeWrite, 0, 0) && s.pipes[0].readers == 1
  {
    var fds := AllocateFd(Boot().fds, PipeRead, 0).0;
    assert FirstFree(PipeUse(Boot())) == 0;
    assert FirstEmpty(Boot().fds, 3) == 3;
    assert FirstEmpty(fds, 3) == 4;
  }

  lemma ReaderGone(s: Vfs)
    requires Sane(s) && s.fds[3] == Desc(PipeRead, 0, 0) && s.fds[4] == Desc(PipeWrite, 0, 0) && s.pipes[0].readers == 1
    ensures HalfClosed(Do(s, CloseCall(3)).0)
  {
  }

  /** From boot: on a pipe whose read end is closed, writev of no vectors returns 0 where a write of no
    * bytes fails with -32. */
  lemma EmptyWritevDiffers(file: FileWrite)
    ensures var s := Run(Boot(), [PipeCall, CloseCall(3)]);
      && Streams(s, 4) && !Takes(s, 4)
      && Writev(s, 4, Some([]), file).1 == 0 && SysWrite(s, 4, [], file).1 == -32
  {
    FirstPipe();
    ReaderGone(Do(Boot(), PipeCall).0);
    RunTwo(Boot(), PipeCall, CloseCall(3));
    HalfClosedDiffers(Run(Boot(), [PipeCall, CloseCall(3)]), file);
  }

  /** On the terminal every vector is taken, and writev returns the length of all of them. */
  lemma {:induction false} TerminalTakesAll(s: Vfs, fd: int, iov: seq<Option<seq<byte>>>, total: int, file: FileWrite)
    requires Sane(s) && (fd == 1 || fd == 2)
    ensures WriteVectors(s, fd, iov, total, file) == (s, total + |Joined(iov)|)
    decreases |iov|
  {
    if iov != [] {
      TerminalTakesAll(s, fd, iov[1..], total + if Skipped(iov[0]) then 0 else |iov[0].value|, file);
    }
  }

  /** Where the write system call serves nothing, the first vector that is not passed over gives -9; so does
    * a missing array of vectors, on any descriptor. */
  lemma {:induction false} UnservedRefused(s: Vfs, fd: int, iov: seq<Option<seq<byte>>>, total: int, file: FileWrite)
    requires Sane(s) && forall data :: SysWrite(s, fd, data, file) == (s, -9)
    ensures WriteVectors(s, fd, iov, total, file) == (s, if AllSkipped(iov) then total else -9)
    ensures Writev(s, fd, None, file) == (s, -9)
    decreases |iov|
  {
    if iov != [] {
      if Skipped(iov[0]) {
        UnservedRefused(s, fd, iov[1..], total, file);
        assert AllSkipped(iov) <==> AllSkipped(iov[1..]);
      } else {
        assert SysWrite(s, fd, iov[0].value, file) == (s, -9);
      }
    }
  }
}
