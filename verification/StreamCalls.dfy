/** What a caller gets from pipes, unix sockets and files, call by call: which bytes, how many, and which
  * error exactly when. */
module StreamCalls {
  import opened Prelude
  import opened RingBuffer
  import opened VfsSpec

  // ----- The tables

  /** There are 32 descriptors, and eight each of pipes, unix sockets and UDP sockets. */
  lemma TableSizes(s: Vfs)
    requires Sane(s)
    ensures |s.fds| == 32 && |s.pipes| == |s.unix| == |s.inet| == 8
  {
  }

  /** At boot the first three descriptors are devices and the others free; nothing is in use, and no ring
    * holds anything. */
  lemma BootTables()
    ensures var s := Boot();
      && Sane(s) && (forall f :: 0 <= f < 32 ==> s.fds[f].kind == if f < 3 then Device else Empty)
      && forall i :: 0 <= i < 8 ==>
           && !s.pipes[i].used && !s.unix[i].used && !s.inet[i].used && s.inet[i].count == 0
           && RingValid(s.pipes[i].ring) && RingValid(s.unix[i].ring)
           && Pending(s.pipes[i].ring) == [] && Pending(s.unix[i].ring) == []
  {
  }

  // ----- Pipes

  /** Only the ring of pipe `p` may have changed. */
  ghost predicate OnlyPipe(s: Vfs, s': Vfs, p: nat)
    requires Sane(s) && Sane(s') && p < POOL
  {
    s' == s.(pipes := s.pipes[p := s.pipes[p].(ring := s'.pipes[p].ring)])
  }

  /** A read delivers the oldest bytes, as many as are asked for and pending, and leaves the rest. */
  lemma PipeReadDelivers(s: Vfs, fd: int, n: nat, file: int)
    requires Sane(s) && IsKind(s, fd, PipeRead) && RingValid(s.pipes[s.fds[fd].target].ring)
    ensures var p := s.fds[fd].target;
      var q := Pending(s.pipes[p].ring);
      var m := Min(n, |q|);
      var (s', r, bytes) := Read(s, fd, n, file);
      && OnlyPipe(s, s', p) && RingValid(s'.pipes[p].ring)
      && r == m && bytes == q[..m] && Pending(s'.pipes[p].ring) == q[m..]
  {
    TakeRemoves(s.pipes[s.fds[fd].target].ring, n);
  }

  /** A write fails exactly if no read end is open; otherwise it queues as much as there is room for. */
  lemma PipeWriteQueues(s: Vfs, fd: int, data: seq<byte>, file: FileWrite)
    requires Sane(s) && IsKind(s, fd, PipeWrite) && RingValid(s.pipes[s.fds[fd].target].ring)
    ensures var p := s.fds[fd].target;
      var q := Pending(s.pipes[p].ring);
      var m := Min(|data|, 4096 - |q|);
      var (s', r) := Write(s, fd, data, file);
      if s.pipes[p].readers == 0 then r == -32 && s' == s
      else OnlyPipe(s, s', p) && RingValid(s'.pipes[p].ring) && r == m && Pending(s'.pipes[p].ring) == q + data[..m]
  {
    PutAppends(s.pipes[s.fds[fd].target].ring, data);
  }

  /** A pipe that is made connects the two lowest empty descriptors, in this order, over a pipe that was not
    * in use. */
  lemma PipeMade(s: Vfs)
    requires Sane(s) && MakePipe(s).1 == 0
    ensures var (s', _, r, w) := MakePipe(s);
      && 3 <= r < w < MAX_FD && s.fds[r].kind == Empty && s.fds[w].kind == Empty
      && (forall f :: 3 <= f < w && f != r ==> s.fds[f].kind != Empty)
      && exists p :: 0 <= p < POOL && !s.pipes[p].used
           && s'.fds == s.fds[r := Desc(PipeRead, 0, p)][w := Desc(PipeWrite, 0, p)]
           && s'.pipes == s.pipes[p := s'.pipes[p]]
           && s'.pipes[p].used && s'.pipes[p].readers == 1 && s'.pipes[p].writers == 1
           && RingValid(s'.pipes[p].ring) && Pending(s'.pipes[p].ring) == []
           && s'.unix == s.unix && s'.inet == s.inet
  {
    var (s', _, r, w) := MakePipe(s);
    var p, fds1 := FirstFree(PipeUse(s)), AllocateFd(s.fds, PipeRead, FirstFree(PipeUse(s))).0;
    assert FirstEmpty(s.fds, 3) == r && FirstEmpty(fds1, 3) == w;
    assert forall f :: 0 <= f < MAX_FD && f != r ==> fds1[f] == s.fds[f];
  }

  // ----- Unix sockets

  /** Only the ring of unix socket `u` may have changed. */
  ghost predicate OnlyQueue(s: Vfs, s': Vfs, u: nat)
    requires Sane(s) && Sane(s') && u < POOL
  {
    s' == s.(unix := s.unix[u := s.unix[u].(ring := s'.unix[u].ring)])
  }

  /** Receiving, by either call, delivers the oldest bytes of the socket's own queue, connected or not. */
  lemma UnixReadDelivers(s: Vfs, fd: int, n: nat, file: int)
    requires Sane(s) && IsKind(s, fd, UnixSocket) && RingValid(s.unix[s.fds[fd].target].ring)
    ensures Read(s, fd, n, file) == Recv(s, fd, n)
    ensures var u := s.fds[fd].target;
      var q := Pending(s.unix[u].ring);
      var m := Min(n, |q|);
      var (s', r, bytes) := Recv(s, fd, n);
      && OnlyQueue(s, s', u) && RingValid(s'.unix[u].ring)
      && r == m && bytes == q[..m] && Pending(s'.unix[u].ring) == q[m..]
  {
    TakeRemoves(s.unix[s.fds[fd].target].ring, n);
  }

  /** Sending, by either call, fails exactly if the peer is not an open and connected socket; otherwise it
    * queues as much as there is room for at the peer. */
  lemma UnixSendQueues(s: Vfs, fd: int, data: seq<byte>, file: FileWrite)
    requires Sane(s) && IsKind(s, fd, UnixSocket)
    requires var v := s.unix[s.fds[fd].target].peer; v < POOL ==> RingValid(s.unix[v].ring)
    ensures Write(s, fd, data, file) == Send(s, fd, data)
    ensures var v := s.unix[s.fds[fd].target].peer;
      var (s', r) := Send(s, fd, data);
      if v < POOL && s.unix[v].used && s.unix[v].connected then
        var q := Pending(s.unix[v].ring);
        var m := Min(|data|, 4096 - |q|);
        OnlyQueue(s, s', v) && RingValid(s'.unix[v].ring) && r == m && Pending(s'.unix[v].ring) == q + data[..m]
      else r == -107 && s' == s
  {
    var v := s.unix[s.fds[fd].target].peer;
    if v < POOL {
      PutAppends(s.unix[v].ring, data);
    }
  }

  // ----- Files and other descriptors

  /** Reading and writing files moves the offset on by what the file says it did, going round at 2^32;
    * nothing else changes, and an error moves nothing. */
  lemma FileOffsetAdvances(s: Vfs, fd: int, n: nat, data: seq<byte>, file: int)
    requires Sane(s) && IsKind(s, fd, VfsFile)
    ensures var (s', r, bytes) := Read(s, fd, n, file);
      && r == file && bytes == [] && s' == s.(fds := s.fds[fd := s'.fds[fd]])
      && s'.fds[fd].kind == VfsFile && s'.fds[fd].target == s.fds[fd].target
      && (file <= 0 ==> s' == s)
      && (file > 0 && s.fds[fd].offset + file < TWO_32 ==> s'.fds[fd].offset - s.fds[fd].offset == file)
    ensures Write(s, fd, data, _ => file).0 == Read(s, fd, n, file).0 && Write(s, fd, data, _ => file).1 == file
  {
    assert s.fds[fd := s.fds[fd]] == s.fds;
  }

  /** The wrong end of a pipe, a device, and a descriptor that is not open cannot be read or written. */
  lemma WrongEndsRefused(s: Vfs, fd: int, n: nat, data: seq<byte>, file: int)
    requires Sane(s)
    requires !IsKind(s, fd, VfsFile) && !IsKind(s, fd, UnixSocket) && !IsKind(s, fd, InetSocket)
    ensures !IsKind(s, fd, PipeRead) ==> Read(s, fd, n, file) == (s, -9, [])
    ensures !IsKind(s, fd, PipeWrite) ==> Write(s, fd, data, _ => file) == (s, -9)
  {
  }

  /** The write system call serves the terminal on 1 and 2, which take everything; from 3 on it is the write
    * of files, pipes and unix sockets, and fails for the rest, UDP sockets among them. */
  lemma SysWriteServes(s: Vfs, fd: int, data: seq<byte>, file: FileWrite)
    requires Sane(s)
    ensures (fd == 1 || fd == 2) ==> SysWrite(s, fd, data, file) == (s, |data|)
    ensures fd >= 3 && (IsKind(s, fd, VfsFile) || IsKind(s, fd, PipeWrite) || IsKind(s, fd, UnixSocket)) ==>
      SysWrite(s, fd, data, file) == Write(s, fd, data, file)
    ensures fd <= 0 || !InRange(fd) || IsKind(s, fd, InetSocket) || IsKind(s, fd, PipeRead) || IsKind(s, fd, Empty) ==>
      fd == 1 || fd == 2 || SysWrite(s, fd, data, file) == (s, -9)
  {
  }

  // ----- Opening and closing

  /** Opening takes the lowest empty descriptor for the node. It fails for want of a descriptor first, of
    * memory next, and of the file last, and only then is the node freed. */
  lemma OpenExactly(s: Vfs, node: nat, result: int)
    requires Sane(s)
    ensures var (s', r, freed) := Open(s, node, result);
      if forall f :: 3 <= f < MAX_FD ==> s.fds[f].kind != Empty then s' == s && r == -24 && !freed
      else if node == 0 then s' == s && r == -12 && !freed
      else if result != 0 then s' == s && r == result && freed
      else
        && 3 <= r < MAX_FD && s.fds[r].kind == Empty && (forall f :: 3 <= f < r ==> s.fds[f].kind != Empty)
        && s' == s.(fds := s.fds[r := Desc(VfsFile, 0, node)]) && !freed
  {
    var f := FirstEmpty(s.fds, 3);
    assert f < MAX_FD ==> s.fds[f].kind == Empty;
  }

  /** Closing fails exactly for a descriptor that is not open, and otherwise empties this one and no other. */
  lemma CloseExactly(s: Vfs, fd: int)
    requires Sane(s)
    ensures var (s', r, node) := Close(s, fd);
      if InRange(fd) && s.fds[fd].kind != Empty then
        && r == 0 && s'.fds == s.fds[fd := Desc(Empty, 0, 0)]
        && (s.fds[fd].kind == VfsFile ==> node == s.fds[fd].target && s' == s.(fds := s'.fds))
      else s' == s && r == -9 && node == 0
  {
  }

  /** Closing a unix socket frees its slot and disconnects the socket it points at; no queue is touched. */
  lemma CloseDisconnects(s: Vfs, fd: int)
    requires Sane(s) && IsKind(s, fd, UnixSocket)
    ensures var s', u := Close(s, fd).0, s.fds[fd].target;
      && s'.pipes == s.pipes && s'.inet == s.inet && !s'.unix[u].used
      && (s.unix[u].peer < POOL ==> !s'.unix[s.unix[u].peer].connected)
      && forall v :: 0 <= v < POOL && v != u ==>
           s'.unix[v] == if v == s.unix[u].peer then s.unix[v].(connected := false) else s.unix[v]
  {
  }
}
