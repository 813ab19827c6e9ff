/** Pipes, unix sockets and UDP sockets are FIFO queues over whole runs. */
module FlowTheorems {
  import opened Prelude
  import opened RingBuffer
  import opened VfsSpec
  import opened VfsRuns
  import opened DescriptorTheorems
  import opened UdpTheorems

  /** For each object of a table, everything that went in and everything that came out. */
  datatype Flow<T> = Flow(into: seq<seq<T>>, out: seq<seq<T>>)

  ghost predicate Wide<T>(f: Flow<T>) {
    |f.into| == POOL && |f.out| == POOL
  }

  function NoFlow<T>(): (f: Flow<T>)
    ensures |f.into| == POOL && |f.out| == POOL
    ensures forall p :: 0 <= p < POOL ==> f.into[p] == [] && f.out[p] == []
  {
    Flow(seq(POOL, _ => []), seq(POOL, _ => []))
  }

  function In<T>(f: Flow<T>, p: nat, s: seq<T>): (g: Flow<T>)
    requires p < |f.into|
    ensures |g.into| == |f.into| && g.out == f.out
  {
    f.(into := f.into[p := f.into[p] + s])
  }

  function Out<T>(f: Flow<T>, p: nat, s: seq<T>): (g: Flow<T>)
    requires p < |f.out|
    ensures |g.out| == |f.out| && g.into == f.into
  {
    f.(out := f.out[p := f.out[p] + s])
  }

  /** Start afresh for the objects this call has created. */
  function Restart<T>(f: Flow<T>, was: seq<bool>, now: seq<bool>): (g: Flow<T>)
    requires |f.into| == |f.out| == |was| == |now| == POOL
    ensures |g.into| == |g.out| == POOL
    ensures forall p :: 0 <= p < POOL ==>
      if !was[p] && now[p] then g.into[p] == [] && g.out[p] == [] else g.into[p] == f.into[p] && g.out[p] == f.out[p]
  {
    Flow(seq(POOL, p requires 0 <= p < POOL => if !was[p] && now[p] then [] else f.into[p]),
         seq(POOL, p requires 0 <= p < POOL => if !was[p] && now[p] then [] else f.out[p]))
  }

  // ----- Pipes

  /** What a call moves into or out of pipes, told from its arguments and its reply alone. */
  ghost function PipeStep(s: Vfs, c: Syscall, f: Flow<byte>): (g: Flow<byte>)
    requires Sane(s) && Wide(f)
    ensures Wide(g)
  {
    var (s', reply) := Do(s, c);
    match c
    case PipeCall => Restart(f, PipeUse(s), PipeUse(s'))
    case WriteCall(fd, data, _) =>
      if IsKind(s, fd, PipeWrite) && 0 <= reply.ret <= |data| then In(f, s.fds[fd].target, data[..reply.ret]) else f
    case ReadCall(fd, _, _) =>
      if IsKind(s, fd, PipeRead) then Out(f, s.fds[fd].target, reply.bytes) else f
    case _ => f
  }

  /** Every byte written to a pipe since it was made has been read, in order, or is pending. */
  ghost predicate PipesFlow(s: Vfs, f: Flow<byte>) {
    && Sane(s) && Wide(f)
    && forall p :: 0 <= p < POOL ==>
      RingValid(s.pipes[p].ring) && (s.pipes[p].used ==> f.into[p] == f.out[p] + Pending(s.pipes[p].ring))
  }

  /** Calls that do not touch the pipe table. */
  predicate LeavesPipes(s: Vfs, c: Syscall) {
    match c
    case PipeCall => false
    case CloseCall(_) => false
    case WriteCall(fd, _, _) => !IsKind(s, fd, PipeWrite)
    case ReadCall(fd, _, _) => !IsKind(s, fd, PipeRead)
    case _ => true
  }

  lemma PipesUntouched(s: Vfs, c: Syscall)
    requires Sane(s) && LeavesPipes(s, c)
    ensures Do(s, c).0.pipes == s.pipes
  {
  }

  lemma MakePipeFlow(s: Vfs, f: Flow<byte>)
    requires PipesFlow(s, f)
    ensures PipesFlow(Do(s, PipeCall).0, PipeStep(s, PipeCall, f))
  {
    var s' := MakePipe(s).0;
    forall p | 0 <= p < POOL
      ensures s'.pipes[p] == s.pipes[p] || (!s.pipes[p].used && RingValid(s'.pipes[p].ring) && Pending(s'.pipes[p].ring) == []) {}
  }

  lemma ClosePipeFlow(s: Vfs, fd: int, f: Flow<byte>)
    requires PipesFlow(s, f)
    ensures PipesFlow(Do(s, CloseCall(fd)).0, f)
  {
    var s' := Close(s, fd).0;
    forall p | 0 <= p < POOL
      ensures s'.pipes[p].ring == s.pipes[p].ring && (s'.pipes[p].used ==> s.pipes[p].used) {}
  }

  lemma WritePipeFlow(s: Vfs, fd: int, data: seq<byte>, file: int, f: Flow<byte>)
    requires PipesFlow(s, f) && IsKind(s, fd, PipeWrite)
    ensures PipesFlow(Do(s, WriteCall(fd, data, file)).0, PipeStep(s, WriteCall(fd, data, file), f))
  {
    PutAppends(s.pipes[s.fds[fd].target].ring, data);
  }

  lemma ReadPipeFlow(s: Vfs, fd: int, n: nat, file: int, f: Flow<byte>)
    requires PipesFlow(s, f) && IsKind(s, fd, PipeRead)
    ensures PipesFlow(Do(s, ReadCall(fd, n, file)).0, PipeStep(s, ReadCall(fd, n, file), f))
  {
    TakeRemoves(s.pipes[s.fds[fd].target].ring, n);
  }

  lemma PipeStepFlow(s: Vfs, c: Syscall, f: Flow<byte>)
    requires PipesFlow(s, f)
    ensures PipesFlow(Do(s, c).0, PipeStep(s, c, f))
  {
    if LeavesPipes(s, c) {
      PipesUntouched(s, c);
      assert PipeStep(s, c, f) == f;
    } else {
      match c {
        case PipeCall => MakePipeFlow(s, f);
        case CloseCall(fd) => ClosePipeFlow(s, fd, f);
        case WriteCall(fd, data, file) => WritePipeFlow(s, fd, data, file, f);
        case ReadCall(fd, n, file) => ReadPipeFlow(s, fd, n, file, f);
      }
    }
  }

  ghost function PipeHistory(s: Vfs, cs: seq<Syscall>, f: Flow<byte>): (g: Flow<byte>)
    requires Sane(s) && Wide(f)
    ensures Wide(g)
    decreases |cs|
  {
    if cs == [] then f else PipeHistory(Do(s, cs[0]).0, cs[1..], PipeStep(s, cs[0], f))
  }

  lemma {:induction false} PipesAreFifo(s: Vfs, cs: seq<Syscall>, f: Flow<byte>)
    requires PipesFlow(s, f)
    ensures PipesFlow(Run(s, cs), PipeHistory(s, cs, f))
    decreases |cs|
  {
    if cs != [] {
      PipeStepFlow(s, cs[0], f);
      PipesAreFifo(Do(s, cs[0]).0, cs[1..], PipeStep(s, cs[0], f));
    }
  }

  /** From boot on: every byte written to a pipe that is open now has been read, in order, or is one of
    * the at most 4096 pending. */
  lemma PipesFromBoot(cs: seq<Syscall>, p: nat)
    requires p < POOL
    ensures var t, f := Run(Boot(), cs), PipeHistory(Boot(), cs, NoFlow());
      && RingValid(t.pipes[p].ring)
      && (t.pipes[p].used ==> f.into[p] == f.out[p] + Pending(t.pipes[p].ring) && |Pending(t.pipes[p].ring)| <= RING_SIZE)
  {
    PipesAreFifo(Boot(), cs, NoFlow());
  }

  // ----- Unix sockets: queues live on when a slot is closed and used again

  ghost function UnixStep(s: Vfs, c: Syscall, f: Flow<byte>): (g: Flow<byte>)
    requires Sane(s) && Wide(f)
    ensures Wide(g)
  {
    var reply := Do(s, c).1;
    match c
    case SendCall(fd, data) => UnixSent(s, fd, data, reply.ret, f)
    case WriteCall(fd, data, _) => UnixSent(s, fd, data, reply.ret, f)
    case RecvCall(fd, _) => UnixReceived(s, fd, reply.bytes, f)
    case ReadCall(fd, _, _) => UnixReceived(s, fd, reply.bytes, f)
    case _ => f
  }

  ghost function UnixSent(s: Vfs, fd: int, data: seq<byte>, ret: int, f: Flow<byte>): (g: Flow<byte>)
    requires Sane(s) && Wide(f)
    ensures Wide(g)
  {
    if IsKind(s, fd, UnixSocket) && 0 <= ret <= |data| && s.unix[s.fds[fd].target].peer < POOL then
      In(f, s.unix[s.fds[fd].target].peer, data[..ret])
    else f
  }

  ghost function UnixReceived(s: Vfs, fd: int, bytes: seq<byte>, f: Flow<byte>): (g: Flow<byte>)
    requires Sane(s) && Wide(f)
    ensures Wide(g)
  {
    if IsKind(s, fd, UnixSocket) then Out(f, s.fds[fd].target, bytes) else f
  }

  /** Every byte ever accepted into the queue of a slot has been read from it, in order, or is pending. */
  ghost predicate UnixFlow(s: Vfs, f: Flow<byte>) {
    && Sane(s) && Wide(f)
    && forall u :: 0 <= u < POOL ==> RingValid(s.unix[u].ring) && f.into[u] == f.out[u] + Pending(s.unix[u].ring)
  }

  /** Calls that leave the unix queues as they are. */
  predicate LeavesQueues(s: Vfs, c: Syscall) {
    match c
    case SendCall(fd, _) => !IsKind(s, fd, UnixSocket)
    case WriteCall(fd, _, _) => !IsKind(s, fd, UnixSocket)
    case RecvCall(fd, _) => !IsKind(s, fd, UnixSocket)
    case ReadCall(fd, _, _) => !IsKind(s, fd, UnixSocket)
    case _ => true
  }

  /** Calls that work on the unix socket table itself. */
  predicate UnixTableCall(c: Syscall) {
    c.CloseCall? || c.SocketCall? || c.BindCall? || c.ListenCall? || c.ConnectCall? || c.AcceptCall?
  }

  lemma UnixTableUntouched(s: Vfs, c: Syscall)
    requires Sane(s) && LeavesQueues(s, c) && !UnixTableCall(c)
    ensures Do(s, c).0.unix == s.unix
  {
  }

  ghost predicate SameRings(s: Vfs, s': Vfs)
    requires Sane(s) && Sane(s')
  {
    forall u :: 0 <= u < POOL ==> s'.unix[u].ring == s.unix[u].ring
  }

  lemma ConnectionRingsKept(s: Vfs, fd: int, address: Option<seq<byte>>)
    requires Sane(s)
    ensures SameRings(s, Connect(s, fd, address).0)
  {
  }

  lemma AcceptRingsKept(s: Vfs, fd: int)
    requires Sane(s)
    ensures SameRings(s, Accept(s, fd).0)
  {
  }

  lemma SlotRingsKept(s: Vfs, fd: int, domain: int, kind: int, protocol: int)
    requires Sane(s)
    ensures SameRings(s, Close(s, fd).0) && SameRings(s, MakeSocket(s, domain, kind, protocol).0)
  {
  }

  lemma NameRingsKept(s: Vfs, fd: int, address: Option<seq<byte>>)
    requires Sane(s)
    ensures SameRings(s, Bind(s, fd, address).0) && SameRings(s, Listen(s, fd).0)
  {
  }

  lemma RingsKept(s: Vfs, c: Syscall)
    requires Sane(s) && UnixTableCall(c)
    ensures SameRings(s, Do(s, c).0)
  {
    match c {
      case CloseCall(fd) => SlotRingsKept(s, fd, 0, 0, 0);
      case SocketCall(domain, kind, protocol) => SlotRingsKept(s, 0, domain, kind, protocol);
      case BindCall(fd, address) => NameRingsKept(s, fd, address);
      case ListenCall(fd) => NameRingsKept(s, fd, None);
      case ConnectCall(fd, address) => ConnectionRingsKept(s, fd, address);
      case AcceptCall(fd) => AcceptRingsKept(s, fd);
    }
  }

  lemma QueuesUntouched(s: Vfs, c: Syscall)
    requires Sane(s) && LeavesQueues(s, c)
    ensures SameRings(s, Do(s, c).0)
  {
    if UnixTableCall(c) {
      RingsKept(s, c);
    } else {
      UnixTableUntouched(s, c);
    }
  }

  lemma SendUnixFlow(s: Vfs, fd: int, data: seq<byte>, f: Flow<byte>)
    requires UnixFlow(s, f) && IsKind(s, fd, UnixSocket)
    ensures UnixFlow(Send(s, fd, data).0, UnixSent(s, fd, data, Send(s, fd, data).1, f))
  {
    var peer := s.unix[s.fds[fd].target].peer;
    if peer < POOL {
      PutAppends(s.unix[peer].ring, data);
    }
  }

  lemma RecvUnixFlow(s: Vfs, fd: int, n: nat, f: Flow<byte>)
    requires UnixFlow(s, f) && IsKind(s, fd, UnixSocket)
    ensures UnixFlow(Recv(s, fd, n).0, UnixReceived(s, fd, Recv(s, fd, n).2, f))
  {
    TakeRemoves(s.unix[s.fds[fd].target].ring, n);
  }

  lemma UnixStepFlow(s: Vfs, c: Syscall, f: Flow<byte>)
    requires UnixFlow(s, f)
    ensures UnixFlow(Do(s, c).0, UnixStep(s, c, f))
  {
    if LeavesQueues(s, c) {
      QueuesUntouched(s, c);
      assert UnixStep(s, c, f) == f;
    } else {
      match c {
        case SendCall(fd, data) => SendUnixFlow(s, fd, data, f);
        case WriteCall(fd, data, _) => SendUnixFlow(s, fd, data, f);
        case RecvCall(fd, n) => RecvUnixFlow(s, fd, n, f);
        case ReadCall(fd, n, _) => RecvUnixFlow(s, fd, n, f);
      }
    }
  }

  ghost function UnixHistory(s: Vfs, cs: seq<Syscall>, f: Flow<byte>): (g: Flow<byte>)
    requires Sane(s) && Wide(f)
    ensures Wide(g)
    decreases |cs|
  {
    if cs == [] then f else UnixHistory(Do(s, cs[0]).0, cs[1..], UnixStep(s, cs[0], f))
  }

  lemma {:induction false} UnixQueuesAreFifo(s: Vfs, cs: seq<Syscall>, f: Flow<byte>)
    requires UnixFlow(s, f)
    ensures UnixFlow(Run(s, cs), UnixHistory(s, cs, f))
    decreases |cs|
  {
    if cs != [] {
      UnixStepFlow(s, cs[0], f);
      UnixQueuesAreFifo(Do(s, cs[0]).0, cs[1..], UnixStep(s, cs[0], f));
    }
  }

  /** From boot on: every byte taken into the queue of a unix socket has been read, in order, or is one
    * of the at most 4096 pending. */
  lemma UnixFromBoot(cs: seq<Syscall>)
    ensures var t, f := Run(Boot(), cs), UnixHistory(Boot(), cs, NoFlow());
      forall u | 0 <= u < POOL ::
        && RingValid(t.unix[u].ring)
        && f.into[u] == f.out[u] + Pending(t.unix[u].ring) && |Pending(t.unix[u].ring)| <= RING_SIZE
  {
    UnixQueuesAreFifo(Boot(), cs, NoFlow());
  }

  // ----- UDP: queues of datagrams

  /** Where the k-th queued datagram is kept. */
  function Place(i: Inet, k: nat): (p: nat)
    ensures p < DATAGRAMS
  {
    (i.head + k) % DATAGRAMS
  }

  /** The datagrams in a queue, oldest first. */
  function Queue(i: Inet): (q: seq<Datagram>)
    requires SaneInet(i)
    ensures |q| == i.count
  {
    seq(i.count, k requires 0 <= k < i.count => i.grams[Place(i, k)])
  }

  /** New datagrams go in where the queue ends. Not so for a slot opened with head and tail apart. */
  predicate Aligned(i: Inet) {
    i.tail == (i.head + i.count) % DATAGRAMS
  }

  ghost function UdpSent(t: Vfs, source: nat, data: seq<byte>, address: nat, port: nat, ret: int, f: Flow<Datagram>): (g: Flow<Datagram>)
    requires Sane(t) && Wide(f) && source < POOL
    ensures Wide(g)
  {
    var i := Destination(t.inet, address, port);
    if ret >= 0 && i < POOL then In(f, i, [Stamp(t.inet[source], data)]) else f
  }

  ghost function UdpSentPlain(s: Vfs, fd: int, data: seq<byte>, ret: int, f: Flow<Datagram>): (g: Flow<Datagram>)
    requires Sane(s) && Wide(f)
    ensures Wide(g)
  {
    if IsKind(s, fd, InetSocket) then
      var i := s.fds[fd].target;
      UdpSent(s, i, data, s.inet[i].peerAddress, s.inet[i].peerPort, ret, f)
    else f
  }

  ghost function UdpReceived(s: Vfs, fd: int, ret: int, f: Flow<Datagram>): (g: Flow<Datagram>)
    requires Sane(s) && Wide(f)
    ensures Wide(g)
  {
    if IsKind(s, fd, InetSocket) && ret >= 0 then Out(f, s.fds[fd].target, [HeadOf(s.inet[s.fds[fd].target])]) else f
  }

  ghost function UdpStep(s: Vfs, c: Syscall, f: Flow<Datagram>): (g: Flow<Datagram>)
    requires Sane(s) && Wide(f)
    ensures Wide(g)
  {
    var (s', reply) := Do(s, c);
    match c
    case SocketCall(_, _, _) => Restart(f, InetUse(s), InetUse(s'))
    case SendCall(fd, data) => UdpSentPlain(s, fd, data, reply.ret, f)
    case WriteCall(fd, data, _) => UdpSentPlain(s, fd, data, reply.ret, f)
    case SendToCall(fd, data, address) =>
      if IsKind(s, fd, InetSocket) && ParseInet(address).Good? then
        var i := s.fds[fd].target;
        UdpSent(WithPort(s, i, fd), i, data, ParseInet(address).ip, ParseInet(address).port, reply.ret, f)
      else f
    case RecvCall(fd, _) => UdpReceived(s, fd, reply.ret, f)
    case RecvFromCall(fd, _, _) => UdpReceived(s, fd, reply.ret, f)
    case ReadCall(fd, _, _) => UdpReceived(s, fd, reply.ret, f)
    case _ => f
  }

  /** Every datagram delivered to an aligned open socket has been received, in order and whole, or is
    * queued; at most eight are. */
  ghost predicate UdpFlow(s: Vfs, f: Flow<Datagram>) {
    && Sane(s) && Wide(f)
    && forall i :: 0 <= i < POOL && s.inet[i].used && Aligned(s.inet[i]) ==> f.into[i] == f.out[i] + Queue(s.inet[i])
  }

  lemma NextPlace(tail: nat, n: nat)
    requires tail < DATAGRAMS && n < 2 * DATAGRAMS
    ensures (tail + 1) % DATAGRAMS == (n + 1) % DATAGRAMS <==> tail == n % DATAGRAMS
  {
  }

  lemma PlacesApart(head: nat, j: nat, k: nat)
    requires head < DATAGRAMS && j < k < DATAGRAMS
    ensures (head + j) % DATAGRAMS != (head + k) % DATAGRAMS
  {
  }

  lemma EnqueueAppends(i: Inet, d: Datagram)
    requires SaneInet(i) && i.count < DATAGRAMS && Stamped(d)
    ensures Aligned(Enqueue(i, d)) <==> Aligned(i)
    ensures Aligned(i) ==> Queue(Enqueue(i, d)) == Queue(i) + [d]
  {
    NextPlace(i.tail, i.head + i.count);
    if Aligned(i) {
      var q, r := Queue(i) + [d], Queue(Enqueue(i, d));
      forall k | 0 <= k < |q| ensures r[k] == q[k] {
        if k < i.count {
          PlacesApart(i.head, k, i.count);
        }
      }
    }
  }

  lemma DequeueRemoves(i: Inet)
    requires SaneInet(i) && i.count > 0
    ensures Aligned(Dequeue(i)) <==> Aligned(i)
    ensures Queue(i) == [HeadOf(i)] + Queue(Dequeue(i))
  {
    NextTail(i.head, i.count);
    DequeueQueue(i);
  }

  lemma DequeueQueue(i: Inet)
    requires SaneInet(i) && i.count > 0
    ensures Queue(i) == [HeadOf(i)] + Queue(Dequeue(i))
  {
    var q, r := Queue(i), Queue(Dequeue(i));
    assert q[0] == HeadOf(i);
    forall k | 0 <= k < |r| ensures q[k + 1] == r[k] {
      PlaceShifts(i.head, k);
    }
  }

  lemma PlaceShifts(head: nat, k: nat)
    ensures (head + (k + 1)) % DATAGRAMS == ((head + 1) % DATAGRAMS + k) % DATAGRAMS
  {
  }

  lemma NextTail(head: nat, count: nat)
    requires count > 0
    ensures (head + count) % DATAGRAMS == ((head + 1) % DATAGRAMS + (count - 1)) % DATAGRAMS
  {
  }

  lemma SentFlow(t: Vfs, source: nat, data: seq<byte>, address: nat, port: nat, f: Flow<Datagram>)
    requires UdpFlow(t, f) && source < POOL
    ensures UdpFlow(InetSend(t, source, data, address, port).0,
                    UdpSent(t, source, data, address, port, InetSend(t, source, data, address, port).1, f))
  {
    var i := Destination(t.inet, address, port);
    if i < POOL && t.inet[i].count < DATAGRAMS {
      EnqueueAppends(t.inet[i], Stamp(t.inet[source], data));
    }
  }

  lemma ReceivedFlow(s: Vfs, fd: int, n: nat, buffer: Option<seq<byte>>, f: Flow<Datagram>)
    requires UdpFlow(s, f) && IsKind(s, fd, InetSocket)
    ensures var (s', ret, bytes, _) := RecvFrom(s, fd, n, buffer);
      && UdpFlow(s', UdpReceived(s, fd, ret, f))
      && (ret >= 0 ==> var d := HeadOf(s.inet[s.fds[fd].target]); bytes == d.data[..Min(|d.data|, n)] && ret == |bytes|)
  {
    var i := s.fds[fd].target;
    if s.inet[i].count > 0 {
      DequeueRemoves(s.inet[i]);
    }
  }

  /** Same queues, and nothing newly opened. */
  ghost predicate SameGrams(s: Vfs, s': Vfs)
    requires Sane(s) && Sane(s')
  {
    forall i :: 0 <= i < POOL && s'.inet[i].used ==>
      && s.inet[i].used && s'.inet[i].grams == s.inet[i].grams && s'.inet[i].head == s.inet[i].head
      && s'.inet[i].tail == s.inet[i].tail && s'.inet[i].count == s.inet[i].count
  }

  lemma SameGramsFlow(s: Vfs, s': Vfs, f: Flow<Datagram>)
    requires UdpFlow(s, f) && Sane(s') && SameGrams(s, s')
    ensures UdpFlow(s', f)
  {
    forall i | 0 <= i < POOL && s'.inet[i].used ensures Queue(s'.inet[i]) == Queue(s.inet[i]) {}
  }

  predicate LeavesGrams(s: Vfs, c: Syscall) {
    match c
    case SocketCall(_, _, _) => false
    case SendCall(fd, _) => !IsKind(s, fd, InetSocket)
    case WriteCall(fd, _, _) => !IsKind(s, fd, InetSocket)
    case RecvCall(fd, _) => !IsKind(s, fd, InetSocket)
    case ReadCall(fd, _, _) => !IsKind(s, fd, InetSocket)
    case SendToCall(fd, _, _) => !IsKind(s, fd, InetSocket)
    case RecvFromCall(fd, _, _) => !IsKind(s, fd, InetSocket)
    case _ => true
  }

  lemma GramsUntouched(s: Vfs, c: Syscall)
    requires Sane(s) && LeavesGrams(s, c)
    ensures SameGrams(s, Do(s, c).0)
  {
  }

  lemma SocketFlow(s: Vfs, domain: int, kind: int, protocol: int, f: Flow<Datagram>)
    requires UdpFlow(s, f)
    ensures UdpFlow(Do(s, SocketCall(domain, kind, protocol)).0, UdpStep(s, SocketCall(domain, kind, protocol), f))
  {
    var s' := MakeSocket(s, domain, kind, protocol).0;
    forall i | 0 <= i < POOL
      ensures s'.inet[i] == s.inet[i] || (!s.inet[i].used && Queue(s'.inet[i]) == []) {}
  }

  lemma SendToFlow(s: Vfs, fd: int, data: seq<byte>, address: Option<seq<byte>>, f: Flow<Datagram>)
    requires UdpFlow(s, f)
    ensures UdpFlow(Do(s, SendToCall(fd, data, address)).0, UdpStep(s, SendToCall(fd, data, address), f))
  {
    if IsKind(s, fd, InetSocket) && ParseInet(address).Good? {
      var i, to := s.fds[fd].target, ParseInet(address);
      var t := WithPort(s, i, fd);
      SameGramsFlow(s, t, f);
      SentFlow(t, i, data, to.ip, to.port, f);
    }
  }

  lemma PlainSendFlow(s: Vfs, fd: int, data: seq<byte>, f: Flow<Datagram>)
    requires UdpFlow(s, f) && IsKind(s, fd, InetSocket)
    ensures UdpFlow(Send(s, fd, data).0, UdpSentPlain(s, fd, data, Send(s, fd, data).1, f))
  {
    var i := s.fds[fd].target;
    SentFlow(s, i, data, s.inet[i].peerAddress, s.inet[i].peerPort, f);
  }

  lemma UdpStepFlow(s: Vfs, c: Syscall, f: Flow<Datagram>)
    requires UdpFlow(s, f)
    ensures UdpFlow(Do(s, c).0, UdpStep(s, c, f))
  {
    if LeavesGrams(s, c) {
      GramsUntouched(s, c);
      SameGramsFlow(s, Do(s, c).0, f);
      assert UdpStep(s, c, f) == f;
    } else {
      match c {
        case SocketCall(domain, kind, protocol) => SocketFlow(s, domain, kind, protocol, f);
        case SendCall(fd, data) => PlainSendFlow(s, fd, data, f);
        case WriteCall(fd, data, _) => PlainSendFlow(s, fd, data, f);
        case SendToCall(fd, data, address) => SendToFlow(s, fd, data, address, f);
        case RecvCall(fd, n) => ReceivedFlow(s, fd, n, None, f);
        case ReadCall(fd, n, _) => ReceivedFlow(s, fd, n, None, f);
        case RecvFromCall(fd, n, buffer) => ReceivedFlow(s, fd, n, buffer, f);
      }
    }
  }

  ghost function UdpHistory(s: Vfs, cs: seq<Syscall>, f: Flow<Datagram>): (g: Flow<Datagram>)
    requires Sane(s) && Wide(f)
    ensures Wide(g)
    decreases |cs|
  {
    if cs == [] then f else UdpHistory(Do(s, cs[0]).0, cs[1..], UdpStep(s, cs[0], f))
  }

  lemma {:induction false} UdpQueuesAreFifo(s: Vfs, cs: seq<Syscall>, f: Flow<Datagram>)
    requires UdpFlow(s, f)
    ensures UdpFlow(Run(s, cs), UdpHistory(s, cs, f))
    decreases |cs|
  {
    if cs != [] {
      UdpStepFlow(s, cs[0], f);
      UdpQueuesAreFifo(Do(s, cs[0]).0, cs[1..], UdpStep(s, cs[0], f));
    }
  }

  lemma BootUdpFlow()
    ensures UdpFlow(Boot(), NoFlow())
  {
  }

  // ----- Which sockets are aligned

  /** What a socket on descriptor `fd` reads after binding to `address` and sending itself `data`. */
  ghost function Echoed(t: Vfs, fd: int, address: Option<seq<byte>>, data: seq<byte>): seq<byte>
    requires Sane(t)
  {
    RecvFrom(SendTo(Bind(t, fd, address).0, fd, data, address).0, fd, DATAGRAM_SIZE, None).2
  }

  /** No socket but `i` is open on the port. */
  ghost predicate PortFree(inet: seq<Inet>, i: nat, port: nat) {
    forall j :: 0 <= j < |inet| && j != i && inet[j].used ==> inet[j].port != port
  }

  lemma BoundAndSent(t: Vfs, fd: int, i: nat, address: Option<seq<byte>>, data: seq<byte>)
    requires Sane(t) && IsKind(t, fd, InetSocket) && t.fds[fd].target == i && t.inet[i].used && t.inet[i].count == 0
    requires ParseInet(address).Good? && PortFree(t.inet, i, ParseInet(address).port) && |data| <= DATAGRAM_SIZE
    ensures var u := SendTo(Bind(t, fd, address).0, fd, data, address).0;
      && u.fds == t.fds && u.inet[i].head == t.inet[i].head && u.inet[i].count == 1
      && HeadOf(u.inet[i]).data == if t.inet[i].head == t.inet[i].tail then data else HeadOf(t.inet[i]).data
  {
    var to, s := ParseInet(address), Bind(t, fd, address).0;
    assert s.inet == t.inet[i := t.inet[i].(address := to.ip, port := to.port)];
    var d := Destination(s.inet, to.ip, to.port);
    assert Matches(s.inet[i], to.ip, to.port);
    assert d <= i;
    assert d == i;
  }

  /** With nothing queued, the socket reads back what it sent itself if head and tail are together, and
    * whatever lies at the head otherwise. */
  lemma EchoedIs(t: Vfs, fd: int, i: nat, address: Option<seq<byte>>, data: seq<byte>)
    requires Sane(t) && IsKind(t, fd, InetSocket) && t.fds[fd].target == i && t.inet[i].used && t.inet[i].count == 0
    requires ParseInet(address).Good? && PortFree(t.inet, i, ParseInet(address).port) && |data| <= DATAGRAM_SIZE
    ensures var d := if t.inet[i].head == t.inet[i].tail then data else HeadOf(t.inet[i]).data;
      Echoed(t, fd, address, data) == d[..Min(|d|, DATAGRAM_SIZE)]
  {
    BoundAndSent(t, fd, i, address, data);
  }

  /** A socket just opened, bound to a free port and sending to itself, reads back whatever it sends if
    * and only if the slot it was given had been left with head equal to tail. */
  lemma FirstInFirstOutExactly(s: Vfs, address: Option<seq<byte>>)
    requires Inv(s) && MakeSocket(s, 2, 2, 0).1 >= 0
    requires ParseInet(address).Good? && PortFree(s.inet, FirstFree(InetUse(s)), ParseInet(address).port)
    ensures var (t, fd) := MakeSocket(s, 2, 2, 0);
      var i := FirstFree(InetUse(s));
      (forall data | |data| <= DATAGRAM_SIZE :: Echoed(t, fd, address, data) == data) <==> s.inet[i].head == s.inet[i].tail
  {
    var (t, fd) := MakeSocket(s, 2, 2, 0);
    var i := FirstFree(InetUse(s));
    var stale := HeadOf(s.inet[i]).data;
    forall data | |data| <= DATAGRAM_SIZE
      ensures Echoed(t, fd, address, data) == if s.inet[i].head == s.inet[i].tail then data else stale[..Min(|stale|, DATAGRAM_SIZE)]
    {
      EchoedIs(t, fd, i, address, data);
      assert data[..|data|] == data;
    }
    if s.inet[i].head != s.inet[i].tail {
      var other: seq<byte> := if stale == [] then [0] else [];
      assert Echoed(t, fd, address, other) != other;
    }
  }

  /** Descriptor 3 is open on slot 0, with nothing queued, and no other UDP socket is. */
  ghost predicate OnlySocket(s: Vfs, head: nat, tail: nat) {
    && Sane(s) && s.fds[3] == Desc(InetSocket, 0, 0) && s.inet[0].used && s.inet[0].count == 0
    && s.inet[0].head == head && s.inet[0].tail == tail
    && forall i :: 0 < i < POOL ==> !s.inet[i].used
  }

  lemma OpenFirst()
    ensures OnlySocket(Do(Boot(), SocketCall(2, 2, 0)).0, 0, 0)
  {
    assert FirstEmpty(Boot().fds, 3) == 3 && FirstFree(InetUse(Boot())) == 0;
  }

  /** It has been sent one datagram since. */
  ghost predicate OneUnread(s: Vfs, data: seq<byte>) {
    && Sane(s) && s.fds[3] == Desc(InetSocket, 0, 0) && s.inet[0].used && s.inet[0].head == 0 && s.inet[0].tail == 1
    && (forall i :: 0 < i < POOL ==> !s.inet[i].used) && HeadOf(s.inet[0]).data == data
  }

  lemma SendToItself(s: Vfs, to: Option<seq<byte>>, data: seq<byte>)
    requires OnlySocket(s, 0, 0) && |data| <= DATAGRAM_SIZE && ParseInet(to).Good?
    ensures OneUnread(SendTo(Bind(s, 3, to).0, 3, data, to).0, data)
  {
    var u, ip, port := Bind(s, 3, to).0, ParseInet(to).ip, ParseInet(to).port;
    assert u.inet == s.inet[0 := s.inet[0].(address := ip, port := port)];
    assert Matches(u.inet[0], ip, port);
    assert Destination(u.inet, ip, port) == 0;
  }

  lemma Reopen(s: Vfs, stale: seq<byte>)
    requires OneUnread(s, stale)
    ensures var t := MakeSocket(Close(s, 3).0, 2, 2, 0).0; OnlySocket(t, 0, 1) && HeadOf(t.inet[0]).data == stale
  {
    var s1 := Close(s, 3).0;
    assert FirstEmpty(s1.fds, 3) == 3;
    assert !InetUse(s1)[0];
    assert FirstFree(InetUse(s1)) == 0;
  }

  function StaleRun(to: Option<seq<byte>>, first: seq<byte>): seq<Syscall> {
    [SocketCall(2, 2, 0)] + ([BindCall(3, to), SendToCall(3, first, to)] + [CloseCall(3), SocketCall(2, 2, 0)])
  }

  lemma BindThenSendTo(s: Vfs, to: Option<seq<byte>>, data: seq<byte>)
    requires Sane(s)
    ensures Run(s, [BindCall(3, to), SendToCall(3, data, to)]) == SendTo(Bind(s, 3, to).0, 3, data, to).0
  {
    DoBind(s, 3, to);
    DoSendTo(Bind(s, 3, to).0, 3, data, to);
    RunTwo(s, BindCall(3, to), SendToCall(3, data, to));
  }

  lemma DoBind(s: Vfs, fd: int, to: Option<seq<byte>>)
    requires Sane(s)
    ensures Do(s, BindCall(fd, to)).0 == Bind(s, fd, to).0
  {
  }

  lemma DoSendTo(s: Vfs, fd: int, data: seq<byte>, to: Option<seq<byte>>)
    requires Sane(s)
    ensures Do(s, SendToCall(fd, data, to)).0 == SendTo(s, fd, data, to).0
  {
  }

  lemma FirstOwner(s: Vfs, to: Option<seq<byte>>, first: seq<byte>)
    requires OnlySocket(s, 0, 0) && ParseInet(to).Good? && |first| <= DATAGRAM_SIZE
    ensures OneUnread(Run(s, [BindCall(3, to), SendToCall(3, first, to)]), first)
  {
    SendToItself(s, to, first);
    BindThenSendTo(s, to, first);
  }

  lemma SecondOwner(s: Vfs, first: seq<byte>)
    requires OneUnread(s, first)
    ensures var t := Run(s, [CloseCall(3), SocketCall(2, 2, 0)]); OnlySocket(t, 0, 1) && HeadOf(t.inet[0]).data == first
  {
    Reopen(s, first);
    RunTwo(s, CloseCall(3), SocketCall(2, 2, 0));
  }

  /** From boot, for every address and all data: when a socket is closed with the datagram `first` unread,
    * the next owner of the slot binds, sends itself `second`, and reads `first`. */
  lemma StaleDatagram(to: Option<seq<byte>>, first: seq<byte>, second: seq<byte>)
    requires ParseInet(to).Good? && |first| <= DATAGRAM_SIZE && |second| <= DATAGRAM_SIZE
    ensures var t := Run(Boot(), StaleRun(to, first));
      IsKind(t, 3, InetSocket) && Echoed(t, 3, to, second) == first
  {
    var s := Do(Boot(), SocketCall(2, 2, 0)).0;
    var send, reopen := [BindCall(3, to), SendToCall(3, first, to)], [CloseCall(3), SocketCall(2, 2, 0)];
    OpenFirst();
    FirstOwner(s, to, first);
    SecondOwner(Run(s, send), first);
    RunConcat(s, send, reopen);
    RunCons(Boot(), SocketCall(2, 2, 0), send + reopen);
    EchoedIs(Run(Boot(), StaleRun(to, first)), 3, 0, to, second);
    assert first[..|first|] == first;
  }

  /** A UDP socket is closed only when its queue is empty or full. */
  predicate ClosesDrained(s: Vfs, c: Syscall)
    requires |s.inet| == POOL
  {
    c.CloseCall? && IsKind(s, c.fd, InetSocket) && s.fds[c.fd].target < POOL ==>
      s.inet[s.fds[c.fd].target].count in {0, DATAGRAMS}
  }

  /** Open sockets are aligned, and closed ones would be if opened. */
  ghost predicate AllAligned(s: Vfs) {
    Sane(s) && forall i :: 0 <= i < POOL ==> if s.inet[i].used then Aligned(s.inet[i]) else s.inet[i].head == s.inet[i].tail
  }

  /** No slot is opened or closed, and no queue moves. */
  ghost predicate SlotsKept(s: Vfs, s': Vfs)
    requires Sane(s) && Sane(s')
  {
    forall i :: 0 <= i < POOL ==>
      && s'.inet[i].used == s.inet[i].used && s'.inet[i].head == s.inet[i].head
      && s'.inet[i].tail == s.inet[i].tail && s'.inet[i].count == s.inet[i].count
  }

  lemma SlotsUntouched(s: Vfs, c: Syscall)
    requires Sane(s) && LeavesGrams(s, c) && !c.CloseCall?
    ensures SlotsKept(s, Do(s, c).0)
  {
  }

  lemma SentAligned(t: Vfs, source: nat, data: seq<byte>, address: nat, port: nat)
    requires AllAligned(t) && source < POOL
    ensures AllAligned(InetSend(t, source, data, address, port).0)
  {
    var i := Destination(t.inet, address, port);
    if i < POOL && t.inet[i].count < DATAGRAMS {
      EnqueueAppends(t.inet[i], Stamp(t.inet[source], data));
    }
  }

  lemma ReceivedAligned(s: Vfs, fd: int, n: nat, buffer: Option<seq<byte>>)
    requires AllAligned(s) && IsKind(s, fd, InetSocket) && s.inet[s.fds[fd].target].used
    ensures AllAligned(RecvFrom(s, fd, n, buffer).0)
  {
    var i := s.inet[s.fds[fd].target];
    if i.count > 0 {
      DequeueRemoves(i);
    }
  }

  lemma ClosedAligned(s: Vfs, fd: int)
    requires AllAligned(s) && ClosesDrained(s, CloseCall(fd))
    requires IsKind(s, fd, InetSocket) ==> s.inet[s.fds[fd].target].used
    ensures AllAligned(Close(s, fd).0)
  {
  }

  lemma SocketAligned(s: Vfs, domain: int, kind: int, protocol: int)
    requires AllAligned(s)
    ensures AllAligned(MakeSocket(s, domain, kind, protocol).0)
  {
  }

  lemma SendCallAligned(s: Vfs, fd: int, data: seq<byte>, address: Option<seq<byte>>)
    requires AllAligned(s) && IsKind(s, fd, InetSocket)
    ensures AllAligned(Send(s, fd, data).0) && AllAligned(SendTo(s, fd, data, address).0)
  {
    var i := s.fds[fd].target;
    SentAligned(s, i, data, s.inet[i].peerAddress, s.inet[i].peerPort);
    var t := WithPort(s, i, fd);
    if ParseInet(address).Good? {
      SentAligned(t, i, data, ParseInet(address).ip, ParseInet(address).port);
    }
  }

  lemma QuietAligned(s: Vfs, c: Syscall)
    requires AllAligned(s) && LeavesGrams(s, c) && !c.CloseCall?
    ensures AllAligned(Do(s, c).0)
  {
    SlotsUntouched(s, c);
  }

  lemma RecvCallAligned(s: Vfs, fd: int, n: nat, buffer: Option<seq<byte>>)
    requires Inv(s) && AllAligned(s) && IsKind(s, fd, InetSocket)
    ensures AllAligned(RecvFrom(s, fd, n, buffer).0)
  {
    SocketOf(s, fd);
    ReceivedAligned(s, fd, n, buffer);
  }

  lemma CloseCallAligned(s: Vfs, fd: int)
    requires Inv(s) && AllAligned(s) && ClosesDrained(s, CloseCall(fd))
    ensures AllAligned(Close(s, fd).0)
  {
    if IsKind(s, fd, InetSocket) {
      SocketOf(s, fd);
    }
    ClosedAligned(s, fd);
  }

  lemma StepAligned(s: Vfs, c: Syscall)
    requires Inv(s) && AllAligned(s) && ClosesDrained(s, c)
    ensures AllAligned(Do(s, c).0)
  {
    if !c.CloseCall? && LeavesGrams(s, c) {
      QuietAligned(s, c);
    } else {
      match c {
        case CloseCall(fd) => CloseCallAligned(s, fd);
        case SocketCall(domain, kind, protocol) => SocketAligned(s, domain, kind, protocol);
        case SendCall(fd, data) => SendCallAligned(s, fd, data, None);
        case WriteCall(fd, data, _) => SendCallAligned(s, fd, data, None);
        case SendToCall(fd, data, address) => SendCallAligned(s, fd, data, address);
        case RecvCall(fd, n) => RecvCallAligned(s, fd, n, None);
        case ReadCall(fd, n, _) => RecvCallAligned(s, fd, n, None);
        case RecvFromCall(fd, n, buffer) => RecvCallAligned(s, fd, n, buffer);
      }
    }
  }

  lemma UndrainedCloseUnaligns(s: Vfs, fd: int)
    requires Inv(s) && AllAligned(s) && !ClosesDrained(s, CloseCall(fd))
    ensures !AllAligned(Close(s, fd).0)
  {
    SocketOf(s, fd);
    var i := s.fds[fd].target;
    PlacesApart(s.inet[i].head, 0, s.inet[i].count);
    assert !Close(s, fd).0.inet[i].used;
  }

  /** A call keeps every socket aligned, the open ones and those that will be opened, if and only if it
    * does not close a UDP socket whose queue is neither empty nor full. */
  lemma StepAlignedExactly(s: Vfs, c: Syscall)
    requires Inv(s) && AllAligned(s)
    ensures AllAligned(Do(s, c).0) <==> ClosesDrained(s, c)
  {
    if ClosesDrained(s, c) {
      StepAligned(s, c);
    } else {
      UndrainedCloseUnaligns(s, c.fd);
    }
  }

  ghost predicate ClosesDrainedRun(s: Vfs, cs: seq<Syscall>)
    requires Sane(s)
    decreases |cs|
  {
    cs == [] || (ClosesDrained(s, cs[0]) && ClosesDrainedRun(Do(s, cs[0]).0, cs[1..]))
  }

  /** Every state the run goes through is aligned. */
  ghost predicate AlignedThroughout(s: Vfs, cs: seq<Syscall>)
    requires Sane(s)
    decreases |cs|
  {
    AllAligned(s) && (cs == [] || AlignedThroughout(Do(s, cs[0]).0, cs[1..]))
  }

  lemma {:induction false} RunAlignedExactly(s: Vfs, cs: seq<Syscall>)
    requires Inv(s) && AllAligned(s)
    ensures AlignedThroughout(s, cs) <==> ClosesDrainedRun(s, cs)
    decreases |cs|
  {
    if cs != [] {
      StepAlignedExactly(s, cs[0]);
      StepInv(s, cs[0]);
      if ClosesDrained(s, cs[0]) {
        RunAlignedExactly(Do(s, cs[0]).0, cs[1..]);
      }
    }
  }

  /** In a run from boot that closes UDP sockets only with their queue empty or full, every open socket
    * is a FIFO queue of whole datagrams, at most eight of them. */
  lemma DrainedRunsAreFifo(cs: seq<Syscall>, i: nat)
    requires ClosesDrainedRun(Boot(), cs) && i < POOL
    ensures var t, f := Run(Boot(), cs), UdpHistory(Boot(), cs, NoFlow());
      t.inet[i].used ==> Aligned(t.inet[i]) && f.into[i] == f.out[i] + Queue(t.inet[i]) && |Queue(t.inet[i])| <= DATAGRAMS
  {
    BootInv();
    BootUdpFlow();
    RunAligned(Boot(), cs);
    UdpQueuesAreFifo(Boot(), cs, NoFlow());
  }

  lemma {:induction false} RunAligned(s: Vfs, cs: seq<Syscall>)
    requires Inv(s) && AllAligned(s) && ClosesDrainedRun(s, cs)
    ensures AllAligned(Run(s, cs))
    decreases |cs|
  {
    if cs != [] {
      StepAligned(s, cs[0]);
      StepInv(s, cs[0]);
      RunAligned(Do(s, cs[0]).0, cs[1..]);
    }
  }
}
