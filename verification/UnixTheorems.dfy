/** Unix connections: what accept establishes, and what travels over it. */
module UnixTheorems {
  import opened Prelude
  import opened RingBuffer
  import opened VfsSpec
  import opened VfsRuns
  import opened DescriptorTheorems
  import opened FlowTheorems

  // ----- The handshake

  /** Two descriptors on two distinct open sockets, connected to each other. */
  ghost predicate Linked(s: Vfs, x: int, y: int) {
    && Sane(s) && IsKind(s, x, UnixSocket) && IsKind(s, y, UnixSocket)
    && var a, b := s.fds[x].target, s.fds[y].target;
    && a != b
    && s.unix[a].used && s.unix[a].connected && s.unix[a].peer == b
    && s.unix[b].used && s.unix[b].connected && s.unix[b].peer == a
  }

  /** When accept returns a descriptor and the pending client is still connected, the client and the
    * accepted socket are linked. */
  lemma AcceptLinks(s: Vfs, fd: int)
    requires Inv(s) && IsKind(s, fd, UnixSocket) && Accept(s, fd).1 >= 0
    requires var cfd := s.unix[s.fds[fd].target].pending;
      IsKind(s, cfd, UnixSocket) ==> s.unix[s.fds[cfd].target].connected
    ensures var cfd := s.unix[s.fds[fd].target].pending;
      var (s', afd) := Accept(s, fd);
      IsKind(s, cfd, UnixSocket) && Linked(s', cfd, afd) && s'.fds[cfd] == s.fds[cfd] && s.fds[afd].kind == Empty
  {
    var v := s.fds[fd].target;
    var cfd := s.unix[v].pending;
    var s1 := s.(unix := s.unix[v := s.unix[v].(pending := NO_SOCKET)]);
    var c, a := s.fds[cfd].target, FirstFree(UnixUse(s1));
    assert Names(s.fds, UnixSocket, c);
    assert UnixUse(s1)[c];
    assert a != c;
  }

  // ----- Traffic

  /** Calls that open, close or redirect no connection. */
  predicate Quiet(c: Syscall) {
    !c.ConnectCall? && !c.AcceptCall? && !c.CloseCall?
  }

  /** What descriptor `x` sends goes into the queue that descriptor `y` reads. */
  ghost predicate Points(s: Vfs, x: int, y: int) {
    && Inv(s) && IsKind(s, x, UnixSocket) && IsKind(s, y, UnixSocket)
    && s.unix[s.fds[x].target].peer == s.fds[y].target && RingValid(s.unix[s.fds[y].target].ring)
  }

  /** No descriptor but `x` points at socket `b` as its peer. */
  ghost predicate SolePeer(s: Vfs, x: int, b: nat)
    requires Sane(s)
  {
    forall f :: 0 <= f < MAX_FD && s.fds[f].kind == UnixSocket && f != x ==> s.unix[s.fds[f].target].peer != b
  }

  /** The bytes a call puts in on descriptor `x`, and takes out on descriptor `y`. */
  ghost function SentBy(s: Vfs, c: Syscall, x: int): seq<byte>
    requires Sane(s)
  {
    var ret := Do(s, c).1.ret;
    match c
    case SendCall(fd, data) => if fd == x && 0 <= ret <= |data| then data[..ret] else []
    case WriteCall(fd, data, _) => if fd == x && 0 <= ret <= |data| then data[..ret] else []
    case _ => []
  }

  ghost function ReadBy(s: Vfs, c: Syscall, y: int): seq<byte>
    requires Sane(s)
  {
    match c
    case RecvCall(fd, _) => if fd == y then Do(s, c).1.bytes else []
    case ReadCall(fd, _, _) => if fd == y then Do(s, c).1.bytes else []
    case _ => []
  }

  ghost function QueueAt(s: Vfs, y: int): seq<byte>
    requires Sane(s) && IsKind(s, y, UnixSocket) && RingValid(s.unix[s.fds[y].target].ring)
  {
    Pending(s.unix[s.fds[y].target].ring)
  }

  // ----- Bytes with the descriptor they were sent on

  datatype Tagged = Tagged(fd: int, value: byte)

  function Tag(fd: int, bytes: seq<byte>): (ts: seq<Tagged>)
    ensures |ts| == |bytes|
  {
    seq(|bytes|, i requires 0 <= i < |bytes| => Tagged(fd, bytes[i]))
  }

  function Values(ts: seq<Tagged>): (bytes: seq<byte>)
    ensures |bytes| == |ts|
  {
    seq(|ts|, i requires 0 <= i < |ts| => ts[i].value)
  }

  /** Those sent on `x`, in order. */
  function From(ts: seq<Tagged>, x: int): seq<byte> {
    if ts == [] then [] else FirstFrom(ts, x) + From(ts[1..], x)
  }

  function FirstFrom(ts: seq<Tagged>, x: int): seq<byte>
    requires ts != []
  {
    if ts[0].fd == x then [ts[0].value] else []
  }

  lemma {:induction false} FromConcat(a: seq<Tagged>, b: seq<Tagged>, x: int)
    ensures From(a + b, x) == From(a, x) + From(b, x)
    decreases |a|
  {
    if a == [] {
      assert a + b == b;
    } else {
      var rest := a[1..] + b;
      assert (a + b)[1..] == rest && (a + b)[0] == a[0];
      FromConcat(a[1..], b, x);
      assert From(a + b, x) == FirstFrom(a, x) + From(rest, x);
      assert From(a, x) == FirstFrom(a, x) + From(a[1..], x);
    }
  }

  lemma {:induction false} FromTagged(ts: seq<Tagged>, fd: int, x: int)
    requires forall i :: 0 <= i < |ts| ==> ts[i].fd == fd
    ensures From(ts, x) == if fd == x then Values(ts) else []
    decreases |ts|
  {
    if ts != [] {
      FromTagged(ts[1..], fd, x);
      assert Values(ts) == [ts[0].value] + Values(ts[1..]);
    }
  }

  lemma TagValues(fd: int, bytes: seq<byte>, x: int)
    ensures Values(Tag(fd, bytes)) == bytes && From(Tag(fd, bytes), x) == if fd == x then bytes else []
  {
    FromTagged(Tag(fd, bytes), fd, x);
  }

  lemma ValuesConcat(a: seq<Tagged>, b: seq<Tagged>)
    ensures Values(a + b) == Values(a) + Values(b)
  {
  }

  /** The bytes a call puts into the queue of socket `b`, whoever sends them. */
  ghost function Arrived(s: Vfs, c: Syscall, b: nat): seq<Tagged>
    requires Sane(s)
  {
    match c
    case SendCall(fd, data) => ArrivedOn(s, fd, data, Do(s, c).1.ret, b)
    case WriteCall(fd, data, _) => ArrivedOn(s, fd, data, Do(s, c).1.ret, b)
    case _ => []
  }

  ghost function ArrivedOn(s: Vfs, fd: int, data: seq<byte>, ret: int, b: nat): seq<Tagged>
    requires Sane(s)
  {
    if IsKind(s, fd, UnixSocket) && s.unix[s.fds[fd].target].peer == b && 0 <= ret <= |data| then Tag(fd, data[..ret]) else []
  }

  lemma TargetUsed(s: Vfs, f: int)
    requires Inv(s) && IsKind(s, f, UnixSocket)
    ensures s.unix[s.fds[f].target].used
  {
    assert Names(s.fds, UnixSocket, s.fds[f].target);
  }

  /** Nothing about who points where has changed, and no new socket points anywhere. */
  ghost predicate LinksStay(s: Vfs, s': Vfs, x: int, y: int)
    requires Points(s, x, y)
  {
    && Points(s', x, y) && s'.fds[y].target == s.fds[y].target
    && s'.unix[s.fds[y].target].connected == s.unix[s.fds[y].target].connected
    && (SolePeer(s, x, s.fds[y].target) ==> SolePeer(s', x, s.fds[y].target))
  }

  /** One send on any unix socket. */
  lemma SendStep(s: Vfs, fd: int, data: seq<byte>, x: int, y: int)
    requires Points(s, x, y) && IsKind(s, fd, UnixSocket)
    ensures var (s', n) := Send(s, fd, data);
      && LinksStay(s, s', x, y)
      && var ts := ArrivedOn(s, fd, data, n, s.fds[y].target);
      && QueueAt(s', y) == QueueAt(s, y) + Values(ts)
      && From(ts, x) == if fd == x && 0 <= n <= |data| then data[..n] else []
  {
    var b, peer := s.fds[y].target, s.unix[s.fds[fd].target].peer;
    TargetUsed(s, y);
    SendShape(s, fd, data);
    SameShapeInv(s, Send(s, fd, data).0);
    if peer == b {
      PutAppends(s.unix[b].ring, data);
      var n := Send(s, fd, data).1;
      if n >= 0 {
        TagValues(fd, data[..n], x);
      }
    }
  }

  /** One receive on any unix socket. */
  lemma RecvStep(s: Vfs, fd: int, n: nat, x: int, y: int)
    requires Points(s, x, y) && IsKind(s, fd, UnixSocket)
    ensures var (s', _, bytes) := Recv(s, fd, n);
      && LinksStay(s, s', x, y)
      && QueueAt(s, y) == (if fd == y then bytes else []) + QueueAt(s', y)
  {
    RecvShape(s, fd, n, None);
    SameShapeInv(s, Recv(s, fd, n).0);
    if fd == y {
      TakeRemoves(s.unix[s.fds[y].target].ring, n);
    }
  }

  /** Calls other than sending and receiving on unix sockets. */
  predicate Elsewhere(s: Vfs, c: Syscall) {
    match c
    case SendCall(fd, _) => !IsKind(s, fd, UnixSocket)
    case WriteCall(fd, _, _) => !IsKind(s, fd, UnixSocket)
    case RecvCall(fd, _) => !IsKind(s, fd, UnixSocket)
    case ReadCall(fd, _, _) => !IsKind(s, fd, UnixSocket)
    case _ => Quiet(c)
  }

  /** They leave open unix sockets alone, except for names and listening, and make new ones without a
    * peer. */
  ghost predicate LinksKept(s: Vfs, s': Vfs)
    requires Sane(s) && Sane(s')
  {
    && (forall u :: 0 <= u < POOL && s.unix[u].used ==>
          s'.unix[u] == s.unix[u].(path := s'.unix[u].path, listening := s'.unix[u].listening))
    && (forall f :: 0 <= f < MAX_FD && s.fds[f].kind == UnixSocket ==> s'.fds[f] == s.fds[f])
    && (forall f :: 0 <= f < MAX_FD && s'.fds[f].kind == UnixSocket && s.fds[f].kind != UnixSocket ==>
          s'.fds[f].target < POOL && s'.unix[s'.fds[f].target].peer == NO_SOCKET)
  }

  lemma TableCallsKeepLinks(s: Vfs, c: Syscall)
    requires Sane(s) && (c.BindCall? || c.ListenCall?)
    ensures LinksKept(s, Do(s, c).0)
  {
  }

  lemma SocketKeepsLinks(s: Vfs, domain: int, kind: int, protocol: int)
    requires Sane(s)
    ensures LinksKept(s, MakeSocket(s, domain, kind, protocol).0)
  {
  }

  lemma OpenKeepsLinks(s: Vfs, node: nat, result: int)
    requires Sane(s)
    ensures LinksKept(s, Open(s, node, result).0)
  {
  }

  lemma PipeKeepsLinks(s: Vfs)
    requires Sane(s)
    ensures LinksKept(s, MakePipe(s).0)
  {
  }

  lemma SendToKeepsLinks(s: Vfs, fd: int, data: seq<byte>, address: Option<seq<byte>>)
    requires Sane(s)
    ensures SendTo(s, fd, data, address).0.unix == s.unix && SendTo(s, fd, data, address).0.fds == s.fds
  {
  }

  lemma SendKeepsLinks(s: Vfs, fd: int, data: seq<byte>)
    requires Sane(s) && !IsKind(s, fd, UnixSocket)
    ensures Send(s, fd, data).0.unix == s.unix && Send(s, fd, data).0.fds == s.fds
  {
  }

  lemma RecvKeepsLinks(s: Vfs, fd: int, n: nat, buffer: Option<seq<byte>>)
    requires Sane(s)
    ensures RecvFrom(s, fd, n, buffer).0.unix == s.unix && RecvFrom(s, fd, n, buffer).0.fds == s.fds
  {
  }

  lemma FileKeepsLinks(s: Vfs, fd: int, n: nat, data: seq<byte>, file: int)
    requires Sane(s) && !IsKind(s, fd, UnixSocket) && !IsKind(s, fd, InetSocket)
    ensures LinksKept(s, Read(s, fd, n, file).0) && LinksKept(s, Write(s, fd, data, _ => file).0)
  {
  }

  lemma OthersKeepLinks(s: Vfs, c: Syscall)
    requires Sane(s) && Elsewhere(s, c) && Quiet(c) && !c.BindCall? && !c.ListenCall? && !c.SocketCall?
    ensures LinksKept(s, Do(s, c).0)
  {
    match c {
      case OpenCall(node, result) => OpenKeepsLinks(s, node, result);
      case PipeCall => PipeKeepsLinks(s);
      case SendToCall(fd, data, address) => SendToKeepsLinks(s, fd, data, address);
      case RecvFromCall(fd, n, buffer) => RecvKeepsLinks(s, fd, n, buffer);
      case SendCall(fd, data) => SendKeepsLinks(s, fd, data);
      case RecvCall(fd, n) => RecvKeepsLinks(s, fd, n, None);
      case WriteCall(fd, data, file) =>
        if IsKind(s, fd, InetSocket) { SendKeepsLinks(s, fd, data); } else { FileKeepsLinks(s, fd, 0, data, file); }
      case ReadCall(fd, n, file) =>
        if IsKind(s, fd, InetSocket) { RecvKeepsLinks(s, fd, n, None); } else { FileKeepsLinks(s, fd, n, [], file); }
    }
  }

  lemma ElsewhereStep(s: Vfs, c: Syscall, x: int, y: int)
    requires Points(s, x, y) && Elsewhere(s, c) && Quiet(c)
    ensures LinksStay(s, Do(s, c).0, x, y) && QueueAt(Do(s, c).0, y) == QueueAt(s, y)
  {
    var s' := Do(s, c).0;
    StepInv(s, c);
    match c {
      case BindCall(_, _) => TableCallsKeepLinks(s, c);
      case ListenCall(_) => TableCallsKeepLinks(s, c);
      case SocketCall(domain, kind, protocol) => SocketKeepsLinks(s, domain, kind, protocol);
      case _ => OthersKeepLinks(s, c);
    }
    PointsKept(s, s', x, y);
  }

  lemma PointsKept(s: Vfs, s': Vfs, x: int, y: int)
    requires Points(s, x, y) && Inv(s') && LinksKept(s, s')
    ensures LinksStay(s, s', x, y) && QueueAt(s', y) == QueueAt(s, y)
  {
    TargetUsed(s, x);
    TargetUsed(s, y);
    if SolePeer(s, x, s.fds[y].target) {
      forall f | 0 <= f < MAX_FD && s'.fds[f].kind == UnixSocket && f != x
        ensures s'.unix[s'.fds[f].target].peer != s.fds[y].target
      {
        if s.fds[f].kind == UnixSocket {
          TargetUsed(s, f);
        }
      }
    }
  }

  lemma NothingArrives(s: Vfs, c: Syscall, x: int, y: int)
    requires Points(s, x, y) && Elsewhere(s, c)
    ensures Arrived(s, c, s.fds[y].target) == [] && SentBy(s, c, x) == [] && ReadBy(s, c, y) == []
  {
  }

  /** The call moves the queue of `y` on by the bytes it puts in, from whatever descriptor, and the bytes
    * it takes out; those put in on `x` are the ones `x` sent. */
  ghost predicate Streamed(s: Vfs, c: Syscall, x: int, y: int)
    requires Points(s, x, y)
  {
    var s', ts := Do(s, c).0, Arrived(s, c, s.fds[y].target);
    && LinksStay(s, s', x, y)
    && QueueAt(s, y) + Values(ts) == ReadBy(s, c, y) + QueueAt(s', y)
    && From(ts, x) == SentBy(s, c, x)
  }

  lemma DoSend(s: Vfs, c: Syscall)
    requires Sane(s) && (c.SendCall? || c.WriteCall?) && IsKind(s, c.fd, UnixSocket)
    ensures Do(s, c).0 == Send(s, c.fd, c.data).0 && Do(s, c).1.ret == Send(s, c.fd, c.data).1
  {
  }

  lemma DoRecv(s: Vfs, c: Syscall)
    requires Sane(s) && (c.RecvCall? || c.ReadCall?) && IsKind(s, c.fd, UnixSocket)
    ensures Do(s, c).0 == Recv(s, c.fd, c.n).0 && Do(s, c).1.bytes == Recv(s, c.fd, c.n).2
  {
  }

  lemma SendLinks(s: Vfs, c: Syscall, x: int, y: int)
    requires Points(s, x, y) && (c.SendCall? || c.WriteCall?) && IsKind(s, c.fd, UnixSocket)
    ensures LinksStay(s, Do(s, c).0, x, y)
  {
    DoSend(s, c);
    SendStep(s, c.fd, c.data, x, y);
  }

  lemma SendAdds(s: Vfs, c: Syscall, x: int, y: int)
    requires Points(s, x, y) && (c.SendCall? || c.WriteCall?) && IsKind(s, c.fd, UnixSocket)
    requires Points(Do(s, c).0, x, y)
    ensures var ts := Arrived(s, c, s.fds[y].target);
      QueueAt(Do(s, c).0, y) == QueueAt(s, y) + Values(ts) && From(ts, x) == SentBy(s, c, x) && ReadBy(s, c, y) == []
  {
    DoSend(s, c);
    SendStep(s, c.fd, c.data, x, y);
    SendCounts(s, c, x, y, s.fds[y].target);
  }

  lemma SendStreams(s: Vfs, c: Syscall, x: int, y: int)
    requires Points(s, x, y) && (c.SendCall? || c.WriteCall?) && IsKind(s, c.fd, UnixSocket)
    ensures Streamed(s, c, x, y)
  {
    SendLinks(s, c, x, y);
    SendAdds(s, c, x, y);
  }

  lemma SendCounts(s: Vfs, c: Syscall, x: int, y: int, b: nat)
    requires Sane(s) && (c.SendCall? || c.WriteCall?) && IsKind(s, c.fd, UnixSocket)
    ensures var n := Do(s, c).1.ret;
      && ReadBy(s, c, y) == [] && Arrived(s, c, b) == ArrivedOn(s, c.fd, c.data, n, b)
      && SentBy(s, c, x) == if c.fd == x && 0 <= n <= |c.data| then c.data[..n] else []
  {
  }

  lemma RecvStreams(s: Vfs, c: Syscall, x: int, y: int)
    requires Points(s, x, y) && (c.RecvCall? || c.ReadCall?) && IsKind(s, c.fd, UnixSocket)
    ensures Streamed(s, c, x, y)
  {
    DoRecv(s, c);
    RecvStep(s, c.fd, c.n, x, y);
    assert Arrived(s, c, s.fds[y].target) == [] && SentBy(s, c, x) == [];
  }

  lemma StreamStep(s: Vfs, c: Syscall, x: int, y: int)
    requires Points(s, x, y) && Quiet(c)
    ensures Streamed(s, c, x, y)
  {
    if Elsewhere(s, c) {
      ElsewhereStep(s, c, x, y);
      NothingArrives(s, c, x, y);
    } else if c.SendCall? || c.WriteCall? {
      SendStreams(s, c, x, y);
    } else {
      RecvStreams(s, c, x, y);
    }
  }

  // ----- Runs

  predicate AllQuiet(cs: seq<Syscall>) {
    forall i :: 0 <= i < |cs| ==> Quiet(cs[i])
  }

  ghost function AllSent(s: Vfs, cs: seq<Syscall>, x: int): seq<byte>
    requires Sane(s)
    decreases |cs|
  {
    if cs == [] then [] else SentBy(s, cs[0], x) + AllSent(Do(s, cs[0]).0, cs[1..], x)
  }

  ghost function AllRead(s: Vfs, cs: seq<Syscall>, y: int): seq<byte>
    requires Sane(s)
    decreases |cs|
  {
    if cs == [] then [] else ReadBy(s, cs[0], y) + AllRead(Do(s, cs[0]).0, cs[1..], y)
  }

  ghost function AllArrived(s: Vfs, cs: seq<Syscall>, b: nat): seq<Tagged>
    requires Sane(s)
    decreases |cs|
  {
    if cs == [] then [] else Arrived(s, cs[0], b) + AllArrived(Do(s, cs[0]).0, cs[1..], b)
  }

  lemma Chain(q: seq<byte>, a: seq<byte>, rest: seq<byte>, r: seq<byte>, q': seq<byte>, more: seq<byte>, end: seq<byte>)
    requires q + a == r + q' && q' + rest == more + end
    ensures q + (a + rest) == (r + more) + end
  {
    assert q + (a + rest) == (q + a) + rest == r + (q' + rest) == (r + more) + end;
  }

  /** Over any run without connect, accept or close, and whoever else points at the queue: what was
    * queued at the start, followed by all that arrived, is all that was read on `y`, followed by what is
    * still queued; and among the bytes that arrived, those of `x` are all it sent, in order. */
  lemma {:induction false} OrderKept(s: Vfs, cs: seq<Syscall>, x: int, y: int)
    requires Points(s, x, y) && AllQuiet(cs)
    ensures var t, ts := Run(s, cs), AllArrived(s, cs, s.fds[y].target);
      && LinksStay(s, t, x, y)
      && QueueAt(s, y) + Values(ts) == AllRead(s, cs, y) + QueueAt(t, y)
      && From(ts, x) == AllSent(s, cs, x)
    decreases |cs|
  {
    if cs != [] {
      var s', b := Do(s, cs[0]).0, s.fds[y].target;
      StreamStep(s, cs[0], x, y);
      OrderKept(s', cs[1..], x, y);
      var first, rest := Arrived(s, cs[0], b), AllArrived(s', cs[1..], b);
      ValuesConcat(first, rest);
      FromConcat(first, rest, x);
      Chain(QueueAt(s, y), Values(first), Values(rest), ReadBy(s, cs[0], y), QueueAt(s', y),
            AllRead(s', cs[1..], y), QueueAt(Run(s, cs), y));
    }
  }

  /** What was queued at the start, followed by all that `x` sent, is all that was read on `y`, followed
    * by what is still queued. */
  ghost predicate Delivers(s: Vfs, cs: seq<Syscall>, x: int, y: int) {
    && Points(s, x, y) && Points(Run(s, cs), x, y)
    && QueueAt(s, y) + AllSent(s, cs, x) == AllRead(s, cs, y) + QueueAt(Run(s, cs), y)
  }

  lemma ArrivedOnlyFrom(s: Vfs, c: Syscall, x: int, y: int)
    requires Points(s, x, y)
    requires SolePeer(s, x, s.fds[y].target) || !s.unix[s.fds[y].target].connected
    ensures forall i :: 0 <= i < |Arrived(s, c, s.fds[y].target)| ==> Arrived(s, c, s.fds[y].target)[i].fd == x
  {
    TargetUsed(s, y);
  }

  lemma {:induction false} AllArrivedOnlyFrom(s: Vfs, cs: seq<Syscall>, x: int, y: int)
    requires Points(s, x, y) && AllQuiet(cs)
    requires SolePeer(s, x, s.fds[y].target) || !s.unix[s.fds[y].target].connected
    ensures forall i :: 0 <= i < |AllArrived(s, cs, s.fds[y].target)| ==> AllArrived(s, cs, s.fds[y].target)[i].fd == x
    decreases |cs|
  {
    if cs != [] {
      ArrivedOnlyFrom(s, cs[0], x, y);
      StreamStep(s, cs[0], x, y);
      AllArrivedOnlyFrom(Do(s, cs[0]).0, cs[1..], x, y);
    }
  }

  lemma ChannelDelivers(s: Vfs, cs: seq<Syscall>, x: int, y: int)
    requires Points(s, x, y) && AllQuiet(cs)
    requires SolePeer(s, x, s.fds[y].target) || !s.unix[s.fds[y].target].connected
    ensures Delivers(s, cs, x, y)
  {
    OrderKept(s, cs, x, y);
    AllArrivedOnlyFrom(s, cs, x, y);
    FromTagged(AllArrived(s, cs, s.fds[y].target), x, x);
  }

  /** A third descriptor `f` that points at the queue can spoil the delivery in two calls. */
  lemma StrangerSpoils(s: Vfs, x: int, y: int, f: int)
    requires Points(s, x, y) && s.unix[s.fds[y].target].connected
    requires IsKind(s, f, UnixSocket) && f != x && s.unix[s.fds[f].target].peer == s.fds[y].target
    ensures !Delivers(s, [RecvCall(y, 1), SendCall(f, [0])], x, y)
  {
    var recv, send := RecvCall(y, 1), SendCall(f, [0]);
    var s1 := Recv(s, y, 1).0;
    DoRecv(s, recv);
    RoomAfterReading(s, x, y);
    DoSend(s1, send);
    StrangerSends(s1, x, y, f);
    TwoCalls(s, recv, send, x, y);
    assert SentBy(s, recv, x) == [] && SentBy(s1, send, x) == [];
    assert ReadBy(s, recv, y) == Recv(s, y, 1).2 && ReadBy(s1, send, y) == [];
  }

  lemma RoomAfterReading(s: Vfs, x: int, y: int)
    requires Points(s, x, y)
    ensures var (s1, _, bytes) := Recv(s, y, 1);
      && LinksStay(s, s1, x, y) && s1.fds == s.fds
      && (forall u :: 0 <= u < POOL ==> s1.unix[u].peer == s.unix[u].peer)
      && QueueAt(s, y) == bytes + QueueAt(s1, y) && |QueueAt(s1, y)| < RING_SIZE
  {
    RecvStep(s, y, 1, x, y);
    TakeRemoves(s.unix[s.fds[y].target].ring, 1);
  }

  lemma StrangerSends(s: Vfs, x: int, y: int, f: int)
    requires Points(s, x, y) && s.unix[s.fds[y].target].connected && |QueueAt(s, y)| < RING_SIZE
    requires IsKind(s, f, UnixSocket) && f != x && s.unix[s.fds[f].target].peer == s.fds[y].target
    ensures var s1 := Send(s, f, [0]).0; Points(s1, x, y) && |QueueAt(s1, y)| == |QueueAt(s, y)| + 1
  {
    TargetUsed(s, y);
    SendStep(s, f, [0], x, y);
    PutAppends(s.unix[s.fds[y].target].ring, [0]);
  }

  lemma TwoCalls(s: Vfs, c: Syscall, d: Syscall, x: int, y: int)
    requires Sane(s)
    ensures var s1 := Do(s, c).0;
      && Run(s, [c, d]) == Do(s1, d).0
      && AllSent(s, [c, d], x) == SentBy(s, c, x) + SentBy(s1, d, x)
      && AllRead(s, [c, d], y) == ReadBy(s, c, y) + ReadBy(s1, d, y)
  {
    var s1 := Do(s, c).0;
    RunTwo(s, c, d);
    assert [c, d][1..] == [d] && [d][1..] == [];
    assert AllSent(s1, [d], x) == SentBy(s1, d, x) + AllSent(Do(s1, d).0, [], x);
    assert AllRead(s1, [d], y) == ReadBy(s1, d, y) + AllRead(Do(s1, d).0, [], y);
  }

  /** Every run without connect, accept or close delivers exactly what `x` sends, in order, if and only
    * if no other descriptor points at the socket, or the socket is no longer connected and takes
    * nothing. */
  lemma DeliversExactly(s: Vfs, x: int, y: int)
    requires Points(s, x, y)
    ensures (forall cs | AllQuiet(cs) :: Delivers(s, cs, x, y)) <==>
      SolePeer(s, x, s.fds[y].target) || !s.unix[s.fds[y].target].connected
  {
    var b := s.fds[y].target;
    if SolePeer(s, x, b) || !s.unix[b].connected {
      forall cs | AllQuiet(cs) ensures Delivers(s, cs, x, y) {
        ChannelDelivers(s, cs, x, y);
      }
    } else {
      var f :| 0 <= f < MAX_FD && s.fds[f].kind == UnixSocket && f != x && s.unix[s.fds[f].target].peer == b;
      StrangerSpoils(s, x, y, f);
      assert AllQuiet([RecvCall(y, 1), SendCall(f, [0])]);
    }
  }

  // ----- The conversation after a handshake

  ghost predicate RingsValid(s: Vfs)
    requires Sane(s)
  {
    forall u :: 0 <= u < POOL ==> RingValid(s.unix[u].ring)
  }

  /** Every state a run can reach qualifies for what follows. */
  lemma ReachedFromBoot(cs: seq<Syscall>)
    ensures Inv(Run(Boot(), cs)) && RingsValid(Run(Boot(), cs))
  {
    BootInv();
    RunInv(Boot(), cs);
    UnixFromBoot(cs);
  }

  /** Before accept: no descriptor but the client points at the slot accept will take, which is the first
    * free one, or at the client's own. */
  ghost predicate NobodyElsePoints(s: Vfs, cfd: nat)
    requires Sane(s) && IsKind(s, cfd, UnixSocket)
  {
    forall f :: 0 <= f < MAX_FD && s.fds[f].kind == UnixSocket && f != cfd ==>
      s.unix[s.fds[f].target].peer != FirstFree(UnixUse(s)) && s.unix[s.fds[f].target].peer != s.fds[cfd].target
  }

  /** The accepting side of a handshake: accept will succeed, for a client that is still connected. */
  ghost predicate HandshakeReady(s: Vfs, fd: int, cfd: nat) {
    && Inv(s) && RingsValid(s) && IsKind(s, fd, UnixSocket) && Accept(s, fd).1 >= 0
    && cfd == s.unix[s.fds[fd].target].pending
    && IsKind(s, cfd, UnixSocket) && s.unix[s.fds[cfd].target].connected
  }

  lemma AcceptedSlots(s: Vfs, fd: int, cfd: nat)
    requires HandshakeReady(s, fd, cfd)
    ensures var (t, afd) := Accept(s, fd); var c, a := s.fds[cfd].target, FirstFree(UnixUse(s));
      && Linked(t, cfd, afd) && Inv(t) && RingsValid(t)
      && t.fds[cfd] == s.fds[cfd] && t.fds[afd].target == a && s.fds[afd].kind == Empty
      && (forall f :: 0 <= f < MAX_FD && f != afd ==> t.fds[f] == s.fds[f])
      && (forall u :: 0 <= u < POOL && u != a && u != c ==> t.unix[u].peer == s.unix[u].peer)
  {
    AcceptLinks(s, fd);
    AcceptInv(s, fd);
    AcceptRingsKept(s, fd);
    var v := s.fds[fd].target;
    assert UnixUse(s.(unix := s.unix[v := s.unix[v].(pending := NO_SOCKET)])) == UnixUse(s);
  }

  lemma PeersAfterAccept(s: Vfs, fd: int, cfd: nat)
    requires HandshakeReady(s, fd, cfd)
    ensures var (t, afd) := Accept(s, fd); var c, a := s.fds[cfd].target, FirstFree(UnixUse(s));
      Sane(t) && (SolePeer(t, cfd, a) && SolePeer(t, afd, c) <==> NobodyElsePoints(s, cfd))
  {
    AcceptedSlots(s, fd, cfd);
    var (t, afd) := Accept(s, fd);
    var c, a := s.fds[cfd].target, FirstFree(UnixUse(s));
    forall f | 0 <= f < MAX_FD && s.fds[f].kind == UnixSocket && f != cfd
      ensures t.fds[f] == s.fds[f] && t.unix[s.fds[f].target].peer == s.unix[s.fds[f].target].peer
    {
      TargetUsed(s, f);
      assert UnixUse(s)[s.fds[f].target];
    }
  }

  /** When accept returns a descriptor and the pending client is still connected, the two are linked; and
    * what is sent on either side comes out of the other, in order and after what was queued there, in
    * every run without connect, accept or close, if and only if nobody else points at either slot. */
  lemma AcceptedConversationExactly(s: Vfs, fd: int, cfd: nat)
    requires HandshakeReady(s, fd, cfd)
    ensures var (t, afd) := Accept(s, fd);
      && Linked(t, cfd, afd)
      && ((forall cs | AllQuiet(cs) :: Delivers(t, cs, cfd, afd) && Delivers(t, cs, afd, cfd)) <==> NobodyElsePoints(s, cfd))
  {
    var (t, afd) := Accept(s, fd);
    AcceptedSlots(s, fd, cfd);
    PeersAfterAccept(s, fd, cfd);
    DeliversExactly(t, cfd, afd);
    DeliversExactly(t, afd, cfd);
  }

  /** Whoever else points at them, the bytes of either side keep their order among all that the other
    * reads. */
  lemma AcceptedOrder(s: Vfs, fd: int, cfd: nat, cs: seq<Syscall>)
    requires HandshakeReady(s, fd, cfd) && AllQuiet(cs)
    ensures var (t, afd) := Accept(s, fd);
      && Linked(t, cfd, afd)
      && var a, c := t.fds[afd].target, t.fds[cfd].target;
      && Points(t, cfd, afd) && Points(t, afd, cfd) && Points(Run(t, cs), cfd, afd) && Points(Run(t, cs), afd, cfd)
      && QueueAt(t, afd) + Values(AllArrived(t, cs, a)) == AllRead(t, cs, afd) + QueueAt(Run(t, cs), afd)
      && QueueAt(t, cfd) + Values(AllArrived(t, cs, c)) == AllRead(t, cs, cfd) + QueueAt(Run(t, cs), cfd)
      && From(AllArrived(t, cs, a), cfd) == AllSent(t, cs, cfd)
      && From(AllArrived(t, cs, c), afd) == AllSent(t, cs, afd)
  {
    var (t, afd) := Accept(s, fd);
    AcceptedSlots(s, fd, cfd);
    OrderKept(t, cs, cfd, afd);
    OrderKept(t, cs, afd, cfd);
  }
}
