/** How descriptors and the objects they name stay matched in every run. */
module DescriptorTheorems {
  import opened Prelude
  import opened VfsSpec
  import opened VfsRuns

  // ----- The invariant

  /** Some descriptor of kind `k` names object `t`. */
  ghost predicate Names(fds: seq<Desc>, k: Kind, t: nat) {
    exists f :: 0 <= f < |fds| && fds[f].kind == k && fds[f].target == t
  }

  predicate ObjectKind(k: Kind) {
    k in {PipeRead, PipeWrite, UnixSocket, InetSocket}
  }

  /** At most one descriptor for each pipe end and each socket; 0 to 2 never name any. */
  ghost predicate OneEach(fds: seq<Desc>) {
    && (forall f, g | 0 <= f < |fds| && 0 <= g < |fds| && ObjectKind(fds[f].kind)
          :: fds[f].kind == fds[g].kind && fds[f].target == fds[g].target ==> f == g)
    && (forall f :: 0 <= f < |fds| && f < 3 ==> !ObjectKind(fds[f].kind))
  }

  function One(b: bool): nat {
    if b then 1 else 0
  }

  /** A pipe is in use exactly while some end is open, and counts its open ends. */
  ghost predicate PipesMatch(fds: seq<Desc>, pipes: seq<Pipe>) {
    forall p :: 0 <= p < |pipes| ==>
      && (pipes[p].used <==> Names(fds, PipeRead, p) || Names(fds, PipeWrite, p))
      && (pipes[p].used ==> pipes[p].readers == One(Names(fds, PipeRead, p)) && pipes[p].writers == One(Names(fds, PipeWrite, p)))
  }

  ghost predicate UnixMatch(fds: seq<Desc>, unix: seq<Unix>) {
    forall u :: 0 <= u < |unix| && Names(fds, UnixSocket, u) ==> unix[u].used
  }

  ghost predicate InetMatch(fds: seq<Desc>, inet: seq<Inet>) {
    forall i :: 0 <= i < |inet| ==> (inet[i].used <==> Names(fds, InetSocket, i))
  }

  ghost predicate Inv(s: Vfs) {
    Sane(s) && OneEach(s.fds) && PipesMatch(s.fds, s.pipes) && UnixMatch(s.fds, s.unix) && InetMatch(s.fds, s.inet)
  }

  lemma BootInv()
    ensures Inv(Boot())
  {
  }

  // ----- What taking and clearing a descriptor does to the names

  lemma NamesTaken(fds: seq<Desc>, f: nat, d: Desc)
    requires f < |fds| && fds[f].kind == Empty && d.kind != Empty
    ensures forall k, t :: k != Empty ==> (Names(fds[f := d], k, t) <==> Names(fds, k, t) || (k == d.kind && t == d.target))
  {
    var fds' := fds[f := d];
    forall k, t | k != Empty ensures Names(fds', k, t) <==> Names(fds, k, t) || (k == d.kind && t == d.target) {
      if Names(fds, k, t) {
        var g :| 0 <= g < |fds| && fds[g].kind == k && fds[g].target == t;
        assert fds'[g] == fds[g];
      }
      if k == d.kind && t == d.target {
        assert fds'[f] == d;
      }
    }
  }

  lemma NamesCleared(fds: seq<Desc>, f: nat, d: Desc)
    requires f < |fds| && d.kind == Empty && OneEach(fds)
    ensures OneEach(fds[f := d])
    ensures forall k, t :: ObjectKind(k) ==>
      (Names(fds[f := d], k, t) <==> Names(fds, k, t) && !(k == fds[f].kind && t == fds[f].target))
  {
    var fds' := fds[f := d];
    forall k, t | ObjectKind(k)
      ensures Names(fds', k, t) <==> Names(fds, k, t) && !(k == fds[f].kind && t == fds[f].target)
    {
      if Names(fds, k, t) {
        var g :| 0 <= g < |fds| && fds[g].kind == k && fds[g].target == t;
        assert g != f ==> fds'[g] == fds[g];
      }
    }
  }

  /** Taking an empty descriptor from 3 on for an object nobody names keeps one descriptor each. */
  lemma TakenOneEach(fds: seq<Desc>, f: nat, d: Desc)
    requires OneEach(fds) && 3 <= f < |fds| && fds[f].kind == Empty && d.kind != Empty
    requires ObjectKind(d.kind) ==> !Names(fds, d.kind, d.target)
    ensures OneEach(fds[f := d])
  {
    assert ObjectKind(d.kind) ==> forall h :: 0 <= h < |fds| ==> !(fds[h].kind == d.kind && fds[h].target == d.target);
  }

  // ----- Each call keeps the invariant

  lemma OpenInv(s: Vfs, node: nat, result: int)
    requires Inv(s)
    ensures Inv(Open(s, node, result).0)
  {
    var f := FirstEmpty(s.fds, 3);
    if f < MAX_FD {
      NamesTaken(s.fds, f, Desc(VfsFile, 0, node));
      TakenOneEach(s.fds, f, Desc(VfsFile, 0, node));
    }
  }

  lemma CloseInv(s: Vfs, fd: int)
    requires Inv(s)
    ensures Inv(Close(s, fd).0)
  {
    if InRange(fd) && s.fds[fd].kind != Empty {
      var d := s.fds[fd];
      NamesCleared(s.fds, fd, Desc(Empty, 0, 0));
      assert Names(s.fds, d.kind, d.target);
    }
  }

  lemma MakePipeInv(s: Vfs)
    requires Inv(s)
    ensures Inv(MakePipe(s).0)
  {
    var p := FirstFree(PipeUse(s));
    if p < POOL {
      var (fds1, rfd) := AllocateFd(s.fds, PipeRead, p);
      if rfd >= 0 {
        NamesTaken(s.fds, rfd, Desc(PipeRead, 0, p));
        TakenOneEach(s.fds, rfd, Desc(PipeRead, 0, p));
        var (fds2, wfd) := AllocateFd(fds1, PipeWrite, p);
        if wfd >= 0 {
          NamesTaken(fds1, wfd, Desc(PipeWrite, 0, p));
          TakenOneEach(fds1, wfd, Desc(PipeWrite, 0, p));
        } else {
          NamesCleared(fds1, rfd, fds1[rfd].(kind := Empty));
        }
      }
    }
  }

  lemma MakeInetInv(s: Vfs)
    requires Inv(s)
    ensures Inv(MakeSocket(s, 2, 2, 0).0)
  {
    var f, i := FirstEmpty(s.fds, 3), FirstFree(InetUse(s));
    if f < MAX_FD && i < POOL {
      NamesTaken(s.fds, f, Desc(InetSocket, 0, i));
      TakenOneEach(s.fds, f, Desc(InetSocket, 0, i));
    }
  }

  lemma MakeUnixInv(s: Vfs)
    requires Inv(s)
    ensures Inv(MakeSocket(s, 1, 1, 0).0)
  {
    var f, u := FirstEmpty(s.fds, 3), FirstFree(UnixUse(s));
    if f < MAX_FD && u < POOL {
      NamesTaken(s.fds, f, Desc(UnixSocket, 0, u));
      TakenOneEach(s.fds, f, Desc(UnixSocket, 0, u));
    }
  }

  lemma MakeSocketInv(s: Vfs, domain: int, kind: int, protocol: int)
    requires Inv(s)
    ensures Inv(MakeSocket(s, domain, kind, protocol).0)
  {
    if domain == 2 && kind == 2 && protocol == 0 {
      MakeInetInv(s);
    } else if domain == 1 && kind == 1 && protocol == 0 {
      MakeUnixInv(s);
    }
  }

  lemma AcceptInv(s: Vfs, fd: int)
    requires Inv(s)
    ensures Inv(Accept(s, fd).0)
  {
    var f, a := FirstEmpty(s.fds, 3), FirstFree(UnixUse(s));
    if IsKind(s, fd, UnixSocket) {
      var v := s.fds[fd].target;
      assert UnixUse(s.(unix := s.unix[v := s.unix[v].(pending := NO_SOCKET)])) == UnixUse(s);
      if f < MAX_FD && a < POOL {
        NamesTaken(s.fds, f, Desc(UnixSocket, 0, a));
        TakenOneEach(s.fds, f, Desc(UnixSocket, 0, a));
      }
    }
  }

  /** Calls that only move data or change addresses leave descriptors and use flags alone. */
  ghost predicate SameShape(s: Vfs, s': Vfs)
    requires Sane(s) && Sane(s')
  {
    && (forall f :: 0 <= f < MAX_FD ==> s'.fds[f].kind == s.fds[f].kind && s'.fds[f].target == s.fds[f].target)
    && (forall p :: 0 <= p < POOL ==> s'.pipes[p] == s.pipes[p].(ring := s'.pipes[p].ring))
    && (forall u :: 0 <= u < POOL ==> s'.unix[u].used == s.unix[u].used)
    && (forall i :: 0 <= i < POOL ==> s'.inet[i].used == s.inet[i].used)
  }

  lemma SameShapeInv(s: Vfs, s': Vfs)
    requires Inv(s) && Sane(s') && SameShape(s, s')
    ensures Inv(s')
  {
    forall k, t ensures Names(s'.fds, k, t) <==> Names(s.fds, k, t) {
      if Names(s.fds, k, t) {
        var g :| 0 <= g < MAX_FD && s.fds[g].kind == k && s.fds[g].target == t;
        assert s'.fds[g].kind == k;
      }
      if Names(s'.fds, k, t) {
        var g :| 0 <= g < MAX_FD && s'.fds[g].kind == k && s'.fds[g].target == t;
        assert s.fds[g].kind == k;
      }
    }
  }

  predicate KeepsShape(c: Syscall) {
    !(c.OpenCall? || c.CloseCall? || c.PipeCall? || c.SocketCall? || c.AcceptCall?)
  }

  lemma InetSendShape(s: Vfs, source: nat, data: seq<byte>, address: nat, port: nat)
    requires Sane(s) && source < POOL
    ensures SameShape(s, InetSend(s, source, data, address, port).0)
  {
  }

  lemma SendShape(s: Vfs, fd: int, data: seq<byte>)
    requires Sane(s)
    ensures SameShape(s, Send(s, fd, data).0)
  {
    if IsKind(s, fd, InetSocket) {
      var i := s.inet[s.fds[fd].target];
      InetSendShape(s, s.fds[fd].target, data, i.peerAddress, i.peerPort);
    }
  }

  lemma SendToShape(s: Vfs, fd: int, data: seq<byte>, address: Option<seq<byte>>)
    requires Sane(s)
    ensures SameShape(s, SendTo(s, fd, data, address).0)
  {
    if IsKind(s, fd, InetSocket) && ParseInet(address).Good? {
      var i, to := s.fds[fd].target, ParseInet(address);
      InetSendShape(WithPort(s, i, fd), i, data, to.ip, to.port);
    }
  }

  lemma RecvShape(s: Vfs, fd: int, n: nat, buffer: Option<seq<byte>>)
    requires Sane(s)
    ensures SameShape(s, RecvFrom(s, fd, n, buffer).0) && SameShape(s, Recv(s, fd, n).0)
  {
  }

  lemma BindShape(s: Vfs, fd: int, address: Option<seq<byte>>)
    requires Sane(s)
    ensures SameShape(s, Bind(s, fd, address).0)
  {
  }

  lemma ConnectShape(s: Vfs, fd: int, address: Option<seq<byte>>)
    requires Sane(s)
    ensures SameShape(s, Connect(s, fd, address).0)
  {
  }

  lemma FileShape(s: Vfs, fd: int, n: nat, data: seq<byte>, file: int)
    requires Sane(s) && !IsKind(s, fd, UnixSocket) && !IsKind(s, fd, InetSocket)
    ensures SameShape(s, Read(s, fd, n, file).0) && SameShape(s, Write(s, fd, data, _ => file).0)
  {
  }

  lemma ReadShape(s: Vfs, fd: int, n: nat, file: int)
    requires Sane(s)
    ensures SameShape(s, Read(s, fd, n, file).0)
  {
    if IsKind(s, fd, UnixSocket) || IsKind(s, fd, InetSocket) {
      RecvShape(s, fd, n, None);
    } else {
      FileShape(s, fd, n, [], file);
    }
  }

  lemma WriteShape(s: Vfs, fd: int, data: seq<byte>, file: int)
    requires Sane(s)
    ensures SameShape(s, Write(s, fd, data, _ => file).0)
  {
    if IsKind(s, fd, UnixSocket) || IsKind(s, fd, InetSocket) {
      SendShape(s, fd, data);
    } else {
      FileShape(s, fd, 0, data, file);
    }
  }

  lemma ListenShape(s: Vfs, fd: int)
    requires Sane(s)
    ensures SameShape(s, Listen(s, fd).0)
  {
  }

  lemma DataCallShape(s: Vfs, c: Syscall)
    requires Sane(s) && KeepsShape(c)
    ensures SameShape(s, Do(s, c).0)
  {
    match c {
      case SendCall(fd, data) => SendShape(s, fd, data);
      case WriteCall(fd, data, file) => WriteShape(s, fd, data, file);
      case SendToCall(fd, data, address) => SendToShape(s, fd, data, address);
      case RecvCall(fd, n) => RecvShape(s, fd, n, None);
      case RecvFromCall(fd, n, buffer) => RecvShape(s, fd, n, buffer);
      case ReadCall(fd, n, file) => ReadShape(s, fd, n, file);
      case BindCall(fd, address) => BindShape(s, fd, address);
      case ConnectCall(fd, address) => ConnectShape(s, fd, address);
      case ListenCall(fd) => ListenShape(s, fd);
    }
  }

  lemma StepInv(s: Vfs, c: Syscall)
    requires Inv(s)
    ensures Inv(Do(s, c).0)
  {
    match c {
      case OpenCall(node, result) => OpenInv(s, node, result);
      case CloseCall(fd) => CloseInv(s, fd);
      case PipeCall => MakePipeInv(s);
      case SocketCall(domain, kind, protocol) => MakeSocketInv(s, domain, kind, protocol);
      case AcceptCall(fd) => AcceptInv(s, fd);
      case _ =>
        DataCallShape(s, c);
        SameShapeInv(s, Do(s, c).0);
    }
  }

  /** The invariant holds throughout every run. */
  lemma {:induction false} RunInv(s: Vfs, cs: seq<Syscall>)
    requires Inv(s)
    ensures Inv(Run(s, cs))
    decreases |cs|
  {
    if cs != [] {
      StepInv(s, cs[0]);
      RunInv(Do(s, cs[0]).0, cs[1..]);
    }
  }

  // ----- Consequences

  /** The open ends of pipe `p`, on one side. */
  ghost function Ends(fds: seq<Desc>, k: Kind, p: nat): set<int> {
    set f | 0 <= f < |fds| && fds[f].kind == k && fds[f].target == p
  }

  lemma OneEnd(fds: seq<Desc>, k: Kind, p: nat)
    requires OneEach(fds) && ObjectKind(k)
    ensures |Ends(fds, k, p)| == One(Names(fds, k, p))
  {
    if Names(fds, k, p) {
      var f :| 0 <= f < |fds| && fds[f].kind == k && fds[f].target == p;
      assert Ends(fds, k, p) == {f};
    }
  }

  /** In every state a run can reach, a pipe in use has some open end, and its reader and writer
    * counts are the numbers of descriptors open on each side. */
  lemma PipeCountsAreDescriptorCounts(s: Vfs, cs: seq<Syscall>, p: nat)
    requires Inv(s) && p < POOL
    ensures var t := Run(s, cs);
      && (t.pipes[p].used <==> Ends(t.fds, PipeRead, p) + Ends(t.fds, PipeWrite, p) != {})
      && (t.pipes[p].used ==>
            t.pipes[p].readers == |Ends(t.fds, PipeRead, p)| && t.pipes[p].writers == |Ends(t.fds, PipeWrite, p)|)
  {
    RunInv(s, cs);
    var t := Run(s, cs);
    OneEnd(t.fds, PipeRead, p);
    OneEnd(t.fds, PipeWrite, p);
  }

  /** In every state a run can reach, a UDP slot is in use exactly when one descriptor names it. */
  lemma UdpSlotHasOneDescriptor(s: Vfs, cs: seq<Syscall>, i: nat)
    requires Inv(s) && i < POOL
    ensures var t := Run(s, cs);
      t.inet[i].used <==> |Ends(t.fds, InetSocket, i)| == 1
  {
    RunInv(s, cs);
    OneEnd(Run(s, cs).fds, InetSocket, i);
  }

  /** A pipe call that fails leaves every occupied descriptor and every pipe in use as it was. */
  lemma FailedPipeChangesNothing(s: Vfs)
    requires Sane(s) && MakePipe(s).1 < 0
    ensures var t := MakePipe(s).0;
      && (forall f :: 0 <= f < MAX_FD ==> (t.fds[f].kind == Empty <==> s.fds[f].kind == Empty))
      && (forall f :: 0 <= f < MAX_FD && s.fds[f].kind != Empty ==> t.fds[f] == s.fds[f])
      && (forall p :: 0 <= p < POOL ==> t.pipes[p].used == s.pipes[p].used && (s.pipes[p].used ==> t.pipes[p] == s.pipes[p]))
      && t.unix == s.unix && t.inet == s.inet
  {
  }

  /** It fails exactly when no pipe is left or fewer than two descriptors are. */
  lemma PipeFailsWhenTablesAreFull(s: Vfs)
    requires Sane(s)
    ensures MakePipe(s).1 in {0, -24}
    ensures MakePipe(s).1 < 0 <==>
      (forall p :: 0 <= p < POOL ==> s.pipes[p].used)
      || !exists f, g :: 3 <= f < g < MAX_FD && s.fds[f].kind == Empty && s.fds[g].kind == Empty
  {
    var p, f := FirstFree(PipeUse(s)), FirstEmpty(s.fds, 3);
    if p < POOL && f < MAX_FD {
      var fds1 := AllocateFd(s.fds, PipeRead, p).0;
      var g := FirstEmpty(fds1, 3);
      assert g < MAX_FD ==> g > f && s.fds[g].kind == Empty;
      assert forall h :: 0 <= h < MAX_FD && h != f ==> fds1[h] == s.fds[h];
    }
    if p < POOL {
      assert !PipeUse(s)[p];
    }
  }
}
