/** UDP ports and the routing of replies. */
module UdpTheorems {
  import opened Prelude
  import opened VfsSpec
  import opened VfsRuns
  import opened DescriptorTheorems

  // ----- Ports

  /** The ports connect and sendto hand out on their own: 49152 to 49180. */
  predicate IsAuto(port: nat) {
    AUTO_PORT <= port < AUTO_PORT + MAX_FD - 3
  }

  /** No two open sockets share a port other than 0. */
  ghost predicate UniquePorts(inet: seq<Inet>) {
    forall i, j | 0 <= i < |inet| && 0 <= j < |inet| :: inet[i].used && inet[j].used && inet[i].port == inet[j].port != 0 ==> i == j
  }

  /** What an open socket looks like: loopback or any address; bytes only once it has a port; a known
    * peer and a port once connected. */
  predicate TidySocket(i: Inet) {
    && (i.address == 0 || i.address == LOOPBACK)
    && (i.port == 0 ==> i.count == 0)
    && (i.connected ==> i.port != 0 && i.peerPort != 0 && (i.peerAddress == 0 || i.peerAddress == LOOPBACK))
  }

  ghost predicate Tidy(inet: seq<Inet>) {
    forall i :: 0 <= i < |inet| && inet[i].used ==> TidySocket(inet[i])
  }

  /** A socket holding an automatic port holds the one of its own descriptor. */
  ghost predicate OwnAutoPorts(s: Vfs)
    requires Sane(s)
  {
    forall f :: 0 <= f < MAX_FD && s.fds[f].kind == InetSocket && IsAuto(s.inet[s.fds[f].target].port)
      ==> s.inet[s.fds[f].target].port == AutoPort(f)
  }

  ghost predicate PortInv(s: Vfs) {
    Inv(s) && UniquePorts(s.inet) && Tidy(s.inet)
  }

  ghost predicate UdpInv(s: Vfs) {
    PortInv(s) && OwnAutoPorts(s)
  }

  /** The call gives its socket an automatic port that another open socket already has. */
  ghost predicate Collides(s: Vfs, c: Syscall)
    requires Sane(s)
  {
    (c.ConnectCall? || c.SendToCall?) && IsKind(s, c.fd, InetSocket) && ParseInet(c.address).Good?
    && s.inet[s.fds[c.fd].target].port == 0 && AutoPortTaken(s, c.fd)
  }

  ghost predicate AutoPortTaken(s: Vfs, f: int)
    requires Sane(s) && IsKind(s, f, InetSocket)
  {
    exists j :: 0 <= j < POOL && j != s.fds[f].target && s.inet[j].used && s.inet[j].port == AutoPort(f)
  }

  /** An explicit bind stays clear of the automatic ports. */
  predicate BindsOutside(s: Vfs, c: Syscall) {
    c.BindCall? && IsKind(s, c.fd, InetSocket) && ParseInet(c.address).Good? ==> !IsAuto(ParseInet(c.address).port)
  }

  lemma BootUdp()
    ensures UdpInv(Boot())
  {
    BootInv();
  }

  /** The open socket behind a descriptor, and the other way round. */
  lemma SocketOf(s: Vfs, f: int)
    requires Inv(s) && IsKind(s, f, InetSocket)
    ensures f >= 3 && s.inet[s.fds[f].target].used && AutoPort(f) == AUTO_PORT + f - 3 && IsAuto(AutoPort(f))
  {
    assert Names(s.fds, InetSocket, s.fds[f].target);
  }

  lemma DescriptorOf(s: Vfs, i: nat) returns (f: nat)
    requires Inv(s) && i < POOL && s.inet[i].used
    ensures 3 <= f < MAX_FD && s.fds[f].kind == InetSocket && s.fds[f].target == i
  {
    assert Names(s.fds, InetSocket, i);
    f :| 0 <= f < |s.fds| && s.fds[f].kind == InetSocket && s.fds[f].target == i;
  }

  /** Giving a socket its automatic port keeps ports unique exactly when no other open socket has
    * taken that port before, by an explicit bind. */
  lemma AutoPortExactly(s: Vfs, f: int)
    requires Inv(s) && IsKind(s, f, InetSocket) && UniquePorts(s.inet) && s.inet[s.fds[f].target].port == 0
    ensures UniquePorts(WithPort(s, s.fds[f].target, f).inet) <==> !AutoPortTaken(s, f)
  {
    SocketOf(s, f);
    var i, t := s.fds[f].target, WithPort(s, s.fds[f].target, f);
    if j :| 0 <= j < POOL && j != i && s.inet[j].used && s.inet[j].port == AutoPort(f) {
      assert t.inet[i].port == t.inet[j].port;
    }
  }

  lemma WithPortKeeps(s: Vfs, f: int)
    requires PortInv(s) && IsKind(s, f, InetSocket)
    requires s.inet[s.fds[f].target].port == 0 ==> !AutoPortTaken(s, f)
    ensures var i := s.fds[f].target; var t := WithPort(s, i, f);
      && PortInv(t) && t.fds == s.fds && t.inet[i].port != 0 && t.inet[i] == s.inet[i].(port := t.inet[i].port)
      && forall j :: 0 <= j < POOL && j != i ==> t.inet[j] == s.inet[j]
  {
    var i := s.fds[f].target;
    var t := WithPort(s, i, f);
    SocketOf(s, f);
    SameShapeInv(s, t);
  }

  // ----- Each call keeps the port invariant

  lemma SendPorts(s: Vfs, source: nat, data: seq<byte>, address: nat, port: nat)
    requires PortInv(s) && source < POOL && s.inet[source].used && s.inet[source].port != 0 && port != 0
    ensures PortInv(InetSend(s, source, data, address, port).0)
  {
    InetSendShape(s, source, data, address, port);
    SameShapeInv(s, InetSend(s, source, data, address, port).0);
  }

  /** Steps that leave addresses and ports alone and add nothing to any queue. */
  lemma QuietPorts(s: Vfs, s': Vfs)
    requires PortInv(s) && Inv(s')
    requires forall i :: 0 <= i < POOL && s'.inet[i].used ==>
      && s.inet[i].used && s'.inet[i].count <= s.inet[i].count
      && s'.inet[i] == s.inet[i].(head := s'.inet[i].head, count := s'.inet[i].count)
    ensures PortInv(s')
  {
  }

  lemma BindPorts(s: Vfs, fd: int, address: Option<seq<byte>>)
    requires PortInv(s)
    ensures PortInv(Bind(s, fd, address).0)
  {
    var s' := Bind(s, fd, address).0;
    BindShape(s, fd, address);
    SameShapeInv(s, s');
    if IsKind(s, fd, InetSocket) {
      var i := s.fds[fd].target;
      SocketOf(s, fd);
    } else {
      assert s'.inet == s.inet && s'.fds == s.fds;
    }
  }

  lemma ConnectPorts(s: Vfs, fd: int, address: Option<seq<byte>>)
    requires PortInv(s) && !Collides(s, ConnectCall(fd, address))
    ensures PortInv(Connect(s, fd, address).0)
  {
    var s' := Connect(s, fd, address).0;
    ConnectShape(s, fd, address);
    SameShapeInv(s, s');
    if IsKind(s, fd, InetSocket) {
      if ParseInet(address).Good? {
        WithPortKeeps(s, fd);
      }
    } else {
      assert s'.inet == s.inet && s'.fds == s.fds;
    }
  }

  lemma MakeSocketPorts(s: Vfs, domain: int, kind: int, protocol: int)
    requires PortInv(s)
    ensures PortInv(MakeSocket(s, domain, kind, protocol).0)
  {
    var s' := MakeSocket(s, domain, kind, protocol).0;
    MakeSocketInv(s, domain, kind, protocol);
    var i := FirstFree(InetUse(s));
    if i < POOL {
      forall f | 0 <= f < MAX_FD && s.fds[f].kind == InetSocket ensures s.fds[f].target != i {
        SocketOf(s, f);
      }
    }
  }

  lemma SendToPorts(s: Vfs, fd: int, data: seq<byte>, address: Option<seq<byte>>)
    requires PortInv(s) && !Collides(s, SendToCall(fd, data, address))
    ensures PortInv(SendTo(s, fd, data, address).0)
  {
    if IsKind(s, fd, InetSocket) && ParseInet(address).Good? {
      var i, to := s.fds[fd].target, ParseInet(address);
      SocketOf(s, fd);
      WithPortKeeps(s, fd);
      SendPorts(WithPort(s, i, fd), i, data, to.ip, to.port);
    }
  }

  lemma PlainSendPorts(s: Vfs, fd: int, data: seq<byte>)
    requires PortInv(s)
    ensures PortInv(Send(s, fd, data).0)
  {
    var s' := Send(s, fd, data).0;
    if IsKind(s, fd, InetSocket) {
      var i := s.fds[fd].target;
      SocketOf(s, fd);
      if s.inet[i].connected {
        SendPorts(s, i, data, s.inet[i].peerAddress, s.inet[i].peerPort);
      }
    } else {
      SendShape(s, fd, data);
      SameShapeInv(s, s');
      assert s'.inet == s.inet && s'.fds == s.fds;
    }
  }

  lemma RecvPorts(s: Vfs, fd: int, n: nat, buffer: Option<seq<byte>>)
    requires PortInv(s)
    ensures PortInv(RecvFrom(s, fd, n, buffer).0)
  {
    RecvShape(s, fd, n, buffer);
    SameShapeInv(s, RecvFrom(s, fd, n, buffer).0);
    QuietPorts(s, RecvFrom(s, fd, n, buffer).0);
  }

  lemma ClosePorts(s: Vfs, fd: int)
    requires PortInv(s)
    ensures PortInv(Close(s, fd).0)
  {
    CloseInv(s, fd);
    QuietPorts(s, Close(s, fd).0);
  }

  /** Calls that have nothing to do with UDP. */
  predicate NotUdp(s: Vfs, c: Syscall) {
    match c
    case OpenCall(_, _) => true
    case PipeCall => true
    case ListenCall(_) => true
    case AcceptCall(_) => true
    case RecvCall(fd, _) => !IsKind(s, fd, InetSocket)
    case ReadCall(fd, _, _) => !IsKind(s, fd, InetSocket)
    case WriteCall(fd, _, _) => !IsKind(s, fd, InetSocket)
    case SendCall(fd, _) => !IsKind(s, fd, InetSocket)
    case _ => false
  }

  lemma NotUdpUntouched(s: Vfs, c: Syscall)
    requires Sane(s) && NotUdp(s, c)
    ensures var s' := Do(s, c).0;
      && s'.inet == s.inet
      && forall f :: 0 <= f < MAX_FD && s'.fds[f].kind == InetSocket ==> s.fds[f].kind == InetSocket && s.fds[f].target == s'.fds[f].target
  {
  }

  lemma StepPorts(s: Vfs, c: Syscall)
    requires PortInv(s) && !Collides(s, c)
    ensures PortInv(Do(s, c).0)
  {
    if NotUdp(s, c) {
      StepInv(s, c);
      NotUdpUntouched(s, c);
      QuietPorts(s, Do(s, c).0);
    } else {
      match c {
        case BindCall(fd, address) => BindPorts(s, fd, address);
        case ConnectCall(fd, address) => ConnectPorts(s, fd, address);
        case SocketCall(domain, kind, protocol) => MakeSocketPorts(s, domain, kind, protocol);
        case SendToCall(fd, data, address) => SendToPorts(s, fd, data, address);
        case SendCall(fd, data) => PlainSendPorts(s, fd, data);
        case WriteCall(fd, data, file) => PlainSendPorts(s, fd, data);
        case RecvCall(fd, n) => RecvPorts(s, fd, n, None);
        case ReadCall(fd, n, _) => RecvPorts(s, fd, n, None);
        case RecvFromCall(fd, n, buffer) => RecvPorts(s, fd, n, buffer);
        case CloseCall(fd) => ClosePorts(s, fd);
      }
    }
  }

  /** No socket changes hands or port. */
  ghost predicate SamePorts(s: Vfs, s': Vfs)
    requires Sane(s) && Sane(s')
  {
    && (forall i :: 0 <= i < POOL ==> s'.inet[i].port == s.inet[i].port && s'.inet[i].used == s.inet[i].used)
    && s'.fds == s.fds
  }

  lemma InetSendSamePorts(s: Vfs, source: nat, data: seq<byte>, address: nat, port: nat)
    requires Sane(s) && source < POOL
    ensures SamePorts(s, InetSend(s, source, data, address, port).0)
  {
  }

  lemma SendCallsSamePorts(s: Vfs, fd: int, data: seq<byte>, n: nat, buffer: Option<seq<byte>>)
    requires Sane(s) && IsKind(s, fd, InetSocket)
    ensures SamePorts(s, Send(s, fd, data).0) && SamePorts(s, RecvFrom(s, fd, n, buffer).0)
  {
    var i := s.fds[fd].target;
    InetSendSamePorts(s, i, data, s.inet[i].peerAddress, s.inet[i].peerPort);
  }

  /** Connect and sendto with a good address leave every socket the port it has after the assignment. */
  lemma AddressedSamePorts(s: Vfs, c: Syscall)
    requires Sane(s) && (c.ConnectCall? || c.SendToCall?) && IsKind(s, c.fd, InetSocket) && ParseInet(c.address).Good?
    ensures SamePorts(WithPort(s, s.fds[c.fd].target, c.fd), Do(s, c).0)
  {
    if c.SendToCall? {
      var i, to := s.fds[c.fd].target, ParseInet(c.address);
      InetSendSamePorts(WithPort(s, i, c.fd), i, c.data, to.ip, to.port);
    }
  }

  lemma CollisionLoses(s: Vfs, c: Syscall)
    requires PortInv(s) && Collides(s, c)
    ensures !UniquePorts(Do(s, c).0.inet)
  {
    var i, s' := s.fds[c.fd].target, Do(s, c).0;
    SocketOf(s, c.fd);
    AddressedSamePorts(s, c);
    var j :| 0 <= j < POOL && j != i && s.inet[j].used && s.inet[j].port == AutoPort(c.fd);
    assert s'.inet[i].port == s'.inet[j].port;
  }

  /** A call keeps ports unique exactly unless it is a connect or sendto that gives its socket an
    * automatic port some other open socket has. Bind never breaks uniqueness. */
  lemma StepPortsExactly(s: Vfs, c: Syscall)
    requires PortInv(s)
    ensures UniquePorts(Do(s, c).0.inet) <==> !Collides(s, c)
    ensures !Collides(s, c) ==> PortInv(Do(s, c).0)
  {
    if Collides(s, c) {
      CollisionLoses(s, c);
    } else {
      StepPorts(s, c);
    }
  }

  /** No call of the run collides. */
  ghost predicate NoCollision(s: Vfs, cs: seq<Syscall>)
    requires Sane(s)
    decreases |cs|
  {
    cs == [] || (!Collides(s, cs[0]) && NoCollision(Do(s, cs[0]).0, cs[1..]))
  }

  lemma {:induction false} RunPorts(s: Vfs, cs: seq<Syscall>)
    requires PortInv(s) && NoCollision(s, cs)
    ensures PortInv(Run(s, cs))
    decreases |cs|
  {
    if cs != [] {
      StepPorts(s, cs[0]);
      RunPorts(Do(s, cs[0]).0, cs[1..]);
    }
  }

  /** Ports are unique in every state the run goes through. */
  ghost predicate UniqueThroughout(s: Vfs, cs: seq<Syscall>)
    requires Sane(s)
    decreases |cs|
  {
    UniquePorts(s.inet) && (cs == [] || UniqueThroughout(Do(s, cs[0]).0, cs[1..]))
  }

  lemma {:induction false} RunPortsExactly(s: Vfs, cs: seq<Syscall>)
    requires PortInv(s)
    ensures UniqueThroughout(s, cs) <==> NoCollision(s, cs)
    decreases |cs|
  {
    if cs != [] {
      StepPortsExactly(s, cs[0]);
      if !Collides(s, cs[0]) {
        RunPortsExactly(Do(s, cs[0]).0, cs[1..]);
      }
    }
  }

  // ----- Binds outside the automatic ports never lead to a collision

  /** Where the port of an open socket comes from. */
  ghost predicate PortFrom(s: Vfs, c: Syscall, s': Vfs, f: nat)
    requires Sane(s) && Sane(s') && IsKind(s', f, InetSocket)
  {
    var p := s'.inet[s'.fds[f].target].port;
    || p == 0 || p == AutoPort(f)
    || (IsKind(s, f, InetSocket) && s.fds[f].target == s'.fds[f].target && p == s.inet[s.fds[f].target].port)
    || (c.BindCall? && c.fd == f && IsKind(s, f, InetSocket) && ParseInet(c.address).Good? && p == ParseInet(c.address).port)
  }

  lemma TablePortOrigin(s: Vfs, c: Syscall, f: nat)
    requires Inv(s) && (c.SocketCall? || c.CloseCall? || c.BindCall?) && IsKind(Do(s, c).0, f, InetSocket)
    ensures PortFrom(s, c, Do(s, c).0, f)
  {
    if c.BindCall? && IsKind(s, f, InetSocket) && IsKind(s, c.fd, InetSocket) {
      assert s.fds[f].target == s.fds[c.fd].target ==> f == c.fd;
    }
  }

  lemma TrafficPortOrigin(s: Vfs, c: Syscall, f: nat)
    requires Inv(s) && !NotUdp(s, c) && !c.SocketCall? && !c.CloseCall? && !c.BindCall? && IsKind(Do(s, c).0, f, InetSocket)
    ensures PortFrom(s, c, Do(s, c).0, f)
  {
    match c {
      case ConnectCall(fd, address) => AddressedOrigin(s, c, f);
      case SendToCall(fd, _, address) => AddressedOrigin(s, c, f);
      case SendCall(fd, data) => SendCallsSamePorts(s, fd, data, 0, None);
      case WriteCall(fd, data, _) => SendCallsSamePorts(s, fd, data, 0, None);
      case RecvCall(fd, n) => SendCallsSamePorts(s, fd, [], n, None);
      case ReadCall(fd, n, _) => SendCallsSamePorts(s, fd, [], n, None);
      case RecvFromCall(fd, n, buffer) => if IsKind(s, fd, InetSocket) { SendCallsSamePorts(s, fd, [], n, buffer); }
    }
  }

  lemma AddressedOrigin(s: Vfs, c: Syscall, f: nat)
    requires Inv(s) && (c.ConnectCall? || c.SendToCall?) && IsKind(Do(s, c).0, f, InetSocket)
    ensures PortFrom(s, c, Do(s, c).0, f)
  {
    if IsKind(s, c.fd, InetSocket) && ParseInet(c.address).Good? {
      AddressedSamePorts(s, c);
      assert s.fds[f].target == s.fds[c.fd].target ==> f == c.fd;
    }
  }

  lemma PortOrigin(s: Vfs, c: Syscall, f: nat)
    requires Inv(s) && IsKind(Do(s, c).0, f, InetSocket)
    ensures PortFrom(s, c, Do(s, c).0, f)
  {
    if NotUdp(s, c) {
      NotUdpUntouched(s, c);
    } else if c.SocketCall? || c.CloseCall? || c.BindCall? {
      TablePortOrigin(s, c, f);
    } else {
      TrafficPortOrigin(s, c, f);
    }
  }

  lemma OutsideNeverCollides(s: Vfs, c: Syscall)
    requires UdpInv(s)
    ensures !Collides(s, c)
  {
    if Collides(s, c) {
      var j :| 0 <= j < POOL && j != s.fds[c.fd].target && s.inet[j].used && s.inet[j].port == AutoPort(c.fd);
      SocketOf(s, c.fd);
      var g := DescriptorOf(s, j);
    }
  }

  lemma StepUdp(s: Vfs, c: Syscall)
    requires UdpInv(s) && BindsOutside(s, c)
    ensures UdpInv(Do(s, c).0)
  {
    OutsideNeverCollides(s, c);
    StepPorts(s, c);
    var s' := Do(s, c).0;
    forall f | 0 <= f < MAX_FD && s'.fds[f].kind == InetSocket && IsAuto(s'.inet[s'.fds[f].target].port)
      ensures s'.inet[s'.fds[f].target].port == AutoPort(f)
    {
      PortOrigin(s, c, f);
    }
  }

  /** Every explicit bind of the run stays clear of the automatic ports. */
  ghost predicate BindsOutsideRun(s: Vfs, cs: seq<Syscall>)
    requires Sane(s)
    decreases |cs|
  {
    cs == [] || (BindsOutside(s, cs[0]) && BindsOutsideRun(Do(s, cs[0]).0, cs[1..]))
  }

  /** In such runs no call collides, no two open sockets ever share a port, and a socket without one
    * has an empty queue. */
  lemma {:induction false} RunUdp(s: Vfs, cs: seq<Syscall>)
    requires UdpInv(s) && BindsOutsideRun(s, cs)
    ensures UdpInv(Run(s, cs)) && NoCollision(s, cs)
    decreases |cs|
  {
    if cs != [] {
      StepUdp(s, cs[0]);
      OutsideNeverCollides(s, cs[0]);
      RunUdp(Do(s, cs[0]).0, cs[1..]);
    }
  }

  /** From boot on, with explicit binds outside the automatic ports: no two open sockets share a port. */
  lemma PortsFromBoot(cs: seq<Syscall>, i: nat, j: nat)
    requires BindsOutsideRun(Boot(), cs) && i < j < POOL
    ensures var t := Run(Boot(), cs).inet;
      && (t[i].used && t[j].used && t[i].port != 0 ==> t[i].port != t[j].port)
      && (t[i].used && t[i].port == 0 ==> t[i].count == 0)
  {
    BootUdp();
    RunUdp(Boot(), cs);
  }

  // ----- Without that, ports can collide

  /** The bytes of a socket address: family 2, port 49152, any address. */
  const ANY_49152: seq<byte> := [2, 0, 0xC0, 0, 0, 0, 0, 0]

  lemma Parse49152()
    ensures ParseInet(Some(ANY_49152)) == Good(0, 49152)
  {
    assert Le16(ANY_49152, 2) == 0xC0;
    assert NetworkPort(0xC0) == 0xC000;
  }

  /** A fresh UDP socket on descriptor `f` and slot `i`. */
  ghost predicate FreshSocket(s: Vfs, f: nat, i: nat)
    requires Sane(s)
  {
    f < MAX_FD && i < POOL && s.fds[f] == Desc(InetSocket, 0, i) && s.inet[i].used && s.inet[i].port == 0 && s.inet[i].address == 0
  }

  lemma TwoSockets()
    ensures var s := Do(Do(Boot(), SocketCall(2, 2, 0)).0, SocketCall(2, 2, 0)).0;
      FreshSocket(s, 3, 0) && FreshSocket(s, 4, 1) && forall i :: 2 <= i < POOL ==> !s.inet[i].used
  {
    var s0 := Boot();
    var s1 := MakeSocket(s0, 2, 2, 0).0;
    assert FirstEmpty(s0.fds, 3) == 3 && FirstFree(InetUse(s0)) == 0;
    assert FreshSocket(s1, 3, 0);
    assert FirstEmpty(s1.fds, 3) == 4;
    assert InetUse(s1)[0] && !InetUse(s1)[1];
    assert FirstFree(InetUse(s1)) == 1;
  }

  /** Binding the second to 49152 and then sending from the first makes both own port 49152. */
  lemma CollideFrom(s: Vfs)
    requires Sane(s) && FreshSocket(s, 3, 0) && FreshSocket(s, 4, 1) && forall i :: 2 <= i < POOL ==> !s.inet[i].used
    ensures !UniquePorts(Do(Do(s, BindCall(4, Some(ANY_49152))).0, SendToCall(3, [], Some(ANY_49152))).0.inet)
  {
    Parse49152();
    var t := Bind(s, 4, Some(ANY_49152)).0;
    assert t.inet[1] == s.inet[1].(port := 49152) && t.inet[0] == s.inet[0] && t.fds == s.fds;
    var u := SendTo(t, 3, [], Some(ANY_49152)).0;
    var w := WithPort(t, 0, 3);
    assert w.inet[0].port == 49152 && w.inet[0].used && w.inet[1] == t.inet[1];
    assert u.inet[0].port == u.inet[1].port == 49152 && u.inet[0].used && u.inet[1].used;
  }

  /** So a run from boot with one explicit bind inside the automatic range loses uniqueness. */
  lemma PortsCanCollide() returns (cs: seq<Syscall>)
    ensures !UniquePorts(Run(Boot(), cs).inet)
  {
    var socket, bind, send := SocketCall(2, 2, 0), BindCall(4, Some(ANY_49152)), SendToCall(3, [], Some(ANY_49152));
    TwoSockets();
    var s1 := Do(Boot(), socket).0;
    var s2 := Do(s1, socket).0;
    CollideFrom(s2);
    var s3 := Do(s2, bind).0;
    RunCons(Boot(), socket, [socket, bind, send]);
    RunCons(s1, socket, [bind, send]);
    RunCons(s2, bind, [send]);
    RunCons(s3, send, []);
    cs := [socket] + [socket, bind, send];
    assert [socket, bind, send] == [socket] + [bind, send] && [bind, send] == [bind] + [send] && [send] == [send] + [];
  }

  // ----- Replies

  /** The swap of the two port bytes undoes itself. */
  lemma NetworkPortInvolution(port: nat)
    requires port < TWO_16
    ensures NetworkPort(NetworkPort(port)) == port
  {
    var hi, lo := port / 256, port % 256;
    assert NetworkPort(port) == hi + lo * 256;
    assert (hi + lo * 256) / 256 == lo && (hi + lo * 256) % 256 == hi;
  }

  /** The address recvfrom delivers is read back by sendto as the datagram's source. */
  lemma SourceAddressReadBack(d: Datagram, buffer: seq<byte>)
    requires Stamped(d) && |buffer| >= 16 && d.port != 0 && (d.address == 0 || d.address == LOOPBACK)
    ensures ParseInet(Some(SourceAddress(d, buffer))) == Good(d.address, d.port)
  {
    var a := SourceAddress(d, buffer);
    NetworkPortInvolution(d.port);
    Le16Of(2);
    Le16Of(NetworkPort(d.port));
    Le16Of(d.address % TWO_16);
    Le16Of(d.address / TWO_16);
    assert a[..2] == ToLe16(2) && a[2..4] == ToLe16(NetworkPort(d.port));
    assert a[4..6] == ToLe16(d.address % TWO_16) && a[6..8] == ToLe16(d.address / TWO_16);
    assert Le16(a, 0) == 2 && Le16(a, 2) == NetworkPort(d.port);
    assert Le16(a, 4) == d.address % TWO_16 && Le16(a, 6) == d.address / TWO_16;
  }

  lemma Le16Of(n: nat)
    requires n < TWO_16
    ensures Le16(ToLe16(n), 0) == n
  {
  }

  /** A datagram carries its sender's port, and the loopback address. */
  lemma SenderIsStamped(s: Vfs, fa: int, data: seq<byte>, address: Option<seq<byte>>)
    requires PortInv(s) && IsKind(s, fa, InetSocket) && SendTo(s, fa, data, address).1 >= 0
    requires !Collides(s, SendToCall(fa, data, address))
    ensures var s' := SendTo(s, fa, data, address).0;
      var a, to := s.fds[fa].target, ParseInet(address);
      && to.Good?
      && s'.inet[a].port != 0 && s'.fds == s.fds
      && var t := WithPort(s, a, fa);
      && var b := Destination(t.inet, to.ip, to.port);
      && b < POOL && t.inet[b].count < DATAGRAMS
      && s'.inet == t.inet[b := Enqueue(t.inet[b], Datagram(data, LOOPBACK, s'.inet[a].port))]
  {
    SocketOf(s, fa);
    WithPortKeeps(s, fa);
  }

  /** The datagram at the head of a queue. */
  function HeadOf(i: Inet): Datagram
    requires SaneInet(i)
  {
    i.grams[i.head]
  }

  /** If the datagram at the head of B's queue came from A, is received with room for the address, and
    * A is still open on the port it was sent from, then a reply to that address joins A's queue, and
    * no other socket is touched. */
  lemma ReplyReachesSender(s: Vfs, fa: int, fb: int, n: nat, buffer: seq<byte>, reply: seq<byte>)
    requires PortInv(s) && IsKind(s, fa, InetSocket) && IsKind(s, fb, InetSocket)
    requires var a, b := s.inet[s.fds[fa].target], s.inet[s.fds[fb].target];
      b.count > 0 && HeadOf(b).address == LOOPBACK && HeadOf(b).port == a.port != 0
    requires |buffer| >= 16 && |reply| <= DATAGRAM_SIZE
    requires RecvFrom(s, fb, n, Some(buffer)).0.inet[s.fds[fa].target].count < DATAGRAMS
    ensures var (s1, _, _, from) := RecvFrom(s, fb, n, Some(buffer));
      var (s2, r) := SendTo(s1, fb, reply, from);
      var a, b := s.fds[fa].target, s.fds[fb].target;
      && r == |reply|
      && s2 == s1.(inet := s1.inet[a := Enqueue(s1.inet[a], Datagram(reply, LOOPBACK, s.inet[b].port))])
  {
    var a, b := s.fds[fa].target, s.fds[fb].target;
    var d := HeadOf(s.inet[b]);
    SocketOf(s, fa);
    SocketOf(s, fb);
    SourceAddressReadBack(d, buffer);
    var (s1, _, _, from) := RecvFrom(s, fb, n, Some(buffer));
    RecvPorts(s, fb, n, Some(buffer));
    assert WithPort(s1, b, fb) == s1;
    DestinationIs(s1.inet, LOOPBACK, d.port, a);
  }

  /** With unique ports the first match is the only one. */
  lemma DestinationIs(inet: seq<Inet>, address: nat, port: nat, i: nat)
    requires i < |inet| && Matches(inet[i], address, port) && port != 0 && UniquePorts(inet)
    ensures Destination(inet, address, port) == i
  {
    var j := Destination(inet, address, port);
    assert j <= i;
    assert Matches(inet[j], address, port);
  }

  /** The whole exchange: A sends to B, anything without a collision of ports
    * happens, B receives that datagram and answers the address it was given. If A has not been closed
    * or rebound and its queue has room, the answer lands in A's queue and in no other. */
  lemma RequestAndReply(s: Vfs, fa: int, fb: int, data: seq<byte>, to: Option<seq<byte>>, cs: seq<Syscall>,
                        n: nat, buffer: seq<byte>, reply: seq<byte>)
    requires PortInv(s) && IsKind(s, fa, InetSocket) && SendTo(s, fa, data, to).1 >= 0
    requires !Collides(s, SendToCall(fa, data, to)) && NoCollision(SendTo(s, fa, data, to).0, cs)
    requires var a := s.fds[fa].target;
      var sent, t := SendTo(s, fa, data, to).0, Run(SendTo(s, fa, data, to).0, cs);
      && IsKind(t, fa, InetSocket) && t.fds[fa].target == a && t.inet[a].port == sent.inet[a].port
      && IsKind(t, fb, InetSocket) && t.inet[t.fds[fb].target].count > 0
      && HeadOf(t.inet[t.fds[fb].target]) == Datagram(data, LOOPBACK, sent.inet[a].port)
      && RecvFrom(t, fb, n, Some(buffer)).0.inet[a].count < DATAGRAMS
    requires |buffer| >= 16 && |reply| <= DATAGRAM_SIZE
    ensures var t := Run(SendTo(s, fa, data, to).0, cs);
      var (t1, _, bytes, from) := RecvFrom(t, fb, n, Some(buffer));
      var (t2, r) := SendTo(t1, fb, reply, from);
      var a, b := s.fds[fa].target, t.fds[fb].target;
      && bytes == data[..Min(|data|, n)] && r == |reply|
      && t2 == t1.(inet := t1.inet[a := Enqueue(t1.inet[a], Datagram(reply, LOOPBACK, t.inet[b].port))])
  {
    SenderIsStamped(s, fa, data, to);
    SendToPorts(s, fa, data, to);
    RunPorts(SendTo(s, fa, data, to).0, cs);
    ReplyReachesSender(Run(SendTo(s, fa, data, to).0, cs), fa, fb, n, buffer, reply);
  }
}
