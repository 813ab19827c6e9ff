/** What a caller gets from the socket calls: which error exactly when, and what a success leads to. */
module SocketCalls {
  import opened Prelude
  import opened VfsSpec
  import opened DescriptorTheorems
  import opened UdpTheorems
  import opened FlowTheorems
  import opened UnixTheorems

  /** Some descriptor from 3 on is free. */
  ghost predicate DescriptorLeft(s: Vfs)
    requires Sane(s)
  {
    exists f :: 3 <= f < MAX_FD && s.fds[f].kind == Empty
  }

  /** `f` is the lowest free descriptor from 3 on. */
  ghost predicate LowestLeft(s: Vfs, f: int)
    requires Sane(s)
  {
    3 <= f < MAX_FD && s.fds[f].kind == Empty && forall g :: 3 <= g < f ==> s.fds[g].kind != Empty
  }

  lemma LeftExactly(s: Vfs)
    requires Sane(s)
    ensures var f := FirstEmpty(s.fds, 3); if DescriptorLeft(s) then LowestLeft(s, f) else f == MAX_FD
  {
    var f := FirstEmpty(s.fds, 3);
    assert f < MAX_FD ==> s.fds[f].kind == Empty;
  }

  // ----- socket

  /** A UDP socket is to be had exactly if a slot and a descriptor are left. It starts on any address,
    * without a port, a peer or datagrams. */
  lemma UdpSocketExactly(s: Vfs)
    requires Sane(s)
    ensures var (s', r) := MakeSocket(s, 2, 2, 0);
      if DescriptorLeft(s) && exists i :: 0 <= i < POOL && !s.inet[i].used then
        && LowestLeft(s, r)
        && exists i :: 0 <= i < POOL && !s.inet[i].used
             && s'.fds == s.fds[r := Desc(InetSocket, 0, i)] && s'.inet == s.inet[i := s'.inet[i]]
             && s'.inet[i].used && !s'.inet[i].connected && s'.inet[i].count == 0
             && s'.inet[i].port == 0 && s'.inet[i].address == 0
             && s'.pipes == s.pipes && s'.unix == s.unix
      else r == -24 && s'.fds == s.fds
  {
    LeftExactly(s);
    var i := FirstFree(InetUse(s));
    if j :| 0 <= j < POOL && !s.inet[j].used {
      assert !InetUse(s)[j];
    }
  }

  /** A unix socket likewise; it starts without peer, pending client, listening or connection, but with the
    * bytes and the path the slot was left with. */
  lemma UnixSocketExactly(s: Vfs)
    requires Sane(s)
    ensures var (s', r) := MakeSocket(s, 1, 1, 0);
      if DescriptorLeft(s) && exists u :: 0 <= u < POOL && !s.unix[u].used then
        && LowestLeft(s, r)
        && exists u :: 0 <= u < POOL && !s.unix[u].used
             && s'.fds == s.fds[r := Desc(UnixSocket, 0, u)]
             && s'.unix == s.unix[u := Unix(s.unix[u].ring, NO_SOCKET, NO_SOCKET, true, false, false, s.unix[u].path)]
             && s'.pipes == s.pipes && s'.inet == s.inet
      else r == -24 && s'.fds == s.fds
  {
    LeftExactly(s);
    if u :| 0 <= u < POOL && !s.unix[u].used {
      assert !UnixUse(s)[u];
    }
  }

  /** No other kind of socket exists. */
  lemma OtherSockets(s: Vfs, domain: int, kind: int, protocol: int)
    requires Sane(s) && !(domain == 2 && kind == 2 && protocol == 0) && !(domain == 1 && kind == 1 && protocol == 0)
    ensures MakeSocket(s, domain, kind, protocol) == (s, -38)
  {
  }

  // ----- UDP: bind, connect, send

  /** Another open socket has the port, on an address that overlaps with `ip`: equal, or one of them any. */
  ghost predicate Overlaps(s: Vfs, me: nat, ip: nat, port: nat)
    requires Sane(s)
  {
    exists j :: 0 <= j < POOL && j != me && s.inet[j].used && s.inet[j].port == port
      && (s.inet[j].address == ip || s.inet[j].address == 0 || ip == 0)
  }

  /** Binding fails exactly for a bad address or one that overlaps with that of another open socket;
    * otherwise the socket has this address and port, and nothing else changes. */
  lemma UdpBindExactly(s: Vfs, fd: int, address: Option<seq<byte>>)
    requires Sane(s) && IsKind(s, fd, InetSocket)
    ensures var i := s.fds[fd].target;
      var (s', r) := Bind(s, fd, address);
      match ParseInet(address)
      case Bad(e) => r == e && s' == s
      case Good(ip, port) =>
        if Overlaps(s, i, ip, port) then r == -98 && s' == s
        else r == 0 && s' == s.(inet := s.inet[i := s.inet[i].(address := ip, port := port)])
  {
  }

  /** An open socket that a datagram for this address and port is for. */
  predicate IsFor(i: Inet, ip: nat, port: nat) {
    i.used && i.port == port && (i.address == ip || i.address == 0)
  }

  /** The first socket the datagram is for. */
  ghost predicate FirstFor(s: Vfs, j: nat, ip: nat, port: nat)
    requires Sane(s)
  {
    j < POOL && IsFor(s.inet[j], ip, port) && forall k :: 0 <= k < j ==> !IsFor(s.inet[k], ip, port)
  }

  /** What becomes of a datagram: refused for its length above 512 bytes, for want of a receiver, or because
    * the receiver has eight already, in this order; otherwise it joins the queue of the first socket it is
    * for, with the sender's address, or loopback for any, and the sender's port. */
  lemma DatagramExactly(s: Vfs, i: nat, data: seq<byte>, ip: nat, port: nat)
    requires Sane(s) && i < POOL
    ensures var (s', r) := InetSend(s, i, data, ip, port);
      if |data| > 512 then r == -90 && s' == s
      else if forall j :: 0 <= j < POOL ==> !IsFor(s.inet[j], ip, port) then r == -111 && s' == s
      else exists j :: FirstFor(s, j, ip, port) && Joins(s, s', r, i, data, j)
  {
    var j := Destination(s.inet, ip, port);
    assert forall k :: 0 <= k < POOL ==> (Matches(s.inet[k], ip, port) <==> IsFor(s.inet[k], ip, port));
    if j < POOL {
      assert FirstFor(s, j, ip, port);
      if s.inet[j].count < DATAGRAMS {
        EnqueueAppends(s.inet[j], Stamp(s.inet[i], data));
      }
    }
  }

  /** The datagram of socket `i` is offered to socket `j`. */
  ghost predicate Joins(s: Vfs, s': Vfs, r: int, i: nat, data: seq<byte>, j: nat)
    requires Sane(s) && Sane(s') && i < POOL && j < POOL
  {
    if s.inet[j].count == 8 then r == -11 && s' == s
    else
      var gram := Datagram(data, if s.inet[i].address == 0 then LOOPBACK else s.inet[i].address, s.inet[i].port);
      && r == |data| && s' == s.(inet := s.inet[j := s'.inet[j]])
      && s'.inet[j] == s.inet[j].(grams := s'.inet[j].grams, tail := s'.inet[j].tail, count := s'.inet[j].count)
      && s'.inet[j].count == s.inet[j].count + 1
      && (Aligned(s.inet[j]) ==> Aligned(s'.inet[j]) && Queue(s'.inet[j]) == Queue(s.inet[j]) + [gram])
  }

  /** sendto checks the address before anything else; a socket without a port then gets that of its
    * descriptor, 49152 plus its number less 3, and keeps it whatever becomes of the datagram. */
  lemma SendToExactly(s: Vfs, fd: int, data: seq<byte>, address: Option<seq<byte>>)
    requires Inv(s) && IsKind(s, fd, InetSocket)
    ensures var i := s.fds[fd].target;
      match ParseInet(address)
      case Bad(e) => SendTo(s, fd, data, address) == (s, e)
      case Good(ip, port) =>
        var own := if s.inet[i].port == 0 then 49152 + fd - 3 else s.inet[i].port;
        && Sane(s.(inet := s.inet[i := s.inet[i].(port := own)]))
        && SendTo(s, fd, data, address) == InetSend(s.(inet := s.inet[i := s.inet[i].(port := own)]), i, data, ip, port)
  {
    SocketOf(s, fd);
    var i := s.fds[fd].target;
    assert s.inet[i := s.inet[i].(port := s.inet[i].port)] == s.inet;
  }

  /** Two UDP sockets that differ at most in the peer they are connected to. */
  predicate SameButPeer(a: Inet, b: Inet) {
    a == b.(peerAddress := a.peerAddress, peerPort := a.peerPort, connected := a.connected)
  }

  /** The same tables, but for the peer of socket `i`. */
  ghost predicate AlikeButPeer(u: Vfs, v: Vfs, i: nat)
    requires Sane(u) && Sane(v) && i < POOL
  {
    && u.fds == v.fds && u.pipes == v.pipes && u.unix == v.unix
    && (forall j :: 0 <= j < POOL && j != i ==> u.inet[j] == v.inet[j])
    && SameButPeer(u.inet[i], v.inet[i])
  }

  lemma SendsAlike(c: Vfs, w: Vfs, i: nat, data: seq<byte>, ip: nat, port: nat)
    requires Sane(c) && Sane(w) && i < POOL && AlikeButPeer(c, w, i)
    ensures var (u, r) := InetSend(c, i, data, ip, port);
      var (v, r') := InetSend(w, i, data, ip, port);
      r == r' && AlikeButPeer(u, v, i)
  {
    forall j | 0 <= j < POOL ensures SameButPeer(c.inet[j], w.inet[j]) {}
    SameDestination(c.inet, w.inet, ip, port);
  }

  lemma Connected(s: Vfs, fd: int, address: Option<seq<byte>>)
    requires Sane(s) && IsKind(s, fd, InetSocket) && ParseInet(address).Good?
    ensures var i, to, c := s.fds[fd].target, ParseInet(address), Connect(s, fd, address).0;
      && Connect(s, fd, address).1 == 0 && IsKind(c, fd, InetSocket) && c.fds == s.fds
      && c.inet[i].connected && c.inet[i].peerAddress == to.ip && c.inet[i].peerPort == to.port
      && AlikeButPeer(c, WithPort(s, i, fd), i)
  {
  }

  /** Connecting to an address and sending is sending to that address: the same result, the same tables but
    * for the stored peer. */
  lemma ConnectThenSend(s: Vfs, fd: int, address: Option<seq<byte>>, data: seq<byte>)
    requires Sane(s) && IsKind(s, fd, InetSocket) && ParseInet(address).Good?
    ensures Connect(s, fd, address).1 == 0
    ensures var (u, r) := Send(Connect(s, fd, address).0, fd, data);
      var (v, r') := SendTo(s, fd, data, address);
      r == r' && AlikeButPeer(u, v, s.fds[fd].target)
  {
    var i, to := s.fds[fd].target, ParseInet(address);
    Connected(s, fd, address);
    SendsAlike(Connect(s, fd, address).0, WithPort(s, i, fd), i, data, to.ip, to.port);
  }

  lemma {:induction false} SameDestination(a: seq<Inet>, b: seq<Inet>, ip: nat, port: nat)
    requires |a| == |b| && forall j :: 0 <= j < |a| ==> SameButPeer(a[j], b[j])
    ensures Destination(a, ip, port) == Destination(b, ip, port)
  {
    if a != [] {
      assert SameButPeer(a[0], b[0]);
      SameDestination(a[1..], b[1..], ip, port);
    }
  }

  /** A bad address connects nothing, and a socket that is not connected does not send. */
  lemma UdpConnectRefused(s: Vfs, fd: int, address: Option<seq<byte>>, data: seq<byte>)
    requires Sane(s) && IsKind(s, fd, InetSocket)
    ensures ParseInet(address).Bad? ==> Connect(s, fd, address) == (s, ParseInet(address).error)
    ensures !s.inet[s.fds[fd].target].connected ==> Send(s, fd, data) == (s, -107)
  {
  }

  /** Receiving fails exactly if nothing is queued. Otherwise the datagram at the head goes, as much of it is
    * delivered as is asked for, and its source is written to the buffer exactly if that has 16 bytes. */
  lemma ReceiveExactly(s: Vfs, fd: int, n: nat, buffer: Option<seq<byte>>)
    requires Sane(s) && IsKind(s, fd, InetSocket)
    ensures var i := s.fds[fd].target;
      var (s', r, bytes, from) := RecvFrom(s, fd, n, buffer);
      if s.inet[i].count == 0 then s' == s && r == -11 && bytes == [] && from == buffer
      else
        var d := Queue(s.inet[i])[0];
        && r == |bytes| == Min(|d.data|, n) && bytes == d.data[..r]
        && s' == s.(inet := s.inet[i := s'.inet[i]]) && Queue(s'.inet[i]) == Queue(s.inet[i])[1..]
        && (if buffer.Some? && |buffer.value| >= 16 then from == Some(SourceAddress(d, buffer.value)) else from == buffer)
    ensures Recv(s, fd, n) == (RecvFrom(s, fd, n, None).0, RecvFrom(s, fd, n, None).1, RecvFrom(s, fd, n, None).2)
  {
    var i := s.fds[fd].target;
    if s.inet[i].count > 0 {
      DequeueRemoves(s.inet[i]);
    }
  }

  // ----- Unix: bind, listen, connect, accept

  /** Binding fails exactly for a bad address or a path another open socket has; otherwise the socket has
    * the path, and nothing else changes. */
  lemma UnixBindExactly(s: Vfs, fd: int, address: Option<seq<byte>>)
    requires Sane(s) && IsKind(s, fd, UnixSocket)
    ensures var u := s.fds[fd].target;
      var (s', r) := Bind(s, fd, address);
      match ParseUnix(address)
      case BadPath(e) => r == e && s' == s
      case GoodPath(path) =>
        if exists v :: 0 <= v < POOL && v != u && s.unix[v].used && s.unix[v].path == path then r == -98 && s' == s
        else r == 0 && s' == s.(unix := s.unix[u := s.unix[u].(path := path)])
  {
  }

  /** A socket listens exactly if it has a path. */
  lemma ListenExactly(s: Vfs, fd: int)
    requires Sane(s) && IsKind(s, fd, UnixSocket)
    ensures var u := s.fds[fd].target;
      var (s', r) := Listen(s, fd);
      if s.unix[u].path == [] then r == -22 && s' == s
      else r == 0 && s' == s.(unix := s.unix[u := s.unix[u].(listening := true)])
  {
  }

  /** `u` is the first open socket that listens at `path`. */
  ghost predicate FirstAt(s: Vfs, u: nat, path: seq<byte>)
    requires Sane(s)
  {
    && u < POOL && s.unix[u].used && s.unix[u].listening && s.unix[u].path == path
    && forall v :: 0 <= v < u ==> !(s.unix[v].used && s.unix[v].listening && s.unix[v].path == path)
  }

  /** Connecting fails exactly for a bad address or one nobody listens at. Otherwise the first that does is
    * the client's peer, and has the client waiting, whoever waited before. */
  lemma UnixConnectExactly(s: Vfs, fd: int, address: Option<seq<byte>>)
    requires Sane(s) && IsKind(s, fd, UnixSocket)
    ensures var c := s.fds[fd].target;
      var (s', r) := Connect(s, fd, address);
      match ParseUnix(address)
      case BadPath(e) => r == e && s' == s
      case GoodPath(path) =>
        if forall v :: 0 <= v < POOL ==> !(s.unix[v].used && s.unix[v].listening && s.unix[v].path == path) then r == -2 && s' == s
        else exists u: nat :: FirstAt(s, u, path) && r == 0 && WaitsAt(s, s', fd, u)
  {
    if ParseUnix(address).GoodPath? {
      var path := ParseUnix(address).path;
      var u := Listener(s.unix, path);
      if u < POOL {
        assert FirstAt(s, u, path);
        assert WaitsAt(s, Connect(s, fd, address).0, fd, u);
      }
    }
  }

  /** The client on `fd` has socket `u` as its peer, which remembers the client; nothing else has changed. */
  ghost predicate WaitsAt(s: Vfs, s': Vfs, fd: int, u: nat)
    requires Sane(s) && Sane(s') && IsKind(s, fd, UnixSocket) && u < POOL
  {
    var c := s.fds[fd].target;
    && s'.fds == s.fds && s'.pipes == s.pipes && s'.inet == s.inet
    && s'.unix[c].connected && s'.unix[c].peer == u && s'.unix[u].pending == fd
    && forall v :: 0 <= v < POOL ==>
         s'.unix[v] == s.unix[v].(peer := if v == c then u else s.unix[v].peer,
                                  connected := v == c || s.unix[v].connected,
                                  pending := if v == u then fd else s.unix[v].pending)
  }

  /** A client is waiting: the server listens, and the descriptor it remembers is still a unix socket. */
  predicate Waiting(s: Vfs, fd: int)
    requires |s.unix| == POOL && IsKind(s, fd, UnixSocket) && s.fds[fd].target < POOL
  {
    var v := s.unix[s.fds[fd].target];
    v.listening && v.pending != NO_SOCKET && IsKind(s, v.pending, UnixSocket)
  }

  /** Slot `a` has been taken for the client behind `fd`, and nobody else is waiting there any more. */
  ghost predicate TakenFor(s: Vfs, s': Vfs, fd: int, a: nat)
    requires Sane(s) && Sane(s') && IsKind(s, fd, UnixSocket) && Waiting(s, fd) && a < POOL
  {
    var v := s.fds[fd].target;
    var c := s.fds[s.unix[v].pending].target;
    && !s.unix[a].used && s'.unix[a].used && s'.pipes == s.pipes && s'.inet == s.inet
    && forall u :: 0 <= u < POOL ==>
         s'.unix[u] == s.unix[u].(used := u == a || s.unix[u].used, connected := u == a || s.unix[u].connected,
                                  peer := if u == c then a else if u == a then c else s.unix[u].peer,
                                  pending := if u == v then NO_SOCKET else s.unix[u].pending)
  }

  /** The server has forgotten whoever was waiting; nothing else has changed. */
  ghost predicate Forgotten(s: Vfs, s': Vfs, fd: int)
    requires Sane(s) && IsKind(s, fd, UnixSocket)
  {
    var v := s.fds[fd].target;
    s' == if s.unix[v].listening then s.(unix := s.unix[v := s.unix[v].(pending := NO_SOCKET)]) else s
  }

  /** Accepting fails exactly if nobody is waiting, or no slot or no descriptor is left. If it is the
    * descriptor, the slot is taken all the same, and the client's peer. */
  lemma AcceptExactly(s: Vfs, fd: int)
    requires Inv(s) && IsKind(s, fd, UnixSocket)
    ensures var (s', r) := Accept(s, fd);
      if !Waiting(s, fd) then r == -11 && Forgotten(s, s', fd)
      else if forall u :: 0 <= u < POOL ==> s.unix[u].used then r == -24 && Forgotten(s, s', fd)
      else exists a: nat ::
        && a < POOL && TakenFor(s, s', fd, a)
        && if DescriptorLeft(s) then LowestLeft(s, r) && s'.fds == s.fds[r := Desc(UnixSocket, 0, a)]
           else r == -24 && s'.fds == s.fds
  {
    LeftExactly(s);
    var v := s.fds[fd].target;
    var s1 := s.(unix := s.unix[v := s.unix[v].(pending := NO_SOCKET)]);
    assert s.unix[v].pending == NO_SOCKET ==> s1.unix == s.unix;
    TargetUsed(s, fd);
    if u :| 0 <= u < POOL && !s.unix[u].used {
      assert !UnixUse(s1)[u];
    }
    if Waiting(s, fd) {
      var a := FirstFree(UnixUse(s1));
      TargetUsed(s, s.unix[v].pending);
      if a < POOL {
        assert UnixUse(s1)[v] && TakenFor(s, Accept(s, fd).0, fd, a);
      }
    }
  }

  /** Whatever came of it, a client is accepted once at most: right after, nobody is waiting. */
  lemma AcceptTakesTheClient(s: Vfs, fd: int)
    requires Inv(s) && IsKind(s, fd, UnixSocket)
    ensures var s' := Accept(s, fd).0; IsKind(s', fd, UnixSocket) && Accept(s', fd).1 == -11
  {
    AcceptInv(s, fd);
    TargetUsed(s, fd);
    var v := s.fds[fd].target;
    var s1 := s.(unix := s.unix[v := s.unix[v].(pending := NO_SOCKET)]);
    assert UnixUse(s1)[v];
    AcceptExactly(Accept(s, fd).0, fd);
  }

  /** The whole handshake: a client that connects to the path of the first listener there is accepted next,
    * if a slot and a descriptor are left, and the two are then linked. */
  lemma ConnectThenAccept(s: Vfs, server: int, client: int, address: Option<seq<byte>>)
    requires Inv(s) && IsKind(s, server, UnixSocket) && IsKind(s, client, UnixSocket)
    requires ParseUnix(address).GoodPath? && FirstAt(s, s.fds[server].target, ParseUnix(address).path)
    requires DescriptorLeft(s) && exists u :: 0 <= u < POOL && !s.unix[u].used
    ensures var (t, r) := Connect(s, client, address);
      var (w, afd) := Accept(t, server);
      r == 0 && afd >= 0 && Linked(w, client, afd)
  {
    var u, path := s.fds[server].target, ParseUnix(address).path;
    assert Listener(s.unix, path) == u;
    var t := Connect(s, client, address).0;
    ConnectShape(s, client, address);
    SameShapeInv(s, t);
    assert t.fds == s.fds && t.unix[u].pending == client;
    assert DescriptorLeft(t);
    AcceptExactly(t, server);
    AcceptLinks(t, server);
  }

  /** Once the accepted side is closed, the client can send nothing more. */
  lemma PeerGone(s: Vfs, x: int, y: int, data: seq<byte>)
    requires Inv(s) && Linked(s, x, y)
    ensures Send(Close(s, y).0, x, data).1 == -107
  {
  }

  /** Calls on descriptors that are no sockets, or of the wrong family, fail. */
  lemma NoSocketRefused(s: Vfs, fd: int, address: Option<seq<byte>>, data: seq<byte>, n: nat)
    requires Sane(s)
    ensures !IsKind(s, fd, InetSocket) ==> SendTo(s, fd, data, address) == (s, -9) && RecvFrom(s, fd, n, None) == (s, -9, [], None)
    ensures !IsKind(s, fd, UnixSocket) ==> Listen(s, fd) == (s, -9) && Accept(s, fd) == (s, -9)
    ensures !IsKind(s, fd, UnixSocket) && !IsKind(s, fd, InetSocket) ==>
      && Bind(s, fd, address) == (s, -9) && Connect(s, fd, address) == (s, -9)
      && Send(s, fd, data) == (s, -9) && Recv(s, fd, n) == (s, -9, [])
  {
  }
}
