/** How bytes of an old unix connection reach a stranger: closing a socket does not clear the peer of the
  * other side. */
module UnixStrangers {
  import opened Prelude
  import opened RingBuffer
  import opened VfsSpec
  import opened VfsRuns
  import opened DescriptorTheorems
  import opened FlowTheorems
  import opened UnixTheorems

  /** After one side of a connection is closed, the next socket call takes over its slot exactly if every
    * lower slot is in use; the other side then points at the new owner. */
  lemma StalePeerExactly(s: Vfs, x: int, y: int)
    requires Inv(s) && IsKind(s, x, UnixSocket) && IsKind(s, y, UnixSocket) && x != y
    requires s.unix[s.fds[x].target].peer == s.fds[y].target
    ensures var a, b := s.fds[x].target, s.fds[y].target;
      var (s2, z) := MakeSocket(Close(s, y).0, 1, 1, 0);
      && z >= 0 && IsKind(s2, z, UnixSocket) && z != x
      && (s2.fds[z].target == b <==> forall u :: 0 <= u < b ==> s.unix[u].used)
      && IsKind(s2, x, UnixSocket) && s2.fds[x].target == a && s2.unix[a].peer == b
  {
    var b, s1 := s.fds[y].target, Close(s, y).0;
    ClosedState(s, x, y);
    FreeSlots(s1, b);
    TargetUsed(s1, x);
    SocketKeepsLinks(s1, 1, 1, 0);
    var (s2, z) := MakeSocket(s1, 1, 1, 0);
    assert s2.fds[x] == s.fds[x] && s2.unix[s.fds[x].target].peer == b;
  }

  lemma ClosedState(s: Vfs, x: int, y: int)
    requires Inv(s) && IsKind(s, x, UnixSocket) && IsKind(s, y, UnixSocket) && x != y
    ensures var s1, b := Close(s, y).0, s.fds[y].target;
      && Inv(s1) && y >= 3 && s1.fds[y].kind == Empty && s1.fds[x] == s.fds[x]
      && (forall u :: 0 <= u < POOL ==> s1.unix[u].used == (u != b && s.unix[u].used) && s1.unix[u].peer == s.unix[u].peer)
  {
    TargetUsed(s, x);
    TargetUsed(s, y);
    CloseInv(s, y);
  }

  lemma FreeSlots(s: Vfs, b: nat)
    requires Sane(s) && b < POOL && !s.unix[b].used
    ensures FirstFree(UnixUse(s)) == b <==> forall u :: 0 <= u < b ==> s.unix[u].used
  {
    assert !UnixUse(s)[b];
  }

  // ----- A run in which it happens

  /** Descriptors 3, 4, .. are open on the unix slots 0, 1, .., and nothing else is; slot 2 has never been
    * written to. */
  ghost predicate Opened(s: Vfs, k: nat) {
    && Sane(s) && k <= 3
    && (forall f :: 3 <= f < 3 + k ==> s.fds[f] == Desc(UnixSocket, 0, f - 3))
    && (forall f :: 3 + k <= f < MAX_FD ==> s.fds[f].kind == Empty)
    && (forall u :: 0 <= u < k ==> s.unix[u].used)
    && (forall u :: k <= u < POOL ==> !s.unix[u].used)
    && s.unix[2].ring == EmptyRing()
  }

  /** The bytes of the unix address "a". */
  const ADDRESS: seq<byte> := [1, 0, 0x61]

  const PATH: seq<byte> := [0x61]

  lemma ParseAddress()
    ensures ParseUnix(Some(ADDRESS)) == GoodPath(PATH)
  {
    assert ADDRESS[2..] == [0x61] && [0x61][1..] == [];
    assert PathPrefix([0x61], 107) == [0x61] + PathPrefix([], 106);
  }

  /** Slot 0 listens at the address. */
  ghost predicate Serving(s: Vfs) {
    |s.unix| == POOL && s.unix[0].listening && s.unix[0].path == PATH
  }

  lemma NextDescriptor(s: Vfs, k: nat)
    requires Opened(s, k)
    ensures FirstEmpty(s.fds, 3) == 3 + k
  {
    assert forall f :: 3 <= f < 3 + k ==> s.fds[f].kind == UnixSocket;
    assert s.fds[3 + k].kind == Empty;
  }

  lemma OpenNext(s: Vfs, k: nat)
    requires Opened(s, k) && k < 3
    ensures var s' := MakeSocket(s, 1, 1, 0).0;
      Opened(s', k + 1) && forall u :: 0 <= u < POOL && u != k ==> s'.unix[u] == s.unix[u]
  {
    NextDescriptor(s, k);
    assert !UnixUse(s)[k];
    assert FirstFree(UnixUse(s)) == k;
  }

  lemma Serve(s: Vfs)
    requires Opened(s, 1)
    ensures var s' := Listen(Bind(s, 3, Some(ADDRESS)).0, 3).0; Opened(s', 1) && Serving(s')
  {
    ParseAddress();
    var s1 := Bind(s, 3, Some(ADDRESS)).0;
    assert s1.unix == s.unix[0 := s.unix[0].(path := PATH)] && s1.fds == s.fds;
  }

  /** The socket on descriptor 3 + i connects to the server. */
  lemma ConnectTo(s: Vfs, k: nat, i: nat)
    requires Opened(s, k) && Serving(s) && 0 < i < k
    ensures var s' := Connect(s, 3 + i, Some(ADDRESS)).0;
      && Opened(s', k) && Serving(s') && s'.unix[0].pending == 3 + i
      && s'.unix[i].connected && s'.unix[i].peer == 0
      && forall u :: 0 < u < POOL && u != i ==> s'.unix[u] == s.unix[u]
  {
    ParseAddress();
    assert Listener(s.unix, PATH) == 0;
  }

  lemma AcceptOne(s: Vfs)
    requires Opened(s, 2) && Serving(s) && s.unix[0].pending == 4
    ensures var s' := Accept(s, 3).0; Opened(s', 3) && Serving(s') && s'.unix[1].peer == 2 && s'.unix[2].peer == 1
  {
    var s1 := s.(unix := s.unix[0 := s.unix[0].(pending := NO_SOCKET)]);
    assert UnixUse(s1)[0] && UnixUse(s1)[1] && !UnixUse(s1)[2];
    assert FirstFree(UnixUse(s1)) == 2;
    NextDescriptor(s, 2);
  }

  lemma CloseAccepted(s: Vfs)
    requires Opened(s, 3) && Serving(s) && s.unix[1].peer == 2 && s.unix[2].peer == 1
    ensures var s' := Close(s, 5).0; Opened(s', 2) && Serving(s') && s'.unix[1].peer == 2
  {
  }

  /** The client on descriptor 4 still points at slot 2, whose new owner is connected to the server and
    * not to the client: what the client sends, the new owner reads. */
  lemma StrangerReads(s: Vfs)
    requires Opened(s, 3) && s.unix[1].peer == 2 && s.unix[2].connected
    ensures var (s', n) := Send(s, 4, [7]); n == 1 && Recv(s', 5, 1).1 == 1 && Recv(s', 5, 1).2 == [7]
  {
    var r := s.unix[2].ring;
    PutAppends(r, [7]);
    assert Pending(r) == [] && [7][..1] == [7];
    var s' := Send(s, 4, [7]).0;
    assert s'.fds == s.fds && s'.unix[2].ring == Put(r, [7]).0;
    TakeRemoves(s'.unix[2].ring, 1);
    var (r2, bytes) := Take(s'.unix[2].ring, 1);
    assert bytes + Pending(r2) == [7] && |bytes| == 1;
    assert bytes == (bytes + Pending(r2))[..1] == [7];
  }

  /** Server, first client, handshake, end of the accepted side, and a second client. */
  function StrangerRun(): seq<Syscall> {
    Server() + Client() + NextClient()
  }

  function Server(): seq<Syscall> {
    [SocketCall(1, 1, 0), BindCall(3, Some(ADDRESS)), ListenCall(3)]
  }

  function Client(): seq<Syscall> {
    [SocketCall(1, 1, 0), ConnectCall(4, Some(ADDRESS)), AcceptCall(3)]
  }

  function NextClient(): seq<Syscall> {
    [CloseCall(5), SocketCall(1, 1, 0), ConnectCall(5, Some(ADDRESS))]
  }

  lemma DoSocket(s: Vfs)
    requires Sane(s)
    ensures Do(s, SocketCall(1, 1, 0)).0 == MakeSocket(s, 1, 1, 0).0
  {
  }

  lemma DoListen(s: Vfs, fd: int)
    requires Sane(s)
    ensures Do(s, ListenCall(fd)).0 == Listen(s, fd).0
  {
  }

  lemma DoConnect(s: Vfs, fd: int, address: Option<seq<byte>>)
    requires Sane(s)
    ensures Do(s, ConnectCall(fd, address)).0 == Connect(s, fd, address).0
  {
  }

  lemma DoAccept(s: Vfs, fd: int)
    requires Sane(s)
    ensures Do(s, AcceptCall(fd)).0 == Accept(s, fd).0
  {
  }

  lemma DoClose(s: Vfs, fd: int)
    requires Sane(s)
    ensures Do(s, CloseCall(fd)).0 == Close(s, fd).0
  {
  }

  lemma FirstThree(s: Vfs)
    requires Opened(s, 0)
    ensures var t := Run(s, Server()); Opened(t, 1) && Serving(t)
  {
    var s1 := MakeSocket(s, 1, 1, 0).0;
    var s2 := Bind(s1, 3, Some(ADDRESS)).0;
    OpenNext(s, 0);
    Serve(s1);
    DoSocket(s);
    DoBind(s1, 3, Some(ADDRESS));
    DoListen(s2, 3);
    RunThree(s, SocketCall(1, 1, 0), BindCall(3, Some(ADDRESS)), ListenCall(3));
  }

  lemma NextThree(s: Vfs)
    requires Opened(s, 1) && Serving(s)
    ensures var t := Run(s, Client()); Opened(t, 3) && Serving(t) && t.unix[1].peer == 2 && t.unix[2].peer == 1
  {
    var s1 := MakeSocket(s, 1, 1, 0).0;
    OpenNext(s, 1);
    var s2 := Connect(s1, 4, Some(ADDRESS)).0;
    ConnectTo(s1, 2, 1);
    AcceptOne(s2);
    DoSocket(s);
    DoConnect(s1, 4, Some(ADDRESS));
    DoAccept(s2, 3);
    RunThree(s, SocketCall(1, 1, 0), ConnectCall(4, Some(ADDRESS)), AcceptCall(3));
  }

  lemma LastThree(s: Vfs)
    requires Opened(s, 3) && Serving(s) && s.unix[1].peer == 2 && s.unix[2].peer == 1
    ensures var t := Run(s, NextClient());
      Opened(t, 3) && t.unix[1].peer == 2 && t.unix[2].peer == 0 && t.unix[2].connected
  {
    var s1 := Close(s, 5).0;
    CloseAccepted(s);
    var s2 := MakeSocket(s1, 1, 1, 0).0;
    OpenNext(s1, 2);
    ConnectTo(s2, 3, 2);
    DoClose(s, 5);
    DoSocket(s1);
    DoConnect(s2, 5, Some(ADDRESS));
    RunThree(s, CloseCall(5), SocketCall(1, 1, 0), ConnectCall(5, Some(ADDRESS)));
  }

  lemma WholeRun(s: Vfs)
    requires Opened(s, 0)
    ensures var t := Run(s, StrangerRun());
      Opened(t, 3) && t.unix[1].peer == 2 && t.unix[2].peer == 0 && t.unix[2].connected
  {
    var a, b, c := Server(), Client(), NextClient();
    FirstThree(s);
    NextThree(Run(s, a));
    LastThree(Run(Run(s, a), b));
    RunConcat(s, a, b);
    RunConcat(s, a + b, c);
  }

  lemma StrangerReadsByCalls(s: Vfs)
    requires Opened(s, 3) && s.unix[1].peer == 2 && s.unix[2].connected
    ensures Do(s, SendCall(4, [7])).1.ret == 1
    ensures Do(Do(s, SendCall(4, [7])).0, RecvCall(5, 1)).1 == Reply(1, [7])
  {
    StrangerReads(s);
  }

  /** From boot: the client and the second client are not connected to each other, yet a byte sent by the
    * one is what the other reads. */
  lemma BytesReachAStranger()
    ensures var s := Run(Boot(), StrangerRun());
      && IsKind(s, 4, UnixSocket) && IsKind(s, 5, UnixSocket)
      && s.unix[s.fds[5].target].peer != s.fds[4].target
      && Do(s, SendCall(4, [7])).1.ret == 1
      && Do(Do(s, SendCall(4, [7])).0, RecvCall(5, 1)).1 == Reply(1, [7])
  {
    BootOpened();
    WholeRun(Boot());
    StrangerReadsByCalls(Run(Boot(), StrangerRun()));
  }

  lemma BootOpened()
    ensures Opened(Boot(), 0)
  {
  }
}
