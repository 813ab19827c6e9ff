/** The tables of sys/kernel/fs/vfs.c, changed in place by the system calls. */
module VfsImpl {
  import opened Prelude
  import opened RingBuffer
  import opened VfsSpec

  class VfsTables {
    const fds: array<Desc>
    const pipes: array<Pipe>
    const unix: array<Unix>
    const inet: array<Inet>

    ghost function State(): Vfs
      reads this, fds, pipes, unix, inet
    {
      Vfs(fds[..], pipes[..], unix[..], inet[..])
    }

    ghost predicate Valid()
      reads this, fds, pipes, unix, inet
    {
      Sane(State())
    }

    /** vfs_init over zeroed tables. */
    constructor ()
      ensures Valid() && State() == Boot()
      ensures fresh(fds) && fresh(pipes) && fresh(unix) && fresh(inet)
    {
      fds := new Desc[MAX_FD](f => if f < 3 then Desc(Device, 0, 0) else Desc(Empty, 0, 0));
      pipes := new Pipe[POOL](_ => Pipe(EmptyRing(), 0, 0, false));
      unix := new Unix[POOL](_ => Unix(EmptyRing(), 0, 0, false, false, false, []));
      inet := new Inet[POOL](_ => BlankInet());
      new;
      assert fds[..] == Boot().fds && pipes[..] == Boot().pipes && unix[..] == Boot().unix && inet[..] == Boot().inet;
    }

    // ----- One table entry at a time

    method SetFd(f: nat, d: Desc)
      requires f < fds.Length
      modifies fds
      ensures State() == old(State()).(fds := old(fds[..])[f := d])
    {
      fds[f] := d;
    }

    method SetPipe(p: nat, d: Pipe)
      requires p < pipes.Length
      modifies pipes
      ensures State() == old(State()).(pipes := old(pipes[..])[p := d])
    {
      pipes[p] := d;
    }

    method SetUnix(u: nat, d: Unix)
      requires u < unix.Length
      modifies unix
      ensures State() == old(State()).(unix := old(unix[..])[u := d])
    {
      unix[u] := d;
    }

    method SetInet(i: nat, d: Inet)
      requires i < inet.Length
      modifies inet
      ensures State() == old(State()).(inet := old(inet[..])[i := d])
    {
      inet[i] := d;
    }

    // ----- Descriptors

    method FindEmptyFd() returns (f: nat)
      requires Valid()
      ensures f == FirstEmpty(fds[..], 3)
    {
      f := 3;
      while f < MAX_FD
        invariant 3 <= f <= FirstEmpty(fds[..], 3)
      {
        if fds[f].kind == Empty {
          return;
        }
        f := f + 1;
      }
    }

    method AllocateFd(kind: Kind, target: nat) returns (fd: int)
      requires Valid() && (kind in {PipeRead, PipeWrite, UnixSocket, InetSocket} ==> target < POOL)
      modifies fds
      ensures Valid()
      ensures State() == old(State()).(fds := VfsSpec.AllocateFd(old(fds[..]), kind, target).0)
      ensures fd == VfsSpec.AllocateFd(old(fds[..]), kind, target).1
    {
      var f := FindEmptyFd();
      if f == MAX_FD {
        return -24;
      }
      SetFd(f, Desc(kind, 0, target));
      fd := f;
    }

    /** `node` is the address malloc returned, `result` what the driver or file lookup returned. */
    method Open(node: nat, result: int) returns (fd: int, freed: bool)
      requires Valid()
      modifies fds
      ensures Valid() && (State(), fd, freed) == VfsSpec.Open(old(State()), node, result)
    {
      var f := FindEmptyFd();
      if f == MAX_FD {
        return -24, false;
      }
      if node == 0 {
        return -12, false;
      }
      if result != 0 {
        return result, true;
      }
      SetFd(f, Desc(VfsFile, 0, node));
      return f, false;
    }

    /** `freed` is the address given to free, 0 for none. */
    method Close(fd: int) returns (r: int, freed: nat)
      requires Valid()
      modifies fds, pipes, unix, inet
      ensures Valid() && (State(), r, freed) == VfsSpec.Close(old(State()), fd)
    {
      if fd < 0 || fd >= MAX_FD || fds[fd].kind == Empty {
        return -9, 0;
      }
      var d := fds[fd];
      freed := 0;
      if d.kind == PipeRead || d.kind == PipeWrite {
        CloseEnd(d.target, d.kind == PipeRead);
      } else if d.kind == UnixSocket {
        var peer := unix[d.target].peer;
        if peer < POOL {
          SetUnix(peer, unix[peer].(connected := false));
        }
        SetUnix(d.target, unix[d.target].(used := false));
      } else if d.kind == InetSocket {
        SetInet(d.target, inet[d.target].(used := false));
      } else {
        freed := d.target;
      }
      SetFd(fd, Desc(Empty, 0, 0));
      r := 0;
    }

    method CloseEnd(p: nat, reader: bool)
      requires Valid() && p < POOL
      modifies pipes
      ensures Valid()
      ensures State() == old(State()).(pipes := old(pipes[..])[p := DropPipe(
        var q := old(pipes[p]);
        if reader then (if q.readers > 0 then q.(readers := q.readers - 1) else q)
        else (if q.writers > 0 then q.(writers := q.writers - 1) else q))])
    {
      var q := pipes[p];
      if reader && q.readers > 0 {
        q := q.(readers := q.readers - 1);
      }
      if !reader && q.writers > 0 {
        q := q.(writers := q.writers - 1);
      }
      if q.readers == 0 && q.writers == 0 {
        q := q.(used := false);
      }
      SetPipe(p, q);
    }

    // ----- Pipes

    method MakePipe() returns (r: int, rfd: int, wfd: int)
      requires Valid()
      modifies fds, pipes
      ensures Valid() && (State(), r, rfd, wfd) == VfsSpec.MakePipe(old(State()))
    {
      var p := 0;
      while p < POOL && pipes[p].used
        invariant 0 <= p <= FirstFree(PipeUse(State()))
      {
        p := p + 1;
      }
      if p == POOL {
        return -24, -1, -1;
      }
      var made := Pipe(Ring(pipes[p].ring.data, 0, 0, 0), 1, 1, true);
      SetPipe(p, made);
      assert pipes[..][p := made.(used := false)] == old(pipes[..])[p := made.(used := false)];
      var readFd := AllocateFd(PipeRead, p);
      if readFd < 0 {
        SetPipe(p, pipes[p].(used := false));
        return readFd, -1, -1;
      }
      var writeFd := AllocateFd(PipeWrite, p);
      if writeFd < 0 {
        SetFd(readFd, fds[readFd].(kind := Empty));
        SetPipe(p, pipes[p].(used := false));
        return writeFd, -1, -1;
      }
      return 0, readFd, writeFd;
    }

    /** pipe_read: bytes leave the ring one by one. */
    method PipeReads(p: nat, size: nat) returns (read: int, buffer: seq<byte>)
      requires Valid() && p < POOL
      modifies pipes
      ensures Valid() && (State(), read, buffer) == VfsSpec.PipeReads(old(State()), p, size)
    {
      var ring;
      ring, buffer := TakeBytes(pipes[p].ring, size);
      SetPipe(p, pipes[p].(ring := ring));
      read := |buffer|;
    }

    method PipeWrites(p: nat, buffer: seq<byte>) returns (written: int)
      requires Valid() && p < POOL
      modifies pipes
      ensures Valid() && (State(), written) == VfsSpec.PipeWrites(old(State()), p, buffer)
    {
      if pipes[p].readers == 0 {
        return -32;
      }
      var ring;
      ring, written := PutBytes(pipes[p].ring, buffer);
      SetPipe(p, pipes[p].(ring := ring));
    }

    method QueueWrite(u: nat, buffer: seq<byte>) returns (written: int)
      requires Valid() && u < POOL
      modifies unix
      ensures Valid() && (State(), written) == VfsSpec.QueueWrite(old(State()), u, buffer)
    {
      if !unix[u].connected {
        return -107;
      }
      var ring;
      ring, written := PutBytes(unix[u].ring, buffer);
      SetUnix(u, unix[u].(ring := ring));
    }

    method QueueRead(u: nat, size: nat) returns (read: int, buffer: seq<byte>)
      requires Valid() && u < POOL
      modifies unix
      ensures Valid() && (State(), read, buffer) == VfsSpec.QueueRead(old(State()), u, size)
    {
      var ring;
      ring, buffer := TakeBytes(unix[u].ring, size);
      SetUnix(u, unix[u].(ring := ring));
      read := |buffer|;
    }

    // ----- Creating sockets

    method MakeSocket(domain: int, kind: int, protocol: int) returns (fd: int)
      requires Valid()
      modifies fds, unix, inet
      ensures Valid() && (State(), fd) == VfsSpec.MakeSocket(old(State()), domain, kind, protocol)
    {
      if domain == 2 && kind == 2 && protocol == 0 {
        fd := MakeInetSocket();
        return;
      }
      if domain != 1 || kind != 1 || protocol != 0 {
        return -38;
      }
      var u := 0;
      while u < POOL && unix[u].used
        invariant 0 <= u <= FirstFree(UnixUse(State()))
      {
        u := u + 1;
      }
      if u == POOL {
        return -24;
      }
      var made := unix[u].(used := true, listening := false, connected := false, peer := NO_SOCKET, pending := NO_SOCKET);
      SetUnix(u, made);
      assert unix[..][u := made.(used := false)] == old(unix[..])[u := made.(used := false)];
      fd := AllocateFd(UnixSocket, u);
      if fd < 0 {
        SetUnix(u, unix[u].(used := false));
      }
    }

    method MakeInetSocket() returns (fd: int)
      requires Valid()
      modifies fds, inet
      ensures Valid() && (State(), fd) == VfsSpec.MakeSocket(old(State()), 2, 2, 0)
    {
      var i := 0;
      while i < POOL && inet[i].used
        invariant 0 <= i <= FirstFree(InetUse(State()))
      {
        i := i + 1;
      }
      if i == POOL {
        return -24;
      }
      var made := inet[i].(used := true, connected := false, address := 0, port := 0, count := 0);
      SetInet(i, made);
      assert inet[..][i := made.(used := false)] == old(inet[..])[i := made.(used := false)];
      fd := AllocateFd(InetSocket, i);
      if fd < 0 {
        SetInet(i, inet[i].(used := false));
      }
    }

    // ----- UDP

    method InetSend(source: nat, data: seq<byte>, address: nat, port: nat) returns (r: int)
      requires Valid() && source < POOL
      modifies inet
      ensures Valid() && (State(), r) == VfsSpec.InetSend(old(State()), source, data, address, port)
    {
      if |data| > DATAGRAM_SIZE {
        return -90;
      }
      var i := 0;
      while i < POOL
        invariant 0 <= i <= Destination(inet[..], address, port)
      {
        var d := inet[i];
        if !d.used || d.port != port || (d.address != 0 && d.address != address) {
          i := i + 1;
          continue;
        }
        assert i == Destination(inet[..], address, port);
        if d.count == DATAGRAMS {
          return -11;
        }
        var gram := Datagram(data, if inet[source].address != 0 then inet[source].address else LOOPBACK, inet[source].port);
        assert SaneInet(State().inet[source]) && SaneInet(State().inet[i]);
        SetInet(i, d.(grams := d.grams[d.tail := gram], tail := (d.tail + 1) % DATAGRAMS, count := d.count + 1));
        return |data|;
      }
      r := -111;
    }

    /** A socket without a port gets the one of its descriptor. */
    method EnsurePort(i: nat, fd: int)
      requires Valid() && i < POOL && InRange(fd)
      modifies inet
      ensures Valid() && State() == WithPort(old(State()), i, fd)
    {
      assert SaneInet(State().inet[i]);
      if inet[i].port == 0 {
        SetInet(i, inet[i].(port := (AUTO_PORT + (fd - 3) % TWO_16) % TWO_16));
      }
    }

    method SendTo(fd: int, data: seq<byte>, address: Option<seq<byte>>) returns (r: int)
      requires Valid()
      modifies inet
      ensures Valid() && (State(), r) == VfsSpec.SendTo(old(State()), fd, data, address)
    {
      if fd < 0 || fd >= MAX_FD || fds[fd].kind != InetSocket {
        return -9;
      }
      var to := ParseInet(address);
      if to.Bad? {
        return to.error;
      }
      EnsurePort(fds[fd].target, fd);
      r := InetSend(fds[fd].target, data, to.ip, to.port);
    }

    method RecvFrom(fd: int, size: nat, buffer: Option<seq<byte>>) returns (r: int, bytes: seq<byte>, from: Option<seq<byte>>)
      requires Valid()
      modifies inet
      ensures Valid() && (State(), r, bytes, from) == VfsSpec.RecvFrom(old(State()), fd, size, buffer)
    {
      if fd < 0 || fd >= MAX_FD || fds[fd].kind != InetSocket {
        return -9, [], buffer;
      }
      var i := fds[fd].target;
      var socket := inet[i];
      assert SaneInet(State().inet[i]);
      if socket.count == 0 {
        return -11, [], buffer;
      }
      var d := socket.grams[socket.head];
      var copied := if |d.data| < size then |d.data| else size;
      bytes := [];
      while |bytes| < copied
        invariant |bytes| <= copied && bytes == d.data[..|bytes|]
      {
        bytes := bytes + [d.data[|bytes|]];
      }
      from := buffer;
      if buffer.Some? && |buffer.value| >= 16 {
        from := Some(SourceAddress(d, buffer.value));
      }
      SetInet(i, socket.(head := (socket.head + 1) % DATAGRAMS, count := socket.count - 1));
      r := copied;
    }

    // ----- Addresses

    method Bind(fd: int, address: Option<seq<byte>>) returns (r: int)
      requires Valid()
      modifies unix, inet
      ensures Valid() && (State(), r) == VfsSpec.Bind(old(State()), fd, address)
    {
      if 0 <= fd < MAX_FD && fds[fd].kind == InetSocket {
        r := BindInet(fd, address);
        return;
      }
      if fd < 0 || fd >= MAX_FD || fds[fd].kind != UnixSocket {
        return -9;
      }
      var u := fds[fd].target;
      var name := SocketAddress(address);
      if name.BadPath? {
        return name.error;
      }
      var v := 0;
      while v < POOL
        invariant 0 <= v <= POOL
        invariant forall w :: 0 <= w < v ==> !(w != u && unix[w].used && unix[w].path == name.path)
      {
        if v != u && unix[v].used && unix[v].path == name.path {
          return -98;
        }
        v := v + 1;
      }
      SetUnix(u, unix[u].(path := name.path));
      r := 0;
    }

    method BindInet(fd: int, address: Option<seq<byte>>) returns (r: int)
      requires Valid() && IsKind(State(), fd, InetSocket)
      modifies inet
      ensures Valid() && (State(), r) == VfsSpec.Bind(old(State()), fd, address)
    {
      var i := fds[fd].target;
      var to := ParseInet(address);
      if to.Bad? {
        return to.error;
      }
      var j := 0;
      while j < POOL
        invariant 0 <= j <= POOL
        invariant !PortTaken(inet[..j], i, to.ip, to.port)
      {
        if j != i && inet[j].used && inet[j].port == to.port
           && (inet[j].address == 0 || to.ip == 0 || inet[j].address == to.ip) {
          assert PortTaken(State().inet, i, to.ip, to.port);
          return -98;
        }
        j := j + 1;
      }
      assert SaneInet(State().inet[i]);
      SetInet(i, inet[i].(address := to.ip, port := to.port));
      r := 0;
    }

    method Listen(fd: int) returns (r: int)
      requires Valid()
      modifies unix
      ensures Valid() && (State(), r) == VfsSpec.Listen(old(State()), fd)
    {
      if fd < 0 || fd >= MAX_FD || fds[fd].kind != UnixSocket {
        return -9;
      }
      var u := fds[fd].target;
      if unix[u].path == [] {
        return -22;
      }
      SetUnix(u, unix[u].(listening := true));
      r := 0;
    }

    method Connect(fd: int, address: Option<seq<byte>>) returns (r: int)
      requires Valid()
      modifies unix, inet
      ensures Valid() && (State(), r) == VfsSpec.Connect(old(State()), fd, address)
    {
      if 0 <= fd < MAX_FD && fds[fd].kind == InetSocket {
        r := ConnectInet(fd, address);
        return;
      }
      if fd < 0 || fd >= MAX_FD || fds[fd].kind != UnixSocket {
        return -9;
      }
      var c := fds[fd].target;
      var name := SocketAddress(address);
      if name.BadPath? {
        return name.error;
      }
      var u := 0;
      while u < POOL
        invariant 0 <= u <= Listener(unix[..], name.path)
      {
        if unix[u].used && unix[u].listening && unix[u].path == name.path {
          assert u == Listener(unix[..], name.path);
          SetUnix(c, unix[c].(peer := u, connected := true));
          SetUnix(u, unix[u].(pending := fd));
          return 0;
        }
        u := u + 1;
      }
      r := -2;
    }

    method ConnectInet(fd: int, address: Option<seq<byte>>) returns (r: int)
      requires Valid() && IsKind(State(), fd, InetSocket)
      modifies inet
      ensures Valid() && (State(), r) == VfsSpec.Connect(old(State()), fd, address)
    {
      var i := fds[fd].target;
      var to := ParseInet(address);
      if to.Bad? {
        return to.error;
      }
      EnsurePort(i, fd);
      assert SaneInet(State().inet[i]);
      SetInet(i, inet[i].(peerAddress := to.ip, peerPort := to.port, connected := true));
      r := 0;
    }

    method Accept(fd: int) returns (r: int)
      requires Valid()
      modifies fds, unix
      ensures Valid() && (State(), r) == VfsSpec.Accept(old(State()), fd)
    {
      if fd < 0 || fd >= MAX_FD || fds[fd].kind != UnixSocket {
        return -9;
      }
      var v := fds[fd].target;
      if !unix[v].listening || unix[v].pending == NO_SOCKET {
        return -11;
      }
      var cfd := unix[v].pending;
      SetUnix(v, unix[v].(pending := NO_SOCKET));
      if cfd < 0 || cfd >= MAX_FD || fds[cfd].kind != UnixSocket {
        return -11;
      }
      var c := fds[cfd].target;
      var a := 0;
      while a < POOL && unix[a].used
        invariant 0 <= a <= FirstFree(UnixUse(State()))
      {
        a := a + 1;
      }
      if a == POOL {
        return -24;
      }
      SetUnix(a, unix[a].(used := true, connected := true, peer := c));
      SetUnix(c, unix[c].(peer := a));
      r := AllocateFd(UnixSocket, a);
    }

    // ----- Traffic

    method Send(fd: int, data: seq<byte>) returns (r: int)
      requires Valid()
      modifies unix, inet
      ensures Valid() && (State(), r) == VfsSpec.Send(old(State()), fd, data)
    {
      if 0 <= fd < MAX_FD && fds[fd].kind == InetSocket {
        var i := fds[fd].target;
        if !inet[i].connected {
          return -107;
        }
        r := InetSend(i, data, inet[i].peerAddress, inet[i].peerPort);
        return;
      }
      if fd < 0 || fd >= MAX_FD || fds[fd].kind != UnixSocket {
        return -9;
      }
      var peer := unix[fds[fd].target].peer;
      if peer >= POOL || !unix[peer].used {
        return -107;
      }
      r := QueueWrite(peer, data);
    }

    method Recv(fd: int, size: nat) returns (r: int, bytes: seq<byte>)
      requires Valid()
      modifies unix, inet
      ensures Valid() && (State(), r, bytes) == VfsSpec.Recv(old(State()), fd, size)
    {
      if 0 <= fd < MAX_FD && fds[fd].kind == InetSocket {
        var from;
        r, bytes, from := RecvFrom(fd, size, None);
        return;
      }
      if fd < 0 || fd >= MAX_FD || fds[fd].kind != UnixSocket {
        return -9, [];
      }
      r, bytes := QueueRead(fds[fd].target, size);
    }

    /** `file` is what the node's own read operation returns. */
    method Read(fd: int, size: nat, file: int) returns (r: int, bytes: seq<byte>)
      requires Valid()
      modifies fds, pipes, unix, inet
      ensures Valid() && (State(), r, bytes) == VfsSpec.Read(old(State()), fd, size, file)
    {
      if fd < 0 || fd >= MAX_FD || fds[fd].kind == Empty {
        return -9, [];
      }
      if fds[fd].kind == PipeRead {
        r, bytes := PipeReads(fds[fd].target, size);
        return;
      }
      if fds[fd].kind == UnixSocket || fds[fd].kind == InetSocket {
        r, bytes := Recv(fd, size);
        return;
      }
      if fds[fd].kind != VfsFile {
        return -9, [];
      }
      Advance(fd, file);
      return file, [];
    }

    method Write(fd: int, data: seq<byte>, file: FileWrite) returns (r: int)
      requires Valid()
      modifies fds, pipes, unix, inet
      ensures Valid() && (State(), r) == VfsSpec.Write(old(State()), fd, data, file)
    {
      if fd < 0 || fd >= MAX_FD || fds[fd].kind == Empty {
        return -9;
      }
      if fds[fd].kind == PipeWrite {
        r := PipeWrites(fds[fd].target, data);
        return;
      }
      if fds[fd].kind == UnixSocket || fds[fd].kind == InetSocket {
        r := Send(fd, data);
        return;
      }
      if fds[fd].kind != VfsFile {
        return -9;
      }
      Advance(fd, file(data));
      r := file(data);
    }

    method Advance(fd: int, n: int)
      requires Valid() && IsKind(State(), fd, VfsFile)
      modifies fds
      ensures Valid() && State() == VfsSpec.Advance(old(State()), fd, n)
    {
      if n > 0 {
        SetFd(fd, fds[fd].(offset := (fds[fd].offset + n) % TWO_32));
      }
    }

    /** k_sys_write; terminal output itself is not modelled. */
    method SysWrite(fd: int, data: seq<byte>, file: FileWrite) returns (r: int)
      requires Valid()
      modifies fds, pipes, unix, inet
      ensures Valid() && (State(), r) == VfsSpec.SysWrite(old(State()), fd, data, file)
    {
      if fd == 1 || fd == 2 {
        return |data|;
      }
      if 3 <= fd < MAX_FD && (fds[fd].kind == VfsFile || fds[fd].kind == PipeWrite || fds[fd].kind == UnixSocket) {
        r := Write(fd, data, file);
        return;
      }
      r := -9;
    }

    /** The writev system call. */
    method Writev(fd: int, vectors: Option<seq<Option<seq<byte>>>>, file: FileWrite) returns (total: int)
      requires Valid()
      modifies fds, pipes, unix, inet
      ensures Valid() && (State(), total) == VfsSpec.Writev(old(State()), fd, vectors, file)
    {
      if vectors.None? {
        return -9;
      }
      var iov := vectors.value;
      total := 0;
      var i := 0;
      assert iov[0..] == iov;
      while i < |iov|
        invariant 0 <= i <= |iov| && Valid()
        invariant WriteVectors(State(), fd, iov[i..], total, file) == WriteVectors(old(State()), fd, iov, 0, file)
      {
        assert iov[i..][0] == iov[i] && iov[i..][1..] == iov[i + 1..];
        if iov[i].Some? && |iov[i].value| > 0 {
          var ret := SysWrite(fd, iov[i].value, file);
          if ret < 0 {
            return ret;
          }
          total := total + ret;
        }
        i := i + 1;
      }
    }
  }

  /** socket_address: the path is copied up to its first NUL, the end of the address, or 107 bytes. */
  method SocketAddress(address: Option<seq<byte>>) returns (r: UnixAddress)
    ensures r == ParseUnix(address)
  {
    if address.None? || |address.value| < 3 {
      return BadPath(-14);
    }
    var a := address.value;
    if Le16(a, 0) != 1 {
      return BadPath(-97);
    }
    var path, i := [], 0;
    while i + 1 < PATH_SIZE && i + 2 < |a| && a[i + 2] != 0
      invariant i <= PATH_SIZE - 1 && i + 2 <= |a| && |path| == i
      invariant path + PathPrefix(a[2..][i..], PATH_SIZE - 1 - i) == PathPrefix(a[2..], PATH_SIZE - 1)
    {
      assert a[2..][i..][1..] == a[2..][i + 1..];
      assert path + PathPrefix(a[2..][i..], PATH_SIZE - 1 - i) ==
             (path + [a[i + 2]]) + PathPrefix(a[2..][i + 1..], PATH_SIZE - 1 - (i + 1));
      path := path + [a[i + 2]];
      i := i + 1;
    }
    assert path + [] == path;
    if i == 0 {
      return BadPath(-22);
    }
    r := GoodPath(path);
  }

  /** The copy loop of pipe_write and socket_queue_write. */
  method PutBytes(r: Ring, buffer: seq<byte>) returns (ring: Ring, written: nat)
    requires RingSane(r)
    ensures (ring, written) == Put(r, buffer)
  {
    ring, written := r, 0;
    while written < |buffer| && ring.count < RING_SIZE
      invariant written <= |buffer| && RingSane(ring)
      invariant var (end, n) := Put(ring, buffer[written..]); Put(r, buffer) == (end, written + n)
    {
      assert buffer[written..][1..] == buffer[written + 1..];
      ring := Ring(ring.data[ring.writePos := buffer[written]], ring.readPos, (ring.writePos + 1) % RING_SIZE, ring.count + 1);
      written := written + 1;
    }
  }

  /** The copy loop of pipe_read and socket_queue_read. */
  method TakeBytes(r: Ring, size: nat) returns (ring: Ring, buffer: seq<byte>)
    requires RingSane(r)
    ensures (ring, buffer) == Take(r, size)
  {
    ring, buffer := r, [];
    assert [] + Take(r, size).1 == Take(r, size).1;
    while |buffer| < size && ring.count > 0
      invariant |buffer| <= size && RingSane(ring)
      invariant var (end, rest) := Take(ring, size - |buffer|); Take(r, size) == (end, buffer + rest)
    {
      ghost var rest := Take(ring, size - |buffer|).1;
      assert buffer + rest == (buffer + [ring.data[ring.readPos]]) + rest[1..];
      buffer := buffer + [ring.data[ring.readPos]];
      ring := ring.(readPos := (ring.readPos + 1) % RING_SIZE, count := ring.count - 1);
    }
    assert buffer + [] == buffer;
  }
}
