/** Descriptors, pipes and sockets of sys/kernel/fs/vfs.c: each system call as a function on the state.
  * Negative results are Linux error numbers. */
module VfsSpec {
  import opened Prelude
  import opened RingBuffer

  const MAX_FD: nat := 32
  const POOL: nat := 8              // PIPE_COUNT, UNIX_SOCKET_COUNT, INET_SOCKET_COUNT
  const DATAGRAMS: nat := 8         // INET_DATAGRAM_COUNT
  const DATAGRAM_SIZE: nat := 512
  const PATH_SIZE: nat := 108       // UNIX_SOCKET_PATH
  const NO_SOCKET: nat := 0xFFFF_FFFF
  const LOOPBACK: nat := 0x0100_007F
  const AUTO_PORT: nat := 49152

  datatype Kind = Empty | VfsFile | Device | PipeRead | PipeWrite | UnixSocket | InetSocket

  /** `target` is what private_data points to: the number of a pipe or socket, or the heap address of
    * a node. */
  datatype Desc = Desc(kind: Kind, offset: nat, target: nat)

  datatype Pipe = Pipe(ring: Ring, readers: nat, writers: nat, used: bool)

  datatype Unix = Unix(ring: Ring, peer: nat, pending: nat, used: bool, listening: bool, connected: bool, path: seq<byte>)

  datatype Datagram = Datagram(data: seq<byte>, address: nat, port: nat)

  datatype Inet = Inet(grams: seq<Datagram>, head: nat, tail: nat, count: nat, address: nat, port: nat,
                       peerPort: nat, peerAddress: nat, used: bool, connected: bool)

  datatype Vfs = Vfs(fds: seq<Desc>, pipes: seq<Pipe>, unix: seq<Unix>, inet: seq<Inet>)

  /** Table sizes and numbers inside the tables: what the code relies on not to leave its arrays. */
  ghost predicate Sane(s: Vfs) {
    && |s.fds| == MAX_FD && |s.pipes| == POOL && |s.unix| == POOL && |s.inet| == POOL
    && (forall f :: 0 <= f < MAX_FD ==> SaneDesc(s.fds[f]))
    && (forall p :: 0 <= p < POOL ==> RingSane(s.pipes[p].ring))
    && (forall u :: 0 <= u < POOL ==> RingSane(s.unix[u].ring))
    && (forall i :: 0 <= i < POOL ==> SaneInet(s.inet[i]))
  }

  predicate SaneDesc(d: Desc) {
    d.kind in {PipeRead, PipeWrite, UnixSocket, InetSocket} ==> d.target < POOL
  }

  predicate SaneInet(i: Inet) {
    |i.grams| == DATAGRAMS && i.head < DATAGRAMS && i.tail < DATAGRAMS && i.count <= DATAGRAMS && i.port < TWO_16
    && i.address < TWO_32
    && forall k :: 0 <= k < DATAGRAMS ==> Stamped(i.grams[k])
  }

  /** Ports and addresses have 16 and 32 bits. */
  predicate Stamped(d: Datagram) {
    d.port < TWO_16 && d.address < TWO_32
  }

  predicate InRange(fd: int) {
    0 <= fd < MAX_FD
  }

  predicate IsKind(s: Vfs, fd: int, k: Kind) {
    InRange(fd) && fd < |s.fds| && s.fds[fd].kind == k
  }

  // ----- Boot

  function EmptyRing(): Ring {
    Ring(seq(RING_SIZE, _ => 0), 0, 0, 0)
  }

  function BlankInet(): Inet {
    Inet(seq(DATAGRAMS, _ => Datagram([], 0, 0)), 0, 0, 0, 0, 0, 0, 0, false, false)
  }

  /** Zeroed tables after vfs_init: descriptors 0 to 2 are devices. */
  function Boot(): Vfs {
    Vfs(seq(MAX_FD, f => if f < 3 then Desc(Device, 0, 0) else Desc(Empty, 0, 0)),
        seq(POOL, _ => Pipe(EmptyRing(), 0, 0, false)),
        seq(POOL, _ => Unix(EmptyRing(), 0, 0, false, false, false, [])),
        seq(POOL, _ => BlankInet()))
  }

  // ----- Descriptors

  /** The first empty descriptor from `f` on. */
  function FirstEmpty(fds: seq<Desc>, f: nat): (r: nat)
    requires f <= |fds|
    ensures f <= r <= |fds|
    ensures r < |fds| ==> fds[r].kind == Empty
    ensures forall g :: f <= g < r ==> fds[g].kind != Empty
    decreases |fds| - f
  {
    if f == |fds| || fds[f].kind == Empty then f else FirstEmpty(fds, f + 1)
  }

  function AllocateFd(fds: seq<Desc>, kind: Kind, target: nat): (r: (seq<Desc>, int))
    requires |fds| == MAX_FD
    ensures |r.0| == MAX_FD
  {
    var f := FirstEmpty(fds, 3);
    if f == MAX_FD then (fds, -24) else (fds[f := Desc(kind, 0, target)], f as int)
  }

  function FirstFree(used: seq<bool>): (i: nat)
    ensures i <= |used|
    ensures i < |used| ==> !used[i]
    ensures forall j :: 0 <= j < i ==> used[j]
  {
    if used == [] || !used[0] then 0 else 1 + FirstFree(used[1..])
  }

  function PipeUse(s: Vfs): (u: seq<bool>)
    ensures |u| == |s.pipes| && forall i :: 0 <= i < |u| ==> u[i] == s.pipes[i].used
  {
    seq(|s.pipes|, i requires 0 <= i < |s.pipes| => s.pipes[i].used)
  }

  function UnixUse(s: Vfs): (u: seq<bool>)
    ensures |u| == |s.unix| && forall i :: 0 <= i < |u| ==> u[i] == s.unix[i].used
  {
    seq(|s.unix|, i requires 0 <= i < |s.unix| => s.unix[i].used)
  }

  function InetUse(s: Vfs): (u: seq<bool>)
    ensures |u| == |s.inet| && forall i :: 0 <= i < |u| ==> u[i] == s.inet[i].used
  {
    seq(|s.inet|, i requires 0 <= i < |s.inet| => s.inet[i].used)
  }

  /** vfs_open up to the point where the node is filled in. `node` is the address malloc returned, 0
    * for NULL; `result` is 0 when the driver or the ram file system delivered the file, and the error
    * otherwise. The flag says whether the node is freed again. */
  ghost function Open(s: Vfs, node: nat, result: int): (r: (Vfs, int, bool))
    requires Sane(s)
    ensures Sane(r.0)
  {
    var f := FirstEmpty(s.fds, 3);
    if f == MAX_FD then (s, -24, false)
    else if node == 0 then (s, -12, false)
    else if result != 0 then (s, result, true)
    else (s.(fds := s.fds[f := Desc(VfsFile, 0, node)]), f, false)
  }

  /** Also returns the address of the node to free, 0 for none. */
  ghost function Close(s: Vfs, fd: int): (r: (Vfs, int, nat))
    requires Sane(s)
    ensures Sane(r.0)
  {
    if !InRange(fd) || s.fds[fd].kind == Empty then (s, -9, 0)
    else
      var d := s.fds[fd];
      var s1 := s.(fds := s.fds[fd := Desc(Empty, 0, 0)]);
      match d.kind
      case PipeRead =>
        var p := s.pipes[d.target];
        var q := if p.readers > 0 then p.(readers := p.readers - 1) else p;
        (s1.(pipes := s.pipes[d.target := DropPipe(q)]), 0, 0)
      case PipeWrite =>
        var p := s.pipes[d.target];
        var q := if p.writers > 0 then p.(writers := p.writers - 1) else p;
        (s1.(pipes := s.pipes[d.target := DropPipe(q)]), 0, 0)
      case UnixSocket =>
        var peer := s.unix[d.target].peer;
        var unix := if peer < POOL then s.unix[peer := s.unix[peer].(connected := false)] else s.unix;
        (s1.(unix := unix[d.target := unix[d.target].(used := false)]), 0, 0)
      case InetSocket =>
        (s1.(inet := s.inet[d.target := s.inet[d.target].(used := false)]), 0, 0)
      case _ => (s1, 0, d.target)
  }

  function DropPipe(p: Pipe): Pipe {
    if p.readers == 0 && p.writers == 0 then p.(used := false) else p
  }

  // ----- Pipes

  /** Also returns the two descriptors. A read end taken before the table was found full is only
    * marked empty again. */
  ghost function MakePipe(s: Vfs): (r: (Vfs, int, int, int))
    requires Sane(s)
    ensures Sane(r.0)
  {
    var p := FirstFree(PipeUse(s));
    if p == POOL then (s, -24, -1, -1)
    else
      var made := Pipe(Ring(s.pipes[p].ring.data, 0, 0, 0), 1, 1, true);
      var (fds1, rfd) := AllocateFd(s.fds, PipeRead, p);
      if rfd < 0 then (s.(pipes := s.pipes[p := made.(used := false)]), rfd, -1, -1)
      else
        var (fds2, wfd) := AllocateFd(fds1, PipeWrite, p);
        if wfd < 0 then
          (s.(fds := fds1[rfd := fds1[rfd].(kind := Empty)], pipes := s.pipes[p := made.(used := false)]), wfd, -1, -1)
        else (s.(fds := fds2, pipes := s.pipes[p := made]), 0, rfd, wfd)
  }

  ghost function PipeReads(s: Vfs, p: nat, n: nat): (r: (Vfs, int, seq<byte>))
    requires Sane(s) && p < POOL
    ensures Sane(r.0)
  {
    var (ring, bytes) := Take(s.pipes[p].ring, n);
    (s.(pipes := s.pipes[p := s.pipes[p].(ring := ring)]), |bytes|, bytes)
  }

  ghost function PipeWrites(s: Vfs, p: nat, buf: seq<byte>): (r: (Vfs, int))
    requires Sane(s) && p < POOL
    ensures Sane(r.0)
  {
    if s.pipes[p].readers == 0 then (s, -32)
    else
      var (ring, n) := Put(s.pipes[p].ring, buf);
      (s.(pipes := s.pipes[p := s.pipes[p].(ring := ring)]), n as int)
  }

  // ----- Unix socket queues

  ghost function QueueWrite(s: Vfs, u: nat, buf: seq<byte>): (r: (Vfs, int))
    requires Sane(s) && u < POOL
    ensures Sane(r.0)
  {
    if !s.unix[u].connected then (s, -107)
    else
      var (ring, n) := Put(s.unix[u].ring, buf);
      (s.(unix := s.unix[u := s.unix[u].(ring := ring)]), n as int)
  }

  ghost function QueueRead(s: Vfs, u: nat, n: nat): (r: (Vfs, int, seq<byte>))
    requires Sane(s) && u < POOL
    ensures Sane(r.0)
  {
    var (ring, bytes) := Take(s.unix[u].ring, n);
    (s.(unix := s.unix[u := s.unix[u].(ring := ring)]), |bytes|, bytes)
  }

  // ----- Socket addresses, as the bytes user space passes; the length is that of the sequence

  function Le16(s: seq<byte>, i: nat): (n: nat)
    requires i + 2 <= |s|
    ensures n < TWO_16
  {
    s[i] as int + 256 * s[i + 1] as int
  }

  function Le32(s: seq<byte>, i: nat): (n: nat)
    requires i + 4 <= |s|
    ensures n < TWO_32
  {
    Le16(s, i) + TWO_16 * Le16(s, i + 2)
  }

  function ToLe16(n: nat): (s: seq<byte>)
    requires n < TWO_16
    ensures |s| == 2
  {
    [n % 256, n / 256]
  }

  function ToLe32(n: nat): (s: seq<byte>)
    requires n < TWO_32
    ensures |s| == 4
  {
    ToLe16(n % TWO_16) + ToLe16(n / TWO_16)
  }

  /** `(port >> 8) | (port << 8)` on 16 bits. */
  function NetworkPort(port: nat): (r: nat)
    requires port < TWO_16
    ensures r < TWO_16
  {
    port / 256 + port % 256 * 256
  }

  datatype InetAddress = Bad(error: int) | Good(ip: nat, port: nat)

  function ParseInet(address: Option<seq<byte>>): (r: InetAddress)
    ensures r.Good? ==> (r.ip == 0 || r.ip == LOOPBACK) && 0 < r.port < TWO_16
    ensures r.Bad? ==> r.error < 0
  {
    if address.None? || |address.value| < 8 then Bad(-14)
    else if Le16(address.value, 0) != 2 then Bad(-97)
    else
      var ip, port := Le32(address.value, 4), NetworkPort(Le16(address.value, 2));
      if ip != 0 && ip != LOOPBACK then Bad(-101)
      else if port == 0 then Bad(-22)
      else Good(ip, port)
  }

  datatype UnixAddress = BadPath(error: int) | GoodPath(path: seq<byte>)

  /** Leading non-zero bytes of `s`, at most `n`. */
  function PathPrefix(s: seq<byte>, n: nat): (p: seq<byte>)
    ensures |p| <= n
  {
    if n == 0 || s == [] || s[0] == 0 then [] else [s[0]] + PathPrefix(s[1..], n - 1)
  }

  function ParseUnix(address: Option<seq<byte>>): (r: UnixAddress)
    ensures r.BadPath? ==> r.error < 0
    ensures r.GoodPath? ==> r.path != []
  {
    if address.None? || |address.value| < 3 then BadPath(-14)
    else if Le16(address.value, 0) != 1 then BadPath(-97)
    else
      var path := PathPrefix(address.value[2..], PATH_SIZE - 1);
      if path == [] then BadPath(-22) else GoodPath(path)
  }

  // ----- Creating sockets

  ghost function MakeSocket(s: Vfs, domain: int, kind: int, protocol: int): (r: (Vfs, int))
    requires Sane(s)
    ensures Sane(r.0)
  {
    if domain == 2 && kind == 2 && protocol == 0 then
      var i := FirstFree(InetUse(s));
      if i == POOL then (s, -24)
      else
        var made := s.inet[i].(used := true, connected := false, address := 0, port := 0, count := 0);
        var (fds, fd) := AllocateFd(s.fds, InetSocket, i);
        (s.(fds := fds, inet := s.inet[i := made.(used := fd >= 0)]), fd)
    else if domain != 1 || kind != 1 || protocol != 0 then (s, -38)
    else
      var u := FirstFree(UnixUse(s));
      if u == POOL then (s, -24)
      else
        var made := s.unix[u].(used := true, listening := false, connected := false, peer := NO_SOCKET, pending := NO_SOCKET);
        var (fds, fd) := AllocateFd(s.fds, UnixSocket, u);
        (s.(fds := fds, unix := s.unix[u := made.(used := fd >= 0)]), fd)
  }

  // ----- UDP

  /** Some other open socket already has this port on an overlapping address. */
  predicate PortTaken(inet: seq<Inet>, me: nat, ip: nat, port: nat) {
    exists i :: 0 <= i < |inet| && i != me && inet[i].used && inet[i].port == port
                && (inet[i].address == 0 || ip == 0 || inet[i].address == ip)
  }

  /** The port a socket without one is given on descriptor `fd`. */
  function AutoPort(fd: int): nat
    requires InRange(fd)
  {
    if fd >= 3 then AUTO_PORT + fd - 3 else (AUTO_PORT + TWO_16 + fd - 3) % TWO_16
  }

  ghost function WithPort(s: Vfs, i: nat, fd: int): (s': Vfs)
    requires Sane(s) && i < POOL && InRange(fd)
    ensures Sane(s')
  {
    if s.inet[i].port == 0 then s.(inet := s.inet[i := s.inet[i].(port := AutoPort(fd))]) else s
  }

  /** The first open socket a datagram for `address` and `port` matches. */
  function Destination(inet: seq<Inet>, address: nat, port: nat): (i: nat)
    ensures i <= |inet|
    ensures i < |inet| ==> Matches(inet[i], address, port)
    ensures forall j :: 0 <= j < i ==> !Matches(inet[j], address, port)
  {
    if inet == [] || Matches(inet[0], address, port) then 0 else 1 + Destination(inet[1..], address, port)
  }

  predicate Matches(i: Inet, address: nat, port: nat) {
    i.used && i.port == port && (i.address == 0 || i.address == address)
  }

  function Enqueue(i: Inet, d: Datagram): (i': Inet)
    requires SaneInet(i) && i.count < DATAGRAMS && Stamped(d)
    ensures SaneInet(i')
  {
    i.(grams := i.grams[i.tail := d], tail := (i.tail + 1) % DATAGRAMS, count := i.count + 1)
  }

  function Dequeue(i: Inet): (i': Inet)
    requires SaneInet(i) && i.count > 0
    ensures SaneInet(i')
  {
    i.(head := (i.head + 1) % DATAGRAMS, count := i.count - 1)
  }

  function Stamp(source: Inet, data: seq<byte>): (d: Datagram)
    requires SaneInet(source)
    ensures Stamped(d)
  {
    Datagram(data, if source.address != 0 then source.address else LOOPBACK, source.port)
  }

  ghost function InetSend(s: Vfs, source: nat, data: seq<byte>, address: nat, port: nat): (r: (Vfs, int))
    requires Sane(s) && source < POOL
    ensures Sane(r.0)
  {
    var i := Destination(s.inet, address, port);
    if |data| > DATAGRAM_SIZE then (s, -90)
    else if i == POOL then (s, -111)
    else if s.inet[i].count == DATAGRAMS then (s, -11)
    else (s.(inet := s.inet[i := Enqueue(s.inet[i], Stamp(s.inet[source], data))]), |data|)
  }

  ghost function SendTo(s: Vfs, fd: int, data: seq<byte>, address: Option<seq<byte>>): (r: (Vfs, int))
    requires Sane(s)
    ensures Sane(r.0)
  {
    if !IsKind(s, fd, InetSocket) then (s, -9)
    else
      match ParseInet(address)
      case Bad(e) => (s, e)
      case Good(ip, port) => InetSend(WithPort(s, s.fds[fd].target, fd), s.fds[fd].target, data, ip, port)
  }

  /** What recvfrom writes over a 16-byte buffer: family, port and address; eight bytes stay. */
  function SourceAddress(d: Datagram, buffer: seq<byte>): seq<byte>
    requires Stamped(d) && |buffer| >= 16
  {
    ToLe16(2) + ToLe16(NetworkPort(d.port)) + ToLe32(d.address) + buffer[8..16]
  }

  /** Also returns the bytes and, for a large enough buffer, the source address. */
  ghost function RecvFrom(s: Vfs, fd: int, n: nat, buffer: Option<seq<byte>>): (r: (Vfs, int, seq<byte>, Option<seq<byte>>))
    requires Sane(s)
    ensures Sane(r.0)
  {
    if !IsKind(s, fd, InetSocket) then (s, -9, [], buffer)
    else
      var i := s.fds[fd].target;
      if s.inet[i].count == 0 then (s, -11, [], buffer)
      else
        var d := s.inet[i].grams[s.inet[i].head];
        var bytes := d.data[..Min(|d.data|, n)];
        var from := if buffer.Some? && |buffer.value| >= 16 then Some(SourceAddress(d, buffer.value)) else buffer;
        (s.(inet := s.inet[i := Dequeue(s.inet[i])]), |bytes|, bytes, from)
  }

  // ----- Calls that serve both families

  ghost function Bind(s: Vfs, fd: int, address: Option<seq<byte>>): (r: (Vfs, int))
    requires Sane(s)
    ensures Sane(r.0)
  {
    if IsKind(s, fd, InetSocket) then
      var i := s.fds[fd].target;
      match ParseInet(address)
      case Bad(e) => (s, e)
      case Good(ip, port) =>
        if PortTaken(s.inet, i, ip, port) then (s, -98)
        else (s.(inet := s.inet[i := s.inet[i].(address := ip, port := port)]), 0)
    else if !IsKind(s, fd, UnixSocket) then (s, -9)
    else
      var u := s.fds[fd].target;
      match ParseUnix(address)
      case BadPath(e) => (s, e)
      case GoodPath(path) =>
        if exists v :: 0 <= v < POOL && v != u && s.unix[v].used && s.unix[v].path == path then (s, -98)
        else (s.(unix := s.unix[u := s.unix[u].(path := path)]), 0)
  }

  ghost function Listen(s: Vfs, fd: int): (r: (Vfs, int))
    requires Sane(s)
    ensures Sane(r.0)
  {
    if !IsKind(s, fd, UnixSocket) then (s, -9)
    else
      var u := s.fds[fd].target;
      if s.unix[u].path == [] then (s, -22)
      else (s.(unix := s.unix[u := s.unix[u].(listening := true)]), 0)
  }

  /** The first open listening socket bound to `path`. */
  function Listener(unix: seq<Unix>, path: seq<byte>): (u: nat)
    ensures u <= |unix|
    ensures u < |unix| ==> unix[u].used && unix[u].listening && unix[u].path == path
    ensures forall v :: 0 <= v < u ==> !(unix[v].used && unix[v].listening && unix[v].path == path)
  {
    if unix == [] || (unix[0].used && unix[0].listening && unix[0].path == path) then 0
    else 1 + Listener(unix[1..], path)
  }

  ghost function Connect(s: Vfs, fd: int, address: Option<seq<byte>>): (r: (Vfs, int))
    requires Sane(s)
    ensures Sane(r.0)
  {
    if IsKind(s, fd, InetSocket) then
      var i := s.fds[fd].target;
      match ParseInet(address)
      case Bad(e) => (s, e)
      case Good(ip, port) =>
        var s1 := WithPort(s, i, fd);
        (s1.(inet := s1.inet[i := s1.inet[i].(peerAddress := ip, peerPort := port, connected := true)]), 0)
    else if !IsKind(s, fd, UnixSocket) then (s, -9)
    else
      var c := s.fds[fd].target;
      match ParseUnix(address)
      case BadPath(e) => (s, e)
      case GoodPath(path) =>
        var u := Listener(s.unix, path);
        if u == POOL then (s, -2)
        else
          var unix := s.unix[c := s.unix[c].(peer := u, connected := true)];
          (s.(unix := unix[u := unix[u].(pending := fd)]), 0)
  }

  /** A socket taken for the connection stays taken when no descriptor is left for it. */
  ghost function Accept(s: Vfs, fd: int): (r: (Vfs, int))
    requires Sane(s)
    ensures Sane(r.0)
  {
    if !IsKind(s, fd, UnixSocket) then (s, -9)
    else
      var v := s.fds[fd].target;
      if !s.unix[v].listening || s.unix[v].pending == NO_SOCKET then (s, -11)
      else
        var cfd := s.unix[v].pending;
        var s1 := s.(unix := s.unix[v := s.unix[v].(pending := NO_SOCKET)]);
        if !IsKind(s, cfd, UnixSocket) then (s1, -11)
        else
          var c, a := s.fds[cfd].target, FirstFree(UnixUse(s1));
          if a == POOL then (s1, -24)
          else
            var unix := s1.unix[a := s1.unix[a].(used := true, connected := true, peer := c)];
            var (fds, afd) := AllocateFd(s.fds, UnixSocket, a);
            (Vfs(fds, s.pipes, unix[c := unix[c].(peer := a)], s.inet), afd)
  }

  ghost function Send(s: Vfs, fd: int, data: seq<byte>): (r: (Vfs, int))
    requires Sane(s)
    ensures Sane(r.0)
  {
    if IsKind(s, fd, InetSocket) then
      var i := s.fds[fd].target;
      if !s.inet[i].connected then (s, -107)
      else InetSend(s, i, data, s.inet[i].peerAddress, s.inet[i].peerPort)
    else if !IsKind(s, fd, UnixSocket) then (s, -9)
    else
      var peer := s.unix[s.fds[fd].target].peer;
      if peer >= POOL || !s.unix[peer].used then (s, -107)
      else QueueWrite(s, peer, data)
  }

  ghost function Recv(s: Vfs, fd: int, n: nat): (r: (Vfs, int, seq<byte>))
    requires Sane(s)
    ensures Sane(r.0)
  {
    if IsKind(s, fd, InetSocket) then var r := RecvFrom(s, fd, n, None); (r.0, r.1, r.2)
    else if !IsKind(s, fd, UnixSocket) then (s, -9, [])
    else QueueRead(s, s.fds[fd].target, n)
  }

  // ----- read, write, writev

  /** `file` is what a file's own read operation returns. */
  ghost function Read(s: Vfs, fd: int, n: nat, file: int): (r: (Vfs, int, seq<byte>))
    requires Sane(s)
    ensures Sane(r.0)
  {
    if IsKind(s, fd, PipeRead) then PipeReads(s, s.fds[fd].target, n)
    else if IsKind(s, fd, UnixSocket) || IsKind(s, fd, InetSocket) then Recv(s, fd, n)
    else if !IsKind(s, fd, VfsFile) then (s, -9, [])
    else (Advance(s, fd, file), file, [])
  }

  /** What a file's own write operation returns for the bytes it is given. */
  type FileWrite = seq<byte> -> int

  ghost function Write(s: Vfs, fd: int, data: seq<byte>, file: FileWrite): (r: (Vfs, int))
    requires Sane(s)
    ensures Sane(r.0)
  {
    if IsKind(s, fd, PipeWrite) then PipeWrites(s, s.fds[fd].target, data)
    else if IsKind(s, fd, UnixSocket) || IsKind(s, fd, InetSocket) then Send(s, fd, data)
    else if !IsKind(s, fd, VfsFile) then (s, -9)
    else (Advance(s, fd, file(data)), file(data))
  }

  ghost function Advance(s: Vfs, fd: int, n: int): (s': Vfs)
    requires Sane(s) && IsKind(s, fd, VfsFile)
    ensures Sane(s')
  {
    if n > 0 then s.(fds := s.fds[fd := s.fds[fd].(offset := (s.fds[fd].offset + n) % TWO_32)]) else s
  }

  /** k_sys_write: descriptors 1 and 2 go to the terminal; UDP sockets are not served here. */
  ghost function SysWrite(s: Vfs, fd: int, data: seq<byte>, file: FileWrite): (r: (Vfs, int))
    requires Sane(s)
    ensures Sane(r.0)
  {
    if fd == 1 || fd == 2 then (s, |data|)
    else if fd >= 3 && (IsKind(s, fd, VfsFile) || IsKind(s, fd, PipeWrite) || IsKind(s, fd, UnixSocket)) then Write(s, fd, data, file)
    else (s, -9)
  }

  /** The writev loop from a running total on. A vector is None when its base is NULL. */
  ghost function WriteVectors(s: Vfs, fd: int, iov: seq<Option<seq<byte>>>, total: int, file: FileWrite): (r: (Vfs, int))
    requires Sane(s)
    ensures Sane(r.0)
    decreases |iov|
  {
    if iov == [] then (s, total)
    else if iov[0].None? || iov[0].value == [] then WriteVectors(s, fd, iov[1..], total, file)
    else
      var (s1, n) := SysWrite(s, fd, iov[0].value, file);
      if n < 0 then (s1, n) else WriteVectors(s1, fd, iov[1..], total + n, file)
  }

  /** The writev system call; the array of vectors is None for NULL. */
  ghost function Writev(s: Vfs, fd: int, vectors: Option<seq<Option<seq<byte>>>>, file: FileWrite): (r: (Vfs, int))
    requires Sane(s)
    ensures Sane(r.0)
  {
    if vectors.None? then (s, -9) else WriteVectors(s, fd, vectors.value, 0, file)
  }
}
