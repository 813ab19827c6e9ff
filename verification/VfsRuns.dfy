/** System calls as atomic steps, and runs of them. */
module VfsRuns {
  import opened Prelude
  import opened VfsSpec

  datatype Syscall =
    | OpenCall(node: nat, result: int)
    | CloseCall(fd: int)
    | PipeCall
    | SocketCall(domain: int, kind: int, protocol: int)
    | BindCall(fd: int, address: Option<seq<byte>>)
    | ListenCall(fd: int)
    | ConnectCall(fd: int, address: Option<seq<byte>>)
    | AcceptCall(fd: int)
    | SendCall(fd: int, data: seq<byte>)
    | RecvCall(fd: int, n: nat)
    | SendToCall(fd: int, data: seq<byte>, address: Option<seq<byte>>)
    | RecvFromCall(fd: int, n: nat, buffer: Option<seq<byte>>)
    | ReadCall(fd: int, n: nat, file: int)
    | WriteCall(fd: int, data: seq<byte>, file: int)

  /** What the caller gets to see: the return value and the bytes delivered. */
  datatype Reply = Reply(ret: int, bytes: seq<byte>)

  ghost function Do(s: Vfs, c: Syscall): (r: (Vfs, Reply))
    requires Sane(s)
    ensures Sane(r.0)
  {
    match c
    case OpenCall(node, result) => var r := Open(s, node, result); (r.0, Reply(r.1, []))
    case CloseCall(fd) => var r := Close(s, fd); (r.0, Reply(r.1, []))
    case PipeCall => var r := MakePipe(s); (r.0, Reply(r.1, []))
    case SocketCall(domain, kind, protocol) => var r := MakeSocket(s, domain, kind, protocol); (r.0, Reply(r.1, []))
    case BindCall(fd, address) => var r := Bind(s, fd, address); (r.0, Reply(r.1, []))
    case ListenCall(fd) => var r := Listen(s, fd); (r.0, Reply(r.1, []))
    case ConnectCall(fd, address) => var r := Connect(s, fd, address); (r.0, Reply(r.1, []))
    case AcceptCall(fd) => var r := Accept(s, fd); (r.0, Reply(r.1, []))
    case SendCall(fd, data) => var r := Send(s, fd, data); (r.0, Reply(r.1, []))
    case RecvCall(fd, n) => var r := Recv(s, fd, n); (r.0, Reply(r.1, r.2))
    case SendToCall(fd, data, address) => var r := SendTo(s, fd, data, address); (r.0, Reply(r.1, []))
    case RecvFromCall(fd, n, buffer) => var r := RecvFrom(s, fd, n, buffer); (r.0, Reply(r.1, r.2))
    case ReadCall(fd, n, file) => var r := Read(s, fd, n, file); (r.0, Reply(r.1, r.2))
    case WriteCall(fd, data, file) => var r := Write(s, fd, data, _ => file); (r.0, Reply(r.1, []))
  }

  ghost function Run(s: Vfs, cs: seq<Syscall>): (s': Vfs)
    requires Sane(s)
    ensures Sane(s')
    decreases |cs|
  {
    if cs == [] then s else Run(Do(s, cs[0]).0, cs[1..])
  }

  lemma RunCons(s: Vfs, c: Syscall, cs: seq<Syscall>)
    requires Sane(s)
    ensures Run(s, [c] + cs) == Run(Do(s, c).0, cs)
  {
    assert ([c] + cs)[1..] == cs;
  }

  lemma RunTwo(s: Vfs, a: Syscall, b: Syscall)
    requires Sane(s)
    ensures Run(s, [a, b]) == Do(Do(s, a).0, b).0
  {
    var s1 := Do(s, a).0;
    assert [a, b][1..] == [b] && [b][1..] == [];
    assert Run(s1, [b]) == Run(Do(s1, b).0, []);
  }

  lemma RunThree(s: Vfs, a: Syscall, b: Syscall, c: Syscall)
    requires Sane(s)
    ensures Run(s, [a, b, c]) == Do(Do(Do(s, a).0, b).0, c).0
  {
    assert [a, b, c][1..] == [b, c];
    RunTwo(Do(s, a).0, b, c);
  }

  lemma {:induction false} RunConcat(s: Vfs, a: seq<Syscall>, b: seq<Syscall>)
    requires Sane(s)
    ensures Run(s, a + b) == Run(Run(s, a), b)
    decreases |a|
  {
    if a == [] {
      assert a + b == b;
    } else {
      assert (a + b)[1..] == a[1..] + b;
      RunConcat(Do(s, a[0]).0, a[1..], b);
    }
  }
}
