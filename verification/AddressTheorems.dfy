/** What the bytes of a socket address mean to the kernel: for every family, port, address and path. */
module AddressTheorems {
  import opened Prelude
  import opened VfsSpec

  // ----- UDP: family in the machine's order, port with its high byte first, address as four bytes

  function InetBytes(family: nat, port: nat, ip: seq<byte>, padding: seq<byte>): (a: seq<byte>)
    requires family < TWO_16 && port < TWO_16 && |ip| == 4
    ensures |a| == 8 + |padding|
  {
    [family % 256, family / 256] + [port / 256, port % 256] + ip + padding
  }

  function IpNumber(ip: seq<byte>): nat
    requires |ip| == 4
  {
    Le32(ip, 0)
  }

  lemma LittleEndian(a: byte, b: byte, n: nat)
    requires n == a as int + 256 * b as int
    ensures n % 256 == a && n / 256 == b
  {
  }

  lemma BigEndianPort(port: nat)
    requires port < TWO_16
    ensures NetworkPort(port / 256 + 256 * (port % 256)) == port
  {
    LittleEndian(port / 256, port % 256, port / 256 + 256 * (port % 256));
  }

  lemma FieldsOfInet(family: nat, port: nat, ip: seq<byte>, padding: seq<byte>)
    requires family < TWO_16 && port < TWO_16 && |ip| == 4
    ensures var a := InetBytes(family, port, ip, padding);
      Le16(a, 0) == family && NetworkPort(Le16(a, 2)) == port && Le32(a, 4) == IpNumber(ip)
  {
    var a := InetBytes(family, port, ip, padding);
    assert a[0] == family % 256 && a[1] == family / 256;
    assert a[2] == port / 256 && a[3] == port % 256;
    assert a[4] == ip[0] && a[5] == ip[1] && a[6] == ip[2] && a[7] == ip[3];
    BigEndianPort(port);
  }

  lemma LoopbackBytes(ip: seq<byte>)
    requires |ip| == 4
    ensures IpNumber(ip) == LOOPBACK <==> ip == [127, 0, 0, 1]
    ensures IpNumber(ip) == 0 <==> ip == [0, 0, 0, 0]
  {
  }

  /** An address of at least eight bytes is taken exactly if it has family 2, is 127.0.0.1 or 0.0.0.0, and
    * names a port; the first test that fails gives the error. */
  lemma InetAddressExactly(family: nat, port: nat, ip: seq<byte>, padding: seq<byte>)
    requires family < TWO_16 && port < TWO_16 && |ip| == 4
    ensures ParseInet(Some(InetBytes(family, port, ip, padding))) ==
      if family != 2 then Bad(-97)
      else if ip != [127, 0, 0, 1] && ip != [0, 0, 0, 0] then Bad(-101)
      else if port == 0 then Bad(-22)
      else Good(IpNumber(ip), port)
  {
    FieldsOfInet(family, port, ip, padding);
    LoopbackBytes(ip);
  }

  /** Without an address, or with less than eight bytes of one, the error is -14. */
  lemma ShortInetAddress(a: Option<seq<byte>>)
    requires a.None? || |a.value| < 8
    ensures ParseInet(a) == Bad(-14)
  {
  }

  /** What recvfrom writes into the buffer is the address of the sender, in the same form; the eight bytes
    * of padding stay as they were. */
  lemma SourceAddressIs(d: Datagram, buffer: seq<byte>, ip: seq<byte>)
    requires Stamped(d) && |buffer| >= 16 && |ip| == 4 && IpNumber(ip) == d.address
    ensures SourceAddress(d, buffer) == InetBytes(2, d.port, ip, buffer[8..16])
  {
    var a, b := SourceAddress(d, buffer), InetBytes(2, d.port, ip, buffer[8..16]);
    var n := NetworkPort(d.port);
    LittleEndian(d.port / 256, d.port % 256, n);
    LittleEndian(ip[0], ip[1], d.address % TWO_16);
    LittleEndian(ip[2], ip[3], d.address / TWO_16);
    assert ToLe16(2) == [2, 0] && ToLe16(n) == [d.port / 256, d.port % 256] && ToLe32(d.address) == ip;
  }

  // ----- Unix: family, then the path

  function UnixBytes(family: nat, path: seq<byte>): (a: seq<byte>)
    requires family < TWO_16
    ensures |a| == 2 + |path|
  {
    [family % 256, family / 256] + path
  }

  /** The part of `s` before its first NUL. */
  function BeforeNul(s: seq<byte>): (p: seq<byte>)
    ensures |p| <= |s| && p == s[..|p|] && (forall k :: 0 <= k < |p| ==> p[k] != 0)
    ensures |p| < |s| ==> s[|p|] == 0
  {
    if s == [] || s[0] == 0 then [] else [s[0]] + BeforeNul(s[1..])
  }

  lemma {:induction false} PrefixIs(s: seq<byte>, n: nat)
    ensures PathPrefix(s, n) == BeforeNul(s)[..Min(|BeforeNul(s)|, n)]
    decreases n
  {
    if n > 0 && s != [] && s[0] != 0 {
      PrefixIs(s[1..], n - 1);
    }
  }

  /** A path is what stands before the first NUL or the end of the address, at most 107 bytes of it. It is
    * taken exactly if the address has three bytes or more, family 1, and the path is not empty. */
  lemma UnixAddressExactly(family: nat, path: seq<byte>)
    requires family < TWO_16
    ensures ParseUnix(Some(UnixBytes(family, path))) ==
      if path == [] then BadPath(-14)
      else if family != 1 then BadPath(-97)
      else if path[0] == 0 then BadPath(-22)
      else GoodPath(BeforeNul(path)[..Min(|BeforeNul(path)|, 107)])
  {
    var a := UnixBytes(family, path);
    assert a[0] == family % 256 && a[1] == family / 256 && a[2..] == path;
    PrefixIs(path, 107);
    if path != [] {
      assert |BeforeNul(path)| == 0 <==> path[0] == 0;
    }
  }

  lemma ShortUnixAddress(a: Option<seq<byte>>)
    requires a.None? || |a.value| < 3
    ensures ParseUnix(a) == BadPath(-14)
  {
  }
}
