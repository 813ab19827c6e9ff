/** Which frames are answered, and with what: the Ethernet, IP and UDP headers as a whole. */
module EchoTheorems {
  import opened Prelude
  import opened InternetChecksum
  import opened UdpEcho

  /** A UDP datagram in an IP packet without options in an Ethernet frame. `head` is the IP header up to the
    * protocol, `sum` its checksum. */
  datatype Packet = Packet(toMac: seq<byte>, fromMac: seq<byte>, head: seq<byte>, sum: seq<byte>,
                           from: seq<byte>, to: seq<byte>, fromPort: seq<byte>, toPort: seq<byte>,
                           udpSum: seq<byte>, payload: seq<byte>)

  predicate Legal(p: Packet) {
    && |p.toMac| == 6 && |p.fromMac| == 6 && |p.head| == 10 && |p.sum| == 2 && |p.from| == 4 && |p.to| == 4
    && |p.fromPort| == 2 && |p.toPort| == 2 && |p.udpSum| == 2 && |p.payload| <= 1472
    && p.head[0] % 16 == 5 && p.head[9] == 17
  }

  /** The 16-bit length of UDP header and payload, high byte first. */
  function LengthField(n: nat): (s: seq<byte>)
    requires n <= 1472
    ensures |s| == 2 && Word(s[0], s[1]) == n + 8
  {
    [(n + 8) / 256, (n + 8) % 256]
  }

  function UdpPart(p: Packet): (s: seq<byte>)
    requires Legal(p)
    ensures |s| == 8 + |p.payload|
  {
    p.fromPort + p.toPort + LengthField(|p.payload|) + p.udpSum + p.payload
  }

  function IpPart(p: Packet): (s: seq<byte>)
    requires Legal(p)
    ensures |s| == 20
  {
    p.head + p.sum + p.from + p.to
  }

  function Pack(p: Packet): (s: seq<byte>)
    requires Legal(p)
    ensures |s| == 42 + |p.payload|
  {
    (p.toMac + p.fromMac + [8, 0]) + IpPart(p) + UdpPart(p)
  }

  lemma Cut(a: seq<byte>, b: seq<byte>, c: seq<byte>, rest: seq<byte>)
    ensures var f := a + b + c + rest;
      f[..|a|] == a && f[|a|..|a| + |b|] == b && f[|a| + |b|..|a| + |b| + |c|] == c
  {
  }

  /** Slice `i..j` of the part of `f` that starts at `at`. */
  lemma Within(f: seq<byte>, at: nat, part: seq<byte>, i: nat, j: nat)
    requires at + |part| <= |f| && f[at..at + |part|] == part && i <= j <= |part|
    ensures f[at + i..at + j] == part[i..j]
  {
    forall k | i <= k < j ensures f[at + k] == part[k] {
      assert f[at..at + |part|][k] == part[k];
    }
  }

  /** The parts of a buffer that starts with a packed frame. */
  lemma PartsOf(p: Packet, tail: seq<byte>)
    requires Legal(p)
    ensures var f := Pack(p) + tail;
      && f[0..6] == p.toMac && f[6..12] == p.fromMac && f[12..14] == [8, 0]
      && f[14..24] == p.head && f[24..26] == p.sum && f[26..30] == p.from && f[30..34] == p.to
      && f[34..36] == p.fromPort && f[36..38] == p.toPort && f[38..40] == LengthField(|p.payload|)
      && f[40..42] == p.udpSum && f[42..42 + |p.payload|] == p.payload
  {
    var f, ether, ip, udp := Pack(p) + tail, p.toMac + p.fromMac + [8, 0], IpPart(p), UdpPart(p);
    Cut(ether, ip, udp, tail);
    assert f[0..0 + |ether|] == ether && f[14..14 + |ip|] == ip && f[34..34 + |udp|] == udp;
    EtherParts(p, f, ether);
    IpParts(p, f, ip);
    UdpParts(p, f, udp);
  }

  lemma EtherParts(p: Packet, f: seq<byte>, part: seq<byte>)
    requires Legal(p) && part == p.toMac + p.fromMac + [8, 0] && |f| >= 14 && f[0..14] == part
    ensures f[0..6] == p.toMac && f[6..12] == p.fromMac && f[12..14] == [8, 0]
  {
    Within(f, 0, part, 0, 6);
    Within(f, 0, part, 6, 12);
    Within(f, 0, part, 12, 14);
  }

  lemma IpParts(p: Packet, f: seq<byte>, part: seq<byte>)
    requires Legal(p) && part == IpPart(p) && |f| >= 34 && f[14..34] == part
    ensures f[14..24] == p.head && f[24..26] == p.sum && f[26..30] == p.from && f[30..34] == p.to
  {
    Within(f, 14, part, 0, 10);
    Within(f, 14, part, 10, 12);
    Within(f, 14, part, 12, 16);
    Within(f, 14, part, 16, 20);
  }

  lemma UdpParts(p: Packet, f: seq<byte>, part: seq<byte>)
    requires Legal(p) && part == UdpPart(p) && |f| >= 34 + |part| && f[34..34 + |part|] == part
    ensures f[34..36] == p.fromPort && f[36..38] == p.toPort && f[38..40] == LengthField(|p.payload|)
    ensures f[40..42] == p.udpSum && f[42..42 + |p.payload|] == p.payload
  {
    Within(f, 34, part, 0, 2);
    Within(f, 34, part, 2, 4);
    Within(f, 34, part, 4, 6);
    Within(f, 34, part, 6, 8);
    Within(f, 34, part, 8, |part|);
  }

  lemma PackedAnswered(p: Packet, tail: seq<byte>)
    requires Legal(p) && |tail| >= REACH
    ensures var f := Pack(p) + tail;
      Answered(f, |Pack(p)|) && UdpAt(f) == 34 && UdpLength(f) == 8 + |p.payload| && f[ETH] % 16 == 5
  {
    var f := Pack(p) + tail;
    PartsOf(p, tail);
    assert f[14] == f[14..24][0] && f[23] == f[14..24][9];
    assert f[38] == f[38..40][0] && f[39] == f[38..40][1];
  }

  /** Without options a frame is answered exactly if it starts with a packed UDP datagram. */
  lemma AnsweredExactly(frame: seq<byte>, length: nat)
    requires |frame| >= REACH && length <= |frame| && length <= 1514
    requires frame[ETH] % 16 == 5 && frame[12..14] == [8, 0]
    ensures Answered(frame, length) <==>
      exists p :: Legal(p) && |Pack(p)| <= length && frame[..|Pack(p)|] == Pack(p)
  {
    if Answered(frame, length) {
      var n := UdpLength(frame) - 8;
      var p := Packet(frame[0..6], frame[6..12], frame[14..24], frame[24..26], frame[26..30], frame[30..34],
                      frame[34..36], frame[36..38], frame[40..42], frame[42..42 + n]);
      Reassemble(frame, n, p);
    }
    if p :| Legal(p) && |Pack(p)| <= length && frame[..|Pack(p)|] == Pack(p) {
      var tail := frame[|Pack(p)|..];
      assert frame == Pack(p) + tail;
      PartsOf(p, tail);
      assert frame[23] == frame[14..24][9];
      assert frame[38] == frame[38..40][0] && frame[39] == frame[38..40][1];
    }
  }

  lemma Reassemble(frame: seq<byte>, n: nat, p: Packet)
    requires |frame| >= 42 + n && n <= 1472 && frame[12..14] == [8, 0] && Word(frame[38], frame[39]) == n + 8
    requires p == Packet(frame[0..6], frame[6..12], frame[14..24], frame[24..26], frame[26..30], frame[30..34],
                         frame[34..36], frame[36..38], frame[40..42], frame[42..42 + n])
    requires frame[14] % 16 == 5 && frame[23] == 17
    ensures Legal(p) && frame[..|Pack(p)|] == Pack(p)
  {
    assert frame[38..40] == LengthField(n);
    assert frame[..14] == frame[0..6] + frame[6..12] + frame[12..14];
    assert frame[14..34] == IpPart(p);
    assert frame[34..42 + n] == UdpPart(p);
    assert frame[..42 + n] == frame[..14] + frame[14..34] + frame[34..42 + n];
  }

  /** Where the answer goes and what it says: back to the sender's Ethernet address from that of the card,
    * IP addresses and ports exchanged, the payload unchanged and the UDP checksum cleared. */
  function Answer(p: Packet, mac: seq<byte>, sum: seq<byte>): Packet {
    Packet(p.fromMac, mac, p.head, sum, p.to, p.from, p.toPort, p.fromPort, [0, 0], p.payload)
  }

  lemma FrontOfReply(f: seq<byte>, length: nat, mac: seq<byte>, before: seq<byte>)
    requires |f| >= REACH && length <= |f| && Answered(f, length) && |mac| == 6 && |before| >= length && UdpAt(f) >= 34
    ensures Reply(f, length, mac, before)[..14] == f[6..12] + mac + [8, 0]
  {
    var r := Reply(f, length, mac, before);
    assert r[..6] == f[6..12] && r[6..12] == mac && r[12..14] == [8, 0];
    assert r[..14] == r[..6] + r[6..12] + r[12..14];
  }

  lemma IpOfReply(f: seq<byte>, length: nat, mac: seq<byte>, before: seq<byte>)
    requires |f| >= REACH && length <= |f| && Answered(f, length) && |mac| == 6 && |before| >= length && UdpAt(f) >= 34
    ensures Reply(f, length, mac, before)[14..34] == f[14..24] + SealedHeader(f)[10..12] + f[30..34] + f[26..30]
  {
    var r, h := Reply(f, length, mac, before), SealedHeader(f);
    assert r[14..34] == h == h[..10] + h[10..12] + h[12..16] + h[16..20];
    assert h[..10] == f[14..24] && h[12..16] == f[30..34] && h[16..20] == f[26..30];
  }

  lemma UdpOfReply(f: seq<byte>, length: nat, mac: seq<byte>, before: seq<byte>)
    requires |f| >= REACH && length <= |f| && Answered(f, length) && |mac| == 6 && |before| >= length && UdpAt(f) == 34
    ensures Reply(f, length, mac, before)[34..] ==
      f[36..38] + f[34..36] + f[38..40] + [0, 0] + f[42..34 + UdpLength(f)]
  {
    var r := Reply(f, length, mac, before);
    assert r[34..36] == f[36..38] && r[36..38] == f[34..36] && r[38..40] == f[38..40] && r[40..42] == [0, 0];
    assert r[42..] == f[42..34 + UdpLength(f)];
    assert r[34..] == r[34..36] + r[36..38] + r[38..40] + r[40..42] + r[42..];
  }

  /** Every UDP datagram, from whatever address, is answered with the answer to it, whole, under an IP header
    * that is in order. */
  lemma EchoAnswers(p: Packet, tail: seq<byte>, mac: seq<byte>, before: seq<byte>) returns (sum: seq<byte>)
    requires Legal(p) && |tail| >= REACH && |mac| == 6 && |before| >= |Pack(p)|
    ensures |sum| == 2 && Legal(Answer(p, mac, sum)) && HeaderInOrder(IpPart(Answer(p, mac, sum)))
    ensures var f := Pack(p) + tail;
      Answered(f, |Pack(p)|) && Reply(f, |Pack(p)|, mac, before) == Pack(Answer(p, mac, sum))
  {
    var f := Pack(p) + tail;
    PackedAnswered(p, tail);
    PartsOf(p, tail);
    sum := SealedHeader(f)[10..12];
    FrontOfReply(f, |Pack(p)|, mac, before);
    IpOfReply(f, |Pack(p)|, mac, before);
    UdpOfReply(f, |Pack(p)|, mac, before);
    ReplyHeaderInOrder(f, |Pack(p)|, mac, before);
    var r := Reply(f, |Pack(p)|, mac, before);
    assert r == r[..14] + r[14..34] + r[34..];
  }

  /** With options too: the Ethernet addresses, IP addresses, ports and payload of every answer. */
  lemma AnswerAddressed(frame: seq<byte>, length: nat, mac: seq<byte>, before: seq<byte>)
    requires |frame| >= REACH && length <= |frame| && Answered(frame, length) && |mac| == 6 && |before| >= length
    requires frame[ETH] % 16 >= 5
    ensures var u, n, r := UdpAt(frame), UdpLength(frame), Reply(frame, length, mac, before);
      && |r| == u + n
      && r[..6] == frame[6..12] && r[6..12] == mac && r[12..14] == [8, 0]
      && r[26..30] == frame[30..34] && r[30..34] == frame[26..30]
      && r[u..u + 2] == frame[u + 2..u + 4] && r[u + 2..u + 4] == frame[u..u + 2]
      && r[u + 4..u + 6] == frame[u + 4..u + 6] && r[u + 6..u + 8] == [0, 0] && r[u + 8..] == frame[u + 8..u + n]
      && r[34..u] == before[34..u]
  {
    ReplyParts(frame, length, mac, before);
  }
}
