/** echo_udp of sys/kernel/drivers/rtl8139.c: the reply frame to a UDP datagram. */
module UdpEcho {
  import opened Prelude
  import opened InternetChecksum

  const ETH: nat := 14
  const IP_LEN: nat := 20

  /** Where five words of IP header end. */
  const FIVE_WORDS: nat := 34
  const IP_UDP: nat := 17
  const TX_BUFFER_SIZE: nat := 1536

  /** As far as echo_udp may look into the receive buffer before it knows that the frame is that long. */
  const REACH: nat := 80

  // ----- The two-step checksum

  lemma {:induction false} WordSumReplace(s: seq<byte>, i: nat, hi: byte, lo: byte)
    requires i % 2 == 0 && i + 1 < |s|
    ensures WordSum(s[i := hi][i + 1 := lo]) + Word(s[i], s[i + 1]) == WordSum(s) + Word(hi, lo)
    decreases |s|
  {
    var t := s[i := hi][i + 1 := lo];
    if i == 0 {
      assert t[2..] == s[2..];
    } else {
      assert t[2..] == s[2..][i - 2 := hi][i - 1 := lo];
      WordSumReplace(s[2..], i - 2, hi, lo);
    }
  }

  function Hi(c: nat): byte
    requires c < TWO_16
  {
    c / 256
  }

  function Lo(c: nat): byte {
    c % 256
  }

  /** A header is in order when its own checksum comes out as zero. */
  predicate HeaderInOrder(h: seq<byte>) {
    Checksum(h) == 0
  }

  lemma SumsWithField(h: seq<byte>, c: nat)
    requires |h| == IP_LEN && h[10] == 0 && h[11] == 0 && c < TWO_16
    ensures WordSum(h[10 := Hi(c)]) == WordSum(h) + 256 * (c / 256)
    ensures WordSum(h[10 := Hi(c)][11 := Lo(c)]) == WordSum(h) + c
  {
    assert h[10 := Hi(c)] == h[10 := Hi(c)][11 := 0];
    WordSumReplace(h, 10, Hi(c), 0);
    WordSumReplace(h, 10, Hi(c), Lo(c));
  }

  /** The checksum field that makes up for a sum `n`: first its high byte, then all of it. */
  lemma FieldsForSum(s: seq<byte>, t: seq<byte>, u: seq<byte>, c: nat)
    requires c == Checksum(s) && WordSum(s) > 0
    requires WordSum(t) == WordSum(s) + 256 * (c / 256) && WordSum(u) == WordSum(s) + c
    ensures Checksum(t) == c % 256 && Checksum(u) == 0
  {
    var k := OnesWitness(s);
    var i := OnesWitness(t);
    var j := OnesWitness(u);
    OnesUnique(WordSum(t), OnesSum(t, 0), i, 0xFFFF - c % 256, k);
    OnesUnique(WordSum(u), OnesSum(u, 0), j, 0xFFFF, k);
  }

  /** With the checksum field zero and the rest not all zero: writing the high byte of the checksum
    * first and recomputing for the low byte still gives the low byte of the same checksum, and the
    * finished header is in order. */
  lemma TwoStepChecksum(h: seq<byte>)
    requires |h| == IP_LEN && h[10] == 0 && h[11] == 0 && WordSum(h) > 0
    ensures var c := Checksum(h);
      && Lo(Checksum(h[10 := Hi(c)])) == Lo(c)
      && HeaderInOrder(h[10 := Hi(c)][11 := Lo(c)])
  {
    var c := Checksum(h);
    SumsWithField(h, c);
    FieldsForSum(h, h[10 := Hi(c)], h[10 := Hi(c)][11 := Lo(c)], c);
  }

  // ----- The reply

  /** Where the UDP header starts: behind as many words of IP header as its first byte says. */
  function UdpAt(frame: seq<byte>): (u: nat)
    requires |frame| >= REACH
    ensures ETH <= u <= REACH - 6
  {
    ETH + frame[ETH] % 16 * 4
  }

  /** Length field of the UDP header. */
  function UdpLength(frame: seq<byte>): nat
    requires |frame| >= REACH
  {
    Word(frame[UdpAt(frame) + 4], frame[UdpAt(frame) + 5])
  }

  /** Frames that are answered: long enough, UDP, with a length field that fits. `frame` is the receive
    * buffer from the frame on, of which the first `length` bytes have been received. */
  predicate Answered(frame: seq<byte>, length: nat)
    requires |frame| >= REACH
  {
    length >= 42 && frame[23] == IP_UDP && 8 <= UdpLength(frame) && UdpAt(frame) + UdpLength(frame) <= length
  }

  /** The first five words of the IP header sent back, the checksum field still zero: source and
    * destination swapped. */
  function BareHeader(frame: seq<byte>): (h: seq<byte>)
    requires |frame| >= 42
    ensures |h| == IP_LEN
  {
    frame[14..24] + [0, 0] + frame[30..34] + frame[26..30]
  }

  function SealedHeader(frame: seq<byte>): (h: seq<byte>)
    requires |frame| >= 42
    ensures |h| == IP_LEN
  {
    var h := BareHeader(frame);
    h[10 := Hi(Checksum(h))][11 := Lo(Checksum(h))]
  }

  function FrontByte(frame: seq<byte>, mac: seq<byte>, k: nat): byte
    requires |frame| >= REACH && |mac| == 6 && k < FIVE_WORDS
  {
    if k < 6 then frame[6 + k] else if k < 12 then mac[k - 6] else if k == 12 then 8 else if k == 13 then 0
    else SealedHeader(frame)[k - ETH]
  }

  /** From the UDP header at `u` on: ports swapped, checksum cleared, the rest as received. */
  function UdpByte(frame: seq<byte>, u: nat, k: nat): byte
    requires u <= k < |frame| && u + 4 <= |frame|
  {
    if k < u + 2 then frame[k + 2] else if k < u + 4 then frame[k - 2]
    else if k == u + 6 || k == u + 7 then 0 else frame[k]
  }

  /** The reply, byte for byte. Options are not copied: between the five words and the UDP header stands
    * whatever was in the buffer before. */
  function Reply(frame: seq<byte>, length: nat, mac: seq<byte>, before: seq<byte>): (r: seq<byte>)
    requires |frame| >= REACH && length <= |frame| && Answered(frame, length) && |mac| == 6 && |before| >= length
    ensures |r| == UdpAt(frame) + UdpLength(frame)
  {
    var u := UdpAt(frame);
    seq(u + UdpLength(frame), k requires 0 <= k < u + UdpLength(frame) =>
      if k >= u then UdpByte(frame, u, k) else if k < FIVE_WORDS then FrontByte(frame, mac, k) else before[k])
  }

  lemma {:induction false} NonZeroSum(s: seq<byte>, i: nat)
    requires i < |s| && s[i] > 0
    ensures WordSum(s) > 0
    decreases |s|
  {
    if i >= 2 {
      NonZeroSum(s[2..], i - 2);
    }
  }

  lemma BareHeaderNonZero(frame: seq<byte>)
    requires |frame| >= 42 && frame[23] == IP_UDP
    ensures WordSum(BareHeader(frame)) > 0
  {
    assert BareHeader(frame)[9] == frame[23];
    NonZeroSum(BareHeader(frame), 9);
  }

  /** Every reply to a frame with a legal IP header, of five words or more, carries five words that are in
    * order, whatever the incoming checksum was. Without options they are the whole header. */
  lemma ReplyHeaderInOrder(frame: seq<byte>, length: nat, mac: seq<byte>, before: seq<byte>)
    requires |frame| >= REACH && length <= |frame| && Answered(frame, length) && |mac| == 6 && |before| >= length
    requires frame[ETH] % 16 >= 5
    ensures HeaderInOrder(Reply(frame, length, mac, before)[ETH..FIVE_WORDS])
  {
    BareHeaderNonZero(frame);
    TwoStepChecksum(BareHeader(frame));
    assert Reply(frame, length, mac, before)[ETH..FIVE_WORDS] == SealedHeader(frame);
  }

  /** What the parts of a reply are. */
  ghost predicate Swapped(frame: seq<byte>, u: nat, n: nat, r: seq<byte>)
    requires FIVE_WORDS <= u && 8 <= n && u + n <= |frame|
  {
    && |r| == u + n
    && r[14..24] == frame[14..24] && r[26..30] == frame[30..34] && r[30..34] == frame[26..30]
    && r[u..u + 2] == frame[u + 2..u + 4] && r[u + 2..u + 4] == frame[u..u + 2] && r[u + 4..u + 6] == frame[u + 4..u + 6]
    && r[u + 6] == 0 && r[u + 7] == 0 && r[u + 8..] == frame[u + 8..u + n]
  }

  lemma ReplyParts(frame: seq<byte>, length: nat, mac: seq<byte>, before: seq<byte>)
    requires |frame| >= REACH && length <= |frame| && Answered(frame, length) && |mac| == 6 && |before| >= length
    requires frame[ETH] % 16 >= 5
    ensures Swapped(frame, UdpAt(frame), UdpLength(frame), Reply(frame, length, mac, before))
  {
    var r, h := Reply(frame, length, mac, before), SealedHeader(frame);
    assert r[14..34] == h;
    assert r[14..24] == h[..10] && r[26..30] == h[12..16] && r[30..34] == h[16..20];
  }

  lemma PrefixPart(r: seq<byte>, tail: seq<byte>, i: nat, j: nat)
    requires i <= j <= |r|
    ensures (r + tail)[i..j] == r[i..j]
  {
  }

  lemma SameBytes(a: seq<byte>, b: seq<byte>, i: nat, j: nat, k: nat)
    requires i <= k < j <= |a| && j <= |b| && a[i..j] == b[i..j]
    ensures a[k] == b[k]
  {
    assert a[k] == a[i..j][k - i];
    assert b[k] == b[i..j][k - i];
  }

  /** The reply, in a receive buffer that goes on with `tail`, is itself answered. */
  lemma ReplyAnswered(frame: seq<byte>, u: nat, n: nat, r: seq<byte>, tail: seq<byte>)
    requires |frame| >= REACH && u == UdpAt(frame) && n == UdpLength(frame) && u + n <= |frame|
    requires Answered(frame, u + n) && FIVE_WORDS <= u && Swapped(frame, u, n, r) && |tail| >= REACH
    ensures var f := r + tail; UdpAt(f) == u && UdpLength(f) == n && Answered(f, |r|)
  {
    SameBytes(r, frame, 14, 24, 14);
    SameBytes(r, frame, 14, 24, 23);
    SameBytes(r, frame, u + 4, u + 6, u + 4);
    SameBytes(r, frame, u + 4, u + 6, u + 5);
  }

  lemma SwappedTwice(frame: seq<byte>, u: nat, n: nat, r: seq<byte>, tail: seq<byte>, rr: seq<byte>)
    requires FIVE_WORDS <= u && 8 <= n && u + n <= |frame|
    requires Swapped(frame, u, n, r) && Swapped(r + tail, u, n, rr)
    ensures rr[14..24] == frame[14..24] && rr[26..34] == frame[26..34]
    ensures rr[u..u + 6] == frame[u..u + 6] && rr[u + 8..] == frame[u + 8..u + n]
  {
    PrefixPart(r, tail, 14, 24);
    PrefixPart(r, tail, 26, 30);
    PrefixPart(r, tail, 30, 34);
    PrefixPart(r, tail, u, u + 2);
    PrefixPart(r, tail, u + 2, u + 4);
    PrefixPart(r, tail, u + 4, u + 6);
    PrefixPart(r, tail, u + 8, u + n);
    assert rr[26..34] == rr[26..30] + rr[30..34] && frame[26..34] == frame[26..30] + frame[30..34];
    assert rr[u..u + 6] == rr[u..u + 2] + rr[u + 2..u + 4] + rr[u + 4..u + 6];
    assert frame[u..u + 6] == frame[u..u + 2] + frame[u + 2..u + 4] + frame[u + 4..u + 6];
  }

  /** Answering the answer restores addresses, ports, lengths and payload, whatever else the buffers hold;
    * the UDP checksum stays cleared. */
  lemma EchoTwice(frame: seq<byte>, length: nat, mac: seq<byte>, before: seq<byte>, tail: seq<byte>, before': seq<byte>)
    requires |frame| >= REACH && length <= |frame| && Answered(frame, length) && |mac| == 6 && |before| >= length
    requires frame[ETH] % 16 >= 5 && |tail| >= REACH && |before'| >= length
    ensures var u, n, r := UdpAt(frame), UdpLength(frame), Reply(frame, length, mac, before);
      && Answered(r + tail, |r|)
      && var rr := Reply(r + tail, |r|, mac, before');
      && |rr| == |r| == u + n
      && rr[14..24] == frame[14..24] && rr[26..34] == frame[26..34]
      && rr[u..u + 6] == frame[u..u + 6] && rr[u + 6] == 0 && rr[u + 7] == 0 && rr[u + 8..] == frame[u + 8..u + n]
  {
    var u, n, r := UdpAt(frame), UdpLength(frame), Reply(frame, length, mac, before);
    ReplyParts(frame, length, mac, before);
    ReplyAnswered(frame, u, n, r, tail);
    SameBytes(r, frame, 14, 24, 14);
    ReplyParts(r + tail, |r|, mac, before');
    SwappedTwice(frame, u, n, r, tail, Reply(r + tail, |r|, mac, before'));
  }

  // ----- The code

  method Copy(dst: array<byte>, at: nat, src: array<byte>, from: nat, n: nat)
    requires dst != src && at + n <= dst.Length && from + n <= src.Length
    modifies dst
    ensures forall k :: 0 <= k < dst.Length ==> dst[k] == if at <= k < at + n then src[from + k - at] else old(dst[k])
  {
    for i := 0 to n
      invariant forall k :: 0 <= k < dst.Length ==> dst[k] == if at <= k < at + i then src[from + k - at] else old(dst[k])
    {
      dst[at + i] := src[from + i];
    }
  }

  /** `nicMac` is the address of the card, `frame` the receive buffer from the frame on, and `reply` the
    * buffer on the stack, which the code does not clear. */
  method EchoUdp(frame: array<byte>, length: nat, nicMac: array<byte>, reply: array<byte>) returns (sent: nat)
    requires length <= frame.Length && length <= 1514 && frame.Length >= REACH && nicMac.Length == 6
    requires reply.Length == TX_BUFFER_SIZE && reply != frame && reply != nicMac
    modifies reply
    ensures if Answered(frame[..], length) then
              sent == UdpAt(frame[..]) + UdpLength(frame[..]) &&
              reply[..sent] == Reply(frame[..], length, nicMac[..], old(reply[..]))
            else sent == 0 && reply[..] == old(reply[..])
  {
    if length < 42 || frame[23] != IP_UDP {
      return 0;
    }
    var udpHeader := 14 + frame[ETH] % 16 * 4;
    var udpLength := Word(frame[udpHeader + 4], frame[udpHeader + 5]);
    if udpHeader + udpLength > length || udpLength < 8 {
      return 0;
    }
    FillEthernetAndIp(reply, frame, nicMac);
    FillUdp(reply, frame, udpHeader, udpLength);
    sent := udpHeader + udpLength;
    ReplyIs(frame[..], length, nicMac[..], old(reply[..]), reply[..]);
  }

  /** Byte for byte the reply, so as a whole. */
  lemma ReplyIs(frame: seq<byte>, length: nat, mac: seq<byte>, before: seq<byte>, r: seq<byte>)
    requires |frame| >= REACH && length <= |frame| && Answered(frame, length) && |mac| == 6 && length <= |before| == |r|
    requires forall k :: 0 <= k < FIVE_WORDS && k < UdpAt(frame) ==> r[k] == FrontByte(frame, mac, k)
    requires forall k :: FIVE_WORDS <= k < UdpAt(frame) ==> r[k] == before[k]
    requires forall k :: UdpAt(frame) <= k < UdpAt(frame) + UdpLength(frame) ==> r[k] == UdpByte(frame, UdpAt(frame), k)
    ensures r[..UdpAt(frame) + UdpLength(frame)] == Reply(frame, length, mac, before)
  {
  }

  method FillEthernetAndIp(r: array<byte>, frame: array<byte>, nicMac: array<byte>)
    requires r.Length == TX_BUFFER_SIZE && frame.Length >= REACH && nicMac.Length == 6
    requires r != frame && r != nicMac && frame[23] == IP_UDP
    modifies r
    ensures forall k :: 0 <= k < FIVE_WORDS ==> r[k] == FrontByte(frame[..], nicMac[..], k)
    ensures forall k :: FIVE_WORDS <= k < r.Length ==> r[k] == old(r[k])
  {
    ghost var f := frame[..];
    Copy(r, 0, frame, 6, 6);
    Copy(r, 6, nicMac, 0, 6);
    r[12], r[13] := 8, 0;
    ghost var front := r[..14];
    assert front == f[6..12] + nicMac[..] + [8, 0];
    FillIp(r, frame);
    assert r[..ETH] == front;
    assert r[ETH..FIVE_WORDS] == SealedHeader(f);
    forall k | 0 <= k < FIVE_WORDS ensures r[k] == FrontByte(f, nicMac[..], k) {
      assert k < ETH ==> r[k] == front[k];
      assert k >= ETH ==> r[k] == r[ETH..FIVE_WORDS][k - ETH];
    }
  }

  /** Five words of IP header with the addresses swapped and the checksum made up. */
  method FillIp(r: array<byte>, frame: array<byte>)
    requires r.Length == TX_BUFFER_SIZE && frame.Length >= REACH && r != frame && frame[23] == IP_UDP
    modifies r
    ensures r[..ETH] == old(r[..ETH]) && r[FIVE_WORDS..] == old(r[FIVE_WORDS..])
    ensures r[ETH..FIVE_WORDS] == SealedHeader(frame[..])
  {
    ghost var f := frame[..];
    Copy(r, 14, frame, 14, 20);
    Copy(r, 26, frame, 30, 4);
    Copy(r, 30, frame, 26, 4);
    r[24], r[25] := 0, 0;
    assert r[14..24] == f[14..24];
    assert r[24..26] == [0, 0];
    assert r[26..30] == f[30..34];
    assert r[30..34] == f[26..30];
    assert r[ETH..FIVE_WORDS] == r[14..24] + r[24..26] + r[26..30] + r[30..34];
    BareHeaderNonZero(f);
    FillChecksum(r, BareHeader(f));
  }

  /** The two steps: high byte, then low byte of a checksum taken again. */
  method FillChecksum(r: array<byte>, ghost h: seq<byte>)
    requires r.Length == TX_BUFFER_SIZE && r[ETH..FIVE_WORDS] == h && h[10] == 0 && h[11] == 0 && WordSum(h) > 0
    modifies r
    ensures r[..ETH] == old(r[..ETH]) && r[FIVE_WORDS..] == old(r[FIVE_WORDS..])
    ensures r[ETH..FIVE_WORDS] == h[10 := Hi(Checksum(h))][11 := Lo(Checksum(h))]
  {
    TwoStepChecksum(h);
    ShortSumFits(h);
    ShortSumFits(h[10 := Hi(Checksum(h))]);
    var c := ComputeChecksum(r, ETH, IP_LEN);
    r[24] := Hi(c);
    assert r[ETH..FIVE_WORDS] == h[10 := Hi(c)];
    var c' := ComputeChecksum(r, ETH, IP_LEN);
    r[25] := Lo(c');
    assert r[ETH..FIVE_WORDS] == h[10 := Hi(c)][11 := Lo(c')];
  }

  method FillUdp(r: array<byte>, frame: array<byte>, udpHeader: nat, udpLength: nat)
    requires r.Length == TX_BUFFER_SIZE && r != frame
    requires 8 <= udpLength && udpHeader + udpLength <= frame.Length && udpHeader + udpLength <= TX_BUFFER_SIZE
    modifies r
    ensures forall k :: 0 <= k < r.Length ==>
      r[k] == if udpHeader <= k < udpHeader + udpLength then UdpByte(frame[..], udpHeader, k) else old(r[k])
  {
    Copy(r, udpHeader, frame, udpHeader, 8);
    r[udpHeader], r[udpHeader + 1] := frame[udpHeader + 2], frame[udpHeader + 3];
    r[udpHeader + 2], r[udpHeader + 3] := frame[udpHeader], frame[udpHeader + 1];
    r[udpHeader + 6], r[udpHeader + 7] := 0, 0;
    Copy(r, udpHeader + 8, frame, udpHeader + 8, udpLength - 8);
  }
}
