/** IPv4, TCP and UDP headers: pushing them in front of a payload and pulling them
    off again. */
module Inet {
  import opened Bytes
  import opened Checksum

  const CAPACITY: nat := 1580
  const HEADROOM: nat := 64
  const PROTO_TCP: nat := 6
  const PROTO_UDP: nat := 17

  // ------------------------------------------------------------------- IPv4

  datatype Ip = Ip(source: nat, destination: nat, protocol: byte, ttl: byte, identification: nat, flags: nat) {
    predicate Ok() {
      source < 0x1_0000_0000 && destination < 0x1_0000_0000 && identification < 0x1_0000 && flags < 0x1_0000
    }
  }

  function IpHead(h: Ip, total: nat): (b: bytes)
    requires h.Ok() && total < 0x1_0000
    ensures |b| == 10
  {
    [0x45, 0] + BE16(total) + BE16(h.identification) + BE16(h.flags) + [h.ttl, h.protocol]
  }

  function IpTail(h: Ip): (b: bytes)
    requires h.Ok()
    ensures |b| == 8
  {
    BE32(h.source) + BE32(h.destination)
  }

  function IpHeader(h: Ip, total: nat, checksum: nat): (b: bytes)
    requires h.Ok() && total < 0x1_0000 && checksum < 0x1_0000
    ensures |b| == 20
  {
    IpHead(h, total) + BE16(checksum) + IpTail(h)
  }

  /** The datagram on the wire. */
  ghost function IpDatagram(h: Ip, payload: bytes): bytes
    requires h.Ok() && |payload| <= 65515
  {
    IpHeader(h, 20 + |payload|, Complement(Sum16(IpHeader(h, 20 + |payload|, 0)))) + payload
  }

  function IpFields(b: bytes): Ip
    requires 20 <= |b|
  {
    Ip(Get32(b, 12), Get32(b, 16), b[9], b[8], Get16(b, 4), Get16(b, 6))
  }

  /** The checks of the receiving side, in order. */
  ghost function IpVerdict(b: bytes): int {
    if |b| < 20 || b[0] / 16 != 4 || b[0] % 16 != 5 then -1
    else if Complement(Sum16(b[..20])) != 0 then -2
    else if Get16(b, 2) < 20 || Get16(b, 2) > |b| then -3
    else 0
  }

  lemma IpChecks(h: Ip, total: nat)
    requires h.Ok() && total < 0x1_0000
    ensures Complement(Sum16(IpHeader(h, total, Complement(Sum16(IpHeader(h, total, 0)))))) == 0
  {
    var head, tail := IpHead(h, total), IpTail(h);
    SumAround(head, 0, tail);
    var s := Sum16(IpHeader(h, total, 0));
    assert s > 0 by {
      assert Get16(head, 0) == 0x4500;
    }
    SumAround(head, Complement(s), tail);
    SelfCheck(s);
  }

  lemma IpHeaderFields(h: Ip, total: nat, checksum: nat, rest: bytes)
    requires h.Ok() && total < 0x1_0000 && checksum < 0x1_0000
    ensures (
      var b := IpHeader(h, total, checksum) + rest;
      IpFields(b) == h && Get16(b, 2) == total && b[0] == 0x45
    )
  {
  }

  /** Pull after push gives the same header and payload back, also with padding
      behind the datagram. */
  lemma IpRoundTrip(h: Ip, payload: bytes, padding: bytes)
    requires h.Ok() && |payload| <= 65515
    ensures (
      var b := IpDatagram(h, payload) + padding;
      IpVerdict(b) == 0 && IpFields(b) == h && b[20..Get16(b, 2)] == payload
    )
  {
    var total := 20 + |payload|;
    var checksum := Complement(Sum16(IpHeader(h, total, 0)));
    var header := IpHeader(h, total, checksum);
    var b := IpDatagram(h, payload) + padding;
    assert b == header + (payload + padding);
    IpHeaderFields(h, total, checksum, payload + padding);
    assert b[..20] == header;
    IpChecks(h, total);
  }

  // --------------------------------------------------------- pseudo header

  ghost function PseudoSum(source: nat, destination: nat, protocol: nat, length: nat): nat {
    source / 0x1_0000 + source % 0x1_0000 + destination / 0x1_0000 + destination % 0x1_0000 + protocol + length
  }

  method PseudoChecksum(source: nat, destination: nat, protocol: nat, segment: bytes) returns (c: nat)
    ensures c == Complement(PseudoSum(source, destination, protocol, |segment|) + Sum16(segment)) <= 0xffff
  {
    var sum := source / 0x1_0000 + source % 0x1_0000 + destination / 0x1_0000 + destination % 0x1_0000
             + protocol + |segment|;
    sum := AddWords(sum, segment);
    c := ChecksumAdd(sum);
  }

  // -------------------------------------------------------------------- TCP

  datatype Tcp = Tcp(source: nat, destination: nat, sequence: nat, ack: nat, flags: nat, window: nat) {
    /** What the sender accepts: ports other than zero, nine flag bits. */
    predicate Ok() {
      && 0 < source < 0x1_0000 && 0 < destination < 0x1_0000
      && sequence < 0x1_0000_0000 && ack < 0x1_0000_0000 && flags < 0x200 && window < 0x1_0000
    }
  }

  function TcpHead(h: Tcp): (b: bytes)
    requires h.Ok()
    ensures |b| == 16
  {
    BE16(h.source) + BE16(h.destination) + BE32(h.sequence) + BE32(h.ack) + [0x50, h.flags % 256] + BE16(h.window)
  }

  function TcpHeader(h: Tcp, checksum: nat): (b: bytes)
    requires h.Ok() && checksum < 0x1_0000
    ensures |b| == 20
  {
    TcpHead(h) + BE16(checksum) + BE16(0)
  }

  ghost function TcpChecksum(source: nat, destination: nat, h: Tcp, payload: bytes): nat
    requires h.Ok()
  {
    Complement(PseudoSum(source, destination, PROTO_TCP, 20 + |payload|) + Sum16(TcpHeader(h, 0) + payload))
  }

  ghost function TcpSegment(source: nat, destination: nat, h: Tcp, payload: bytes): bytes
    requires h.Ok()
  {
    TcpHeader(h, TcpChecksum(source, destination, h, payload)) + payload
  }

  function TcpFields(b: bytes): Tcp
    requires 20 <= |b|
  {
    Tcp(Get16(b, 0), Get16(b, 2), Get32(b, 4), Get32(b, 8), b[13], Get16(b, 14))
  }

  function TcpHeaderLength(b: bytes): nat
    requires 20 <= |b|
  {
    b[12] / 16 * 4
  }

  ghost function TcpVerdict(source: nat, destination: nat, b: bytes): int {
    if source == 0 || destination == 0 || |b| < 20 then -1
    else if TcpHeaderLength(b) < 20 || TcpHeaderLength(b) > |b| || b[12] % 16 != 0 then -2
    else if Complement(PseudoSum(source, destination, PROTO_TCP, |b|) + Sum16(b)) != 0 then -3
    else if Get16(b, 0) == 0 || Get16(b, 2) == 0 then -4
    else 0
  }

  lemma TcpSum(h: Tcp, checksum: nat, payload: bytes)
    requires h.Ok() && checksum < 0x1_0000
    ensures Sum16(TcpHeader(h, checksum) + payload) == Sum16(TcpHeader(h, 0) + payload) + checksum
  {
    var head, tail := TcpHead(h), BE16(0) + payload;
    SumAround(head, checksum, tail);
    SumAround(head, 0, tail);
    assert TcpHeader(h, checksum) + payload == head + BE16(checksum) + tail;
    assert TcpHeader(h, 0) + payload == head + BE16(0) + tail;
  }

  lemma TcpHeaderFields(h: Tcp, checksum: nat, rest: bytes)
    requires h.Ok() && checksum < 0x1_0000
    ensures (
      var b := TcpHeader(h, checksum) + rest;
      TcpFields(b) == h.(flags := h.flags % 256) && b[12] == 0x50
    )
  {
  }

  /** Pull after push accepts the segment and gives the payload and all fields
      back, except that only the low eight flag bits travel. */
  lemma TcpRoundTrip(source: nat, destination: nat, h: Tcp, payload: bytes)
    requires source > 0 && destination > 0 && h.Ok()
    ensures (
      var b := TcpSegment(source, destination, h, payload);
      && TcpVerdict(source, destination, b) == 0 && b[TcpHeaderLength(b)..] == payload
      && TcpFields(b) == h.(flags := h.flags % 256)
      && (TcpFields(b) == h <==> h.flags < 256)
    )
  {
    var checksum := TcpChecksum(source, destination, h, payload);
    var b := TcpSegment(source, destination, h, payload);
    TcpHeaderFields(h, checksum, payload);
    TcpSum(h, checksum, payload);
    SelfCheck(PseudoSum(source, destination, PROTO_TCP, |b|) + Sum16(TcpHeader(h, 0) + payload));
  }

  // -------------------------------------------------------------------- UDP

  datatype Udp = Udp(source: nat, destination: nat) {
    predicate Ok() {
      0 < source < 0x1_0000 && 0 < destination < 0x1_0000
    }
  }

  function UdpHead(h: Udp, length: nat): (b: bytes)
    requires h.Ok() && length < 0x1_0000
    ensures |b| == 6
  {
    BE16(h.source) + BE16(h.destination) + BE16(length)
  }

  function UdpHeader(h: Udp, length: nat, checksum: nat): (b: bytes)
    requires h.Ok() && length < 0x1_0000 && checksum < 0x1_0000
    ensures |b| == 8
  {
    UdpHead(h, length) + BE16(checksum)
  }

  ghost function UdpSum(source: nat, destination: nat, h: Udp, payload: bytes): nat
    requires h.Ok() && |payload| <= 65527
  {
    PseudoSum(source, destination, PROTO_UDP, 8 + |payload|) + Sum16(UdpHeader(h, 8 + |payload|, 0) + payload)
  }

  /** A zero checksum means none was computed (RFC 768), so zero goes out as all
      ones. */
  ghost function UdpChecksum(source: nat, destination: nat, h: Udp, payload: bytes): nat
    requires h.Ok() && |payload| <= 65527
  {
    var c := Complement(UdpSum(source, destination, h, payload));
    if c == 0 then 0xffff else c
  }

  ghost function UdpDatagram(source: nat, destination: nat, h: Udp, payload: bytes): bytes
    requires h.Ok() && |payload| <= 65527
  {
    UdpHeader(h, 8 + |payload|, UdpChecksum(source, destination, h, payload)) + payload
  }

  function UdpFields(b: bytes): Udp
    requires 8 <= |b|
  {
    Udp(Get16(b, 0), Get16(b, 2))
  }

  ghost function UdpVerdict(source: nat, destination: nat, b: bytes): int {
    if source == 0 || destination == 0 || |b| < 8 then -1
    else if Get16(b, 4) < 8 || Get16(b, 4) > |b| then -2
    else if Get16(b, 6) != 0
            && Complement(PseudoSum(source, destination, PROTO_UDP, Get16(b, 4)) + Sum16(b[..Get16(b, 4)])) != 0 then -3
    else if Get16(b, 0) == 0 || Get16(b, 2) == 0 then -4
    else 0
  }

  lemma UdpWordSum(h: Udp, length: nat, checksum: nat, payload: bytes)
    requires h.Ok() && length < 0x1_0000 && checksum < 0x1_0000
    ensures Sum16(UdpHeader(h, length, checksum) + payload) == Sum16(UdpHeader(h, length, 0) + payload) + checksum
  {
    var head := UdpHead(h, length);
    SumAround(head, checksum, payload);
    SumAround(head, 0, payload);
  }

  lemma UdpHeaderFields(h: Udp, length: nat, checksum: nat, rest: bytes)
    requires h.Ok() && length < 0x1_0000 && checksum < 0x1_0000
    ensures (
      var b := UdpHeader(h, length, checksum) + rest;
      UdpFields(b) == h && Get16(b, 4) == length && Get16(b, 6) == checksum
    )
  {
  }

  /** The checksum that goes out is never zero and always checks. */
  lemma UdpChecks(source: nat, destination: nat, h: Udp, payload: bytes)
    requires h.Ok() && |payload| <= 65527
    ensures 0 < UdpChecksum(source, destination, h, payload) < 0x1_0000
    ensures Complement(PseudoSum(source, destination, PROTO_UDP, 8 + |payload|)
                       + Sum16(UdpDatagram(source, destination, h, payload))) == 0
  {
    var sum := UdpSum(source, destination, h, payload);
    UdpWordSum(h, 8 + |payload|, UdpChecksum(source, destination, h, payload), payload);
    if Complement(sum) == 0 {
      SelfCheckOnes(sum);
    } else {
      SelfCheck(sum);
    }
  }

  /** Pull after push gives ports and payload back, also with padding behind the
      datagram. */
  lemma UdpRoundTrip(source: nat, destination: nat, h: Udp, payload: bytes, padding: bytes)
    requires source > 0 && destination > 0 && h.Ok() && |payload| <= 65527
    ensures (
      var b := UdpDatagram(source, destination, h, payload) + padding;
      UdpVerdict(source, destination, b) == 0 && UdpFields(b) == h && b[8..Get16(b, 4)] == payload
    )
  {
    var datagram, length := UdpDatagram(source, destination, h, payload), 8 + |payload|;
    var checksum := UdpChecksum(source, destination, h, payload);
    var b := datagram + padding;
    UdpChecks(source, destination, h, payload);
    assert b == UdpHeader(h, length, checksum) + (payload + padding);
    UdpHeaderFields(h, length, checksum, payload + padding);
    assert b[..length] == datagram;
  }

  // ------------------------------------------------------------ both layers

  /** A TCP segment in an IPv4 datagram with padding arrives as it was sent. */
  lemma TcpOverIp(ip: Ip, h: Tcp, payload: bytes, padding: bytes)
    requires ip.Ok() && ip.source > 0 && ip.destination > 0 && h.Ok() && h.flags < 256 && |payload| <= 65495
    ensures (
      var b := IpDatagram(ip, TcpSegment(ip.source, ip.destination, h, payload)) + padding;
      && IpVerdict(b) == 0 && IpFields(b) == ip
      && var s := b[20..Get16(b, 2)];
         TcpVerdict(ip.source, ip.destination, s) == 0 && TcpFields(s) == h && s[TcpHeaderLength(s)..] == payload
    )
  {
    IpRoundTrip(ip, TcpSegment(ip.source, ip.destination, h, payload), padding);
    TcpRoundTrip(ip.source, ip.destination, h, payload);
  }

  lemma UdpOverIp(ip: Ip, h: Udp, payload: bytes, padding: bytes)
    requires ip.Ok() && ip.source > 0 && ip.destination > 0 && h.Ok() && |payload| <= 65507
    ensures (
      var b := IpDatagram(ip, UdpDatagram(ip.source, ip.destination, h, payload)) + padding;
      && IpVerdict(b) == 0 && IpFields(b) == ip
      && var s := b[20..Get16(b, 2)];
         UdpVerdict(ip.source, ip.destination, s) == 0 && UdpFields(s) == h && s[8..Get16(s, 4)] == payload
    )
  {
    var d := UdpDatagram(ip.source, ip.destination, h, payload);
    IpRoundTrip(ip, d, padding);
    UdpRoundTrip(ip.source, ip.destination, h, payload, []);
    assert d + [] == d;
  }
}
