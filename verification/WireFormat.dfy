/** The headers on the wire, byte by byte, and known packets: what the senders write
    is what RFC 791, RFC 9293 and RFC 768 lay down, and packets of another sender are
    accepted. */
module WireFormat {
  import opened Bytes
  import opened Checksum
  import opened Inet

  // ----------------------------------------------------------- pseudo header

  /** The pseudo header of section 3.1 of RFC 9293: addresses, a zero byte, the protocol
      number and the length of the segment. */
  function PseudoHeader(source: nat, destination: nat, protocol: byte, length: nat): (b: bytes)
    requires source < 0x1_0000_0000 && destination < 0x1_0000_0000 && length < 0x1_0000
    ensures |b| == 12
  {
    BE32(source) + BE32(destination) + [0, protocol] + BE16(length)
  }

  lemma SumDouble(v: nat)
    requires v < 0x1_0000_0000
    ensures Sum16(BE32(v)) == v / 0x1_0000 + v % 0x1_0000
  {
    SumAppend(BE16(v / 0x1_0000), BE16(v % 0x1_0000));
    SumWord(v / 0x1_0000);
    SumWord(v % 0x1_0000);
  }

  /** The sum the transport checksums start from is the sum of those bytes. */
  lemma PseudoSumIs(source: nat, destination: nat, protocol: byte, length: nat)
    requires source < 0x1_0000_0000 && destination < 0x1_0000_0000 && length < 0x1_0000
    ensures PseudoSum(source, destination, protocol, length) == Sum16(PseudoHeader(source, destination, protocol, length))
  {
    var a, d, p, n := BE32(source), BE32(destination), BE16(protocol), BE16(length);
    assert p == [0, protocol];
    SumDouble(source);
    SumDouble(destination);
    SumWord(protocol);
    SumWord(length);
    SumAppend(a, d);
    SumAppend(a + d, p);
    SumAppend(a + d + p, n);
  }

  /** What a receiver checks: the words of pseudo header and segment together. */
  lemma CheckedSum(source: nat, destination: nat, protocol: byte, segment: bytes)
    requires source < 0x1_0000_0000 && destination < 0x1_0000_0000 && |segment| < 0x1_0000
    ensures PseudoSum(source, destination, protocol, |segment|) + Sum16(segment)
         == Sum16(PseudoHeader(source, destination, protocol, |segment|) + segment)
  {
    PseudoSumIs(source, destination, protocol, |segment|);
    SumAppend(PseudoHeader(source, destination, protocol, |segment|), segment);
  }

  // ------------------------------------------------------------- byte layout

  /** `v` in network order at `at`. */
  predicate Word(b: bytes, at: nat, v: nat)
  {
    at + 2 <= |b| && b[at] == v / 256 % 256 && b[at + 1] == v % 256
  }

  predicate Double(b: bytes, at: nat, v: nat)
  {
    at + 4 <= |b| && b[at] == v / 0x100_0000 % 256 && b[at + 1] == v / 0x1_0000 % 256 && Word(b, at + 2, v)
  }

  /** Section 3.1 of RFC 791: every field of an outgoing datagram at its place, and words
      that sum up to all ones. */
  lemma IpOnTheWire(h: Ip, payload: bytes)
    requires h.Ok() && |payload| <= 65515
    ensures var b := IpDatagram(h, payload);
            && |b| == 20 + |payload| && b[0] == 0x45 && b[1] == 0 && Word(b, 2, |b|)
            && Word(b, 4, h.identification) && Word(b, 6, h.flags) && b[8] == h.ttl && b[9] == h.protocol
            && Double(b, 12, h.source) && Double(b, 16, h.destination)
            && b[20..] == payload && Folded(Sum16(b[..20])) == 0xffff
  {
    var total := 20 + |payload|;
    var checksum := Complement(Sum16(IpHeader(h, total, 0)));
    IpChecks(h, total);
    IpBytes(h, total, checksum, payload);
    assert IpDatagram(h, payload)[..20] == IpHeader(h, total, checksum);
  }

  lemma IpBytes(h: Ip, total: nat, checksum: nat, payload: bytes)
    requires h.Ok() && total < 0x1_0000 && checksum < 0x1_0000
    ensures var b := IpHeader(h, total, checksum) + payload;
            && b[0] == 0x45 && b[1] == 0 && Word(b, 2, total)
            && Word(b, 4, h.identification) && Word(b, 6, h.flags) && b[8] == h.ttl && b[9] == h.protocol
            && Word(b, 10, checksum) && Double(b, 12, h.source) && Double(b, 16, h.destination) && b[20..] == payload
  {
    var b := IpHeader(h, total, checksum) + payload;
    assert b[2..4] == BE16(total) && b[4..6] == BE16(h.identification) && b[6..8] == BE16(h.flags) && b[10..12] == BE16(checksum);
    assert b[12..16] == BE32(h.source) && b[16..20] == BE32(h.destination);
    WordAt(b, 2, total);
    WordAt(b, 4, h.identification);
    WordAt(b, 6, h.flags);
    WordAt(b, 10, checksum);
    DoubleAt(b, 12, h.source);
    DoubleAt(b, 16, h.destination);
  }

  lemma WordAt(b: bytes, at: nat, v: nat)
    requires at + 2 <= |b| && v < 0x1_0000 && b[at..at + 2] == BE16(v)
    ensures Word(b, at, v)
  {
    assert b[at] == b[at..at + 2][0] && b[at + 1] == b[at..at + 2][1];
  }

  lemma DoubleAt(b: bytes, at: nat, v: nat)
    requires at + 4 <= |b| && v < 0x1_0000_0000 && b[at..at + 4] == BE32(v)
    ensures Double(b, at, v)
  {
    var d := b[at..at + 4];
    assert b[at] == d[0] && b[at + 1] == d[1] && b[at + 2] == d[2] && b[at + 3] == d[3];
    Digits(v);
  }

  lemma Digits(v: nat)
    requires v < 0x1_0000_0000
    ensures v / 0x1_0000 / 256 == v / 0x100_0000 % 256
    ensures v % 0x1_0000 / 256 == v / 256 % 256 && v % 0x1_0000 % 256 == v % 256
  {
    HighDigit(v / 0x1_0000, v % 0x1_0000);
    LowDigits(v / 0x1_0000, v % 0x1_0000);
  }

  lemma HighDigit(hi: nat, lo: nat)
    requires hi < 0x1_0000 && lo < 0x1_0000
    ensures (0x1_0000 * hi + lo) / 0x100_0000 % 256 == hi / 256
  {
    var a, b := hi / 256, hi % 256;
    assert 0x1_0000 * hi + lo == 0x100_0000 * a + (0x1_0000 * b + lo);
  }

  lemma LowDigits(hi: nat, lo: nat)
    requires lo < 0x1_0000
    ensures (0x1_0000 * hi + lo) / 256 % 256 == lo / 256 && (0x1_0000 * hi + lo) % 256 == lo % 256
  {
    var c, d := lo / 256, lo % 256;
    assert 0x1_0000 * hi + lo == 256 * (256 * hi + c) + d;
  }

  /** Section 3.1 of RFC 9293, for a header without options. */
  lemma TcpOnTheWire(source: nat, destination: nat, h: Tcp, payload: bytes)
    requires 0 < source < 0x1_0000_0000 && 0 < destination < 0x1_0000_0000 && h.Ok() && |payload| <= 65515
    ensures var b := TcpSegment(source, destination, h, payload);
            && |b| == 20 + |payload| && Word(b, 0, h.source) && Word(b, 2, h.destination)
            && Double(b, 4, h.sequence) && Double(b, 8, h.ack) && b[12] == 0x50 && b[13] == h.flags % 256
            && Word(b, 14, h.window) && Word(b, 18, 0) && b[20..] == payload
            && Folded(Sum16(PseudoHeader(source, destination, 6, |b|) + b)) == 0xffff
  {
    var b := TcpSegment(source, destination, h, payload);
    TcpRoundTrip(source, destination, h, payload);
    CheckedSum(source, destination, 6, b);
    TcpBytes(h, TcpChecksum(source, destination, h, payload), payload);
  }

  lemma TcpBytes(h: Tcp, checksum: nat, payload: bytes)
    requires h.Ok() && checksum < 0x1_0000
    ensures var b := TcpHeader(h, checksum) + payload;
            && Word(b, 0, h.source) && Word(b, 2, h.destination) && Double(b, 4, h.sequence) && Double(b, 8, h.ack)
            && b[12] == 0x50 && b[13] == h.flags % 256 && Word(b, 14, h.window) && Word(b, 18, 0) && b[20..] == payload
  {
    var b := TcpHeader(h, checksum) + payload;
    assert b[0..2] == BE16(h.source) && b[2..4] == BE16(h.destination) && b[14..16] == BE16(h.window) && b[18..20] == BE16(0);
    assert b[4..8] == BE32(h.sequence) && b[8..12] == BE32(h.ack);
    WordAt(b, 0, h.source);
    WordAt(b, 2, h.destination);
    DoubleAt(b, 4, h.sequence);
    DoubleAt(b, 8, h.ack);
    WordAt(b, 14, h.window);
    WordAt(b, 18, 0);
  }

  /** RFC 768. */
  lemma UdpOnTheWire(source: nat, destination: nat, h: Udp, payload: bytes)
    requires 0 < source < 0x1_0000_0000 && 0 < destination < 0x1_0000_0000 && h.Ok() && |payload| <= 65527
    ensures var b := UdpDatagram(source, destination, h, payload);
            && |b| == 8 + |payload| && Word(b, 0, h.source) && Word(b, 2, h.destination) && Word(b, 4, |b|)
            && !Word(b, 6, 0) && b[8..] == payload
            && Folded(Sum16(PseudoHeader(source, destination, 17, |b|) + b)) == 0xffff
  {
    var b := UdpDatagram(source, destination, h, payload);
    UdpChecks(source, destination, h, payload);
    CheckedSum(source, destination, 17, b);
    UdpBytes(h, 8 + |payload|, UdpChecksum(source, destination, h, payload), payload);
  }

  lemma UdpBytes(h: Udp, length: nat, checksum: nat, payload: bytes)
    requires h.Ok() && length < 0x1_0000 && 0 < checksum < 0x1_0000
    ensures var b := UdpHeader(h, length, checksum) + payload;
            Word(b, 0, h.source) && Word(b, 2, h.destination) && Word(b, 4, length) && !Word(b, 6, 0) && b[8..] == payload
  {
    var b := UdpHeader(h, length, checksum) + payload;
    assert b[0..2] == BE16(h.source) && b[2..4] == BE16(h.destination) && b[4..6] == BE16(length) && b[6..8] == BE16(checksum);
    WordAt(b, 0, h.source);
    WordAt(b, 2, h.destination);
    WordAt(b, 4, length);
    WordAt(b, 6, checksum);
  }

  // ------------------------------------------------------------- acceptance

  /** Exactly these datagrams are accepted, and every field is read from its place. */
  lemma IpAcceptedExactlyWhen(b: bytes)
    ensures IpVerdict(b) == 0 <==>
              |b| >= 20 && b[0] == 0x45 && Folded(Sum16(b[..20])) == 0xffff && 20 <= 256 * b[2] as int + b[3] as int <= |b|
    ensures |b| >= 20 ==>
              var h := IpFields(b);
              && Word(b, 4, h.identification) && Word(b, 6, h.flags) && b[8] == h.ttl && b[9] == h.protocol
              && Double(b, 12, h.source) && Double(b, 16, h.destination)
  {
    if |b| >= 20 {
      DoubleGot(b, 12);
      DoubleGot(b, 16);
    }
  }

  lemma DoubleGot(b: bytes, at: nat)
    requires at + 4 <= |b|
    ensures Get32(b, at) < 0x1_0000_0000 && Double(b, at, Get32(b, at))
  {
    HighDigit(Get16(b, at), Get16(b, at + 2));
    LowDigits(Get16(b, at), Get16(b, at + 2));
  }

  /** Exactly these segments are accepted. */
  lemma TcpAcceptedExactlyWhen(source: nat, destination: nat, b: bytes)
    requires 0 < source < 0x1_0000_0000 && 0 < destination < 0x1_0000_0000 && |b| < 0x1_0000
    ensures TcpVerdict(source, destination, b) == 0 <==>
              && |b| >= 20 && b[12] % 16 == 0 && b[12] / 16 >= 5 && 4 * (b[12] / 16) <= |b|
              && Folded(Sum16(PseudoHeader(source, destination, 6, |b|) + b)) == 0xffff
              && !Word(b, 0, 0) && !Word(b, 2, 0)
  {
    CheckedSum(source, destination, 6, b);
  }

  lemma TcpFieldsAre(b: bytes)
    requires |b| >= 20
    ensures var h := TcpFields(b);
            && Word(b, 0, h.source) && Word(b, 2, h.destination) && Double(b, 4, h.sequence) && Double(b, 8, h.ack)
            && b[13] == h.flags && Word(b, 14, h.window)
  {
    DoubleGot(b, 4);
    DoubleGot(b, 8);
  }

  /** Exactly these user datagrams are accepted; `n` is the length they state. */
  lemma UdpAcceptedExactlyWhen(source: nat, destination: nat, b: bytes, n: nat)
    requires 0 < source < 0x1_0000_0000 && 0 < destination < 0x1_0000_0000
    requires |b| >= 6 && n == 256 * b[4] as int + b[5] as int
    ensures UdpVerdict(source, destination, b) == 0 <==>
              && 8 <= n <= |b|
              && (Word(b, 6, 0) || Folded(Sum16(PseudoHeader(source, destination, 17, n) + b[..n])) == 0xffff)
              && !Word(b, 0, 0) && !Word(b, 2, 0)
    ensures |b| >= 8 ==> Word(b, 0, UdpFields(b).source) && Word(b, 2, UdpFields(b).destination)
  {
    if n <= |b| {
      CheckedSum(source, destination, 17, b[..n]);
    }
  }

  // ----------------------------------------------------------- known packets

  lemma SumNext(b: bytes, i: nat)
    requires i + 2 <= |b|
    ensures Sum16(b[i..]) == 256 * b[i] as int + b[i + 1] as int + Sum16(b[i + 2..])
  {
    assert b[i..][2..] == b[i + 2..];
  }

  lemma SumTwenty(b: bytes)
    requires |b| == 20
    ensures Sum16(b) == Get16(b, 0) + Get16(b, 2) + Get16(b, 4) + Get16(b, 6) + Get16(b, 8) + Get16(b, 10)
                        + Get16(b, 12) + Get16(b, 14) + Get16(b, 16) + Get16(b, 18)
  {
    assert b[0..] == b && b[20..] == [];
    SumNext(b, 0);
    SumNext(b, 2);
    SumNext(b, 4);
    SumNext(b, 6);
    SumNext(b, 8);
    SumNext(b, 10);
    SumNext(b, 12);
    SumNext(b, 14);
    SumNext(b, 16);
    SumNext(b, 18);
  }

  /** Twenty bytes, named one by one. */
  predicate Twenty(b: bytes, w0: nat, w1: nat, w2: nat, w3: nat, w4: nat, w5: nat, w6: nat, w7: nat, w8: nat, w9: nat)
  {
    && |b| == 20 && Word(b, 0, w0) && Word(b, 2, w1) && Word(b, 4, w2) && Word(b, 6, w3) && Word(b, 8, w4)
    && Word(b, 10, w5) && Word(b, 12, w6) && Word(b, 14, w7) && Word(b, 16, w8) && Word(b, 18, w9)
  }

  /** An IPv4 header of a UDP datagram from 192.168.0.1 to 192.168.0.199. */
  lemma KnownIpHeader(header: bytes, payload: bytes)
    requires header == [0x45, 0, 0, 0x73, 0, 0, 0x40, 0, 0x40, 0x11, 0xb8, 0x61, 0xc0, 0xa8, 0, 1, 0xc0, 0xa8, 0, 0xc7]
    requires |payload| == 95
    ensures var b := header + payload;
            IpVerdict(b) == 0 && IpFields(b) == Ip(0xc0a8_0001, 0xc0a8_00c7, 17, 64, 0, 0x4000)
    ensures header[10..12] == BE16(Complement(Sum16(header[..10] + [0, 0] + header[12..])))
  {
    assert Twenty(header, 0x4500, 0x73, 0, 0x4000, 0x4011, 0xb861, 0xc0a8, 1, 0xc0a8, 0xc7);
    IpHeaderKnown(header, payload);
    ZeroedSum(header, header[..10] + [0, 0] + header[12..]);
    assert Complement(0x2_479c) == 0xb861;
  }

  lemma ZeroedSum(header: bytes, zeroed: bytes)
    requires Twenty(header, 0x4500, 0x73, 0, 0x4000, 0x4011, 0xb861, 0xc0a8, 1, 0xc0a8, 0xc7)
    requires zeroed == header[..10] + [0, 0] + header[12..]
    ensures Sum16(zeroed) == 0x2_479c
  {
    var head, tail := header[..10], header[12..];
    assert header == head + BE16(0xb861) + tail && zeroed == head + BE16(0) + tail;
    SumAround(head, 0xb861, tail);
    SumAround(head, 0, tail);
    IpSumKnown(header);
  }

  lemma IpHeaderKnown(header: bytes, payload: bytes)
    requires Twenty(header, 0x4500, 0x73, 0, 0x4000, 0x4011, 0xb861, 0xc0a8, 1, 0xc0a8, 0xc7) && |payload| == 95
    ensures var b := header + payload;
            IpVerdict(b) == 0 && IpFields(b) == Ip(0xc0a8_0001, 0xc0a8_00c7, 17, 64, 0, 0x4000)
  {
    var b := header + payload;
    assert b[..20] == header;
    IpSumKnown(header);
  }

  lemma IpSumKnown(header: bytes)
    requires Twenty(header, 0x4500, 0x73, 0, 0x4000, 0x4011, 0xb861, 0xc0a8, 1, 0xc0a8, 0xc7)
    ensures Sum16(header) == 0x2_fffd
  {
    SumTwenty(header);
  }

  /** A SYN-ACK from 10.0.2.2:80 to 10.0.2.15:1024. */
  lemma KnownSegment(b: bytes)
    requires b == [0, 80, 4, 0, 0, 0, 0, 1, 0, 0, 0, 1, 0x50, 0x12, 0x20, 0, 0x73, 0x70, 0, 0]
    ensures TcpVerdict(0x0a00_0202, 0x0a00_020f, b) == 0 && TcpHeaderLength(b) == 20
    ensures TcpFields(b) == Tcp(80, 1024, 1, 1, 0x12, 0x2000)
  {
    assert Twenty(b, 80, 1024, 0, 1, 0, 1, 0x5012, 0x2000, 0x7370, 0);
    SegmentKnown(b);
  }

  lemma SegmentKnown(b: bytes)
    requires Twenty(b, 80, 1024, 0, 1, 0, 1, 0x5012, 0x2000, 0x7370, 0)
    ensures TcpVerdict(0x0a00_0202, 0x0a00_020f, b) == 0 && TcpHeaderLength(b) == 20
    ensures TcpFields(b) == Tcp(80, 1024, 1, 1, 0x12, 0x2000)
  {
    SumTwenty(b);
    assert PseudoSum(0x0a00_0202, 0x0a00_020f, 6, 20) == 0x182b;
  }

  /** Three bytes from 10.0.2.3:53 to 10.0.2.15:1024. */
  lemma KnownDatagram(b: bytes)
    requires b == [0, 53, 4, 0, 0, 11, 0x53, 0x26, 0x6f, 0x6b, 0x21]
    ensures UdpVerdict(0x0a00_0203, 0x0a00_020f, b) == 0 && UdpFields(b) == Udp(53, 1024)
    ensures Get16(b, 4) == 11 && b[8..11] == [0x6f, 0x6b, 0x21]
  {
    DatagramKnown(b);
  }

  lemma DatagramKnown(b: bytes)
    requires |b| == 11 && Word(b, 0, 53) && Word(b, 2, 1024) && Word(b, 4, 11) && Word(b, 6, 0x5326) && Word(b, 8, 0x6f6b) && b[10] == 0x21
    ensures UdpVerdict(0x0a00_0203, 0x0a00_020f, b) == 0 && UdpFields(b) == Udp(53, 1024) && Get16(b, 4) == 11
  {
    SumEleven(b);
    assert b[..11] == b && PseudoSum(0x0a00_0203, 0x0a00_020f, 17, 11) == 0x182e;
  }

  lemma SumEleven(b: bytes)
    requires |b| == 11
    ensures Sum16(b) == Get16(b, 0) + Get16(b, 2) + Get16(b, 4) + Get16(b, 6) + Get16(b, 8) + 256 * b[10] as int
  {
    assert b[0..] == b && b[10..] == [b[10]];
    SumNext(b, 0);
    SumNext(b, 2);
    SumNext(b, 4);
    SumNext(b, 6);
    SumNext(b, 8);
  }
}
