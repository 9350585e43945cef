/** The packet buffer and the header code that works on it in place. */
module Packet {
  import opened Bytes
  import opened Checksum
  import opened Inet

  class PacketBuffer {
    const buffer: array<byte>
    var start: nat
    var length: nat

    ghost predicate Valid()
      reads this
    {
      buffer.Length == CAPACITY && start + length <= CAPACITY
    }

    /** The bytes of the packet. */
    ghost function Data(): bytes
      requires Valid()
      reads this, buffer
    {
      buffer[start..start + length]
    }

    constructor ()
      ensures Valid() && fresh(buffer) && start == HEADROOM && Data() == []
    {
      buffer := new byte[CAPACITY];
      start, length := HEADROOM, 0;
    }

    /** Overwrite bytes of the packet. */
    method Write(at: nat, b: bytes)
      requires Valid() && at + |b| <= length
      modifies buffer
      ensures Data() == old(Data())[..at] + b + old(Data())[at + |b|..]
    {
      ghost var was := buffer[..];
      var i := 0;
      while i < |b|
        invariant 0 <= i <= |b|
        invariant forall k :: 0 <= k < CAPACITY ==>
                    buffer[k] == if start + at <= k < start + at + i then b[k - (start + at)] else was[k]
      {
        buffer[start + at + i] := b[i];
        i := i + 1;
      }
    }

    /** Room in front. */
    method Push(n: nat) returns (ok: bool)
      requires Valid()
      modifies this`start, this`length
      ensures Valid() && (ok <==> n <= old(start))
      ensures ok ==> start == old(start) - n && length == old(length) + n && Data()[n..] == old(Data())
      ensures !ok ==> start == old(start) && length == old(length)
    {
      if n > start {
        return false;
      }
      start, length := start - n, length + n;
      ok := true;
    }

    /** Bytes behind. */
    method Put(b: bytes) returns (ok: bool)
      requires Valid()
      modifies this`length, buffer
      ensures Valid() && (ok <==> |b| <= CAPACITY - start - old(length))
      ensures Data() == if ok then old(Data()) + b else old(Data())
      ensures length == if ok then old(length) + |b| else old(length)
    {
      if |b| > CAPACITY - start - length {
        return false;
      }
      ghost var was := Data();
      var end := length;
      length := length + |b|;
      assert Data()[..end] == was;
      Write(end, b);
      ok := true;
    }

    /** Drop bytes in front and cut the packet to `keep` bytes. */
    method Trim(n: nat, keep: nat)
      requires Valid() && n + keep <= length
      modifies this`start, this`length
      ensures Valid() && Data() == old(Data())[n..n + keep]
    {
      start, length := start + n, keep;
    }

    /** Put a header in front. */
    method PushHeader(h: bytes)
      requires Valid() && |h| <= start
      modifies this`start, this`length, buffer
      ensures Valid() && Data() == h + old(Data()) && start == old(start) - |h| && length == old(length) + |h|
    {
      ghost var was := Data();
      var ok := Push(|h|);
      Write(0, h);
      assert Data() == h + was;
    }

    /** Fill in the checksum behind `head`. */
    method PatchChecksum(c: nat, ghost head: bytes, ghost rest: bytes, at: nat)
      requires Valid() && c < 0x1_0000 && |head| == at && Data() == head + BE16(0) + rest
      modifies buffer
      ensures Data() == head + BE16(c) + rest
    {
      ghost var was := Data();
      assert was[..at] == head && was[at + 2..] == rest;
      Write(at, BE16(c));
    }

    // ----------------------------------------------------------------- IPv4

    method Ipv4Push(h: Ip) returns (ok: bool)
      requires Valid() && h.Ok()
      modifies this`start, this`length, buffer
      ensures Valid() && (ok <==> h.ttl != 0 && 20 <= old(start))
      ensures ok ==> old(length) <= 65515 && Data() == IpDatagram(h, old(Data())) && start == old(start) - 20
      ensures !ok ==> Data() == old(Data())
    {
      if h.ttl == 0 || length > 65515 || start < 20 {
        return false;
      }
      ghost var was := Data();
      var total := length + 20;
      PushHeader(IpHeader(h, total, 0));
      var whole := buffer[start..start + length];
      assert whole[..20] == IpHeader(h, total, 0);
      var sum := AddWords(0, whole[..20]);
      var c := ChecksumAdd(sum);
      IpShape(h, total, 0, was);
      PatchChecksum(c, IpHead(h, total), IpTail(h) + was, 10);
      IpShape(h, total, c, was);
      ok := true;
    }

    method Ipv4Pull() returns (code: int, h: Ip)
      requires Valid()
      modifies this`start, this`length
      ensures Valid() && code == IpVerdict(old(Data()))
      ensures code == 0 ==> h == IpFields(old(Data())) && Data() == old(Data())[20..Get16(old(Data()), 2)]
      ensures code != 0 ==> Data() == old(Data())
    {
      h := Ip(0, 0, 0, 0, 0, 0);
      if length < 20 {
        return -1, h;
      }
      var b := buffer[start..start + length];
      if b[0] / 16 != 4 || b[0] % 16 != 5 {
        return -1, h;
      }
      var sum := AddWords(0, b[..20]);
      var c := ChecksumAdd(sum);
      if c != 0 {
        return -2, h;
      }
      var total := Get16(b, 2);
      if total < 20 || total > length {
        return -3, h;
      }
      Trim(20, total - 20);
      return 0, IpFields(b);
    }

    // ------------------------------------------------------------------ TCP

    method TcpPush(source: nat, destination: nat, h: Tcp, payload: bytes) returns (ok: bool)
      requires Valid()
      modifies this`start, this`length, buffer
      ensures Valid()
      ensures ok <==> source != 0 && destination != 0 && h.Ok() && |payload| <= 65515 && 20 <= old(start)
                      && FitsBehind(old(start), old(length), 20, |payload|)
      ensures ok ==> Data() == TcpSegment(source, destination, h, old(Data()) + payload) && start == old(start) - 20
      ensures !ok ==> Data() == old(Data())
    {
      if source == 0 || destination == 0 || !h.Ok() || |payload| > 65515 || start < 20
         || !FitsBehind(start, length, 20, |payload|) {
        return false;
      }
      ok := Put(payload);
      ghost var body := Data();
      PushHeader(TcpHeader(h, 0));
      TcpFinish(source, destination, h, body);
    }

    method TcpFinish(source: nat, destination: nat, h: Tcp, ghost body: bytes)
      requires Valid() && h.Ok() && Data() == TcpHeader(h, 0) + body
      modifies buffer
      ensures Data() == TcpSegment(source, destination, h, body)
    {
      var c := PseudoChecksum(source, destination, PROTO_TCP, buffer[start..start + length]);
      TcpShape(h, 0, body);
      PatchChecksum(c, TcpHead(h), BE16(0) + body, 16);
      TcpShape(h, c, body);
    }

    method TcpPull(source: nat, destination: nat) returns (code: int, h: Tcp)
      requires Valid()
      modifies this`start, this`length
      ensures Valid() && code == TcpVerdict(source, destination, old(Data()))
      ensures code == 0 ==> h == TcpFields(old(Data())) && Data() == old(Data())[TcpHeaderLength(old(Data()))..]
      ensures code != 0 ==> Data() == old(Data())
    {
      h := Tcp(0, 0, 0, 0, 0, 0);
      if source == 0 || destination == 0 || length < 20 {
        return -1, h;
      }
      var b := buffer[start..start + length];
      var n := TcpHeaderLength(b);
      if n < 20 || n > length || b[12] % 16 != 0 {
        return -2, h;
      }
      var c := PseudoChecksum(source, destination, PROTO_TCP, b);
      if c != 0 {
        return -3, h;
      }
      if Get16(b, 0) == 0 || Get16(b, 2) == 0 {
        return -4, h;
      }
      Trim(n, length - n);
      return 0, TcpFields(b);
    }

    // ------------------------------------------------------------------ UDP

    method UdpPush(source: nat, destination: nat, h: Udp, payload: bytes) returns (ok: bool)
      requires Valid()
      modifies this`start, this`length, buffer
      ensures Valid()
      ensures ok <==> source != 0 && destination != 0 && h.Ok() && |payload| <= 65527 && 8 <= old(start)
                      && FitsBehind(old(start), old(length), 8, |payload|)
      ensures ok ==> Data() == UdpDatagram(source, destination, h, old(Data()) + payload) && start == old(start) - 8
      ensures !ok ==> Data() == old(Data())
    {
      if source == 0 || destination == 0 || !h.Ok() || |payload| > 65527 || start < 8
         || !FitsBehind(start, length, 8, |payload|) {
        return false;
      }
      ok := Put(payload);
      ghost var body := Data();
      PushHeader(UdpHeader(h, length + 8, 0));
      UdpFinish(source, destination, h, body);
    }

    method UdpFinish(source: nat, destination: nat, h: Udp, ghost body: bytes)
      requires Valid() && h.Ok() && |body| <= 65527 && Data() == UdpHeader(h, |body| + 8, 0) + body
      modifies buffer
      ensures Data() == UdpDatagram(source, destination, h, body)
    {
      var c := PseudoChecksum(source, destination, PROTO_UDP, buffer[start..start + length]);
      PatchChecksum(if c == 0 then 0xffff else c, UdpHead(h, |body| + 8), body, 6);
    }

    method UdpPull(source: nat, destination: nat) returns (code: int, h: Udp)
      requires Valid()
      modifies this`start, this`length
      ensures Valid() && code == UdpVerdict(source, destination, old(Data()))
      ensures code == 0 ==> h == UdpFields(old(Data())) && Data() == old(Data())[8..Get16(old(Data()), 4)]
      ensures code != 0 ==> Data() == old(Data())
    {
      h := Udp(0, 0);
      if source == 0 || destination == 0 || length < 8 {
        return -1, h;
      }
      var b := buffer[start..start + length];
      var n := Get16(b, 4);
      if n < 8 || n > length {
        return -2, h;
      }
      if b[6] != 0 || b[7] != 0 {
        var c := PseudoChecksum(source, destination, PROTO_UDP, b[..n]);
        if c != 0 {
          return -3, h;
        }
      }
      if Get16(b, 0) == 0 || Get16(b, 2) == 0 {
        return -4, h;
      }
      Trim(8, n - 8);
      return 0, UdpFields(b);
    }
  }

  lemma IpShape(h: Ip, total: nat, c: nat, body: bytes)
    requires h.Ok() && total < 0x1_0000 && c < 0x1_0000
    ensures IpHeader(h, total, c) + body == IpHead(h, total) + BE16(c) + (IpTail(h) + body)
  {
  }

  lemma TcpShape(h: Tcp, c: nat, body: bytes)
    requires h.Ok() && c < 0x1_0000
    ensures TcpHeader(h, c) + body == TcpHead(h) + BE16(c) + (BE16(0) + body)
  {
  }

  /** The capacity test of the senders: it keeps `header` bytes free, unless fewer
      than that are left, when the subtraction wraps and only the buffer's end
      counts. */
  predicate FitsBehind(start: nat, length: nat, header: nat, payload: nat) {
    && start + length + payload <= CAPACITY
    && (start + length + header <= CAPACITY ==> start + length + header + payload <= CAPACITY)
  }

  /** What a fresh buffer can take: the sender's header stays free behind the payload. */
  predicate Sendable(ip: Ip, header: nat, payload: bytes) {
    ip.source > 0 && ip.destination > 0 && ip.ttl != 0 && HEADROOM + header + |payload| <= CAPACITY
  }

  method SendTcp(ip: Ip, h: Tcp, payload: bytes) returns (ok: bool, out: PacketBuffer)
    requires ip.Ok()
    ensures out.Valid() && fresh(out) && fresh(out.buffer) && (ok <==> Sendable(ip, 20, payload) && h.Ok())
    ensures ok ==> out.start + out.length == HEADROOM + |payload|
                   && out.Data() == IpDatagram(ip, TcpSegment(ip.source, ip.destination, h, payload))
  {
    out := new PacketBuffer();
    assert out.Data() + payload == payload;
    ok := out.TcpPush(ip.source, ip.destination, h, payload);
    assert out.length == |out.Data()|;
    if ok {
      ok := out.Ipv4Push(ip);
      assert out.length == |out.Data()|;
    }
  }

  /** Over the buffers: every segment the sender accepts, pushed through both layers and
      padded by the link, comes out of the receiver as it went in. */
  method SendAndReceive(ip: Ip, h: Tcp, payload: bytes, padding: bytes)
    returns (sent: bool, out: PacketBuffer, ip': Ip, h': Tcp)
    requires ip.Ok() && h.flags < 256 && HEADROOM + |payload| + |padding| <= CAPACITY
    ensures sent <==> Sendable(ip, 20, payload) && h.Ok()
    ensures sent ==> out.Valid() && out.Data() == payload && ip' == ip && h' == h
  {
    ip', h' := ip, h;
    sent, out := SendTcp(ip, h, payload);
    if sent {
      var ok := out.Put(padding);
      TcpOverIp(ip, h, payload, padding);
      var code;
      code, ip' := out.Ipv4Pull();
      code, h' := out.TcpPull(ip.source, ip.destination);
    }
  }

  method SendUdp(ip: Ip, h: Udp, payload: bytes) returns (ok: bool, out: PacketBuffer)
    requires ip.Ok()
    ensures out.Valid() && fresh(out) && fresh(out.buffer) && (ok <==> Sendable(ip, 8, payload) && h.Ok())
    ensures ok ==> out.start + out.length == HEADROOM + |payload|
                   && out.Data() == IpDatagram(ip, UdpDatagram(ip.source, ip.destination, h, payload))
  {
    out := new PacketBuffer();
    assert out.Data() + payload == payload;
    ok := out.UdpPush(ip.source, ip.destination, h, payload);
    assert out.length == |out.Data()|;
    if ok {
      ok := out.Ipv4Push(ip);
      assert out.length == |out.Data()|;
    }
  }

  /** The same for datagrams. */
  method SendAndReceiveUdp(ip: Ip, h: Udp, payload: bytes, padding: bytes)
    returns (sent: bool, out: PacketBuffer, ip': Ip, h': Udp)
    requires ip.Ok() && HEADROOM + |payload| + |padding| <= CAPACITY
    ensures sent <==> Sendable(ip, 8, payload) && h.Ok()
    ensures sent ==> out.Valid() && out.Data() == payload && ip' == ip && h' == h
  {
    ip', h' := ip, h;
    sent, out := SendUdp(ip, h, payload);
    if sent {
      var ok := out.Put(padding);
      UdpOverIp(ip, h, payload, padding);
      var code;
      code, ip' := out.Ipv4Pull();
      code, h' := out.UdpPull(ip.source, ip.destination);
    }
  }
}
