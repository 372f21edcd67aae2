/** An encoder written from the wire formats, and the parser proved to be its inverse: the
    Ethernet II header, the IPv4 header of section 3.1 of RFC 791 and the UDP header of RFC 768. */
module WireFormat {
  import opened Options
  import opened Bytes
  import opened Packets
  import opened FeedEvents

  datatype UdpFrame = UdpFrame(
    dstMac: seq<byte>, srcMac: seq<byte>, etherType: nat,
    tos: byte, identification: nat, fragment: nat, ttl: byte, ipChecksum: nat,
    srcIp: seq<byte>, dstIp: seq<byte>, options: seq<byte>,
    srcPort: nat, dstPort: nat, udpChecksum: nat,
    payload: seq<byte>, padding: seq<byte>)

  /** Field widths, an option area of whole 32-bit words up to IHL 15, and a total length that
      fits its 16-bit field. */
  predicate WellFormed(f: UdpFrame) {
    && |f.dstMac| == 6 && |f.srcMac| == 6 && f.etherType < 65536
    && f.identification < 65536 && f.fragment < 65536 && f.ipChecksum < 65536
    && |f.srcIp| == 4 && |f.dstIp| == 4
    && |f.options| % 4 == 0 && |f.options| <= 40
    && f.srcPort < 65536 && f.dstPort < 65536 && f.udpChecksum < 65536
    && 28 + |f.options| + |f.payload| < 65536
  }

  function Be16(x: nat): (r: seq<byte>)
    requires x < 65536
    ensures |r| == 2 && Big16(r[0], r[1]) == x
  {
    [x / 256, x % 256]
  }

  function Ethernet(f: UdpFrame): (r: seq<byte>)
    requires WellFormed(f)
    ensures |r| == 14
  {
    f.dstMac + f.srcMac + Be16(f.etherType)
  }

  /** Version 4 and the header length in 32-bit words. */
  function VersionIhl(f: UdpFrame): (r: byte)
    requires WellFormed(f)
    ensures r % 16 * 4 == 20 + |f.options|
  {
    0x40 + 5 + |f.options| / 4
  }

  function Ipv4(f: UdpFrame): (r: seq<byte>)
    requires WellFormed(f)
    ensures |r| == 20 && r[0] == VersionIhl(f) && r[9] == 17 && r[12..16] == f.srcIp
  {
    [VersionIhl(f), f.tos] + Be16(28 + |f.options| + |f.payload|) + Be16(f.identification) + Be16(f.fragment)
    + [f.ttl, 17] + Be16(f.ipChecksum) + f.srcIp + f.dstIp
  }

  /** The length field counts the header and the data. */
  function UdpHeader(f: UdpFrame): (r: seq<byte>)
    requires WellFormed(f)
    ensures |r| == 8
    ensures Big16(r[0], r[1]) == f.srcPort && Big16(r[2], r[3]) == f.dstPort
    ensures Big16(r[4], r[5]) == 8 + |f.payload|
  {
    Be16(f.srcPort) + Be16(f.dstPort) + Be16(8 + |f.payload|) + Be16(f.udpChecksum)
  }

  function Encode(f: UdpFrame): (r: seq<byte>)
    requires WellFormed(f)
  {
    Ethernet(f) + Ipv4(f) + f.options + UdpHeader(f) + f.payload + f.padding
  }

  /** Memory can be read at an address for these bytes, and holds them. */
  ghost predicate Holds(mem: PartialMemory, at: nat, bs: seq<byte>) {
    forall i :: 0 <= i < |bs| ==> HoldsByte(mem, at, bs, i)
  }

  ghost predicate HoldsByte(mem: PartialMemory, at: nat, bs: seq<byte>, i: nat)
    requires i < |bs|
  {
    mem.requires(at + i) && mem(at + i) == bs[i]
  }

  lemma HoldsAt(mem: PartialMemory, at: nat, bs: seq<byte>, i: nat)
    requires Holds(mem, at, bs) && i < |bs|
    ensures mem.requires(at + i) && mem(at + i) == bs[i]
  {
    assert HoldsByte(mem, at, bs, i);
  }

  lemma HoldsReadable(mem: PartialMemory, at: nat, bs: seq<byte>, lo: nat, hi: nat)
    requires Holds(mem, at, bs) && at <= lo && hi <= at + |bs|
    ensures Readable(mem, lo, hi)
  {
    forall a | lo <= a < hi
      ensures mem.requires(a)
    {
      HoldsAt(mem, at, bs, a - at);
    }
  }

  lemma HoldsPart(mem: PartialMemory, at: nat, a: seq<byte>, b: seq<byte>, c: seq<byte>)
    requires Holds(mem, at, a + b + c)
    ensures Holds(mem, at + |a|, b)
  {
    var base := at + |a|;
    forall i | 0 <= i < |b|
      ensures HoldsByte(mem, base, b, i)
    {
      assert (a + b + c)[|a| + i] == b[i];
      HoldsAt(mem, at, a + b + c, |a| + i);
      assert base + i == at + (|a| + i);
    }
  }

  /** Where the parts of an encoded frame lie. */
  lemma Layout(f: UdpFrame, mem: PartialMemory, data: nat)
    requires WellFormed(f) && Holds(mem, data, Encode(f))
    ensures Holds(mem, data + 14, Ipv4(f))
    ensures Holds(mem, data + 34 + |f.options|, UdpHeader(f))
    ensures Holds(mem, data + 42 + |f.options|, f.payload)
    ensures |Encode(f)| == 42 + |f.options| + |f.payload| + |f.padding|
  {
    var e, i, o, u, p, z := Ethernet(f), Ipv4(f), f.options, UdpHeader(f), f.payload, f.padding;
    assert Encode(f) == e + i + (o + u + p + z);
    HoldsPart(mem, data, e, i, o + u + p + z);
    assert Encode(f) == (e + i + o) + u + (p + z);
    HoldsPart(mem, data, e + i + o, u, p + z);
    assert Encode(f) == (e + i + o + u) + p + z;
    HoldsPart(mem, data, e + i + o + u, p, z);
  }

  lemma HoldsNet16(mem: PartialMemory, at: nat, bs: seq<byte>, k: nat)
    requires Holds(mem, at, bs) && k + 1 < |bs|
    ensures Readable(mem, at + k, at + k + 2) && Net16(mem, at + k) == Big16(bs[k], bs[k + 1])
  {
    HoldsReadable(mem, at, bs, at + k, at + k + 2);
    HoldsAt(mem, at, bs, k);
    HoldsAt(mem, at, bs, k + 1);
  }

  lemma HoldsLoad(mem: PartialMemory, at: nat, bs: seq<byte>, k: nat, n: nat)
    requires Holds(mem, at, bs) && k + n <= |bs|
    ensures Readable(mem, at + k, at + k + n) && Load(mem, at + k, n) == bs[k..k + n]
  {
    HoldsReadable(mem, at, bs, at + k, at + k + n);
    var got, want := Load(mem, at + k, n), bs[k..k + n];
    forall i | 0 <= i < n
      ensures got[i] == want[i]
    {
      HoldsAt(mem, at, bs, k + i);
    }
  }

  /** For every well-formed frame, with any options, payload and trailing padding, the accessors
      find the UDP header and the payload and recover the ports and exactly the payload, reading
      no byte but the frame's. */
  lemma ParseInvertsEncode(f: UdpFrame, mem: PartialMemory, data: nat)
    requires WellFormed(f) && Holds(mem, data, Encode(f))
    ensures var p := Packet(mem, data, |Encode(f)|);
            && Readable(mem, data, data + p.len)
            && p.Udp() == Some(data + 34 + |f.options|)
            && Net16(mem, p.Udp().value) == f.srcPort && Net16(mem, p.Udp().value + 2) == f.dstPort
            && p.Payload() == Some(data + 42 + |f.options|)
            && p.PayloadLen() == |f.payload|
            && Load(mem, p.Payload().value, p.PayloadLen()) == f.payload
  {
    EncodedFields(f, mem, data);
    ParseFields(f, Packet(mem, data, |Encode(f)|));
  }

  /** What memory holds of an encoded frame, as far as the accessors are concerned. */
  ghost predicate FieldsHeld(f: UdpFrame, p: Packet) {
    var udp := p.data + 34 + |f.options|;
    && p.len >= 42 + |f.options| + |f.payload| && Readable(p.mem, p.data, p.data + p.len)
    && p.mem(p.data + 14) % 16 * 4 == 20 + |f.options| && p.mem(p.data + 23) == 17
    && Net16(p.mem, udp) == f.srcPort && Net16(p.mem, udp + 2) == f.dstPort && Net16(p.mem, udp + 4) == 8 + |f.payload|
    && Load(p.mem, p.data + 26, 4) == f.srcIp
    && Load(p.mem, udp + 8, |f.payload|) == f.payload
  }

  lemma EncodedFields(f: UdpFrame, mem: PartialMemory, data: nat)
    requires WellFormed(f) && Holds(mem, data, Encode(f))
    ensures FieldsHeld(f, Packet(mem, data, |Encode(f)|))
  {
    assert Readable(mem, data, data + |Encode(f)|) by { HoldsReadable(mem, data, Encode(f), data, data + |Encode(f)|); }
    Layout(f, mem, data);
    FieldsOf(f, mem, data);
    HoldsLoad(mem, data + 42 + |f.options|, f.payload, 0, |f.payload|);
  }

  lemma ParseFields(f: UdpFrame, p: Packet)
    requires WellFormed(f) && FieldsHeld(f, p)
    ensures && p.Udp() == Some(p.data + 34 + |f.options|)
            && Net16(p.mem, p.Udp().value) == f.srcPort && Net16(p.mem, p.Udp().value + 2) == f.dstPort
            && p.Payload() == Some(p.data + 42 + |f.options|)
            && p.PayloadLen() == |f.payload|
            && Load(p.mem, p.Payload().value, p.PayloadLen()) == f.payload
  {
    ViewFinds(p, 20 + |f.options|, |f.payload|);
  }

  /** The fields the accessors look at, in an encoded frame. */
  lemma FieldsOf(f: UdpFrame, mem: PartialMemory, data: nat)
    requires WellFormed(f)
    requires Holds(mem, data + 14, Ipv4(f)) && Holds(mem, data + 34 + |f.options|, UdpHeader(f))
    ensures mem.requires(data + 14) && mem(data + 14) % 16 * 4 == 20 + |f.options|
    ensures mem.requires(data + 23) && mem(data + 23) == 17
    ensures var udp := data + 34 + |f.options|;
            Readable(mem, udp, udp + 8) &&
            Net16(mem, udp) == f.srcPort && Net16(mem, udp + 2) == f.dstPort && Net16(mem, udp + 4) == 8 + |f.payload|
    ensures Readable(mem, data + 26, data + 30) && Load(mem, data + 26, 4) == f.srcIp
  {
    var udp := data + 34 + |f.options|;
    HoldsReadable(mem, udp, UdpHeader(f), udp, udp + 8);
    HoldsAt(mem, data + 14, Ipv4(f), 0);
    HoldsAt(mem, data + 14, Ipv4(f), 9);
    HoldsNet16(mem, udp, UdpHeader(f), 0);
    HoldsNet16(mem, udp, UdpHeader(f), 2);
    HoldsNet16(mem, udp, UdpHeader(f), 4);
    HoldsLoad(mem, data + 14, Ipv4(f), 12, 4);
  }

  /** The accessors, given those fields. */
  lemma ViewFinds(p: Packet, hlen: nat, n: nat)
    requires p.len >= 34 && p.len >= 22 + hlen && Readable(p.mem, p.data, p.data + p.len)
    requires p.mem(p.data + 14) % 16 * 4 == hlen && p.mem(p.data + 23) == 17
    requires Net16(p.mem, p.data + 14 + hlen + 4) == 8 + n
    ensures p.Udp() == Some(p.data + 14 + hlen) && p.Payload() == Some(p.data + 22 + hlen) && p.PayloadLen() == n
  {
  }

  /** The event a well-formed frame stands for: its ports, source address and the first 64 payload
      bytes, zero-filled, with the first eight read as the injection time. */
  function FrameEvent(f: UdpFrame, ts: nat): (r: FeedEvent) {
    var n := Min(|f.payload|, MAX_PAYLOAD);
    FeedEvent(if |f.payload| >= 8 then LittleEndian(f.payload[..8]) else 0,
              ts, LittleEndian(f.srcIp), f.srcPort, f.dstPort, n, Padded(f.payload[..n]))
  }

  /** The receive loop builds exactly that event, reading no byte but the frame's. */
  lemma EventOfEncode(f: UdpFrame, mem: PartialMemory, data: nat, ts: nat)
    requires WellFormed(f) && Holds(mem, data, Encode(f))
    ensures var p := Packet(mem, data, |Encode(f)|);
            Parsable(p) && EventOf(p, ts) == Some(FrameEvent(f, ts)) && CopyEnd(p) <= p.len
  {
    var p := Packet(mem, data, |Encode(f)|);
    EncodedFields(f, mem, data);
    EventFields(f, p, ts);
  }

  lemma EventFields(f: UdpFrame, p: Packet, ts: nat)
    requires WellFormed(f) && FieldsHeld(f, p)
    ensures Parsable(p) && EventOf(p, ts) == Some(FrameEvent(f, ts)) && CopyEnd(p) <= p.len
  {
    ParseFields(f, p);
    assert p.HeadersReadable() && p.IpHlen() == 20 + |f.options|;
    PayloadPrefix(p.mem, p.Payload().value, f.payload);
    EventFrom(p, f.payload, f.srcIp, ts);
  }

  lemma PayloadPrefix(mem: PartialMemory, pay: nat, payload: seq<byte>)
    requires Readable(mem, pay, pay + |payload|) && Load(mem, pay, |payload|) == payload
    ensures Load(mem, pay, Min(|payload|, MAX_PAYLOAD)) == payload[..Min(|payload|, MAX_PAYLOAD)]
    ensures |payload| >= 8 ==> Load(mem, pay, 8) == payload[..8]
  {
  }

  lemma EventFrom(p: Packet, payload: seq<byte>, srcIp: seq<byte>, ts: nat)
    requires Parsable(p) && p.IsUdp() && p.PayloadLen() == |payload| && Load(p.mem, p.data + 26, 4) == srcIp
    requires Load(p.mem, p.Payload().value, Min(|payload|, MAX_PAYLOAD)) == payload[..Min(|payload|, MAX_PAYLOAD)]
    requires |payload| >= 8 ==> Load(p.mem, p.Payload().value, 8) == payload[..8]
    ensures var n := Min(|payload|, MAX_PAYLOAD);
            EventOf(p, ts) == Some(FeedEvent(
              if |payload| >= 8 then LittleEndian(payload[..8]) else 0,
              ts, LittleEndian(srcIp), Net16(p.mem, p.Udp().value), Net16(p.mem, p.Udp().value + 2), n,
              Padded(payload[..n])))
  {
    assert p.Ip().value + 12 == p.data + 26;
  }

  /** The 64-byte datagram of the synthetic sender: its clock, then 0xAB. */
  function SenderPayload(injectNs: nat): (r: seq<byte>)
    ensures |r| == 64
  {
    LeBytes(injectNs, 8) + seq(56, _ => 0xAB)
  }

  /** The event of the sender's frame carries its timestamp and the whole datagram. */
  lemma SenderToEvent(f: UdpFrame, injectNs: nat, ts: nat)
    requires WellFormed(f) && f.payload == SenderPayload(injectNs) && injectNs < Pow256(8)
    ensures FrameEvent(f, ts)
            == FeedEvent(injectNs, ts, LittleEndian(f.srcIp), f.srcPort, f.dstPort, 64, SenderPayload(injectNs))
  {
    LeRoundTrip(injectNs, 8);
    assert f.payload[..8] == LeBytes(injectNs, 8);
    assert Padded(f.payload[..64]) == f.payload;
  }
}
