/** Bytes and the fixed-width integers stored in them. */
module Bytes {
  type byte = x: nat | x < 256

  function Min(a: nat, b: nat): (r: nat) {
    if a < b then a else b
  }

  function Pow256(w: nat): (r: nat)
    ensures r >= 1
  {
    if w == 0 then 1 else 256 * Pow256(w - 1)
  }

  /** The integer whose bytes, least significant first, are given. */
  function LittleEndian(bs: seq<byte>): (r: nat)
    ensures r < Pow256(|bs|)
  {
    if bs == [] then 0 else bs[0] + 256 * LittleEndian(bs[1..])
  }

  /** The low `w` bytes of an integer, least significant first. */
  function LeBytes(x: nat, w: nat): (r: seq<byte>)
    ensures |r| == w
    decreases w, x
  {
    if w == 0 then [] else [x % 256] + LeBytes(x / 256, w - 1)
  }

  /** Two bytes, most significant first. */
  function Big16(hi: byte, lo: byte): (r: nat)
    ensures r < 65536
  {
    256 * hi + lo
  }

  lemma {:induction false} LeRoundTrip(x: nat, w: nat)
    requires x < Pow256(w)
    ensures LittleEndian(LeBytes(x, w)) == x
    decreases w
  {
    if w > 0 {
      LeRoundTrip(x / 256, w - 1);
      assert LeBytes(x, w)[1..] == LeBytes(x / 256, w - 1);
    }
  }

  lemma ByteOf(b: byte, rest: nat)
    ensures (b + 256 * rest) % 256 == b && (b + 256 * rest) / 256 == rest
  {
  }

  /** Reading and writing the same width are inverse in the other direction too. */
  lemma {:induction false} LeBytesOf(bs: seq<byte>)
    ensures LeBytes(LittleEndian(bs), |bs|) == bs
  {
    if bs != [] {
      LeBytesOf(bs[1..]);
      ByteOf(bs[0], LittleEndian(bs[1..]));
    }
  }
}

/** The non-owning packet view: pointers into a frame at variable offsets. */
module Packets {
  import opened Options
  import opened Bytes

  /** All of memory; and memory of which only some addresses may be read. */
  type Memory = nat -> byte
  type PartialMemory = nat --> byte

  const ETH_HEADER: nat := 14
  const IP_HEADER: nat := 20
  const UDP_HEADER: nat := 8
  const UDP_PROTOCOL: nat := 17

  /** The end of the longest header chain: Ethernet, an IPv4 header with IHL 15, UDP. */
  const HEADERS_END: nat := 82

  ghost predicate Readable(mem: PartialMemory, lo: nat, hi: nat) {
    forall a :: lo <= a < hi ==> mem.requires(a)
  }

  /** `n` bytes of memory from an address on. */
  function Load(mem: PartialMemory, at: nat, n: nat): (r: seq<byte>)
    requires Readable(mem, at, at + n)
    ensures |r| == n
  {
    seq(n, i requires 0 <= i < n => mem(at + i))
  }

  /** ntohs of the 16-bit field at an address. */
  function Net16(mem: PartialMemory, at: nat): (r: nat)
    requires Readable(mem, at, at + 2)
    ensures r < 65536
  {
    Big16(mem(at), mem(at + 1))
  }

  /** A frame of `len` bytes at address `data`. Pointers are addresses; None is nullptr. The
      preconditions say which bytes an accessor may read. */
  datatype Packet = Packet(mem: PartialMemory, data: nat, len: nat) {

    /** The headers can be read, as far as the frame has them. */
    ghost predicate HeadersReadable() {
      Readable(mem, data, data + Min(len, HEADERS_END))
    }

    function Ip(): (r: Option<nat>) {
      if len < ETH_HEADER + IP_HEADER then None else Some(data + ETH_HEADER)
    }

    /** Header length the IHL nibble declares, in bytes. */
    function IpHlen(): (r: nat)
      requires HeadersReadable() && Ip().Some?
      ensures r <= 60
    {
      mem(data + ETH_HEADER) % 16 * 4
    }

    function Udp(): (r: Option<nat>)
      requires HeadersReadable()
    {
      if Ip().None? || mem(data + ETH_HEADER + 9) != UDP_PROTOCOL then None
      else if len < ETH_HEADER + IpHlen() + UDP_HEADER then None
      else Some(data + ETH_HEADER + IpHlen())
    }

    function Payload(): (r: Option<nat>)
      requires HeadersReadable()
    {
      if Udp().None? then None else Some(data + ETH_HEADER + IpHlen() + UDP_HEADER)
    }

    /** From the UDP length field alone: it is not clipped to the frame. */
    function PayloadLen(): (r: nat)
      requires HeadersReadable()
    {
      if Udp().None? then 0
      else
        var total := Net16(mem, Udp().value + 4);
        if total < UDP_HEADER then 0 else total - UDP_HEADER
    }

    predicate IsUdp()
      requires HeadersReadable()
    {
      Udp().Some?
    }
  }
}

/** The event the receive loop builds from one frame. */
module FeedEvents {
  import opened Options
  import opened Bytes
  import opened Packets

  const MAX_PAYLOAD: nat := 64

  datatype FeedEvent = FeedEvent(
    injectNs: nat, receiveNs: nat, srcIp: nat, srcPort: nat, dstPort: nat, payloadLen: nat, payload: seq<byte>)

  function Zeros(n: nat): (r: seq<byte>)
    ensures |r| == n
  {
    seq(n, _ => 0)
  }

  /** Pad to the fixed payload array of an event. */
  function Padded(bs: seq<byte>): (r: seq<byte>)
    requires |bs| <= MAX_PAYLOAD
    ensures |r| == MAX_PAYLOAD
  {
    bs + Zeros(MAX_PAYLOAD - |bs|)
  }

  /** How far past the frame's start the loop's copies reach. */
  function CopyEnd(p: Packet): (r: nat)
    requires p.HeadersReadable() && p.IsUdp()
  {
    ETH_HEADER + p.IpHlen() + UDP_HEADER + Min(p.PayloadLen(), MAX_PAYLOAD)
  }

  /** The bytes the loop reads for this frame may be read: the headers, and of a UDP frame
      everything up to the end of the copy. */
  ghost predicate Parsable(p: Packet) {
    p.HeadersReadable() && (p.IsUdp() ==> Readable(p.mem, p.data, p.data + CopyEnd(p)))
  }

  /** The body of the receive loop for one descriptor: nothing for a frame that is not UDP. No
      byte is read but those Parsable names. */
  function EventOf(p: Packet, batchTs: nat): (r: Option<FeedEvent>)
    requires Parsable(p)
  {
    if !p.IsUdp() then None
    else
      var udp, pay, n := p.Udp().value, p.Payload().value, p.PayloadLen();
      Some(FeedEvent(
        if n >= 8 then LittleEndian(Load(p.mem, pay, 8)) else 0,
        batchTs,
        LittleEndian(Load(p.mem, p.Ip().value + 12, 4)),
        Net16(p.mem, udp),
        Net16(p.mem, udp + 2),
        Min(n, MAX_PAYLOAD),
        Padded(Load(p.mem, pay, Min(n, MAX_PAYLOAD)))))
  }

  /** A frame in memory all of which can be read. */
  function PacketAt(mem: Memory, data: nat, len: nat): (p: Packet)
    ensures Parsable(p)
  {
    Packet(mem, data, len)
  }

  // ----- What the loop reads -----

  /** The bytes the loop may look at: below 146 and below len + 64 from the frame's start. */
  function ReadExtent(len: nat): (r: nat) {
    Min(146, len + 64)
  }

  /** For every frame and every value of its length fields, every byte the loop reads lies below
      offset min(146, len + 64): with nothing else readable the event can still be built. */
  lemma ReadsStayNear(p: Packet)
    requires Readable(p.mem, p.data, p.data + ReadExtent(p.len))
    ensures Parsable(p)
    ensures p.IsUdp() ==> CopyEnd(p) <= ReadExtent(p.len)
  {
    assert p.HeadersReadable();
  }

  /** When the UDP length fits the frame, every byte read is one of the frame's own. */
  lemma FittingReadsStayInside(p: Packet)
    requires Readable(p.mem, p.data, p.data + p.len)
    requires p.IsUdp() ==> ETH_HEADER + p.IpHlen() + UDP_HEADER + p.PayloadLen() <= p.len
    ensures Parsable(p)
    ensures p.IsUdp() ==> CopyEnd(p) <= p.len
  {
  }

  /** Both can be read at these addresses, and are the same there. */
  ghost predicate Agree(m: PartialMemory, m': PartialMemory, lo: nat, hi: nat) {
    forall a :: lo <= a < hi ==> m.requires(a) && m'.requires(a) && m(a) == m'(a)
  }

  lemma LoadAgrees(m: PartialMemory, m': PartialMemory, at: nat, n: nat, lo: nat, hi: nat)
    requires Agree(m, m', lo, hi) && lo <= at && at + n <= hi
    ensures Readable(m, at, at + n) && Readable(m', at, at + n)
    ensures Load(m, at, n) == Load(m', at, n)
  {
  }

  lemma FieldAgrees(m: PartialMemory, m': PartialMemory, at: nat, lo: nat, hi: nat)
    requires Agree(m, m', lo, hi) && lo <= at && at + 2 <= hi
    ensures Readable(m, at, at + 2) && Readable(m', at, at + 2)
    ensures Net16(m, at) == Net16(m', at)
  {
  }

  /** The header fields depend only on the first 82 bytes, as far as the frame has them. */
  lemma HeadersAgree(p: Packet, p': Packet)
    requires p'.data == p.data && p'.len == p.len && Agree(p.mem, p'.mem, p.data, p.data + Min(p.len, HEADERS_END))
    ensures p.HeadersReadable() && p'.HeadersReadable()
    ensures p'.Udp() == p.Udp() && p'.Payload() == p.Payload() && p'.PayloadLen() == p.PayloadLen()
    ensures p.IsUdp() ==> CopyEnd(p') == CopyEnd(p)
  {
  }

  /** All fields but those taken from the payload depend on the headers alone. */
  lemma FieldsAgree(p: Packet, p': Packet, ts: nat)
    requires p'.data == p.data && p'.len == p.len && Agree(p.mem, p'.mem, p.data, p.data + Min(p.len, HEADERS_END))
    requires Parsable(p) && Parsable(p') && p.IsUdp()
    ensures p'.IsUdp()
    ensures var ev, ev' := EventOf(p, ts).value, EventOf(p', ts).value;
            ev' == ev.(injectNs := ev'.injectNs, payload := ev'.payload)
  {
    HeadersAgree(p, p');
    LoadAgrees(p.mem, p'.mem, p.Ip().value + 12, 4, p.data, p.data + Min(p.len, HEADERS_END));
  }

  /** The event depends on nothing but the headers and the bytes copied. */
  lemma EventAgrees(p: Packet, p': Packet, hi: nat, ts: nat)
    requires p'.data == p.data && p'.len == p.len && Agree(p.mem, p'.mem, p.data, p.data + hi)
    requires hi >= Min(p.len, HEADERS_END) && Parsable(p)
    requires p.IsUdp() ==> CopyEnd(p) <= hi
    ensures Parsable(p') && EventOf(p', ts) == EventOf(p, ts)
  {
    HeadersAgree(p, p');
    if p.IsUdp() {
      var udp, pay, n := p.Udp().value, p.Payload().value, p.PayloadLen();
      FieldAgrees(p.mem, p'.mem, udp, p.data, p.data + hi);
      FieldAgrees(p.mem, p'.mem, udp + 2, p.data, p.data + hi);
      LoadAgrees(p.mem, p'.mem, pay, Min(n, MAX_PAYLOAD), p.data, p.data + hi);
      if n >= 8 {
        LoadAgrees(p.mem, p'.mem, pay, 8, p.data, p.data + hi);
      }
      LoadAgrees(p.mem, p'.mem, p.Ip().value + 12, 4, p.data, p.data + hi);
      SameFields(p, p', ts);
    }
  }

  /** Two views that agree on every field the loop copies give the same event. */
  lemma SameFields(p: Packet, p': Packet, ts: nat)
    requires Parsable(p) && Parsable(p') && p.IsUdp()
    requires p'.Udp() == p.Udp() && p'.Payload() == p.Payload() && p'.PayloadLen() == p.PayloadLen()
    requires var udp := p.Udp().value;
             Net16(p'.mem, udp) == Net16(p.mem, udp) && Net16(p'.mem, udp + 2) == Net16(p.mem, udp + 2)
    requires p'.Ip() == p.Ip() && Load(p'.mem, p.Ip().value + 12, 4) == Load(p.mem, p.Ip().value + 12, 4)
    requires var pay, n := p.Payload().value, p.PayloadLen();
             && Load(p'.mem, pay, Min(n, MAX_PAYLOAD)) == Load(p.mem, pay, Min(n, MAX_PAYLOAD))
             && (n >= 8 ==> Load(p'.mem, pay, 8) == Load(p.mem, pay, 8))
    ensures EventOf(p', ts) == EventOf(p, ts)
  {
  }

  /** Is the event a function of the frame's own bytes? */
  ghost predicate WithinFrame(mem: Memory, data: nat, len: nat, ts: nat) {
    forall m': Memory {:trigger EventOf(PacketAt(m', data, len), ts)} ::
      Agree(mem, m', data, data + len) ==> EventOf(PacketAt(m', data, len), ts) == EventOf(PacketAt(mem, data, len), ts)
  }

  /** Exactly when it is: a UDP frame's event stays within the frame if and only if the payload
      it copies, at most 64 bytes of what the UDP length field claims, ends inside the frame. */
  lemma WithinFrameIff(mem: Memory, data: nat, len: nat, ts: nat)
    ensures var p := PacketAt(mem, data, len);
            WithinFrame(mem, data, len, ts) <==> (p.IsUdp() ==> CopyEnd(p) <= p.len)
  {
    var p := PacketAt(mem, data, len);
    if p.IsUdp() ==> CopyEnd(p) <= len {
      forall m': Memory | Agree(mem, m', data, data + len)
        ensures EventOf(PacketAt(m', data, len), ts) == EventOf(p, ts)
      {
        EventAgrees(p, PacketAt(m', data, len), len, ts);
      }
    } else {
      var m': Memory := (a: nat) => if a == data + len then 255 - mem(a) else mem(a);
      NextByteLeaks(mem, m', data, len, ts);
      assert !WithinFrame(mem, data, len, ts);
    }
  }

  /** When the copy runs past the frame, the byte after the frame shows in the event. */
  lemma NextByteLeaks(mem: Memory, m': Memory, data: nat, len: nat, ts: nat)
    requires PacketAt(mem, data, len).IsUdp() && CopyEnd(PacketAt(mem, data, len)) > len
    requires forall a :: m'(a) == if a == data + len then 255 - mem(a) else mem(a)
    ensures Agree(mem, m', data, data + len)
    ensures EventOf(PacketAt(m', data, len), ts) != EventOf(PacketAt(mem, data, len), ts)
  {
    var p, p' := PacketAt(mem, data, len), PacketAt(m', data, len);
    HeadersAgree(p, p');
    var pay, n := p.Payload().value, Min(p.PayloadLen(), MAX_PAYLOAD);
    var k := data + len - pay;
    CopiedByte(p, ts, k);
    CopiedByte(p', ts, k);
  }

  /** The k-th payload byte of an event is the k-th byte copied. */
  lemma CopiedByte(p: Packet, ts: nat, k: nat)
    requires Parsable(p) && p.IsUdp() && k < Min(p.PayloadLen(), MAX_PAYLOAD)
    ensures p.mem.requires(p.Payload().value + k)
    ensures EventOf(p, ts).value.payload[k] == p.mem(p.Payload().value + k)
  {
  }

  /** A concrete one: a 42-byte frame with no options whose UDP length field says 9. */
  lemma ShortFrameLeaks(ts: nat)
    ensures var mem: Memory := (a: nat) => if a == 14 then 0x45 else if a == 23 then 17 else if a == 39 then 9 else 0;
            !WithinFrame(mem, 0, 42, ts)
  {
    var mem: Memory := (a: nat) => if a == 14 then 0x45 else if a == 23 then 17 else if a == 39 then 9 else 0;
    var p := PacketAt(mem, 0, 42);
    assert p.Udp() == Some(34) && p.PayloadLen() == 1;
    WithinFrameIff(mem, 0, 42, ts);
  }
}
