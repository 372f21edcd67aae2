/** One turn of the receive loop as a single thread sees it: with no consumer running, the batch
    goes into the event ring in order until the ring is full and the rest is counted. */
module FeedHandlers {
  import opened Options
  import opened Words
  import opened Frames
  import opened Bytes
  import opened Packets
  import opened FeedEvents
  import opened SpscRing
  import opened XdpSockets
  import FrameTheorems

  /** The bytes the loop may look at for a descriptor, and for each of a batch, can be read. */
  ghost predicate FrameReadable(mem: PartialMemory, d: RxDesc) {
    Readable(mem, d.addr, d.addr + ReadExtent(d.len))
  }

  ghost predicate BatchReadable(mem: PartialMemory, descs: seq<RxDesc>) {
    forall i {:trigger descs[i]} :: 0 <= i < |descs| ==> FrameReadable(mem, descs[i])
  }

  /** What a descriptor yields. */
  function FrameEvent(mem: PartialMemory, d: RxDesc, ts: nat): (r: Option<FeedEvent>)
    requires FrameReadable(mem, d)
  {
    var p := Packet(mem, d.addr, d.len);
    ReadsStayNear(p);
    EventOf(p, ts)
  }

  /** What each descriptor of a batch yields, and the events among it. */
  function Parsed(mem: PartialMemory, descs: seq<RxDesc>, ts: nat): (r: seq<Option<FeedEvent>>)
    requires BatchReadable(mem, descs)
    ensures |r| == |descs|
  {
    seq(|descs|, i requires 0 <= i < |descs| => FrameEvent(mem, descs[i], ts))
  }

  lemma ParsedAt(mem: PartialMemory, descs: seq<RxDesc>, ts: nat, i: nat)
    requires BatchReadable(mem, descs) && i < |descs|
    ensures FrameReadable(mem, descs[i]) && Parsed(mem, descs, ts)[i] == FrameEvent(mem, descs[i], ts)
  {
  }

  function Listed<T>(x: Option<T>): (r: seq<T>) {
    if x.Some? then [x.value] else []
  }

  function Somes<T>(xs: seq<Option<T>>): (r: seq<T>) {
    if xs == [] then [] else Somes(xs[..|xs| - 1]) + Listed(xs[|xs| - 1])
  }

  lemma SomesNext<T>(xs: seq<Option<T>>, i: nat)
    requires i < |xs|
    ensures Somes(xs[..i + 1]) == Somes(xs[..i]) + Listed(xs[i])
  {
    assert xs[..i + 1][..i] == xs[..i];
  }

  /** The events of a batch: one for each UDP frame, in order. */
  function Events(mem: PartialMemory, descs: seq<RxDesc>, ts: nat): (r: seq<FeedEvent>)
    requires BatchReadable(mem, descs)
  {
    Somes(Parsed(mem, descs, ts))
  }

  /** Fill in the event of a UDP frame, field by field. */
  method BuildEvent(pkt: Packet, batchTs: nat) returns (ev: FeedEvent)
    requires Parsable(pkt) && pkt.IsUdp()
    ensures EventOf(pkt, batchTs) == Some(ev)
  {
    ev := FeedEvent(0, 0, 0, 0, 0, 0, Zeros(MAX_PAYLOAD));
    ev := ev.(receiveNs := batchTs);
    ev := ev.(srcPort := Net16(pkt.mem, pkt.Udp().value));
    ev := ev.(dstPort := Net16(pkt.mem, pkt.Udp().value + 2));
    ev := ev.(srcIp := LittleEndian(Load(pkt.mem, pkt.Ip().value + 12, 4)));
    var pay, plen := pkt.Payload(), pkt.PayloadLen();
    if pay.Some? && plen >= 8 {
      ev := ev.(injectNs := LittleEndian(Load(pkt.mem, pay.value, 8)));
    }
    ev := ev.(payloadLen := Min(plen, MAX_PAYLOAD));
    ghost var copied := Load(pkt.mem, pay.value, ev.payloadLen);
    PaddedTail(copied);
    if pay.Some? && ev.payloadLen > 0 {
      ev := ev.(payload := Load(pkt.mem, pay.value, ev.payloadLen) + ev.payload[ev.payloadLen..]);
    }
  }

  lemma PaddedTail(bs: seq<byte>)
    requires |bs| <= MAX_PAYLOAD
    ensures bs + Zeros(MAX_PAYLOAD)[|bs|..] == Padded(bs)
    ensures bs == [] ==> Padded(bs) == Zeros(MAX_PAYLOAD)
  {
  }

  /** A ring with room for `room` more took events in order until full; the rest were counted. */
  ghost predicate Poured(was: seq<FeedEvent>, room: nat, evs: seq<FeedEvent>, now: seq<FeedEvent>, dropped: nat, total: nat) {
    now == was + evs[..Min(room, |evs|)] && total == Wrap(dropped + |evs| - Min(room, |evs|))
  }

  lemma PouredNext(was: seq<FeedEvent>, room: nat, evs: seq<FeedEvent>, now: seq<FeedEvent>, dropped: nat, total: nat,
                   ev: FeedEvent, now': seq<FeedEvent>, total': nat)
    requires Poured(was, room, evs, now, dropped, total)
    requires if |now| < |was| + room then now' == now + [ev] && total' == total
             else now' == now && total' == Wrap(total + 1)
    ensures Poured(was, room, evs + [ev], now', dropped, total')
  {
    if |evs| < room {
      assert (evs + [ev])[..|evs| + 1] == evs[..|evs|] + [ev];
    } else {
      assert (evs + [ev])[..room] == evs[..room];
    }
  }

  /** What the frame with event ev, if any, does to the ring contents and the drop counter. */
  ghost predicate PouredOne(limit: nat, ev: Option<FeedEvent>, now: seq<FeedEvent>, total: nat,
                            now': seq<FeedEvent>, total': nat) {
    if ev.None? then now' == now && total' == total
    else if |now| < limit then now' == now + [ev.value] && total' == total
    else now' == now && total' == Wrap(total + 1)
  }

  lemma PouredFrame(was: seq<FeedEvent>, room: nat, limit: nat, evs: seq<FeedEvent>, ev: Option<FeedEvent>,
                    now: seq<FeedEvent>, dropped: nat, total: nat, now': seq<FeedEvent>, total': nat)
    requires Poured(was, room, evs, now, dropped, total)
    requires limit == |was| + room && PouredOne(limit, ev, now, total, now', total')
    ensures Poured(was, room, evs + Listed(ev), now', dropped, total')
  {
    if ev.Some? {
      PouredNext(was, room, evs, now, dropped, total, ev.value, now', total');
    } else {
      assert evs + [] == evs;
    }
  }

  /** The receive circuit after a turn that took the first n descriptors. */
  function AfterTurn(r: RxSide, n: nat): (r': RxSide)
    requires n <= |r.rx|
  {
    r.(fill := r.fill + RxAddrs(r.rx[..n]), rx := r.rx[n..])
  }

  /** Releasing a whole batch just taken returns its addresses to the fill ring in order. */
  lemma BatchReturned(c: Config, r: RxSide, n: nat, granted: nat)
    requires FrameTheorems.RxInv(c, r) && r.held == [] && CanRx(c, r, RxStep.RxBurst(MAX_BATCH, n))
    requires CanRx(c, DoRx(c, r, RxStep.RxBurst(MAX_BATCH, n)), RxStep.RxRelease(r.rx[..n], [], granted))
    ensures DoRx(c, DoRx(c, r, RxStep.RxBurst(MAX_BATCH, n)), RxStep.RxRelease(r.rx[..n], [], granted)) == AfterTurn(r, n)
    ensures FrameTheorems.RxInv(c, AfterTurn(r, n))
  {
    var taken := DoRx(c, r, RxStep.RxBurst(MAX_BATCH, n));
    FrameTheorems.RxStepInv(c, r, RxStep.RxBurst(MAX_BATCH, n));
    FrameTheorems.ReleaseGrantedWhole(c, taken, r.rx[..n], [], granted);
    assert r.rx[..n][..n] == r.rx[..n] && r.lost + r.rx[..n][n..] == r.lost;
    FrameTheorems.RxStepInv(c, taken, RxStep.RxRelease(r.rx[..n], [], granted));
  }

  class FeedHandler {
    const socket: XdpSocket
    const ring: SpscRingBuffer<FeedEvent>
    var pktsRx: nat
    var pktsDropped: nat

    constructor (socket: XdpSocket, ring: SpscRingBuffer<FeedEvent>)
      ensures this.socket == socket && this.ring == ring && pktsRx == 0 && pktsDropped == 0
    {
      this.socket, this.ring := socket, ring;
      pktsRx, pktsDropped := 0, 0;
    }

    ghost predicate Valid()
      reads this, ring
    {
      ring.Valid() && pktsRx < WORD && pktsDropped < WORD
    }

    /** The frame at one descriptor: skip it, queue its event, or count the event as dropped. */
    method HandleFrame(mem: PartialMemory, d: RxDesc, batchTs: nat, ghost ev: Option<FeedEvent>)
      requires Valid() && FrameReadable(mem, d) && ev == FrameEvent(mem, d, batchTs)
      modifies `pktsDropped, ring`tail, ring.buf
      ensures Valid()
      ensures PouredOne(ring.n - 1, ev, old(ring.Contents()), old(pktsDropped), ring.Contents(), pktsDropped)
    {
      LiveSize(ring.buf[..], ring.head, ring.tail);
      var pkt := Packet(mem, d.addr, d.len);
      ReadsStayNear(pkt);
      if !pkt.IsUdp() {
        return;
      }
      var e := BuildEvent(pkt, batchTs);
      var ok := ring.Push(e);
      if !ok {
        pktsDropped := Wrap(pktsDropped + 1);
      }
    }

    /** The next frame of a batch whose earlier events went into a ring that held `was`. */
    method HandleNext(mem: PartialMemory, d: RxDesc, batchTs: nat, ghost ev: Option<FeedEvent>,
                      ghost evs: seq<FeedEvent>, ghost was: seq<FeedEvent>, ghost dropped: nat)
      requires Valid() && |was| <= ring.n - 1 && FrameReadable(mem, d) && ev == FrameEvent(mem, d, batchTs)
      requires Poured(was, ring.n - 1 - |was|, evs, ring.Contents(), dropped, pktsDropped)
      modifies `pktsDropped, ring`tail, ring.buf
      ensures Valid()
      ensures Poured(was, ring.n - 1 - |was|, evs + Listed(ev), ring.Contents(), dropped, pktsDropped)
    {
      ghost var now, total := ring.Contents(), pktsDropped;
      HandleFrame(mem, d, batchTs, ev);
      PouredFrame(was, ring.n - 1 - |was|, ring.n - 1, evs, ev, now, dropped, total, ring.Contents(), pktsDropped);
    }

    /** Parse each frame of a batch and push its event, or count it as dropped. */
    method ProcessBatch(mem: PartialMemory, descs: array<RxDesc>, n: nat, batchTs: nat)
      requires Valid() && n <= descs.Length && BatchReadable(mem, descs[..n])
      modifies `pktsDropped, ring`tail, ring.buf
      ensures Valid() && descs[..n] == old(descs[..n])
      ensures |old(ring.Contents())| <= ring.n - 1
      ensures Poured(old(ring.Contents()), ring.n - 1 - |old(ring.Contents())|, Events(mem, descs[..n], batchTs),
                     ring.Contents(), old(pktsDropped), pktsDropped)
    {
      LiveSize(ring.buf[..], ring.head, ring.tail);
      ghost var all, was := descs[..n], ring.Contents();
      ghost var parsed := Parsed(mem, all, batchTs);
      var i := 0;
      while i < n
        invariant i <= n && Valid() && descs[..n] == all
        invariant Poured(was, ring.n - 1 - |was|, Somes(parsed[..i]), ring.Contents(), old(pktsDropped), pktsDropped)
      {
        assert descs[i] == all[i];
        ParsedAt(mem, all, batchTs, i);
        SomesNext(parsed, i);
        HandleNext(mem, descs[i], batchTs, parsed[i], Somes(parsed[..i]), was, old(pktsDropped));
        i := i + 1;
      }
      assert parsed[..n] == parsed;
    }

    /** Take up to 64 received descriptors, oldest first. */
    method TakeBatch(descs: array<RxDesc>, visible: nat, ghost r: RxSide) returns (n: nat)
      requires socket.Valid() && r.rx == socket.rx.queue && r.held == [] && descs.Length == MAX_BATCH
      modifies descs, socket.rx
      ensures socket.Valid() && n <= MAX_BATCH && n <= |r.rx|
      ensures descs[..n] == r.rx[..n] && socket.rx.queue == r.rx[n..]
    {
      n := socket.RxBurst(descs, visible, r);
      assert r.held + descs[..n] == descs[..n] && r.held + r.rx[..n] == r.rx[..n];
    }

    /** Give a batch just taken back to the fill ring. */
    method ReturnBatch(descs: array<RxDesc>, n: nat, offer: nat, ghost r: RxSide)
      requires socket.Valid() && FrameTheorems.RxInv(socket.umem.cfg, r) && r.held == [] && r.fill == socket.umem.fill.queue
      requires n <= descs.Length && n <= MAX_BATCH && n <= |r.rx| && descs[..n] == r.rx[..n]
      modifies socket.umem.fill
      ensures socket.Valid() && FrameTheorems.RxInv(socket.umem.cfg, AfterTurn(r, n))
      ensures socket.umem.fill.queue == AfterTurn(r, n).fill
    {
      ghost var taken := DoRx(socket.umem.cfg, r, RxBurst(MAX_BATCH, n));
      assert descs[..n] + [] == r.rx[..n] == r.held + r.rx[..n];
      ghost var granted := socket.RxRelease(descs, n, offer, taken, []);
      BatchReturned(socket.umem.cfg, r, n, granted);
    }

    /** One turn of the loop: take a batch, count and process it, give the frames back. */
    method RxTurn(mem: PartialMemory, visible: nat, offer: nat, batchTs: nat, ghost r: RxSide) returns (n: nat)
      requires Valid() && socket.Valid() && r.rx == socket.rx.queue && r.fill == socket.umem.fill.queue
      requires FrameTheorems.RxInv(socket.umem.cfg, r) && r.held == [] && BatchReadable(mem, r.rx)
      modifies this, ring, ring.buf, socket.rx, socket.umem.fill
      ensures Valid() && socket.Valid() && n <= MAX_BATCH && n <= |r.rx|
      ensures pktsRx == Wrap(old(pktsRx) + n)
      ensures |old(ring.Contents())| <= ring.n - 1
      ensures Poured(old(ring.Contents()), ring.n - 1 - |old(ring.Contents())|, Events(mem, r.rx[..n], batchTs),
                     ring.Contents(), old(pktsDropped), pktsDropped)
      ensures socket.rx.queue == AfterTurn(r, n).rx && socket.umem.fill.queue == AfterTurn(r, n).fill
      ensures FrameTheorems.RxInv(socket.umem.cfg, AfterTurn(r, n))
    {
      LiveSize(ring.buf[..], ring.head, ring.tail);
      var descs := new RxDesc[MAX_BATCH](_ => RxDesc(0, 0, 0));
      n := TakeBatch(descs, visible, r);
      if n == 0 {
        assert Parsed(mem, r.rx[..0], batchTs) == [];
        assert AfterTurn(r, 0) == r;
        return;
      }
      pktsRx := Wrap(pktsRx + n);
      ProcessBatch(mem, descs, n, batchTs);
      ReturnBatch(descs, n, offer, r);
    }
  }
}
