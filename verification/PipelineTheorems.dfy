/** From frame to event: what every run of the feed handler keeps. */
module PipelineTheorems {
  import opened Options
  import opened Words
  import opened Frames
  import opened FrameTheorems
  import opened Packets
  import opened FeedEvents
  import opened Pipeline
  import RingIndex
  import Ring = SpscProtocol
  import SpscSafety
  import SpscTheorems

  // ----- Frames and the events made from them -----

  /** First byte of the frame an address lies in. */
  function FrameBase(c: Config, addr: nat): (r: nat)
    requires c.frameSize >= 1
  {
    FrameOf(c, addr) * c.frameSize
  }

  /** The packet stays inside one frame. */
  ghost predicate DescInFrame(c: Config, d: RxDesc)
    requires c.frameSize >= 1
  {
    FrameBase(c, d.addr) <= d.addr && d.addr + d.len <= FrameBase(c, d.addr) + c.frameSize
  }

  /** Everything the loop copies for this arrival lies inside its frame. */
  ghost predicate CopyInFrame(c: Config, a: Arrival)
    requires c.frameSize >= 1 && View(a.mem, a.desc).IsUdp()
  {
    a.desc.addr + CopyEnd(View(a.mem, a.desc)) <= FrameBase(c, a.desc.addr) + c.frameSize
  }

  /** The event was built from this UDP arrival at this time: every field but the bytes copied from
      the payload is as delivered, and so are those bytes if they lie inside the frame. */
  ghost predicate EventFor(c: Config, a: Arrival, ts: nat, ev: FeedEvent)
    requires c.frameSize >= 1
  {
    && View(a.mem, a.desc).IsUdp()
    && var delivered := EventOf(View(a.mem, a.desc), ts).value;
    && ev == delivered.(injectNs := ev.injectNs, payload := ev.payload)
    && (CopyInFrame(c, a) ==> ev == delivered)
  }

  /** It always is when the descriptor starts at least 146 bytes before the frame's end, or when
      the UDP length fits the packet. */
  lemma CopyStaysInFrame(c: Config, a: Arrival)
    requires c.frameSize >= 1 && DescInFrame(c, a.desc) && View(a.mem, a.desc).IsUdp()
    requires || a.desc.addr + 146 <= FrameBase(c, a.desc.addr) + c.frameSize
             || CopyEnd(View(a.mem, a.desc)) <= a.desc.len
    ensures CopyInFrame(c, a)
  {
    ReadsStayNear(View(a.mem, a.desc));
  }

  /** With no memory readable but the frame, a descriptor that starts at least 146 bytes before the
      frame's end can still be parsed. */
  lemma FrameIsEnough(c: Config, d: RxDesc, mem: PartialMemory)
    requires c.frameSize >= 1 && DescInFrame(c, d) && d.addr + 146 <= FrameBase(c, d.addr) + c.frameSize
    requires Readable(mem, FrameBase(c, d.addr), FrameBase(c, d.addr) + c.frameSize)
    ensures Parsable(Packet(mem, d.addr, d.len))
  {
    ReadsStayNear(Packet(mem, d.addr, d.len));
  }

  ghost predicate FateFor(c: Config, a: Arrival, ts: nat, fate: Fate)
    requires c.frameSize >= 1
  {
    match fate
    case Skipped => !View(a.mem, a.desc).IsUdp()
    case Queued(ev) => EventFor(c, a, ts, ev)
    case Dropped(ev) => EventFor(c, a, ts, ev)
  }

  /** The k-th fate is that of the k-th arrival, received at the k-th time. */
  ghost predicate FatesMatch(c: Config, arrivals: seq<Arrival>, stamps: seq<nat>, fates: seq<Fate>)
    requires c.frameSize >= 1
  {
    |fates| <= |stamps| <= |arrivals|
    && forall k {:trigger FateFor(c, arrivals[k], stamps[k], fates[k])} :: 0 <= k < |fates| ==>
         FateFor(c, arrivals[k], stamps[k], fates[k])
  }

  /** Memory in the arrival's frame is as the kernel left it. */
  ghost predicate FrameSame(c: Config, a: Arrival, mem: Memory)
    requires c.frameSize >= 1
  {
    Agree(a.mem, mem, FrameBase(c, a.desc.addr), FrameBase(c, a.desc.addr) + c.frameSize)
  }

  ghost predicate FramesSame(c: Config, arrivals: seq<Arrival>, from: int, mem: Memory)
    requires c.frameSize >= 1
  {
    forall k {:trigger FrameSame(c, arrivals[k], mem)} :: 0 <= from <= k < |arrivals| ==> FrameSame(c, arrivals[k], mem)
  }

  ghost predicate AllInFrame(c: Config, arrivals: seq<Arrival>)
    requires c.frameSize >= 1
  {
    forall k {:trigger DescInFrame(c, arrivals[k].desc)} :: 0 <= k < |arrivals| ==> DescInFrame(c, arrivals[k].desc)
  }

  function Descs(arrivals: seq<Arrival>): (r: seq<RxDesc>)
    ensures |r| == |arrivals|
  {
    seq(|arrivals|, i requires 0 <= i < |arrivals| => arrivals[i].desc)
  }

  /** These descriptors are the last arrivals, in order. */
  ghost predicate LastArrivals(arrivals: seq<Arrival>, pending: seq<RxDesc>) {
    |pending| <= |arrivals| && Descs(arrivals)[|arrivals| - |pending|..] == pending
  }

  // ----- The invariant -----

  /** How many frames rx_burst has handed out, and how many of them were released. */
  function Received(s: State): (r: int) {
    |s.arrivals| - |s.rx.rx|
  }

  function Released(s: State): (r: int) {
    |s.arrivals| - |s.rx.held + s.rx.rx|
  }

  ghost predicate ThreadAt(c: Config, s: State)
    requires c.frameSize >= 1 && LastArrivals(s.arrivals, s.rx.held + s.rx.rx)
  {
    match s.thread
    case LoopHead => s.rx.held == [] && |s.fates| == Released(s) && s.ring.prod.PIdle?
    case Exited => s.rx.held == [] && |s.fates| == Released(s) && s.ring.prod.PIdle?
    case InBatch(i, ts) =>
      i <= |s.rx.held| && |s.fates| == Released(s) + i && BatchStamped(s.stamps, Released(s), ts) && s.ring.prod.PIdle?
    case InPush(i, ts) =>
      && i < |s.rx.held| && |s.fates| == Released(s) + i && BatchStamped(s.stamps, Released(s), ts)
      && (s.ring.prod.PTail? || s.ring.prod.PRoom? || s.ring.prod.PStored?)
      && EventFor(c, s.arrivals[Released(s) + i], ts, s.ring.prod.item)
  }

  /** The frames of the current batch were received at one time. */
  ghost predicate BatchStamped(stamps: seq<nat>, from: int, ts: nat) {
    forall k :: 0 <= from <= k < |stamps| ==> stamps[k] == ts
  }

  ghost predicate CountersAt(s: State) {
    && s.ring.pushed == QueuedEvents(s.fates)
    && s.pktsDropped == Wrap(DroppedCount(s.fates))
    && s.pktsRx == Wrap(Received(s))
  }

  /** What holds of the handler besides the invariants of its frames and its event ring. */
  ghost predicate Body(c: Config, s: State) {
    Histories(c, s) && ThreadAt(c, s)
  }

  /** The histories agree with the frames, the memory, the event ring and the counters. */
  ghost predicate Histories(c: Config, s: State) {
    && c.frameSize >= 1
    && LastArrivals(s.arrivals, s.rx.held + s.rx.rx)
    && AllInFrame(c, s.arrivals)
    && FramesSame(c, s.arrivals, Released(s), s.mem)
    && |s.stamps| == Received(s)
    && FatesMatch(c, s.arrivals, s.stamps, s.fates)
    && CountersAt(s)
  }

  ghost predicate Inv(c: Config, s: State) {
    RxInv(c, s.rx) && Body(c, s) && SpscSafety.Inv(s.ring)
  }

  lemma StartInv(c: Config, n: nat, zero: FeedEvent, mem: Memory)
    requires ValidConfig(c) && RingIndex.ValidCapacity(n)
    ensures Inv(c, Start(c, n, zero, mem))
  {
    assert RxInv(c, RxInit(c)) by { RxInitInv(c); }
    assert SpscSafety.Inv(Ring.Init(n, zero)) by { SpscSafety.InitInv(n, zero); }
    StartBody(c, n, zero, mem);
  }

  lemma StartBody(c: Config, n: nat, zero: FeedEvent, mem: Memory)
    requires c.frameSize >= 1 && RingIndex.ValidCapacity(n)
    ensures Body(c, Start(c, n, zero, mem))
  {
  }

  // ----- Kernel steps -----

  lemma PendingDesc(arrivals: seq<Arrival>, pending: seq<RxDesc>, j: nat)
    requires LastArrivals(arrivals, pending) && j < |pending|
    ensures arrivals[|arrivals| - |pending| + j].desc == pending[j]
  {
    assert Descs(arrivals)[|arrivals| - |pending|..][j] == Descs(arrivals)[|arrivals| - |pending| + j];
  }

  /** A frame whose packet is on the RX ring or in the batch is not the kernel's. */
  lemma PendingIsRx(c: Config, r: RxSide, j: nat)
    requires RxInv(c, r) && j < |r.held + r.rx|
    ensures var f := FrameOf(c, (r.held + r.rx)[j].addr); f < RxCount(c) && !KernelOwns(c, r, f)
  {
    var f := FrameOf(c, (r.held + r.rx)[j].addr);
    if j < |r.held| {
      assert DescIds(c, r.held)[j] == f;
    } else {
      assert DescIds(c, r.rx)[j - |r.held|] == f;
    }
    RxPlacesOf(c, r, f);
    InMultiset(DescIds(c, r.held), f);
    InMultiset(DescIds(c, r.rx), f);
    InMultiset(FrameIds(c, r.kernel), f);
  }

  lemma SameFrame(c: Config, addr: nat, a: nat)
    requires c.frameSize >= 1 && FrameBase(c, addr) <= a < FrameBase(c, addr) + c.frameSize
    ensures FrameOf(c, a) == FrameOf(c, addr)
  {
    FrameOfOffset(c, FrameOf(c, addr), a - FrameBase(c, addr));
  }

  /** The kernel's writes spare every frame that is not its own. */
  lemma WriteSpares(c: Config, r: RxSide, before: Memory, after: Memory, a: Arrival)
    requires c.frameSize >= 1 && KernelMayWrite(c, r, before, after) && FrameSame(c, a, before)
    requires FrameOf(c, a.desc.addr) < RxCount(c) && !KernelOwns(c, r, FrameOf(c, a.desc.addr))
    ensures FrameSame(c, a, after)
  {
    var addr := a.desc.addr;
    forall x | FrameBase(c, addr) <= x < FrameBase(c, addr) + c.frameSize
      ensures a.mem(x) == after(x)
    {
      SameFrame(c, addr, x);
    }
  }

  /** No frame of the RX ring or the batch is the kernel's. */
  ghost predicate PendingApart(c: Config, r: RxSide)
    requires c.frameSize >= 1
  {
    forall j {:trigger (r.held + r.rx)[j]} :: 0 <= j < |r.held + r.rx| ==>
      var f := FrameOf(c, (r.held + r.rx)[j].addr); f < RxCount(c) && !KernelOwns(c, r, f)
  }

  lemma PendingIsApart(c: Config, r: RxSide)
    requires RxInv(c, r)
    ensures PendingApart(c, r)
  {
    forall j | 0 <= j < |r.held + r.rx|
      ensures var f := FrameOf(c, (r.held + r.rx)[j].addr); f < RxCount(c) && !KernelOwns(c, r, f)
    {
      PendingIsRx(c, r, j);
    }
  }

  lemma KernelWriteBody(c: Config, s: State, mem: Memory)
    requires Body(c, s) && PendingApart(c, s.rx) && KernelMayWrite(c, s.rx, s.mem, mem)
    ensures Body(c, s.(mem := mem))
  {
    FramesSpared(c, s.rx, s.arrivals, s.mem, mem);
    MemoryMoved(c, s, mem);
  }

  lemma MemoryMoved(c: Config, s: State, mem: Memory)
    requires Body(c, s) && FramesSame(c, s.arrivals, Released(s), mem)
    ensures Body(c, s.(mem := mem))
  {
  }

  lemma FramesSpared(c: Config, r: RxSide, arrivals: seq<Arrival>, before: Memory, after: Memory)
    requires c.frameSize >= 1 && PendingApart(c, r) && KernelMayWrite(c, r, before, after)
    requires LastArrivals(arrivals, r.held + r.rx) && FramesSame(c, arrivals, |arrivals| - |r.held + r.rx|, before)
    ensures FramesSame(c, arrivals, |arrivals| - |r.held + r.rx|, after)
  {
    var pending := r.held + r.rx;
    var from := |arrivals| - |pending|;
    forall k | from <= k < |arrivals|
      ensures FrameSame(c, arrivals[k], after)
    {
      PendingDesc(arrivals, pending, k - from);
      assert FrameSame(c, arrivals[k], before);
      WriteSpares(c, r, before, after, arrivals[k]);
    }
  }

  lemma DeliveredDesc(c: Config, r: RxSide, step: RxStep)
    requires c.frameSize >= 1 && step.KernelDeliver? && CanRx(c, r, step)
    ensures var rx := DoRx(c, r, step).rx; DescInFrame(c, rx[|rx| - 1]) && rx == r.rx + [rx[|rx| - 1]]
  {
    FrameOfOffset(c, FrameOf(c, r.kernel[step.i]), step.off);
  }

  lemma ArrivalAppended(c: Config, arrivals: seq<Arrival>, pending: seq<RxDesc>, a: Arrival, mem: Memory)
    requires c.frameSize >= 1 && LastArrivals(arrivals, pending) && AllInFrame(c, arrivals)
    requires FramesSame(c, arrivals, |arrivals| - |pending|, mem)
    requires DescInFrame(c, a.desc) && a.mem == mem
    ensures LastArrivals(arrivals + [a], pending + [a.desc]) && AllInFrame(c, arrivals + [a])
    ensures FramesSame(c, arrivals + [a], |arrivals| - |pending|, mem)
  {
    var d, from := Descs(arrivals), |arrivals| - |pending|;
    assert Descs(arrivals + [a]) == d + [a.desc];
    assert (d + [a.desc])[from..] == d[from..] + [a.desc];
    assert FrameSame(c, a, mem);
  }

  lemma {:induction false} FatesMatchMore(c: Config, arrivals: seq<Arrival>, stamps: seq<nat>, fates: seq<Fate>, a: Arrival)
    requires c.frameSize >= 1 && FatesMatch(c, arrivals, stamps, fates)
    ensures FatesMatch(c, arrivals + [a], stamps, fates)
  {
    forall k | 0 <= k < |fates|
      ensures FateFor(c, (arrivals + [a])[k], stamps[k], fates[k])
    {
      assert (arrivals + [a])[k] == arrivals[k];
    }
  }

  lemma {:induction false} FatesMatchStamped(c: Config, arrivals: seq<Arrival>, stamps: seq<nat>, fates: seq<Fate>,
                                             more: seq<nat>)
    requires c.frameSize >= 1 && FatesMatch(c, arrivals, stamps, fates) && |stamps + more| <= |arrivals|
    ensures FatesMatch(c, arrivals, stamps + more, fates)
  {
    forall k | 0 <= k < |fates|
      ensures FateFor(c, arrivals[k], (stamps + more)[k], fates[k])
    {
      assert (stamps + more)[k] == stamps[k];
    }
  }

  lemma DeliverBody(c: Config, s: State, r: RxStep)
    requires Body(c, s) && r.KernelDeliver? && CanRx(c, s.rx, r)
    ensures Body(c, AfterDeliver(c, s, r))
  {
    DeliveredDesc(c, s.rx, r);
    Arrived(c, s, DoRx(c, s.rx, r), DoRx(c, s.rx, r).rx[|s.rx.rx|]);
  }

  lemma Arrived(c: Config, s: State, rx: RxSide, d: RxDesc)
    requires Body(c, s) && rx.held == s.rx.held && rx.rx == s.rx.rx + [d] && DescInFrame(c, d)
    ensures Body(c, s.(rx := rx, arrivals := s.arrivals + [Arrival(d, s.mem)]))
  {
    var a := Arrival(d, s.mem);
    var s' := s.(rx := rx, arrivals := s.arrivals + [a]);
    assert rx.held + rx.rx == s.rx.held + s.rx.rx + [d];
    ArrivalAppended(c, s.arrivals, s.rx.held + s.rx.rx, a, s.mem);
    FatesMatchMore(c, s.arrivals, s.stamps, s.fates, a);
    assert Released(s') == Released(s) && Received(s') == Received(s);
    assert s.thread.InPush? ==> s'.arrivals[Released(s) + s.thread.next] == s.arrivals[Released(s) + s.thread.next];
  }

  // ----- Receive thread -----

  lemma WrapAdds(x: nat, n: nat)
    ensures Wrap(Wrap(x) + n) == Wrap(x + n)
  {
  }

  lemma BurstBody(c: Config, s: State, n: nat, ts: nat)
    requires Body(c, s) && s.thread.LoopHead? && CanRx(c, s.rx, RxBurst(MAX_BATCH, n))
    ensures Body(c, AfterBurst(c, s, n, ts))
  {
    if n > 0 {
      var rx := DoRx(c, s.rx, RxBurst(MAX_BATCH, n));
      WrapAdds(Received(s), n);
      assert rx.held + rx.rx == s.rx.held + s.rx.rx;
      BatchTaken(c, s, rx, n, ts);
    }
  }

  lemma BatchTaken(c: Config, s: State, rx: RxSide, n: nat, ts: nat)
    requires Body(c, s) && s.thread.LoopHead? && n <= |s.rx.rx|
    requires rx.held + rx.rx == s.rx.held + s.rx.rx && |rx.rx| == |s.rx.rx| - n
    ensures Body(c, s.(rx := rx, thread := InBatch(0, ts), pktsRx := Wrap(Received(s) + n),
                       stamps := s.stamps + Repeat(ts, n)))
  {
    FatesMatchStamped(c, s.arrivals, s.stamps, s.fates, Repeat(ts, n));
  }

  /** The kernel took a fill entry: nothing the handler sees has changed. */
  lemma FillMoved(c: Config, s: State, rx: RxSide)
    requires Body(c, s) && rx.held == s.rx.held && rx.rx == s.rx.rx
    ensures Body(c, s.(rx := rx))
  {
  }

  lemma PendingSuffix(arrivals: seq<Arrival>, held: seq<RxDesc>, rx: seq<RxDesc>)
    requires LastArrivals(arrivals, held + rx)
    ensures LastArrivals(arrivals, [] + rx)
  {
    var d, from := Descs(arrivals), |arrivals| - |held + rx|;
    assert d[from..][|held|..] == d[from + |held|..];
    assert (held + rx)[|held|..] == rx;
  }

  lemma ReleaseBody(c: Config, s: State, granted: nat)
    requires Body(c, s) && s.thread.InBatch? && s.thread.next == |s.rx.held|
    requires CanRx(c, s.rx, RxRelease(s.rx.held, [], granted))
    ensures Body(c, s.(rx := DoRx(c, s.rx, RxRelease(s.rx.held, [], granted)), thread := LoopHead))
  {
    BatchReturned(c, s, DoRx(c, s.rx, RxRelease(s.rx.held, [], granted)));
  }

  lemma BatchReturned(c: Config, s: State, rx: RxSide)
    requires Body(c, s) && s.thread.InBatch? && s.thread.next == |s.rx.held|
    requires rx.held == [] && rx.rx == s.rx.rx
    ensures Body(c, s.(rx := rx, thread := LoopHead))
  {
    PendingSuffix(s.arrivals, s.rx.held, s.rx.rx);
  }

  /** What the thread reads from the frame it is at is what the kernel delivered there. */
  lemma CurrentIsDelivered(c: Config, s: State)
    requires Histories(c, s) && s.thread.InBatch? && s.thread.next < |s.rx.held|
    ensures var a := s.arrivals[Released(s) + s.thread.next];
            && (Current(s).Some? <==> View(a.mem, a.desc).IsUdp())
            && (Current(s).Some? ==> EventFor(c, a, s.thread.ts, Current(s).value))
  {
    var i := s.thread.next;
    var a := s.arrivals[Released(s) + i];
    PendingDesc(s.arrivals, s.rx.held + s.rx.rx, i);
    assert FrameSame(c, a, s.mem) && DescInFrame(c, a.desc);
    DeliveredEvent(c, a, s.mem, s.thread.ts);
  }

  lemma DeliveredEvent(c: Config, a: Arrival, mem: Memory, ts: nat)
    requires c.frameSize >= 1 && FrameSame(c, a, mem) && DescInFrame(c, a.desc)
    ensures var ev := EventOf(View(mem, a.desc), ts);
            && (ev.Some? <==> View(a.mem, a.desc).IsUdp())
            && (ev.Some? ==> EventFor(c, a, ts, ev.value))
  {
    var p, p' := View(a.mem, a.desc), View(mem, a.desc);
    var hi := FrameBase(c, a.desc.addr) + c.frameSize - a.desc.addr;
    HeadersAgree(p, p');
    if p.IsUdp() {
      FieldsAgree(p, p', ts);
      if CopyInFrame(c, a) {
        EventAgrees(p, p', hi, ts);
      }
    }
  }

  lemma FatesAppend(fates: seq<Fate>, f: Fate)
    ensures QueuedEvents(fates + [f]) == QueuedEvents(fates) + (if f.Queued? then [f.ev] else [])
    ensures DroppedCount(fates + [f]) == DroppedCount(fates) + (if f.Dropped? then 1 else 0)
    ensures SkippedCount(fates + [f]) == SkippedCount(fates) + (if f.Skipped? then 1 else 0)
  {
    assert (fates + [f])[..|fates|] == fates;
  }

  lemma FatesMatchNext(c: Config, arrivals: seq<Arrival>, stamps: seq<nat>, fates: seq<Fate>, f: Fate)
    requires c.frameSize >= 1 && FatesMatch(c, arrivals, stamps, fates) && |fates| < |stamps|
    requires FateFor(c, arrivals[|fates|], stamps[|fates|], f)
    ensures FatesMatch(c, arrivals, stamps, fates + [f])
  {
  }

  /** One more frame of the batch is dealt with. */
  lemma FateRecorded(c: Config, s: State, s': State, fate: Fate)
    requires Histories(c, s) && (s.thread.InBatch? || s.thread.InPush?) && s.thread.next < |s.rx.held|
    requires |s.fates| == Released(s) + s.thread.next && BatchStamped(s.stamps, Released(s), s.thread.ts)
    requires FateFor(c, s.arrivals[|s.fates|], s.thread.ts, fate)
    requires s'.rx == s.rx && s'.arrivals == s.arrivals && s'.stamps == s.stamps && s'.mem == s.mem && s'.pktsRx == s.pktsRx
    requires s'.thread == InBatch(s.thread.next + 1, s.thread.ts) && s'.fates == s.fates + [fate]
    requires s'.ring.prod.PIdle? && s'.ring.pushed == QueuedEvents(s'.fates) && s'.pktsDropped == Wrap(DroppedCount(s'.fates))
    ensures Body(c, s')
  {
    assert s.stamps[|s.fates|] == s.thread.ts;
    FatesMatchNext(c, s.arrivals, s.stamps, s.fates, fate);
    assert Released(s') == Released(s);
  }

  lemma SkipBody(c: Config, s: State)
    requires Body(c, s) && s.thread.InBatch? && s.thread.next < |s.rx.held| && Current(s).None?
    ensures Body(c, s.(thread := InBatch(s.thread.next + 1, s.thread.ts), fates := s.fates + [Skipped]))
  {
    CurrentIsDelivered(c, s);
    FatesAppend(s.fates, Skipped);
    FateRecorded(c, s, s.(thread := InBatch(s.thread.next + 1, s.thread.ts), fates := s.fates + [Skipped]), Skipped);
  }

  lemma PushBegun(c: Config, s: State, r: Ring.State<FeedEvent>)
    requires Body(c, s) && s.thread.InBatch? && s.thread.next < |s.rx.held| && Current(s).Some?
    requires r.prod.PTail? && r.prod.item == Current(s).value && r.pushed == s.ring.pushed
    ensures Body(c, s.(ring := r, thread := InPush(s.thread.next, s.thread.ts)))
  {
    assert EventFor(c, s.arrivals[Released(s) + s.thread.next], s.thread.ts, r.prod.item) by { CurrentIsDelivered(c, s); }
  }

  /** How an access of a push moves the producer and the history of the event ring. */
  lemma PushAccessEffect(r: Ring.State<FeedEvent>, a: Ring.Step<FeedEvent>)
    requires ProducerAccess(a) && Ring.Can(r, a)
    ensures var r', o := Ring.Do(r, a), Ring.Out(r, a);
            && (o.PushTrue? || o.PushFalse? || o.Running?)
            && r'.pushed == r.pushed + (if o.PushTrue? then [r.prod.item] else [])
            && (o.Running? ==> (r'.prod.PRoom? || r'.prod.PStored?) && r'.prod.item == r.prod.item)
            && (!o.Running? ==> r'.prod.PIdle? && o.item == r.prod.item)
  {
  }

  lemma PushMoved(c: Config, s: State, r: Ring.State<FeedEvent>, o: Ring.Outcome<FeedEvent>)
    requires Body(c, s) && s.thread.InPush? && (o.PushTrue? || o.PushFalse? || o.Running?)
    requires r.pushed == s.ring.pushed + (if o.PushTrue? then [s.ring.prod.item] else [])
    requires o.Running? ==> (r.prod.PRoom? || r.prod.PStored?) && r.prod.item == s.ring.prod.item
    requires !o.Running? ==> r.prod.PIdle? && o.item == s.ring.prod.item
    ensures Body(c, AfterPushAccess(s, r, o))
  {
    if o.Running? {
      RingMoved(c, s, r);
    } else {
      PushEnded(c, s, r, o);
    }
  }

  lemma PushEnded(c: Config, s: State, r: Ring.State<FeedEvent>, o: Ring.Outcome<FeedEvent>)
    requires Body(c, s) && s.thread.InPush? && (o.PushTrue? || o.PushFalse?)
    requires r.pushed == s.ring.pushed + (if o.PushTrue? then [o.item] else [])
    requires r.prod.PIdle? && o.item == s.ring.prod.item
    ensures Body(c, AfterPushAccess(s, r, o))
  {
    assert EventFor(c, s.arrivals[|s.fates|], s.thread.ts, o.item);
    FateEnds(c, s, r, o);
  }

  lemma FateEnds(c: Config, s: State, r: Ring.State<FeedEvent>, o: Ring.Outcome<FeedEvent>)
    requires Histories(c, s) && s.thread.InPush? && (o.PushTrue? || o.PushFalse?) && s.thread.next < |s.rx.held|
    requires |s.fates| == Released(s) + s.thread.next && BatchStamped(s.stamps, Released(s), s.thread.ts)
    requires EventFor(c, s.arrivals[|s.fates|], s.thread.ts, o.item)
    requires r.prod.PIdle? && r.pushed == s.ring.pushed + (if o.PushTrue? then [o.item] else [])
    ensures Body(c, AfterPushAccess(s, r, o))
  {
    var fate := if o.PushTrue? then Queued(o.item) else Dropped(o.item);
    FatesAppend(s.fates, fate);
    WrapAdds(DroppedCount(s.fates), 1);
    FateRecorded(c, s, AfterPushAccess(s, r, o), fate);
  }

  /** A step of the ring that keeps the item being pushed and the items pushed. */
  lemma RingMoved(c: Config, s: State, r: Ring.State<FeedEvent>)
    requires Body(c, s) && r.pushed == s.ring.pushed
    requires r.prod == s.ring.prod ||
             (s.thread.InPush? && (r.prod.PRoom? || r.prod.PStored?) && r.prod.item == s.ring.prod.item)
    ensures Body(c, s.(ring := r))
  {
  }

  lemma ConsumerAccessEffect(r: Ring.State<FeedEvent>, a: Ring.Step<FeedEvent>)
    requires ConsumerAccess(a) && Ring.Can(r, a)
    ensures Ring.Do(r, a).pushed == r.pushed && Ring.Do(r, a).prod == r.prod
  {
  }

  lemma BodyStep(c: Config, s: State, step: Step)
    requires Body(c, s) && PendingApart(c, s.rx) && Can(c, s, step)
    ensures Body(c, Do(c, s, step))
  {
    match step
    case KernelWrite(mem) => KernelWriteBody(c, s, mem);
    case KernelMove(r) =>
      if r.KernelDeliver? {
        DeliverBody(c, s, r);
      } else {
        FillMoved(c, s, DoRx(c, s.rx, KernelFetch));
      }
    case Stop =>
    case Burst(n, ts) => BurstBody(c, s, n, ts);
    case Exit =>
    case SkipFrame => SkipBody(c, s);
    case ReleaseBatch(granted) => ReleaseBody(c, s, granted);
    case _ => RingBody(c, s, step);
  }

  lemma RingBody(c: Config, s: State, step: Step)
    requires step.BeginPush? || step.PushAccess? || step.Consume?
    requires Body(c, s) && Can(c, s, step)
    ensures Body(c, Do(c, s, step))
  {
    match step
    case BeginPush(at) => PushBegun(c, s, Ring.Do(s.ring, Ring.PushLoadTail(Current(s).value, at)));
    case PushAccess(a) =>
      PushAccessEffect(s.ring, a);
      PushMoved(c, s, Ring.Do(s.ring, a), Ring.Out(s.ring, a));
    case Consume(a) =>
      ConsumerAccessEffect(s.ring, a);
      RingMoved(c, s, Ring.Do(s.ring, a));
  }

  lemma PushKeepsFrames(s: State, ring: Ring.State<FeedEvent>, out: Ring.Outcome<FeedEvent>)
    requires s.thread.InPush?
    ensures AfterPushAccess(s, ring, out).rx == s.rx
  {
  }

  /** The step of the receive circuit that a step of the pipeline takes, if any. */
  function RxStepOf(s: State, step: Step): (r: Option<RxStep>) {
    match step
    case KernelMove(r) => Some(r)
    case Burst(n, _) => if n == 0 then None else Some(RxBurst(MAX_BATCH, n))
    case ReleaseBatch(granted) => Some(RxRelease(s.rx.held, [], granted))
    case _ => None
  }

  lemma FramesMove(c: Config, s: State, step: Step)
    requires c.frameSize >= 1 && Can(c, s, step)
    ensures var r := RxStepOf(s, step);
            if r.None? then Do(c, s, step).rx == s.rx
            else CanRx(c, s.rx, r.value) && Do(c, s, step).rx == DoRx(c, s.rx, r.value)
  {
    match step
    case PushAccess(a) => PushKeepsFrames(s, Ring.Do(s.ring, a), Ring.Out(s.ring, a));
    case _ =>
  }

  lemma FramesStep(c: Config, s: State, step: Step)
    requires RxInv(c, s.rx) && Can(c, s, step)
    ensures RxInv(c, Do(c, s, step).rx)
  {
    FramesMove(c, s, step);
    var r := RxStepOf(s, step);
    if r.Some? {
      RxStepInv(c, s.rx, r.value);
    }
  }

  /** The access of the event ring that a step of the pipeline makes, if any. */
  function RingStepOf(s: State, step: Step): (r: Option<Ring.Step<FeedEvent>>) {
    match step
    case BeginPush(at) =>
      if s.thread.InBatch? && s.thread.next < |s.rx.held| && Current(s).Some? then Some(Ring.PushLoadTail(Current(s).value, at))
      else None
    case PushAccess(a) => Some(a)
    case Consume(a) => Some(a)
    case _ => None
  }

  lemma RingMove(c: Config, s: State, step: Step)
    requires c.frameSize >= 1 && Can(c, s, step)
    ensures var a := RingStepOf(s, step);
            if a.None? then Do(c, s, step).ring == s.ring
            else Ring.Can(s.ring, a.value) && Do(c, s, step).ring == Ring.Do(s.ring, a.value)
  {
  }

  lemma RingStep(c: Config, s: State, step: Step)
    requires c.frameSize >= 1 && SpscSafety.Inv(s.ring) && Can(c, s, step)
    ensures SpscSafety.Inv(Do(c, s, step).ring)
  {
    RingMove(c, s, step);
    var a := RingStepOf(s, step);
    if a.Some? {
      SpscSafety.StepInv(s.ring, a.value);
    }
  }

  lemma StepInv(c: Config, s: State, step: Step)
    requires Inv(c, s) && Can(c, s, step)
    ensures Inv(c, Do(c, s, step))
  {
    assert RxInv(c, Do(c, s, step).rx) by { FramesStep(c, s, step); }
    assert Body(c, Do(c, s, step)) by { PendingIsApart(c, s.rx); BodyStep(c, s, step); }
    assert SpscSafety.Inv(Do(c, s, step).ring) by { RingStep(c, s, step); }
  }

  lemma {:induction false} RunInv(c: Config, n: nat, zero: FeedEvent, mem: Memory, steps: seq<Step>)
    requires ValidConfig(c) && RingIndex.ValidCapacity(n) && Runs(c, Start(c, n, zero, mem), steps)
    ensures Inv(c, Exec(c, Start(c, n, zero, mem), steps))
    decreases |steps|
  {
    if steps == [] {
      StartInv(c, n, zero, mem);
    } else {
      RunInv(c, n, zero, mem, steps[..|steps| - 1]);
      StepInv(c, Exec(c, Start(c, n, zero, mem), steps[..|steps| - 1]), steps[|steps| - 1]);
    }
  }

  lemma RunBody(c: Config, n: nat, zero: FeedEvent, mem: Memory, steps: seq<Step>)
    requires ValidConfig(c) && RingIndex.ValidCapacity(n) && Runs(c, Start(c, n, zero, mem), steps)
    ensures Body(c, Exec(c, Start(c, n, zero, mem), steps))
  {
    RunInv(c, n, zero, mem, steps);
  }

  lemma RunRing(c: Config, n: nat, zero: FeedEvent, mem: Memory, steps: seq<Step>)
    requires ValidConfig(c) && RingIndex.ValidCapacity(n) && Runs(c, Start(c, n, zero, mem), steps)
    ensures SpscSafety.Inv(Exec(c, Start(c, n, zero, mem), steps).ring)
  {
    RunInv(c, n, zero, mem, steps);
  }

  // ----- Every run -----

  /** In every run the events popped, followed by the events in the ring, are the events queued,
      in order of arrival; the k-th frame received was skipped exactly if it was not UDP, and
      otherwise queued or dropped as the event of the bytes the kernel delivered, stamped with the
      clock reading of its batch. */
  lemma DeliveredInOrder(c: Config, n: nat, zero: FeedEvent, mem: Memory, steps: seq<Step>)
    requires ValidConfig(c) && RingIndex.ValidCapacity(n) && Runs(c, Start(c, n, zero, mem), steps)
    ensures var s := Exec(c, Start(c, n, zero, mem), steps);
            && SpscTheorems.HeadIndex(s.ring) < |s.ring.buf| && SpscTheorems.TailIndex(s.ring) < |s.ring.buf|
            && s.ring.popped + SpscTheorems.Queue(s.ring) == QueuedEvents(s.fates)
            && |s.fates| <= |s.stamps| == Received(s) <= |s.arrivals|
            && FatesMatch(c, s.arrivals, s.stamps, s.fates)
            && !s.ring.undefined
  {
    var s := Exec(c, Start(c, n, zero, mem), steps);
    RunBody(c, n, zero, mem, steps);
    RunRing(c, n, zero, mem, steps);
    SpscTheorems.QueueIsUnread(s.ring);
    SpscTheorems.Split(s.ring.pushed, |s.ring.popped|);
  }

  lemma {:induction false} FatesPartition(fates: seq<Fate>)
    ensures |fates| == SkippedCount(fates) + |QueuedEvents(fates)| + DroppedCount(fates)
  {
    if fates != [] {
      FatesPartition(fates[..|fates| - 1]);
    }
  }

  /** packets_dropped counts the frames dropped, and between batches packets_received is the sum of
      the frames skipped, queued and dropped. */
  ghost predicate Balanced(s: State) {
    && s.pktsDropped == Wrap(DroppedCount(s.fates))
    && (s.thread.LoopHead? || s.thread.Exited? ==>
          s.pktsRx == Wrap(SkippedCount(s.fates) + |s.ring.pushed| + DroppedCount(s.fates)))
  }

  /** In every run the counters account for every frame received. */
  lemma CountersBalance(c: Config, n: nat, zero: FeedEvent, mem: Memory, steps: seq<Step>)
    requires ValidConfig(c) && RingIndex.ValidCapacity(n) && Runs(c, Start(c, n, zero, mem), steps)
    ensures Balanced(Exec(c, Start(c, n, zero, mem), steps))
  {
    RunBody(c, n, zero, mem, steps);
    CountersOf(c, Exec(c, Start(c, n, zero, mem), steps));
  }

  lemma CountersOf(c: Config, s: State)
    requires Body(c, s)
    ensures Balanced(s)
  {
    FatesPartition(s.fates);
    assert s.rx.held == [] ==> |s.rx.held + s.rx.rx| == |s.rx.rx|;
  }

  /** The i-th descriptor of the batch: its frame is in no other hands, and memory there is as
      it was when the kernel delivered it. */
  ghost predicate HeldAndStable(c: Config, s: State, i: nat)
    requires c.frameSize >= 1 && 0 <= Released(s) && i < |s.rx.held|
  {
    var d := s.rx.held[i];
    && s.arrivals[Released(s) + i].desc == d
    && FrameSame(c, s.arrivals[Released(s) + i], s.mem)
    && FrameOf(c, d.addr) !in FrameIds(c, s.rx.fill)
    && FrameOf(c, d.addr) !in FrameIds(c, s.rx.kernel)
    && FrameOf(c, d.addr) !in DescIds(c, s.rx.rx)
  }

  lemma HeldStays(c: Config, s: State, i: nat)
    requires RxInv(c, s.rx) && Body(c, s) && i < |s.rx.held|
    ensures HeldAndStable(c, s, i)
  {
    PendingDesc(s.arrivals, s.rx.held + s.rx.rx, i);
    assert FrameSame(c, s.arrivals[Released(s) + i], s.mem);
    HeldAlone(c, s.rx, i);
  }

  /** From rx_burst to rx_release the frames of the batch are the user's alone and keep the bytes
      the kernel delivered; the thread only leaves its loop with nothing in hand. */
  lemma BatchIsStable(c: Config, n: nat, zero: FeedEvent, mem: Memory, steps: seq<Step>)
    requires ValidConfig(c) && RingIndex.ValidCapacity(n) && Runs(c, Start(c, n, zero, mem), steps)
    ensures var s := Exec(c, Start(c, n, zero, mem), steps);
            && 0 <= Released(s)
            && (forall i :: 0 <= i < |s.rx.held| ==> HeldAndStable(c, s, i))
            && (s.thread.Exited? ==> s.rx.held == [])
  {
    var s := Exec(c, Start(c, n, zero, mem), steps);
    assert RxInv(c, s.rx) && Body(c, s) by { RunInv(c, n, zero, mem, steps); }
    forall i | 0 <= i < |s.rx.held|
      ensures HeldAndStable(c, s, i)
    {
      HeldStays(c, s, i);
    }
  }
}
