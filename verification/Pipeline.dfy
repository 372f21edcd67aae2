/** The feed handler as a whole: the kernel filling frames, the receive thread draining the RX
    ring into the event ring, and the consumer popping events, in every interleaving. */
module Pipeline {
  import opened Options
  import opened Words
  import opened Frames
  import opened Packets
  import opened FeedEvents
  import RingIndex
  import Ring = SpscProtocol

  /** Where the receive thread is: at the loop head, working on a batch, inside a push. */
  datatype Thread = LoopHead | InBatch(next: nat, ts: nat) | InPush(next: nat, ts: nat) | Exited

  /** A descriptor the kernel put on the RX ring, and memory as it was at that moment. */
  datatype Arrival = Arrival(desc: RxDesc, mem: Memory)

  /** What became of a received frame. */
  datatype Fate = Skipped | Queued(ev: FeedEvent) | Dropped(ev: FeedEvent)

  /** `arrivals`, `stamps` and `fates` record history: what the kernel delivered, the clock
      reading of the batch each frame was received in, and what became of it. */
  datatype State = State(
    rx: RxSide,
    mem: Memory,
    ring: Ring.State<FeedEvent>,
    thread: Thread,
    stop: bool,
    pktsRx: nat,
    pktsDropped: nat,
    arrivals: seq<Arrival>,
    stamps: seq<nat>,
    fates: seq<Fate>)

  datatype Step =
    | KernelWrite(mem: Memory)
    | KernelMove(r: RxStep)
    | Stop
    | Burst(n: nat, ts: nat)
    | Exit
    | SkipFrame
    | BeginPush(at: nat)
    | PushAccess(access: Ring.Step<FeedEvent>)
    | ReleaseBatch(granted: nat)
    | Consume(access: Ring.Step<FeedEvent>)

  /** After start(): the fill ring primed once, the event ring empty. */
  function Start(c: Config, n: nat, zero: FeedEvent, mem: Memory): (s: State)
    requires RingIndex.ValidCapacity(n)
  {
    State(RxInit(c), mem, Ring.Init(n, zero), LoopHead, false, 0, 0, [], [], [])
  }

  function View(mem: Memory, d: RxDesc): (p: Packet)
    ensures Parsable(p)
  {
    PacketAt(mem, d.addr, d.len)
  }

  /** Frames the kernel currently owns. */
  ghost predicate KernelOwns(c: Config, r: RxSide, f: nat)
    requires c.frameSize >= 1
  {
    f in FrameIds(c, r.kernel)
  }

  predicate ProducerAccess(a: Ring.Step<FeedEvent>) {
    a.PushLoadHead? || a.PushWrite? || a.PushPublish?
  }

  predicate ConsumerAccess(a: Ring.Step<FeedEvent>) {
    || a.FrontLoadHead? || a.FrontLoadTail? || a.PopRead? || a.PopPublish?
    || a.Deref? || a.ConsAsk? || a.ConsAnswer?
  }

  /** The event of the frame the thread is at. */
  function Current(s: State): (r: Option<FeedEvent>)
    requires s.thread.InBatch? && s.thread.next < |s.rx.held|
  {
    EventOf(View(s.mem, s.rx.held[s.thread.next]), s.thread.ts)
  }

  /** The kernel may change memory only in frames it owns, or outside the receive frames. */
  ghost predicate KernelMayWrite(c: Config, r: RxSide, before: Memory, after: Memory)
    requires c.frameSize >= 1
  {
    forall a :: KernelOwns(c, r, FrameOf(c, a)) || FrameOf(c, a) >= RxCount(c) || after(a) == before(a)
  }

  ghost predicate Can(c: Config, s: State, step: Step)
    requires c.frameSize >= 1
  {
    match step
    case KernelWrite(mem) => KernelMayWrite(c, s.rx, s.mem, mem)
    case KernelMove(r) => (r.KernelFetch? || r.KernelDeliver?) && CanRx(c, s.rx, r)
    case Stop => true
    case Burst(n, _) => s.thread.LoopHead? && !s.stop && CanRx(c, s.rx, RxBurst(MAX_BATCH, n))
    case Exit => s.thread.LoopHead? && s.stop
    case SkipFrame => s.thread.InBatch? && s.thread.next < |s.rx.held| && Current(s).None?
    case BeginPush(at) =>
      && s.thread.InBatch? && s.thread.next < |s.rx.held| && Current(s).Some?
      && Ring.Can(s.ring, Ring.PushLoadTail(Current(s).value, at))
    case PushAccess(a) => s.thread.InPush? && ProducerAccess(a) && Ring.Can(s.ring, a)
    case ReleaseBatch(granted) =>
      s.thread.InBatch? && s.thread.next == |s.rx.held| && CanRx(c, s.rx, RxRelease(s.rx.held, [], granted))
    case Consume(a) => ConsumerAccess(a) && Ring.Can(s.ring, a)
  }

  function AfterDeliver(c: Config, s: State, r: RxStep): (s': State)
    requires c.frameSize >= 1 && r.KernelDeliver? && CanRx(c, s.rx, r)
  {
    var rx := DoRx(c, s.rx, r);
    s.(rx := rx, arrivals := s.arrivals + [Arrival(rx.rx[|rx.rx| - 1], s.mem)])
  }

  function AfterBurst(c: Config, s: State, n: nat, ts: nat): (s': State)
    requires c.frameSize >= 1 && CanRx(c, s.rx, RxBurst(MAX_BATCH, n))
  {
    if n == 0 then s
    else s.(rx := DoRx(c, s.rx, RxBurst(MAX_BATCH, n)), thread := InBatch(0, ts), pktsRx := Wrap(s.pktsRx + n),
            stamps := s.stamps + Repeat(ts, n))
  }

  function Repeat(x: nat, n: nat): (r: seq<nat>)
    ensures |r| == n
  {
    seq(n, _ => x)
  }

  /** After an access of the push under way, which left the event ring as given. */
  function AfterPushAccess(s: State, ring: Ring.State<FeedEvent>, out: Ring.Outcome<FeedEvent>): (s': State)
    requires s.thread.InPush?
  {
    var done := InBatch(s.thread.next + 1, s.thread.ts);
    match out
    case PushTrue(ev) => s.(ring := ring, thread := done, fates := s.fates + [Queued(ev)])
    case PushFalse(ev) =>
      s.(ring := ring, thread := done, fates := s.fates + [Dropped(ev)], pktsDropped := Wrap(s.pktsDropped + 1))
    case _ => s.(ring := ring)
  }

  function Do(c: Config, s: State, step: Step): (s': State)
    requires c.frameSize >= 1 && Can(c, s, step)
  {
    match step
    case KernelWrite(mem) => s.(mem := mem)
    case KernelMove(r) => if r.KernelDeliver? then AfterDeliver(c, s, r) else s.(rx := DoRx(c, s.rx, r))
    case Stop => s.(stop := true)
    case Burst(n, ts) => AfterBurst(c, s, n, ts)
    case Exit => s.(thread := Exited)
    case SkipFrame => s.(thread := InBatch(s.thread.next + 1, s.thread.ts), fates := s.fates + [Skipped])
    case BeginPush(at) =>
      s.(ring := Ring.Do(s.ring, Ring.PushLoadTail(Current(s).value, at)),
         thread := InPush(s.thread.next, s.thread.ts))
    case PushAccess(a) => AfterPushAccess(s, Ring.Do(s.ring, a), Ring.Out(s.ring, a))
    case ReleaseBatch(granted) => s.(rx := DoRx(c, s.rx, RxRelease(s.rx.held, [], granted)), thread := LoopHead)
    case Consume(a) => s.(ring := Ring.Do(s.ring, a))
  }

  ghost predicate Runs(c: Config, s: State, steps: seq<Step>)
    requires c.frameSize >= 1
    decreases |steps|, 0
  {
    steps != [] ==>
      && Runs(c, s, steps[..|steps| - 1])
      && Can(c, Exec(c, s, steps[..|steps| - 1]), steps[|steps| - 1])
  }

  function Exec(c: Config, s: State, steps: seq<Step>): (s': State)
    requires c.frameSize >= 1 && Runs(c, s, steps)
    decreases |steps|, 1
  {
    if steps == [] then s else Do(c, Exec(c, s, steps[..|steps| - 1]), steps[|steps| - 1])
  }

  /** The events that were queued, and how many frames met each fate. */
  function QueuedEvents(fates: seq<Fate>): (r: seq<FeedEvent>) {
    if fates == [] then []
    else
      var f := fates[|fates| - 1];
      QueuedEvents(fates[..|fates| - 1]) + if f.Queued? then [f.ev] else []
  }

  function DroppedCount(fates: seq<Fate>): (r: nat) {
    if fates == [] then 0
    else DroppedCount(fates[..|fates| - 1]) + if fates[|fates| - 1].Dropped? then 1 else 0
  }

  function SkippedCount(fates: seq<Fate>): (r: nat) {
    if fates == [] then 0
    else SkippedCount(fates[..|fates| - 1]) + if fates[|fates| - 1].Skipped? then 1 else 0
  }
}
