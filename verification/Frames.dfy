/** Who owns every UMEM frame: the receive circuit (fill ring, kernel, RX ring, user) and the
    transmit circuit (free list, user, TX ring, kernel, completion ring), as a machine whose
    steps are the socket's operations and the kernel's moves, in any order.

    The libxdp rings are outside the repository. They enter through one contract each: a ring
    is a bounded FIFO; reserve(n) grants at most n and at most the free slots, and grants n
    when n slots are free; peek(n) shows at most n of the submitted entries, oldest first. */
module Frames {
  import opened Words

  const SENTINEL: nat := WORD - 1

  /** The most descriptors the receive loop takes at once. */
  const MAX_BATCH: nat := 64

  datatype RxDesc = RxDesc(addr: nat, len: nat, options: nat)
  datatype TxDesc = TxDesc(addr: nat, len: nat, options: nat)

  datatype Config = Config(
    frameSize: nat, frameCount: nat, fillSize: nat, completionSize: nat, rxSize: nat, txSize: nat)

  /** Frames are at least 2048 bytes, the region fits the address space, ring sizes fit 32 bits. */
  predicate ValidConfig(c: Config) {
    && c.frameSize >= 2048
    && c.frameSize * c.frameCount <= WORD
    && c.fillSize < 0x1_0000_0000 && c.completionSize < 0x1_0000_0000
    && c.rxSize < 0x1_0000_0000 && c.txSize < 0x1_0000_0000
  }

  /** Byte offset of a frame. */
  function FrameOffset(c: Config, idx: nat): (r: nat) {
    Wrap(idx * c.frameSize)
  }

  /** The frame a byte offset lies in. */
  function FrameOf(c: Config, addr: nat): (r: nat)
    requires c.frameSize >= 1
    decreases addr
  {
    if addr < c.frameSize then 0 else 1 + FrameOf(c, addr - c.frameSize)
  }

  function Offsets(c: Config, count: nat): (r: seq<nat>)
    ensures |r| == count
  {
    seq(count, i requires 0 <= i < count => FrameOffset(c, i))
  }

  /** The number of frames handed to the receive circuit: min(fill_size, frame_count). */
  function RxCount(c: Config): (r: nat) {
    if c.fillSize < c.frameCount then c.fillSize else c.frameCount
  }

  function RxAddrs(descs: seq<RxDesc>): (r: seq<nat>)
    ensures |r| == |descs|
  {
    seq(|descs|, i requires 0 <= i < |descs| => descs[i].addr)
  }

  function TxAddrs(descs: seq<TxDesc>): (r: seq<nat>)
    ensures |r| == |descs|
  {
    seq(|descs|, i requires 0 <= i < |descs| => descs[i].addr)
  }

  function TxDescs(addrs: seq<nat>, lens: seq<nat>): (r: seq<TxDesc>)
    requires |addrs| == |lens|
    ensures |r| == |addrs|
  {
    seq(|addrs|, i requires 0 <= i < |addrs| => TxDesc(addrs[i], lens[i], 0))
  }

  function FrameIds(c: Config, addrs: seq<nat>): (r: seq<nat>)
    requires c.frameSize >= 1
    ensures |r| == |addrs|
  {
    seq(|addrs|, i requires 0 <= i < |addrs| => FrameOf(c, addrs[i]))
  }

  /** What reserve(n) may grant when `free` slots are free. */
  predicate MayGrant(n: nat, free: int, granted: nat) {
    granted <= n && granted <= free && (n <= free ==> granted == n)
  }

  // ----- Receive circuit -----

  /** `held` is what rx_burst handed out and rx_release has not taken back; `lost` is what
      rx_release dropped because the fill ring granted fewer slots than asked. */
  datatype RxSide = RxSide(
    fill: seq<nat>, kernel: seq<nat>, rx: seq<RxDesc>, held: seq<RxDesc>, lost: seq<RxDesc>)

  datatype RxStep =
    | KernelFetch
    | KernelDeliver(i: nat, off: nat, len: nat, options: nat)
    | RxBurst(max: nat, n: nat)
    | RxRelease(descs: seq<RxDesc>, rest: seq<RxDesc>, granted: nat)

  function RxInit(c: Config): (r: RxSide) {
    RxSide(Offsets(c, RxCount(c)), [], [], [], [])
  }

  /** The kernel takes the oldest fill entry; it delivers a packet in any frame it holds, at
      any place inside that frame; the user releases any of the descriptors it holds, in any
      order. */
  ghost predicate CanRx(c: Config, r: RxSide, step: RxStep)
    requires c.frameSize >= 1
  {
    match step
    case KernelFetch => r.fill != []
    case KernelDeliver(i, off, len, _) => i < |r.kernel| && off + len <= c.frameSize && off < c.frameSize && |r.rx| < c.rxSize
    case RxBurst(max, n) => n <= max && n <= |r.rx|
    case RxRelease(descs, rest, granted) =>
      multiset(descs + rest) == multiset(r.held) && MayGrant(|descs|, c.fillSize - |r.fill|, granted)
  }

  function DoRx(c: Config, r: RxSide, step: RxStep): (r': RxSide)
    requires c.frameSize >= 1 && CanRx(c, r, step)
  {
    match step
    case KernelFetch => r.(fill := r.fill[1..], kernel := r.kernel + [r.fill[0]])
    case KernelDeliver(i, off, len, options) =>
      r.(kernel := r.kernel[..i] + r.kernel[i + 1..],
         rx := r.rx + [RxDesc(FrameOf(c, r.kernel[i]) * c.frameSize + off, len, options)])
    case RxBurst(_, n) => r.(rx := r.rx[n..], held := r.held + r.rx[..n])
    case RxRelease(descs, rest, granted) =>
      r.(fill := r.fill + RxAddrs(descs[..granted]), held := rest, lost := r.lost + descs[granted..])
  }

  /** The frames of the circuit, place by place. */
  function RxFrames(c: Config, r: RxSide): (f: seq<nat>)
    requires c.frameSize >= 1
  {
    FrameIds(c, r.fill) + FrameIds(c, r.kernel) + FrameIds(c, RxAddrs(r.rx)) + FrameIds(c, RxAddrs(r.held))
  }

  // ----- Transmit circuit -----

  datatype TxSide = TxSide(free: seq<nat>, user: seq<nat>, tx: seq<TxDesc>, kernel: seq<nat>, comp: seq<nat>)

  datatype TxStep =
    | Alloc
    | FreeFrame(k: nat)
    | TxBurst(addrs: seq<nat>, lens: seq<nat>, rest: seq<nat>, granted: nat)
    | KernelTake
    | KernelComplete(i: nat)
    | TxComplete(max: nat, n: nat)

  function TxInit(c: Config): (t: TxSide) {
    TxSide(Offsets(c, c.frameCount), [], [], [], [])
  }

  /** Callers free and send only offsets they hold. */
  ghost predicate CanTx(c: Config, t: TxSide, step: TxStep) {
    match step
    case Alloc => true
    case FreeFrame(k) => k < |t.user|
    case TxBurst(addrs, lens, rest, granted) =>
      && |addrs| == |lens| && multiset(addrs + rest) == multiset(t.user)
      && MayGrant(|addrs|, c.txSize - |t.tx|, granted)
    case KernelTake => t.tx != []
    case KernelComplete(i) => i < |t.kernel| && |t.comp| < c.completionSize
    case TxComplete(max, n) => n <= max && n <= |t.comp|
  }

  /** What alloc_frame returns. */
  function AllocResult(free: seq<nat>): (r: nat) {
    if free == [] then SENTINEL else free[|free| - 1]
  }

  function DoTx(c: Config, t: TxSide, step: TxStep): (t': TxSide)
    requires CanTx(c, t, step)
  {
    match step
    case Alloc =>
      if t.free == [] then t
      else t.(free := t.free[..|t.free| - 1], user := t.user + [AllocResult(t.free)])
    case FreeFrame(k) => t.(free := t.free + [t.user[k]], user := t.user[..k] + t.user[k + 1..])
    case TxBurst(addrs, lens, rest, granted) =>
      t.(tx := t.tx + TxDescs(addrs[..granted], lens[..granted]), user := addrs[granted..] + rest)
    case KernelTake => t.(tx := t.tx[1..], kernel := t.kernel + [t.tx[0].addr])
    case KernelComplete(i) => t.(kernel := t.kernel[..i] + t.kernel[i + 1..], comp := t.comp + [t.kernel[i]])
    case TxComplete(_, n) => t.(comp := t.comp[n..], user := t.user + t.comp[..n])
  }

  /** The offsets out of the free list: allocated and not yet freed. */
  function Outstanding(t: TxSide): (r: seq<nat>) {
    t.user + TxAddrs(t.tx) + t.kernel + t.comp
  }

}

/** Both circuits of one UMEM, their steps interleaved in any order. */
module FrameRuns {
  import opened Frames

  datatype World = World(rx: RxSide, tx: TxSide)
  datatype Step = Rx(r: RxStep) | Tx(t: TxStep)

  function Start(c: Config): (w: World) {
    World(RxInit(c), TxInit(c))
  }

  ghost predicate Can(c: Config, w: World, step: Step)
    requires c.frameSize >= 1
  {
    match step
    case Rx(r) => CanRx(c, w.rx, r)
    case Tx(t) => CanTx(c, w.tx, t)
  }

  function Do(c: Config, w: World, step: Step): (w': World)
    requires c.frameSize >= 1 && Can(c, w, step)
  {
    match step
    case Rx(r) => w.(rx := DoRx(c, w.rx, r))
    case Tx(t) => w.(tx := DoTx(c, w.tx, t))
  }

  ghost predicate Runs(c: Config, w: World, steps: seq<Step>)
    requires c.frameSize >= 1
    decreases |steps|, 0
  {
    steps != [] ==>
      && Runs(c, w, steps[..|steps| - 1])
      && Can(c, Exec(c, w, steps[..|steps| - 1]), steps[|steps| - 1])
  }

  function Exec(c: Config, w: World, steps: seq<Step>): (w': World)
    requires c.frameSize >= 1 && Runs(c, w, steps)
    decreases |steps|, 1
  {
    if steps == [] then w else Do(c, Exec(c, w, steps[..|steps| - 1]), steps[|steps| - 1])
  }
}
