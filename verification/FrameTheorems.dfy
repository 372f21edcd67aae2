/** Conservation and exclusivity of frames over every run of user and kernel steps. */
module FrameTheorems {
  import opened Words
  import opened Frames
  import opened FrameRuns

  // ----- Frame addressing -----

  lemma {:induction false} FrameOfOffset(c: Config, f: nat, off: nat)
    requires c.frameSize >= 1 && off < c.frameSize
    ensures FrameOf(c, f * c.frameSize + off) == f
    decreases f
  {
    if f > 0 {
      assert f * c.frameSize + off - c.frameSize == (f - 1) * c.frameSize + off;
      FrameOfOffset(c, f - 1, off);
    }
  }

  /** Offsets of frames inside the region do not wrap, and name their frame. */
  lemma OffsetNamesFrame(c: Config, i: nat)
    requires ValidConfig(c) && i < c.frameCount
    ensures FrameOffset(c, i) == i * c.frameSize < SENTINEL
    ensures FrameOf(c, FrameOffset(c, i)) == i
  {
    var a := i * c.frameSize;
    assert a + c.frameSize <= WORD by { MulLess(i, c.frameCount, c.frameSize); }
    assert FrameOf(c, a) == i by { FrameOfOffset(c, i, 0); }
  }

  // ----- Sequences of frames -----

  function Range(n: nat): (r: seq<nat>)
    ensures |r| == n
  {
    seq(n, i => i)
  }

  /** The frames a list of descriptors lies in. */
  function DescIds(c: Config, descs: seq<RxDesc>): (r: seq<nat>)
    requires c.frameSize >= 1
  {
    FrameIds(c, RxAddrs(descs))
  }

  /** Reordering descriptors reorders their frames. */
  lemma {:induction false} DescIdsPermute(c: Config, a: seq<RxDesc>, b: seq<RxDesc>)
    requires c.frameSize >= 1 && multiset(a) == multiset(b)
    ensures multiset(DescIds(c, a)) == multiset(DescIds(c, b))
    decreases |a|
  {
    assert |multiset(a)| == |a| && |multiset(b)| == |b|;
    if a != [] {
      assert multiset(b)[a[0]] > 0;
      var k: nat :| k < |b| && b[k] == a[0];
      var a', b' := a[..0] + a[1..], b[..k] + b[k + 1..];
      assert multiset(a') == multiset(b') by { RemoveAt(a, 0); RemoveAt(b, k); }
      DescIdsPermute(c, a', b');
      assert multiset(DescIds(c, a)) == multiset(DescIds(c, a')) + multiset{FrameOf(c, a[0].addr)} by {
        DescIdsRemoveAt(c, a, 0);
      }
      assert multiset(DescIds(c, b)) == multiset(DescIds(c, b')) + multiset{FrameOf(c, a[0].addr)} by {
        DescIdsRemoveAt(c, b, k);
      }
    }
  }

  lemma DescIdsRemoveAt(c: Config, s: seq<RxDesc>, k: nat)
    requires c.frameSize >= 1 && k < |s|
    ensures multiset(DescIds(c, s)) == multiset(DescIds(c, s[..k] + s[k + 1..])) + multiset{FrameOf(c, s[k].addr)}
  {
    var ids := DescIds(c, s);
    RemoveAt(ids, k);
    assert DescIds(c, s[..k] + s[k + 1..]) == ids[..k] + ids[k + 1..];
  }

  lemma DescIdsConcat(c: Config, a: seq<RxDesc>, b: seq<RxDesc>)
    requires c.frameSize >= 1
    ensures DescIds(c, a + b) == DescIds(c, a) + DescIds(c, b)
  {
  }

  lemma RemoveAt<T>(s: seq<T>, k: nat)
    requires k < |s|
    ensures multiset(s) == multiset(s[..k] + s[k + 1..]) + multiset{s[k]}
    ensures multiset(s[..k] + s[k + 1..]) == multiset(s) - multiset{s[k]}
  {
    assert s == s[..k] + [s[k]] + s[k + 1..];
  }

  lemma FrameIdsRemoveAt(c: Config, s: seq<nat>, k: nat)
    requires c.frameSize >= 1 && k < |s|
    ensures multiset(FrameIds(c, s)) == multiset(FrameIds(c, s[..k] + s[k + 1..])) + multiset{FrameOf(c, s[k])}
  {
    var ids := FrameIds(c, s);
    RemoveAt(ids, k);
    assert FrameIds(c, s[..k] + s[k + 1..]) == ids[..k] + ids[k + 1..];
  }

  lemma FrameIdsConcat(c: Config, a: seq<nat>, b: seq<nat>)
    requires c.frameSize >= 1
    ensures FrameIds(c, a + b) == FrameIds(c, a) + FrameIds(c, b)
  {
  }

  // ----- Receive circuit -----

  /** Every frame handed to the receive circuit is in it exactly once, and none was dropped. */
  ghost predicate RxInv(c: Config, r: RxSide) {
    ValidConfig(c) && multiset(RxFrames(c, r)) == multiset(Range(RxCount(c))) && r.lost == []
  }

  lemma RxInitInv(c: Config)
    requires ValidConfig(c)
    ensures RxInv(c, RxInit(c))
  {
    var fill := Offsets(c, RxCount(c));
    forall i | 0 <= i < RxCount(c)
      ensures FrameIds(c, fill)[i] == i
    {
      OffsetNamesFrame(c, i);
    }
    assert RxFrames(c, RxInit(c)) == Range(RxCount(c));
  }

  /** The circuit never holds more frames than the fill ring has slots. */
  lemma RxTotal(c: Config, r: RxSide)
    requires RxInv(c, r)
    ensures |r.fill| + |r.kernel| + |r.rx| + |r.held| == RxCount(c) <= c.fillSize
  {
    assert |multiset(RxFrames(c, r))| == |RxFrames(c, r)|;
    assert |multiset(Range(RxCount(c)))| == RxCount(c);
  }

  /** Therefore a release is always granted whole. */
  lemma ReleaseGrantedWhole(c: Config, r: RxSide, descs: seq<RxDesc>, rest: seq<RxDesc>, granted: nat)
    requires RxInv(c, r) && CanRx(c, r, RxRelease(descs, rest, granted))
    ensures granted == |descs|
  {
    RxTotal(c, r);
    assert |descs| + |rest| == |multiset(descs + rest)| == |multiset(r.held)| == |r.held|;
  }

  lemma RxParts(c: Config, r: RxSide)
    requires c.frameSize >= 1
    ensures multiset(RxFrames(c, r))
            == multiset(FrameIds(c, r.fill)) + multiset(FrameIds(c, r.kernel))
               + multiset(DescIds(c, r.rx)) + multiset(DescIds(c, r.held))
  {
  }

  lemma FetchInv(c: Config, r: RxSide)
    requires RxInv(c, r) && CanRx(c, r, KernelFetch)
    ensures RxInv(c, DoRx(c, r, KernelFetch))
  {
    var r' := DoRx(c, r, KernelFetch);
    var f: multiset<nat> := multiset{FrameOf(c, r.fill[0])};
    assert multiset(FrameIds(c, r.fill)) == multiset(FrameIds(c, r'.fill)) + f by {
      FrameIdsRemoveAt(c, r.fill, 0);
      assert r.fill[..0] + r.fill[1..] == r.fill[1..];
    }
    assert multiset(FrameIds(c, r'.kernel)) == multiset(FrameIds(c, r.kernel)) + f by {
      FrameIdsConcat(c, r.kernel, [r.fill[0]]);
      assert FrameIds(c, [r.fill[0]]) == [FrameOf(c, r.fill[0])];
    }
    FrameFetched(c, r, r', f);
  }

  lemma FrameFetched(c: Config, r: RxSide, r': RxSide, f: multiset<nat>)
    requires RxInv(c, r) && r'.rx == r.rx && r'.held == r.held && r'.lost == r.lost
    requires multiset(FrameIds(c, r.fill)) == multiset(FrameIds(c, r'.fill)) + f
    requires multiset(FrameIds(c, r'.kernel)) == multiset(FrameIds(c, r.kernel)) + f
    ensures RxInv(c, r')
  {
    RxParts(c, r);
    RxParts(c, r');
  }

  lemma DeliverInv(c: Config, r: RxSide, step: RxStep)
    requires step.KernelDeliver? && RxInv(c, r) && CanRx(c, r, step)
    ensures RxInv(c, DoRx(c, r, step))
  {
    var f := FrameOf(c, r.kernel[step.i]);
    var d := RxDesc(f * c.frameSize + step.off, step.len, step.options);
    FrameIdsRemoveAt(c, r.kernel, step.i);
    DescIdsConcat(c, r.rx, [d]);
    FrameOfOffset(c, f, step.off);
    assert DescIds(c, [d]) == [f];
  }

  lemma BurstInv(c: Config, r: RxSide, max: nat, n: nat)
    requires RxInv(c, r) && CanRx(c, r, RxBurst(max, n))
    ensures RxInv(c, DoRx(c, r, RxBurst(max, n)))
  {
    assert r.rx == r.rx[..n] + r.rx[n..];
    DescIdsConcat(c, r.rx[..n], r.rx[n..]);
    DescIdsConcat(c, r.held, r.rx[..n]);
  }

  lemma ReleaseInv(c: Config, r: RxSide, descs: seq<RxDesc>, rest: seq<RxDesc>, granted: nat)
    requires RxInv(c, r) && CanRx(c, r, RxRelease(descs, rest, granted))
    ensures RxInv(c, DoRx(c, r, RxRelease(descs, rest, granted)))
  {
    ReleaseGrantedWhole(c, r, descs, rest, granted);
    var r' := DoRx(c, r, RxRelease(descs, rest, granted));
    assert descs[..granted] == descs && descs[granted..] == [];
    assert r' == RxSide(r.fill + RxAddrs(descs), r.kernel, r.rx, rest, r.lost + []);
    ReleaseKeepsFrames(c, r, r', descs);
  }

  lemma ReleaseKeepsFrames(c: Config, r: RxSide, r': RxSide, descs: seq<RxDesc>)
    requires c.frameSize >= 1 && multiset(descs + r'.held) == multiset(r.held)
    requires r'.fill == r.fill + RxAddrs(descs) && r'.kernel == r.kernel && r'.rx == r.rx
    ensures multiset(RxFrames(c, r')) == multiset(RxFrames(c, r))
  {
    DescIdsPermute(c, descs + r'.held, r.held);
    DescIdsConcat(c, descs, r'.held);
    FrameIdsConcat(c, r.fill, RxAddrs(descs));
    RxParts(c, r);
    RxParts(c, r');
  }

  lemma RxStepInv(c: Config, r: RxSide, step: RxStep)
    requires RxInv(c, r) && CanRx(c, r, step)
    ensures RxInv(c, DoRx(c, r, step))
  {
    match step
    case KernelFetch => FetchInv(c, r);
    case KernelDeliver(_, _, _, _) => DeliverInv(c, r, step);
    case RxBurst(max, n) => BurstInv(c, r, max, n);
    case RxRelease(descs, rest, granted) => ReleaseInv(c, r, descs, rest, granted);
  }

  // ----- Transmit circuit -----

  /** Every offset is in exactly one place of the transmit circuit. */
  ghost predicate TxInv(c: Config, t: TxSide) {
    ValidConfig(c) && multiset(t.free + Outstanding(t)) == multiset(Offsets(c, c.frameCount))
  }

  lemma TxInitInv(c: Config)
    requires ValidConfig(c)
    ensures TxInv(c, TxInit(c))
  {
    assert TxInit(c).free + Outstanding(TxInit(c)) == Offsets(c, c.frameCount);
  }

  lemma TxAddrsConcat(a: seq<TxDesc>, b: seq<TxDesc>)
    ensures TxAddrs(a + b) == TxAddrs(a) + TxAddrs(b)
  {
  }

  lemma TxBurstInv(c: Config, t: TxSide, step: TxStep)
    requires step.TxBurst? && TxInv(c, t) && CanTx(c, t, step)
    ensures TxInv(c, DoTx(c, t, step))
  {
    var sent, unsent := step.addrs[..step.granted], step.addrs[step.granted..];
    var descs, t' := TxDescs(sent, step.lens[..step.granted]), DoTx(c, t, step);
    assert TxAddrs(t'.tx) == TxAddrs(t.tx) + sent by {
      TxAddrsConcat(t.tx, descs);
      assert TxAddrs(descs) == sent;
    }
    assert multiset(t.user) == multiset(sent) + multiset(t'.user) by {
      assert step.addrs + step.rest == sent + t'.user;
    }
    Queued(c, t, t', sent);
  }

  lemma TxParts(t: TxSide)
    ensures multiset(t.free + Outstanding(t))
            == multiset(t.free) + multiset(t.user) + multiset(TxAddrs(t.tx)) + multiset(t.kernel) + multiset(t.comp)
  {
  }

  lemma Queued(c: Config, t: TxSide, t': TxSide, sent: seq<nat>)
    requires TxInv(c, t) && t'.free == t.free && t'.kernel == t.kernel && t'.comp == t.comp
    requires TxAddrs(t'.tx) == TxAddrs(t.tx) + sent && multiset(t.user) == multiset(sent) + multiset(t'.user)
    ensures TxInv(c, t')
  {
    TxParts(t);
    TxParts(t');
  }

  lemma AllocInv(c: Config, t: TxSide)
    requires TxInv(c, t)
    ensures TxInv(c, DoTx(c, t, Alloc))
  {
    if t.free != [] {
      assert t.free == t.free[..|t.free| - 1] + [AllocResult(t.free)];
    }
  }

  lemma FreeInv(c: Config, t: TxSide, k: nat)
    requires TxInv(c, t) && k < |t.user|
    ensures TxInv(c, DoTx(c, t, FreeFrame(k)))
  {
    RemoveAt(t.user, k);
  }

  lemma TakeInv(c: Config, t: TxSide)
    requires TxInv(c, t) && t.tx != []
    ensures TxInv(c, DoTx(c, t, KernelTake))
  {
    assert t.tx == [t.tx[0]] + t.tx[1..];
    TxAddrsConcat([t.tx[0]], t.tx[1..]);
    assert TxAddrs([t.tx[0]]) == [t.tx[0].addr];
  }

  lemma CompleteInv(c: Config, t: TxSide, i: nat)
    requires TxInv(c, t) && CanTx(c, t, KernelComplete(i))
    ensures TxInv(c, DoTx(c, t, KernelComplete(i)))
  {
    RemoveAt(t.kernel, i);
  }

  lemma ReclaimInv(c: Config, t: TxSide, max: nat, n: nat)
    requires TxInv(c, t) && CanTx(c, t, TxComplete(max, n))
    ensures TxInv(c, DoTx(c, t, TxComplete(max, n)))
  {
    assert t.comp == t.comp[..n] + t.comp[n..];
  }

  lemma TxStepInv(c: Config, t: TxSide, step: TxStep)
    requires TxInv(c, t) && CanTx(c, t, step)
    ensures TxInv(c, DoTx(c, t, step))
  {
    match step
    case Alloc => AllocInv(c, t);
    case FreeFrame(k) => FreeInv(c, t, k);
    case TxBurst(_, _, _, _) => TxBurstInv(c, t, step);
    case KernelTake => TakeInv(c, t);
    case KernelComplete(i) => CompleteInv(c, t, i);
    case TxComplete(max, n) => ReclaimInv(c, t, max, n);
  }

  // ----- Every run -----

  lemma {:induction false} RunInv(c: Config, steps: seq<Step>)
    requires ValidConfig(c) && Runs(c, Start(c), steps)
    ensures RxInv(c, Exec(c, Start(c), steps).rx) && TxInv(c, Exec(c, Start(c), steps).tx)
    decreases |steps|
  {
    if steps == [] {
      RxInitInv(c);
      TxInitInv(c);
    } else {
      var w, step := Exec(c, Start(c), steps[..|steps| - 1]), steps[|steps| - 1];
      RunInv(c, steps[..|steps| - 1]);
      if step.Rx? {
        RxStepInv(c, w.rx, step.r);
      } else {
        TxStepInv(c, w.tx, step.t);
      }
    }
  }

  lemma {:induction false} RangeCount(n: nat, f: nat)
    ensures multiset(Range(n))[f] == if f < n then 1 else 0
  {
    if n > 0 {
      assert Range(n) == Range(n - 1) + [n - 1];
      RangeCount(n - 1, f);
    }
  }

  /** How often a frame occurs in the four places of the receive circuit. */
  ghost function RxPlaces(c: Config, r: RxSide, f: nat): (n: nat)
    requires c.frameSize >= 1
  {
    multiset(FrameIds(c, r.fill))[f] + multiset(FrameIds(c, r.kernel))[f]
    + multiset(DescIds(c, r.rx))[f] + multiset(DescIds(c, r.held))[f]
  }

  lemma RxPlacesOf(c: Config, r: RxSide, f: nat)
    requires RxInv(c, r)
    ensures RxPlaces(c, r, f) == if f < RxCount(c) then 1 else 0
  {
    RangeCount(RxCount(c), f);
    assert multiset(RxFrames(c, r))[f] == RxPlaces(c, r, f);
  }

  /** In every run each frame given to the receive circuit is in exactly one of the fill ring,
      the kernel, the RX ring and the user's hands, the total never changes and no frame is
      lost. */
  lemma RxConservation(c: Config, steps: seq<Step>)
    requires ValidConfig(c) && Runs(c, Start(c), steps)
    ensures var r := Exec(c, Start(c), steps).rx;
            && |r.fill| + |r.kernel| + |r.rx| + |r.held| == RxCount(c) && r.lost == []
            && forall f: nat :: RxPlaces(c, r, f) == if f < RxCount(c) then 1 else 0
  {
    RunInv(c, steps);
    var r := Exec(c, Start(c), steps).rx;
    RxTotal(c, r);
    forall f: nat
      ensures RxPlaces(c, r, f) == if f < RxCount(c) then 1 else 0
    {
      RxPlacesOf(c, r, f);
    }
  }

  /** In every run rx_release is granted as many fill slots as it returns descriptors, so its
      copy loop never stops short. */
  lemma ReleaseNeverShort(c: Config, steps: seq<Step>, descs: seq<RxDesc>, rest: seq<RxDesc>, granted: nat)
    requires ValidConfig(c) && Runs(c, Start(c), steps)
    requires CanRx(c, Exec(c, Start(c), steps).rx, RxRelease(descs, rest, granted))
    ensures granted == |descs|
  {
    RunInv(c, steps);
    ReleaseGrantedWhole(c, Exec(c, Start(c), steps).rx, descs, rest, granted);
  }

  /** In every run a descriptor the user holds lies in a frame that is nowhere else: not in the
      fill ring, not with the kernel, not in the RX ring, and under no other descriptor held. */
  lemma HeldIsExclusive(c: Config, steps: seq<Step>, i: nat)
    requires ValidConfig(c) && Runs(c, Start(c), steps)
    requires i < |Exec(c, Start(c), steps).rx.held|
    ensures var r := Exec(c, Start(c), steps).rx;
            var f := FrameOf(c, r.held[i].addr);
            && f !in FrameIds(c, r.fill) && f !in FrameIds(c, r.kernel) && f !in DescIds(c, r.rx)
            && multiset(DescIds(c, r.held))[f] == 1
  {
    RunInv(c, steps);
    HeldAlone(c, Exec(c, Start(c), steps).rx, i);
  }

  lemma HeldAlone(c: Config, r: RxSide, i: nat)
    requires RxInv(c, r) && i < |r.held|
    ensures var f := FrameOf(c, r.held[i].addr);
            && f !in FrameIds(c, r.fill) && f !in FrameIds(c, r.kernel) && f !in DescIds(c, r.rx)
            && multiset(DescIds(c, r.held))[f] == 1
  {
    var f := FrameOf(c, r.held[i].addr);
    assert DescIds(c, r.held)[i] == f;
    RxPlacesOf(c, r, f);
    InMultiset(DescIds(c, r.held), f);
    InMultiset(FrameIds(c, r.fill), f);
    InMultiset(FrameIds(c, r.kernel), f);
    InMultiset(DescIds(c, r.rx), f);
  }

  lemma SplitCount(a: seq<nat>, b: seq<nat>, x: nat)
    ensures multiset(a + b)[x] == multiset(a)[x] + multiset(b)[x]
  {
  }

  lemma InMultiset(s: seq<nat>, f: nat)
    ensures f in s <==> multiset(s)[f] > 0
  {
  }

  lemma {:induction false} OffsetsCount(c: Config, n: nat, x: nat)
    requires ValidConfig(c) && n <= c.frameCount
    ensures multiset(Offsets(c, n))[x] == if FrameOf(c, x) < n && x == FrameOffset(c, FrameOf(c, x)) then 1 else 0
    decreases n
  {
    if n > 0 {
      OffsetsCount(c, n - 1, x);
      OffsetNamesFrame(c, n - 1);
      assert Offsets(c, n) == Offsets(c, n - 1) + [FrameOffset(c, n - 1)];
    }
  }

  /** In every run the transmit circuit holds each frame offset exactly once across the free
      list, the user, the TX ring, the kernel and the completion ring, and alloc_frame returns
      the sentinel exactly when the free list is empty. */
  lemma TxConservation(c: Config, steps: seq<Step>)
    requires ValidConfig(c) && Runs(c, Start(c), steps)
    ensures var t := Exec(c, Start(c), steps).tx;
            && (forall x: nat ::
                  multiset(t.free)[x] + multiset(t.user)[x] + multiset(TxAddrs(t.tx))[x]
                  + multiset(t.kernel)[x] + multiset(t.comp)[x]
                  == if FrameOf(c, x) < c.frameCount && x == FrameOffset(c, FrameOf(c, x)) then 1 else 0)
            && (AllocResult(t.free) == SENTINEL <==> t.free == [])
  {
    RunInv(c, steps);
    var t := Exec(c, Start(c), steps).tx;
    var all: seq<nat> := t.free + Outstanding(t);
    forall x: nat
      ensures multiset(all)[x] == if FrameOf(c, x) < c.frameCount && x == FrameOffset(c, FrameOf(c, x)) then 1 else 0
    {
      OffsetsCount(c, c.frameCount, x);
    }
    if t.free != [] {
      var x: nat := AllocResult(t.free);
      assert multiset(all)[x] > 0;
      OffsetNamesFrame(c, FrameOf(c, x));
    }
  }

  // ----- The two circuits share frames -----

  /** No frame that is out for transmission is in the receive circuit. */
  ghost predicate Disjoint(c: Config, w: World)
    requires c.frameSize >= 1
  {
    forall x :: x in Outstanding(w.tx) ==> FrameOf(c, x) !in RxFrames(c, w.rx)
  }

  /** At most frame_count - min(fill_size, frame_count) frames are out for transmission. */
  ghost predicate WithinBound(c: Config, w: World) {
    |Outstanding(w.tx)| <= c.frameCount - RxCount(c)
  }

  /** The bottom of the free list still holds the receive circuit's frames, untouched. */
  ghost predicate BottomUntouched(c: Config, t: TxSide) {
    |t.free| >= RxCount(c) && t.free[..RxCount(c)] == Offsets(c, RxCount(c))
  }

  lemma TxTotal(c: Config, t: TxSide)
    requires TxInv(c, t)
    ensures |t.free| + |Outstanding(t)| == c.frameCount
  {
    assert |multiset(t.free + Outstanding(t))| == |t.free + Outstanding(t)|;
    assert |multiset(Offsets(c, c.frameCount))| == c.frameCount;
  }

  /** The bound holds at every moment of the run. */
  ghost predicate BoundKept(c: Config, steps: seq<Step>)
    requires c.frameSize >= 1
  {
    forall k :: 0 <= k <= |steps| ==> Runs(c, Start(c), steps[..k]) && WithinBound(c, Exec(c, Start(c), steps[..k]))
  }

  lemma BoundPrefix(c: Config, steps: seq<Step>, k: nat)
    requires c.frameSize >= 1 && BoundKept(c, steps) && k <= |steps|
    ensures BoundKept(c, steps[..k])
  {
    forall j | 0 <= j <= k
      ensures Runs(c, Start(c), steps[..k][..j]) && WithinBound(c, Exec(c, Start(c), steps[..k][..j]))
    {
      assert steps[..k][..j] == steps[..j];
    }
  }

  lemma {:induction false} BottomInRun(c: Config, steps: seq<Step>)
    requires ValidConfig(c) && Runs(c, Start(c), steps)
    requires BoundKept(c, steps)
    ensures BottomUntouched(c, Exec(c, Start(c), steps).tx)
    decreases |steps|
  {
    if steps == [] {
      BottomAtStart(c);
    } else {
      var before := steps[..|steps| - 1];
      BoundPrefix(c, steps, |before|);
      BottomInRun(c, before);
      RunInv(c, steps);
      assert WithinBound(c, Exec(c, Start(c), steps)) by { assert steps[..|steps|] == steps; }
      BottomNext(c, Exec(c, Start(c), before), steps[|steps| - 1]);
    }
  }

  lemma BottomAtStart(c: Config)
    requires ValidConfig(c)
    ensures BottomUntouched(c, TxInit(c))
  {
    assert Offsets(c, c.frameCount)[..RxCount(c)] == Offsets(c, RxCount(c));
  }

  lemma BottomNext(c: Config, w: World, step: Step)
    requires ValidConfig(c) && Can(c, w, step) && BottomUntouched(c, w.tx)
    requires TxInv(c, Do(c, w, step).tx) && WithinBound(c, Do(c, w, step))
    ensures BottomUntouched(c, Do(c, w, step).tx)
  {
    TxTotal(c, Do(c, w, step).tx);
    if step.Tx? {
      BottomStep(c, w.tx, step.t);
    }
  }

  lemma BottomStep(c: Config, t: TxSide, step: TxStep)
    requires BottomUntouched(c, t) && CanTx(c, t, step) && |DoTx(c, t, step).free| >= RxCount(c)
    ensures BottomUntouched(c, DoTx(c, t, step))
  {
    assert DoTx(c, t, step).free[..RxCount(c)] == t.free[..RxCount(c)];
  }

  /** With the bottom untouched, everything outstanding lies above the receive circuit. */
  lemma BottomMeansDisjoint(c: Config, w: World)
    requires RxInv(c, w.rx) && TxInv(c, w.tx) && BottomUntouched(c, w.tx)
    ensures Disjoint(c, w)
  {
    var n := RxCount(c);
    var t := w.tx;
    forall x | x in Outstanding(t)
      ensures FrameOf(c, x) !in RxFrames(c, w.rx)
    {
      AboveBottom(c, t, x);
      RangeCount(n, FrameOf(c, x));
      InMultiset(RxFrames(c, w.rx), FrameOf(c, x));
    }
  }

  /** Pigeonhole: more frames out than the bound leaves cannot avoid the receive circuit. */
  lemma DisjointMeansBound(c: Config, w: World)
    requires RxInv(c, w.rx) && TxInv(c, w.tx) && Disjoint(c, w)
    ensures WithinBound(c, w)
  {
    var n, t := RxCount(c), w.tx;
    var low: multiset<nat> := multiset(Offsets(c, n));
    forall x: nat
      ensures low[x] <= multiset(t.free)[x]
    {
      OffsetsCount(c, n, x);
      OffsetsCount(c, c.frameCount, x);
      RangeCount(n, FrameOf(c, x));
      assert multiset(t.free + Outstanding(t))[x] == multiset(t.free)[x] + multiset(Outstanding(t))[x];
      InMultiset(Outstanding(t), x);
      InMultiset(RxFrames(c, w.rx), FrameOf(c, x));
    }
    assert multiset(t.free) == low + (multiset(t.free) - low);
    assert |low| == n && |multiset(t.free)| == |t.free|;
    TxTotal(c, t);
  }

  /** Over a whole run the two circuits stay disjoint if and only if the number of frames out
      for transmission never exceeds the bound. */
  lemma DisjointIffBounded(c: Config, steps: seq<Step>)
    requires ValidConfig(c) && Runs(c, Start(c), steps)
    ensures forall k :: 0 <= k <= |steps| ==> Runs(c, Start(c), steps[..k])
    ensures (forall k :: 0 <= k <= |steps| ==> Disjoint(c, Exec(c, Start(c), steps[..k])))
            <==> (forall k :: 0 <= k <= |steps| ==> WithinBound(c, Exec(c, Start(c), steps[..k])))
  {
    forall k | 0 <= k <= |steps|
      ensures Runs(c, Start(c), steps[..k])
    {
      PrefixRuns(c, Start(c), steps, k);
    }
    if forall k :: 0 <= k <= |steps| ==> WithinBound(c, Exec(c, Start(c), steps[..k])) {
      forall k | 0 <= k <= |steps|
        ensures Disjoint(c, Exec(c, Start(c), steps[..k]))
      {
        var pre := steps[..k];
        BoundPrefix(c, steps, k);
        BottomInRun(c, pre);
        RunInv(c, pre);
        BottomMeansDisjoint(c, Exec(c, Start(c), pre));
      }
    }
    forall k | 0 <= k <= |steps| && Disjoint(c, Exec(c, Start(c), steps[..k]))
      ensures WithinBound(c, Exec(c, Start(c), steps[..k]))
    {
      RunInv(c, steps[..k]);
      DisjointMeansBound(c, Exec(c, Start(c), steps[..k]));
    }
  }

  lemma {:induction false} PrefixRuns(c: Config, w: World, steps: seq<Step>, k: nat)
    requires c.frameSize >= 1 && Runs(c, w, steps) && k <= |steps|
    ensures Runs(c, w, steps[..k])
    decreases |steps|
  {
    if k == |steps| {
      assert steps[..k] == steps;
    } else {
      PrefixRuns(c, w, steps[..|steps| - 1], k);
      assert steps[..|steps| - 1][..k] == steps[..k];
    }
  }

  /** The condition a caller can test before the call: in a run that kept the bound so far,
      the next alloc_frame hands out a frame of the receive circuit exactly when the bound is
      already used up and the free list is not empty. */
  lemma AllocOverlapsIff(c: Config, steps: seq<Step>)
    requires ValidConfig(c) && Runs(c, Start(c), steps)
    requires BoundKept(c, steps)
    ensures var w := Exec(c, Start(c), steps);
            w.tx.free != [] ==>
              (FrameOf(c, AllocResult(w.tx.free)) in RxFrames(c, w.rx)
               <==> |Outstanding(w.tx)| == c.frameCount - RxCount(c))
  {
    BottomInRun(c, steps);
    RunInv(c, steps);
    var w := Exec(c, Start(c), steps);
    if w.tx.free != [] {
      NextAlloc(c, w);
    }
  }

  lemma NextAlloc(c: Config, w: World)
    requires RxInv(c, w.rx) && TxInv(c, w.tx) && BottomUntouched(c, w.tx) && w.tx.free != []
    ensures FrameOf(c, AllocResult(w.tx.free)) in RxFrames(c, w.rx)
            <==> |Outstanding(w.tx)| == c.frameCount - RxCount(c)
  {
    var t, n := w.tx, RxCount(c);
    var x: nat := AllocResult(t.free);
    TxTotal(c, t);
    RangeCount(n, FrameOf(c, x));
    InMultiset(RxFrames(c, w.rx), FrameOf(c, x));
    if |t.free| == n {
      assert x == Offsets(c, n)[n - 1];
      OffsetNamesFrame(c, n - 1);
    } else {
      AboveBottom(c, t, x);
    }
  }

  function Allocs(k: nat): (r: seq<Step>)
    ensures |r| == k
  {
    seq(k, _ => Tx(Alloc))
  }

  lemma {:induction false} AllocsRun(c: Config, k: nat)
    requires ValidConfig(c) && k <= c.frameCount
    ensures Runs(c, Start(c), Allocs(k))
    ensures |Outstanding(Exec(c, Start(c), Allocs(k)).tx)| == k
    decreases k
  {
    if k > 0 {
      AllocsRun(c, k - 1);
      assert Allocs(k)[..k - 1] == Allocs(k - 1);
      RunInv(c, Allocs(k - 1));
      TxTotal(c, Exec(c, Start(c), Allocs(k - 1)).tx);
    }
  }

  /** Disjointness is not unconditional: whenever the receive circuit has a frame, one allocation
      more than the bound, in a row from the start, already hands out a frame it shares. */
  lemma OverlapAfterBound(c: Config)
    requires ValidConfig(c) && RxCount(c) > 0
    ensures var steps := Allocs(c.frameCount - RxCount(c) + 1);
            Runs(c, Start(c), steps) && !Disjoint(c, Exec(c, Start(c), steps))
  {
    var k := c.frameCount - RxCount(c) + 1;
    AllocsRun(c, k);
    var w := Exec(c, Start(c), Allocs(k));
    if Disjoint(c, w) {
      RunInv(c, Allocs(k));
      DisjointMeansBound(c, w);
    }
  }

  /** An offset outside the bottom of the free list names a frame above the receive circuit's. */
  lemma AboveBottom(c: Config, t: TxSide, x: nat)
    requires TxInv(c, t) && BottomUntouched(c, t)
    requires x in t.free[RxCount(c)..] + Outstanding(t)
    ensures RxCount(c) <= FrameOf(c, x) < c.frameCount
  {
    var n := RxCount(c);
    var rest: seq<nat> := t.free[n..] + Outstanding(t);
    var counts: multiset<nat> := multiset(rest);
    InMultiset(rest, x);
    TakeApart(t.free, Outstanding(t), n);
    SplitCount(t.free[..n], rest, x);
    CountsAbove(c, n, x, counts[x]);
  }

  lemma TakeApart(a: seq<nat>, b: seq<nat>, n: nat)
    requires n <= |a|
    ensures a + b == a[..n] + (a[n..] + b)
  {
  }

  lemma CountsAbove(c: Config, n: nat, x: nat, k: nat)
    requires ValidConfig(c) && n <= c.frameCount && k > 0
    requires multiset(Offsets(c, c.frameCount))[x] == multiset(Offsets(c, n))[x] + k
    ensures n <= FrameOf(c, x) < c.frameCount
  {
    OffsetsCount(c, n, x);
    OffsetsCount(c, c.frameCount, x);
  }
}
