/** The frame allocator and the socket, whose methods are the steps of the frame machine. */
module XdpSockets {
  import opened Words
  import opened Frames
  import opened XskRings

  class Umem {
    const cfg: Config
    var freeFrames: seq<nat>
    const fill: ProdRing<nat>
    const comp: ConsRing<nat>

    ghost predicate Valid()
      reads this, fill
    {
      ValidConfig(cfg) && fill.Valid() && fill.size == cfg.fillSize && fill.reserved == 0
    }

    /** All frame offsets go on the LIFO free list, lowest first. */
    constructor (cfg: Config)
      requires ValidConfig(cfg)
      ensures Valid() && this.cfg == cfg && fresh(fill) && fresh(comp)
      ensures freeFrames == TxInit(cfg).free && fill.queue == [] && comp.queue == []
    {
      this.cfg := cfg;
      fill := new ProdRing<nat>(cfg.fillSize);
      comp := new ConsRing<nat>();
      freeFrames := [];
      new;
      var i := 0;
      while i < cfg.frameCount
        invariant i <= cfg.frameCount && freeFrames == Offsets(cfg, i)
        invariant Valid() && fill.queue == [] && comp.queue == []
      {
        freeFrames := freeFrames + [FrameOffset(cfg, i)];
        i := i + 1;
      }
    }

    /** Give the kernel the first min(fill_size, frame_count) frames. On an empty fill ring all
        of them are accepted, which is the start state of the receive circuit. */
    method PopulateFillRing(offer: nat)
      requires Valid()
      modifies fill
      ensures Valid()
      ensures |fill.queue| >= |old(fill.queue)|
      ensures var granted := |fill.queue| - |old(fill.queue)|;
              MayGrant(RxCount(cfg), cfg.fillSize - |old(fill.queue)|, granted)
              && fill.queue == old(fill.queue) + Offsets(cfg, granted)
      ensures old(fill.queue) == [] ==> fill.queue == RxInit(cfg).fill
    {
      var n := RxCount(cfg);
      var reserved, idx := fill.Reserve(n, offer);
      var i := 0;
      while i < reserved
        invariant i <= reserved && Valid'(reserved)
        invariant fill.base == idx && fill.queue == old(fill.queue)
        invariant Ready(fill.slots, idx, i) && Filled(fill.slots, idx, i) == Offsets(cfg, i)
      {
        FilledNext(fill.slots, idx, i, FrameOffset(cfg, i));
        fill.Set(idx + i, Wrap(i * cfg.frameSize));
        assert Offsets(cfg, i + 1) == Offsets(cfg, i) + [FrameOffset(cfg, i)];
        i := i + 1;
      }
      fill.Submit(reserved);
    }

    /** Valid, with slots of the fill ring reserved. */
    ghost predicate Valid'(reserved: nat)
      reads this, fill
    {
      ValidConfig(cfg) && fill.Valid() && fill.size == cfg.fillSize && fill.reserved == reserved
    }

    /** Take the most recently freed frame, or the sentinel when none is free. */
    method AllocFrame(ghost t: TxSide) returns (offset: nat)
      requires Valid() && t.free == freeFrames
      modifies this`freeFrames
      ensures Valid()
      ensures offset == AllocResult(old(freeFrames))
      ensures freeFrames == DoTx(cfg, t, Alloc).free
      ensures DoTx(cfg, t, Alloc).user == t.user + if old(freeFrames) == [] then [] else [offset]
    {
      if freeFrames == [] {
        return SENTINEL;
      }
      offset := freeFrames[|freeFrames| - 1];
      freeFrames := freeFrames[..|freeFrames| - 1];
    }

    /** Put an offset back on the free list; freeing the k-th offset held is a step of the machine. */
    method FreeFrame(offset: nat, ghost t: TxSide, ghost k: nat)
      requires Valid()
      modifies this`freeFrames
      ensures Valid()
      ensures freeFrames == old(freeFrames) + [offset]
      ensures AllocResult(freeFrames) == offset
      ensures t.free == old(freeFrames) && k < |t.user| && t.user[k] == offset ==>
                freeFrames == DoTx(cfg, t, TxStep.FreeFrame(k)).free
    {
      freeFrames := freeFrames + [offset];
    }
  }

  lemma SentPrefix(addrs: seq<nat>, lens: seq<nat>, n: nat)
    requires |addrs| == |lens| && n <= |addrs|
    ensures TxDescs(addrs[..n], lens[..n]) == TxDescs(addrs, lens)[..n]
  {
  }

  class XdpSocket {
    const umem: Umem
    const rx: ConsRing<RxDesc>
    const tx: ProdRing<TxDesc>

    ghost predicate Valid()
      reads this, umem, umem.fill, tx
    {
      umem.Valid() && tx.Valid() && tx.size == umem.cfg.txSize && tx.reserved == 0
    }

    constructor (umem: Umem)
      requires umem.Valid()
      ensures Valid() && this.umem == umem && fresh(rx) && fresh(tx)
      ensures rx.queue == [] && tx.queue == []
    {
      this.umem := umem;
      rx := new ConsRing<RxDesc>();
      tx := new ProdRing<TxDesc>(umem.cfg.txSize);
    }

    /** Copy up to out.Length received descriptors out, oldest first, and release them. */
    method RxBurst(out: array<RxDesc>, visible: nat, ghost r: RxSide) returns (rcvd: nat)
      requires Valid() && r.rx == rx.queue
      modifies out, rx
      ensures Valid() && rcvd <= out.Length
      ensures CanRx(umem.cfg, r, RxStep.RxBurst(out.Length, rcvd))
      ensures rx.queue == DoRx(umem.cfg, r, RxStep.RxBurst(out.Length, rcvd)).rx
      ensures r.held + out[..rcvd] == DoRx(umem.cfg, r, RxStep.RxBurst(out.Length, rcvd)).held
      ensures forall k :: rcvd <= k < out.Length ==> out[k] == old(out[k])
    {
      var idx;
      rcvd, idx := rx.Peek(out.Length, visible);
      var i := 0;
      while i < rcvd
        invariant i <= rcvd && out[..i] == r.rx[..i]
        invariant rx.queue == r.rx && rx.base == idx && umem.Valid()
        invariant forall k :: i <= k < out.Length ==> out[k] == old(out[k])
      {
        out[i] := rx.At(idx + i);
        i := i + 1;
      }
      if rcvd > 0 {
        rx.Release(rcvd);
      }
    }

    /** Return n descriptors to the fill ring by address, as many as it grants slots for. */
    method RxRelease(descs: array<RxDesc>, n: nat, offer: nat, ghost r: RxSide, ghost rest: seq<RxDesc>)
      returns (ghost granted: nat)
      requires Valid() && n <= descs.Length && r.fill == umem.fill.queue
      requires multiset(descs[..n] + rest) == multiset(r.held)
      modifies umem.fill
      ensures Valid()
      ensures CanRx(umem.cfg, r, RxStep.RxRelease(descs[..n], rest, granted))
      ensures umem.fill.queue == DoRx(umem.cfg, r, RxStep.RxRelease(descs[..n], rest, granted)).fill
    {
      if n == 0 {
        assert r.fill + RxAddrs(descs[..0][..0]) == r.fill;
        return 0;
      }
      var fill := umem.fill;
      ghost var want := RxAddrs(descs[..n]);
      var reserved, idx := fill.Reserve(n, offer);
      var i := 0;
      while i < reserved
        invariant i <= reserved && umem.Valid'(reserved)
        invariant fill.base == idx && fill.queue == r.fill
        invariant tx.Valid() && tx.size == umem.cfg.txSize && tx.reserved == 0
        invariant Ready(fill.slots, idx, i) && Filled(fill.slots, idx, i) == want[..i]
      {
        FilledNext(fill.slots, idx, i, descs[i].addr);
        fill.Set(idx + i, descs[i].addr);
        assert want[..i + 1] == want[..i] + [descs[i].addr];
        i := i + 1;
      }
      fill.Submit(reserved);
      assert RxAddrs(descs[..n][..reserved]) == want[..reserved];
      granted := reserved;
    }

    /** Queue up to count frames for transmission; the caller keeps what was not accepted. */
    method TxBurst(addrs: array<nat>, lens: array<nat>, count: nat, offer: nat, ghost t: TxSide, ghost rest: seq<nat>)
      returns (sent: nat)
      requires Valid() && count <= addrs.Length && count <= lens.Length && t.tx == tx.queue
      requires multiset(addrs[..count] + rest) == multiset(t.user)
      modifies tx
      ensures Valid() && sent <= count
      ensures CanTx(umem.cfg, t, TxStep.TxBurst(addrs[..count], lens[..count], rest, sent))
      ensures tx.queue == DoTx(umem.cfg, t, TxStep.TxBurst(addrs[..count], lens[..count], rest, sent)).tx
      ensures addrs[sent..count] + rest == DoTx(umem.cfg, t, TxStep.TxBurst(addrs[..count], lens[..count], rest, sent)).user
    {
      ghost var a, l := addrs[..count], lens[..count];
      ghost var want := TxDescs(a, l);
      if count == 0 {
        SentPrefix(a, l, 0);
        return 0;
      }
      var idx;
      sent, idx := tx.Reserve(count, offer);
      var i := 0;
      while i < sent
        invariant i <= sent && tx.Valid() && tx.size == umem.cfg.txSize && tx.reserved == sent
        invariant tx.base == idx && tx.queue == t.tx && umem.Valid()
        invariant Ready(tx.slots, idx, i) && Filled(tx.slots, idx, i) == want[..i]
      {
        FilledNext(tx.slots, idx, i, TxDesc(addrs[i], lens[i], 0));
        tx.Set(idx + i, TxDesc(addrs[i], lens[i], 0));
        assert want[..i + 1] == want[..i] + [TxDesc(addrs[i], lens[i], 0)];
        i := i + 1;
      }
      if sent > 0 {
        tx.Submit(sent);
      }
      SentPrefix(a, l, sent);
      assert a[sent..] == addrs[sent..count];
    }

    /** Reclaim up to max completed offsets, oldest first. */
    method TxComplete(addrs: array<nat>, max: nat, visible: nat, ghost t: TxSide) returns (n: nat)
      requires Valid() && max <= addrs.Length && t.comp == umem.comp.queue
      modifies addrs, umem.comp
      ensures Valid() && n <= max
      ensures CanTx(umem.cfg, t, TxStep.TxComplete(max, n))
      ensures umem.comp.queue == DoTx(umem.cfg, t, TxStep.TxComplete(max, n)).comp
      ensures t.user + addrs[..n] == DoTx(umem.cfg, t, TxStep.TxComplete(max, n)).user
    {
      var comp := umem.comp;
      var idx;
      n, idx := comp.Peek(max, visible);
      var i := 0;
      while i < n
        invariant i <= n && addrs[..i] == t.comp[..i]
        invariant comp.queue == t.comp && comp.base == idx
        invariant umem.Valid() && tx.Valid() && tx.size == umem.cfg.txSize && tx.reserved == 0
      {
        addrs[i] := comp.At(idx + i);
        i := i + 1;
      }
      if n > 0 {
        comp.Release(n);
      }
    }
  }
}
