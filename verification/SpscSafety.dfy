/** What every interleaving of the ring's accesses keeps, and what follows from it. */
module SpscSafety {
  import opened Options
  import opened RingIndex
  import opened SpscProtocol

  // ----- The invariant -----

  /** How far the two threads and their views of each other are apart. */
  ghost predicate Counters<T>(s: State<T>) {
    && ValidCapacity(s.n)
    && |s.tail| >= 1 && |s.head| >= 1
    && |s.buf| == |s.lastWrite| == |s.lastRead| == s.n
    && var pushes, pops, seenPops, seenPushes := |s.tail| - 1, |s.head| - 1, s.pview.headAt, s.cview.tailAt;
    && s.pview == View(pushes, seenPops, pushes, seenPops)
    && s.cview == View(seenPushes, pops, seenPushes, pops)
    && seenPops <= pops <= seenPushes <= pushes <= seenPops + s.n - 1
    && |s.pushed| == pushes
    && s.popped == s.pushed[..pops]
  }

  /** The k-th store to either index holds the counter k, masked, and publishes k epochs. */
  ghost predicate Orders<T>(s: State<T>)
    requires Counters(s)
  {
    && (forall k {:trigger s.tail[k]} :: 0 <= k < |s.tail| ==>
          s.tail[k].index == Slot(k, s.n) && s.tail[k].prodClock == k && s.tail[k].consClock <= s.pview.headAt)
    && (forall k {:trigger s.head[k]} :: 0 <= k < |s.head| ==>
          s.head[k].index == Slot(k, s.n) && s.head[k].consClock == k && s.head[k].prodClock <= s.cview.tailAt)
  }

  /** Slots between the indices hold the unread items; every slot read belongs to a past push. */
  ghost predicate Slots<T>(s: State<T>)
    requires Counters(s)
  {
    && (forall k {:trigger s.pushed[k]} :: |s.head| - 1 <= k < |s.tail| - 1 ==>
          s.buf[Slot(k, s.n)] == s.pushed[k] && s.lastWrite[Slot(k, s.n)] == k + 1)
    && (forall i {:trigger s.lastRead[i]} :: 0 <= i < s.n && s.lastRead[i] > 0 ==>
          s.lastRead[i] <= |s.tail| - 1 && Slot(s.lastRead[i] - 1, s.n) == i)
  }

  ghost predicate ProducerAt<T>(s: State<T>)
    requires Counters(s)
  {
    var pushes := |s.tail| - 1;
    match s.prod
    case PIdle => true
    case PTail(_, t) => t == Slot(pushes, s.n)
    case PRoom(_, t, next) =>
      t == Slot(pushes, s.n) && next == Slot(pushes + 1, s.n) && pushes + 1 <= s.pview.headAt + s.n - 1
    case PStored(item, next) =>
      && next == Slot(pushes + 1, s.n) && pushes + 1 <= s.pview.headAt + s.n - 1
      && s.buf[Slot(pushes, s.n)] == item && s.lastWrite[Slot(pushes, s.n)] == pushes + 1
    case PAskTail(q, t) => !q.IsEmpty? && t == Slot(pushes, s.n)
    case PAskHead(h) => h == Slot(s.pview.headAt, s.n)
  }

  ghost predicate ConsumerAt<T>(s: State<T>)
    requires Counters(s)
  {
    var pops := |s.head| - 1;
    && (s.peeked.Some? ==> s.peeked.value == Slot(pops, s.n) && pops < s.cview.tailAt)
    && match s.cons
       case CIdle => true
       case CHead(_, h) => h == Slot(pops, s.n)
       case CItem(h) => h == Slot(pops, s.n) && pops < s.cview.tailAt
       case CTaken(item, h) => h == Slot(pops, s.n) && pops < s.cview.tailAt && item == s.pushed[pops]
       case CAskTail(q, t) => !q.IsEmpty? && t == Slot(s.cview.tailAt, s.n)
       case CAskHead(h) => h == Slot(pops, s.n)
  }

  ghost predicate Inv<T>(s: State<T>) {
    Counters(s) && Orders(s) && Slots(s) && ProducerAt(s) && ConsumerAt(s) && !s.undefined
  }

  lemma InitInv<T>(n: nat, zero: T)
    requires ValidCapacity(n)
    ensures Inv(Init(n, zero))
  {
  }

  // ----- Producer steps -----

  /** The fullness test compares masked indices; what it decides is the distance of the counters. */
  lemma FullTest<T>(s: State<T>, at: nat)
    requires Inv(s) && s.pview.headAt <= at < |s.head|
    ensures Succ(Slot(|s.tail| - 1, s.n), s.n) == Slot(|s.tail|, s.n)
    ensures Slot(|s.tail|, s.n) == s.head[at].index <==> |s.tail| - at == s.n
  {
    var p := |s.tail| - 1;
    SuccIsNext(Slot(p, s.n), s.n);
    SlotSucc(p, s.n);
    if p + 1 - at == s.n {
      SlotSame(at, s.n);
    } else {
      SlotApart(at, p + 1, s.n);
    }
  }

  /** An acquire load of the head moves exactly one counter of the producer's view. */
  lemma AcquireHead<T>(s: State<T>, at: nat)
    requires Inv(s) && s.pview.headAt <= at < |s.head|
    ensures Join(s.pview.(headAt := at), s.head[at]) == View(|s.tail| - 1, at, |s.tail| - 1, at)
  {
  }

  /** What a step of the producer that only loads leaves standing. */
  lemma ProducerLooks<T>(s: State<T>, at: nat, p: Producer<T>)
    requires Inv(s) && s.pview.headAt <= at < |s.head|
    ensures var r := s.(pview := View(|s.tail| - 1, at, |s.tail| - 1, at), prod := p);
            Counters(r) && Orders(r) && Slots(r) && ConsumerAt(r)
  {
  }

  lemma LoadTailForPushInv<T>(s: State<T>, item: T, at: nat)
    requires Inv(s) && s.prod.PIdle? && s.pview.tailAt <= at < |s.tail|
    ensures Inv(LoadTailForPush(s, item, at))
  {
    ProducerLooks(s, s.pview.headAt, PTail(item, s.tail[at].index));
  }

  lemma LoadHeadForPushInv<T>(s: State<T>, at: nat)
    requires Inv(s) && s.prod.PTail? && s.pview.headAt <= at < |s.head|
    ensures Inv(LoadHeadForPush(s, at))
  {
    FullTest(s, at);
    AcquireHead(s, at);
    ProducerLooks(s, at, LoadHeadForPush(s, at).prod);
  }

  /** The slot about to be written was last read in an epoch the producer has acquired. */
  lemma WriteIsOrdered<T>(s: State<T>)
    requires Inv(s) && s.prod.PRoom?
    ensures WriteOrdered(s, s.prod.t)
  {
    var p, i := |s.tail| - 1, s.prod.t;
    var r := s.lastRead[i];
    if r > s.pview.consClock {
      SlotApart(r - 1, p, s.n);
    }
  }

  lemma WriteSlotInv<T>(s: State<T>)
    requires Inv(s) && s.prod.PRoom?
    ensures Inv(WriteSlot(s))
  {
    WriteIsOrdered(s);
    var p := |s.tail| - 1;
    var r := WriteSlot(s);
    forall k | |s.head| - 1 <= k < p
      ensures r.buf[Slot(k, s.n)] == s.pushed[k] && r.lastWrite[Slot(k, s.n)] == k + 1
    {
      SlotApart(k, p, s.n);
      assert s.buf[Slot(k, s.n)] == s.pushed[k];
    }
    assert Slots(r);
  }

  lemma PublishTailInv<T>(s: State<T>)
    requires Inv(s) && s.prod.PStored?
    ensures Inv(PublishTail(s))
  {
    TailAdvances(s, Store(s.prod.next, |s.tail|, s.pview.consClock));
  }

  lemma TailAdvances<T>(s: State<T>, m: Store)
    requires Inv(s) && s.prod.PStored?
    requires m == Store(Slot(|s.tail|, s.n), |s.tail|, s.pview.consClock)
    ensures Inv(s.(tail := s.tail + [m], pview := s.pview.(tailAt := |s.tail|, prodClock := |s.tail|),
                   prod := PIdle, pushed := s.pushed + [s.prod.item]))
  {
    var s' := s.(tail := s.tail + [m], pview := s.pview.(tailAt := |s.tail|, prodClock := |s.tail|),
                 prod := PIdle, pushed := s.pushed + [s.prod.item]);
    assert s'.pushed[..|s.head| - 1] == s.pushed[..|s.head| - 1];
    assert Counters(s');
    TailOrders(s, s', m);
    TailSlots(s, s');
  }

  lemma TailOrders<T>(s: State<T>, s': State<T>, m: Store)
    requires Counters(s) && Orders(s) && Counters(s') && s'.n == s.n && s'.head == s.head && s'.tail == s.tail + [m]
    requires m == Store(Slot(|s.tail|, s.n), |s.tail|, s.pview.consClock)
    requires s'.pview.headAt == s.pview.headAt && s'.cview == s.cview
    ensures Orders(s')
  {
  }

  lemma TailSlots<T>(s: State<T>, s': State<T>)
    requires Counters(s) && Slots(s) && ProducerAt(s) && s.prod.PStored? && Counters(s')
    requires s'.n == s.n && s'.head == s.head && |s'.tail| == |s.tail| + 1 && s'.pushed == s.pushed + [s.prod.item]
    requires s'.buf == s.buf && s'.lastWrite == s.lastWrite && s'.lastRead == s.lastRead
    ensures Slots(s')
  {
  }

  /** A query of the producer: its own index is where it left it. */
  lemma ProducerLoadsInv<T>(s: State<T>, ofHead: bool, at: nat, to: Producer<T>)
    requires Inv(s)
    requires if ofHead then s.pview.headAt <= at < |s.head| else s.pview.tailAt <= at < |s.tail|
    requires to == PIdle || (ofHead && to == PAskHead(s.head[at].index)) ||
             (!ofHead && to.PAskTail? && !to.query.IsEmpty? && to.t == s.tail[at].index)
    ensures Inv(ProducerLoads(s, ofHead, at, to))
  {
    var a := if ofHead then at else s.pview.headAt;
    AcquireHead(s, a);
    ProducerLooks(s, a, to);
  }

  // ----- Consumer steps -----

  /** The emptiness test decides whether the acquired push count is ahead of the pops. */
  lemma EmptyTest<T>(s: State<T>, at: nat)
    requires Inv(s) && s.cview.tailAt <= at < |s.tail|
    ensures Slot(|s.head| - 1, s.n) == s.tail[at].index <==> |s.head| - 1 == at
  {
    if |s.head| - 1 < at {
      SlotApart(|s.head| - 1, at, s.n);
    }
  }

  /** An acquire load of the tail moves exactly one counter of the consumer's view. */
  lemma AcquireTail<T>(s: State<T>, at: nat)
    requires Inv(s) && s.cview.tailAt <= at < |s.tail|
    ensures Join(s.cview.(tailAt := at), s.tail[at]) == View(at, |s.head| - 1, at, |s.head| - 1)
  {
  }

  /** What a step of the consumer that only loads leaves standing. */
  lemma ConsumerLooks<T>(s: State<T>, at: nat, c: Consumer<T>, peeked: Option<nat>)
    requires Inv(s) && s.cview.tailAt <= at < |s.tail|
    ensures var r := s.(cview := View(at, |s.head| - 1, at, |s.head| - 1), cons := c, peeked := peeked);
            Counters(r) && Orders(r) && Slots(r) && ProducerAt(r)
  {
  }

  lemma LoadHeadForFrontInv<T>(s: State<T>, f: Front, at: nat)
    requires Inv(s) && s.cons.CIdle? && s.cview.headAt <= at < |s.head|
    ensures Inv(LoadHeadForFront(s, f, at))
  {
    ConsumerLooks(s, s.cview.tailAt, CHead(f, s.head[at].index), s.peeked);
  }

  lemma LoadTailForFrontInv<T>(s: State<T>, at: nat)
    requires Inv(s) && s.cons.CHead? && s.cview.tailAt <= at < |s.tail|
    ensures Inv(LoadTailForFront(s, at))
  {
    EmptyTest(s, at);
    AcquireTail(s, at);
    ConsumerLooks(s, at, LoadTailForFront(s, at).cons, LoadTailForFront(s, at).peeked);
  }

  /** The slot at the head was last written before a tail store the consumer has acquired. */
  lemma ReadIsOrdered<T>(s: State<T>)
    requires Inv(s) && |s.head| - 1 < s.cview.tailAt
    ensures ReadOrdered(s, Slot(|s.head| - 1, s.n))
    ensures s.buf[Slot(|s.head| - 1, s.n)] == s.pushed[|s.head| - 1]
  {
    var h := |s.head| - 1;
    assert s.pushed[h] == s.buf[Slot(h, s.n)] && s.lastWrite[Slot(h, s.n)] == h + 1;
  }

  lemma ReadSlotInv<T>(s: State<T>, to: Consumer<T>)
    requires Inv(s) && |s.head| - 1 < s.cview.tailAt
    requires to == CIdle || to == CTaken(s.pushed[|s.head| - 1], Slot(|s.head| - 1, s.n))
    ensures Inv(ReadSlot(s, Slot(|s.head| - 1, s.n), to))
  {
    ReadIsOrdered(s);
    var h, i := |s.head| - 1, Slot(|s.head| - 1, s.n);
    var r := ReadSlot(s, i, to);
    assert r == s.(lastRead := s.lastRead[i := h + 1], cons := to);
    assert Slots(r);
  }

  lemma PublishHeadInv<T>(s: State<T>)
    requires Inv(s) && s.cons.CTaken?
    ensures Inv(PublishHead(s))
  {
    var h := |s.head| - 1;
    assert Succ(s.cons.h, s.n) == Slot(h + 1, s.n) by {
      SuccIsNext(Slot(h, s.n), s.n);
      SlotSucc(h, s.n);
    }
    assert s.pushed[..h + 1] == s.pushed[..h] + [s.pushed[h]];
    var m := Store(Slot(h + 1, s.n), s.cview.prodClock, h + 1);
    HeadAdvances(s, m);
    assert PublishHead(s) == s.(head := s.head + [m], cview := s.cview.(headAt := |s.head|, consClock := |s.head|),
                                cons := CIdle, peeked := None, popped := s.pushed[..|s.head|]);
  }

  lemma HeadAdvances<T>(s: State<T>, m: Store)
    requires Inv(s) && |s.head| - 1 < s.cview.tailAt
    requires m == Store(Slot(|s.head|, s.n), s.cview.prodClock, |s.head|)
    ensures Inv(s.(head := s.head + [m], cview := s.cview.(headAt := |s.head|, consClock := |s.head|),
                   cons := CIdle, peeked := None, popped := s.pushed[..|s.head|]))
  {
  }

  /** A query of the consumer: its own index is where it left it. */
  lemma ConsumerLoadsInv<T>(s: State<T>, ofHead: bool, at: nat, to: Consumer<T>)
    requires Inv(s)
    requires if ofHead then s.cview.headAt <= at < |s.head| else s.cview.tailAt <= at < |s.tail|
    requires to == CIdle || (ofHead && to == CAskHead(s.head[at].index)) ||
             (!ofHead && to.CAskTail? && !to.query.IsEmpty? && to.t == s.tail[at].index)
    ensures Inv(ConsumerLoads(s, ofHead, at, to))
  {
    var a := if ofHead then s.cview.tailAt else at;
    AcquireTail(s, a);
    ConsumerLooks(s, a, to, s.peeked);
  }

  lemma StepInv<T>(s: State<T>, step: Step<T>)
    requires Inv(s) && Can(s, step)
    ensures Inv(Do(s, step))
  {
    match step
    case PushLoadTail(item, at) => LoadTailForPushInv(s, item, at);
    case PushLoadHead(at) => LoadHeadForPushInv(s, at);
    case PushWrite => WriteSlotInv(s);
    case PushPublish => PublishTailInv(s);
    case ProdAsk(q, at) =>
      if q.IsEmpty? {
        ProducerLoadsInv(s, true, at, PAskHead(s.head[at].index));
      } else {
        ProducerLoadsInv(s, false, at, PAskTail(q, s.tail[at].index));
      }
    case ProdAnswer(at) => ProducerLoadsInv(s, s.prod.PAskTail?, at, PIdle);
    case FrontLoadHead(f, at) => LoadHeadForFrontInv(s, f, at);
    case FrontLoadTail(at) => LoadTailForFrontInv(s, at);
    case PopRead(seen) =>
      ReadIsOrdered(s);
      ReadSlotInv(s, CTaken(seen, s.cons.h));
    case PopPublish => PublishHeadInv(s);
    case Deref(seen) => ReadSlotInv(s, CIdle);
    case ConsAsk(q, at) =>
      if q.IsEmpty? {
        ConsumerLoadsInv(s, true, at, CAskHead(s.head[at].index));
      } else {
        ConsumerLoadsInv(s, false, at, CAskTail(q, s.tail[at].index));
      }
    case ConsAnswer(at) => ConsumerLoadsInv(s, s.cons.CAskTail?, at, CIdle);
  }

  lemma {:induction false} RunInv<T>(s: State<T>, steps: seq<Step<T>>)
    requires Inv(s) && Runs(s, steps)
    ensures Inv(Exec(s, steps))
    decreases |steps|
  {
    if steps != [] {
      RunInv(s, steps[..|steps| - 1]);
      StepInv(Exec(s, steps[..|steps| - 1]), steps[|steps| - 1]);
    }
  }
}
