/** The promises of the ring, for every interleaving of its accesses. */
module SpscTheorems {
  import opened Options
  import opened RingIndex
  import opened SpscProtocol
  import opened SpscSafety

  /** The index values stored last. */
  function TailIndex<T>(s: State<T>): (r: nat) {
    if s.tail == [] then 0 else s.tail[|s.tail| - 1].index
  }

  function HeadIndex<T>(s: State<T>): (r: nat) {
    if s.head == [] then 0 else s.head[|s.head| - 1].index
  }

  /** The queue the shared memory holds: the slots from the head index to the tail index. */
  function Queue<T>(s: State<T>): (r: seq<T>)
    requires HeadIndex(s) < |s.buf| && TailIndex(s) < |s.buf|
  {
    Live(s.buf, HeadIndex(s), TailIndex(s))
  }

  /** The slots between the concrete indices are the items pushed and not yet popped. */
  lemma QueueIsUnread<T>(s: State<T>)
    requires Inv(s)
    ensures HeadIndex(s) < |s.buf| && TailIndex(s) < |s.buf|
    ensures Queue(s) == s.pushed[|s.popped|..]
    ensures |Queue(s)| == Distance(TailIndex(s), HeadIndex(s), s.n) <= s.n - 1
  {
    var h, p := |s.head| - 1, |s.tail| - 1;
    IndexQueries(p, h, s.n);
    LiveIsRange(s.buf, h, p);
    var q := Queue(s);
    forall i | 0 <= i < |q|
      ensures q[i] == s.pushed[h + i]
    {
      assert q[i] == s.buf[Slot(h + i, s.n)];
    }
  }

  /** Live, through the slots of counters less than a lap apart. */
  lemma LiveIsRange<T>(buf: seq<T>, h: nat, p: nat)
    requires |buf| >= 2 && h <= p < h + |buf|
    ensures var q := Live(buf, Slot(h, |buf|), Slot(p, |buf|));
            |q| == p - h && forall i :: 0 <= i < p - h ==> q[i] == buf[Slot(h + i, |buf|)]
  {
    SlotLap(h, p, |buf|);
    var q := Live(buf, Slot(h, |buf|), Slot(p, |buf|));
    forall i | 0 <= i < p - h
      ensures q[i] == buf[Slot(h + i, |buf|)]
    {
      SlotLap(h, h + i, |buf|);
    }
  }

  lemma {:induction false} HistoryIsOutcomes<T>(s: State<T>, steps: seq<Step<T>>)
    requires Runs(s, steps) && s.pushed == [] && s.popped == []
    ensures Exec(s, steps).pushed == Accepted(Outs(s, steps))
    ensures Exec(s, steps).popped == Returned(Outs(s, steps))
    decreases |steps|
  {
    if steps != [] {
      var before, step := steps[..|steps| - 1], steps[|steps| - 1];
      HistoryIsOutcomes(s, before);
      HistoryStep(Exec(s, before), step);
      var outs := Outs(s, steps);
      assert outs[..|outs| - 1] == Outs(s, before);
    }
  }

  lemma HistoryStep<T>(s: State<T>, step: Step<T>)
    requires Can(s, step)
    ensures Do(s, step).pushed == s.pushed + (if Out(s, step).PushTrue? then [Out(s, step).item] else [])
    ensures Do(s, step).popped == s.popped + (if Out(s, step).PopSome? then [Out(s, step).item] else [])
  {
  }

  lemma ReachableInv<T>(n: nat, zero: T, steps: seq<Step<T>>)
    requires ValidCapacity(n) && Runs(Init(n, zero), steps)
    ensures Inv(Exec(Init(n, zero), steps))
  {
    InitInv(n, zero);
    RunInv(Init(n, zero), steps);
  }

  /** In every run, what pop returned followed by what the ring holds is what push accepted, in
      order: nothing is lost, duplicated, reordered or invented. */
  lemma FifoInEveryRun<T>(n: nat, zero: T, steps: seq<Step<T>>)
    requires ValidCapacity(n) && Runs(Init(n, zero), steps)
    ensures var s, outs := Exec(Init(n, zero), steps), Outs(Init(n, zero), steps);
            && HeadIndex(s) < |s.buf| && TailIndex(s) < |s.buf|
            && Accepted(outs) == Returned(outs) + Queue(s)
            && |Queue(s)| == Distance(TailIndex(s), HeadIndex(s), n) <= n - 1
  {
    var s := Exec(Init(n, zero), steps);
    assert Inv(s) by { ReachableInv(n, zero, steps); }
    assert s.n == n by { CapacityKept(Init(n, zero), steps); }
    HistoryIsOutcomes(Init(n, zero), steps);
    QueueIsUnread(s);
    Split(s.pushed, |s.head| - 1);
  }

  lemma Split<T>(q: seq<T>, k: nat)
    requires k <= |q|
    ensures q == q[..k] + q[k..]
  {
  }

  lemma {:induction false} CapacityKept<T>(s: State<T>, steps: seq<Step<T>>)
    requires Runs(s, steps)
    ensures Exec(s, steps).n == s.n
    decreases |steps|
  {
    if steps != [] {
      CapacityKept(s, steps[..|steps| - 1]);
      var t, step := Exec(s, steps[..|steps| - 1]), steps[|steps| - 1];
      assert Do(t, step).n == t.n;
    }
  }

  /** No run reaches undefined behaviour: no slot access races and none leaves the array. In
      particular the slot being written is never the one being read or held by a peek pointer,
      and the item it held before was popped under a head store the producer has acquired. */
  lemma NoUndefinedBehaviour<T>(n: nat, zero: T, steps: seq<Step<T>>)
    requires ValidCapacity(n) && Runs(Init(n, zero), steps)
    ensures var s := Exec(Init(n, zero), steps);
            && !s.undefined
            && (s.prod.PRoom? && s.cons.CItem? ==> s.prod.t != s.cons.h)
            && (s.prod.PRoom? && s.peeked.Some? ==> s.prod.t != s.peeked.value)
            && (s.prod.PRoom? && |s.pushed| >= n ==>
                  && |s.pushed| - n < s.pview.headAt < |s.head|
                  && s.head[s.pview.headAt].consClock == s.pview.consClock > |s.pushed| - n)
  {
    var s := Exec(Init(n, zero), steps);
    assert Inv(s) by { ReachableInv(n, zero, steps); }
    assert s.n == n by { CapacityKept(Init(n, zero), steps); }
    NoConflict(s);
  }

  lemma NoConflict<T>(s: State<T>)
    requires Inv(s)
    ensures s.prod.PRoom? && s.cons.CItem? ==> s.prod.t != s.cons.h
    ensures s.prod.PRoom? && s.peeked.Some? ==> s.prod.t != s.peeked.value
  {
    if s.prod.PRoom? && |s.head| < |s.tail| {
      SlotApart(|s.head| - 1, |s.tail| - 1, s.n);
    }
  }

  /** One step of an unsynchronised queue that returns the given outcome. */
  ghost predicate QueueStep<T>(before: seq<T>, after: seq<T>, out: Outcome<T>) {
    match out
    case PushTrue(item) => after == before + [item]
    case PopSome(item) => before == [item] + after
    case Pointee(item) => after == before && before != [] && item == before[0]
    case _ => after == before
  }

  /** Every access of the ring is a step of a plain queue: a successful push appends, a
      successful pop takes the front, a peek pointer shows the front, the rest change nothing. */
  lemma StepRefinesQueue<T>(s: State<T>, step: Step<T>)
    requires Inv(s) && Can(s, step)
    ensures HeadIndex(s) < |s.buf| && TailIndex(s) < |s.buf|
    ensures HeadIndex(Do(s, step)) < |Do(s, step).buf| && TailIndex(Do(s, step)) < |Do(s, step).buf|
    ensures QueueStep(Queue(s), Queue(Do(s, step)), Out(s, step))
  {
    var r := Do(s, step);
    assert Inv(r) by { StepInv(s, step); }
    QueueIsUnread(s);
    QueueIsUnread(r);
    assert QueueStep(Unread(s), Unread(r), Out(s, step)) by { StepUnread(s, step); }
    assert Queue(s) == Unread(s) && Queue(r) == Unread(r);
  }

  /** The items accepted and not yet returned. */
  ghost function Unread<T>(s: State<T>): (r: seq<T>)
    requires Inv(s)
  {
    s.pushed[|s.popped|..]
  }

  lemma StepUnread<T>(s: State<T>, step: Step<T>)
    requires Inv(s) && Can(s, step) && Inv(Do(s, step))
    ensures QueueStep(Unread(s), Unread(Do(s, step)), Out(s, step))
  {
    var r := Do(s, step);
    var k := |s.popped|;
    if step.PushPublish? {
      assert r.popped == s.popped && r.pushed == s.pushed + [s.prod.item];
      assert r.pushed[k..] == s.pushed[k..] + [s.prod.item];
    } else if step.PopPublish? {
      assert r.pushed == s.pushed && |r.popped| == k + 1;
      assert s.pushed[k..] == [s.pushed[k]] + s.pushed[k + 1..];
    } else {
      QuietUnread(s, step);
    }
  }

  lemma QuietUnread<T>(s: State<T>, step: Step<T>)
    requires Inv(s) && Can(s, step) && Inv(Do(s, step)) && !step.PushPublish? && !step.PopPublish?
    ensures QueueStep(Unread(s), Unread(Do(s, step)), Out(s, step))
  {
    HistoryStep(s, step);
    if step.Deref? {
      PointeeIsFront(s, step.seen);
    }
  }

  /** The pointer peek handed out shows the item the next pop returns, until that pop. */
  lemma PointeeIsFront<T>(s: State<T>, seen: T)
    requires Inv(s) && Can(s, Deref(seen))
    ensures Unread(s) != [] && seen == Unread(s)[0]
  {
    ReadIsOrdered(s);
  }

  /** A push is refused exactly when N - 1 items are unread as of the head it acquired. */
  lemma Refused<T>(s: State<T>, at: nat)
    requires Inv(s) && Can(s, PushLoadHead(at))
    ensures Do(s, PushLoadHead(at)).pview.headAt == at
    ensures Out(s, PushLoadHead(at)).PushFalse? <==> |s.pushed| - at == s.n - 1
  {
    FullTest(s, at);
  }

  /** A pop or peek comes back empty exactly when nothing is unread as of the tail it acquired. */
  lemma NothingSeen<T>(s: State<T>, at: nat)
    requires Inv(s) && Can(s, FrontLoadTail(at))
    ensures Do(s, FrontLoadTail(at)).cview.tailAt == at
    ensures Out(s, FrontLoadTail(at)).PopNone? || Out(s, FrontLoadTail(at)).PeekNull? <==> at == |s.popped|
  {
    EmptyTest(s, at);
  }

  // ----- What a query tells the thread that asked -----

  ghost predicate RoomKnown<T>(s: State<T>) {
    |s.tail| <= s.pview.headAt + s.n - 1
  }

  ghost predicate ItemKnown<T>(s: State<T>) {
    |s.head| - 1 < s.cview.tailAt
  }

  predicate EndsNoPush<T>(step: Step<T>) {
    !step.PushLoadHead? && !step.PushPublish?
  }

  predicate EndsNoFront<T>(step: Step<T>) {
    !step.FrontLoadTail? && !step.PopPublish?
  }

  /** The answer the producer computes, as a fact about the counters. */
  lemma ProducerAnswer<T>(s: State<T>, at: nat)
    requires Inv(s) && Can(s, ProdAnswer(at))
    ensures var o := Out(s, ProdAnswer(at));
            var a := if s.prod.PAskTail? then at else s.pview.headAt;
            o.Answer? && 0 <= |s.pushed| - a <= s.n - 1 && o.value == Truth(o.query, |s.pushed| - a, s.n)
  {
    var a := if s.prod.PAskTail? then at else s.pview.headAt;
    var p := |s.tail| - 1;
    assert s.head[a].index == Slot(a, s.n);
    QueryAnswers(if s.prod.PAskTail? then s.prod.query else IsEmpty, p, a, s.n);
  }

  lemma ConsumerAnswer<T>(s: State<T>, at: nat)
    requires Inv(s) && Can(s, ConsAnswer(at))
    ensures var o := Out(s, ConsAnswer(at));
            var a := if s.cons.CAskTail? then s.cview.tailAt else at;
            o.Answer? && 0 <= a - |s.popped| <= s.n - 1 && o.value == Truth(o.query, a - |s.popped|, s.n)
  {
    var a := if s.cons.CAskTail? then s.cview.tailAt else at;
    var h := |s.head| - 1;
    assert s.tail[a].index == Slot(a, s.n);
    QueryAnswers(if s.cons.CAskTail? then s.cons.query else IsEmpty, a, h, s.n);
  }

  lemma QueryAnswers(q: Query, t: nat, h: nat, n: nat)
    requires ValidCapacity(n) && h <= t <= h + n - 1
    ensures QueryValue(q, Slot(t, n), Slot(h, n), n) == Truth(q, t - h, n)
  {
    IndexQueries(t, h, n);
  }

  /** What a query means when the ring holds the given number of items. */
  function Truth(q: Query, held: nat, n: nat): (r: nat) {
    match q
    case IsEmpty => if held == 0 then 1 else 0
    case IsFull => if held + 1 == n then 1 else 0
    case Size => held
  }

  /** The three masked tests, applied to the slots of counters less than a lap apart. */
  lemma IndexQueries(t: nat, h: nat, n: nat)
    requires ValidCapacity(n) && h <= t <= h + n - 1
    ensures Distance(Slot(t, n), Slot(h, n), n) == t - h
    ensures Succ(Slot(t, n), n) == Slot(h, n) <==> t - h == n - 1
    ensures Slot(t, n) == Slot(h, n) <==> t == h
  {
    SlotLap(h, t, n);
    DistanceIsSteps(Slot(t, n), Slot(h, n), n);
    SuccIsNext(Slot(t, n), n);
  }

  /** In every run a query errs on the safe side for the thread that asks. For the producer,
      size never underestimates, "not full" means there is room and "empty" means empty. */
  lemma ProducerQueriesAreSafe<T>(n: nat, zero: T, steps: seq<Step<T>>, at: nat)
    requires ValidCapacity(n) && Runs(Init(n, zero), steps)
    requires Can(Exec(Init(n, zero), steps), ProdAnswer(at))
    ensures var s := Exec(Init(n, zero), steps);
            var o, held := Out(s, ProdAnswer(at)), |s.pushed| - |s.popped|;
            match o.query
            case Size => held <= o.value <= n - 1
            case IsFull => o.value == 0 ==> held < n - 1
            case IsEmpty => o.value == 1 ==> held == 0
  {
    var s := Exec(Init(n, zero), steps);
    assert Inv(s) by { ReachableInv(n, zero, steps); }
    assert s.n == n by { CapacityKept(Init(n, zero), steps); }
    ProducerAnswer(s, at);
  }

  /** For the consumer, size never overestimates, "not empty" means there is an item and
      "full" means full. */
  lemma ConsumerQueriesAreSafe<T>(n: nat, zero: T, steps: seq<Step<T>>, at: nat)
    requires ValidCapacity(n) && Runs(Init(n, zero), steps)
    requires Can(Exec(Init(n, zero), steps), ConsAnswer(at))
    ensures var s := Exec(Init(n, zero), steps);
            var o, held := Out(s, ConsAnswer(at)), |s.pushed| - |s.popped|;
            match o.query
            case Size => o.value <= held <= n - 1
            case IsFull => o.value == 1 ==> held == n - 1
            case IsEmpty => o.value == 0 ==> held > 0
  {
    var s := Exec(Init(n, zero), steps);
    assert Inv(s) by { ReachableInv(n, zero, steps); }
    assert s.n == n by { CapacityKept(Init(n, zero), steps); }
    ConsumerAnswer(s, at);
  }

  lemma {:induction false} RoomLasts<T>(s: State<T>, mid: seq<Step<T>>)
    requires Inv(s) && RoomKnown(s) && Runs(s, mid)
    requires forall i :: 0 <= i < |mid| ==> EndsNoPush(mid[i])
    ensures Inv(Exec(s, mid)) && RoomKnown(Exec(s, mid))
    decreases |mid|
  {
    if mid != [] {
      var t, step := Exec(s, mid[..|mid| - 1]), mid[|mid| - 1];
      RoomLasts(s, mid[..|mid| - 1]);
      assert EndsNoPush(step);
      RoomStep(t, step);
      assert Inv(Do(t, step)) by { StepInv(t, step); }
    }
  }

  lemma RoomStep<T>(s: State<T>, step: Step<T>)
    requires RoomKnown(s) && Can(s, step) && EndsNoPush(step)
    ensures RoomKnown(Do(s, step))
  {
  }

  lemma ItemStep<T>(s: State<T>, step: Step<T>)
    requires ItemKnown(s) && Can(s, step) && EndsNoFront(step)
    ensures ItemKnown(Do(s, step))
  {
  }

  lemma RoomMeansPass<T>(s: State<T>, at: nat)
    requires Inv(s) && RoomKnown(s) && Can(s, PushLoadHead(at))
    ensures Out(s, PushLoadHead(at)).Running? && Do(s, PushLoadHead(at)).prod.PRoom?
  {
    FullTest(s, at);
  }

  lemma {:induction false} ItemLasts<T>(s: State<T>, mid: seq<Step<T>>)
    requires Inv(s) && ItemKnown(s) && Runs(s, mid)
    requires forall i :: 0 <= i < |mid| ==> EndsNoFront(mid[i])
    ensures Inv(Exec(s, mid)) && ItemKnown(Exec(s, mid))
    decreases |mid|
  {
    if mid != [] {
      var t, step := Exec(s, mid[..|mid| - 1]), mid[|mid| - 1];
      ItemLasts(s, mid[..|mid| - 1]);
      assert EndsNoFront(step);
      ItemStep(t, step);
      assert Inv(Do(t, step)) by { StepInv(t, step); }
    }
  }

  /** After full() answers false in the producer, its next push passes the fullness test,
      whatever either thread does in between. */
  lemma NotFullThenPushSucceeds<T>(n: nat, zero: T, before: seq<Step<T>>, at: nat, mid: seq<Step<T>>, at': nat)
    requires ValidCapacity(n) && Runs(Init(n, zero), before)
    requires Can(Exec(Init(n, zero), before), ProdAnswer(at))
    requires Out(Exec(Init(n, zero), before), ProdAnswer(at)) == Answer(IsFull, 0)
    requires var s := Do(Exec(Init(n, zero), before), ProdAnswer(at));
             && Runs(s, mid) && (forall i :: 0 <= i < |mid| ==> EndsNoPush(mid[i]))
             && Can(Exec(s, mid), PushLoadHead(at'))
    ensures var s := Exec(Do(Exec(Init(n, zero), before), ProdAnswer(at)), mid);
            Out(s, PushLoadHead(at')).Running? && Do(s, PushLoadHead(at')).prod.PRoom?
  {
    var s0 := Exec(Init(n, zero), before);
    assert Inv(s0) by { ReachableInv(n, zero, before); }
    ProducerAnswer(s0, at);
    StepInv(s0, ProdAnswer(at));
    var s1 := Do(s0, ProdAnswer(at));
    RoomLasts(s1, mid);
    RoomMeansPass(Exec(s1, mid), at');
  }

  /** After empty() answers false in the consumer, its next pop or peek finds an item. */
  lemma NotEmptyThenPopSucceeds<T>(n: nat, zero: T, before: seq<Step<T>>, at: nat, mid: seq<Step<T>>, at': nat)
    requires ValidCapacity(n) && Runs(Init(n, zero), before)
    requires Can(Exec(Init(n, zero), before), ConsAnswer(at))
    requires Out(Exec(Init(n, zero), before), ConsAnswer(at)) == Answer(IsEmpty, 0)
    requires var s := Do(Exec(Init(n, zero), before), ConsAnswer(at));
             && Runs(s, mid) && (forall i :: 0 <= i < |mid| ==> EndsNoFront(mid[i]))
             && Can(Exec(s, mid), FrontLoadTail(at'))
    ensures var s := Exec(Do(Exec(Init(n, zero), before), ConsAnswer(at)), mid);
            !Out(s, FrontLoadTail(at')).PopNone? && !Out(s, FrontLoadTail(at')).PeekNull?
  {
    var s0 := Exec(Init(n, zero), before);
    assert Inv(s0) by { ReachableInv(n, zero, before); }
    ConsumerAnswer(s0, at);
    StepInv(s0, ConsAnswer(at));
    var s1 := Do(s0, ConsAnswer(at));
    ItemLasts(s1, mid);
    NothingSeen(Exec(s1, mid), at');
  }
}
