/** The ring shared by one producer and one consumer thread, as a machine whose steps are the
    single memory accesses of the header.

    The memory is the release/acquire fragment the header relies on. Each index is a sequence
    of stores in modification order. A load returns any store not older than the last one the
    thread has read or written there. A release store carries the clocks of everything that
    happened before it and an acquire load joins them into the reader's view. Array slots are
    plain memory: an access not ordered after every conflicting access is a data race, which is
    undefined behaviour, and so is an access outside the array. */
module SpscProtocol {
  import opened Options
  import opened RingIndex

  /** One store to an index: the value, and how far each thread's past is visible through it. */
  datatype Store = Store(index: nat, prodClock: nat, consClock: nat)

  /** What a thread has seen: its place in either modification order, and the accesses of
      either thread (counted in release epochs) that happen before its next step. */
  datatype View = View(tailAt: nat, headAt: nat, prodClock: nat, consClock: nat)

  datatype Query = IsEmpty | IsFull | Size

  /** Where the producer is: between calls, or after some accesses of a call. */
  datatype Producer<T> =
    | PIdle
    | PTail(item: T, t: nat)
    | PRoom(item: T, t: nat, next: nat)
    | PStored(item: T, next: nat)
    | PAskTail(query: Query, t: nat)
    | PAskHead(h: nat)

  datatype Front = Pop | Peek

  datatype Consumer<T> =
    | CIdle
    | CHead(front: Front, h: nat)
    | CItem(h: nat)
    | CTaken(item: T, h: nat)
    | CAskTail(query: Query, t: nat)
    | CAskHead(h: nat)

  /** The shared state. `lastWrite` and `lastRead` date the last access to every slot (0 if none,
      otherwise one more than the epoch it was made in); `peeked` is the slot a pointer handed
      out by peek() still refers to. */
  datatype State<T> = State(
    n: nat,
    buf: seq<T>,
    tail: seq<Store>,
    head: seq<Store>,
    lastWrite: seq<nat>,
    lastRead: seq<nat>,
    prod: Producer<T>,
    pview: View,
    cons: Consumer<T>,
    cview: View,
    peeked: Option<nat>,
    undefined: bool,
    pushed: seq<T>,
    popped: seq<T>)

  /** The accesses. `at` is the store a load returns; `seen` is the value a slot read returns. */
  datatype Step<T> =
    | PushLoadTail(item: T, at: nat)
    | PushLoadHead(at: nat)
    | PushWrite
    | PushPublish
    | ProdAsk(query: Query, at: nat)
    | ProdAnswer(at: nat)
    | FrontLoadHead(front: Front, at: nat)
    | FrontLoadTail(at: nat)
    | PopRead(seen: T)
    | PopPublish
    | Deref(seen: T)
    | ConsAsk(query: Query, at: nat)
    | ConsAnswer(at: nat)

  /** What a step returns to the caller of the operation it ends. */
  datatype Outcome<T> =
    | Running
    | PushTrue(item: T)
    | PushFalse(item: T)
    | PopSome(item: T)
    | PopNone
    | PeekPointer
    | PeekNull
    | Pointee(item: T)
    | Answer(query: Query, value: nat)

  function Init<T>(n: nat, zero: T): (s: State<T>)
    requires ValidCapacity(n)
  {
    State(n, seq(n, _ => zero), [Store(0, 0, 0)], [Store(0, 0, 0)], seq(n, _ => 0), seq(n, _ => 0),
          PIdle, View(0, 0, 0, 0), CIdle, View(0, 0, 0, 0), None, false, [], [])
  }

  // ----- Memory accesses -----

  function Max(a: nat, b: nat): (r: nat) {
    if a < b then b else a
  }

  /** An acquire load that reads m: the loader's view now covers m's past. */
  function Join(v: View, m: Store): (r: View) {
    v.(prodClock := Max(v.prodClock, m.prodClock), consClock := Max(v.consClock, m.consClock))
  }

  /** Is a read of slot i by the consumer ordered after every write to it? */
  predicate ReadOrdered<T>(s: State<T>, i: nat) {
    i < |s.buf| && i < |s.lastWrite| && s.lastWrite[i] <= s.cview.prodClock
  }

  /** Is a write of slot i by the producer ordered after every read of it? */
  predicate WriteOrdered<T>(s: State<T>, i: nat) {
    i < |s.buf| && i < |s.lastRead| && s.lastRead[i] <= s.pview.consClock
  }

  function Stamp(dates: seq<nat>, i: nat, epoch: nat): (r: seq<nat>) {
    if i < |dates| then dates[i := epoch + 1] else dates
  }

  /** A load may return any store from the thread's own place in the order onwards. */
  predicate Visible(order: seq<Store>, place: nat, at: nat) {
    place <= at < |order|
  }

  /** The value a state query computes from the two indices it loaded. */
  function QueryValue(q: Query, t: nat, h: nat, n: nat): (r: nat)
    requires n >= 1
  {
    match q
    case IsEmpty => if h == t then 1 else 0
    case IsFull => if Succ(t, n) == h then 1 else 0
    case Size => Distance(t, h, n)
  }

  // ----- Steps -----

  predicate Can<T(==)>(s: State<T>, step: Step<T>) {
    s.n >= 1 &&
    match step
    case PushLoadTail(_, at) => s.prod.PIdle? && Visible(s.tail, s.pview.tailAt, at)
    case PushLoadHead(at) => s.prod.PTail? && Visible(s.head, s.pview.headAt, at)
    case PushWrite => s.prod.PRoom?
    case PushPublish => s.prod.PStored?
    case ProdAsk(q, at) =>
      && s.prod.PIdle?
      && (if q.IsEmpty? then Visible(s.head, s.pview.headAt, at) else Visible(s.tail, s.pview.tailAt, at))
    case ProdAnswer(at) =>
      || (s.prod.PAskTail? && Visible(s.head, s.pview.headAt, at))
      || (s.prod.PAskHead? && Visible(s.tail, s.pview.tailAt, at))
    case FrontLoadHead(_, at) => s.cons.CIdle? && Visible(s.head, s.cview.headAt, at)
    case FrontLoadTail(at) => s.cons.CHead? && Visible(s.tail, s.cview.tailAt, at)
    case PopRead(seen) => s.cons.CItem? && (ReadOrdered(s, s.cons.h) ==> seen == s.buf[s.cons.h])
    case PopPublish => s.cons.CTaken?
    case Deref(seen) =>
      s.cons.CIdle? && s.peeked.Some? && (ReadOrdered(s, s.peeked.value) ==> seen == s.buf[s.peeked.value])
    case ConsAsk(q, at) =>
      && s.cons.CIdle?
      && (if q.IsEmpty? then Visible(s.head, s.cview.headAt, at) else Visible(s.tail, s.cview.tailAt, at))
    case ConsAnswer(at) =>
      || (s.cons.CAskTail? && Visible(s.head, s.cview.headAt, at))
      || (s.cons.CAskHead? && Visible(s.tail, s.cview.tailAt, at))
  }

  // The state after each access.

  function LoadTailForPush<T>(s: State<T>, item: T, at: nat): (r: State<T>)
    requires at < |s.tail|
  {
    s.(prod := PTail(item, s.tail[at].index), pview := s.pview.(tailAt := at))
  }

  function LoadHeadForPush<T>(s: State<T>, at: nat): (r: State<T>)
    requires s.n >= 1 && s.prod.PTail? && at < |s.head|
  {
    var next := Succ(s.prod.t, s.n);
    s.(pview := Join(s.pview.(headAt := at), s.head[at]),
       prod := if next == s.head[at].index then PIdle else PRoom(s.prod.item, s.prod.t, next))
  }

  function WriteSlot<T>(s: State<T>): (r: State<T>)
    requires s.prod.PRoom?
  {
    var i := s.prod.t;
    s.(buf := if i < |s.buf| then s.buf[i := s.prod.item] else s.buf,
       lastWrite := Stamp(s.lastWrite, i, s.pview.prodClock),
       undefined := s.undefined || !WriteOrdered(s, i),
       prod := PStored(s.prod.item, s.prod.next))
  }

  function PublishTail<T>(s: State<T>): (r: State<T>)
    requires s.prod.PStored?
  {
    var clock := s.pview.prodClock + 1;
    s.(tail := s.tail + [Store(s.prod.next, clock, s.pview.consClock)],
       pview := s.pview.(tailAt := |s.tail|, prodClock := clock),
       prod := PIdle,
       pushed := s.pushed + [s.prod.item])
  }

  /** An acquire load by the producer inside a query, of the head if `ofHead`. */
  function ProducerLoads<T>(s: State<T>, ofHead: bool, at: nat, to: Producer<T>): (r: State<T>)
    requires at < if ofHead then |s.head| else |s.tail|
  {
    if ofHead then s.(prod := to, pview := Join(s.pview.(headAt := at), s.head[at]))
    else s.(prod := to, pview := Join(s.pview.(tailAt := at), s.tail[at]))
  }

  function LoadHeadForFront<T>(s: State<T>, front: Front, at: nat): (r: State<T>)
    requires at < |s.head|
  {
    s.(cons := CHead(front, s.head[at].index), cview := s.cview.(headAt := at))
  }

  function LoadTailForFront<T>(s: State<T>, at: nat): (r: State<T>)
    requires s.cons.CHead? && at < |s.tail|
  {
    var h := s.cons.h;
    var found := h != s.tail[at].index;
    s.(cview := Join(s.cview.(tailAt := at), s.tail[at]),
       cons := if found && s.cons.front.Pop? then CItem(h) else CIdle,
       peeked := if found && s.cons.front.Peek? then Some(h) else s.peeked)
  }

  function ReadSlot<T>(s: State<T>, i: nat, to: Consumer<T>): (r: State<T>) {
    s.(lastRead := Stamp(s.lastRead, i, s.cview.consClock),
       undefined := s.undefined || !ReadOrdered(s, i),
       cons := to)
  }

  function PublishHead<T>(s: State<T>): (r: State<T>)
    requires s.n >= 1 && s.cons.CTaken?
  {
    var clock := s.cview.consClock + 1;
    s.(head := s.head + [Store(Succ(s.cons.h, s.n), s.cview.prodClock, clock)],
       cview := s.cview.(headAt := |s.head|, consClock := clock),
       cons := CIdle,
       peeked := None,
       popped := s.popped + [s.cons.item])
  }

  /** An acquire load by the consumer inside a query, of the head if `ofHead`. */
  function ConsumerLoads<T>(s: State<T>, ofHead: bool, at: nat, to: Consumer<T>): (r: State<T>)
    requires at < if ofHead then |s.head| else |s.tail|
  {
    if ofHead then s.(cons := to, cview := Join(s.cview.(headAt := at), s.head[at]))
    else s.(cons := to, cview := Join(s.cview.(tailAt := at), s.tail[at]))
  }

  function Do<T>(s: State<T>, step: Step<T>): (r: State<T>)
    requires Can(s, step)
  {
    match step
    case PushLoadTail(item, at) => LoadTailForPush(s, item, at)
    case PushLoadHead(at) => LoadHeadForPush(s, at)
    case PushWrite => WriteSlot(s)
    case PushPublish => PublishTail(s)
    case ProdAsk(q, at) =>
      if q.IsEmpty? then ProducerLoads(s, true, at, PAskHead(s.head[at].index))
      else ProducerLoads(s, false, at, PAskTail(q, s.tail[at].index))
    case ProdAnswer(at) => ProducerLoads(s, s.prod.PAskTail?, at, PIdle)
    case FrontLoadHead(front, at) => LoadHeadForFront(s, front, at)
    case FrontLoadTail(at) => LoadTailForFront(s, at)
    case PopRead(seen) => ReadSlot(s, s.cons.h, CTaken(seen, s.cons.h))
    case PopPublish => PublishHead(s)
    case Deref(seen) => ReadSlot(s, s.peeked.value, CIdle)
    case ConsAsk(q, at) =>
      if q.IsEmpty? then ConsumerLoads(s, true, at, CAskHead(s.head[at].index))
      else ConsumerLoads(s, false, at, CAskTail(q, s.tail[at].index))
    case ConsAnswer(at) => ConsumerLoads(s, s.cons.CAskTail?, at, CIdle)
  }

  function Out<T>(s: State<T>, step: Step<T>): (r: Outcome<T>)
    requires Can(s, step)
  {
    match step
    case PushLoadHead(at) =>
      if Succ(s.prod.t, s.n) == s.head[at].index then PushFalse(s.prod.item) else Running
    case PushPublish => PushTrue(s.prod.item)
    case ProdAnswer(at) =>
      if s.prod.PAskTail? then Answer(s.prod.query, QueryValue(s.prod.query, s.prod.t, s.head[at].index, s.n))
      else Answer(IsEmpty, QueryValue(IsEmpty, s.tail[at].index, s.prod.h, s.n))
    case FrontLoadTail(at) =>
      if s.cons.h == s.tail[at].index then if s.cons.front.Pop? then PopNone else PeekNull
      else if s.cons.front.Pop? then Running else PeekPointer
    case PopPublish => PopSome(s.cons.item)
    case Deref(seen) => Pointee(seen)
    case ConsAnswer(at) =>
      if s.cons.CAskTail? then Answer(s.cons.query, QueryValue(s.cons.query, s.cons.t, s.head[at].index, s.n))
      else Answer(IsEmpty, QueryValue(IsEmpty, s.tail[at].index, s.cons.h, s.n))
    case _ => Running
  }

  // ----- Runs -----

  /** Every step of the list is possible when its turn comes. */
  predicate Runs<T(==)>(s: State<T>, steps: seq<Step<T>>)
    decreases |steps|, 0
  {
    steps != [] ==>
      && Runs(s, steps[..|steps| - 1])
      && Can(Exec(s, steps[..|steps| - 1]), steps[|steps| - 1])
  }

  function Exec<T>(s: State<T>, steps: seq<Step<T>>): (r: State<T>)
    requires Runs(s, steps)
    decreases |steps|, 1
  {
    if steps == [] then s else Do(Exec(s, steps[..|steps| - 1]), steps[|steps| - 1])
  }

  /** The outcomes a run returns, in order. */
  function Outs<T>(s: State<T>, steps: seq<Step<T>>): (r: seq<Outcome<T>>)
    requires Runs(s, steps)
    decreases |steps|
  {
    if steps == [] then []
    else Outs(s, steps[..|steps| - 1]) + [Out(Exec(s, steps[..|steps| - 1]), steps[|steps| - 1])]
  }

  /** The items whose push returned true. */
  function Accepted<T>(outs: seq<Outcome<T>>): (r: seq<T>) {
    if outs == [] then []
    else
      var o := outs[|outs| - 1];
      Accepted(outs[..|outs| - 1]) + if o.PushTrue? then [o.item] else []
  }

  /** The items pop returned. */
  function Returned<T>(outs: seq<Outcome<T>>): (r: seq<T>) {
    if outs == [] then []
    else
      var o := outs[|outs| - 1];
      Returned(outs[..|outs| - 1]) + if o.PopSome? then [o.item] else []
  }
}
