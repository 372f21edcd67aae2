/** The single-producer single-consumer ring as one thread sees it: the array, the two
    indices and the operations of the class, proved against the queue they hold. */
module SpscRing {
  import opened Options
  import opened Words
  import opened RingIndex

  /** The slice the two indices delimit has the length the class computes with its mask,
      and the three state queries agree on it. */
  lemma LiveSize<T>(buf: seq<T>, head: nat, tail: nat)
    requires ValidCapacity(|buf|) && head < |buf| && tail < |buf|
    ensures |Live(buf, head, tail)| == Distance(tail, head, |buf|) <= |buf| - 1
    ensures Live(buf, head, tail) == [] <==> head == tail
    ensures |Live(buf, head, tail)| == |buf| - 1 <==> Succ(tail, |buf|) == head
  {
    DistanceIsSteps(tail, head, |buf|);
    SuccIsNext(tail, |buf|);
  }

  /** Writing the slot at the tail and stepping the tail appends one element. */
  lemma LivePush<T>(buf: seq<T>, head: nat, tail: nat, item: T)
    requires ValidCapacity(|buf|) && head < |buf| && tail < |buf|
    requires Succ(tail, |buf|) != head
    ensures Succ(tail, |buf|) < |buf|
    ensures Live(buf[tail := item], head, Succ(tail, |buf|)) == Live(buf, head, tail) + [item]
  {
    SuccIsNext(tail, |buf|);
    LiveBack(buf, head, tail, item);
  }

  lemma LiveBack<T>(buf: seq<T>, head: nat, tail: nat, item: T)
    requires head < |buf| && tail < |buf| && head != if tail + 1 == |buf| then 0 else tail + 1
    ensures Live(buf[tail := item], head, if tail + 1 == |buf| then 0 else tail + 1) == Live(buf, head, tail) + [item]
  {
  }

  /** Stepping the head drops the first element, which is the one under the head. */
  lemma LivePop<T>(buf: seq<T>, head: nat, tail: nat)
    requires ValidCapacity(|buf|) && head < |buf| && tail < |buf|
    requires head != tail
    ensures Succ(head, |buf|) < |buf|
    ensures Live(buf, head, tail) == [buf[head]] + Live(buf, Succ(head, |buf|), tail)
  {
    SuccIsNext(head, |buf|);
    LiveFront(buf, head, tail);
  }

  lemma LiveFront<T>(buf: seq<T>, head: nat, tail: nat)
    requires head < |buf| && tail < |buf| && head != tail
    ensures Live(buf, head, tail) == [buf[head]] + Live(buf, if head + 1 == |buf| then 0 else head + 1, tail)
  {
  }

  class SpscRingBuffer<T(0)> {
    const n: nat
    const buf: array<T>
    var tail: nat
    var head: nat

    ghost predicate Valid()
      reads this
    {
      ValidCapacity(n) && buf.Length == n && tail < n && head < n
    }

    /** The queue held, oldest first. */
    ghost function Contents(): (q: seq<T>)
      reads this, buf
      requires Valid()
    {
      Live(buf[..], head, tail)
    }

    constructor (n: nat)
      requires ValidCapacity(n)
      ensures Valid() && this.n == n && fresh(buf)
      ensures Contents() == []
    {
      this.n := n;
      buf := new T[n];
      tail, head := 0, 0;
    }

    /** Enqueue, or report that N - 1 elements are held already. */
    method Push(item: T) returns (ok: bool)
      requires Valid()
      modifies this`tail, buf
      ensures Valid()
      ensures ok <==> |old(Contents())| < n - 1
      ensures Contents() == if ok then old(Contents()) + [item] else old(Contents())
    {
      LiveSize(buf[..], head, tail);
      var t := tail;
      var next := Succ(t, n);
      if next == head {
        return false;
      }
      LivePush(buf[..], head, t, item);
      ghost var was := buf[..];
      buf[t] := item;
      assert buf[..] == was[t := item];
      tail := next;
      return true;
    }

    /** Dequeue the oldest element, or report that there is none. */
    method Pop() returns (r: Option<T>)
      requires Valid()
      modifies this`head
      ensures Valid()
      ensures r.None? <==> old(Contents()) == []
      ensures r.Some? ==> old(Contents()) == [r.value] + Contents()
      ensures r.None? ==> Contents() == old(Contents())
    {
      LiveSize(buf[..], head, tail);
      var h := head;
      if h == tail {
        return None;
      }
      LivePop(buf[..], h, tail);
      var item := buf[h];
      head := Succ(h, n);
      return Some(item);
    }

    /** The element the next Pop will return, left in place. */
    method Peek() returns (r: Option<T>)
      requires Valid()
      ensures r == if Contents() == [] then None else Some(Contents()[0])
    {
      LiveSize(buf[..], head, tail);
      if head == tail {
        return None;
      }
      LivePop(buf[..], head, tail);
      return Some(buf[head]);
    }

    method Empty() returns (r: bool)
      requires Valid()
      ensures r <==> Contents() == []
    {
      LiveSize(buf[..], head, tail);
      r := head == tail;
    }

    method Full() returns (r: bool)
      requires Valid()
      ensures r <==> |Contents()| == n - 1
    {
      LiveSize(buf[..], head, tail);
      r := Succ(tail, n) == head;
    }

    method Size() returns (r: nat)
      requires Valid()
      ensures r == |Contents()| <= n - 1
    {
      LiveSize(buf[..], head, tail);
      r := Distance(tail, head, n);
    }
  }
}
