/** The libxdp rings the socket works through, as the bounded queues their interface promises.
    `offer` and `visible` stand for what the library sees of the other side's progress. */
module XskRings {
  import opened Frames

  /** Are n slots from base on written? */
  ghost predicate Ready<T>(slots: map<nat, T>, base: nat, n: nat) {
    forall k :: base <= k < base + n ==> k in slots
  }

  /** The contents of n written slots. */
  function Filled<T>(slots: map<nat, T>, base: nat, n: nat): (r: seq<T>)
    requires Ready(slots, base, n)
    ensures |r| == n && forall i :: 0 <= i < n ==> r[i] == slots[base + i]
  {
    seq(n, i requires 0 <= i < n => slots[base + i])
  }

  lemma FilledNext<T>(slots: map<nat, T>, base: nat, n: nat, v: T)
    requires Ready(slots, base, n)
    ensures Ready(slots[base + n := v], base, n + 1)
    ensures Filled(slots[base + n := v], base, n + 1) == Filled(slots, base, n) + [v]
  {
  }

  /** A ring user space produces into: reserve slots, fill them, submit. */
  class ProdRing<T> {
    const size: nat
    /** Entries submitted and not yet taken by the kernel. */
    var queue: seq<T>
    /** Index of the next slot to submit, and how many slots from there are reserved. */
    var base: nat
    var reserved: nat
    var slots: map<nat, T>

    ghost predicate Valid()
      reads this
    {
      |queue| + reserved <= size
    }

    constructor (size: nat)
      ensures Valid() && this.size == size && queue == [] && reserved == 0
    {
      this.size := size;
      queue, base, reserved, slots := [], 0, 0, map[];
    }

    method Reserve(n: nat, offer: nat) returns (granted: nat, idx: nat)
      requires Valid() && reserved == 0
      modifies this`reserved
      ensures Valid() && reserved == granted && idx == base
      ensures MayGrant(n, size - |queue|, granted)
    {
      var free := size - |queue|;
      granted := if n <= free then n else if offer <= free then offer else free;
      idx := base;
      reserved := granted;
    }

    method Set(idx: nat, v: T)
      requires base <= idx < base + reserved
      modifies this`slots
      ensures slots == old(slots)[idx := v]
    {
      slots := slots[idx := v];
    }

    method Submit(n: nat)
      requires Valid() && n == reserved && Ready(slots, base, n)
      modifies this
      ensures Valid() && reserved == 0 && base == old(base) + n
      ensures queue == old(queue) + Filled(old(slots), old(base), n)
    {
      queue := queue + Filled(slots, base, n);
      base, reserved := base + n, 0;
    }
  }

  /** A ring user space consumes from: peek, read the entries, release. */
  class ConsRing<T> {
    /** Entries the kernel submitted and user space has not released. */
    var queue: seq<T>
    var base: nat

    constructor ()
      ensures queue == []
    {
      queue, base := [], 0;
    }

    method Peek(n: nat, visible: nat) returns (k: nat, idx: nat)
      ensures k <= n && k <= |queue| && idx == base
    {
      k := if visible <= |queue| then visible else |queue|;
      k := if n < k then n else k;
      idx := base;
    }

    function At(idx: nat): (v: T)
      reads this
      requires base <= idx < base + |queue|
    {
      queue[idx - base]
    }

    method Release(k: nat)
      requires k <= |queue|
      modifies this
      ensures queue == old(queue)[k..] && base == old(base) + k
    {
      queue := queue[k..];
      base := base + k;
    }
  }
}
