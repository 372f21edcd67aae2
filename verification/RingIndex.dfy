/** The optional result of a non-blocking operation. */
module Options {
  datatype Option<+T> = None | Some(value: T)
}

/** Index arithmetic of the ring: the masked 64-bit expressions of the header, and the
    unbounded counters they stand for. */
module RingIndex {
  import opened Words

  /** A capacity: a power of two, at least 2, that fits a word. */
  ghost predicate ValidCapacity(n: nat) {
    2 <= n < WORD && IsPow2(n)
  }

  /** `(i + 1U) & kMask` */
  function Succ(i: nat, n: nat): (r: nat)
    requires n >= 1
  {
    BitAnd(Wrap(i + 1), n - 1)
  }

  /** `(t - h + N) & kMask` */
  function Distance(t: nat, h: nat, n: nat): (r: nat)
    requires n >= 1
  {
    BitAnd(Wrap(Wrap(t - h) + n), n - 1)
  }

  /** The slot a counter falls on, by repeated subtraction of the capacity. */
  function Slot(k: nat, n: nat): (r: nat)
    requires n >= 1
    ensures r < n
    decreases k
  {
    if k < n then k else Slot(k - n, n)
  }

  /** The elements from index head up to index tail, going round the end of the array. */
  function Live<T>(buf: seq<T>, head: nat, tail: nat): (r: seq<T>)
    requires head < |buf| && tail < |buf|
  {
    if head <= tail then buf[head..tail] else buf[head..] + buf[..tail]
  }

  /** The compile-time conditions on N accept exactly the capacities. */
  lemma CapacityTest(n: nat)
    requires n < WORD
    ensures n >= 2 && BitAnd(n, n - 1) == 0 <==> ValidCapacity(n)
  {
    if n >= 2 {
      PowerOfTwoTest(n);
    }
  }

  /** The masked increment steps round the ring without overflowing a word. */
  lemma SuccIsNext(i: nat, n: nat)
    requires ValidCapacity(n) && i < n
    ensures Succ(i, n) == if i + 1 == n then 0 else i + 1
  {
    MaskIsModOf(Wrap(i + 1), n);
    if i + 1 == n {
      ModUnique(n, n, 1, 0);
    } else {
      ModUnique(i + 1, n, 0, i + 1);
    }
  }

  /** The masked difference is the number of steps from h to t, though t - h may wrap. */
  lemma DistanceIsSteps(t: nat, h: nat, n: nat)
    requires ValidCapacity(n) && t < n && h < n
    ensures Distance(t, h, n) == if h <= t then t - h else t + n - h
  {
    var x := Wrap(Wrap(t - h) + n);
    HalfWord(n);
    assert x == t - h + n;
    MaskIsModOf(x, n);
    if h <= t {
      ModUnique(x, n, 1, t - h);
    } else {
      ModUnique(x, n, 0, x);
    }
  }

  /** A power of two below 2^64 is at most 2^63, so two of them never overflow. */
  lemma HalfWord(n: nat)
    requires IsPow2(n) && n < WORD
    ensures 2 * n <= WORD
  {
    var k: nat :| n == Pow2(k);
    WordIsPow2();
    if k >= 64 {
      Pow2Monotone(64, k);
    } else {
      Pow2Monotone(k + 1, 64);
    }
  }

  lemma {:induction false} SlotIsMod(k: nat, n: nat)
    requires n >= 1
    ensures Slot(k, n) == k % n
    decreases k
  {
    if k < n {
      ModUnique(k, n, 0, k);
    } else {
      SlotIsMod(k - n, n);
      var q, r := (k - n) / n, (k - n) % n;
      assert k == n * (q + 1) + r;
      ModUnique(k, n, q + 1, r);
    }
  }

  lemma {:induction false} SlotSucc(k: nat, n: nat)
    requires n >= 2
    ensures Slot(k + 1, n) == if Slot(k, n) + 1 == n then 0 else Slot(k, n) + 1
    decreases k
  {
    if k >= n {
      SlotSucc(k - n, n);
    }
  }

  /** Two counters less than one lap apart, seen through their slots. */
  lemma {:induction false} SlotLap(a: nat, b: nat, n: nat)
    requires n >= 1 && a <= b < a + n
    ensures Slot(b, n) == if Slot(a, n) + (b - a) < n then Slot(a, n) + (b - a) else Slot(a, n) + (b - a) - n
    decreases a
  {
    if a >= n {
      SlotLap(a - n, b - n, n);
    }
  }

  /** Distinct counters less than one lap apart never share a slot. */
  lemma SlotApart(a: nat, b: nat, n: nat)
    requires n >= 1 && a < b < a + n
    ensures Slot(a, n) != Slot(b, n)
  {
    SlotLap(a, b, n);
  }

  lemma SlotSame(a: nat, n: nat)
    requires n >= 1
    ensures Slot(a + n, n) == Slot(a, n)
  {
  }
}
