/** Unsigned 64-bit machine words: wrap-around, bitwise AND and power-of-two masks.
    `size_t` values are modelled as naturals below WORD and every operation that can
    leave that range is wrapped explicitly. */
module Words {

  const WORD: nat := 0x1_0000_0000_0000_0000

  /** The value an unsigned 64-bit expression takes. */
  function Wrap(x: int): (r: nat)
    ensures r < WORD
    ensures 0 <= x < WORD ==> r == x
    ensures WORD <= x < 2 * WORD ==> r == x - WORD
    ensures 0 - WORD <= x < 0 ==> r == x + WORD
  {
    x % WORD
  }

  /** `~x` on a 64-bit word. */
  function Complement(x: nat): (r: nat)
    requires x < WORD
  {
    WORD - 1 - x
  }

  function Pow2(k: nat): (r: nat)
    ensures r >= 1
  {
    if k == 0 then 1 else 2 * Pow2(k - 1)
  }

  ghost predicate IsPow2(n: nat) {
    exists k: nat :: n == Pow2(k)
  }

  /** Bitwise AND, computed from the low bit up. */
  function BitAnd(a: nat, b: nat): (r: nat)
    ensures r <= a && r <= b
    decreases a
  {
    if a == 0 then 0
    else (if a % 2 == 1 && b % 2 == 1 then 1 else 0) + 2 * BitAnd(a / 2, b / 2)
  }

  /** Bit i of x. */
  predicate Bit(x: nat, i: nat) {
    if i == 0 then x % 2 == 1 else Bit(x / 2, i - 1)
  }

  /** BitAnd is the bitwise AND: a bit of the result is set exactly when it is set in both. */
  lemma {:induction false} BitAndBit(a: nat, b: nat, i: nat)
    ensures Bit(BitAnd(a, b), i) <==> Bit(a, i) && Bit(b, i)
    decreases i
  {
    if a == 0 {
      ZeroBit(i);
    } else if i > 0 {
      BitAndBit(a / 2, b / 2, i - 1);
    }
  }

  lemma {:induction false} ZeroBit(i: nat)
    ensures !Bit(0, i)
  {
    if i > 0 {
      ZeroBit(i - 1);
    }
  }

  lemma {:induction false} BitAndSelf(a: nat)
    ensures BitAnd(a, a) == a
  {
    if a > 0 {
      BitAndSelf(a / 2);
    }
  }

  /** Halving and remainders by a power of two. */
  lemma ModPow2Halves(x: nat, p: nat)
    requires p >= 1
    ensures x % (2 * p) == x % 2 + 2 * ((x / 2) % p)
  {
    var h := x / 2;
    var q, r := h / p, h % p;
    assert x == (2 * p) * q + (x % 2 + 2 * r);
    ModUnique(x, 2 * p, q, x % 2 + 2 * r);
  }

  lemma ModUnique(x: int, n: int, q: int, r: int)
    requires n > 0 && 0 <= r < n && x == n * q + r
    ensures x % n == r
  {
    var d := x / n - q;
    assert n * d == r - x % n;
    MulBounds(n, d);
  }

  lemma MulBounds(n: int, d: int)
    requires n > 0
    ensures d >= 1 ==> n * d >= n
    ensures d <= -1 ==> n * d <= 0 - n
  {
  }

  lemma MulLess(i: nat, n: nat, k: nat)
    requires i < n
    ensures i * k + k <= n * k
  {
    assert (n - i - 1) * k >= 0;
    assert n * k == i * k + k + (n - i - 1) * k;
  }

  /** The mask idiom: `x & (2^k - 1)` is `x mod 2^k`. */
  lemma {:induction false} MaskIsMod(x: nat, k: nat)
    ensures BitAnd(x, Pow2(k) - 1) == x % Pow2(k)
    decreases k
  {
    if k > 0 {
      var p := Pow2(k - 1);
      assert BitAnd(x / 2, p - 1) == (x / 2) % p by { MaskIsMod(x / 2, k - 1); }
      assert Pow2(k) - 1 == 2 * (p - 1) + 1;
      BitAndOdd(x, p - 1);
      ModPow2Halves(x, p);
    }
  }

  lemma BitAndOdd(x: nat, y: nat)
    ensures BitAnd(x, 2 * y + 1) == x % 2 + 2 * BitAnd(x / 2, y)
  {
    assert (2 * y + 1) / 2 == y && (2 * y + 1) % 2 == 1;
  }

  /** The same for a modulus given only as a power of two. */
  lemma MaskIsModOf(x: nat, n: nat)
    requires IsPow2(n)
    ensures BitAnd(x, n - 1) == x % n
  {
    var k: nat :| n == Pow2(k);
    MaskIsMod(x, k);
  }

  /** Clearing low bits: `x & ~(2^k - 1)`, the mask written inside a word of m bits. */
  lemma {:induction false} ClearLowBits(x: nat, k: nat, m: nat, p: nat, w: nat)
    requires k <= m && p == Pow2(k) && w == Pow2(m) && x < w
    ensures p <= w && BitAnd(x, w - p) == x - x % p
    decreases k
  {
    Pow2Monotone(k, m);
    if k == 0 {
      FullMask(x, m);
      assert x % 1 == 0;
    } else {
      var p', w' := Pow2(k - 1), Pow2(m - 1);
      ClearLowBits(x / 2, k - 1, m - 1, p', w');
      ClearLowBitsNext(x, p', w', p, w);
    }
  }

  lemma ClearLowBitsNext(x: nat, p': nat, w': nat, p: nat, w: nat)
    requires 1 <= p' <= w' && p == 2 * p' && w == 2 * w'
    requires BitAnd(x / 2, w' - p') == x / 2 - (x / 2) % p'
    ensures BitAnd(x, w - p) == x - x % p
  {
    assert w - p == 2 * (w' - p');
    ClearLowBitsStep(x, p', w' - p');
  }

  lemma FullMask(x: nat, m: nat)
    requires x < Pow2(m)
    ensures BitAnd(x, Pow2(m) - 1) == x
  {
    var n := Pow2(m);
    assert x % n == x by { ModUnique(x, n, 0, x); }
    MaskIsMod(x, m);
  }

  lemma ClearLowBitsStep(x: nat, p: nat, y: nat)
    requires 1 <= p
    requires BitAnd(x / 2, y) == x / 2 - (x / 2) % p
    ensures BitAnd(x, 2 * y) == x - x % (2 * p)
  {
    var h := x / 2;
    var r := h % p;
    var low := x % (2 * p);
    assert low == x % 2 + 2 * r by { ModPow2Halves(x, p); }
    var c := BitAnd(x, 2 * y);
    assert c == 2 * (h - r) by { BitAndEven(x, y); }
  }

  lemma BitAndEven(x: nat, y: nat)
    ensures BitAnd(x, 2 * y) == 2 * BitAnd(x / 2, y)
  {
    assert (2 * y) / 2 == y && (2 * y) % 2 == 0;
  }

  lemma {:induction false} Pow2Monotone(k: nat, m: nat)
    requires k <= m
    ensures Pow2(k) <= Pow2(m)
    decreases m - k
  {
    if k < m {
      Pow2Monotone(k, m - 1);
    }
  }

  lemma WordIsPow2()
    ensures Pow2(64) == WORD
  {
    assert Pow2(8) == 256;
    Pow2Square(8, 256);
    Pow2Square(16, 0x1_0000);
    Pow2Square(32, 0x1_0000_0000);
  }

  lemma Pow2Square(k: nat, p: nat)
    requires Pow2(k) == p
    ensures Pow2(k + k) == p * p
  {
    Pow2Add(k, k);
  }

  lemma {:induction false} Pow2Add(j: nat, k: nat)
    ensures Pow2(j + k) == Pow2(j) * Pow2(k)
    decreases j
  {
    if j > 0 {
      Pow2Add(j - 1, k);
      assert Pow2(j + k) == 2 * Pow2(j - 1 + k);
    }
  }

  /** The compile-time test `(N & (N - 1)) == 0` accepts exactly the powers of two. */
  lemma {:induction false} PowerOfTwoTest(n: nat)
    requires n >= 1
    ensures BitAnd(n, n - 1) == 0 <==> IsPow2(n)
  {
    if n == 1 {
      assert n == Pow2(0);
    } else if n % 2 == 1 {
      BitAndSelf(n / 2);
      assert (n - 1) / 2 == n / 2;
      forall k: nat
        ensures n != Pow2(k)
      {
      }
    } else {
      PowerOfTwoTest(n / 2);
      assert (n - 1) / 2 == n / 2 - 1;
      if IsPow2(n) {
        var k: nat :| n == Pow2(k);
        assert n / 2 == Pow2(k - 1);
      }
      if IsPow2(n / 2) {
        var k: nat :| n / 2 == Pow2(k);
        assert n == Pow2(k + 1);
      }
    }
  }
}
