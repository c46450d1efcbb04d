/** The power-of-two round-up of `feml_pad!` and the inline masks that
    repeat it in the bump arena and the pool allocator. */
module Pad {

  /** Alignment unit of the bump arena (FEML_MEM_ALIGN). */
  const FEML_MEM_ALIGN: nat := 16

  /** `n` is 1, 2, 4, 8, ... */
  predicate IsPowerOfTwo(n: nat)
    decreases n
  {
    n == 1 || (n >= 2 && n % 2 == 0 && IsPowerOfTwo(n / 2))
  }

  /** Bitwise `y & !m` on unbounded naturals. For `y < 2^64` it is the
      value a 64-bit `usize` computes, because the complement of `m` has
      every bit above `m`'s highest bit set. */
  function AndNot(y: nat, m: nat): nat
    decreases y
  {
    if y == 0 then 0
    else 2 * AndNot(y / 2, m / 2) + (if y % 2 == 1 && m % 2 == 0 then 1 else 0)
  }

  /** `feml_pad!(x, n)`: `(x + n - 1) & !(n - 1)`. The subtraction `n - 1`
      underflows for `n == 0`, so the macro needs `n >= 1`. */
  function PadMask(x: nat, n: nat): nat
    requires n >= 1
  {
    AndNot(x + n - 1, n - 1)
  }

  /** For any `n`, the mask only clears bits of `x + n - 1`; with `n == 1`
      it clears none and adds nothing. */
  lemma PadMaskAtMost(x: nat, n: nat)
    requires n >= 1
    ensures PadMask(x, n) <= x + n - 1
    ensures n == 1 ==> PadMask(x, n) == x
  {
    AndNotAtMost(x + n - 1, n - 1);
  }

  /** Clearing bits never increases a value, and clearing none keeps it. */
  lemma {:induction false} AndNotAtMost(y: nat, m: nat)
    ensures AndNot(y, m) <= y
    ensures m == 0 ==> AndNot(y, m) == y
    decreases y
  {
    if y != 0 {
      AndNotAtMost(y / 2, m / 2);
    }
  }

  /** The arithmetic round-up that the mask is meant to compute. */
  function RoundUp(x: nat, n: nat): nat
    requires n >= 1
  {
    ((x + n - 1) / n) * n
  }

  // ---------------------------------------------------------------------
  // Arithmetic helpers
  // ---------------------------------------------------------------------

  lemma {:induction false} MulMono(a: nat, b: nat, n: nat)
    requires a <= b
    ensures a * n <= b * n
    decreases b - a
  {
    if a < b {
      MulMono(a, b - 1, n);
      assert b * n == (b - 1) * n + n;
    }
  }

  lemma MulStrict(a: nat, b: nat, n: nat)
    ensures a * n < b * n ==> a < b
  {
    if b <= a {
      MulMono(b, a, n);
    }
  }

  lemma DivModUnique(y: nat, n: nat, q: nat, r: nat)
    requires n >= 1 && r < n && y == q * n + r
    ensures y / n == q && y % n == r
  {
    var q', r' := y / n, y % n;
    assert y == q' * n + r' && r' < n;
    assert (q' + 1) * n == q' * n + n;
    assert (q + 1) * n == q * n + n;
    MulStrict(q, q' + 1, n);
    MulStrict(q', q + 1, n);
  }

  lemma DivDiv(y: nat, h: nat)
    requires h >= 1
    ensures (y / 2) / h == y / (2 * h)
  {
    var q, r := (y / 2) / h, (y / 2) % h;
    assert y / 2 == q * h + r && r < h;
    assert y == 2 * (y / 2) + y % 2;
    assert 2 * (q * h) == q * (2 * h);
    assert y == q * (2 * h) + (2 * r + y % 2);
    DivModUnique(y, 2 * h, q, 2 * r + y % 2);
  }

  lemma {:induction false} AndNotZero(y: nat)
    ensures AndNot(y, 0) == y
    decreases y
  {
    if y > 0 {
      AndNotZero(y / 2);
    }
  }

  lemma RoundUpBounds(x: nat, n: nat, q: nat)
    requires n >= 1 && q == (x + n - 1) / n
    ensures x <= RoundUp(x, n) < x + n
    ensures RoundUp(x, n) % n == 0
  {
    var y := x + n - 1;
    var rr := y % n;
    assert y == q * n + rr && rr < n;
    DivModUnique(q * n, n, q, 0);
  }

  lemma RoundUpValueBounds(x: nat, n: nat, p: nat)
    requires n >= 1 && p == RoundUp(x, n)
    ensures x <= p < x + n && p % n == 0
  {
    RoundUpBounds(x, n, (x + n - 1) / n);
  }

  lemma RoundUpFixed(x: nat, n: nat)
    requires n >= 1
    ensures RoundUp(x, n) == x <==> x % n == 0
  {
    RoundUpBounds(x, n, (x + n - 1) / n);
    if x % n == 0 {
      var a := x / n;
      assert x == a * n;
      DivModUnique(x + n - 1, n, a, n - 1);
    }
  }

  lemma AndNotOddMask(y: nat, m: nat)
    requires y > 0 && m % 2 == 1
    ensures AndNot(y, m) == 2 * AndNot(y / 2, m / 2)
  {
  }

  lemma OddPredecessor(h: nat)
    requires h >= 1
    ensures (2 * h - 1) % 2 == 1 && (2 * h - 1) / 2 == h - 1
  {
    DivModUnique(2 * h - 1, 2, h - 1, 1);
  }

  lemma DoubleProduct(q: nat, h: nat)
    ensures 2 * (q * h) == q * (2 * h)
  {
  }

  lemma AndNotHalve(y: nat, h: nat, q: nat)
    requires h >= 1 && y > 0 && q == (y / 2) / h
    requires AndNot(y / 2, h - 1) == q * h
    ensures AndNot(y, 2 * h - 1) == q * (2 * h) && q == y / (2 * h)
  {
    OddPredecessor(h);
    AndNotOddMask(y, 2 * h - 1);
    DivDiv(y, h);
    DoubleProduct(q, h);
  }

  /** Clearing the low bits of `y` selected by `n - 1` rounds `y` down to
      a multiple of the power of two `n`. */
  lemma {:induction false} AndNotLowBits(y: nat, n: nat)
    requires IsPowerOfTwo(n)
    ensures AndNot(y, n - 1) == (y / n) * n
    decreases n
  {
    if n == 1 {
      AndNotZero(y);
      DivModUnique(y, 1, y, 0);
    } else if y == 0 {
      DivModUnique(0, n, 0, 0);
    } else {
      var h := n / 2;
      var q := (y / 2) / h;
      AndNotLowBits(y / 2, h);
      AndNotHalve(y, h, q);
    }
  }

  // ---------------------------------------------------------------------
  // Properties of the mask
  // ---------------------------------------------------------------------

  /** For a power of two the mask equals the arithmetic round-up. */
  lemma PadMaskIsRoundUp(x: nat, n: nat)
    requires IsPowerOfTwo(n)
    ensures PadMask(x, n) == RoundUp(x, n)
  {
    AndNotLowBits(x + n - 1, n);
  }

  /** The padded value lies in `[x, x + n)` and is a multiple of `n`. */
  lemma PadMaskBounds(x: nat, n: nat)
    requires IsPowerOfTwo(n)
    ensures x <= PadMask(x, n) < x + n
    ensures PadMask(x, n) % n == 0
  {
    PadMaskIsRoundUp(x, n);
    RoundUpValueBounds(x, n, PadMask(x, n));
  }

  /** Padding changes nothing exactly when `x` is already a multiple of `n`. */
  lemma PadMaskFixed(x: nat, n: nat)
    requires IsPowerOfTwo(n)
    ensures PadMask(x, n) == x <==> x % n == 0
  {
    PadMaskIsRoundUp(x, n);
    RoundUpFixed(x, n);
  }

  /** Padding twice is padding once. */
  lemma PadMaskIdempotent(x: nat, n: nat)
    requires IsPowerOfTwo(n)
    ensures PadMask(PadMask(x, n), n) == PadMask(x, n)
  {
    PadMaskBounds(x, n);
    PadMaskFixed(PadMask(x, n), n);
  }

  /** The alignment unit of the arena is a power of two. */
  lemma MemAlignIsPowerOfTwo()
    ensures IsPowerOfTwo(FEML_MEM_ALIGN)
  {
  }
}
