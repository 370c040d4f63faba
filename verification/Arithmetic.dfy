/**
 Powers of two, and division with remainder.  The operators are wrapped in functions so that proofs can
 keep to the few facts stated here.
 */
module Arithmetic {
  import opened Ring

  function Pow2(k: nat): (p: nat)
    ensures p > 0
  {
    if k == 0 then 1 else 2 * Pow2(k - 1)
  }

  lemma Regrouped(x: nat, y: nat, z: nat)
    ensures x * (y * z) == (x * y) * z == (x * z) * y
  {
  }

  lemma {:induction false} Pow2Add(a: nat, b: nat)
    ensures Pow2(a + b) == Pow2(a) * Pow2(b)
  {
    if a > 0 {
      Pow2Add(a - 1, b);
      Regrouped(2, Pow2(a - 1), Pow2(b));
    }
  }

  lemma {:induction false} Pow2Monotone(a: nat, b: nat)
    requires a <= b
    ensures Pow2(a) <= Pow2(b)
    decreases b
  {
    if a < b {
      Pow2Monotone(a, b - 1);
    }
  }

  lemma Pow2Word()
    ensures Pow2(16) == 0x1_0000
    ensures Pow2(31) == 0x8000_0000 && Pow2(32) == 0x1_0000_0000
  {
    assert Pow2(8) == 256;
    Pow2Add(8, 8);
    Pow2Add(16, 8);
    assert Pow2(7) == 128;
    Pow2Add(24, 7);
  }

  function Div(n: nat, d: nat): nat
    requires d > 0
  {
    n / d
  }

  function Rem(n: nat, d: nat): nat
    requires d > 0
  {
    n % d
  }

  lemma DivRem(n: nat, d: nat)
    requires d > 0
    ensures n == Div(n, d) * d + Rem(n, d) && Rem(n, d) < d
  {
  }

  lemma BetweenMultiples(d: int, size: nat)
    requires size >= 1 && -1 * size < d * size < size
    ensures d == 0
  {
  }

  lemma Distribute(a: int, b: int, d: int)
    ensures a * d - b * d == (a - b) * d
  {
  }

  /** Quotient and remainder are the only ones there are. */
  lemma DivUnique(n: nat, d: nat, q: int, r: nat)
    requires r < d && n == q * d + r
    ensures Div(n, d) == q && Rem(n, d) == r
  {
    hide Div, Rem;
    DivRem(n, d);
    Distribute(Div(n, d), q, d);
    BetweenMultiples(Div(n, d) - q, d);
  }

  lemma RemOfSmall(n: nat, d: nat)
    requires n < d
    ensures Div(n, d) == 0 && Rem(n, d) == n
  {
    hide Div, Rem;
    DivUnique(n, d, 0, n);
  }

  /** Whole multiples do not show in the remainder, and come out whole in the quotient. */
  lemma AddMultiple(n: nat, k: nat, d: nat)
    requires d > 0
    ensures Rem(n + k * d, d) == Rem(n, d) && Div(n + k * d, d) == Div(n, d) + k
  {
    hide Div, Rem;
    DivRem(n, d);
    Distribute(Div(n, d) + k, k, d);
    DivUnique(n + k * d, d, Div(n, d) + k, Rem(n, d));
  }

  /** Counting on around a ring: the index after `n + k` steps, `k` of them beyond the index after `n`. */
  lemma StepsAround(n: nat, k: nat, size: nat)
    requires size > 0 && k <= size
    ensures Rem(n, size) < size
    ensures Rem(n + k, size) == Wrap(Rem(n, size) + k, size)
  {
    hide Div, Rem;
    DivRem(n, size);
    var q, r := Div(n, size), Rem(n, size) + k;
    if r < size {
      DivUnique(n + k, size, q, r);
    } else {
      Distribute(q + 1, q, size);
      DivUnique(n + k, size, q + 1, r - size);
    }
  }

  lemma MulMonotone(x: nat, y: nat, a: nat)
    requires x <= y
    ensures x * a <= y * a
  {
  }

  lemma OneTimeMore(x: nat, a: nat)
    ensures (x + 1) * a == x * a + a
  {
  }

  lemma TwoPlaces(s: nat, t: nat, r: nat, a: nat, b: nat)
    requires t < b && r < a
    ensures (s * b + t) * a + r == s * (a * b) + (t * a + r)
    ensures t * a + r < a * b
  {
    MulMonotone(t + 1, b, a);
    assert (s * b + t) * a == s * b * a + t * a;
    assert s * b * a == s * (a * b);
  }

  /** Dividing in two steps. */
  lemma DivDiv(n: nat, a: nat, b: nat)
    requires a > 0 && b > 0 && a * b > 0
    ensures Div(n, a * b) == Div(Div(n, a), b)
    ensures Rem(Div(n, a), b) == Div(Rem(n, a * b), a)
    ensures Rem(Rem(n, a * b), a) == Rem(n, a)
  {
    hide Div, Rem;
    var q, r := Div(n, a), Rem(n, a);
    var s, t := Div(q, b), Rem(q, b);
    DivRem(n, a);
    DivRem(q, b);
    TwoPlaces(s, t, r, a, b);
    DivUnique(n, a * b, s, t * a + r);
    DivUnique(t * a + r, a, t, r);
  }

  /** The lowest bit and the rest. */
  lemma LowestBit(x: nat, p: nat)
    requires p > 0
    ensures Rem(x, 2 * p) == x % 2 + 2 * Rem(x / 2, p)
  {
    DivDiv(x, 2, p);
    DivRem(Rem(x, 2 * p), 2);
    assert Rem(x, 2) == x % 2 && Div(x, 2) == x / 2;
  }
}
