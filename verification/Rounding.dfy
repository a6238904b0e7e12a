/** The 32-bit rounding that all of the layout arithmetic goes through (patchelf.cc: roundUp). */
module Rounding {

  const TWO_TO_32 := 0x1_0000_0000

  /** The arguments and the result are unsigned int, so everything is modulo 2^32. */
  function RoundUp(n: nat, m: nat): (r: nat)
    requires 0 < m < TWO_TO_32
    ensures r < TWO_TO_32
  {
    ((n % TWO_TO_32 - 1) % TWO_TO_32 / m + 1) * m % TWO_TO_32
  }

  ghost predicate IsMultiple(x: nat, m: nat) {
    exists q: nat :: x == q * m
  }

  /** `r` is the least multiple of `m` that is at least `n`. */
  ghost predicate IsLeastMultiple(r: nat, n: nat, m: nat) {
    IsMultiple(r, m) && n <= r && forall x: nat :: IsMultiple(x, m) && n <= x ==> r <= x
  }

  /**
   * For an m that divides 2^32 (every power of two the program uses) roundUp is the least multiple
   * at or above n exactly when that multiple still fits in 32 bits.  For n = 0 the wrap-around of
   * n - 1 is undone by the wrap-around of the product.
   */
  lemma RoundUpIsLeastMultiple(n: nat, m: nat, k: nat)
    requires 0 < m < TWO_TO_32 && TWO_TO_32 == k * m
    ensures IsLeastMultiple(RoundUp(n, m), n, m) <==> n <= TWO_TO_32 - m
  {
    if n == 0 {
      RoundUpAtEnd(n, m, k);
      assert 0 == 0 * m;
    } else if n <= TWO_TO_32 - m {
      RoundUpInside(n, m, k);
      LeastAbove(n, m, (n - 1) / m);
    } else if n < TWO_TO_32 {
      RoundUpAtEnd(n, m, k);
    }
  }

  /** In the last m values below 2^32, and at 0, the product wraps to 0. */
  lemma RoundUpAtEnd(n: nat, m: nat, k: nat)
    requires 0 < m < TWO_TO_32 && TWO_TO_32 == k * m
    requires n == 0 || TWO_TO_32 - m < n < TWO_TO_32
    ensures RoundUp(n, m) == 0
  {
    var x := (n % TWO_TO_32 - 1) % TWO_TO_32;
    assert (k - 1) * m == TWO_TO_32 - m;
    assert x == if n == 0 then TWO_TO_32 - 1 else n - 1;
    DivUnique(x, m, k - 1, x - (TWO_TO_32 - m));
  }

  lemma RoundUpInside(n: nat, m: nat, k: nat)
    requires 0 < m < TWO_TO_32 && TWO_TO_32 == k * m
    requires 0 < n <= TWO_TO_32 - m
    ensures RoundUp(n, m) == ((n - 1) / m + 1) * m
  {
    var q := (n - 1) / m;
    QuotientBelow(n - 1, m, k, q);
    Unwrapped(n);
    Small((q + 1) * m);
  }

  /** Whatever wraps, the result is a multiple of m below 2^32. */
  lemma RoundUpBelow(n: nat, m: nat)
    requires m == 4 || m == 8 || m == 4096 || m == 16384
    ensures RoundUp(n, m) <= TWO_TO_32 - m && IsMultiple(RoundUp(n, m), m)
  {
    var k := Times(m);
    var v := n % TWO_TO_32;
    assert RoundUp(n, m) == RoundUp(v, m) by { Small(v); }
    if v == 0 || TWO_TO_32 - m < v {
      RoundUpAtEnd(v, m, k);
      assert 0 == 0 * m;
    } else {
      RoundUpInside(v, m, k);
      MultipleBelow(v, m, k, (v - 1) / m);
    }
  }

  lemma MultipleBelow(v: nat, m: nat, k: nat, q: nat)
    requires 0 < m && 0 < v <= k * m - m && q == (v - 1) / m
    ensures (q + 1) * m <= k * m - m
  {
    QuotientBelow(v - 1, m, k, q);
    SmallerFactor(q + 1, k, m);
    Monotone(q + 1, k - 1, m);
    assert (k - 1) * m == k * m - m;
  }

  lemma SmallerFactor(a: nat, b: nat, m: nat)
    requires a * m < b * m
    ensures a < b
  {
    if b <= a {
      Monotone(b, a, m);
    }
  }

  /** How often each modulus goes into 2^32. */
  function Times(m: nat): (k: nat)
    requires m == 4 || m == 8 || m == 4096 || m == 16384
    ensures k * m == TWO_TO_32
  {
    if m == 4 then 0x4000_0000 else if m == 8 then 0x2000_0000 else if m == 4096 then 0x10_0000 else 0x4_0000
  }

  lemma Unwrapped(n: nat)
    requires 0 < n < TWO_TO_32
    ensures (n % TWO_TO_32 - 1) % TWO_TO_32 == n - 1
  {
  }

  lemma Small(y: nat)
    requires y < TWO_TO_32
    ensures y % TWO_TO_32 == y
  {
  }

  /** A value more than m below k * m has a quotient whose next multiple is still below. */
  lemma QuotientBelow(x: nat, m: nat, k: nat, q: nat)
    requires 0 < m && x < k * m - m && q == x / m
    ensures (q + 1) * m < k * m
  {
    assert x == q * m + x % m;
    assert (k - 1) * m == k * m - m;
    if k - 1 <= q {
      Monotone(k - 1, q, m);
    } else {
      Monotone(q + 1, k - 1, m);
    }
  }

  lemma LeastAbove(n: nat, m: nat, q: nat)
    requires 0 < m && 0 < n && q == (n - 1) / m
    ensures IsLeastMultiple((q + 1) * m, n, m)
  {
    assert n - 1 == q * m + (n - 1) % m;
    assert (q + 1) * m == q * m + m;
    forall x: nat | IsMultiple(x, m) && n <= x ensures (q + 1) * m <= x {
      var t: nat :| x == t * m;
      if t <= q {
        Monotone(t, q, m);
      } else {
        Monotone(q + 1, t, m);
      }
    }
  }

  lemma DivUnique(x: nat, m: nat, q: nat, r: nat)
    requires 0 < m && r < m && x == q * m + r
    ensures x / m == q
  {
    var d := x / m;
    assert x == d * m + x % m;
    if d < q {
      Monotone(d + 1, q, m);
    } else if q < d {
      Monotone(q + 1, d, m);
    }
  }

  lemma Monotone(a: nat, b: nat, m: nat)
    requires a <= b
    ensures a * m <= b * m
  {
  }

  /** The least multiple of `m` at or above `n`, counted up: what the layout proofs reason with. */
  function Padded(n: nat, m: nat): (r: nat)
    requires m > 0
    ensures n <= r < n + m
    decreases n
  {
    if n == 0 then 0 else if n <= m then m else m + Padded(n - m, m)
  }

  lemma {:induction false} PaddedMultiple(n: nat, m: nat)
    requires m > 0
    ensures IsMultiple(Padded(n, m), m)
    decreases n
  {
    if n == 0 {
      assert 0 == 0 * m;
    } else if n <= m {
      assert m == 1 * m;
    } else {
      PaddedMultiple(n - m, m);
      var q: nat :| Padded(n - m, m) == q * m;
      assert Padded(n, m) == (q + 1) * m;
    }
  }

  /** x modulo m, counted down. */
  function Remainder(x: nat, m: nat): (r: nat)
    requires m > 0
    ensures r < m && r <= x
    decreases x
  {
    if x < m then x else Remainder(x - m, m)
  }

  lemma {:induction false} RemainderIs(x: nat, m: nat)
    requires m > 0
    ensures Remainder(x, m) == x % m
    decreases x
  {
    if x < m {
      DivUnique(x, m, 0, x);
    } else {
      RemainderIs(x - m, m);
      var q := (x - m) / m;
      assert x - m == q * m + (x - m) % m;
      assert (q + 1) * m == q * m + m;
      DivUnique(x, m, q + 1, (x - m) % m);
    }
  }

  /** roundUp computes it for the four moduli of the program, as long as 32 bits hold the result. */
  lemma RoundUpPads(n: nat, m: nat)
    requires m == 4 || m == 8 || m == 4096 || m == 16384
    requires n <= TWO_TO_32 - m
    ensures RoundUp(n, m) == Padded(n, m) && Padded(n, m) % m == 0
  {
    var k := Times(m);
    hide RoundUp, Padded;
    RoundUpIsLeastMultiple(n, m, k);
    PaddedMultiple(n, m);
    var r, s := RoundUp(n, m), Padded(n, m);
    var q: nat :| s == q * m;
    DivUnique(s, m, q, 0);
    var t: nat :| r == t * m;
    // Two multiples of m less than m apart are equal.
    assert (t + 1) * m == r + m && (q + 1) * m == s + m;
    SmallerFactor(q, t + 1, m);
    SmallerFactor(t, q + 1, m);
  }

  /** roundUp as the layout calls it, on values that 32 bits hold. */
  method Round(n: nat, m: nat) returns (r: nat)
    requires m == 4 || m == 8 || m == 4096 || m == 16384
    requires n <= TWO_TO_32 - m
    ensures r == Padded(n, m)
  {
    RoundUpPads(n, m);
    r := RoundUp(n, m);
  }
}
