/** Bitwise `&` and `~` on unsigned words, and rounding to a power of two by masking. */
module Masks {
  import opened Words

  /** `a & b`, bit by bit. */
  function And(a: nat, b: nat): nat
    decreases a
  {
    if a == 0 then 0 else (a % 2) * (b % 2) + 2 * And(a / 2, b / 2)
  }

  function Pow2(k: nat): (p: nat)
    ensures p > 0
  {
    if k == 0 then 1 else 2 * Pow2(k - 1)
  }

  /** `~x` on words of `w` bits. */
  function Not(w: nat, x: nat): nat
    requires x < Pow2(w)
  {
    Pow2(w) - 1 - x
  }

  /** The largest multiple of `m` not above `x`. */
  function Floor(x: nat, m: nat): (f: nat)
    requires 0 < m
    ensures f <= x
  {
    x - x % m
  }

  predicate IsMultiple(x: nat, m: nat)
    requires 0 < m
  {
    x % m == 0
  }

  lemma FloorMeans(x: nat, m: nat)
    requires 0 < m
    ensures IsMultiple(Floor(x, m), m) && Floor(x, m) <= x < Floor(x, m) + m
  {
    assert x == x / m * m + x % m;
    ModUnique(x - x % m, x / m, 0, m);
  }

  lemma MultipleGap(a: nat, b: nat, m: nat)
    requires 0 < m && IsMultiple(a, m) && IsMultiple(b, m) && a < b
    ensures a + m <= b
  {
    var p, q := a / m, b / m;
    assert a == p * m && b == q * m;
    if p < q {
      MulGap(p, q, m);
    } else if q < p {
      MulGap(q, p, m);
    }
  }

  lemma SumOfMultiples(a: nat, b: nat, m: nat)
    requires 0 < m && IsMultiple(a, m) && IsMultiple(b, m)
    ensures IsMultiple(a + b, m)
  {
    var p, q := a / m, b / m;
    assert a == p * m && b == q * m;
    assert (p + q) * m == p * m + q * m;
    ModUnique(a + b, p + q, 0, m);
  }

  lemma {:induction false} Pow2Mono(j: nat, k: nat)
    requires j <= k
    ensures Pow2(j) <= Pow2(k)
    decreases k
  {
    if j < k {
      Pow2Mono(j, k - 1);
    }
  }

  /** Masking with `~(2^k - 1)` rounds down to a multiple of `2^k`. */
  lemma {:induction false} MaskRoundsDown(x: nat, k: nat, w: nat)
    requires k <= w && x < Pow2(w)
    ensures Pow2(k) - 1 < Pow2(w)
    ensures And(x, Not(w, Pow2(k) - 1)) == Floor(x, Pow2(k))
    decreases w
  {
    hide And, Floor;
    Pow2Mono(k, w);
    if k == 0 {
      AllOnes(x, w);
      FloorOne(x);
    } else {
      MaskRoundsDown(x / 2, k - 1, w - 1);
      FloorHalf(x, Pow2(k - 1));
      AndEven(x, Not(w - 1, Pow2(k - 1) - 1));
    }
  }

  lemma AndEven(x: nat, n: nat)
    ensures And(x, 2 * n) == 2 * And(x / 2, n)
  {
    assert (2 * n) % 2 == 0 && 2 * n / 2 == n;
  }

  lemma {:induction false} AllOnes(x: nat, w: nat)
    requires x < Pow2(w)
    ensures And(x, Pow2(w) - 1) == x
    decreases w
  {
    if x > 0 {
      AllOnes(x / 2, w - 1);
      AndOdd(x, Pow2(w - 1));
    }
  }

  lemma AndOdd(x: nat, p: nat)
    requires 0 < x && 0 < p
    ensures And(x, 2 * p - 1) == x % 2 + 2 * And(x / 2, p - 1)
  {
    assert (2 * p - 1) % 2 == 1 && (2 * p - 1) / 2 == p - 1;
  }

  lemma FloorOne(x: nat)
    ensures Floor(x, 1) == x
  {
  }

  lemma FloorHalf(x: nat, p: nat)
    requires 0 < p
    ensures Floor(x, 2 * p) == 2 * Floor(x / 2, p)
  {
    var h := x / 2;
    var q := h / p;
    assert h == q * p + h % p;
    assert x == 2 * h + x % 2;
    assert x == q * (2 * p) + (2 * (h % p) + x % 2) by {
      assert 2 * (q * p) == q * (2 * p);
    }
    ModUnique(x, q, 2 * (h % p) + x % 2, 2 * p);
  }
}
