/** The few non-linear facts the page arithmetic needs. */
module Arithmetic {

  lemma MulNonNegative(k: nat, n: nat)
    ensures 0 <= k * n
  {
  }

  lemma MulDistributes(p: int, q: int, n: int)
    ensures (q - p) * n == q * n - p * n
  {
  }

  lemma MulOrder(p: int, q: int, n: nat)
    requires p <= q
    ensures p * n <= q * n
    ensures p < q ==> p * n + n <= q * n
  {
    MulDistributes(p, q, n);
    MulNonNegative(q - p, n);
    if p < q {
      MulDistributes(p + 1, q, n);
      MulNonNegative(q - p - 1, n);
      MulDistributes(p, p + 1, n);
    }
  }

  /** Quotient and remainder are unique. */
  lemma DivModUnique(q: int, n: nat, k: nat)
    requires k < n
    ensures (q * n + k) / n == q && (q * n + k) % n == k
  {
    var x := q * n + k;
    SameQuotient(q, k, x / n, x % n, n);
  }

  lemma SameQuotient(q: int, k: nat, r: int, m: nat, n: nat)
    requires k < n && m < n
    requires q * n + k == r * n + m
    ensures q == r && k == m
  {
    if q < r {
      MulOrder(q, r, n);
    } else if r < q {
      MulOrder(r, q, n);
    }
  }

  predicate Aligned(b: int, n: nat) {
    n > 0 && b % n == 0
  }

  lemma MulMod(q: int, n: nat)
    requires n > 0
    ensures Aligned(q * n, n) && (q * n) / n == q
  {
    DivModUnique(q, n, 0);
  }

  lemma ModOffset(b: int, n: nat, k: nat)
    requires n > 0 && Aligned(b, n) && k < n
    ensures (b + k) % n == k
  {
    DivModUnique(b / n, n, k);
  }

  /** Multiples of `n` are at least `n` apart, and their neighbours are multiples. */
  lemma MultipleStep(b: int, n: nat)
    requires n > 0 && Aligned(b, n)
    ensures Aligned(b + n, n) && Aligned(b - n, n)
  {
    var q := b / n;
    MulDistributes(-1, q, n);
    MulDistributes(1, q, n);
    MulMod(q + 1, n);
    MulMod(q - 1, n);
  }

  lemma MultipleGap(b: int, c: int, n: nat)
    requires n > 0 && Aligned(b, n) && Aligned(c, n) && b < c
    ensures b + n <= c
  {
    var q, r := b / n, c / n;
    if r <= q {
      MulOrder(r, q, n);
    }
    MulOrder(q, r, n);
  }
}
