// Powers of two, and steps of non-linear arithmetic.
module Arithmetic {
  function Pow2(n: nat): (p: nat)
    ensures p > 0
  {
    if n == 0 then 1 else 2 * Pow2(n - 1)
  }

  lemma Pow2Next(n: nat)
    ensures Pow2(n + 1) == 2 * Pow2(n)
  {
  }

  lemma Pow2Zero()
    ensures Pow2(0) == 1
  {
  }

  lemma {:induction false} Pow2Add(a: nat, b: nat)
    ensures Pow2(a + b) == Pow2(a) * Pow2(b)
  {
    if b > 0 {
      Pow2Add(a, b - 1);
    }
  }

  lemma {:induction false} Pow2Mono(a: nat, b: nat)
    requires a <= b
    ensures Pow2(a) <= Pow2(b)
  {
    if a < b {
      Pow2Mono(a, b - 1);
    }
  }

  lemma MulLe(a: int, b: int, c: nat)
    requires a <= b
    ensures a * c <= b * c
  {
  }

  lemma MulLt(a: int, b: int, c: nat)
    requires a < b && 0 < c
    ensures a * c < b * c
  {
  }

  lemma CancelLe(a: int, b: int, c: nat)
    requires a * c <= b * c && 0 < c
    ensures a <= b
  {
    if b < a {
      MulLt(b, a, c);
    }
  }

  lemma CancelLt(a: int, b: int, c: nat)
    requires a * c < b * c
    ensures a < b
  {
  }

  lemma DivUnique(x: nat, d: nat, q: nat, r: nat)
    requires x == q * d + r && r < d
    ensures x / d == q && x % d == r
  {
    var q', r' := x / d, x % d;
    assert x == q' * d + r';
    if q' < q {
      MulLe(q' + 1, q, d);
    } else if q < q' {
      MulLe(q + 1, q', d);
    }
  }

  lemma DivAdd(w: nat, m: nat, k: nat)
    requires m > 0
    ensures (w + k * m) / m == w / m + k
  {
    var q, r := w / m, w % m;
    assert (q + k) * m == q * m + k * m;
    DivUnique(w + k * m, m, q + k, r);
  }

  lemma DivShrinks(w: nat, m: nat)
    requires m > 0
    ensures 0 <= w / m <= w
  {
    var q := w / m;
    assert w == q * m + w % m;
    MulLe(1, m, q);
  }
}
