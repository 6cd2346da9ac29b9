// Powers of real numbers with integer exponents.
module RealPowers {
  import opened Arithmetic
  import opened PowFive

  ghost function RealPow(b: real, k: int): (p: real)
    requires b > 0.0
    ensures p > 0.0
    decreases if k < 0 then -k else k
  {
    if k == 0 then 1.0 else if k > 0 then b * RealPow(b, k - 1) else RealPow(b, k + 1) / b
  }

  lemma RealPowZero(b: real)
    requires b > 0.0
    ensures RealPow(b, 0) == 1.0
  {
  }

  lemma RealPowNext(b: real, k: int)
    requires b > 0.0
    ensures RealPow(b, k + 1) == b * RealPow(b, k)
  {
    if k < 0 {
      assert RealPow(b, k) == RealPow(b, k + 1) / b;
    }
  }

  lemma {:induction false} RealPowAdd(b: real, i: int, j: int)
    requires b > 0.0
    ensures RealPow(b, i + j) == RealPow(b, i) * RealPow(b, j)
    decreases if j < 0 then -j else j
  {
    hide RealPow;
    if j == 0 {
      RealPowZero(b);
    } else if j > 0 {
      RealPowAdd(b, i, j - 1);
      RealPowNext(b, i + j - 1);
      RealPowNext(b, j - 1);
      StepUp(b, RealPow(b, i), RealPow(b, j - 1), RealPow(b, i + j - 1));
    } else {
      RealPowAdd(b, i, j + 1);
      RealPowNext(b, i + j);
      RealPowNext(b, j);
      StepDown(b, RealPow(b, i), RealPow(b, j), RealPow(b, i + j));
    }
  }

  lemma StepUp(b: real, p: real, q: real, r: real)
    requires r == p * q
    ensures b * r == p * (b * q)
  {
  }

  lemma StepDown(b: real, p: real, q: real, r: real)
    requires b > 0.0 && b * r == p * (b * q)
    ensures r == p * q
  {
    assert p * (b * q) == b * (p * q);
    Cancel(b, r, p * q);
  }

  lemma Cancel(a: real, x: real, y: real)
    requires a > 0.0 && a * x == a * y
    ensures x == y
  {
    assert a * (x - y) == 0.0;
  }

  lemma {:induction false} RealPowTen(k: int)
    ensures RealPow(10.0, k) == RealPow(2.0, k) * RealPow(5.0, k)
    decreases if k < 0 then -k else k
  {
    if k > 0 {
      RealPowTen(k - 1);
      RealPowNext(10.0, k - 1);
      RealPowNext(2.0, k - 1);
      RealPowNext(5.0, k - 1);
      TenTimes(RealPow(2.0, k - 1), RealPow(5.0, k - 1));
    } else if k < 0 {
      RealPowTen(k + 1);
      RealPowNext(10.0, k);
      RealPowNext(2.0, k);
      RealPowNext(5.0, k);
      TenTimes(RealPow(2.0, k), RealPow(5.0, k));
      Cancel(10.0, RealPow(10.0, k), RealPow(2.0, k) * RealPow(5.0, k));
    }
  }

  lemma TenTimes(a: real, b: real)
    ensures 2.0 * a * (5.0 * b) == 10.0 * (a * b)
  {
  }

  lemma {:induction false} RealPowTwo(n: nat)
    ensures RealPow(2.0, n) == Pow2(n) as real
  {
    if n > 0 {
      RealPowTwo(n - 1);
    }
  }

  lemma {:induction false} RealPowFive(n: nat)
    ensures RealPow(5.0, n) == Pow5(n) as real
  {
    if n > 0 {
      RealPowFive(n - 1);
    }
  }
}
