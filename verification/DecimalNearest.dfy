// The correct rounding of a real number to a floating-point format, and the neighbours of a number of the format.
module DecimalNearest {
  import opened Arithmetic
  import opened RealPowers
  import opened Rounding
  import opened DecimalCheck

  // c * 2^e.
  ghost function Num(c: nat, e: int): real {
    c as real * RealPow(2.0, e)
  }

  // b * 2^e is the rounding of x: none is nearer and of two equally near the even one is taken. Where neither
  // is even, which happens between two nonzero numbers of one bit only, it is the larger one.
  ghost predicate NearestTo(f: Fpi, x: real, b: nat, e: int) {
    && Representable(f, b, e)
    && forall c, g | Representable(f, c, g) :: NoBetter(x, b, Num(b, e), c, Num(c, g))
  }

  ghost predicate NoBetter(x: real, b: nat, v: real, c: nat, w: real) {
    && Apart(x, v) <= Apart(x, w)
    && (Apart(x, v) == Apart(x, w) && w != v ==> b % 2 == 0 || (c % 2 == 1 && w < v))
  }

  // ---- the same as the rounding of integers --------------------------------------------

  lemma MagIsNum(c: nat, e: int, z: int)
    requires z <= e
    ensures Num(c, e) == Mag(c, e, z) as real * RealPow(2.0, z)
  {
    hide Pow2, RealPow;
    RealPowTwo(e - z);
    RealPowAdd(2.0, e - z, z);
    Spread(c, Pow2(e - z), RealPow(2.0, e - z), 1.0);
    ThreeReals(c as real, RealPow(2.0, e - z), RealPow(2.0, z));
  }

  lemma NumIs(c: nat, e: int)
    ensures Num(c, e) == c as real * RealPow(2.0, e)
  {
    hide RealPow;
  }

  lemma ThreeReals(a: real, b: real, c: real)
    ensures a * (b * c) == a * b * c
  {
  }

  // For a number of units of 2^z this is the rounding to nearest of Rounding.
  lemma NearestIsRounded(f: Fpi, x': real, x: nat, b: nat, e: int, z: int)
    requires z <= f.emin && x' == Num(x, z)
    ensures NearestTo(f, x', b, e) <==> Rounded(f, Nearest, x, b, e, z)
  {
    hide Pow2, RealPow, Mag, Num, NoBetter;
    if Rounded(f, Nearest, x, b, e, z) {
      forall c, g | Representable(f, c, g) ensures NoBetter(x', b, Num(b, e), c, Num(c, g)) {
        assert NoNearer(x, b, Mag(b, e, z), c, Mag(c, g, z));
        OneNearer(f, x', x, b, e, c, g, z);
      }
    }
    if NearestTo(f, x', b, e) {
      forall c, g | Representable(f, c, g) ensures NoNearer(x, b, Mag(b, e, z), c, Mag(c, g, z)) {
        OneNearer(f, x', x, b, e, c, g, z);
      }
    }
  }

  ghost predicate NoNearer(x: nat, b: nat, v: nat, c: nat, w: nat) {
    && Distance(x, v) <= Distance(x, w)
    && (Distance(x, v) == Distance(x, w) && w != v ==> b % 2 == 0 || (c % 2 == 1 && w < v))
  }

  lemma OneNearer(f: Fpi, x': real, x: nat, b: nat, e: int, c: nat, g: int, z: int)
    requires z <= f.emin && x' == Num(x, z) && Representable(f, b, e) && Representable(f, c, g)
    ensures NoBetter(x', b, Num(b, e), c, Num(c, g)) <==> NoNearer(x, b, Mag(b, e, z), c, Mag(c, g, z))
  {
    hide Pow2, RealPow, Mag, Num, NoBetter, NoNearer;
    NumIs(x, z);
    MagIsNum(b, e, z);
    MagIsNum(c, g, z);
    BetterInUnits(x, b, Mag(b, e, z), c, Mag(c, g, z), RealPow(2.0, z), x', Num(b, e), Num(c, g));
  }

  lemma BetterInUnits(x: nat, b: nat, v: nat, c: nat, w: nat, u: real, x': real, v': real, w': real)
    requires u > 0.0 && x' == x as real * u && v' == v as real * u && w' == w as real * u
    ensures NoBetter(x', b, v', c, w') <==> NoNearer(x, b, v, c, w)
  {
    hide Apart, Distance, NoBetter, NoNearer;
    ApartInUnits(x, v, u, x', v');
    ApartInUnits(x, w, u, x', w');
    Ordered(Distance(x, v), Distance(x, w), u);
    Ordered(w, v, u);
    SameBetter(x, b, v, c, w, x', v', w', Distance(x, v) as real * u, Distance(x, w) as real * u);
  }

  lemma SameBetter(x: nat, b: nat, v: nat, c: nat, w: nat, x': real, v': real, w': real, d: real, d': real)
    requires Apart(x', v') == d && Apart(x', w') == d'
    requires (d < d' <==> Distance(x, v) < Distance(x, w)) && (d == d' <==> Distance(x, v) == Distance(x, w))
    requires (w' < v' <==> w < v) && (w' == v' <==> w == v)
    ensures NoBetter(x', b, v', c, w') <==> NoNearer(x, b, v, c, w)
  {
  }

  lemma ApartInUnits(x: nat, v: nat, u: real, x': real, v': real)
    requires u > 0.0 && x' == x as real * u && v' == v as real * u
    ensures Apart(x', v') == Distance(x, v) as real * u
  {
    ApartTimes(x as real, v as real, u);
    assert Distance(x, v) as real == Apart(x as real, v as real);
  }

  lemma Ordered(a: nat, b: nat, u: real)
    requires u > 0.0
    ensures (a as real * u < b as real * u <==> a < b) && (a as real * u == b as real * u <==> a == b)
  {
    SameOrder(a as real, b as real, u);
    SameOrder(b as real, a as real, u);
  }

  // ---- neighbours --------------------------------------------------------------------------

  // No number of the format lies strictly between q and q + 1 units.
  lemma NumGap(f: Fpi, q: nat, e: int, c: nat, g: int)
    requires Representable(f, q, e) && Representable(f, c, g)
    ensures Num(c, g) <= Num(q, e) || Num(c, g) >= Num(q + 1, e)
  {
    hide Pow2, RealPow, Mag, Num;
    var z := f.emin;
    Gap(f, q, e, z, c, g);
    MagIsNum(c, g, z);
    MagIsNum(q, e, z);
    MagIsNum(q + 1, e, z);
    SameOrder(Mag(q, e, z) as real, Mag(c, g, z) as real, RealPow(2.0, z));
    SameOrder(Mag(c, g, z) as real, Mag(q + 1, e, z) as real, RealPow(2.0, z));
  }

  lemma NumNext(q: nat, e: int)
    ensures Num(q + 1, e) == Num(q, e) + 2.0 * RealPow(2.0, e - 1)
  {
    RealPowNext(2.0, e - 1);
  }

  lemma NumDouble(q: nat, e: int)
    ensures Num(2 * q, e - 1) == Num(q, e)
  {
    RealPowNext(2.0, e - 1);
    hide RealPow;
    DoubleTimes(q, RealPow(2.0, e - 1));
  }

  lemma DoubleTimes(q: nat, p: real)
    ensures (2 * q) as real * p == q as real * (2.0 * p)
  {
  }

  // Nothing of the format lies strictly between lo and hi.
  ghost predicate Empty(f: Fpi, lo: real, hi: real) {
    forall c, g | Representable(f, c, g) :: Num(c, g) <= lo || Num(c, g) >= hi
  }

  // q * 2^e is at the lower end of an interval with one unit: below it the unit is half as large.
  ghost predicate AtBinade(f: Fpi, q: nat, e: int) {
    f.nbits > 0 && q == Pow2(f.nbits - 1) && e > f.emin
  }

  // The number before q * 2^e.
  ghost function Before(f: Fpi, q: nat, e: int): (nat, int)
    requires q > 0
  {
    if AtBinade(f, q, e) then (2 * q - 1, e - 1) else (q - 1, e)
  }

  // And the number after it.
  ghost function Behind(f: Fpi, q: nat, e: int): (nat, int) {
    if q + 1 == Pow2(f.nbits) && f.nbits > 0 then (Pow2(f.nbits - 1), e + 1) else (q + 1, e)
  }

  lemma BeforeIs(f: Fpi, q: nat, e: int)
    requires Representable(f, q, e) && q > 0
    ensures var (c, g) := Before(f, q, e); var h := RealPow(2.0, e - 1);
      && Representable(f, c, g) && Empty(f, Num(c, g), Num(q, e))
      && Num(c, g) == Num(q, e) - (if AtBinade(f, q, e) then h else 2.0 * h)
  {
    var (c, g) := Before(f, q, e);
    assert Representable(f, c, g) by {
      if AtBinade(f, q, e) {
        Pow2Next(f.nbits - 1);
      }
    }
    BeforeStep(f, q, e);
    hide Pow2, RealPow, Num, AtBinade, Before;
    forall c', g' | Representable(f, c', g') ensures Num(c', g') <= Num(c, g) || Num(c', g') >= Num(q, e) {
      NumGap(f, c, g, c', g');
    }
  }

  lemma BeforeStep(f: Fpi, q: nat, e: int)
    requires q > 0
    ensures var (c, g) := Before(f, q, e); var h := RealPow(2.0, e - 1);
      Num(c + 1, g) == Num(q, e) && Num(c, g) == Num(q, e) - (if AtBinade(f, q, e) then h else 2.0 * h)
  {
    hide Pow2, Num, RealPow;
    if AtBinade(f, q, e) {
      NumDouble(q, e);
      NumNext(2 * q - 1, e - 1);
      RealPowNext(2.0, e - 2);
    } else {
      NumNext(q - 1, e);
    }
  }

  lemma BehindIs(f: Fpi, q: nat, e: int)
    requires Representable(f, q, e)
    ensures var (c, g) := Behind(f, q, e);
      && Representable(f, c, g) && Empty(f, Num(q, e), Num(c, g))
      && Num(c, g) == Num(q, e) + 2.0 * RealPow(2.0, e - 1)
  {
    var (c, g) := Behind(f, q, e);
    assert Num(c, g) == Num(q + 1, e) by {
      if q + 1 == Pow2(f.nbits) {
        Pow2Next(f.nbits - 1);
        NumDouble(c, g);
      }
    }
    NumNext(q, e);
    assert Representable(f, c, g);
    hide Pow2, RealPow, Num, Behind;
    forall c', g' | Representable(f, c', g') ensures Num(c', g') <= Num(q, e) || Num(c', g') >= Num(c, g) {
      NumGap(f, q, e, c', g');
    }
  }

  // ---- which of two neighbours ------------------------------------------------------------

  // All significands of the number v are odd; with more than one bit a number has one significand.
  ghost predicate OddOnly(f: Fpi, v: real) {
    forall c, g | Representable(f, c, g) && Num(c, g) == v :: c % 2 == 1
  }

  lemma LowerIsNearest(f: Fpi, x: real, b: nat, e: int, hi: real)
    requires Representable(f, b, e) && Empty(f, Num(b, e), hi)
    requires Num(b, e) <= x && 2.0 * x <= Num(b, e) + hi && (2.0 * x == Num(b, e) + hi && Num(b, e) < hi ==> b % 2 == 0)
    ensures NearestTo(f, x, b, e)
  {
    hide Num, Representable;
  }

  lemma UpperIsNearest(f: Fpi, x: real, b: nat, e: int, lo: real)
    requires Representable(f, b, e) && Empty(f, lo, Num(b, e))
    requires x <= Num(b, e) && lo + Num(b, e) <= 2.0 * x
    requires 2.0 * x == lo + Num(b, e) && lo < Num(b, e) ==> b % 2 == 0 || OddOnly(f, lo)
    ensures NearestTo(f, x, b, e)
  {
    hide Num, Representable;
  }

  // What is farther from x than another number, or as far and odd while the other is even, is not the rounding.
  lemma NotNearest(f: Fpi, x: real, b: nat, e: int, c: nat, g: int)
    requires Representable(f, c, g) && !NoBetter(x, b, Num(b, e), c, Num(c, g))
    ensures !NearestTo(f, x, b, e)
  {
  }
}
