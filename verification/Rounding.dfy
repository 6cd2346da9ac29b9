// Correct rounding of a binary number to a floating-point format: what it means, and what follows from
// splitting the number at the last kept bit.
module Rounding {
  import opened Arithmetic
  import opened BigNat

  datatype Mode = RoundZero | RoundNear | RoundUp | RoundDown

  // FPI: precision, exponent range of the last bit, and rounding mode.
  datatype Fpi = Fpi(nbits: nat, emin: int, emax: int, rounding: Mode)

  datatype Direction = Toward | Nearest | Away

  // Which way a magnitude goes, given the sign of the number.
  function DirectionOf(m: Mode, negative: bool): Direction {
    match m
    case RoundZero => Toward
    case RoundNear => Nearest
    case RoundUp => if negative then Toward else Away
    case RoundDown => if negative then Away else Toward
  }

  // c * 2^e is a number of the format, if it is not too large.
  ghost predicate Representable(f: Fpi, c: nat, e: int) {
    f.nbits > 0 && c < Pow2(f.nbits) && e >= f.emin && (c >= Pow2(f.nbits - 1) || e == f.emin)
  }

  // c * 2^e in units of 2^z.
  ghost function Mag(c: nat, e: int, z: int): nat
    requires z <= e
  {
    c * Pow2(e - z)
  }

  ghost function Distance(a: nat, b: nat): nat {
    if a < b then b - a else a - b
  }

  // b * 2^e is the rounding of x, everything in units of 2^z: no number of the format lies between, or
  // none is nearer and of two equally near the even one is taken. Where neither is even, which happens
  // between two nonzero numbers of one bit only, it is the larger one.
  ghost predicate Rounded(f: Fpi, d: Direction, x: nat, b: nat, e: int, z: int)
    requires z <= f.emin
  {
    && Representable(f, b, e)
    && match d
       case Toward =>
         Mag(b, e, z) <= x && forall c, g | Representable(f, c, g)
           && Mag(c, g, z) <= x :: Mag(c, g, z) <= Mag(b, e, z)
       case Away =>
         Mag(b, e, z) >= x && forall c, g | Representable(f, c, g)
           && Mag(c, g, z) >= x :: Mag(c, g, z) >= Mag(b, e, z)
       case Nearest =>
         forall c, g | Representable(f, c, g) ::
           && Distance(x, Mag(b, e, z)) <= Distance(x, Mag(c, g, z))
           && (Distance(x, Mag(b, e, z)) == Distance(x, Mag(c, g, z)) && Mag(c, g, z) != Mag(b, e, z)
             ==> b % 2 == 0 || (c % 2 == 1 && Mag(c, g, z) < Mag(b, e, z)))
  }

  // x is q whole units of 2^e and a rest, where q has the precision of the format.
  ghost predicate Split(f: Fpi, x: nat, q: nat, r: nat, e: int, z: int) {
    && z <= f.emin && Representable(f, q, e) && r < Pow2(e - z) && x == Mag(q, e, z) + r
  }

  // No number of the format lies strictly between q and q + 1 units.
  lemma Gap(f: Fpi, q: nat, e: int, z: int, c: nat, g: int)
    requires z <= f.emin && Representable(f, q, e) && Representable(f, c, g)
    ensures Mag(c, g, z) <= Mag(q, e, z) || Mag(c, g, z) >= Mag(q + 1, e, z)
  {
    hide Pow2;
    if g < e {
      GapFiner(f, q, e, z, c, g);
    } else {
      Pow2Add(g - e, e - z);
      var u, k := Pow2(e - z), c * Pow2(g - e);
      assert Mag(c, g, z) == k * u by { assert c * (Pow2(g - e) * u) == c * Pow2(g - e) * u; }
      if k <= q {
        MulLe(k, q, u);
      } else {
        MulLe(q + 1, k, u);
      }
    }
  }

  lemma GapFiner(f: Fpi, q: nat, e: int, z: int, c: nat, g: int)
    requires z <= f.emin && Representable(f, q, e) && Representable(f, c, g) && g < e
    ensures Mag(c, g, z) <= Mag(q, e, z)
  {
    var h := Pow2(f.nbits - 1);
    hide Pow2;
    Pow2Next(f.nbits - 1);
    Pow2Next(e - 1 - z);
    Pow2Mono(g - z, e - 1 - z);
    var u := Pow2(e - 1 - z);
    Pow2Le(c, 2 * h, Pow2(g - z), u);
    MulLe(h, q, Pow2(e - z));
    Regroup(h, u);
  }

  lemma Pow2Le(a: nat, b: nat, c: nat, d: nat)
    requires a <= b && c <= d
    ensures a * c <= b * d
  {
  }

  // Dropping the rest.
  lemma RoundedDown(f: Fpi, d: Direction, x: nat, q: nat, r: nat, e: int, z: int)
    requires Split(f, x, q, r, e, z)
    requires d == Toward || r == 0 || (d == Nearest && (2 * r < Pow2(e - z) || (2 * r == Pow2(e - z) && q % 2 == 0)))
    ensures Rounded(f, d, x, q, e, z)
  {
    hide Pow2, Mag;
    MagNext(q, e, z);
    forall c, g | Representable(f, c, g) ensures Mag(c, g, z) <= Mag(q, e, z) || Mag(c, g, z) >= Mag(q + 1, e, z) {
      Gap(f, q, e, z, c, g);
    }
  }

  lemma MagNext(q: nat, e: int, z: int)
    requires z <= e
    ensures Mag(q + 1, e, z) == Mag(q, e, z) + Pow2(e - z)
  {
  }

  // One unit more, as a number of the format.
  ghost predicate Successor(f: Fpi, q: nat, e: int, b: nat, e': int)
  {
    && f.nbits > 0
    && if q + 1 == Pow2(f.nbits) then b == Pow2(f.nbits - 1) && e' == e + 1 else b == q + 1 && e' == e
  }

  lemma SuccessorMag(f: Fpi, q: nat, e: int, b: nat, e': int, z: int)
    requires z <= f.emin && Representable(f, q, e) && Successor(f, q, e, b, e')
    ensures Representable(f, b, e') && Mag(b, e', z) == Mag(q + 1, e, z)
    ensures q % 2 == 1 ==> b % 2 == 0 || f.nbits == 1
  {
    hide Pow2;
    Pow2Next(f.nbits - 1);
    if q + 1 == Pow2(f.nbits) {
      Pow2Next(e - z);
      if f.nbits > 1 {
        Pow2Next(f.nbits - 2);
      }
      Regroup(Pow2(f.nbits - 1), Pow2(e - z));
    }
  }

  lemma Regroup(h: nat, u: nat)
    ensures h * (2 * u) == 2 * h * u
  {
  }

  // Rounding up by one unit.
  lemma RoundedUp(f: Fpi, d: Direction, x: nat, q: nat, r: nat, e: int, b: nat, e': int, z: int)
    requires Split(f, x, q, r, e, z) && Successor(f, q, e, b, e') && r > 0
    requires d == Away || (d == Nearest && (2 * r > Pow2(e - z) || (2 * r == Pow2(e - z) && q % 2 == 1)))
    ensures Rounded(f, d, x, b, e', z) && Mag(b, e', z) > x
  {
    SuccessorMag(f, q, e, b, e', z);
    hide Pow2, Mag, Representable, Successor;
    MagNext(q, e, z);
    forall c, g | Representable(f, c, g)
      ensures Mag(c, g, z) <= Mag(q, e, z) || Mag(c, g, z) >= Mag(q + 1, e, z)
      ensures f.nbits == 1 && Mag(c, g, z) > 0 ==> c % 2 == 1
    {
      Gap(f, q, e, z, c, g);
      OneBit(f, c, g, z);
    }
    MagPositive(q, e, z);
  }

  // With one bit of precision the nonzero numbers are odd.
  lemma OneBit(f: Fpi, c: nat, g: int, z: int)
    requires Representable(f, c, g) && z <= f.emin
    ensures f.nbits == 1 && Mag(c, g, z) > 0 ==> c % 2 == 1
  {
    Pow2Next(0);
    Pow2Zero();
  }

  lemma MagPositive(q: nat, e: int, z: int)
    requires z <= e
    ensures q > 0 ==> Mag(q, e, z) > 0
  {
    if q > 0 {
      MulLe(1, q, Pow2(e - z));
    }
  }

  // ---- lost bits -----------------------------------------------------------------------

  // The summary of a rest r below a unit u: bit 1 for at least half, bit 0 for anything but none or
  // exactly half.
  ghost predicate Lost(l: nat, r: nat, u: nat) {
    l <= 3 && (l == 0 <==> r == 0) && (l >= 2 <==> 2 * r >= u) && (l % 2 == 1 <==> r != 0 && 2 * r != u)
  }

  // x is b units of 2^e and a rest summarised by l.
  ghost predicate Cut(x: nat, b: nat, r: nat, e: int, z: int, l: nat) {
    z <= e && r < Pow2(e - z) && x == Mag(b, e, z) + r && Lost(l, r, Pow2(e - z))
  }

  function LostBits(some: bool, high: bool): nat {
    (if some then 1 else 0) + (if high then 2 else 0)
  }

  lemma LoseArith(v: nat, p: nat, r: nat, u: nat)
    requires r < u && p > 0
    ensures var low, h := v % p, v / p % 2;
      && v % (2 * p) == h * p + low && v % (2 * p) * u + r == h * (p * u) + (low * u + r)
      && low * u + r < p * u && (low * u + r == 0 <==> low == 0 && r == 0)
  {
    var low, h, q := v % p, v / p % 2, v / p / 2;
    assert v == (2 * q + h) * p + low by { assert v == v / p * p + low; }
    assert (2 * q + h) * p + low == q * (2 * p) + (h * p + low);
    DivUnique(v, 2 * p, q, h * p + low);
    assert (h * p + low) * u == h * (p * u) + low * u;
    MulLe(low + 1, p, u);
    if low > 0 {
      MulLe(1, low, u);
    }
  }

  lemma LostSplit(h: nat, t: nat, w: nat)
    requires h <= 1 && t < w
    ensures h * w + t < 2 * w && Lost(LostBits(t != 0, h == 1), h * w + t, 2 * w)
  {
  }

  // Shifting s more bits out.
  lemma CutMore(x: nat, b: nat, r: nat, e: int, z: int, l: nat, s: nat)
    requires Cut(x, b, r, e, z, l) && s > 0
    ensures Cut(x, b / Pow2(s), b % Pow2(s) * Pow2(e - z) + r, e + s, z,
      LostBits(l != 0 || b % Pow2(s - 1) != 0, b / Pow2(s - 1) % 2 == 1))
  {
    hide Pow2, Lost, LostBits;
    var p, u := Pow2(s - 1), Pow2(e - z);
    Pow2Next(s - 1);
    Pow2Add(s, e - z);
    LostZero(l, r, u);
    LostMore(b, p, r, u);
    CutArith(x, b, r, p, u);
  }

  lemma LostZero(l: nat, r: nat, u: nat)
    requires Lost(l, r, u)
    ensures l != 0 <==> r != 0
  {
  }

  lemma LostMore(b: nat, p: nat, r: nat, u: nat)
    requires r < u && p > 0
    ensures b % (2 * p) * u + r < 2 * p * u
    ensures Lost(LostBits(r != 0 || b % p != 0, b / p % 2 == 1), b % (2 * p) * u + r, 2 * p * u)
  {
    hide Lost;
    LoseArith(b, p, r, u);
    LostSplit(b / p % 2, b % p * u + r, p * u);
    assert 2 * p * u == 2 * (p * u);
  }

  lemma CutArith(x: nat, b: nat, r: nat, p: nat, u: nat)
    requires x == b * u + r && p > 0
    ensures x == b / (2 * p) * (2 * p * u) + (b % (2 * p) * u + r)
  {
  }

  // Shifting in zeros.
  lemma CutLess(x: nat, b: nat, e: int, z: int, t: nat)
    requires Cut(x, b, 0, e, z, 0) && z <= e - t
    ensures Cut(x, b * Pow2(t), 0, e - t, z, 0)
  {
    hide Pow2;
    Pow2Add(t, e - t - z);
    assert b * (Pow2(t) * Pow2(e - t - z)) == b * Pow2(t) * Pow2(e - t - z);
  }

  // ---- the decision ------------------------------------------------------------------------

  // Whether one unit is added, from the summary of the rest and the parity of the kept part.
  function GoesUp(m: Mode, negative: bool, l: nat, odd: bool): bool {
    && l != 0
    && match m
       case RoundZero => false
       case RoundNear => l >= 2 && (l % 2 == 1 || odd)
       case RoundUp => !negative
       case RoundDown => negative
  }

  lemma DecideDown(f: Fpi, negative: bool, x: nat, b: nat, r: nat, e: int, z: int, l: nat)
    requires Cut(x, b, r, e, z, l) && Representable(f, b, e) && z <= f.emin
      && !GoesUp(f.rounding, negative, l, b % 2 == 1)
    ensures Rounded(f, DirectionOf(f.rounding, negative), x, b, e, z)
    ensures Mag(b, e, z) <= x && (Mag(b, e, z) == x <==> l == 0)
  {
    hide Pow2, Rounded, Mag, Representable;
    RoundedDown(f, DirectionOf(f.rounding, negative), x, b, r, e, z);
  }

  lemma DecideUp(f: Fpi, negative: bool, x: nat, b: nat, r: nat, e: int, z: int, l: nat, b': nat, e': int)
    requires Cut(x, b, r, e, z, l) && Representable(f, b, e) && z <= f.emin
      && GoesUp(f.rounding, negative, l, b % 2 == 1)
    requires Successor(f, b, e, b', e')
    ensures Rounded(f, DirectionOf(f.rounding, negative), x, b', e', z) && Mag(b', e', z) > x
  {
    hide Pow2, Rounded, Mag, Representable, Successor;
    RoundedUp(f, DirectionOf(f.rounding, negative), x, b, r, e, b', e', z);
  }

  // ---- overflow ------------------------------------------------------------------------------

  // The rounding of x, the exponents unbounded, has an exponent above emax.
  ghost predicate Overflows(f: Fpi, d: Direction, x: nat, z: int)
    requires z <= f.emin
  {
    exists b, e | e > f.emax :: Rounded(f, d, x, b, e, z)
  }

  // The significand of the largest number of the format, which has exponent emax.
  ghost function Top(f: Fpi): nat
  {
    Pow2(f.nbits) - 1
  }

  lemma BeyondTop(f: Fpi, b: nat, e: int, z: int)
    requires Representable(f, b, e) && z <= f.emin <= f.emax < e
    ensures Mag(b, e, z) > Mag(Top(f), f.emax, z)
  {
    hide Pow2;
    var p, w := Pow2(f.nbits - 1), Pow2(f.emax - z);
    Pow2Next(f.nbits - 1);
    Pow2Next(f.emax - z);
    Pow2Mono(f.emax - z + 1, e - z);
    Pow2Le(p, b, 2 * w, Pow2(e - z));
    assert p * (2 * w) == 2 * p * w;
    MulLt(2 * p - 1, 2 * p, w);
  }

  lemma WithinTop(f: Fpi, b: nat, e: int, z: int)
    requires Representable(f, b, e) && z <= f.emin <= e <= f.emax
    ensures Mag(b, e, z) <= Mag(Top(f), f.emax, z)
    ensures Mag(b, e, z) == Mag(Top(f), f.emax, z) ==> b % 2 == 1
  {
    hide Pow2;
    Pow2Mono(e - z, f.emax - z);
    Pow2Le(b, Top(f), Pow2(e - z), Pow2(f.emax - z));
    Pow2Next(f.nbits - 1);
    if b < Top(f) {
      MulLt(b, Top(f), Pow2(e - z));
      MulLe(Pow2(e - z), Pow2(f.emax - z), Top(f));
    }
  }

  lemma TopRepresentable(f: Fpi)
    requires f.nbits > 0 && f.emin <= f.emax
    ensures Representable(f, Top(f), f.emax)
  {
    Pow2Next(f.nbits - 1);
  }

  // Rounding gives one number: what has a rounding in the format does not overflow.
  lemma NoOverflow(f: Fpi, d: Direction, x: nat, b: nat, e: int, z: int)
    requires z <= f.emin <= f.emax && e <= f.emax && Rounded(f, d, x, b, e, z)
    ensures !Overflows(f, d, x, z)
  {
    hide Pow2, Mag, Top;
    WithinTop(f, b, e, z);
    TopRepresentable(f);
    forall b', e' | e' > f.emax ensures !Rounded(f, d, x, b', e', z) {
      if Representable(f, b', e') {
        BeyondTop(f, b', e', z);
      }
    }
  }

  // The answer for x in the format as it is, with exponents up to emax: toward zero the largest number not
  // above x, otherwise the rounding of x if it does not overflow.
  ghost predicate FiniteAnswer(f: Fpi, d: Direction, x: nat, b: nat, e: int, z: int)
    requires z <= f.emin
  {
    && Representable(f, b, e) && e <= f.emax
    && if d == Toward then
      Mag(b, e, z) <= x && forall c, g | Representable(f, c, g) && g <= f.emax && Mag(c, g, z) <= x ::
        Mag(c, g, z) <= Mag(b, e, z)
    else Rounded(f, d, x, b, e, z)
  }

  // On overflow there is a finite answer exactly toward zero, and it is the largest number.
  lemma OverflowAnswer(f: Fpi, d: Direction, x: nat, z: int)
    requires z <= f.emin <= f.emax && f.nbits > 0 && Overflows(f, d, x, z)
    ensures (exists b, e :: FiniteAnswer(f, d, x, b, e, z)) <==> d == Toward
    ensures d == Toward ==> FiniteAnswer(f, d, x, Top(f), f.emax, z)
  {
    hide Pow2, Mag, Top;
    TopRepresentable(f);
    if d == Toward {
      var b, e :| e > f.emax && Rounded(f, d, x, b, e, z);
      BeyondTop(f, b, e, z);
      forall c, g | Representable(f, c, g) && g <= f.emax ensures Mag(c, g, z) <= Mag(Top(f), f.emax, z) {
        WithinTop(f, c, g, z);
      }
      assert FiniteAnswer(f, d, x, Top(f), f.emax, z);
    } else {
      forall b, e ensures !FiniteAnswer(f, d, x, b, e, z) {
        if e <= f.emax && Rounded(f, d, x, b, e, z) {
          NoOverflow(f, d, x, b, e, z);
        }
      }
    }
  }

  // ---- what modes and formats mean ------------------------------------------------------------

  ghost function Signed(negative: bool, v: nat): int {
    if negative then 0 - v else v
  }

  // Of numbers with their signs: up is not below, down is not above, and nothing of this sign lies between; toward
  // zero no magnitude grows.
  lemma ModeIs(f: Fpi, negative: bool, x: nat, b: nat, e: int, z: int)
    requires z <= f.emin && Rounded(f, DirectionOf(f.rounding, negative), x, b, e, z)
    ensures var v, r := Signed(negative, x), Signed(negative, Mag(b, e, z));
      && (f.rounding == RoundUp ==> v <= r) && (f.rounding == RoundDown ==> r <= v)
      && (f.rounding == RoundZero ==> Mag(b, e, z) <= x)
      && forall c, g | Representable(f, c, g) ::
        var w := Signed(negative, Mag(c, g, z));
        && (f.rounding == RoundUp && v <= w ==> r <= w) && (f.rounding == RoundDown && w <= v ==> w <= r)
        && (f.rounding == RoundZero && Mag(c, g, z) <= x ==> Mag(c, g, z) <= Mag(b, e, z))
        && (f.rounding == RoundNear ==> Distance(x, Mag(b, e, z)) <= Distance(x, Mag(c, g, z)))
  {
    hide Mag, Representable;
  }

  // The numbers of a format are all c * 2^e with at most nbits bits and an exponent from emin on, each written in
  // one way.
  lemma {:induction false} FormatHas(f: Fpi, c: nat, e: int) returns (c': nat, e': int)
    requires f.nbits > 0 && c < Pow2(f.nbits) && f.emin <= e
    ensures Representable(f, c', e') && e' <= e && c' == c * Pow2(e - e')
    decreases e - f.emin
  {
    hide Pow2;
    c', e' := c, e;
    Pow2Zero();
    if !Representable(f, c, e) {
      Pow2Next(f.nbits - 1);
      c', e' := FormatHas(f, 2 * c, e - 1);
      Pow2Next(e - 1 - e');
      assert 2 * c * Pow2(e - 1 - e') == c * (2 * Pow2(e - 1 - e'));
    }
  }

  lemma FormatOnce(f: Fpi, c: nat, e: int, c': nat, e': int)
    requires Representable(f, c, e) && Representable(f, c', e') && e' <= e && Mag(c, e, e') == c'
    ensures c == c' && e == e'
  {
    Pow2Zero();
    if e' < e {
      TooWide(f, c, e, e');
    }
  }

  // In a smaller unit a number that is not one of the smallest has too many bits.
  lemma TooWide(f: Fpi, c: nat, e: int, e': int)
    requires Representable(f, c, e) && f.emin <= e' < e
    ensures Mag(c, e, e') >= Pow2(f.nbits)
  {
    Pow2Next(f.nbits - 1);
    Pow2Next(e - 1 - e');
    hide Pow2;
    var p := Pow2(e - 1 - e');
    MulLe(1, p, c);
    assert c * (2 * p) == 2 * (p * c);
  }
}
