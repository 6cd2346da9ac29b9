// The decision at the end of decimal conversion, rounding to nearest: which number of the format the loop stops
// at when its approximation is within half a unit in the last place, and when this is the correct rounding.
module DecimalSettle {
  import opened Arithmetic
  import opened BigNat
  import opened Bigints
  import opened BigShift
  import opened BigCompare
  import opened BigOnes
  import opened HexBits
  import opened PowFive
  import opened RealPowers
  import opened Rounding
  import opened DecimalCheck
  import opened DecimalNearest

  // The format; the largest exponent does not matter here.
  ghost function Format(g: Guess): Fpi {
    Fpi(g.nbits, g.emin, g.emin, RoundNear)
  }

  // What holds at the top of the loop: v has rvbits bits of which the low bb0 are zero.
  ghost predicate Ready(g: Guess, v: nat) {
    && g.Valid() && 0 < g.rvbits && Pow2(g.rvbits - 1) <= v < Pow2(g.rvbits) && v % Pow2(g.bb0) == 0
    && (g.Denormal() ==> g.rve == g.emin && g.bb0 == 0)
  }

  // The significand of v * 2^rve in the format.
  ghost function Sig(g: Guess, v: nat): nat
    requires g.Valid()
  {
    v * Pow2(g.rve - g.Ulp())
  }

  // The ulp is the unit of the format: in it the approximation is a number of the format.
  lemma UlpIsUnit(g: Guess, v: nat)
    requires g.Valid() && 0 < g.rvbits && Pow2(g.rvbits - 1) <= v < Pow2(g.rvbits)
    ensures g.Ulp() <= g.rve && Representable(Format(g), Sig(g, v), g.Ulp()) && Num(Sig(g, v), g.Ulp()) == g.Rv(v)
    ensures Sig(g, v) > 0
  {
    hide Pow2, RealPow;
    var k := g.rve - g.Ulp();
    Pow2Add(g.rvbits, k);
    Pow2Add(g.rvbits - 1, k);
    MulLt(v, Pow2(g.rvbits), Pow2(k));
    MulLe(Pow2(g.rvbits - 1), v, Pow2(k));
    MulLe(1, v, Pow2(k));
    Pow2Mono(g.rvbits + k, g.nbits);
    assert Num(Sig(g, v), g.Ulp()) == g.Rv(v) by {
      MagIsNum(v, g.rve, g.Ulp());
      hide Guess.Ulp;
    }
  }

  // ---- the decision ---------------------------------------------------------------------------

  // Again: adjust and compare again. DropDown: all ones, one binade below. NextNormal: the smallest normal number.
  datatype Move = Again | Keep | DropDown | NextNormal | Up | Down | Zero

  // What the loop does, given the error x - rv.
  ghost function MoveOf(g: Guess, v: nat, x: real): Move {
    var rv, half := g.Rv(v), g.HalfUnit();
    var err := Apart(rv, x);
    if rv == x then Keep
    else if err > half then Again
    else if err < half then
      if rv < x || g.rvbits - g.bb0 > 1 || g.Ulp() == g.emin || 2.0 * err <= half then Keep else DropDown
    else TieMove(g, v, rv < x)
  }

  // Half-way to the next number, above or below.
  ghost function TieMove(g: Guess, v: nat, above: bool): Move {
    var bbbits := g.rvbits - g.bb0;
    if above && g.Denormal() && v + 1 == Pow2(g.rvbits) then NextNormal
    else if !above && bbbits == 1 then
      if g.Ulp() != g.emin then DropDown else if g.Denormal() then Zero else Keep
    else if (bbbits < g.nbits && !g.Denormal()) || v % 2 == 0 then Keep
    else if above then Up else Down
  }

  // Where it ends up.
  ghost function Result(g: Guess, v: nat, m: Move): (nat, int)
    requires Ready(g, v)
  {
    match m
    case Again => (v, g.rve)
    case Keep => (Sig(g, v), g.Ulp())
    case DropDown => (Pow2(g.nbits) - 1, g.rve - g.nbits)
    case NextNormal => (Pow2(g.nbits - 1), g.emin)
    case Up => if g.Denormal() then (v + 1, g.emin) else Behind(Format(g), v, g.rve)
    case Down => (v - 1, g.rve)
    case Zero => (0, g.emin)
  }

  // The inputs on which it is not the correct rounding:
  // - half a unit above a denormal number whose bits are all ones, unless this is the largest one;
  // - more than a quarter of a unit below a power of two that is not kept as the single bit 1;
  // - with one bit, half of the smallest number.
  ghost predicate Misses(g: Guess, v: nat, x: real)
    requires Ready(g, v)
  {
    var rv, half := g.Rv(v), g.HalfUnit();
    var err := Apart(rv, x);
    || (rv < x && err == half && g.Denormal() && v + 1 == Pow2(g.rvbits) && g.rvbits + 1 < g.nbits)
    || (x < rv && half < 2.0 * err && AtBinade(Format(g), Sig(g, v), g.Ulp()) && g.rvbits > 1)
    || (x < rv && err == half && g.nbits == 1 && g.Ulp() == g.emin)
  }

  // The approximation and its neighbours in the format.
  ghost predicate Around(f: Fpi, q: nat, u: int, rv: real, half: real, lo: real, hi: real) {
    && Representable(f, q, u) && q > 0 && Num(q, u) == rv && half > 0.0
    && Empty(f, lo, rv) && Empty(f, rv, hi)
    && lo == rv - (if AtBinade(f, q, u) then half else 2.0 * half) && hi == rv + 2.0 * half
    && (var (c, k) := Before(f, q, u); Representable(f, c, k) && Num(c, k) == lo)
    && (var (c, k) := Behind(f, q, u); Representable(f, c, k) && Num(c, k) == hi)
  }

  lemma Neighbours(g: Guess, v: nat) returns (lo: real, hi: real)
    requires Ready(g, v)
    ensures Around(Format(g), Sig(g, v), g.Ulp(), g.Rv(v), g.HalfUnit(), lo, hi)
  {
    var f, q, u := Format(g), Sig(g, v), g.Ulp();
    UlpIsUnit(g, v);
    hide Pow2, RealPow, Num, Sig, AtBinade, Guess.Rv, Guess.Ulp;
    BeforeIs(f, q, u);
    BehindIs(f, q, u);
    var (c, k) := Before(f, q, u);
    var (c', k') := Behind(f, q, u);
    lo, hi := Num(c, k), Num(c', k');
  }

  lemma ZeroNum(e: int)
    ensures Num(0, e) == 0.0
  {
  }

  // With one bit every number but zero has the significand 1.
  lemma OneBitOdd(f: Fpi, v: real)
    requires f.nbits == 1 && v != 0.0
    ensures OddOnly(f, v)
  {
    assert Pow2(1) == 2 * Pow2(0);
    forall c, k | Representable(f, c, k) && Num(c, k) == v ensures c % 2 == 1 {
      ZeroNum(k);
    }
  }

  // The approximation itself, from below and from above.
  lemma KeepBelow(f: Fpi, q: nat, u: int, rv: real, half: real, lo: real, hi: real, x: real)
    requires Around(f, q, u, rv, half, lo, hi) && rv <= x && x - rv <= half && (x - rv == half ==> q % 2 == 0)
    ensures NearestTo(f, x, q, u)
  {
    hide Num, Representable, NearestTo, Empty;
    LowerIsNearest(f, x, q, u, hi);
  }

  lemma KeepAbove(f: Fpi, q: nat, u: int, rv: real, half: real, lo: real, hi: real, x: real)
    requires Around(f, q, u, rv, half, lo, hi) && x < rv && 2.0 * (rv - x) <= rv - lo
    requires 2.0 * (rv - x) == rv - lo ==> q % 2 == 0 || OddOnly(f, lo)
    ensures NearestTo(f, x, q, u)
  {
    hide Num, Representable, NearestTo, Empty, OddOnly;
    UpperIsNearest(f, x, q, u, lo);
  }

  // The number before it.
  lemma DownRight(f: Fpi, q: nat, u: int, rv: real, half: real, lo: real, hi: real, x: real)
    requires Around(f, q, u, rv, half, lo, hi) && lo <= x && rv - lo <= 2.0 * (rv - x)
    requires 2.0 * (rv - x) == rv - lo ==> Before(f, q, u).0 % 2 == 0
    ensures NearestTo(f, x, Before(f, q, u).0, Before(f, q, u).1)
  {
    var (c, k) := Before(f, q, u);
    hide Num, Representable, NearestTo, Empty, Before;
    LowerIsNearest(f, x, c, k, rv);
  }

  // The number behind it.
  lemma UpRight(f: Fpi, q: nat, u: int, rv: real, half: real, lo: real, hi: real, x: real)
    requires Around(f, q, u, rv, half, lo, hi) && x <= hi && x - rv >= half
    requires x - rv == half ==> Behind(f, q, u).0 % 2 == 0 || OddOnly(f, rv)
    ensures NearestTo(f, x, Behind(f, q, u).0, Behind(f, q, u).1)
  {
    var (c, k) := Behind(f, q, u);
    hide Num, Representable, NearestTo, Empty, Behind, OddOnly;
    UpperIsNearest(f, x, c, k, rv);
  }

  // ---- bits ------------------------------------------------------------------------------------

  lemma SigIs(g: Guess, v: nat)
    requires Ready(g, v)
    ensures if g.Denormal() then Sig(g, v) == v && g.Ulp() == g.rve == g.emin
      else Sig(g, v) == v * Pow2(g.nbits - g.rvbits) && g.Ulp() == g.rve - (g.nbits - g.rvbits)
    ensures g.rvbits == g.nbits ==> Sig(g, v) == v && g.Ulp() == g.rve
  {
    Pow2Zero();
  }

  // Whether the significand is even.
  lemma EvenSig(g: Guess, v: nat)
    requires Ready(g, v)
    ensures Sig(g, v) % 2 == 0 <==> (g.rvbits - g.bb0 < g.nbits && !g.Denormal()) || v % 2 == 0
  {
    SigIs(g, v);
    hide Guess.Ulp, Sig;
    if !g.Denormal() {
      EvenTimes(v, g.nbits - g.rvbits);
      if g.bb0 > 0 {
        EvenPart(v, g.bb0);
      }
    }
  }

  lemma EvenTimes(v: nat, k: nat)
    ensures k > 0 ==> v * Pow2(k) % 2 == 0
  {
    if k > 0 {
      assert v * Pow2(k) == 2 * (v * Pow2(k - 1));
    }
  }

  lemma EvenPart(v: nat, k: nat)
    requires k > 0 && v % Pow2(k) == 0
    ensures v % 2 == 0
  {
    var p := Pow2(k);
    EvenTimes(v / p, k);
    assert v == v / p * p;
  }

  // One bit besides the zeros: a power of two.
  lemma OneBitLeft(g: Guess, v: nat)
    requires Ready(g, v) && g.rvbits - g.bb0 == 1
    ensures v == Pow2(g.rvbits - 1)
  {
    var p := Pow2(g.bb0);
    hide Pow2;
    Pow2Next(g.bb0);
    assert v == v / p * p;
    if v / p >= 2 {
      MulLe(2, v / p, p);
    }
  }

  // At the end of a binade exactly for powers of two, above the smallest exponent.
  lemma BinadeIs(g: Guess, v: nat)
    requires Ready(g, v)
    ensures AtBinade(Format(g), Sig(g, v), g.Ulp()) <==> g.Ulp() > g.emin && v == Pow2(g.rvbits - 1)
    ensures !g.Denormal() && v == Pow2(g.rvbits - 1) ==> Sig(g, v) == Pow2(g.nbits - 1)
  {
    SigIs(g, v);
    if !g.Denormal() {
      var k := g.nbits - g.rvbits;
      Pow2Add(g.rvbits - 1, k);
      hide Pow2, Sig, Guess.Ulp;
      var a, p := Pow2(g.rvbits - 1), Pow2(k);
      if v * p == a * p {
        CancelLe(v, a, p);
        CancelLe(a, v, p);
      }
    }
  }

  lemma EvenPower(n: nat)
    requires n > 0
    ensures Pow2(n - 1) % 2 == 0 <==> n > 1
  {
    if n > 1 {
      assert Pow2(n - 1) == 2 * Pow2(n - 2);
    }
  }

  // ---- when the result is the correct rounding --------------------------------------------------

  ghost predicate Right(g: Guess, v: nat, x: real, m: Move)
    requires Ready(g, v)
  {
    NearestTo(Format(g), x, Result(g, v, m).0, Result(g, v, m).1)
  }

  lemma KeepIsRight(g: Guess, v: nat, x: real)
    requires Ready(g, v) && MoveOf(g, v, x) == Keep
    ensures Right(g, v, x, Keep) <==> !Misses(g, v, x)
  {
    hide Pow2, RealPow, Num, Sig, NearestTo, Guess.Rv, Guess.HalfUnit, Guess.Ulp, Representable, Empty;
    var f, q, u, rv, half := Format(g), Sig(g, v), g.Ulp(), g.Rv(v), g.HalfUnit();
    var lo, hi := Neighbours(g, v);
    EvenSig(g, v);
    BinadeIs(g, v);
    EvenPower(g.nbits);
    if g.rvbits - g.bb0 == 1 {
      OneBitLeft(g, v);
    }
    if rv <= x {
      KeepBelow(f, q, u, rv, half, lo, hi, x);
    } else {
      KeepAboveIff(g, v, x, lo, hi);
    }
  }

  lemma KeepAboveIff(g: Guess, v: nat, x: real, lo: real, hi: real)
    requires Ready(g, v) && MoveOf(g, v, x) == Keep && x < g.Rv(v)
    requires Around(Format(g), Sig(g, v), g.Ulp(), g.Rv(v), g.HalfUnit(), lo, hi)
    ensures Right(g, v, x, Keep) <==> !Misses(g, v, x)
  {
    var f, q, u, rv, half := Format(g), Sig(g, v), g.Ulp(), g.Rv(v), g.HalfUnit();
    EvenSig(g, v);
    BinadeIs(g, v);
    EvenPower(g.nbits);
    if g.rvbits - g.bb0 == 1 {
      OneBitLeft(g, v);
    }
    if Misses(g, v, x) {
      LowerIsBetter(f, q, u, rv, half, lo, hi, x);
    } else {
      if g.nbits == 1 && lo != 0.0 {
        OneBitOdd(f, lo);
      }
      KeepAbove(f, q, u, rv, half, lo, hi, x);
    }
  }

  // The number before is nearer, or as near and even while this one is odd.
  lemma LowerIsBetter(f: Fpi, q: nat, u: int, rv: real, half: real, lo: real, hi: real, x: real)
    requires Around(f, q, u, rv, half, lo, hi) && x < rv && lo <= x
    requires 2.0 * (rv - x) > rv - lo || (2.0 * (rv - x) == rv - lo && q % 2 == 1 && Before(f, q, u).0 % 2 == 0)
    ensures !NearestTo(f, x, q, u)
  {
    var (c, k) := Before(f, q, u);
    hide Num, Representable, NearestTo, Empty, Before;
    NotNearest(f, x, q, u, c, k);
  }

  lemma {:induction false} RealPowLess(i: int, j: int)
    requires i < j
    ensures RealPow(2.0, i) < RealPow(2.0, j)
    decreases j - i
  {
    RealPowNext(2.0, j - 1);
    if i < j - 1 {
      RealPowLess(i, j - 1);
    }
  }

  lemma NumLess(c: nat, e: int, c': nat, e': int)
    requires (c < c' && e == e') || (0 < c == c' && e < e')
    ensures Num(c, e) < Num(c', e')
  {
    hide RealPow;
    if e < e' {
      RealPowLess(e, e');
    }
    TimesLess(c, RealPow(2.0, e), c', RealPow(2.0, e'));
  }

  lemma TimesLess(c: nat, p: real, c': nat, p': real)
    requires 0.0 < p && ((c < c' && p == p') || (0 < c == c' && p < p'))
    ensures c as real * p < c' as real * p'
  {
    if c < c' {
      assert (c' - c) as real * p > 0.0;
    } else {
      assert c as real * (p' - p) > 0.0;
    }
  }

  lemma DropDownIsRight(g: Guess, v: nat, x: real)
    requires Ready(g, v) && MoveOf(g, v, x) == DropDown
    ensures Right(g, v, x, DropDown) <==> !Misses(g, v, x)
  {
    hide Pow2, RealPow, Num, Sig, NearestTo, Guess.Rv, Guess.HalfUnit, Representable, Empty;
    var f, q, u, rv, half := Format(g), Sig(g, v), g.Ulp(), g.Rv(v), g.HalfUnit();
    var lo, hi := Neighbours(g, v);
    OneBitLeft(g, v);
    BinadeIs(g, v);
    Pow2Next(g.nbits - 1);
    var c := Pow2(g.nbits) - 1;
    assert Before(f, q, u) == (c, u - 1);
    if g.rvbits == 1 {
      DownRight(f, q, u, rv, half, lo, hi, x);
    } else {
      NumLess(c, g.rve - g.nbits, c, u - 1);
      NotNearest(f, x, c, g.rve - g.nbits, c, u - 1);
    }
  }

  lemma NextNormalIsRight(g: Guess, v: nat, x: real)
    requires Ready(g, v) && MoveOf(g, v, x) == NextNormal
    ensures Right(g, v, x, NextNormal) <==> !Misses(g, v, x)
  {
    hide Pow2, RealPow, Num, Sig, NearestTo, Guess.Rv, Guess.HalfUnit, Guess.Ulp, Representable, Empty;
    var f, q, u, rv, half := Format(g), Sig(g, v), g.Ulp(), g.Rv(v), g.HalfUnit();
    var lo, hi := Neighbours(g, v);
    SigIs(g, v);
    EvenPower(g.nbits);
    BitsLess(g.rvbits, g.nbits);
    assert Behind(f, q, u) == (v + 1, u);
    if g.rvbits + 1 == g.nbits {
      UpRight(f, q, u, rv, half, lo, hi, x);
    } else {
      NumLess(v + 1, u, Pow2(g.nbits - 1), u);
      NotNearest(f, x, Pow2(g.nbits - 1), u, v + 1, u);
    }
  }

  lemma BitsLess(m: nat, n: nat)
    requires m < n
    ensures Pow2(m) <= Pow2(n - 1) < Pow2(n) && (m + 1 < n ==> Pow2(m) < Pow2(n - 1))
  {
    Pow2Mono(m, n - 1);
    if m + 1 < n {
      Pow2Mono(m, n - 2);
    }
  }

  lemma UpIsRight(g: Guess, v: nat, x: real)
    requires Ready(g, v) && MoveOf(g, v, x) == Up
    ensures Right(g, v, x, Up) && !Misses(g, v, x)
  {
    hide Pow2, RealPow, Num, Sig, NearestTo, Guess.Rv, Guess.HalfUnit, Guess.Ulp, Representable, Empty, OddOnly;
    var f, q, u, rv, half := Format(g), Sig(g, v), g.Ulp(), g.Rv(v), g.HalfUnit();
    var lo, hi := Neighbours(g, v);
    SigIs(g, v);
    EvenSig(g, v);
    EvenPower(g.nbits);
    if g.Denormal() {
      BitsLess(g.rvbits, g.nbits);
    }
    if g.nbits == 1 {
      NumLess(0, u, q, u);
      ZeroNum(u);
      OneBitOdd(f, rv);
    }
    assert Behind(f, q, u) == Result(g, v, Up);
    UpRight(f, q, u, rv, half, lo, hi, x);
  }

  lemma DownIsRight(g: Guess, v: nat, x: real)
    requires Ready(g, v) && MoveOf(g, v, x) == Down
    ensures Right(g, v, x, Down) && !Misses(g, v, x)
  {
    hide Pow2, RealPow, Num, Sig, NearestTo, Guess.Rv, Guess.HalfUnit, Guess.Ulp, Representable, Empty;
    var f, q, u, rv, half := Format(g), Sig(g, v), g.Ulp(), g.Rv(v), g.HalfUnit();
    var lo, hi := Neighbours(g, v);
    SigIs(g, v);
    EvenSig(g, v);
    BinadeIs(g, v);
    EvenPower(g.rvbits);
    assert Before(f, q, u) == (v - 1, g.rve);
    DownRight(f, q, u, rv, half, lo, hi, x);
  }

  lemma ZeroIsRight(g: Guess, v: nat, x: real)
    requires Ready(g, v) && MoveOf(g, v, x) == Zero
    ensures Right(g, v, x, Zero) && !Misses(g, v, x)
  {
    hide Pow2, RealPow, Num, Sig, NearestTo, Guess.Rv, Guess.HalfUnit, Guess.Ulp, Representable, Empty;
    var f, q, u, rv, half := Format(g), Sig(g, v), g.Ulp(), g.Rv(v), g.HalfUnit();
    var lo, hi := Neighbours(g, v);
    SigIs(g, v);
    OneBitLeft(g, v);
    BinadeIs(g, v);
    Pow2Zero();
    assert Before(f, q, u) == (0, u);
    DownRight(f, q, u, rv, half, lo, hi, x);
  }

  // The decision stops exactly within half a unit in the last place, and then the result is the correct rounding
  // of x, to nearest with ties to even, if and only if x is none of the inputs above.
  lemma SettledRight(g: Guess, v: nat, x: real)
    requires Ready(g, v)
    ensures var m := MoveOf(g, v, x);
      && (m == Again <==> Apart(g.Rv(v), x) > g.HalfUnit())
      && (m != Again ==> (Right(g, v, x, m) <==> !Misses(g, v, x)))
  {
    assert MoveOf(g, v, x) == Again <==> Apart(g.Rv(v), x) > g.HalfUnit() by {
      UnitPositive(g);
      hide Guess.Rv, Guess.HalfUnit, Guess.Ulp, Pow2;
    }
    hide Right, Misses, Ready;
    match MoveOf(g, v, x)
    case Again =>
    case Keep => KeepIsRight(g, v, x);
    case DropDown => DropDownIsRight(g, v, x);
    case NextNormal => NextNormalIsRight(g, v, x);
    case Up => UpIsRight(g, v, x);
    case Down => DownIsRight(g, v, x);
    case Zero => ZeroIsRight(g, v, x);
  }

  lemma UnitPositive(g: Guess)
    ensures g.HalfUnit() > 0.0
  {
  }

  // ---- the code -------------------------------------------------------------------------------

  // The bits of v lie in its words.
  lemma WordsHold(s: seq<Word>, n: nat)
    requires 0 < n && Pow2(n - 1) <= Val(s)
    ensures n <= 32 * |s|
  {
    ValBound(s);
    PowerPow2(|s|);
    hide Val, Power, Pow2;
    if 32 * |s| <= n - 1 {
      Pow2Mono(32 * |s|, n - 1);
    }
  }

  lemma SmallMod(v: nat, p: nat)
    requires v < p
    ensures v % p == v
  {
  }

  lemma ValOne(s: seq<Word>)
    requires Normal(s)
    ensures Val(s) == 1 <==> |s| == 1 && s[0] == 1
  {
    ValTop(s);
    if |s| > 1 {
      PowerMono(1, |s| - 1);
      assert Power(1) == BASE * Power(0);
    } else {
      ValFirst(s);
    }
  }

  lemma NormalOf(s: seq<Word>)
    requires Proper(s) && Val(s) > 0
    ensures Normal(s)
  {
    ValZeros(s);
  }

  // The tests of the loop, in nearest mode.
  method Decide(rvb: Bigint, bd0: Bigint, g: Guess, powers: Powers) returns (m: Move)
    requires powers.Valid() && rvb.Valid() && bd0.Valid() && Normal(rvb.Words()) && Normal(bd0.Words())
    requires Ready(g, rvb.Value())
    modifies powers, powers.Cells()`next
    ensures powers.Valid() && fresh(powers.Cells() - old(powers.Cells()))
      && forall n | n in powers.Cells() - old(powers.Cells()) :: fresh(n.x)
    ensures m == MoveOf(g, rvb.Value(), g.Exact(bd0.Value()))
  {
    hide Val, Pow2, Powers.Valid, Guess.Rv, Guess.Exact, Guess.HalfUnit;
    var i, dsign, equal, delta, bs := Compare(rvb, bd0, g, powers);
    var bbbits := g.rvbits - g.bb0;
    UnitPositive(g);
    if equal {
      return Keep;
    }
    if i < 0 {
      if dsign == 1 || bbbits > 1 || g.Denormal() || g.rve + g.rvbits - g.nbits == g.emin {
        return Keep;
      }
      m := LowerHalf(delta, bs);
      return;
    }
    if i == 0 {
      m := Tie(rvb, g, dsign == 1);
      return;
    }
    return Again;
  }

  // Twice the error against half a unit.
  method LowerHalf(delta: Bigint, bs: Bigint) returns (m: Move)
    requires delta.Valid() && bs.Valid() && Normal(bs.Words()) && Proper(delta.Words()) && delta.Value() > 0
    ensures m == if 2 * delta.Value() <= bs.Value() then Keep else DropDown
  {
    hide Val, Pow2;
    assert Pow2(1) == 2 by { Pow2Zero(); Pow2Next(0); }
    NormalOf(delta.Words());
    var twice := Lshift(delta, 1);
    var c := Cmp(twice, bs);
    m := if c > 0 then DropDown else Keep;
  }

  // Half-way.
  method Tie(rvb: Bigint, g: Guess, above: bool) returns (m: Move)
    requires rvb.Valid() && Normal(rvb.Words()) && Ready(g, rvb.Value())
    ensures m == TieMove(g, rvb.Value(), above)
  {
    hide Val, Pow2;
    var bbbits := g.rvbits - g.bb0;
    WordsHold(rvb.Words(), g.rvbits);
    LowBit(rvb.Words());
    if above {
      SmallMod(rvb.Value(), Pow2(g.rvbits));
      var ones := AllOn(rvb, g.rvbits);
      if g.Denormal() && ones {
        return NextNormal;
      }
    } else if bbbits == 1 {
      OneBitLeft(g, rvb.Value());
      ValOne(rvb.Words());
      Pow2Zero();
      if g.Denormal() || g.rve + g.rvbits - g.nbits == g.emin {
        return if rvb.wds == 1 && rvb.x[0] == 1 && g.Denormal() then Zero else Keep;
      }
      return DropDown;
    }
    if (bbbits < g.nbits && !g.Denormal()) || rvb.x[0] % 2 == 0 {
      return Keep;
    }
    m := if above then Up else Down;
  }

  // The tail: a number that is not denormal is brought to nbits bits.
  method ToPrecision(b: Bigint, exp: int, bits: nat, nbits: nat) returns (r: Bigint, exp': int)
    requires b.Valid() && b.wds > 0
    modifies b`wds, b.x
    ensures r.Valid() && (r == b || (fresh(r) && fresh(r.x)))
    ensures exp' == exp - (nbits - bits)
    ensures bits <= nbits ==> r.Value() == old(b.Value()) * Pow2(nbits - bits)
    ensures bits > nbits ==> r.Value() == old(b.Value()) / Pow2(bits - nbits)
  {
    hide Val, Pow2;
    r, exp' := b, exp - (nbits - bits);
    Pow2Zero();
    if bits < nbits {
      r := Lshift(b, nbits - bits);
    } else if nbits < bits {
      Rshift(b, bits - nbits);
    }
  }

  // What the moves up and down need.
  ghost predicate Possible(g: Guess, v: nat, m: Move) {
    && (m == Up ==> if g.Denormal() then v + 1 < Pow2(g.rvbits) else g.rvbits == g.nbits)
    && (m == Down ==> g.Denormal() || g.rvbits == g.nbits) && (m == NextNormal || m == Zero ==> g.Denormal())
  }

  lemma PossibleMove(g: Guess, v: nat, x: real)
    requires Ready(g, v)
    ensures Possible(g, v, MoveOf(g, v, x))
  {
  }

  lemma BitsOnce(v: nat, a: nat, b: nat)
    requires 0 < a && 0 < b && Pow2(a - 1) <= v < Pow2(a) && Pow2(b - 1) <= v < Pow2(b)
    ensures a == b
  {
    hide Pow2;
    if a < b {
      Pow2Mono(a, b - 1);
    } else if b < a {
      Pow2Mono(b, a - 1);
    }
  }

  // Whether an increment made the number longer, told from the leading zeros of its top word.
  method Longer(b: Bigint, bits: nat) returns (bits': nat)
    requires b.Valid() && Normal(b.Words()) && 0 < bits && Pow2(bits - 1) <= b.Value() <= Pow2(bits)
    ensures bits' == if b.Value() < Pow2(bits) then bits else bits + 1
  {
    hide Val, Pow2;
    var j := (32 - bits % 32) % 32;
    var h := Hi0Bits(b.x[b.wds - 1]);
    BitLength(b.Words(), h);
    Pow2Next(bits);
    ghost var n := if b.Value() < Pow2(bits) then bits else bits + 1;
    BitsOnce(b.Value(), 32 * b.wds - h, n);
    bits' := if h != j then bits + 1 else bits;
  }

  // rvb, its exponent and its length after the move.
  method Change(rvb: Bigint, g: Guess, m: Move) returns (b: Bigint, exp: int, bits: nat, denorm: bool)
    requires rvb.Valid() && Normal(rvb.Words()) && Ready(g, rvb.Value()) && Possible(g, rvb.Value(), m)
    modifies rvb`wds, rvb.x
    ensures b.Valid() && (b == rvb || (fresh(b) && fresh(b.x))) && (!denorm ==> b.wds > 0)
    ensures var v := old(rvb.Value());
      match m
      case DropDown =>
        b.Value() + 1 == Pow2(g.nbits) && exp == g.rve - g.nbits && bits == g.nbits && denorm == g.Denormal()
      case NextNormal => b.Value() == 1 && exp == g.emin + g.nbits - 1 && bits == 1 && !denorm
      case Up => b.Value() == v + 1 && exp == g.rve && denorm == g.Denormal()
        && bits == if v + 1 < Pow2(g.rvbits) then g.rvbits else g.rvbits + 1
      case Down => b.Value() == v - 1 && exp == g.rve && bits == g.rvbits && denorm == g.Denormal()
      case Zero => b.Value() == 0 && exp == g.rve && bits == g.rvbits && denorm
      case _ => b.Value() == v && exp == g.rve && bits == g.rvbits && denorm == g.Denormal()
  {
    hide Val, Pow2;
    PositiveValue(rvb.Words());
    b, exp, bits, denorm := rvb, g.rve, g.rvbits, g.Denormal();
    match m
    case Again =>
    case Keep =>
    case DropDown =>
      b := SetOnes(rvb, g.nbits);
      exp, bits := exp - g.nbits, g.nbits;
    case NextNormal =>
      rvb.wds := 1;
      rvb.x[0] := 1;
      ValOne(rvb.Words());
      exp, bits, denorm := g.emin + g.nbits - 1, 1, false;
    case Up =>
      b := Increment(rvb);
      bits := Longer(b, bits);
    case Down =>
      Decrement(rvb);
    case Zero =>
      rvb.wds := 0;
      ValZeros(rvb.Words());
  }

  method Take(rvb: Bigint, g: Guess, m: Move) returns (b: Bigint, exp: int)
    requires rvb.Valid() && Normal(rvb.Words()) && Ready(g, rvb.Value()) && Possible(g, rvb.Value(), m) && m != Again
    modifies rvb`wds, rvb.x
    ensures b.Valid() && (b == rvb || (fresh(b) && fresh(b.x)))
    ensures (b.Value(), exp) == Result(g, old(rvb.Value()), m)
  {
    hide Val, Pow2, Sig, Guess.Ulp;
    var bits, denorm;
    b, exp, bits, denorm := Change(rvb, g, m);
    SigIs(g, old(rvb.Value()));
    Pow2Zero();
    Halved(g.nbits);
    if !denorm {
      b, exp := ToPrecision(b, exp, bits, g.nbits);
    }
  }

  lemma Halved(n: nat)
    ensures n > 0 ==> Pow2(n) / Pow2(1) == Pow2(n - 1)
  {
    if n > 0 {
      assert Pow2(n) == 2 * Pow2(n - 1);
    }
  }

  // Decision and tail: the number the loop stops at.
  method Settle(rvb: Bigint, bd0: Bigint, g: Guess, powers: Powers) returns (m: Move, b: Bigint, exp: int)
    requires powers.Valid() && rvb.Valid() && bd0.Valid() && Normal(rvb.Words()) && Normal(bd0.Words())
    requires Ready(g, rvb.Value()) && forall n | n in powers.Cells() :: n != rvb && n.x != rvb.x
    modifies rvb`wds, rvb.x, powers, powers.Cells()`next
    ensures powers.Valid() && b.Valid()
    ensures var v, x := old(rvb.Value()), g.Exact(old(bd0.Value()));
      && (m == Again <==> Apart(g.Rv(v), x) > g.HalfUnit())
      && (m != Again ==> (NearestTo(Format(g), x, b.Value(), exp) <==> !Misses(g, v, x)))
  {
    hide Val, Pow2, Powers.Valid, Guess.Rv, Guess.Exact, Guess.HalfUnit, MoveOf, Ready, Misses, NearestTo;
    SettledRight(g, rvb.Value(), g.Exact(bd0.Value()));
    m := Decide(rvb, bd0, g, powers);
    PossibleMove(g, old(rvb.Value()), g.Exact(old(bd0.Value())));
    if m == Again {
      b, exp := rvb, g.rve;
      return;
    }
    b, exp := Take(rvb, g, m);
  }

  // ---- inputs ------------------------------------------------------------------------------------

  // One and a half times the smallest number 2^emin, written out in decimal digits, with the smallest number as the
  // approximation: the result is the smallest normal number, although there are numbers nearer by.
  lemma TieExample(nbits: nat, emin: int)
    requires nbits > 2 && emin < 0
    ensures var g, bd0 := Guess(emin, 1, 0, emin - 1, nbits, emin), 3 * Pow5(1 - emin);
      && Ready(g, 1) && MoveOf(g, 1, g.Exact(bd0)) == NextNormal && Misses(g, 1, g.Exact(bd0))
      && Result(g, 1, NextNormal) == (Pow2(nbits - 1), emin) && NearestTo(Format(g), g.Exact(bd0), 2, emin)
  {
    var g, bd0 := Guess(emin, 1, 0, emin - 1, nbits, emin), 3 * Pow5(1 - emin);
    assert Ready(g, 1);
    assert g.Rv(1) == 2.0 * g.HalfUnit() && g.Exact(bd0) == 3.0 * g.HalfUnit() by { ThreeHalves(emin); }
    UnitPositive(g);
    var lo, hi := Neighbours(g, 1);
    SigIs(g, 1);
    assert Pow2(1) == 2;
    Pow2Mono(2, nbits);
    hide RealPow, Num, Guess.Rv, Guess.Exact, Guess.HalfUnit, Empty;
    assert Behind(Format(g), 1, emin) == (2, emin);
    UpRight(Format(g), 1, emin, g.Rv(1), g.HalfUnit(), lo, hi, g.Exact(bd0));
  }

  lemma ThreeHalves(emin: int)
    requires emin < 0
    ensures RealPow(2.0, emin) == 2.0 * RealPow(2.0, emin - 1)
    ensures (3 * Pow5(1 - emin)) as real * RealPow(10.0, emin - 1) == 3.0 * RealPow(2.0, emin - 1)
  {
    hide RealPow, Pow5;
    RealPowNext(2.0, emin - 1);
    RealPowTen(emin - 1);
    RealPowFive(1 - emin);
    RealPowAdd(5.0, 1 - emin, emin - 1);
    RealPowZero(5.0);
    FivesCancel(Pow5(1 - emin), RealPow(5.0, emin - 1), RealPow(2.0, emin - 1), RealPow(10.0, emin - 1));
  }

  lemma FivesCancel(p: nat, q: real, t: real, ten: real)
    requires p as real * q == 1.0 && ten == t * q
    ensures (3 * p) as real * ten == 3.0 * t
  {
    var r := p as real;
    assert (3 * p) as real == 3.0 * r;
    ThreeReals(r, q, t);
    OneTimes(r * q, t);
    assert q * t == t * q;
    ThreeReals(3.0, r, ten);
  }

  lemma OneTimes(a: real, t: real)
    requires a == 1.0
    ensures a * t == t
  {
  }

  // 2^(n - 1) - 0.3, with 2^(n - 1) as the approximation, kept in n bits: all ones, but with an exponent that is
  // too small by n - 1.
  lemma DropExample(n: nat, emin: int)
    requires n > 1 && emin < 0
    ensures var g, v, bd0 := Guess(0, n, n - 1, -1, n, emin), Pow2(n - 1), 10 * Pow2(n - 1) - 3;
      && Ready(g, v) && g.Exact(bd0) == v as real - 0.3 && MoveOf(g, v, g.Exact(bd0)) == DropDown
      && Misses(g, v, g.Exact(bd0)) && Result(g, v, DropDown) == (Pow2(n) - 1, 0 - n)
      && NearestTo(Format(g), g.Exact(bd0), Pow2(n) - 1, -1)
  {
    var g, v, bd0 := Guess(0, n, n - 1, -1, n, emin), Pow2(n - 1), 10 * Pow2(n - 1) - 3;
    assert Ready(g, v) by { Pow2Next(n - 1); }
    assert g.Rv(v) == v as real && g.HalfUnit() == 0.5 && g.Exact(bd0) == v as real - 0.3 by { Tenths(bd0); }
    var lo, hi := Neighbours(g, v);
    SigIs(g, v);
    BinadeIs(g, v);
    hide RealPow, Num, Guess.Rv, Guess.Exact, Guess.HalfUnit, Empty;
    Pow2Next(n - 1);
    assert Before(Format(g), v, 0) == (Pow2(n) - 1, -1);
    DownRight(Format(g), v, 0, g.Rv(v), g.HalfUnit(), lo, hi, g.Exact(bd0));
  }

  lemma Tenths(bd0: nat)
    ensures RealPow(2.0, 0) == 1.0 && RealPow(2.0, -1) == 0.5 && bd0 as real * RealPow(10.0, -1) == bd0 as real / 10.0
  {
  }
}
