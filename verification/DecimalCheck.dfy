// The exact comparison at the heart of decimal conversion: is the approximation rv, as rvb * 2^rve,
// within half a unit in the last place of the digits bd0 * 10^e?
module DecimalCheck {
  import opened Arithmetic
  import opened BigNat
  import opened Bigints
  import opened BigShift
  import opened BigCompare
  import opened BigMult
  import opened PowFive
  import opened RealPowers
  import opened Rounding

  // The state at the top of the correction loop. Of rvb's rvbits bits the low bb0 are zero; the unit
  // in the last place is 2^ulp.
  datatype Guess = Guess(rve: int, rvbits: nat, bb0: nat, e: int, nbits: nat, emin: int) {
    ghost predicate Valid() {
      bb0 <= rvbits <= nbits && rve >= emin
    }

    // Fewer than nbits bits although the exponent is the smallest.
    predicate Denormal() {
      rve + rvbits - nbits < emin
    }

    ghost function Ulp(): int {
      if Denormal() then emin else rve + rvbits - nbits
    }

    ghost function HalfUlp(): int {
      Ulp() - 1
    }

    // The approximation, the digits read, and half a unit in the last place, as real numbers.
    ghost function Rv(rvb: nat): real {
      rvb as real * RealPow(2.0, rve)
    }

    ghost function Exact(bd0: nat): real {
      bd0 as real * RealPow(10.0, e)
    }

    ghost function HalfUnit(): real {
      RealPow(2.0, HalfUlp())
    }

    // All three numbers are integers in units of 2^z / 10^n.
    ghost function Z(): int {
      if emin - 1 < 0 then emin - 1 else 0
    }

    ghost function N(): nat {
      if e < 0 then -e else 0
    }
  }

  // rvb * 2^rve, bd0 * 10^e and half a unit in the last place, in that unit.
  ghost function Binary(g: Guess, rvb: nat): nat
    requires g.Valid()
  {
    rvb * (Pow2(g.rve - g.Z() + g.N()) * Pow5(g.N()))
  }

  ghost function Decimals(g: Guess, bd0: nat): nat
    requires g.Valid()
  {
    bd0 * (Pow2(g.e + g.N() - g.Z()) * Pow5(g.e + g.N()))
  }

  ghost function Half(g: Guess): nat
    requires g.Valid()
  {
    Pow2(g.HalfUlp() - g.Z() + g.N()) * Pow5(g.N())
  }

  // What the unit is, as a real number, and what the three numbers stand for.
  ghost function Unit(g: Guess): (u: real)
    ensures u > 0.0
  {
    RealPow(2.0, -g.Z()) * RealPow(10.0, g.N())
  }

  lemma BinaryStands(g: Guess, rvb: nat)
    requires g.Valid()
    ensures Binary(g, rvb) as real == g.Rv(rvb) * Unit(g)
  {
    hide Pow2, Pow5, RealPow;
    TwosAndFives(g.rve, g.Z(), g.N());
    Spread(rvb, Pow2(g.rve - g.Z() + g.N()) * Pow5(g.N()), RealPow(2.0, g.rve), Unit(g));
  }

  lemma HalfStands(g: Guess)
    requires g.Valid()
    ensures Half(g) as real == g.HalfUnit() * Unit(g)
  {
    hide Pow2, Pow5, RealPow;
    TwosAndFives(g.HalfUlp(), g.Z(), g.N());
  }

  lemma DecimalsStand(g: Guess, bd0: nat)
    requires g.Valid()
    ensures Decimals(g, bd0) as real == g.Exact(bd0) * Unit(g)
  {
    hide Pow2, Pow5, RealPow;
    TwosAndTens(g.e, g.Z(), g.N());
    Spread(bd0, Pow2(g.e + g.N() - g.Z()) * Pow5(g.e + g.N()), RealPow(10.0, g.e), Unit(g));
  }

  lemma Spread(a: nat, p: nat, x: real, u: real)
    requires p as real == x * u
    ensures (a * p) as real == a as real * x * u
  {
    assert (a * p) as real == a as real * p as real;
  }

  lemma TwosAndFives(k: int, z: int, n: nat)
    requires k - z + n >= 0
    ensures (Pow2(k - z + n) * Pow5(n)) as real == RealPow(2.0, k) * (RealPow(2.0, -z) * RealPow(10.0, n))
  {
    hide Pow2, Pow5, RealPow;
    RealPowTwo(k - z + n);
    RealPowFive(n);
    RealPowAdd(2.0, k - z, n);
    RealPowAdd(2.0, k, -z);
    RealPowTen(n);
    Factors(Pow2(k - z + n), Pow5(n), RealPow(2.0, k), RealPow(2.0, -z), RealPow(2.0, n), RealPow(2.0, k - z),
      RealPow(10.0, n));
  }

  lemma Factors(x: nat, y: nat, a: real, b: real, c: real, ab: real, t: real)
    requires ab == a * b && x as real == ab * c && t == c * y as real
    ensures (x * y) as real == a * (b * t)
  {
    assert (x * y) as real == x as real * y as real;
    assert a * b * c * y as real == a * (b * (c * y as real));
  }

  lemma TwosAndTens(e: int, z: int, n: nat)
    requires e + n - z >= 0 && e + n >= 0
    ensures (Pow2(e + n - z) * Pow5(e + n)) as real == RealPow(10.0, e) * (RealPow(2.0, -z) * RealPow(10.0, n))
  {
    hide Pow2, Pow5, RealPow;
    RealPowTwo(e + n - z);
    RealPowFive(e + n);
    RealPowAdd(2.0, e + n, -z);
    RealPowTen(e + n);
    RealPowAdd(10.0, e, n);
    FactorsOfTen(Pow2(e + n - z), Pow5(e + n), RealPow(2.0, e + n), RealPow(2.0, -z), RealPow(10.0, e),
      RealPow(10.0, n));
  }

  lemma FactorsOfTen(x: nat, y: nat, a: real, b: real, s: real, t: real)
    requires x as real == a * b && a * y as real == s * t
    ensures (x * y) as real == s * (b * t)
  {
    assert (x * y) as real == x as real * y as real;
    assert a * b * y as real == a * y as real * b;
    assert s * t * b == s * (b * t);
  }

  // The powers of two and five to put on rvb, on bd0 and on 1.
  datatype Scaling = Scaling(bb2: nat, bb5: nat, bd2: nat, bd5: nat, bs2: nat)

  // The scaling the loop computes, common powers of two cancelled.
  method Plan(g: Guess) returns (s: Scaling)
    requires g.Valid()
    ensures s.bb5 == g.N() && s.bd5 == g.e + g.N()
    ensures s.bd2 + g.rve + g.bb0 == g.e + s.bb2 && s.bs2 + g.rve + g.bb0 == g.HalfUlp() + s.bb2
    ensures s.bb2 == 0 || s.bd2 == 0 || s.bs2 == 0
  {
    var bbbits, bbe := g.rvbits - g.bb0, g.rve + g.bb0;
    var bb2, bb5, bd2, bd5;
    if g.e >= 0 {
      bb2, bb5, bd2, bd5 := 0, 0, g.e, g.e;
    } else {
      bb2, bb5, bd2, bd5 := -g.e, -g.e, 0, 0;
    }
    if bbe >= 0 {
      bb2 := bb2 + bbe;
    } else {
      bd2 := bd2 - bbe;
    }
    var bs2 := bb2;
    var j := g.nbits + 1 - bbbits;
    var i := bbe + bbbits - g.nbits;
    if i < g.emin {
      j := j + i - g.emin;
    }
    bb2, bd2 := bb2 + j, bd2 + j;
    i := if bb2 < bd2 then bb2 else bd2;
    if i > bs2 {
      i := bs2;
    }
    if i > 0 {
      bb2, bd2, bs2 := bb2 - i, bd2 - i, bs2 - i;
    }
    s := Scaling(bb2, bb5, bd2, bd5, bs2);
  }

  // a and b are v and w times the same power of two.
  ghost predicate Scaled(a: nat, v: nat, t1: nat, t2: nat) {
    a * Pow2(t1) == v * Pow2(t2)
  }

  lemma ScaleBinary(bb: nat, rvb: nat, f: nat, bb0: nat, bb2: nat, x: nat)
    requires bb * Pow2(bb0) == rvb * f * Pow2(bb2)
    ensures Scaled(bb, rvb * (Pow2(x) * f), bb0 + x, bb2)
  {
    Pow2Add(bb0, x);
    hide Pow2;
    Regroup3(bb, Pow2(bb0), Pow2(x));
    Regroup4(rvb, f, Pow2(bb2), Pow2(x));
  }

  lemma Regroup3(a: nat, b: nat, c: nat)
    ensures a * (b * c) == a * b * c
  {
  }

  lemma Regroup4(a: nat, b: nat, c: nat, d: nat)
    ensures a * b * c * d == a * (d * b) * c
  {
    assert a * b * c * d == a * b * (c * d);
    assert a * (d * b) * c == a * b * (d * c);
  }

  lemma ScaleOther(v: nat, f: nat, k: nat, t1: nat, t2: nat, y: nat)
    requires k + t1 == y + t2
    ensures Scaled(v * f * Pow2(k), v * (Pow2(y) * f), t1, t2)
  {
    Pow2Add(k, t1);
    Pow2Add(y, t2);
    hide Pow2;
    Regroup3(v * f, Pow2(k), Pow2(t1));
    Regroup3(v * f, Pow2(y), Pow2(t2));
    Regroup4(v, f, Pow2(t2), Pow2(y));
    assert v * f * Pow2(t2) * Pow2(y) == v * f * Pow2(y) * Pow2(t2);
  }

  // Bcopy into a new big integer
  method Copy(b: Bigint) returns (r: Bigint)
    requires b.Valid()
    ensures r.Valid() && fresh(r) && fresh(r.x) && r.Words() == b.Words()
  {
    r := new Bigint(b.k);
    CopyWords(b, r, 0);
    r.wds := b.wds;
    assert r.Words() == r.x[0..b.wds];
  }

  // bb: rvb times a power of five, shifted by bb2 - bb0. A right shift only drops zeros.
  method ScaleRv(rvb: Bigint, bs: Bigint, fives: bool, bb2: nat, bb0: nat) returns (bb: Bigint)
    requires rvb.Valid() && Normal(rvb.Words()) && rvb.Value() % Pow2(bb0) == 0
    requires bs.Valid() && Normal(bs.Words()) && (!fives ==> bs.Value() == 1)
    ensures bb.Valid() && fresh(bb) && fresh(bb.x) && Normal(bb.Words())
    ensures bb.Value() * Pow2(bb0) == rvb.Value() * bs.Value() * Pow2(bb2)
  {
    hide Val, Pow2;
    bb := Copy(rvb);
    PositiveValue(rvb.Words());
    PositiveValue(bs.Words());
    if fives {
      bb := Mult(bs, bb);
      MulLe(1, rvb.Value(), bs.Value());
    }
    ghost var v := bb.Value();
    assert v == rvb.Value() * bs.Value() && v > 0;
    if bb2 >= bb0 {
      ShiftLeftBy(v, bb2, bb0);
      if bb2 > bb0 {
        bb := Lshift(bb, bb2 - bb0);
      } else {
        Pow2Zero();
      }
    } else {
      ShiftRightBy(rvb.Value(), bs.Value(), bb2, bb0);
      Rshift(bb, bb0 - bb2);
      PositiveNotEmpty(bb.Words());
    }
  }

  lemma PositiveValue(s: seq<Word>)
    requires Normal(s)
    ensures Val(s) > 0
  {
    ValTop(s);
  }

  lemma PositiveNotEmpty(s: seq<Word>)
    requires Val(s) > 0
    ensures s != []
  {
  }

  lemma ShiftLeftBy(v: nat, bb2: nat, bb0: nat)
    requires bb0 <= bb2
    ensures v * Pow2(bb2 - bb0) * Pow2(bb0) == v * Pow2(bb2)
  {
    Pow2Add(bb2 - bb0, bb0);
    hide Pow2;
    Regroup3(v, Pow2(bb2 - bb0), Pow2(bb0));
  }

  lemma ShiftRightBy(a: nat, f: nat, bb2: nat, bb0: nat)
    requires a % Pow2(bb0) == 0 && bb2 < bb0 && a * f > 0
    ensures a * f / Pow2(bb0 - bb2) > 0 && a * f / Pow2(bb0 - bb2) * Pow2(bb0) == a * f * Pow2(bb2)
  {
    Pow2Add(bb2, bb0 - bb2);
    hide Pow2;
    var m, w := Pow2(bb0 - bb2), Pow2(bb2);
    var q := a / Pow2(bb0);
    ExactQuotient(a, f, w, m, q);
  }

  lemma ExactQuotient(a: nat, f: nat, w: nat, m: nat, q: nat)
    requires a == q * (w * m) && m > 0 && a * f > 0
    ensures a * f / m == q * w * f && q * w * f > 0 && q * w * f * (w * m) == a * f * w
  {
    assert a * f == q * w * f * m;
    DivUnique(a * f, m, q * w * f, 0);
    assert q * w * f * (w * m) == q * w * f * m * w;
    CancelLt(0, q * w * f, m);
  }

  // bd: the digits times a power of five and a power of two.
  method ScaleDigits(bd0: Bigint, bd5: nat, bd2: nat, powers: Powers) returns (bd: Bigint)
    requires powers.Valid() && bd0.Valid() && Normal(bd0.Words())
    modifies powers, powers.Cells()`next
    ensures powers.Valid() && old(powers.nodes) <= powers.nodes
    ensures fresh(powers.Cells() - old(powers.Cells()))
      && forall n | n in powers.Cells() - old(powers.Cells()) :: fresh(n.x)
    ensures bd.Valid() && fresh(bd) && fresh(bd.x) && Normal(bd.Words())
      && bd.Value() == bd0.Value() * Pow5(bd5) * Pow2(bd2)
  {
    hide Val, Pow2, Pow5, Powers.Valid;
    bd := Copy(bd0);
    if bd5 > 0 {
      bd := powers.Pow5Mult(bd, bd5);
    } else {
      Pow5Small();
    }
    if bd2 > 0 {
      bd := Lshift(bd, bd2);
    } else {
      Pow2Zero();
    }
  }

  // Numbers scaled alike compare alike.
  lemma ScaledOrder(a: nat, v: nat, b: nat, w: nat, t1: nat, t2: nat)
    requires Scaled(a, v, t1, t2) && Scaled(b, w, t1, t2)
    ensures (a < b <==> v < w) && (a == b <==> v == w)
  {
    hide Pow2;
    var p, q := Pow2(t1), Pow2(t2);
    if a < b {
      MulLt(a, b, p);
      CancelLt(v, w, q);
    } else if b < a {
      MulLt(b, a, p);
      CancelLt(w, v, q);
    } else {
      CancelLe(v, w, q);
      CancelLe(w, v, q);
    }
  }

  lemma ScaledGap(a: nat, v: nat, b: nat, w: nat, t1: nat, t2: nat)
    requires Scaled(a, v, t1, t2) && Scaled(b, w, t1, t2)
    ensures Scaled(Distance(a, b), Distance(v, w), t1, t2)
  {
    ScaledOrder(a, v, b, w, t1, t2);
    hide Pow2;
    GapTimes(a, b, Pow2(t1));
    GapTimes(v, w, Pow2(t2));
  }

  lemma GapTimes(a: nat, b: nat, p: nat)
    ensures Distance(a, b) * p == Distance(a * p, b * p)
  {
    if a < b {
      MulLe(a, b, p);
      assert (b - a) * p == b * p - a * p;
    } else {
      MulLe(b, a, p);
      assert (a - b) * p == a * p - b * p;
    }
  }

  // The three numbers, scaled alike: each is 2^t2 / 2^t1 times what it stands for.
  method Scale(rvb: Bigint, bd0: Bigint, g: Guess, powers: Powers)
    returns (bb: Bigint, bd: Bigint, bs: Bigint, ghost t1: nat, ghost t2: nat)
    requires g.Valid() && powers.Valid() && rvb.Valid() && bd0.Valid() && Normal(rvb.Words()) && Normal(bd0.Words())
    requires rvb.Value() % Pow2(g.bb0) == 0
    modifies powers, powers.Cells()`next
    ensures powers.Valid() && old(powers.nodes) <= powers.nodes
    ensures fresh(powers.Cells() - old(powers.Cells()))
      && forall n | n in powers.Cells() - old(powers.Cells()) :: fresh(n.x)
    ensures bb.Valid() && bd.Valid() && bs.Valid() && Normal(bb.Words()) && Normal(bd.Words()) && Normal(bs.Words())
    ensures Scaled(bb.Value(), Binary(g, rvb.Value()), t1, t2)
    ensures Scaled(bd.Value(), Decimals(g, bd0.Value()), t1, t2)
    ensures Scaled(bs.Value(), Half(g), t1, t2)
  {
    hide Val, Pow2, Pow5, Powers.Valid, Scaled, Guess.HalfUlp, Guess.Z, Guess.N;
    var s := Plan(g);
    bb, bd, bs := ScaleAll(rvb, bd0, g.bb0, s, powers);
    GuessFacts(g);
    ghost var x := g.rve - g.Z() + g.N();
    t1, t2 := g.bb0 + x, s.bb2;
    ScaleBinary(bb.Value(), rvb.Value(), Pow5(s.bb5), g.bb0, s.bb2, x);
    ScaleOther(bd0.Value(), Pow5(s.bd5), s.bd2, t1, t2, g.e + g.N() - g.Z());
    ScaleOther(1, Pow5(s.bb5), s.bs2, t1, t2, g.HalfUlp() - g.Z() + g.N());
  }

  method ScaleAll(rvb: Bigint, bd0: Bigint, bb0: nat, s: Scaling, powers: Powers)
    returns (bb: Bigint, bd: Bigint, bs: Bigint)
    requires powers.Valid() && rvb.Valid() && bd0.Valid() && Normal(rvb.Words()) && Normal(bd0.Words())
      && rvb.Value() % Pow2(bb0) == 0
    modifies powers, powers.Cells()`next
    ensures powers.Valid() && old(powers.nodes) <= powers.nodes
    ensures fresh(powers.Cells() - old(powers.Cells()))
      && forall n | n in powers.Cells() - old(powers.Cells()) :: fresh(n.x)
    ensures bb.Valid() && bd.Valid() && bs.Valid() && Normal(bb.Words()) && Normal(bd.Words()) && Normal(bs.Words())
    ensures bb.Value() * Pow2(bb0) == rvb.Value() * Pow5(s.bb5) * Pow2(s.bb2)
    ensures bd.Value() == bd0.Value() * Pow5(s.bd5) * Pow2(s.bd2) && bs.Value() == Pow5(s.bb5) * Pow2(s.bs2)
  {
    hide Val, Pow2, Pow5, Powers.Valid;
    bs := FivesTo(s.bb5, powers);
    assert s.bb5 == 0 ==> bs.Value() == 1 by { Pow5Small(); }
    bb := ScaleRv(rvb, bs, s.bb5 > 0, s.bb2, bb0);
    bd := ScaleDigits(bd0, s.bd5, s.bd2, powers);
    if s.bs2 > 0 {
      bs := Lshift(bs, s.bs2);
    } else {
      Pow2Zero();
    }
  }

  lemma GuessFacts(g: Guess)
    requires g.Valid()
    ensures g.rve - g.Z() + g.N() >= 0 && g.HalfUlp() - g.Z() >= 0 && g.Z() <= 0 && g.e + g.N() >= 0
  {
  }

  // bs before its shift
  method FivesTo(k: nat, powers: Powers) returns (bs: Bigint)
    requires powers.Valid()
    modifies powers, powers.Cells()`next
    ensures powers.Valid() && old(powers.nodes) <= powers.nodes
    ensures fresh(powers.Cells() - old(powers.Cells()))
      && forall n | n in powers.Cells() - old(powers.Cells()) :: fresh(n.x)
    ensures bs.Valid() && fresh(bs) && fresh(bs.x) && Normal(bs.Words()) && bs.Value() == Pow5(k)
  {
    hide Val, Pow5, Powers.Valid;
    bs := FromInt(1);
    if k > 0 {
      bs := powers.Pow5Mult(bs, k);
    } else {
      Pow5Small();
    }
  }

  ghost function Apart(x: real, y: real): real {
    if x < y then y - x else x - y
  }

  // The comparisons in units are those of the numbers.
  lemma InUnits(g: Guess, rvb: nat, bd0: nat)
    requires g.Valid()
    ensures var rv, exact, gap := g.Rv(rvb), g.Exact(bd0), Distance(Binary(g, rvb), Decimals(g, bd0));
      && (rv < exact <==> Binary(g, rvb) < Decimals(g, bd0)) && (rv == exact <==> Binary(g, rvb) == Decimals(g, bd0))
      && (Apart(rv, exact) < g.HalfUnit() <==> gap < Half(g)) && (Apart(rv, exact) == g.HalfUnit() <==> gap == Half(g))
      && (2.0 * Apart(rv, exact) <= g.HalfUnit() <==> 2 * gap <= Half(g))
  {
    hide *;
    BinaryStands(g, rvb);
    DecimalsStand(g, bd0);
    HalfStands(g);
    SameOrders(g.Rv(rvb), g.Exact(bd0), g.HalfUnit(), Unit(g), Binary(g, rvb), Decimals(g, bd0), Half(g));
  }

  lemma SameOrders(rv: real, exact: real, half: real, u: real, a: nat, b: nat, h: nat)
    requires u > 0.0 && a as real == rv * u && b as real == exact * u && h as real == half * u
    ensures (rv < exact <==> a < b) && (rv == exact <==> a == b)
    ensures (Apart(rv, exact) < half <==> Distance(a, b) < h) && (Apart(rv, exact) == half <==> Distance(a, b) == h)
    ensures 2.0 * Apart(rv, exact) <= half <==> 2 * Distance(a, b) <= h
  {
    SameOrder(half, 2.0 * Apart(rv, exact), u);
    assert 2.0 * Apart(rv, exact) * u == 2.0 * (Apart(rv, exact) * u);
    SameOrder(rv, exact, u);
    SameOrder(exact, rv, u);
    SameOrder(Apart(rv, exact), half, u);
    SameOrder(half, Apart(rv, exact), u);
    ApartTimes(rv, exact, u);
  }

  lemma SameOrder(x: real, y: real, u: real)
    requires u > 0.0
    ensures x < y <==> x * u < y * u
  {
    if x < y {
      assert (y - x) * u > 0.0;
    } else {
      assert (x - y) * u >= 0.0;
    }
  }

  lemma ApartTimes(x: real, y: real, u: real)
    requires u > 0.0
    ensures Apart(x, y) * u == Apart(x * u, y * u)
  {
    SameOrder(x, y, u);
  }

  // The comparison: i is the order of the error against half a unit in the last place, dsign the sign
  // of the error, equal tells that there is none. Twice the error is compared by delta and bs.
  method Compare(rvb: Bigint, bd0: Bigint, g: Guess, powers: Powers)
    returns (i: int, dsign: nat, equal: bool, delta: Bigint, bs: Bigint)
    requires g.Valid() && powers.Valid() && rvb.Valid() && bd0.Valid() && Normal(rvb.Words()) && Normal(bd0.Words())
    requires rvb.Value() % Pow2(g.bb0) == 0
    modifies powers, powers.Cells()`next
    ensures powers.Valid() && fresh(powers.Cells() - old(powers.Cells()))
      && forall n | n in powers.Cells() - old(powers.Cells()) :: fresh(n.x)
    ensures var rv, exact := g.Rv(rvb.Value()), g.Exact(bd0.Value());
      && (equal <==> rv == exact) && (dsign == 1 <==> rv < exact)
      && (i < 0 <==> Apart(rv, exact) < g.HalfUnit()) && (i == 0 <==> Apart(rv, exact) == g.HalfUnit())
    ensures delta.Valid() && bs.Valid() && Normal(bs.Words()) && Proper(delta.Words())
    ensures delta.Value() == 0 <==> equal
    ensures 2 * delta.Value() <= bs.Value() <==>
      2.0 * Apart(g.Rv(rvb.Value()), g.Exact(bd0.Value())) <= g.HalfUnit()
  {
    hide Val, Pow2, Pow5, Powers.Valid, Scaled, Binary, Decimals, Half, Guess.Rv, Guess.Exact, Guess.HalfUnit;
    InUnits(g, rvb.Value(), bd0.Value());
    var bb, bd;
    ghost var t1, t2;
    bb, bd, bs, t1, t2 := Scale(rvb, bd0, g, powers);
    ghost var rv, digits := Binary(g, rvb.Value()), Decimals(g, bd0.Value());
    delta := Diff(bb, bd);
    ScaledOrder(bb.Value(), rv, bd.Value(), digits, t1, t2);
    ScaledGap(bb.Value(), rv, bd.Value(), digits, t1, t2);
    ScaledOrder(delta.Value(), Distance(rv, digits), bs.Value(), Half(g), t1, t2);
    ScaledTwice(delta.Value(), Distance(rv, digits), t1, t2);
    ScaledOrder(bs.Value(), Half(g), 2 * delta.Value(), 2 * Distance(rv, digits), t1, t2);
    equal := delta.wds <= 1 && delta.x[0] == 0;
    ProperZero(delta.Words());
    dsign := delta.sign;
    i := Cmp(delta, bs);
  }

  lemma ScaledTwice(a: nat, v: nat, t1: nat, t2: nat)
    requires Scaled(a, v, t1, t2)
    ensures Scaled(2 * a, 2 * v, t1, t2)
  {
    hide Pow2;
    assert 2 * a * Pow2(t1) == 2 * (a * Pow2(t1)) && 2 * v * Pow2(t2) == 2 * (v * Pow2(t2));
  }

  lemma ProperZero(s: seq<Word>)
    requires Proper(s)
    ensures Val(s) == 0 <==> |s| <= 1 && s[0] == 0
  {
    ValZeros(s);
  }
}
