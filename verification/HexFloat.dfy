// The hexadecimal floating-point reader: normalising, denormalising and rounding in place.
module HexFloat {
  import opened Arithmetic
  import opened BigNat
  import opened Bigints
  import opened BigShift
  import opened BigCompare
  import opened HexBits
  import opened HexDigits
  import opened Rounding

  datatype Inexact = Exact | Low | High

  // The class of the result: a number with its flags, or one of the exits for numbers too large or too
  // small.
  datatype Outcome = Finite(denormal: bool, inexact: Inexact) | Infinite | TinyOne | TinyZero

  // A unit no larger than any that occurs on the way.
  ghost function Unit(f: Fpi, e: int): int {
    (if e < f.emin then e else f.emin) - f.nbits
  }

  // Exactly m bits.
  ghost predicate Bits(v: nat, m: nat) {
    m > 0 && Pow2(m - 1) <= v < Pow2(m)
  }

  lemma BitsShr(v: nat, m: nat, s: nat)
    requires Bits(v, m) && s < m
    ensures Bits(v / Pow2(s), m - s)
  {
    hide Pow2;
    Pow2Add(m - 1 - s, s);
    Pow2Add(m - s, s);
    DivLess(v, Pow2(m - s), Pow2(s));
    DivAtLeast(v, Pow2(m - 1 - s), Pow2(s));
  }

  lemma BitsShl(v: nat, m: nat, t: nat)
    requires Bits(v, m)
    ensures Bits(v * Pow2(t), m + t)
  {
    hide Pow2;
    Pow2Add(m - 1, t);
    Pow2Add(m, t);
    MulLe(Pow2(m - 1), v, Pow2(t));
    MulLt(v, Pow2(m), Pow2(t));
  }

  // The tests that summarise the n low bits.
  method LowBits(b: Bigint, n: nat) returns (l: nat)
    requires b.Valid() && n > 0 && (n - 1) / 32 < b.wds
    ensures l == LostBits(b.Value() % Pow2(n - 1) != 0, b.Value() / Pow2(n - 1) % 2 == 1)
  {
    hide Val, Pow2;
    ghost var v, p := b.Value(), Pow2(n - 1);
    Pow2Next(n - 1);
    LoseArith(v, p, 0, 1);
    l := 0;
    var any := AnyOn(b, n);
    BitAt(b.Words(), n - 1);
    if any {
      l := 1;
      var k := n - 1;
      if WordBit(b.x[k / 32], k % 32) {
        l := 2;
        Pow2Zero();
        if k > 0 {
          any := AnyOn(b, k);
          if any {
            l := 3;
          }
        }
      }
    }
  }

  // The number brought to the precision of the format: n is its length in bits.
  method Fit(b: Bigint, n: nat, f: Fpi, e: int, ghost x: nat, ghost z: int)
    returns (r: Bigint, e': int, l: nat, ghost rest: nat)
    requires b.Valid() && Normal(b.Words()) && Bits(b.Value(), n) && f.nbits > 0
    requires Cut(x, b.Value(), 0, e, z, 0) && z <= e - f.nbits
    modifies b`wds, b.x
    ensures r.Valid() && Normal(r.Words()) && Bits(r.Value(), f.nbits) && z <= e'
    ensures Cut(x, r.Value(), rest, e', z, l) && (r == b || (fresh(r) && fresh(r.x)))
  {
    hide Val, Pow2, Cut, Bits, Lost;
    r, e', l, rest := b, e, 0, 0;
    ghost var v := b.Value();
    BitsWords(b.Words(), n);
    CutBounds(x, v, 0, e, z, 0);
    if n > f.nbits {
      var s := n - f.nbits;
      BitsShr(v, n, s);
      CutMore(x, v, 0, e, z, 0, s);
      l := LowBits(b, s);
      rest := v % Pow2(s) * Pow2(e - z);
      Rshift(b, s);
      BitsPositive(b.Value(), f.nbits);
      NonZeroWords(b.Words());
      e' := e + s;
    } else if n < f.nbits {
      var t := f.nbits - n;
      BitsShl(v, n, t);
      CutLess(x, v, e, z, t);
      r := Lshift(b, t);
      e' := e - t;
    }
  }

  lemma CutBounds(x: nat, b: nat, r: nat, e: int, z: int, l: nat)
    requires Cut(x, b, r, e, z, l)
    ensures z <= e
  {
  }

  lemma BitsWords(s: seq<Word>, m: nat)
    requires Normal(s) && Bits(Val(s), m)
    ensures m > 0 && |s| == (m + 31) / 32
  {
    WordsOf(s, m);
  }

  lemma BitsPositive(v: nat, m: nat)
    requires Bits(v, m)
    ensures v > 0
  {
  }

  lemma NonZeroWords(s: seq<Word>)
    requires Val(s) > 0
    ensures s != []
  {
  }

  // Below the exponent range: n bits more are lost, fewer than there are.
  method Denormalise(b: Bigint, f: Fpi, e: int, n: nat, l0: nat, ghost x: nat, ghost z: int, ghost rest0: nat)
    returns (l: nat, ghost rest: nat)
    requires b.Valid() && Normal(b.Words()) && Bits(b.Value(), f.nbits) && 0 < n < f.nbits && n == f.emin - e
    requires Cut(x, b.Value(), rest0, e, z, l0)
    modifies b`wds, b.x
    ensures b.Valid() && Normal(b.Words()) && Bits(b.Value(), f.nbits - n) && Cut(x, b.Value(), rest, f.emin, z, l)
    ensures n == 1 ==> TopClear(b, f.nbits - 1)
  {
    hide Val, Pow2, Cut, Bits, Lost;
    ghost var v := b.Value();
    BitsWords(b.Words(), f.nbits);
    BitsShr(v, f.nbits, n);
    CutMore(x, v, rest0, e, z, l0, n);
    CutBounds(x, v, rest0, e, z, l0);
    BitAt(b.Words(), n - 1);
    var k := n - 1;
    var some := l0 != 0;
    Pow2Zero();
    if l0 == 0 && k > 0 {
      some := AnyOn(b, k);
    }
    l := if some then 1 else 0;
    if WordBit(b.x[k / 32], k % 32) {
      l := l + 2;
    }
    rest := v % Pow2(n) * Pow2(e - z) + rest0;
    Rshift(b, n);
    BitsPositive(b.Value(), f.nbits - n);
    NonZeroWords(b.Words());
    BitsWords(b.Words(), f.nbits - n);
  }

  // The word that a carry out of m bits would reach is there, and zero if it is not in use.
  ghost predicate TopClear(b: Bigint, m: nat)
    reads b`wds, b.x
  {
    m / 32 < b.x.Length && (b.wds <= m / 32 ==> b.x[m / 32] == 0)
  }

  // ---- the last step ------------------------------------------------------------------------

  lemma WordBitZero(k: nat)
    ensures !WordBit(0, k)
  {
  }

  // b, just incremented and at most 2^m, has reached 2^m exactly when bit m is set.
  method Reached(b: Bigint, m: nat) returns (r: bool)
    requires b.Valid() && b.Value() <= Pow2(m) && TopClear(b, m)
    ensures r == (b.Value() == Pow2(m))
  {
    hide Val, Power, WordBit;
    ghost var v, p := b.Value(), Pow2(m);
    r := WordBit(b.x[m / 32], m % 32);
    if m / 32 < b.wds {
      BitAt(b.Words(), m);
      hide Pow2;
      DivUnique(v, p, if v == p then 1 else 0, if v == p then 0 else v);
    } else {
      WordBitZero(m % 32);
      ValBound(b.Words());
      PowerPow2(b.wds);
      Pow2Mono(32 * b.wds, m);
    }
  }

  // The same for a number of m bits that is not denormal, from the length of its top word; k is the
  // number of words before the increment.
  method Overflowed(b: Bigint, m: nat, k: nat) returns (r: bool)
    requires b.Valid() && Normal(b.Words()) && m > 0 && k == (m + 31) / 32 && b.Value() <= Pow2(m)
    requires b.wds == k || (b.wds == k + 1 && b.Value() == Power(k))
    ensures r == (b.Value() == Pow2(m))
  {
    hide Val, Power, Pow2;
    PowerPow2(k);
    if b.wds > k {
      r := true;
      if m < 32 * k {
        Pow2Grows(m, 32 * k);
      }
    } else {
      var n := m % 32;
      r := false;
      if n != 0 {
        var h := Hi0Bits(b.x[k - 1]);
        TopLength(b.x[k - 1], h, n);
        TopWordBits(b.Words(), n);
        r := h < 32 - n;
      } else {
        ValBound(b.Words());
      }
    }
  }

  lemma {:induction false} Pow2Grows(a: nat, b: nat)
    requires a < b
    ensures Pow2(a) < Pow2(b)
  {
    Pow2Next(a);
    Pow2Mono(a + 1, b);
  }

  lemma TopLength(w: Word, h: nat, n: nat)
    requires w != 0 && h < 32 && Pow2(31 - h) <= w < Pow2(32 - h) && n < 32
    ensures h < 32 - n <==> w >= Pow2(n)
  {
    hide Pow2;
    if h < 32 - n {
      Pow2Mono(n, 31 - h);
    } else {
      Pow2Mono(32 - h, n);
    }
  }

  // The result is the correct rounding of x, and its class and flags say what it is.
  ghost predicate Correct(f: Fpi, negative: bool, x: nat, b: nat, e: int, z: int, out: Outcome) {
    && f.nbits > 0 && z <= f.emin && out.Finite? && Rounded(f, DirectionOf(f.rounding, negative), x, b, e, z)
    && (out.denormal <==> b < Pow2(f.nbits - 1))
    && (out.inexact == Low <==> Mag(b, e, z) < x) && (out.inexact == High <==> Mag(b, e, z) > x)
  }

  // What is known before the last step: nb bits are left, all of them unless the number is denormal.
  ghost predicate Kept(f: Fpi, v: nat, e: int, denormal: bool, nb: nat) {
    && f.nbits > 0 && Bits(v, nb)
    && if denormal then nb < f.nbits && e == f.emin else nb == f.nbits && e >= f.emin
  }

  lemma KeptFacts(f: Fpi, v: nat, e: int, denormal: bool, nb: nat)
    requires Kept(f, v, e, denormal, nb)
    ensures f.nbits > 0 && Representable(f, v, e) && nb > 0 && (denormal <==> v < Pow2(f.nbits - 1))
    ensures if denormal then nb < f.nbits else nb == f.nbits
    ensures v + 1 <= Pow2(nb) <= Pow2(f.nbits) && (denormal ==> v + 1 < Pow2(f.nbits))
    ensures denormal ==> (v + 1 < Pow2(f.nbits - 1) <==> !(nb == f.nbits - 1 && v + 1 == Pow2(nb)))
  {
    hide Pow2;
    Pow2Mono(nb, f.nbits);
    Pow2Next(f.nbits - 1);
    if denormal {
      Pow2Mono(nb, f.nbits - 1);
      if nb < f.nbits - 1 {
        Pow2Grows(nb, f.nbits - 1);
      }
    }
  }

  method RoundOff(b: Bigint, f: Fpi, negative: bool, e: int, l: nat, denormal: bool, nb: nat, ghost x: nat,
      ghost z: int, ghost rest: nat)
    returns (r: Bigint, e': int, out: Outcome)
    requires b.Valid() && Normal(b.Words()) && z <= f.emin && e <= f.emax
    requires Cut(x, b.Value(), rest, e, z, l) && Kept(f, b.Value(), e, denormal, nb)
    requires denormal && nb == f.nbits - 1 ==> TopClear(b, nb)
    modifies b`wds, b.x
    ensures r.Valid() && (r == b || (fresh(r) && fresh(r.x)))
    ensures out == Infinite || (e' <= f.emax && Correct(f, negative, x, r.Value(), e', z, out))
    ensures out == Infinite ==> z <= f.emax && f.nbits > 0 && x > Mag(Top(f), f.emax, z)
    ensures out == Infinite ==> Overflows(f, DirectionOf(f.rounding, negative), x, z)
  {
    hide Val, Pow2, Cut, Kept, Rounded, Mag, Representable, TopClear;
    ghost var v := b.Value();
    KeptFacts(f, v, e, denormal, nb);
    LowBit(b.Words());
    r, e' := b, e;
    if GoesUp(f.rounding, negative, l, b.x[0] % 2 == 1) {
      r, e', out := AddUnit(b, f, e, denormal, nb);
      if out == Infinite {
        CutRest(x, v, rest, e, z, l);
        DecideUp(f, negative, x, v, rest, e, z, l, Pow2(f.nbits - 1), e + 1);
      } else {
        DecideUp(f, negative, x, v, rest, e, z, l, r.Value(), e');
      }
    } else {
      DecideDown(f, negative, x, v, rest, e, z, l);
      out := Finite(denormal, if l == 0 then Exact else Low);
    }
  }

  // Rounding up: increment, and renormalise after a carry out of the top bit.
  method AddUnit(b: Bigint, f: Fpi, e: int, denormal: bool, nb: nat) returns (r: Bigint, e': int, out: Outcome)
    requires b.Valid() && Normal(b.Words()) && e <= f.emax && Kept(f, b.Value(), e, denormal, nb)
    requires denormal && nb == f.nbits - 1 ==> TopClear(b, nb)
    modifies b`wds, b.x
    ensures r.Valid() && (r == b || (fresh(r) && fresh(r.x)))
    ensures out == Infinite || (e' <= f.emax && out.Finite? && out.inexact == High)
    ensures out.Finite? ==>
      Successor(f, old(b.Value()), e, r.Value(), e') && (out.denormal <==> r.Value() < Pow2(f.nbits - 1))
    ensures out == Infinite ==> e == f.emax && old(b.Value()) + 1 == Pow2(f.nbits)
  {
    hide Val, Pow2, Kept, Power;
    ghost var v := b.Value();
    KeptFacts(f, v, e, denormal, nb);
    KeptWords(f, b.Words(), e, denormal, nb);
    var k := b.wds;
    r := Increment(b);
    if denormal {
      e', out := e, Finite(true, High);
      if nb == f.nbits - 1 {
        var reached := Reached(r, nb);
        if reached {
          out := Finite(false, High);
        }
      }
    } else {
      e', out := Renormalise(r, f, e, k);
    }
  }

  method Renormalise(b: Bigint, f: Fpi, e: int, k: nat) returns (e': int, out: Outcome)
    requires b.Valid() && Normal(b.Words()) && e <= f.emax && f.nbits > 0 && k == (f.nbits + 31) / 32
    requires Pow2(f.nbits - 1) <= b.Value() <= Pow2(f.nbits)
      && (b.wds == k || (b.wds == k + 1 && b.Value() == Power(k)))
    modifies b`wds, b.x
    ensures b.Valid() && (out == Infinite || (out == Finite(false, High) && e' <= f.emax
      && b.Value() >= Pow2(f.nbits - 1)))
    ensures out == Infinite ==> e == f.emax && old(b.Value()) == Pow2(f.nbits)
    ensures if old(b.Value()) == Pow2(f.nbits) then b.Value() == Pow2(f.nbits - 1)
      && e' == e + 1 else b.Value() == old(b.Value()) && e' == e
  {
    hide Val, Pow2, Power;
    e', out := e, Finite(false, High);
    var over := Overflowed(b, f.nbits, k);
    if over {
      Halved(f.nbits);
      Rshift(b, 1);
      e' := e + 1;
      if e' > f.emax {
        out := Infinite;
      }
    }
  }

  lemma KeptWords(f: Fpi, s: seq<Word>, e: int, denormal: bool, nb: nat)
    requires Normal(s) && Kept(f, Val(s), e, denormal, nb)
    ensures |s| == (nb + 31) / 32
  {
    WordsOf(s, nb);
  }

  lemma Halved(n: nat)
    requires n > 0
    ensures Pow2(n) / Pow2(1) == Pow2(n - 1)
  {
  }

  lemma CutRest(x: nat, b: nat, r: nat, e: int, z: int, l: nat)
    requires Cut(x, b, r, e, z, l) && l != 0
    ensures z <= e && x > Mag(b, e, z)
  {
  }

  // ---- numbers below the smallest one ---------------------------------------------------

  lemma TinyDown(f: Fpi, d: Direction, x: nat, z: int)
    requires f.nbits > 0 && z <= f.emin && 0 < x < Mag(1, f.emin, z)
    ensures Rounded(f, d, x, 0, f.emin, z) <==> d == Toward || (d == Nearest && 2 * x <= Mag(1, f.emin, z))
  {
    TinyFacts(f, z);
    if d == Toward || (d == Nearest && 2 * x <= Mag(1, f.emin, z)) {
      RoundedDown(f, d, x, 0, x, f.emin, z);
    } else if d == Nearest {
      assert Distance(x, Mag(1, f.emin, z)) < Distance(x, Mag(0, f.emin, z));
    }
  }

  lemma TinyUp(f: Fpi, d: Direction, x: nat, z: int)
    requires f.nbits > 0 && z <= f.emin && 0 < x < Mag(1, f.emin, z)
    ensures Rounded(f, d, x, 1, f.emin, z) <==> d == Away || (d == Nearest && 2 * x > Mag(1, f.emin, z))
  {
    TinyFacts(f, z);
    if d == Away || (d == Nearest && 2 * x > Mag(1, f.emin, z)) {
      RoundedUp(f, d, x, 0, x, f.emin, 1, f.emin, z);
    } else if d == Nearest {
      assert Distance(x, Mag(0, f.emin, z)) <= Distance(x, Mag(1, f.emin, z));
    }
  }

  lemma TinyFacts(f: Fpi, z: int)
    requires f.nbits > 0 && z <= f.emin
    ensures Representable(f, 0, f.emin) && Representable(f, 1, f.emin) && Successor(f, 0, f.emin, 1, f.emin)
    ensures Mag(1, f.emin, z) == Pow2(f.emin - z) && Mag(0, f.emin, z) == 0
  {
  }

  // The one family where the underflow exit goes wrong: to nearest, a little above half the smallest
  // number, by less than the last bit that was kept; or with one bit of precision exactly half of it.
  ghost predicate AboutHalf(f: Fpi, x: nat, z: int)
    requires z <= f.emin
  {
    var m := Mag(1, f.emin, z);
    f.rounding == RoundNear && f.nbits > 0 &&
      if f.nbits == 1 then 2 * x == m else 2 * x > m && (2 * x - m) * Pow2(f.nbits - 1) < m
  }

  lemma TinyArith(x: nat, v: nat, r: nat, p: nat, u: nat)
    requires x == v * u + r && r < u && 0 < p <= v < 2 * p
    ensures 0 < x < 2 * p * u && 2 * x >= 2 * p * u
    ensures 2 * x == 2 * p * u <==> v == p && r == 0
    ensures 2 * x > 2 * p * u && (2 * x - 2 * p * u) * p < 2 * p * u <==> v == p && r > 0
  {
    var d := (v - p) * u + r;
    assert v * u == p * u + (v - p) * u;
    assert x == p * u + d && 2 * p * u == p * u + p * u;
    MulLe(1, p, u);
    MulLe(v + 1, 2 * p, u);
    assert (v + 1) * u == v * u + u;
    assert 2 * x - 2 * p * u == 2 * d;
    assert 2 * d * p == d * (2 * p) && 2 * p * u == u * (2 * p);
    if v > p {
      MulLe(1, v - p, u);
      MulLe(u, d, 2 * p);
    } else {
      assert d == r;
      MulLt(d, u, 2 * p);
    }
  }

  // Where a number stands that is below the smallest one.
  lemma TinyPosition(f: Fpi, x: nat, v: nat, r: nat, e: int, z: int, l: nat)
    requires Cut(x, v, r, e, z, l) && f.nbits > 0 && Bits(v, f.nbits) && f.emin - e >= f.nbits && z <= f.emin
    ensures var m := Mag(1, f.emin, z); var half := v == Pow2(f.nbits - 1);
      && 0 < x < m
      && (f.emin - e > f.nbits ==> 2 * x < m)
      && (f.emin - e == f.nbits ==> 2 * x >= m && (2 * x == m <==> half && l == 0))
      && (AboutHalf(f, x, z) <==>
        f.rounding == RoundNear && f.emin - e == f.nbits && half && (l == 0 <==> f.nbits == 1))
      && (f.nbits == 1 ==> half)
  {
    hide Pow2;
    var p, u := Pow2(f.nbits - 1), Pow2(e - z);
    Pow2Next(f.nbits - 1);
    Pow2Add(f.nbits, e - z);
    if f.nbits == 1 {
      Pow2Zero();
    }
    assert x == v * u + r;
    TinyArith(x, v, r, p, u);
    assert Mag(1, f.emin, z) == Pow2(f.emin - z);
    if f.emin - e > f.nbits {
      Pow2Next(f.nbits + (e - z));
      Pow2Mono(f.nbits + 1 + (e - z), f.emin - z);
    }
  }

  lemma LowBitsOf(v: nat, n: nat)
    requires Bits(v, n)
    ensures v % Pow2(n - 1) != 0 <==> v != Pow2(n - 1)
  {
    Pow2Next(n - 1);
    hide Pow2;
    var p := Pow2(n - 1);
    DivUnique(v, p, 1, v - p);
  }

  function TinyUnits(out: Outcome): nat {
    if out == TinyOne then 1 else 0
  }

  // The exits for numbers below the smallest one. The result is 0 or 1 times the smallest number.
  method Tiny(b: Bigint, f: Fpi, negative: bool, e: int, ghost x: nat, ghost z: int, ghost rest: nat, ghost l: nat)
    returns (out: Outcome)
    requires b.Valid() && Normal(b.Words()) && f.nbits > 0 && Bits(b.Value(), f.nbits) && f.emin - e >= f.nbits
      && z <= f.emin
    requires Cut(x, b.Value(), rest, e, z, l)
    modifies b`wds, b.x
    ensures b.Valid() && (out == TinyOne || out == TinyZero) && (out == TinyOne ==> b.Value() == 1)
    ensures 0 < x < Mag(1, f.emin, z)
    ensures Rounded(f, DirectionOf(f.rounding, negative), x, TinyUnits(out), f.emin, z) <==> !AboutHalf(f, x, z)
  {
    hide Val, Pow2, Cut, Bits, Rounded, Mag, AboutHalf;
    ghost var d := DirectionOf(f.rounding, negative);
    TinyPosition(f, x, b.Value(), rest, e, z, l);
    TinyDown(f, d, x, z);
    TinyUp(f, d, x, z);
    var n := f.emin - e;
    out := TinyZero;
    match f.rounding {
      case RoundNear =>
        LowBitsOf(b.Value(), f.nbits);
        if n == f.nbits {
          var any := n < 2;
          if !any {
            any := AnyOn(b, n - 1);
          }
          if any {
            out := TinyOne;
          }
        }
      case RoundUp =>
        if !negative {
          out := TinyOne;
        }
      case RoundDown =>
        if negative {
          out := TinyOne;
        }
      case RoundZero =>
    }
    if out == TinyOne {
      SetOne(b);
    }
  }

  // x[0] = b->wds = 1
  method SetOne(b: Bigint)
    requires b.Valid()
    modifies b`wds, b.x
    ensures b.Valid() && b.Value() == 1
  {
    b.x[0], b.wds := 1, 1;
    ghost var w: seq<Word> := [1];
    assert b.Words() == w && w[..0] == [] && Power(0) == 1;
  }

  // Doubles, to nearest: a number just above half the smallest one, 2^-1075 + 2^-1131, is taken for zero
  // although the smallest number is nearer.
  lemma AboutHalfExample()
    ensures var f, s := Fpi(53, -1074, 971, RoundNear), "100000000000001";
      var z := Unit(f, -1131); var x := Mag(HexVal(s), -1131, z);
      && HexText(s) && 0 < x < Mag(1, f.emin, z) && AboutHalf(f, x, z)
      && Rounded(f, Nearest, x, 1, f.emin, z) && !Rounded(f, Nearest, x, 0, f.emin, z)
  {
    hide *;
    ExampleDigits();
    ExampleArith();
    ExampleMags();
    var z := Unit(Fpi(53, -1074, 971, RoundNear), -1131);
    AboutHalfWhen(Fpi(53, -1074, 971, RoundNear), Mag(Pow2(56) + 1, -1131, z), z);
  }

  lemma ExampleMags()
    ensures var z := Unit(Fpi(53, -1074, 971, RoundNear), -1131);
      && z == -1184 && Mag(Pow2(56) + 1, -1131, z) == (Pow2(56) + 1) * Pow2(53) && Mag(1, -1074, z) == Pow2(110)
  {
    hide Pow2;
  }

  lemma AboutHalfWhen(f: Fpi, x: nat, z: int)
    requires f.rounding == RoundNear && f.nbits >= 2 && z <= f.emin && 0 < x < Mag(1, f.emin, z) < 2 * x
    requires (2 * x - Mag(1, f.emin, z)) * Pow2(f.nbits - 1) < Mag(1, f.emin, z)
    ensures AboutHalf(f, x, z) && Rounded(f, Nearest, x, 1, f.emin, z) && !Rounded(f, Nearest, x, 0, f.emin, z)
  {
    hide Pow2, Rounded, Mag;
    TinyDown(f, Nearest, x, z);
    TinyUp(f, Nearest, x, z);
  }

  lemma ExampleDigits()
    ensures HexText("100000000000001") && HexVal("100000000000001") == Pow2(56) + 1
  {
    hide HexVal, Pow2;
    assert "100000000000001" == ['1'] + Zeros(13) + ['1'];
    OneToOne(13);
  }

  lemma ExampleArith()
    ensures var x := (Pow2(56) + 1) * Pow2(53);
      0 < x < Pow2(110) < 2 * x && (2 * x - Pow2(110)) * Pow2(52) < Pow2(110)
  {
    hide Pow2;
    Pow2Add(56, 53);
    Pow2Next(53);
    Pow2Next(109);
    Pow2Add(54, 52);
    Pow2Grows(53, 109);
    Pow2Grows(106, 110);
    assert (Pow2(56) + 1) * Pow2(53) == Pow2(56) * Pow2(53) + Pow2(53);
  }

  function Zeros(k: nat): string {
    seq(k, i => '0')
  }

  lemma {:induction false} ZerosOne(k: nat)
    ensures HexVal(Zeros(k) + ['1']) == 1 && Digits(Zeros(k) + ['1']) == k + 1
  {
    var s := Zeros(k) + ['1'];
    if k == 0 {
      assert s == ['1'] && s[1..] == [];
      Pow2Zero();
    } else {
      assert s[1..] == Zeros(k - 1) + ['1'] && s[0] == '0';
      ZerosOne(k - 1);
    }
  }

  lemma OneToOne(k: nat)
    ensures HexVal(['1'] + Zeros(k) + ['1']) == Pow2(4 * (k + 1)) + 1
  {
    var s := ['1'] + Zeros(k) + ['1'];
    assert s[1..] == Zeros(k) + ['1'] && s[0] == '1';
    ZerosOne(k);
  }

  // One bit of precision, to nearest: exactly half the smallest number is taken for it, not for zero.
  lemma OneBitExample()
    ensures var f, s := Fpi(1, 0, 10, RoundNear), "1"; var z := Unit(f, -1); var x := Mag(HexVal(s), -1, z);
      && HexText(s) && 0 < x < Mag(1, 0, z) && AboutHalf(f, x, z)
      && Rounded(f, Nearest, x, 0, 0, z) && !Rounded(f, Nearest, x, 1, 0, z)
  {
    var f, x := Fpi(1, 0, 10, RoundNear), Mag(HexVal("1"), -1, -2);
    assert Pow2(1) == 2 && Pow2(2) == 4;
    assert HexVal("1") == 1 by { Pow2Zero(); assert "1"[1..] == ""; }
    assert x == 2 && Mag(1, 0, -2) == 4;
    TinyDown(f, Nearest, x, -2);
    TinyUp(f, Nearest, x, -2);
  }

  // A number whose leading bits are already beyond the largest exponent overflows, whichever way it goes.
  lemma TooLarge(f: Fpi, negative: bool, x: nat, v: nat, r: nat, e: int, z: int, l: nat)
    requires Cut(x, v, r, e, z, l) && f.nbits > 0 && Bits(v, f.nbits) && z <= f.emin <= f.emax < e
    ensures x > Mag(Top(f), f.emax, z) && Overflows(f, DirectionOf(f.rounding, negative), x, z)
  {
    hide Pow2, Mag, Rounded, Top;
    BeyondTop(f, v, e, z);
    if GoesUp(f.rounding, negative, l, v % 2 == 1) {
      var up := v + 1 == Pow2(f.nbits);
      DecideUp(f, negative, x, v, r, e, z, l, if up then Pow2(f.nbits - 1) else v + 1, if up then e + 1 else e);
    } else {
      DecideDown(f, negative, x, v, r, e, z, l);
    }
  }

  // 2^1024 as a double, in every mode and with both signs: it overflows, so the reader returns infinity; the
  // right answer is the largest number in the modes that go toward zero, and infinity in the others.
  lemma OverflowExample(mode: Mode, negative: bool)
    ensures var f := Fpi(53, -1074, 971, mode); var d := DirectionOf(mode, negative);
      var z := Unit(f, 1024); var x := Mag(HexVal("1"), 1024, z);
      && HexText("1") && Overflows(f, d, x, z) && (d == Toward ==> FiniteAnswer(f, d, x, Top(f), 971, z))
      && (d != Toward ==> forall b, e :: !FiniteAnswer(f, d, x, b, e, z))
  {
    var f := Fpi(53, -1074, 971, mode);
    var z := -1074 - 53;
    assert HexVal("1") == 1 by { Pow2Zero(); assert "1"[1..] == ""; }
    hide Pow2, HexVal, Mag, Overflows, FiniteAnswer, Cut, Top;
    PowerTooLarge(f, negative, 1024, z);
    OverflowAnswer(f, DirectionOf(mode, negative), Mag(1, 1024, z), z);
  }

  lemma PowerTooLarge(f: Fpi, negative: bool, e: int, z: int)
    requires f.nbits > 0 && z <= f.emin <= f.emax && f.emax + f.nbits <= e
    ensures Overflows(f, DirectionOf(f.rounding, negative), Mag(1, e, z), z)
  {
    hide Pow2, Mag, Overflows, Cut;
    StartCut(1, e, z);
    CutLess(Mag(1, e, z), 1, e, z, f.nbits - 1);
    Pow2Next(f.nbits - 1);
    TooLarge(f, negative, Mag(1, e, z), Pow2(f.nbits - 1), 0, e - (f.nbits - 1), z, 0);
  }

  // A number below the smallest one does not overflow.
  lemma TooSmall(f: Fpi, d: Direction, x: nat, z: int)
    requires f.nbits > 0 && z <= f.emin <= f.emax && 0 < x < Mag(1, f.emin, z)
    ensures !Overflows(f, d, x, z)
  {
    hide Rounded, Mag, Pow2, Overflows;
    TinyDown(f, d, x, z);
    TinyUp(f, d, x, z);
    NoOverflow(f, d, x, if Rounded(f, d, x, 0, f.emin, z) then 0 else 1, f.emin, z);
  }

  lemma StartCut(v: nat, e: int, z: int)
    requires z <= e
    ensures Cut(Mag(v, e, z), v, 0, e, z, 0)
  {
  }

  // From the digits s (the point ignored), worth 2^e0 each unit, to the result: the part of the reader
  // that follows the scan of the text.
  method GetHex(s: string, e0: int, f: Fpi, negative: bool) returns (out: Outcome, b: Bigint, exp: int)
    requires HexText(s) && f.nbits > 0 && f.emin <= f.emax
    ensures b.Valid() && fresh(b)
    ensures out == Infinite <==>
      Overflows(f, DirectionOf(f.rounding, negative), Mag(HexVal(s), e0, Unit(f, e0)), Unit(f, e0))
    ensures var z := Unit(f, e0); var x := Mag(HexVal(s), e0, z);
      match out
      case Finite(_, _) => exp <= f.emax && Correct(f, negative, x, b.Value(), exp, z, out)
      case Infinite => x > Mag(Top(f), f.emax, z)
      case _ =>
        && 0 < x < Mag(1, f.emin, z) && (out == TinyOne ==> b.Value() == 1 && exp == f.emin)
        && (Rounded(f, DirectionOf(f.rounding, negative), x, TinyUnits(out), f.emin, z) <==> !AboutHalf(f, x, z))
  {
    hide Val, Pow2, Cut, Bits, Rounded, Mag, AboutHalf, Lost, HexVal, Correct, Kept, Overflows, Top;
    ghost var z, x := Unit(f, e0), Mag(HexVal(s), e0, Unit(f, e0));
    var top;
    b, top := ReadDigits(s);
    var h := Hi0Bits(top);
    BitLength(b.Words(), h);
    var n := 32 * b.wds - h;
    StartCut(b.Value(), e0, z);
    assert Bits(b.Value(), n) by { IsBits(b.Value(), n); }
    var e, l;
    ghost var rest;
    b, e, l, rest := Fit(b, n, f, e0, x, z);
    exp := e;
    if e > f.emax {
      TooLarge(f, negative, x, b.Value(), rest, e, z, l);
      return Infinite, b, e;
    }
    if e < f.emin {
      if f.emin - e >= f.nbits {
        out := Tiny(b, f, negative, e, x, z, rest, l);
        TooSmall(f, DirectionOf(f.rounding, negative), x, z);
        exp := f.emin;
        return;
      }
      n := f.emin - e;
      l, rest := Denormalise(b, f, e, n, l, x, z, rest);
      StillKept(f, b.Value(), f.emin, true, f.nbits - n);
      b, exp, out := RoundOff(b, f, negative, f.emin, l, true, f.nbits - n, x, z, rest);
    } else {
      StillKept(f, b.Value(), e, false, f.nbits);
      b, exp, out := RoundOff(b, f, negative, e, l, false, f.nbits, x, z, rest);
    }
    if out != Infinite {
      IsFinite(f, negative, x, b.Value(), exp, z, out);
    }
  }

  lemma IsBits(v: nat, m: nat)
    requires m > 0 && Pow2(m - 1) <= v < Pow2(m)
    ensures Bits(v, m)
  {
  }

  lemma IsFinite(f: Fpi, negative: bool, x: nat, b: nat, e: int, z: int, out: Outcome)
    requires Correct(f, negative, x, b, e, z, out) && f.emin <= f.emax && e <= f.emax
    ensures out.Finite? && z <= f.emin && !Overflows(f, DirectionOf(f.rounding, negative), x, z)
  {
    hide Rounded, Overflows, Mag, Pow2;
    NoOverflow(f, DirectionOf(f.rounding, negative), x, b, e, z);
  }

  lemma StillKept(f: Fpi, v: nat, e: int, denormal: bool, nb: nat)
    requires f.nbits > 0 && Bits(v, nb) && if denormal then nb < f.nbits && e == f.emin
      else nb == f.nbits && e >= f.emin
    ensures Kept(f, v, e, denormal, nb)
  {
  }
}
