// Bits of a big integer: the length of its top word, single bits, and how many words a number takes.
module HexBits {
  import opened Arithmetic
  import opened BigNat
  import opened Bigints
  import opened BigShift

  // ---- hi0bits ---------------------------------------------------------------------

  // x is x0 shifted up by k bits.
  ghost predicate ShiftedUp(x0: nat, k: nat, x: nat) {
    x == x0 * Pow2(k)
  }

  lemma ShiftStart(x0: nat)
    ensures ShiftedUp(x0, 0, x0)
  {
  }

  lemma ShiftMore(x0: nat, k: nat, x: nat, j: nat, m: nat)
    requires ShiftedUp(x0, k, x) && m == Pow2(j)
    ensures ShiftedUp(x0, k + j, x * m)
  {
    Pow2Add(k, j);
    hide Pow2;
    assert x0 * Pow2(k) * m == x0 * (Pow2(k) * m);
  }

  lemma ShiftZero(x0: nat, k: nat, x: nat)
    requires ShiftedUp(x0, k, x)
    ensures x == 0 <==> x0 == 0
  {
  }

  lemma SmallPowers()
    ensures Pow2(1) == 2 && Pow2(2) == 4 && Pow2(4) == 0x10 && Pow2(8) == 0x100 && Pow2(16) == 0x1_0000
  {
  }

  lemma LeadingZeros(x0: nat, k: nat, x: nat)
    requires ShiftedUp(x0, k, x) && k < 32 && 0x8000_0000 <= x < BASE
    ensures Pow2(31 - k) <= x0 < Pow2(32 - k)
  {
    Pow2Split(k);
    Pow2Next(31 - k);
    hide Pow2;
    Between(x0, Pow2(k), Pow2(31 - k));
  }

  lemma Between(x0: nat, p: nat, q: nat)
    requires p * (2 * q) == BASE && 0x8000_0000 <= x0 * p < BASE && p > 0
    ensures q <= x0 < 2 * q
  {
  }

  // The number of leading zero bits of a word.
  method Hi0Bits(x0: Word) returns (k: nat)
    ensures if x0 == 0 then k == 32 else k < 32 && Pow2(31 - k) <= x0 < Pow2(32 - k)
  {
    hide Pow2, ShiftedUp;
    var x: nat := x0;
    k := 0;
    ShiftStart(x0);
    SmallPowers();
    if x < 0x1_0000 {
      ShiftMore(x0, k, x, 16, 0x1_0000);
      k := 16;
      x := x * 0x1_0000;
    }
    if x < 0x100_0000 {
      ShiftMore(x0, k, x, 8, 0x100);
      k := k + 8;
      x := x * 0x100;
    }
    if x < 0x1000_0000 {
      ShiftMore(x0, k, x, 4, 0x10);
      k := k + 4;
      x := x * 0x10;
    }
    if x < 0x4000_0000 {
      ShiftMore(x0, k, x, 2, 4);
      k := k + 2;
      x := x * 4;
    }
    ShiftZero(x0, k, x);
    if x < 0x8000_0000 {
      ShiftMore(x0, k, x, 1, 2);
      k := k + 1;
      if x < 0x4000_0000 {
        return 32;
      }
      LeadingZeros(x0, k, x * 2);
    } else {
      LeadingZeros(x0, k, x);
    }
  }

  // ---- single bits -------------------------------------------------------------------

  predicate WordBit(w: Word, k: nat) {
    w / Pow2(k) % 2 == 1
  }

  lemma BitAt(s: seq<Word>, k: nat)
    requires k / 32 < |s|
    ensures Val(s) / Pow2(k) % 2 == 1 <==> WordBit(s[k / 32], k % 32)
  {
    hide Val, Pow2;
    WordAt(s, k);
    BitInWord(s[k / 32], k % 32, Val(s[k / 32..][1..]));
  }

  // The words below the bit do not matter.
  lemma WordAt(s: seq<Word>, k: nat)
    requires k / 32 < |s|
    ensures Val(s) / Pow2(k) == (s[k / 32] + BASE * Val(s[k / 32..][1..])) / Pow2(k % 32)
  {
    hide Val, Pow2;
    DropWords(s, k / 32, k % 32);
    ValFirst(s[k / 32..]);
  }

  // Nor do those above it.
  lemma BitInWord(w: Word, j: nat, h: nat)
    requires j < 32
    ensures (w + BASE * h) / Pow2(j) % 2 == w / Pow2(j) % 2
  {
    hide Pow2;
    Pow2Split(j);
    Pow2Next(31 - j);
    BitArith(w, Pow2(j), Pow2(31 - j), h);
  }

  lemma BitArith(w: nat, m: nat, d: nat, h: nat)
    requires m * (2 * d) == BASE && m > 0
    ensures (w + BASE * h) / m % 2 == w / m % 2
  {
    BitHigh(m, d, h);
    DivAdd(w, m, 2 * (d * h));
    Even(w / m, d * h);
  }

  lemma Even(a: nat, y: nat)
    ensures (a + 2 * y) % 2 == a % 2
  {
  }

  lemma BitHigh(m: nat, d: nat, h: nat)
    requires m * (2 * d) == BASE
    ensures BASE * h == 2 * (d * h) * m
  {
  }

  lemma LowBit(s: seq<Word>)
    requires s != []
    ensures Val(s) % 2 == s[0] % 2
  {
    BitAt(s, 0);
    Pow2Zero();
  }

  // ---- sizes ---------------------------------------------------------------------------

  // A number of m bits takes as many words as m bits need.
  lemma WordsOf(s: seq<Word>, m: nat)
    requires Normal(s) && m > 0 && Pow2(m - 1) <= Val(s) < Pow2(m)
    ensures |s| == (m + 31) / 32
  {
    hide Val, Power;
    ValTop(s);
    PowerPow2(|s|);
    PowerPow2(|s| - 1);
    if 32 * |s| <= m - 1 {
      Pow2Mono(32 * |s|, m - 1);
    }
    if m <= 32 * (|s| - 1) {
      Pow2Mono(m, 32 * (|s| - 1));
    }
  }

  // The top word has n bits or more exactly when the number is at least 2^n words of the rest.
  lemma TopWordBits(s: seq<Word>, n: nat)
    requires s != []
    ensures s[|s| - 1] >= Pow2(n) <==> Val(s) >= Pow2(32 * (|s| - 1) + n)
  {
    hide Power, Val;
    var k := |s| - 1;
    ValBound(s[..k]);
    ValNext(s, k);
    assert s[..k + 1] == s;
    PowerPow2(k);
    Pow2Add(32 * k, n);
    hide Pow2;
    TopArith(Val(s[..k]), s[k], Power(k), Pow2(n));
  }

  lemma TopArith(l: nat, w: nat, p: nat, m: nat)
    requires l < p
    ensures w >= m <==> l + w * p >= p * m
  {
    assert p * m == m * p;
    if w >= m {
      MulLe(m, w, p);
    } else {
      MulLe(w + 1, m, p);
      assert (w + 1) * p == w * p + p;
    }
  }

  // The bits of a number from those of its top word.
  lemma BitLength(s: seq<Word>, h: nat)
    requires s != [] && h < 32 && Pow2(31 - h) <= s[|s| - 1] < Pow2(32 - h)
    ensures 32 * |s| > h && Pow2(32 * |s| - h - 1) <= Val(s) < Pow2(32 * |s| - h) && Normal(s)
  {
    TopWordBits(s, 31 - h);
    TopWordBits(s, 32 - h);
  }
}
