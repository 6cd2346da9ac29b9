// Numbers as little-endian sequences of 32-bit words.
module BigNat {
  import opened Arithmetic

  const BASE: nat := 0x1_0000_0000
  const ULBITS: nat := 32

  type Word = w: nat | w < BASE

  // BASE to the n.
  ghost function Power(n: nat): (p: nat)
    ensures p > 0
  {
    if n == 0 then 1 else BASE * Power(n - 1)
  }

  ghost function Val(s: seq<Word>): nat {
    if s == [] then 0 else Val(s[..|s| - 1]) + s[|s| - 1] * Power(|s| - 1)
  }

  // Shifts of one word.
  function Shl(w: Word, k: nat): Word {
    w * Pow2(k) % BASE
  }

  function Shr(w: Word, k: nat): (r: Word) {
    DivShrinks(w, Pow2(k));
    w / Pow2(k)
  }

  // ---- arithmetic ---------------------------------------------------------------

  lemma MulAdd(p: nat, a: nat, t: nat, q: nat)
    ensures p * (a + t * q) == p * a + t * (p * q)
  {
  }

  lemma Pow2Word()
    ensures Pow2(32) == BASE
  {
    assert Pow2(4) == 16;
    Pow2Add(4, 4);
    Pow2Add(8, 8);
    Pow2Add(16, 16);
  }

  lemma Pow2Split(k: nat)
    requires k <= 32
    ensures Pow2(k) * Pow2(32 - k) == BASE
  {
    Pow2Add(k, 32 - k);
    Pow2Word();
  }

  lemma {:induction false} PowerPow2(n: nat)
    ensures Power(n) == Pow2(32 * n)
  {
    if n > 0 {
      PowerPow2(n - 1);
      Pow2Add(32 * (n - 1), 32);
      Pow2Word();
    }
  }

  lemma PowerNext(n: nat)
    ensures Power(n + 1) == BASE * Power(n)
  {
  }

  lemma {:induction false} PowerAdd(a: nat, b: nat)
    ensures Power(a + b) == Power(a) * Power(b)
  {
    if b > 0 {
      PowerAdd(a, b - 1);
    }
  }

  // ---- values ---------------------------------------------------------------------

  lemma ValPush(s: seq<Word>, w: Word)
    ensures Val(s + [w]) == Val(s) + w * Power(|s|)
  {
  }

  // The value of one more word.
  lemma ValNext(s: seq<Word>, i: nat)
    requires i < |s|
    ensures Val(s[..i + 1]) == Val(s[..i]) + s[i] * Power(i)
  {
    assert s[..i + 1] == s[..i] + [s[i]];
    ValPush(s[..i], s[i]);
  }

  lemma {:induction false} ValBound(s: seq<Word>)
    ensures Val(s) < Power(|s|)
  {
    if s != [] {
      var n := |s| - 1;
      ValBound(s[..n]);
      assert s[n] * Power(n) <= (BASE - 1) * Power(n) by { MulLe(s[n], BASE - 1, Power(n)); }
    }
  }

  lemma {:induction false} ValConcat(s: seq<Word>, t: seq<Word>)
    ensures Val(s + t) == Val(s) + Power(|s|) * Val(t)
  {
    if t == [] {
      assert s + t == s;
    } else {
      var n := |t| - 1;
      hide Power;
      ValConcat(s, t[..n]);
      assert s + t == (s + t[..n]) + [t[n]];
      ValPush(s + t[..n], t[n]);
      PowerAdd(|s|, n);
      MulAdd(Power(|s|), Val(t[..n]), t[n], Power(n));
    }
  }

  // The value by its first word.
  lemma ValFirst(s: seq<Word>)
    requires s != []
    ensures Val(s) == s[0] + BASE * Val(s[1..])
  {
    ValConcat([s[0]], s[1..]);
    assert s == [s[0]] + s[1..];
    assert Power(1) == BASE && Val([s[0]]) == s[0];
  }

  lemma {:induction false} ValZeros(s: seq<Word>)
    ensures Val(s) == 0 <==> forall i | 0 <= i < |s| :: s[i] == 0
  {
    if s != [] {
      ValZeros(s[..|s| - 1]);
      if s[|s| - 1] != 0 {
        MulLe(1, s[|s| - 1], Power(|s| - 1));
      }
    }
  }

  // Zero words at the top do not count.
  lemma ValTrim(s: seq<Word>, n: nat)
    requires n <= |s| && forall i | n <= i < |s| :: s[i] == 0
    ensures Val(s) == Val(s[..n])
  {
    ValZeros(s[n..]);
    ValConcat(s[..n], s[n..]);
    assert s == s[..n] + s[n..];
  }

  // A non-zero top word fixes the size.
  lemma ValTop(s: seq<Word>)
    requires s != [] && s[|s| - 1] != 0
    ensures Power(|s| - 1) <= Val(s) < Power(|s|)
  {
    ValBound(s);
    MulLe(1, s[|s| - 1], Power(|s| - 1));
  }

  ghost predicate Normal(s: seq<Word>) {
    s != [] && s[|s| - 1] != 0
  }

  lemma {:induction false} PowerMono(a: nat, b: nat)
    requires a <= b
    ensures Power(a) <= Power(b)
  {
    if a < b {
      PowerMono(a, b - 1);
    }
  }
}
