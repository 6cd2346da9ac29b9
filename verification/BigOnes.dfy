// Big integers whose bits are all ones, and the step down by one.
module BigOnes {
  import opened Arithmetic
  import opened BigNat
  import opened Bigints
  import opened BigShift
  import opened BigCompare

  lemma {:induction false} ValOnes(s: seq<Word>)
    ensures Val(s) + 1 == Power(|s|) <==> forall i | 0 <= i < |s| :: s[i] == BASE - 1
  {
    if s != [] {
      ValOnes(s[1..]);
      ValFirst(s);
      ValBound(s[1..]);
      hide Val;
      OnesArith(s[0], Val(s[1..]), Power(|s| - 1));
      assert forall i | 1 <= i < |s| :: s[i] == s[1..][i - 1];
    }
  }

  lemma OnesArith(w: Word, v: nat, p: nat)
    requires v < p
    ensures w + BASE * v + 1 == BASE * p <==> w == BASE - 1 && v + 1 == p
  {
  }

  // Of the low 32 * n + k bits all are set exactly when the n words and the k bits are.
  lemma LowOnes(s: seq<Word>, n: nat, k: nat)
    requires n < |s| && k < 32
    ensures Val(s) % Pow2(32 * n + k) + 1 == Pow2(32 * n + k) <==>
      Val(s[..n]) + 1 == Power(n) && s[n] % Pow2(k) + 1 == Pow2(k)
  {
    LowBits(s, n, k);
    PowerPow2(n);
    Pow2Add(32 * n, k);
    ValBound(s[..n]);
    hide Val, Power, Pow2;
    LowOnesArith(Val(s[..n]), Power(n), s[n] % Pow2(k), Pow2(k));
  }

  lemma LowOnesArith(v: nat, p: nat, w: nat, m: nat)
    requires v < p && w < m
    ensures v + p * w + 1 == p * m <==> v + 1 == p && w + 1 == m
  {
    if w + 1 < m {
      MulLe(w + 2, m, p);
      assert p * (w + 2) == p * w + 2 * p;
    } else {
      assert p * m == p * w + p;
    }
  }

  lemma WholeOnes(s: seq<Word>, n: nat)
    requires n <= |s|
    ensures Val(s) % Pow2(32 * n) + 1 == Pow2(32 * n) <==> Val(s[..n]) + 1 == Power(n)
  {
    if n < |s| {
      LowOnes(s, n, 0);
      Pow2Zero();
    } else {
      assert s[..n] == s;
      AllLow(s, 32 * n);
      PowerPow2(n);
    }
  }

  // all_on: the low n bits are ones.
  method AllOn(b: Bigint, n: nat) returns (r: bool)
    requires b.Valid() && n <= 32 * b.wds
    ensures r <==> b.Value() % Pow2(n) + 1 == Pow2(n)
  {
    hide Val, Power, Pow2;
    var words := n / 32;
    ghost var s := b.Words();
    ValOnes(s[..words]);
    if n % 32 == 0 {
      WholeOnes(s, words);
    } else {
      LowOnes(s, words, n % 32);
    }
    var i := 0;
    while i < words
      invariant 0 <= i <= words && forall j | 0 <= j < i :: s[j] == BASE - 1
    {
      if b.x[i] != BASE - 1 {
        assert s[..words][i] == b.x[i];
        return false;
      }
      i := i + 1;
    }
    if n % 32 != 0 {
      r := b.x[words] % Pow2(n % 32) + 1 == Pow2(n % 32);
    } else {
      r := true;
    }
  }

  // set_ones: n ones, in a new buffer where the old one may be too small.
  method SetOnes(b: Bigint, n: nat) returns (r: Bigint)
    requires b.Valid() && n > 0
    modifies b`wds, b.x
    ensures r.Valid() && r.wds > 0 && r.Value() + 1 == Pow2(n) && (r == b || (fresh(r) && fresh(r.x)))
  {
    hide Val, Power, Pow2;
    var k := (n + 31) / 32;
    r := b;
    if b.k < k {
      r := new Bigint(k);
    }
    Roomy(r.k, k);
    k := n / 32;
    if n % 32 != 0 {
      k := k + 1;
    }
    r.wds := k;
    var i := 0;
    while i < k
      invariant 0 <= i <= k == r.wds && r.Valid()
      invariant forall j | 0 <= j < i :: r.x[j] == BASE - 1
    {
      r.x[i] := BASE - 1;
      i := i + 1;
    }
    ghost var w := r.Words();
    ValOnes(w);
    if n % 32 != 0 {
      CutOnes(w, n);
      r.x[k - 1] := Pow2(n % 32) - 1;
      assert r.Words() == w[..k - 1] + [Pow2(n % 32) - 1];
    } else {
      PowerPow2(k);
    }
  }

  lemma Roomy(k: nat, n: nat)
    requires n <= k
    ensures n <= Pow2(k)
  {
    if k > 0 {
      Roomy(k - 1, if n == 0 then 0 else n - 1);
    }
  }

  lemma CutOnes(w: seq<Word>, n: nat)
    requires n % 32 != 0 && |w| == n / 32 + 1 && forall i | 0 <= i < |w| :: w[i] == BASE - 1
    ensures Pow2(n % 32) <= BASE && Val(w[..|w| - 1] + [Pow2(n % 32) - 1]) + 1 == Pow2(n)
  {
    var k := |w| - 1;
    Pow2Mono(n % 32, 32);
    Pow2Word();
    ValOnes(w[..k]);
    PowerPow2(k);
    Pow2Add(32 * k, n % 32);
    hide Val, Power, Pow2;
    ValPush(w[..k], Pow2(n % 32) - 1);
    assert (Pow2(n % 32) - 1) * Power(k) == Pow2(n % 32) * Power(k) - Power(k);
  }

  // ---- decrement --------------------------------------------------------------------------

  lemma Decremented(w: seq<Word>, r: seq<Word>, i: nat)
    requires i < |w| == |r| && (forall j | 0 <= j < i :: w[j] == 0 && r[j] == BASE - 1)
    requires w[i] > 0 && r[i] == w[i] - 1
    requires r[i + 1..] == w[i + 1..]
    ensures Val(r) + 1 == Val(w)
  {
    hide Val, Power;
    ValConcat(w[..i + 1], w[i + 1..]);
    ValConcat(r[..i + 1], r[i + 1..]);
    assert w == w[..i + 1] + w[i + 1..] && r == r[..i + 1] + r[i + 1..];
    ValNext(w, i);
    ValNext(r, i);
    ValZeros(w[..i]);
    ValOnes(r[..i]);
    assert (r[i] + 1) * Power(i) == r[i] * Power(i) + Power(i);
  }

  // decrement, of a number that is not zero; no word is given up at the top
  method Decrement(b: Bigint)
    requires b.Valid() && b.Value() > 0
    modifies b.x
    ensures b.Valid() && b.Value() + 1 == old(b.Value())
  {
    hide Val, Power;
    ghost var w := b.Words();
    ValZeros(w);
    var i := 0;
    while i < b.wds
      invariant 0 <= i <= b.wds == |w| && b.Valid()
      invariant forall j | 0 <= j < i :: w[j] == 0 && b.x[j] == BASE - 1
      invariant forall j | i <= j < b.wds :: b.x[j] == w[j]
    {
      if b.x[i] != 0 {
        b.x[i] := b.x[i] - 1;
        Decremented(w, b.Words(), i);
        return;
      }
      b.x[i] := BASE - 1;
      i := i + 1;
    }
  }
}
