// Right shifts and tests of the low bits of a big integer.
module BigShift {
  import opened Arithmetic
  import opened BigNat
  import opened Bigints

  // ---- rshift ------------------------------------------------------------------------

  // Shifting one word right by k bits under the low bits of the next word w.
  lemma DownWord(y: nat, w: Word, k: nat)
    requires 0 < k < 32 && y < Pow2(32 - k)
    ensures Shr(w, k) < Pow2(32 - k) && Shl(w, 32 - k) == w % Pow2(k) * Pow2(32 - k) && y + Shl(w, 32 - k) < BASE
  {
    Pow2Split(k);
    hide Pow2;
    DownSplit(y, w, Pow2(k), Pow2(32 - k));
  }

  lemma DownSplit(y: nat, w: Word, m: nat, d: nat)
    requires m * d == BASE && y < d
    ensures m > 0 && w / m < d && w * d % BASE == w % m * d && y + w % m * d < BASE
  {
    assert m > 0;
    var q, r := w / m, w % m;
    DivMul(w, m, d);
    assert r * d + d <= BASE by { MulLe(r + 1, m, d); }
    DivUnique(w * d, BASE, q, r * d);
    DivLess(w, d, m);
  }

  lemma DownArith(v: nat, y: nat, p: nat, w: nat, m: nat, d: nat, big: nat, low: nat)
    requires m * d == BASE && m > 0 && m * (v + y * p) + low == big
    ensures m * ((v + (y + w % m * d) * p) + w / m * (BASE * p)) + low == big + w * (BASE * p)
  {
  }

  // The words of w below |out| are done: out, with y above it, is their value shifted by k.
  ghost predicate DownState(w: seq<Word>, out: seq<Word>, y: nat, k: nat) {
    && 0 < k < 32 && |out| < |w| && y == Shr(w[|out|], k) < Pow2(32 - k)
    && Pow2(k) * (Val(out) + y * Power(|out|)) + w[0] % Pow2(k) == Val(w[..|out| + 1])
    && (out != [] ==> out[|out| - 1] >= Shl(w[|out|], 32 - k))
  }

  lemma DownStart(w: seq<Word>, k: nat)
    requires w != [] && 0 < k < 32
    ensures DownState(w, [], Shr(w[0], k), k)
  {
    ValNext(w, 0);
    DownWord(0, w[0], k);
    hide Pow2, Shl;
    assert w[0] == Pow2(k) * (w[0] / Pow2(k)) + w[0] % Pow2(k);
  }

  lemma DownStep(w: seq<Word>, out: seq<Word>, y: nat, k: nat)
    requires DownState(w, out, y, k) && |out| + 1 < |w|
    ensures y + Shl(w[|out| + 1], 32 - k) < BASE
    ensures DownState(w, out + [y + Shl(w[|out| + 1], 32 - k)], Shr(w[|out| + 1], k), k)
  {
    hide Val, Power, Shl;
    var i, o := |out|, y + Shl(w[|out| + 1], 32 - k);
    DownWord(y, w[i + 1], k);
    Pow2Split(k);
    hide Pow2;
    ValNext(w, i + 1);
    ValPush(out, o);
    PowerNext(i);
    DownArith(Val(out), y, Power(i), w[i + 1], Pow2(k), Pow2(32 - k), Val(w[..i + 1]), w[0] % Pow2(k));
  }

  lemma DownEnd(w: seq<Word>, out: seq<Word>, y: Word, k: nat)
    requires DownState(w, out, y, k) && |out| + 1 == |w|
    ensures Val(out + [y]) == Val(w) / Pow2(k) && (y == 0 ==> Val(out) == Val(w) / Pow2(k))
    ensures y == 0 && Normal(w) && out != [] ==> Normal(out)
  {
    hide Val, Power, Pow2;
    var m := Pow2(k);
    assert w[..|out| + 1] == w;
    ValPush(out, y);
    var q := Val(out) + y * Power(|out|);
    assert q * m == m * q;
    DivUnique(Val(w), m, q, w[0] % m);
    if y == 0 && Normal(w) {
      DownWord(0, w[|out|], k);
      TopWord(w[|out|], m, Pow2(32 - k));
    }
  }

  lemma TopWord(w: nat, m: nat, d: nat)
    requires m > 0 && d > 0 && w != 0 && w / m == 0
    ensures w % m * d > 0
  {
  }

  // Whole words shifted out first.
  lemma DropWords(s: seq<Word>, n: nat, k: nat)
    requires n <= |s|
    ensures Val(s) / Pow2(32 * n + k) == Val(s[n..]) / Pow2(k)
  {
    hide Val, Pow2;
    ValConcat(s[..n], s[n..]);
    assert s == s[..n] + s[n..];
    ValBound(s[..n]);
    PowerPow2(n);
    Pow2Add(32 * n, k);
    var p, m, v, l := Pow2(32 * n), Pow2(k), Val(s[n..]), Val(s[..n]);
    DropArith(p, m, v, l);
  }

  lemma DropArith(p: nat, m: nat, v: nat, l: nat)
    requires l < p && m > 0
    ensures (l + p * v) / (p * m) == v / m
  {
    var q, r := v / m, v % m;
    assert v == q * m + r;
    assert p * v == q * (p * m) + p * r by { assert p * (q * m + r) == q * (p * m) + p * r; }
    assert l + p * r < p * m by { MulLe(r + 1, m, p); }
    DivUnique(l + p * v, p * m, q, l + p * r);
  }

  // Divide by 2^k, rounding down, in place.
  method Rshift(b: Bigint, k: nat)
    requires b.Valid()
    modifies b`wds, b.x
    ensures b.Valid() && b.Value() == old(b.Value()) / Pow2(k)
    ensures old(Normal(b.Words())) && b.wds > 0 ==> Normal(b.Words())
    ensures b.wds == 0 ==> b.x[0] == 0
    ensures b.wds <= old(b.wds) && (k % 32 != 0 && b.wds < old(b.wds) - k / 32 ==> b.x[b.wds] == 0)
  {
    hide Val, Power;
    ghost var s := b.Words();
    var n := k / 32;
    var x1 := 0;
    if n < b.wds {
      DropWords(s, n, k % 32);
      if k % 32 != 0 {
        x1 := RshiftWords(b, n, k % 32);
      } else {
        x1 := MoveDown(b, n);
        Pow2Zero();
      }
    } else {
      AllDropped(s, k);
    }
    b.wds := x1;
    if b.wds == 0 {
      b.x[0] := 0;
    }
  }

  lemma AllDropped(s: seq<Word>, k: nat)
    requires |s| <= k / 32
    ensures Val(s) / Pow2(k) == 0 && Val([]) == 0
  {
    ValBound(s);
    PowerPow2(|s|);
    Pow2Mono(32 * |s|, k);
    DivUnique(Val(s), Pow2(k), 0, Val(s));
  }

  // The words from n on shifted right by less than a word, to the bottom.
  method RshiftWords(b: Bigint, n: nat, k: nat) returns (x1: nat)
    requires b.Valid() && n < b.wds && 0 < k < 32
    modifies b.x
    ensures x1 <= b.wds - n && Val(b.x[..x1]) == old(Val(b.x[n..b.wds])) / Pow2(k)
    ensures old(Normal(b.Words())) && x1 > 0 ==> Normal(b.x[..x1])
    ensures x1 < b.wds - n ==> b.x[x1] == 0
  {
    hide Val, Power, DownState, Pow2, Shl, Shr;
    ghost var w := b.x[n..b.wds];
    var y: Word := Shr(b.x[n], k);
    x1 := 0;
    DownStart(w, k);
    assert b.x[..0] == [];
    while n + x1 + 1 < b.wds
      invariant n + x1 < b.wds && DownState(w, b.x[..x1], y, k)
      invariant forall j | n + x1 < j < b.wds :: b.x[j] == w[j - n]
    {
      ghost var out := b.x[..x1];
      DownStep(w, out, y, k);
      var next := b.x[n + x1 + 1];
      b.x[x1] := y + Shl(next, 32 - k);
      y := Shr(next, k);
      assert b.x[..x1 + 1] == out + [b.x[x1]];
      x1 := x1 + 1;
    }
    ghost var out := b.x[..x1];
    DownEnd(w, out, y, k);
    b.x[x1] := y;
    assert b.x[..x1] == out && b.x[..x1 + 1] == out + [y];
    if y != 0 {
      x1 := x1 + 1;
    }
  }

  // The words from n on moved to the bottom.
  method MoveDown(b: Bigint, n: nat) returns (x1: nat)
    requires b.Valid() && n < b.wds
    modifies b.x
    ensures x1 == b.wds - n && b.x[..x1] == old(b.x[n..b.wds])
  {
    x1 := 0;
    while n + x1 < b.wds
      invariant n + x1 <= b.wds && (forall j | 0 <= j < x1 :: b.x[j] == old(b.x[n + j]))
      invariant forall j | n + x1 <= j < b.wds :: b.x[j] == old(b.x[j])
    {
      b.x[x1] := b.x[n + x1];
      x1 := x1 + 1;
    }
  }

  // ---- any_on -------------------------------------------------------------------------

  lemma LowWord(w: Word, k: nat)
    requires k < 32
    ensures Shl(Shr(w, k), k) != w <==> w % Pow2(k) != 0
  {
    hide Pow2;
    assert w == w / Pow2(k) * Pow2(k) + w % Pow2(k);
    DivUnique(w / Pow2(k) * Pow2(k), BASE, 0, w / Pow2(k) * Pow2(k));
  }

  // The low 32 * n + k bits, by words.
  lemma LowBits(s: seq<Word>, n: nat, k: nat)
    requires n < |s| && k < 32
    ensures Val(s) % Pow2(32 * n + k) == Val(s[..n]) + Power(n) * (s[n] % Pow2(k))
  {
    hide Val, Power;
    var p, m := Power(n), Pow2(k);
    ValConcat(s[..n + 1], s[n + 1..]);
    assert s == s[..n + 1] + s[n + 1..];
    ValNext(s, n);
    PowerNext(n);
    PowerPow2(n);
    Pow2Add(32 * n, k);
    Pow2Split(k);
    ValBound(s[..n]);
    hide Pow2;
    LowArith(Val(s[..n]), p, s[n], m, Pow2(32 - k), Val(s[n + 1..]));
  }

  lemma LowArith(l: nat, p: nat, w: nat, m: nat, d: nat, h: nat)
    requires l < p && m > 0 && m * d == BASE
    ensures (l + w * p + BASE * p * h) % (p * m) == l + p * (w % m)
  {
    var q, r := w / m, w % m;
    assert l + p * r < p * m by { MulLe(r + 1, m, p); }
    assert w * p == q * (p * m) + p * r by { DivMul(w, m, p); }
    LowHigh(p, m, d, h);
    assert (q + d * h) * (p * m) == q * (p * m) + d * h * (p * m);
    DivUnique(l + w * p + BASE * p * h, p * m, q + d * h, l + p * r);
  }

  lemma LowHigh(p: nat, m: nat, d: nat, h: nat)
    requires m * d == BASE
    ensures BASE * p * h == d * h * (p * m)
  {
  }

  lemma AllLow(s: seq<Word>, k: nat)
    requires |s| <= k / 32
    ensures Val(s) % Pow2(k) == Val(s)
  {
    ValBound(s);
    PowerPow2(|s|);
    Pow2Mono(32 * |s|, k);
    DivUnique(Val(s), Pow2(k), 0, Val(s));
  }

  // Whether any of the low k bits is set.
  method AnyOn(b: Bigint, k: nat) returns (r: bool)
    requires b.Valid()
    ensures r <==> b.Value() % Pow2(k) != 0
  {
    hide Val, Power, Pow2;
    ghost var s := b.Words();
    var n := k / 32;
    if n >= b.wds {
      AllLow(s, k);
      n := b.wds;
      assert s[..n] == s;
    } else {
      LowBits(s, n, k % 32);
      LowWord(s[n], k % 32);
      if k % 32 != 0 {
        var x2 := b.x[n];
        var x1 := Shl(Shr(x2, k % 32), k % 32);
        if x1 != x2 {
          assert Power(n) * (s[n] % Pow2(k % 32)) > 0;
          return true;
        }
      }
      assert s[n] % Pow2(k % 32) == 0 by { Pow2Zero(); }
    }
    ghost var low := s[..n];
    ValZeros(low);
    while n > 0
      invariant 0 <= n <= |low| && low == b.x[..|low|] && (forall j | n <= j < |low| :: low[j] == 0)
    {
      n := n - 1;
      if b.x[n] != 0 {
        assert low[n] != 0;
        return true;
      }
    }
    return false;
  }
}
