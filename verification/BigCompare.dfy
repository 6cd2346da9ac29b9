// Comparison, difference, sum and increment of big integers.
module BigCompare {
  import opened Arithmetic
  import opened BigNat
  import opened Bigints

  // No leading zero word, except that zero is one word.
  ghost predicate Proper(s: seq<Word>) {
    s != [] && (|s| == 1 || s[|s| - 1] != 0)
  }

  // ---- cmp --------------------------------------------------------------------------

  lemma LongerIsLarger(s: seq<Word>, t: seq<Word>)
    requires Proper(s) && t != [] && |s| > |t|
    ensures Val(s) > Val(t)
  {
    ValTop(s);
    ValBound(t);
    PowerMono(|t|, |s| - 1);
  }

  // The highest word that differs decides.
  lemma HighestDiffers(s: seq<Word>, t: seq<Word>, j: nat)
    requires |s| == |t| && j < |s| && s[j + 1..] == t[j + 1..] && s[j] < t[j]
    ensures Val(s) < Val(t)
  {
    hide Val, Power;
    ValConcat(s[..j + 1], s[j + 1..]);
    ValConcat(t[..j + 1], t[j + 1..]);
    assert s == s[..j + 1] + s[j + 1..] && t == t[..j + 1] + t[j + 1..];
    ValNext(s, j);
    ValNext(t, j);
    ValBound(s[..j]);
    HigherWord(Val(s[..j]), Power(j), s[j], t[j]);
  }

  lemma HigherWord(l: nat, p: nat, a: nat, b: nat)
    requires l < p && a < b
    ensures l + a * p < b * p
  {
    MulLe(a + 1, b, p);
    assert (a + 1) * p == a * p + p;
  }

  lemma LargerIsLonger(s: seq<Word>, t: seq<Word>)
    requires s != [] && Proper(t) && Val(s) > Val(t)
    ensures |t| <= |s|
  {
    if |t| > |s| {
      LongerIsLarger(t, s);
    }
  }

  method Cmp(a: Bigint, b: Bigint) returns (r: int)
    requires a.Valid() && b.Valid() && Proper(a.Words()) && Proper(b.Words())
    ensures (r < 0 <==> a.Value() < b.Value()) && (r == 0 <==> a.Value() == b.Value())
  {
    hide Val;
    ghost var s, t := a.Words(), b.Words();
    if a.wds != b.wds {
      if a.wds > b.wds {
        LongerIsLarger(s, t);
      } else {
        LongerIsLarger(t, s);
      }
      return a.wds - b.wds;
    }
    var j := a.wds;
    while j > 0
      invariant 0 <= j <= |s| && s[j..] == t[j..]
    {
      j := j - 1;
      if a.x[j] != b.x[j] {
        if a.x[j] < b.x[j] {
          HighestDiffers(s, t, j);
          return -1;
        }
        HighestDiffers(t, s, j);
        return 1;
      }
      assert s[j..] == [s[j]] + s[j + 1..] && t[j..] == [t[j]] + t[j + 1..];
    }
    assert s[0..] == s && t[0..] == t;
    return 0;
  }

  // ---- diff ----------------------------------------------------------------------------

  // The words below |out| are done; s has as many words as t.
  ghost predicate SubState(s: seq<Word>, t: seq<Word>, out: seq<Word>, borrow: nat) {
    && |out| <= |s| == |t| && borrow <= 1
    && Val(out) + Val(t[..|out|]) == Val(s[..|out|]) + borrow * Power(|out|)
  }

  lemma SubStep(s: seq<Word>, t: seq<Word>, out: seq<Word>, borrow: nat)
    requires SubState(s, t, out, borrow) && |out| < |s|
    ensures var y := s[|out|] - t[|out|] - borrow; SubState(s, t, out + [y % BASE], if y < 0 then 1 else 0)
  {
    hide Val, Power;
    var i := |out|;
    var y := s[i] - t[i] - borrow;
    ValNext(s, i);
    ValNext(t, i);
    ValPush(out, y % BASE);
    PowerNext(i);
    assert y % BASE == y + (if y < 0 then BASE else 0);
    SubArith(Power(i), y % BASE, t[i], s[i], borrow, if y < 0 then 1 else 0);
  }

  lemma SubArith(p: nat, d: nat, t: nat, s: nat, borrow: nat, borrow': nat)
    requires d + t + borrow == s + borrow' * BASE
    ensures d * p + t * p + borrow * p == s * p + borrow' * (BASE * p)
  {
  }

  lemma SubEnd(s: seq<Word>, t: seq<Word>, out: seq<Word>, borrow: nat)
    requires SubState(s, t, out, borrow) && |out| == |s| && Val(t) <= Val(s)
    ensures Val(out) == Val(s) - Val(t)
  {
    assert s[..|out|] == s && t[..|out|] == t;
    ValBound(out);
  }

  // t with zero words up to the length of s.
  ghost function Extended(t: seq<Word>, n: nat): (r: seq<Word>)
    requires |t| <= n
    ensures |r| == n && Val(r) == Val(t)
  {
    var r := t + seq(n - |t|, i => 0);
    ValTrim(r, |t|);
    assert r[..|t|] == t;
    r
  }

  // The absolute difference, with its sign.
  method Diff(a: Bigint, b: Bigint) returns (c: Bigint)
    requires a.Valid() && b.Valid() && Proper(a.Words()) && Proper(b.Words())
    ensures c.Valid() && fresh(c) && fresh(c.x) && Proper(c.Words())
    ensures c.Value() == (if a.Value() < b.Value() then b.Value() - a.Value() else a.Value() - b.Value())
    ensures c.sign == (if a.Value() < b.Value() then 1 else 0)
  {
    hide Val;
    var i := Cmp(a, b);
    if i == 0 {
      c := new Bigint(0);
      c.wds := 1;
      c.x[0] := 0;
      ValZeros(c.Words());
    } else if i < 0 {
      LargerIsLonger(b.Words(), a.Words());
      c := Subtract(b, a, 1);
    } else {
      LargerIsLonger(a.Words(), b.Words());
      c := Subtract(a, b, 0);
    }
  }

  // The borrow loops, for a larger than b.
  method Subtract(a: Bigint, b: Bigint, sign: nat) returns (c: Bigint)
    requires a.Valid() && b.Valid() && Proper(a.Words()) && Proper(b.Words()) && a.Value() > b.Value()
      && b.wds <= a.wds
    ensures c.Valid() && fresh(c) && fresh(c.x) && Normal(c.Words())
    ensures c.Value() == a.Value() - b.Value() && c.sign == sign
  {
    hide Val, SubState;
    c := new Bigint(a.k);
    ghost var s, t := a.Words(), Extended(b.Words(), a.wds);
    SubStart(s, t);
    assert c.x[..0] == [];
    var borrow := SubWords(a, b, c, t);
    borrow := SubRest(a, c, b.wds, borrow, t);
    SubEnd(s, t, c.x[..a.wds], borrow);
    c.sign := sign;
    c.wds := Trimmed(c, a.wds);
  }

  method SubWords(a: Bigint, b: Bigint, c: Bigint, ghost t: seq<Word>) returns (borrow: nat)
    requires a.Valid() && b.Valid() && c.x != a.x && c.x != b.x && b.wds <= a.wds <= c.x.Length
    requires |t| == a.wds && t[..b.wds] == b.Words() && SubState(a.Words(), t, [], 0)
    modifies c.x
    ensures SubState(a.Words(), t, c.x[..b.wds], borrow)
  {
    hide Val, SubState;
    borrow := 0;
    assert c.x[..0] == [];
    for i := 0 to b.wds
      invariant b.Words() == t[..b.wds] && borrow <= 1 && SubState(a.Words(), t, c.x[..i], borrow)
    {
      ghost var out := c.x[..i];
      SubStep(a.Words(), t, out, borrow);
      assert b.Words()[i] == t[i];
      var y := a.x[i] as int - b.x[i] as int - borrow as int;
      borrow := if y < 0 then 1 else 0;
      c.x[i] := y % BASE;
      assert c.x[..i + 1] == out + [y % BASE];
    }
  }

  method SubRest(a: Bigint, c: Bigint, wb: nat, borrow0: nat, ghost t: seq<Word>) returns (borrow: nat)
    requires a.Valid() && c.x != a.x && wb <= a.wds <= c.x.Length && |t| == a.wds
      && (forall i | wb <= i < a.wds :: t[i] == 0)
    requires SubState(a.Words(), t, c.x[..wb], borrow0)
    modifies c.x
    ensures SubState(a.Words(), t, c.x[..a.wds], borrow)
  {
    hide Val, SubState;
    borrow := borrow0;
    for i := wb to a.wds
      invariant SubState(a.Words(), t, c.x[..i], borrow)
    {
      ghost var out := c.x[..i];
      SubStep(a.Words(), t, out, borrow);
      var y := a.x[i] as int - borrow as int;
      borrow := if y < 0 then 1 else 0;
      c.x[i] := y % BASE;
      assert c.x[..i + 1] == out + [y % BASE];
    }
  }

  lemma SubStart(s: seq<Word>, t: seq<Word>)
    requires |s| == |t|
    ensures SubState(s, t, [], 0)
  {
  }

  // Leading zero words are dropped.
  method Trimmed(c: Bigint, n: nat) returns (m: nat)
    requires n <= c.x.Length && Val(c.x[..n]) > 0
    ensures 0 < m <= n && c.x[m - 1] != 0 && Val(c.x[..m]) == Val(c.x[..n])
  {
    ValZeros(c.x[..n]);
    hide Val;
    m := n;
    while c.x[m - 1] == 0
      invariant 0 < m <= n && Val(c.x[..m]) == Val(c.x[..n])
      decreases m
    {
      ValTrim(c.x[..m], m - 1);
      assert c.x[..m][..m - 1] == c.x[..m - 1];
      m := m - 1;
      ValZeros(c.x[..m]);
    }
  }

  // ---- sum ------------------------------------------------------------------------------

  ghost predicate AddState(s: seq<Word>, t: seq<Word>, out: seq<Word>, carry: nat) {
    && |out| <= |s| == |t| && carry <= 1
    && Val(out) + carry * Power(|out|) == Val(s[..|out|]) + Val(t[..|out|])
    && (out != [] && s[|out| - 1] != 0 ==> carry != 0 || out[|out| - 1] != 0)
  }

  lemma AddStep(s: seq<Word>, t: seq<Word>, out: seq<Word>, carry: nat)
    requires AddState(s, t, out, carry) && |out| < |s|
    ensures var y := s[|out|] + t[|out|] + carry; AddState(s, t, out + [y % BASE], y / BASE)
  {
    hide Val, Power;
    var i := |out|;
    var y := s[i] + t[i] + carry;
    ValNext(s, i);
    ValNext(t, i);
    ValPush(out, y % BASE);
    PowerNext(i);
    AddArith(Power(i), y % BASE, t[i], s[i], carry, y / BASE);
  }

  lemma AddArith(p: nat, d: nat, t: nat, s: nat, carry: nat, carry': nat)
    requires d + carry' * BASE == s + t + carry
    ensures d * p + carry' * (BASE * p) == s * p + t * p + carry * p
  {
  }

  lemma AddStart(s: seq<Word>, t: seq<Word>)
    requires |s| == |t|
    ensures AddState(s, t, [], 0)
  {
  }

  lemma AddEnd(s: seq<Word>, t: seq<Word>, out: seq<Word>, carry: nat)
    requires AddState(s, t, out, carry) && |out| == |s|
    ensures carry == 0 ==> Val(out) == Val(s) + Val(t) && (Normal(s) ==> Normal(out))
    ensures carry != 0 ==> Val(out + [1]) == Val(s) + Val(t)
  {
    assert s[..|out|] == s && t[..|out|] == t;
    ValPush(out, 1);
  }

  // Adding two words by their halves.
  function AddHalves(a: Word, b: Word, carry: nat): (nat, nat)
    requires carry <= 1
  {
    var y := a % 65536 + b % 65536 + carry;
    var z := a / 65536 + b / 65536 + y / 65536 % 2;
    (z % 65536 * 65536 + y % 65536, z / 65536 % 2)
  }

  lemma HalvesAdd(a: Word, b: Word, carry: nat)
    requires carry <= 1
    ensures AddHalves(a, b, carry) == ((a + b + carry) % BASE, (a + b + carry) / BASE)
  {
    var y := a % 65536 + b % 65536 + carry;
    var z := a / 65536 + b / 65536 + y / 65536;
    assert y / 65536 <= 1 && z / 65536 <= 1;
    assert a + b + carry == z / 65536 * BASE + (z % 65536 * 65536 + y % 65536);
    DivUnique(a + b + carry, BASE, z / 65536, z % 65536 * 65536 + y % 65536);
  }

  method Sum(a: Bigint, b: Bigint) returns (c: Bigint)
    requires a.Valid() && b.Valid() && a.wds > 0 && b.wds > 0
    ensures c.Valid() && fresh(c) && fresh(c.x) && c.Value() == a.Value() + b.Value()
    ensures Normal(a.Words()) && Normal(b.Words()) ==> Normal(c.Words())
  {
    hide Val;
    if a.wds < b.wds {
      c := AddTo(b, a);
    } else {
      c := AddTo(a, b);
    }
  }

  method AddTo(a: Bigint, b: Bigint) returns (c: Bigint)
    requires a.Valid() && b.Valid() && b.wds <= a.wds
    ensures c.Valid() && fresh(c) && fresh(c.x) && c.Value() == a.Value() + b.Value()
    ensures Normal(a.Words()) ==> Normal(c.Words())
  {
    hide Val, AddState;
    c := new Bigint(a.k);
    ghost var s, t := a.Words(), Extended(b.Words(), a.wds);
    AddStart(s, t);
    assert c.x[..0] == [];
    var carry := AddWords(a, b, c, t);
    carry := AddRest(a, c, b.wds, carry, t);
    c.wds := a.wds;
    AddEnd(s, t, c.Words(), carry);
    if carry != 0 {
      c := Pushed(c, 1);
    }
  }

  method AddWords(a: Bigint, b: Bigint, c: Bigint, ghost t: seq<Word>) returns (carry: nat)
    requires a.Valid() && b.Valid() && c.x != a.x && c.x != b.x && b.wds <= a.wds <= c.x.Length
    requires |t| == a.wds && t[..b.wds] == b.Words() && AddState(a.Words(), t, [], 0)
    modifies c.x
    ensures carry <= 1 && AddState(a.Words(), t, c.x[..b.wds], carry)
  {
    hide Val, AddState, AddHalves;
    carry := 0;
    assert c.x[..0] == [];
    for i := 0 to b.wds
      invariant b.Words() == t[..b.wds] && carry <= 1 && AddState(a.Words(), t, c.x[..i], carry)
    {
      ghost var out := c.x[..i];
      AddStep(a.Words(), t, out, carry);
      assert b.Words()[i] == t[i];
      HalvesAdd(a.x[i], b.x[i], carry);
      var (d, c1) := AddHalves(a.x[i], b.x[i], carry);
      c.x[i] := d;
      carry := c1;
      assert c.x[..i + 1] == out + [d];
    }
  }

  method AddRest(a: Bigint, c: Bigint, wb: nat, carry0: nat, ghost t: seq<Word>) returns (carry: nat)
    requires a.Valid() && c.x != a.x && wb <= a.wds <= c.x.Length && |t| == a.wds
      && (forall i | wb <= i < a.wds :: t[i] == 0)
    requires carry0 <= 1 && AddState(a.Words(), t, c.x[..wb], carry0)
    modifies c.x
    ensures carry <= 1 && AddState(a.Words(), t, c.x[..a.wds], carry)
  {
    hide Val, AddState, AddHalves;
    carry := carry0;
    for i := wb to a.wds
      invariant carry <= 1 && AddState(a.Words(), t, c.x[..i], carry)
    {
      ghost var out := c.x[..i];
      AddStep(a.Words(), t, out, carry);
      HalvesAdd(a.x[i], 0, carry);
      var (d, c1) := AddHalves(a.x[i], 0, carry);
      c.x[i] := d;
      carry := c1;
      assert c.x[..i + 1] == out + [d];
    }
  }

  // ---- increment --------------------------------------------------------------------------

  // The low words were all ones and are zero now.
  lemma Rollover(w: seq<Word>, i: nat)
    requires i < |w| && Val(w[..i]) + 1 == Power(i) && w[i] == BASE - 1
    ensures Val(w[..i + 1]) + 1 == Power(i + 1)
  {
    hide Val, Power;
    ValNext(w, i);
    PowerNext(i);
    assert (BASE - 1) * Power(i) == BASE * Power(i) - Power(i);
  }

  lemma Incremented(w: seq<Word>, r: seq<Word>, i: nat)
    requires i < |w| == |r| && Val(w[..i]) + 1 == Power(i) && w[i] < BASE - 1 && r[i] == w[i] + 1
    requires r[i + 1..] == w[i + 1..] && forall j | 0 <= j < i :: r[j] == 0
    ensures Val(r) == Val(w) + 1
  {
    hide Val, Power;
    ValConcat(w[..i + 1], w[i + 1..]);
    ValConcat(r[..i + 1], r[i + 1..]);
    assert w == w[..i + 1] + w[i + 1..] && r == r[..i + 1] + r[i + 1..];
    ValNext(w, i);
    ValNext(r, i);
    ValZeros(r[..i]);
    assert (w[i] + 1) * Power(i) == w[i] * Power(i) + Power(i);
  }

  method Increment(b: Bigint) returns (r: Bigint)
    requires b.Valid() && b.wds > 0
    modifies b`wds, b.x
    ensures r.Valid() && r.Value() == old(b.Value()) + 1 && (old(Normal(b.Words())) ==> Normal(r.Words()))
    ensures if r.wds == old(b.wds) then r == b && forall j | r.wds <= j < r.x.Length :: r.x[j] == old(b.x[j])
      else r.wds == old(b.wds) + 1 && r.Value() == Power(old(b.wds))
    ensures r == b || (fresh(r) && fresh(r.x))
  {
    hide Val, Power;
    ghost var w := b.Words();
    var i := 0;
    ValZeros(w[..0]);
    assert Power(0) == 1 by { PowerPow2(0); Pow2Zero(); }
    while i < b.wds
      invariant 0 <= i <= b.wds == |w| && Val(w[..i]) + 1 == Power(i)
      invariant (forall j | 0 <= j < i :: b.x[j] == 0) && forall j | i <= j < b.x.Length :: b.x[j] == old(b.x[j])
    {
      if b.x[i] < BASE - 1 {
        b.x[i] := b.x[i] + 1;
        assert b.Words()[i + 1..] == w[i + 1..];
        Incremented(w, b.Words(), i);
        return b;
      }
      Rollover(w, i);
      b.x[i] := 0;
      i := i + 1;
    }
    assert w[..i] == w;
    ValZeros(b.Words());
    ValPush(b.Words(), 1);
    r := Pushed(b, 1);
  }
}
