// Multiplication of big integers, word by word, row by row.
module BigMult {
  import opened Arithmetic
  import opened BigNat
  import opened Bigints

  // ---- mult ---------------------------------------------------------------------------

  // One row: a times y is added to c from the bottom; out holds the words done.
  ghost predicate RowState(a: seq<Word>, y: Word, c: seq<Word>, out: seq<Word>, carry: nat) {
    && |out| <= |a| == |c| && carry < BASE
    && Val(out) + carry * Power(|out|) == Val(c[..|out|]) + Val(a[..|out|]) * y
  }

  // One word of a row: it fits in two words.
  function RowWord(x: Word, y: Word, c: Word, carry: Word): (z: nat)
    ensures z / BASE < BASE
  {
    RowBound(x, y, c, carry);
    x * y + c + carry
  }

  lemma RowBound(x: Word, y: Word, c: Word, carry: Word)
    ensures 0 <= x * y + c + carry && (x * y + c + carry) / BASE < BASE
  {
    ProductBound(x, y);
    TwoWords(x * y + c + carry);
  }

  lemma ProductBound(x: nat, y: nat)
    requires x <= BASE - 1 && y <= BASE - 1
    ensures 0 <= x * y <= BASE * BASE - 2 * BASE + 1
  {
    MulLe(x, BASE - 1, y);
  }

  lemma TwoWords(z: nat)
    requires z < BASE * BASE
    ensures z / BASE < BASE
  {
  }

  lemma RowStep(a: seq<Word>, y: Word, c: seq<Word>, out: seq<Word>, carry: Word)
    requires RowState(a, y, c, out, carry) && |out| < |a|
    ensures var z := RowWord(a[|out|], y, c[|out|], carry); RowState(a, y, c, out + [z % BASE], z / BASE)
  {
    hide Val, Power;
    var i := |out|;
    var z := RowWord(a[i], y, c[i], carry);
    ValNext(a, i);
    ValNext(c, i);
    ValPush(out, z % BASE);
    PowerNext(i);
    RowArith(Val(a[..i]), Power(i), a[i], y, c[i], carry, z);
  }

  lemma RowArith(big: nat, p: nat, a: nat, y: nat, c: nat, carry: nat, z: nat)
    requires z == a * y + c + carry
    ensures z % BASE * p + z / BASE * (BASE * p) == a * y * p + c * p + carry * p
    ensures (big + a * p) * y == big * y + a * y * p
  {
  }

  lemma RowStart(a: seq<Word>, y: Word, c: seq<Word>)
    requires |a| == |c|
    ensures RowState(a, y, c, [], 0)
  {
  }

  ghost predicate ZeroFrom(c: seq<Word>, n: nat) {
    forall i | n <= i < |c| :: c[i] == 0
  }

  ghost function Times(a: nat, b: nat): nat {
    a * b
  }

  // v, moved up by j words.
  ghost function At(j: nat, v: nat): nat {
    Power(j) * v
  }

  lemma AtAdd(j: nat, u: nat, v: nat)
    ensures At(j, u + v) == At(j, u) + At(j, v)
  {
  }

  // A number with the words u on top of low, and zeros above.
  lemma Segment(low: seq<Word>, u: seq<Word>, zeros: seq<Word>)
    requires forall i | 0 <= i < |zeros| :: zeros[i] == 0
    ensures Val(low + u + zeros) == Val(low) + At(|low|, Val(u))
  {
    hide Val, Power;
    ValTrim(low + u + zeros, |low + u|);
    assert (low + u + zeros)[..|low + u|] == low + u;
    ValConcat(low, u);
  }

  // The row in its place: a times y is added on top of low.
  lemma RowPlace(a: seq<Word>, y: Word, low: seq<Word>, u: seq<Word>, zeros: seq<Word>, u': seq<Word>, carry: Word,
      zeros': seq<Word>)
    requires (forall i | 0 <= i < |zeros| :: zeros[i] == 0) && (forall i | 0 <= i < |zeros'| :: zeros'[i] == 0)
    requires RowState(a, y, u, u', carry) && |u'| == |a|
    ensures Val(low + (u' + [carry]) + zeros') == Val(low + u + zeros) + At(|low|, Times(Val(a), y))
  {
    hide *;
    RowEnd(a, y, u, u', carry);
    Segment(low, u, zeros);
    Segment(low, u' + [carry], zeros');
    AtAdd(|low|, Val(u), Times(Val(a), y));
  }

  lemma RowEnd(a: seq<Word>, y: Word, c: seq<Word>, out: seq<Word>, carry: Word)
    requires RowState(a, y, c, out, carry) && |out| == |a|
    ensures Val(out + [carry]) == Val(c) + Times(Val(a), y)
  {
    assert a[..|a|] == a && c[..|a|] == c;
    ValPush(out, carry);
  }

  // The rows below j are done.
  ghost predicate Rows(a: seq<Word>, b: seq<Word>, c: seq<Word>, j: nat) {
    && j <= |b| && |c| == |a| + |b|
    && Val(c) == Val(a) * Val(b[..j])
    && ZeroFrom(c, j + |a|)
  }

  lemma RowsStart(a: seq<Word>, b: seq<Word>, c: seq<Word>)
    requires |c| == |a| + |b| && forall i | 0 <= i < |c| :: c[i] == 0
    ensures Rows(a, b, c, 0)
  {
    ValZeros(c);
    assert b[..0] == [];
    assert Val(a) * 0 == 0;
  }

  lemma RowsStep(a: seq<Word>, b: seq<Word>, c: seq<Word>, c': seq<Word>, j: nat, carry: Word)
    requires Rows(a, b, c, j) && j < |b| && |c'| == |c|
      && (forall i | 0 <= i < |c| && !(j <= i <= j + |a|) :: c'[i] == c[i])
    requires c'[j + |a|] == carry && RowState(a, b[j], c[j..j + |a|], c'[j..j + |a|], carry)
    ensures Rows(a, b, c', j + 1)
  {
    hide Val, Power, RowState, At, Times;
    var n := |a|;
    var low, u, u', zeros, zeros' := c[..j], c[j..j + n], c'[j..j + n], c[j + n..], c'[j + n + 1..];
    RowPlace(a, b[j], low, u, zeros, u', carry, zeros');
    assert c == low + u + zeros;
    assert c' == low + (u' + [carry]) + zeros';
    ValNext(b, j);
    RowsArith(Val(a), Val(b[..j]), b[j], j);
  }

  lemma RowsArith(a: nat, b: nat, y: nat, j: nat)
    ensures a * b + At(j, Times(a, y)) == a * (b + y * Power(j))
  {
  }

  // A row of zeros changes nothing.
  lemma RowsSkip(a: seq<Word>, b: seq<Word>, c: seq<Word>, j: nat)
    requires Rows(a, b, c, j) && j < |b| && b[j] == 0
    ensures Rows(a, b, c, j + 1)
  {
    hide Val;
    ValNext(b, j);
  }

  method Row(a: Bigint, y: Word, c: Bigint, j: nat, ghost n: nat)
    requires a.Valid() && a.wds > 0 && a.x != c.x && j + a.wds < n <= c.x.Length
    modifies c.x
    ensures forall i | 0 <= i < c.x.Length && !(j <= i <= j + a.wds) :: c.x[i] == old(c.x[i])
    ensures RowState(a.Words(), y, old(c.x[j..j + a.wds]), c.x[j..j + a.wds], c.x[j + a.wds])
  {
    hide Val, Power, RowState, RowWord;
    ghost var s, c0 := a.Words(), c.x[j..j + a.wds];
    var carry: Word := 0;
    RowStart(s, y, c0);
    assert c.x[j..j] == [];
    var i := 0;
    while i < a.wds
      invariant 0 <= i <= a.wds == |s| && a.Words() == s && RowState(s, y, c0, c.x[j..j + i], carry)
      invariant forall k | 0 <= k < c.x.Length && !(j <= k < j + i) :: c.x[k] == old(c.x[k])
    {
      ghost var out := c.x[j..j + i];
      assert c.x[j + i] == c0[i];
      RowStep(s, y, c0, out, carry);
      var z := RowWord(a.x[i], y, c.x[j + i], carry);
      carry := z / BASE;
      c.x[j + i] := z % BASE;
      assert c.x[j..j + i + 1] == out + [z % BASE];
      i := i + 1;
    }
    ghost var out := c.x[j..j + i];
    c.x[j + i] := carry;
    assert c.x[j..j + i] == out;
  }

  method Mult(a0: Bigint, b0: Bigint) returns (c: Bigint)
    requires a0.Valid() && b0.Valid() && a0.wds > 0 && b0.wds > 0
    ensures c.Valid() && fresh(c) && fresh(c.x) && c.Value() == a0.Value() * b0.Value()
    ensures a0.Value() * b0.Value() > 0 ==> Normal(c.Words())
  {
    hide Val;
    var a, b := a0, b0;
    if a.wds < b.wds {
      a, b := b0, a0;
    }
    c := Product(a, b);
  }

  method Product(a: Bigint, b: Bigint) returns (c: Bigint)
    requires a.Valid() && b.Valid() && 0 < b.wds <= a.wds
    ensures c.Valid() && fresh(c) && fresh(c.x) && c.Value() == a.Value() * b.Value()
    ensures a.Value() * b.Value() > 0 ==> Normal(c.Words())
  {
    hide Val, Rows;
    var wc := a.wds + b.wds;
    c := new Bigint(if wc > a.x.Length then a.k + 1 else a.k);
    ZeroFill(c, wc);
    ghost var s, t := a.Words(), b.Words();
    RowsStart(s, t, c.x[..wc]);
    AddRows(a, b, c, wc);
    RowsEnd(s, t, c.x[..wc]);
    c.wds := Stripped(c, wc);
  }

  lemma RowsEnd(a: seq<Word>, b: seq<Word>, c: seq<Word>)
    requires Rows(a, b, c, |b|)
    ensures Val(c) == Val(a) * Val(b)
  {
    assert b[..|b|] == b;
  }

  method AddRows(a: Bigint, b: Bigint, c: Bigint, wc: nat)
    requires a.Valid() && b.Valid() && a.wds > 0 && c.x != a.x && c.x != b.x && wc == a.wds + b.wds <= c.x.Length
    requires Rows(a.Words(), b.Words(), c.x[..wc], 0)
    modifies c.x
    ensures Rows(a.Words(), b.Words(), c.x[..wc], b.wds)
  {
    hide Val, RowState;
    for j := 0 to b.wds
      invariant Rows(a.Words(), b.Words(), c.x[..wc], j)
    {
      var y := b.x[j];
      if y != 0 {
        ghost var c0 := c.x[..wc];
        assert c.x[j..j + a.wds] == c0[j..j + a.wds];
        Row(a, y, c, j, wc);
        assert c.x[..wc][j..j + a.wds] == c.x[j..j + a.wds];
        RowsStep(a.Words(), b.Words(), c0, c.x[..wc], j, c.x[j + a.wds]);
      } else {
        RowsSkip(a.Words(), b.Words(), c.x[..wc], j);
      }
    }
  }

  // Leading zero words are dropped, all of them if the product is zero.
  method Stripped(c: Bigint, n: nat) returns (m: nat)
    requires n <= c.x.Length
    ensures m <= n && Val(c.x[..m]) == Val(c.x[..n]) && (m > 0 ==> c.x[m - 1] != 0)
    ensures Val(c.x[..n]) > 0 ==> m > 0
  {
    hide Val;
    m := n;
    while m > 0 && c.x[m - 1] == 0
      invariant m <= n && Val(c.x[..m]) == Val(c.x[..n])
    {
      ValTrim(c.x[..m], m - 1);
      assert c.x[..m][..m - 1] == c.x[..m - 1];
      m := m - 1;
    }
    ValZeros(c.x[..m]);
  }
}
