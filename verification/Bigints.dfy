// Big integers: a growing array of 32-bit words with carry and borrow loops.
module Bigints {
  import opened Arithmetic
  import opened BigNat

  class Bigint {
    const k: nat
    const x: array<Word>
    var wds: nat
    var sign: nat
    var next: Bigint?

    ghost predicate Valid()
      reads this`wds
    {
      x.Length == Pow2(k) && wds <= x.Length
    }

    ghost function Words(): seq<Word>
      requires Valid()
      reads this`wds, x
    {
      x[..wds]
    }

    ghost function Value(): nat
      requires Valid()
      reads this`wds, x
    {
      Val(Words())
    }

    // Balloc: room for 2^k words
    constructor (k: nat)
      ensures Valid() && this.k == k && wds == 0 && sign == 0 && next == null && fresh(x)
    {
      this.k := k;
      x := new Word[Pow2(k)];
      wds, sign, next := 0, 0, null;
    }
  }

  // Balloc(k + 1), Bcopy and Bfree
  method Grown(b: Bigint) returns (r: Bigint)
    requires b.Valid()
    ensures r.Valid() && fresh(r) && fresh(r.x) && r.Words() == b.Words() && r.sign == b.sign && r.k == b.k + 1
  {
    r := new Bigint(b.k + 1);
    for i := 0 to b.wds
      invariant forall j | 0 <= j < i :: r.x[j] == b.x[j]
    {
      r.x[i] := b.x[i];
    }
    r.sign, r.wds := b.sign, b.wds;
  }

  // One more word at the top, in a bigger array if need be.
  method Pushed(b: Bigint, w: Word) returns (r: Bigint)
    requires b.Valid()
    modifies b`wds, b.x
    ensures r.Valid() && r.Words() == old(b.Words()) + [w] && (r == b || (fresh(r) && fresh(r.x) && r.sign == b.sign))
  {
    r := b;
    if b.wds >= b.x.Length {
      r := Grown(b);
    }
    r.x[r.wds] := w;
    r.wds := r.wds + 1;
  }

  // ---- multadd ---------------------------------------------------------------------

  // One step of multiplying by m: y is the product of one word with the carry added.
  lemma CarryStep(v: nat, big: nat, p: nat, w: nat, m: nat, a: nat, carry: nat, y: nat)
    requires v + carry * p == big * m + a && y == w * m + carry
    ensures (v + y % BASE * p) + y / BASE * (BASE * p) == (big + w * p) * m + a
  {
  }

  lemma CarryBound(w: Word, m: nat, carry: Word)
    requires m < BASE
    ensures w * m + carry < BASE * BASE && (w * m + carry) / BASE < BASE
  {
    MulLe(w, BASE - 1, m);
    MulLe(m, BASE - 1, BASE - 1);
  }

  // The words of w below |out| are done: out and the carry hold the product so far.
  ghost predicate MulState(w: seq<Word>, out: seq<Word>, m: nat, a: nat, carry: nat) {
    && |out| <= |w|
    && Val(out) + carry * Power(|out|) == Val(w[..|out|]) * m + a
    && (out != [] && m > 0 && w[|out| - 1] != 0 ==> carry != 0 || out[|out| - 1] != 0)
  }

  lemma MulStart(w: seq<Word>, m: nat, a: nat)
    ensures MulState(w, [], m, a, a)
  {
  }

  lemma MulStep(w: seq<Word>, out: seq<Word>, m: nat, a: nat, carry: nat, y: nat)
    requires MulState(w, out, m, a, carry) && |out| < |w| && y == w[|out|] * m + carry
    ensures MulState(w, out + [y % BASE], m, a, y / BASE)
  {
    hide Power, Val;
    var i := |out|;
    CarryStep(Val(out), Val(w[..i]), Power(i), w[i], m, a, carry, y);
    ValNext(w, i);
    ValPush(out, y % BASE);
    assert Power(i + 1) == BASE * Power(i) by { PowerNext(i); }
    if m > 0 && w[i] != 0 {
      MulLe(1, w[i], m);
    }
  }

  lemma MulEnd(w: seq<Word>, out: seq<Word>, m: nat, a: nat, carry: Word)
    requires MulState(w, out, m, a, carry) && |out| == |w|
    ensures carry == 0 ==> Val(out) == Val(w) * m + a && (Normal(w) && m > 0 ==> Normal(out))
    ensures Val(out + [carry]) == Val(w) * m + a && (carry != 0 ==> Normal(out + [carry]))
  {
    assert w[..|out|] == w;
    ValPush(out, carry);
  }

  // Multiply by m and add a.
  method MultAdd(b: Bigint, m: nat, a: nat) returns (r: Bigint)
    requires b.Valid() && b.wds > 0 && m < 0x8000_0000 && a < 0x8000_0000
    modifies b`wds, b.x
    ensures r.Valid() && r.Value() == old(b.Value()) * m + a
    ensures r == b || (fresh(r) && fresh(r.x) && r.sign == b.sign)
    ensures old(Normal(b.Words())) && m > 0 ==> Normal(r.Words())
    ensures r.wds >= old(b.wds)
  {
    hide Val, Power, MulState;
    ghost var w := b.Words();
    var wds, i := b.wds, 0;
    var carry: Word := a;
    MulStart(w, m, a);
    while i < wds
      invariant 0 <= i <= wds == b.wds == |w| <= b.x.Length && (forall j | i <= j < wds :: b.x[j] == w[j])
      invariant MulState(w, b.x[..i], m, a, carry)
    {
      CarryBound(b.x[i], m, carry);
      var y := b.x[i] * m + carry;
      MulStep(w, b.x[..i], m, a, carry, y);
      ghost var low := b.x[..i];
      carry := y / BASE;
      b.x[i] := y % BASE;
      assert b.x[..i + 1] == low + [y % BASE];
      i := i + 1;
    }
    MulEnd(w, b.Words(), m, a, carry);
    r := b;
    if carry != 0 {
      r := Pushed(b, carry);
    }
  }

  // ---- lshift ------------------------------------------------------------------------

  // Shifting one word left by k, with the bits z shifted out of the word below.
  lemma ShiftWord(x: Word, k: nat, z: nat)
    requires 0 < k < 32 && z < Pow2(k)
    ensures Shr(x, 32 - k) < Pow2(k) && Shl(x, k) + z < BASE
    ensures (x * Pow2(k) + z) % BASE == Shl(x, k) + z && (x * Pow2(k) + z) / BASE == Shr(x, 32 - k)
  {
    Pow2Split(k);
    hide Pow2;
    ShiftSplit(x, Pow2(k), Pow2(32 - k), z);
  }

  lemma ShiftSplit(x: Word, m: nat, d: nat, z: nat)
    requires m * d == BASE && z < m
    ensures d > 0 && x / d < m && x * m % BASE + z < BASE
    ensures (x * m + z) % BASE == x * m % BASE + z && (x * m + z) / BASE == x / d
  {
    assert d > 0;
    var q, r := x / d, x % d;
    DivMul(x, d, m);
    assert r * m + m <= BASE by { MulLe(r + 1, d, m); }
    DivUnique(x * m, BASE, q, r * m);
    DivUnique(x * m + z, BASE, q, r * m + z);
    DivLess(x, m, d);
  }

  lemma DivMul(x: nat, d: nat, m: nat)
    requires d > 0
    ensures x * m == x / d * (m * d) + x % d * m
  {
  }

  lemma DivAtLeast(x: nat, m: nat, d: nat)
    requires d > 0 && m * d <= x
    ensures m <= x / d
  {
    DivAdd(x - m * d, d, m);
    DivShrinks(x - m * d, d);
  }

  lemma DivLess(x: nat, m: nat, d: nat)
    requires d > 0 && x < m * d
    ensures x / d < m
  {
  }

  lemma ShiftValue(zeros: seq<Word>, out: seq<Word>, v: nat, k: nat)
    requires Val(out) == v * Pow2(k % 32) && |zeros| == k / 32 && forall i | 0 <= i < |zeros| :: zeros[i] == 0
    ensures Val(zeros + out) == v * Pow2(k)
  {
    hide Val, Power, Pow2;
    var n := k / 32;
    ValConcat(zeros, out);
    ValZeros(zeros);
    PowerPow2(n);
    Pow2Add(32 * n, k % 32);
    assert Pow2(32 * n) * (v * Pow2(k % 32)) == v * (Pow2(32 * n) * Pow2(k % 32));
  }

  // The smallest doubling of b's room that holds n words.
  method Room(b: Bigint, n: nat) returns (k1: nat)
    requires b.Valid()
    ensures n <= Pow2(k1)
  {
    k1 := b.k;
    var i := b.x.Length;
    while n > i
      invariant i == Pow2(k1) && k1 >= b.k
      decreases n - i
    {
      i := 2 * i;
      k1 := k1 + 1;
    }
  }

  // Multiply by 2^k.
  method Lshift(b: Bigint, k: nat) returns (r: Bigint)
    requires b.Valid() && b.wds > 0
    ensures r.Valid() && fresh(r) && fresh(r.x) && r.sign == 0 && r.Value() == b.Value() * Pow2(k)
    ensures Normal(b.Words()) ==> Normal(r.Words())
  {
    hide Val, Pow2;
    var n := k / 32;
    var n1 := n + b.wds + 1;
    var k1 := Room(b, n1);
    r := new Bigint(k1);
    ZeroFill(r, n);
    var z := 0;
    if k % 32 != 0 {
      z := ShiftWords(b, r, n, k % 32);
      if z != 0 {
        n1 := n1 + 1;
      }
    } else {
      CopyWords(b, r, n);
    }
    r.wds := n1 - 1;
    ShiftedWords(b.Words(), r.Words(), k, n, z, r.x[n..n + b.wds]);
  }

  lemma ShiftedWords(w: seq<Word>, r: seq<Word>, k: nat, n: nat, z: Word, out: seq<Word>)
    requires n == k / 32 && n < |r| && 0 < |out| == |w| && (forall i | 0 <= i < n :: r[i] == 0)
    requires if z == 0 then r[n..] == out else r[n..] == out + [z]
    requires if k % 32 == 0 then z == 0 && out == w else MulState(w, out, Pow2(k % 32), 0, z)
    ensures Val(r) == Val(w) * Pow2(k) && (Normal(w) ==> Normal(r))
  {
    ShiftedTail(w, r[n..], k % 32, z, out);
    hide *;
    ShiftValue(r[..n], r[n..], Val(w), k);
    assert r == r[..n] + r[n..];
    NormalTail(r, n);
  }

  lemma ShiftedTail(w: seq<Word>, tail: seq<Word>, k: nat, z: Word, out: seq<Word>)
    requires 0 < |out| == |w| && (if z == 0 then tail == out else tail == out + [z])
    requires if k == 0 then z == 0 && out == w else MulState(w, out, Pow2(k), 0, z)
    ensures Val(tail) == Val(w) * Pow2(k) && (Normal(w) ==> Normal(tail))
  {
    hide MulState;
    Pow2Zero();
    if k != 0 {
      hide Pow2;
      MulEnd(w, out, Pow2(k), 0, z);
    }
  }

  lemma NormalTail(r: seq<Word>, n: nat)
    requires n < |r|
    ensures Normal(r[n..]) <==> Normal(r)
  {
  }

  method ZeroFill(r: Bigint, n: nat)
    requires n <= r.x.Length
    modifies r.x
    ensures forall i | 0 <= i < n :: r.x[i] == 0
  {
    for i := 0 to n
      invariant forall j | 0 <= j < i :: r.x[j] == 0
    {
      r.x[i] := 0;
    }
  }

  // The words of b shifted by less than a word into r from n on; z is what spills over.
  method ShiftWords(b: Bigint, r: Bigint, n: nat, k: nat) returns (z: Word)
    requires b.Valid() && b.wds > 0 && b.x != r.x && n + b.wds + 1 <= r.x.Length && 0 < k < 32
    modifies r.x
    ensures (forall i | 0 <= i < n :: r.x[i] == old(r.x[i])) && r.x[n + b.wds] == z
    ensures MulState(b.Words(), r.x[n..n + b.wds], Pow2(k), 0, z)
  {
    hide Val, Power, MulState, Pow2, Shl, Shr;
    ghost var w, m := b.Words(), Pow2(k);
    z := 0;
    var i := 0;
    MulStart(w, m, 0);
    assert r.x[n..n] == [];
    while i < b.wds
      invariant 0 <= i <= b.wds == |w| && (forall j | 0 <= j < n :: r.x[j] == old(r.x[j])) && b.x[..b.wds] == w
      invariant z < Pow2(k) && MulState(w, r.x[n..n + i], m, 0, z)
    {
      ShiftWord(b.x[i], k, z);
      ghost var low, y := r.x[n..n + i], b.x[i] * m + z;
      MulStep(w, low, m, 0, z, y);
      r.x[n + i] := Shl(b.x[i], k) + z;
      z := Shr(b.x[i], 32 - k);
      assert r.x[n..n + i + 1] == low + [y % BASE];
      i := i + 1;
    }
    ghost var out := r.x[n..n + i];
    r.x[n + i] := z;
    assert r.x[n..n + i] == out;
  }

  method CopyWords(b: Bigint, r: Bigint, n: nat)
    requires b.Valid() && b.x != r.x && n + b.wds <= r.x.Length
    modifies r.x
    ensures (forall i | 0 <= i < n :: r.x[i] == old(r.x[i])) && r.x[n..n + b.wds] == b.Words()
  {
    for i := 0 to b.wds
      invariant (forall j | 0 <= j < n :: r.x[j] == old(r.x[j])) && forall j | n <= j < n + i :: r.x[j] == b.x[j - n]
    {
      r.x[n + i] := b.x[i];
    }
  }
}
