// Multiplication by powers of five through the shared list of 5^(4 * 2^i), and reading decimal digits.
module PowFive {
  import opened Arithmetic
  import opened BigNat
  import opened Bigints
  import opened BigMult

  ghost function Pow5(n: nat): (p: nat)
    ensures p > 0
  {
    if n == 0 then 1 else 5 * Pow5(n - 1)
  }

  lemma {:induction false} Pow5Add(a: nat, b: nat)
    ensures Pow5(a + b) == Pow5(a) * Pow5(b)
  {
    if b > 0 {
      Pow5Add(a, b - 1);
    }
  }

  lemma Pow5Small()
    ensures Pow5(0) == 1 && Pow5(1) == 5 && Pow5(2) == 25 && Pow5(3) == 125 && Pow5(4) == 625
  {
  }

  // The exponent of node i of the list.
  ghost function Exponent(i: nat): nat {
    4 * Pow2(i)
  }

  lemma ExponentNext(i: nat)
    ensures Exponent(i + 1) == Exponent(i) + Exponent(i)
  {
  }

  // i2b
  method FromInt(i: Word) returns (b: Bigint)
    ensures b.Valid() && fresh(b) && fresh(b.x) && b.Words() == [i] && b.Value() == i && b.next == null
  {
    b := new Bigint(1);
    b.x[0] := i;
    b.wds := 1;
    ValPush([], i);
    assert b.Words() == [] + [i];
  }

  // The exponent still to go is k times that of node i; v is the product so far.
  ghost predicate Progress(v: nat, k: nat, i: nat, goal: nat) {
    k > 0 && v > 0 && v * Pow5(Exponent(i) * k) == goal
  }

  lemma ProgressOdd(v: nat, k: nat, i: nat, goal: nat)
    requires Progress(v, k, i, goal) && k % 2 == 1
    ensures v * Pow5(Exponent(i)) > 0
    ensures k / 2 == 0 ==> v * Pow5(Exponent(i)) == goal
    ensures k / 2 > 0 ==> Progress(v * Pow5(Exponent(i)), k / 2, i + 1, goal)
  {
    hide Pow2, Exponent, Pow5;
    var e, h := Exponent(i), k / 2;
    ExponentNext(i);
    assert e * k == e + Exponent(i + 1) * h by { Halve(e, k); }
    Pow5Add(e, Exponent(i + 1) * h);
    MulLe(1, Pow5(e), v);
    assert v * (Pow5(e) * Pow5(Exponent(i + 1) * h)) == v * Pow5(e) * Pow5(Exponent(i + 1) * h);
    if h == 0 {
      assert Exponent(i + 1) * h == 0;
      Pow5Small();
    }
  }

  lemma ProgressEven(v: nat, k: nat, i: nat, goal: nat)
    requires Progress(v, k, i, goal) && k % 2 == 0
    ensures Progress(v, k / 2, i + 1, goal)
  {
  }

  lemma Halve(e: nat, k: nat)
    ensures e * k == e * (k % 2) + (e + e) * (k / 2)
  {
  }

  lemma ProgressStart(v: nat, k: nat, goal: nat)
    requires v > 0 && k > 0 && goal == v * Pow5(4 * k)
    ensures Progress(v, k, 0, goal)
  {
  }

  // v times 5^k, the low two bits of k first.
  lemma LowFives(v: nat, k: nat)
    ensures v * Pow5(k) == v * Pow5(k % 4) * Pow5(4 * (k / 4))
  {
    Pow5Add(k % 4, 4 * (k / 4));
    assert v * (Pow5(k % 4) * Pow5(4 * (k / 4))) == v * Pow5(k % 4) * Pow5(4 * (k / 4));
  }

  lemma ProgressPositive(v: nat, k: nat, i: nat, goal: nat)
    requires Progress(v, k, i, goal)
    ensures k > 0 && v > 0
  {
  }

  class Powers {
    var p5s: Bigint?
    ghost var nodes: seq<Bigint>

    constructor ()
      ensures Valid() && nodes == []
    {
      p5s, nodes := null, [];
    }

    ghost function Cells(): set<Bigint>
      reads this
    {
      set n | n in nodes
    }

    ghost predicate Linked()
      reads this, nodes`next
    {
      && p5s == (if nodes == [] then null else nodes[0])
      && (forall i, j | 0 <= i < j < |nodes| :: nodes[i] != nodes[j])
      && forall i | 0 <= i < |nodes| :: nodes[i].next == if i + 1 < |nodes| then nodes[i + 1] else null
    }

    ghost predicate Valid()
      reads this, nodes, set n | n in nodes :: n.x
    {
      && Linked()
      && forall i | 0 <= i < |nodes| :: IsPower(nodes[i], i)
    }

    static ghost predicate IsPower(n: Bigint, i: nat)
      reads n`wds, n.x
    {
      n.Valid() && n.wds > 0 && n.Value() == Pow5(Exponent(i))
    }

    // The first node, made on first use.
    method First() returns (p5: Bigint)
      requires Valid()
      modifies this
      ensures Valid() && nodes != [] && p5 == nodes[0] && old(nodes) <= nodes
      ensures fresh(Cells() - old(Cells())) && forall n | n in Cells() - old(Cells()) :: fresh(n.x)
    {
      if p5s == null {
        var n := FromInt(625);
        p5s, nodes := n, [n];
        Pow5Small();
        Pow2Zero();
      }
      p5 := p5s;
    }

    // The node after p5, made as its square on first use.
    method Next(p5: Bigint, ghost i: nat) returns (p51: Bigint)
      requires Valid() && i < |nodes| && p5 == nodes[i]
      modifies this`nodes, p5`next
      ensures Valid() && i + 1 < |nodes| && p51 == nodes[i + 1] && old(nodes) <= nodes
      ensures fresh(Cells() - old(Cells())) && forall n | n in Cells() - old(Cells()) :: fresh(n.x)
    {
      hide IsPower;
      assert nodes[i].next == if i + 1 < |nodes| then nodes[i + 1] else null;
      if p5.next == null {
        var n := Square(p5, i);
        n.next := null;
        p5.next := n;
        nodes := nodes + [n];
        assert IsPower(n, i + 1);
        forall j | 0 <= j < |nodes| ensures IsPower(nodes[j], j) {
          assert j <= i ==> nodes[j] == old(nodes)[j] && old(IsPower(nodes[j], j));
        }
      }
      p51 := p5.next;
    }

    static method Square(p5: Bigint, ghost i: nat) returns (n: Bigint)
      requires IsPower(p5, i)
      ensures IsPower(n, i + 1) && fresh(n) && fresh(n.x)
    {
      hide Pow5, Exponent, Val;
      Pow5Add(Exponent(i), Exponent(i));
      ExponentNext(i);
      ghost var v := Pow5(Exponent(i));
      MulLe(1, v, v);
      n := Mult(p5, p5);
    }

    // b times 5^k.
    method Pow5Mult(b: Bigint, k0: nat) returns (r: Bigint)
      requires Valid() && b.Valid() && Normal(b.Words()) && b !in nodes && forall n | n in nodes :: n.x != b.x
      modifies this, Cells()`next, b`wds, b.x
      ensures r.Valid() && r.Value() == old(b.Value()) * Pow5(k0) && Normal(r.Words())
      ensures Valid() && old(nodes) <= nodes && fresh(Cells() - old(Cells()))
        && (forall n | n in Cells() - old(Cells()) :: fresh(n.x))
      ensures r == b || (fresh(r) && fresh(r.x))
    {
      hide Pow5, Valid, Val;
      ghost var v := b.Value();
      LowFives(v, k0);
      Pow5Small();
      r := b;
      var k := k0;
      if k % 4 != 0 {
        r := MultAdd(b, [5, 25, 125][k % 4 - 1], 0);
      }
      k := k / 4;
      if k == 0 {
        return;
      }
      assert r.Value() > 0 by { ValZeros(r.Words()); }
      ProgressStart(r.Value(), k, v * Pow5(k0));
      r := MultiplyPowers(r, k, v * Pow5(k0));
    }

    // The loop over the bits of k.
    method MultiplyPowers(b: Bigint, k0: nat, ghost goal: nat) returns (r: Bigint)
      requires Valid() && b.Valid() && b.wds > 0 && Progress(b.Value(), k0, 0, goal)
      modifies this, Cells()`next
      ensures r.Valid() && r.Value() == goal && Normal(r.Words()) && fresh(r) && fresh(r.x)
      ensures Valid() && old(nodes) <= nodes && fresh(Cells() - old(Cells()))
        && (forall n | n in Cells() - old(Cells()) :: fresh(n.x))
    {
      hide Valid, Val, Progress, Pow5, Exponent;
      r := b;
      var k := k0;
      var p5 := First();
      ghost var i := 0;
      ProgressPositive(r.Value(), k, i, goal);
      while true
        invariant Valid() && old(nodes) <= nodes && fresh(Cells() - old(Cells()))
          && (forall n | n in Cells() - old(Cells()) :: fresh(n.x))
        invariant i < |nodes| && p5 == nodes[i] && k > 0
        invariant r.Valid() && r.wds > 0 && Progress(r.Value(), k, i, goal)
        decreases k
      {
        r := TakeBit(r, p5, k, i, goal);
        k := k / 2;
        if k == 0 {
          break;
        }
        Node(i);
        p5 := Next(p5, i);
        i := i + 1;
      }
    }

    // The lowest bit of k: multiply or not.
    method TakeBit(b: Bigint, p5: Bigint, k: nat, ghost i: nat, ghost goal: nat) returns (r: Bigint)
      requires Valid() && i < |nodes| && p5 == nodes[i] && b.Valid() && b.wds > 0 && Progress(b.Value(), k, i, goal)
      ensures r.Valid() && r.wds > 0 && (r == b || (fresh(r) && fresh(r.x)))
      ensures if k / 2 == 0 then r.Value() == goal && Normal(r.Words()) && fresh(r)
        && fresh(r.x) else Progress(r.Value(), k / 2, i + 1, goal)
    {
      hide Valid, Val, Progress, Pow5, Exponent;
      ghost var v := b.Value();
      ProgressPositive(v, k, i, goal);
      r := b;
      if k % 2 == 1 {
        Node(i);
        ProgressOdd(v, k, i, goal);
        r := Mult(b, p5);
      } else {
        ProgressEven(v, k, i, goal);
      }
    }

    lemma Node(i: nat)
      requires Valid() && i < |nodes|
      ensures nodes[i] in Cells() && nodes[i].Valid() && nodes[i].wds > 0 && nodes[i].Value() == Pow5(Exponent(i))
    {
    }
  }

  // ---- s2b --------------------------------------------------------------------------------

  type Digit = c: char | '0' <= c <= '9' witness '0'

  // The value of a string of decimal digits.
  ghost function Decimal(s: seq<Digit>): nat {
    if s == [] then 0 else 10 * Decimal(s[..|s| - 1]) + (s[|s| - 1] as int - '0' as int)
  }

  // The nd digits of a numeral whose decimal point, dplen characters long, follows the first nd0.
  ghost predicate Numeral(s: string, nd0: nat, dplen: nat, digits: seq<Digit>) {
    && nd0 <= |digits| && |digits| + dplen <= |s|
    && (forall i | 0 <= i < nd0 :: s[i] == digits[i])
    && forall i | nd0 <= i < |digits| :: s[i + dplen] == digits[i]
  }

  // y9 is the value of the first nine digits, or of all when there are fewer.
  method FromDecimal(s: string, nd0: nat, nd: nat, y9: Word, dplen: nat, ghost digits: seq<Digit>) returns (b: Bigint)
    requires Numeral(s, nd0, dplen, digits) && |digits| == nd > 0
    requires y9 == Decimal(digits[..if nd < 9 then nd else 9])
    ensures b.Valid() && fresh(b) && fresh(b.x) && b.Value() == Decimal(digits) && (y9 > 0 ==> Normal(b.Words()))
  {
    hide Val, Decimal;
    b := Leading(nd, y9);
    var i, p := 9, 9;
    if 9 < nd0 {
      while i < nd0
        invariant 9 <= i <= nd0 && p == i && b.Valid() && fresh(b) && fresh(b.x) && b.wds > 0
        invariant b.Value() == Decimal(digits[..i]) && (y9 > 0 ==> Normal(b.Words()))
        decreases nd0 - i
      {
        b := Digitwise(b, s[p], digits, i);
        i, p := i + 1, p + 1;
      }
      p := p + dplen;
    } else {
      p := p + dplen;
    }
    while i < nd
      invariant 9 <= i && p == i + dplen && b.Valid() && fresh(b) && fresh(b.x) && b.wds > 0
      invariant b.Value() == Decimal(digits[..if nd < i then nd else i]) && (y9 > 0 ==> Normal(b.Words()))
        && (i > nd ==> nd < 9 && i == 9)
      decreases nd - i
    {
      b := Digitwise(b, s[p], digits, i);
      i, p := i + 1, p + 1;
    }
    assert digits[..nd] == digits;
  }

  method Leading(nd: nat, y9: Word) returns (b: Bigint)
    ensures b.Valid() && fresh(b) && fresh(b.x) && b.wds == 1 && b.Value() == y9 && (y9 > 0 ==> Normal(b.Words()))
  {
    var x, k, y := (nd + 8) / 9, 0, 1;
    while x > y
      invariant y > 0
    {
      y, k := 2 * y, k + 1;
    }
    b := new Bigint(k);
    b.x[0] := y9;
    b.wds := 1;
    ValPush([], y9);
    assert b.Words() == [] + [y9];
  }

  // One more digit.
  method Digitwise(b: Bigint, c: char, ghost digits: seq<Digit>, ghost i: nat) returns (r: Bigint)
    requires b.Valid() && b.wds > 0 && i < |digits| && c == digits[i] && b.Value() == Decimal(digits[..i])
    modifies b`wds, b.x
    ensures r.Valid() && r.wds > 0 && r.Value() == Decimal(digits[..i + 1])
      && (old(Normal(b.Words())) ==> Normal(r.Words()))
    ensures r == b || (fresh(r) && fresh(r.x))
  {
    hide Val;
    assert digits[..i + 1][..i] == digits[..i];
    r := MultAdd(b, 10, c as int - '0' as int);
  }

  // The value of a text by its parts, and where the digits stand in a text with a decimal point of any length.
  lemma {:induction false} DecimalJoins(a: seq<Digit>, b: seq<Digit>)
    ensures Decimal(a + b) == Decimal(a) * (Pow2(|b|) * Pow5(|b|)) + Decimal(b)
  {
    if b == [] {
      assert a + b == a;
    } else {
      var most := b[..|b| - 1];
      DecimalJoins(a, most);
      assert (a + b)[..|a + b| - 1] == a + most && (a + b)[|a + b| - 1] == b[|b| - 1];
      TenTimes(Decimal(a), Pow2(|most|), Pow5(|most|));
      hide Pow2, Pow5;
      assert Pow2(|b|) == 2 * Pow2(|most|) && Pow5(|b|) == 5 * Pow5(|most|) by { PowersNext(|most|); }
    }
  }

  lemma PowersNext(n: nat)
    ensures Pow2(n + 1) == 2 * Pow2(n) && Pow5(n + 1) == 5 * Pow5(n)
  {
  }

  lemma TenTimes(v: nat, p: nat, q: nat)
    ensures v * (2 * p * (5 * q)) == 10 * (v * (p * q))
  {
    assert 2 * p * (5 * q) == 10 * (p * q);
  }

  lemma DecimalExample()
    ensures Decimal("90271") == 90271
  {
    assert "90271"[..4] == "9027" && "9027"[..3] == "902" && "902"[..2] == "90" && "90"[..1] == "9" && "9"[..0] == "";
  }

  lemma NumeralIs(a: seq<Digit>, point: string, b: seq<Digit>)
    ensures Numeral(a + point + b, |a|, |point|, a + b)
  {
  }
}
