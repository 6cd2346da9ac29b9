// Reading hexadecimal digits into the words of a big integer, from the right.
module HexDigits {
  import opened Arithmetic
  import opened BigNat
  import opened Bigints

  predicate IsHex(c: char) {
    '0' <= c <= '9' || 'a' <= c <= 'f' || 'A' <= c <= 'F'
  }

  function HexDigit(c: char): (d: nat)
    requires IsHex(c)
    ensures d < 16 && (d == 0 <==> c == '0')
  {
    if c <= '9' then c as int - '0' as int else if c <= 'F' then c as int - 'A' as int + 10
      else c as int - 'a' as int + 10
  }

  // Digits with a point among them, not starting with a zero.
  predicate HexText(s: string) {
    s != "" && (forall i | 0 <= i < |s| :: IsHex(s[i]) || s[i] == '.') && IsHex(s[0]) && s[0] != '0'
  }

  ghost function Digits(s: string): (n: nat)
    ensures n <= |s|
  {
    if s == "" then 0 else Digits(s[1..]) + (if s[0] == '.' then 0 else 1)
  }

  // The digits as one integer; the point does not count.
  ghost function HexVal(s: string): nat
    requires forall i | 0 <= i < |s| :: IsHex(s[i]) || s[i] == '.'
  {
    if s == "" then 0
    else if s[0] == '.' then HexVal(s[1..])
    else HexDigit(s[0]) * Pow2(4 * Digits(s[1..])) + HexVal(s[1..])
  }

  // The digits are those of base 16, in either case.
  lemma HexDigitIs(c: char, k: nat)
    requires k < 16
    ensures c == "0123456789abcdef"[k] || c == "0123456789ABCDEF"[k] <==> IsHex(c) && HexDigit(c) == k
  {
    assert "0123456789"[..] == "0123456789abcdef"[..10] == "0123456789ABCDEF"[..10];
  }

  // Read from the left, a digit is put behind the others, and a point is skipped.
  lemma {:induction false} HexRead(s: string, c: char)
    requires (forall i | 0 <= i < |s| :: IsHex(s[i]) || s[i] == '.') && (IsHex(c) || c == '.')
    ensures HexVal(s + [c]) == if c == '.' then HexVal(s) else 16 * HexVal(s) + HexDigit(c)
    ensures Digits(s + [c]) == Digits(s) + if c == '.' then 0 else 1
  {
    if s == "" {
      assert s + [c] == [c];
      HexOne(c);
    } else {
      HexRead(s[1..], c);
      assert (s + [c])[1..] == s[1..] + [c] && (s + [c])[0] == s[0];
      if s[0] != '.' && c != '.' {
        HexShift(HexDigit(s[0]), Digits(s[1..]));
      }
      hide Pow2, HexDigit;
    }
  }

  lemma HexOne(c: char)
    requires IsHex(c) || c == '.'
    ensures HexVal("") == 0 && Digits("") == 0 && HexVal([c]) == (if c == '.' then 0 else HexDigit(c))
    ensures Digits([c]) == if c == '.' then 0 else 1
  {
    assert [c][1..] == "";
    Pow2Zero();
  }

  lemma HexShift(d: nat, n: nat)
    ensures d * Pow2(4 * (n + 1)) == 16 * (d * Pow2(4 * n))
  {
    SixteenTimes(4 * n);
    hide Pow2;
    assert d * (16 * Pow2(4 * n)) == 16 * (d * Pow2(4 * n));
  }

  lemma HexExample()
    ensures HexVal("1aF.0c") == 0x1af0c
  {
    hide HexVal, Digits;
    HexOne('1');
    assert ['1'] + ['a'] == "1a" && "1a" + ['F'] == "1aF" && "1aF" + ['.'] == "1aF."
      && "1aF." + ['0'] == "1aF.0" && "1aF.0" + ['c'] == "1aF.0c";
    HexRead(['1'], 'a');
    HexRead("1a", 'F');
    HexRead("1aF", '.');
    HexRead("1aF.", '0');
    HexRead("1aF.0", 'c');
  }

  // The digits of t are in the words done and, n bits of them, in the word l.
  ghost predicate HexState(t: string, words: seq<Word>, l: nat, n: nat) {
    && (forall i | 0 <= i < |t| :: IsHex(t[i]) || t[i] == '.')
    && n % 4 == 0 && n <= 32 && l < Pow2(n) && Digits(t) == 8 * |words| + n / 4
    && Val(words) + l * Power(|words|) == HexVal(t)
  }

  lemma HexStart()
    ensures HexState("", [], 0, 0)
  {
  }

  lemma HexPoint(t: string, words: seq<Word>, l: nat, n: nat)
    requires t != "" && t[0] == '.' && HexState(t[1..], words, l, n)
    ensures HexState(t, words, l, n)
  {
  }

  // A full word is stored.
  lemma HexStore(t: string, words: seq<Word>, l: nat)
    requires HexState(t, words, l, 32)
    ensures l < BASE && HexState(t, words + [l], 0, 0)
  {
    Pow2Word();
    Pow2Zero();
    hide Pow2;
    ValPush(words, l);
  }

  // A digit in its place.
  function Place(d: nat, n: nat): nat {
    d * Pow2(n)
  }

  lemma HexMore(t: string, words: seq<Word>, l: nat, n: nat)
    requires t != "" && IsHex(t[0]) && HexState(t[1..], words, l, n) && n < 32
    ensures HexState(t, words, l + Place(HexDigit(t[0]), n), n + 4)
    ensures t[0] != '0' ==> Place(HexDigit(t[0]), n) > 0
  {
    var d := HexDigit(t[0]);
    SixteenTimes(n);
    PlaceIn(|words|, n, d, Digits(t[1..]));
    hide Pow2, Power, Val, Place;
    PlaceFits(l, d, n);
    assert HexVal(t) == Place(d, 4 * Digits(t[1..])) + HexVal(t[1..]) by { PlaceDef(d, 4 * Digits(t[1..])); }
    MoreValue(l, Place(d, n), Power(|words|));
  }

  lemma PlaceDef(d: nat, n: nat)
    ensures Place(d, n) == d * Pow2(n)
  {
  }

  lemma PlaceFits(l: nat, d: nat, n: nat)
    requires l < Pow2(n) && d < 16
    ensures l + Place(d, n) < 16 * Pow2(n) && (d > 0 ==> Place(d, n) > 0)
  {
  }

  lemma SixteenTimes(n: nat)
    ensures Pow2(n + 4) == 16 * Pow2(n)
  {
    Pow2Add(n, 4);
    assert Pow2(4) == 16;
  }

  lemma PlaceIn(w: nat, n: nat, d: nat, count: nat)
    requires n % 4 == 0 && count == 8 * w + n / 4
    ensures Place(d, 4 * count) == Place(d, n) * Power(w)
  {
    PowerPow2(w);
    Pow2Add(32 * w, n);
    assert 4 * count == 32 * w + n;
    hide Pow2;
    assert d * (Pow2(32 * w) * Pow2(n)) == d * Pow2(n) * Pow2(32 * w);
  }

  lemma MoreValue(l: nat, d: nat, w: nat)
    ensures (l + d) * w == l * w + d * w
  {
  }

  method Capacity(len: nat) returns (k: nat)
    requires len > 0
    ensures len <= 8 * Pow2(k)
  {
    var n := len - 1;
    k := 0;
    while n > 7
      invariant len - 1 < (n + 1) * Pow2(k)
    {
      assert (n + 1) * Pow2(k) <= (n / 2 + 1) * Pow2(k + 1) by {
        Pow2Next(k);
        CapacityStep(n, Pow2(k));
      }
      n := n / 2;
      k := k + 1;
    }
    MulLe(n + 1, 8, Pow2(k));
  }

  lemma CapacityStep(n: nat, p: nat)
    ensures (n + 1) * p <= (n / 2 + 1) * (2 * p)
  {
    MulLe(n + 1, 2 * (n / 2 + 1), p);
    assert 2 * (n / 2 + 1) * p == (n / 2 + 1) * (2 * p);
  }

  method ReadDigits(s: string) returns (b: Bigint, top: Word)
    requires HexText(s)
    ensures b.Valid() && fresh(b) && fresh(b.x) && b.wds > 0 && b.x[b.wds - 1] == top != 0 && b.Value() == HexVal(s)
  {
    hide Val, Power, Pow2, HexState, HexVal, Place;
    var k := Capacity(|s|);
    b := new Bigint(k);
    var w, n, i := 0, 0, |s|;
    var l: nat := 0;
    HexStart();
    assert s[i..] == "" && b.x[..0] == [];
    while i > 0
      invariant 0 <= i <= |s| <= 8 * b.x.Length && b.wds == 0 && w < b.x.Length && HexState(s[i..], b.x[..w], l, n)
      invariant n <= 32 && n % 4 == 0 && Digits(s[i..]) == 8 * w + n / 4 && (i == 0 ==> l > 0)
    {
      i := i - 1;
      assert s[i..][1..] == s[i + 1..];
      if s[i] == '.' {
        HexPoint(s[i..], b.x[..w], l, n);
      } else {
        if n == 32 {
          HexStore(s[i + 1..], b.x[..w], l);
          ghost var words := b.x[..w];
          b.x[w] := l;
          assert b.x[..w + 1] == words + [l];
          w, l, n := w + 1, 0, 0;
        }
        HexMore(s[i..], b.x[..w], l, n);
        l := l + Place(HexDigit(s[i]), n);
        n := n + 4;
      }
    }
    assert s[0..] == s;
    HexLast(s, b.x[..w], l, n);
    top := l;
    ghost var words := b.x[..w];
    b.x[w] := l;
    b.wds := w + 1;
    assert b.Words() == words + [l];
  }

  lemma HexLast(t: string, words: seq<Word>, l: nat, n: nat)
    requires HexState(t, words, l, n)
    ensures l < BASE && Val(words + [l]) == HexVal(t)
  {
    Pow2Mono(n, 32);
    Pow2Word();
    hide Pow2;
    ValPush(words, l);
  }
}
