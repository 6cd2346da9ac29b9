// The FAT12, FAT16 and FAT32 accessors: reading and writing one entry of a FAT held as bytes.
module FatEntry {
  type Byte = b: int | 0 <= b < 256

  datatype Width = Fat12 | Fat16 | Fat32

  // One more than the mask of the entry values.
  function Limit(w: Width): nat {
    match w
    case Fat12 => 0x1000
    case Fat16 => 0x1_0000
    case Fat32 => 0x1000_0000
  }

  // The offset of the two (FAT12, FAT16) or four (FAT32) bytes that hold entry cl.
  function Offset(w: Width, cl: nat): nat {
    match w
    case Fat12 => cl + cl / 2
    case Fat16 => 2 * cl
    case Fat32 => 4 * cl
  }

  function Bytes(w: Width): nat {
    if w == Fat32 then 4 else 2
  }

  // The buffer holds n entries.
  predicate Holds(w: Width, size: nat, n: nat) {
    n == 0 || Offset(w, n - 1) + Bytes(w) <= size
  }

  lemma HoldsAll(w: Width, size: nat, n: nat)
    requires Holds(w, size, n)
    ensures forall i: nat | i < n :: Offset(w, i) + Bytes(w) <= size
  {
  }

  function Le16(b0: Byte, b1: Byte): nat { b0 + 256 * b1 }

  function Le32(b0: Byte, b1: Byte, b2: Byte, b3: Byte): nat { b0 + 256 * b1 + 65536 * b2 + 16777216 * b3 }

  // Values from "bad" on are widened to 32 bits, so that they compare with the CLUST_ constants.
  function Widen(w: Width, v: nat): nat
    requires v < Limit(w)
  {
    if v >= Limit(w) - 9 then v + 0x1_0000_0000 - Limit(w) else v
  }

  function Get(w: Width, buf: seq<Byte>, cl: nat): (v: nat)
    requires Offset(w, cl) + Bytes(w) <= |buf|
    ensures v < Limit(w) - 9 || 0xffff_fff7 <= v <= 0xffff_ffff
  {
    var p := Offset(w, cl);
    match w
    case Fat12 =>
      var v := Le16(buf[p], buf[p + 1]);
      Widen(w, (if cl % 2 == 1 then v / 16 else v) % 0x1000)
    case Fat16 => Widen(w, Le16(buf[p], buf[p + 1]))
    case Fat32 => Widen(w, Le32(buf[p], buf[p + 1], buf[p + 2], buf[p + 3]) % 0x1000_0000)
  }

  // The FAT as half-bytes, the low one of each byte first.
  function Nibble(buf: seq<Byte>, k: nat): nat
    requires k < 2 * |buf|
  {
    if k % 2 == 0 then buf[k / 2] % 16 else buf[k / 2] / 16
  }

  // n half-bytes from k on as a number, the lowest first.
  function Row(buf: seq<Byte>, k: nat, n: nat): nat
    requires k + n <= 2 * |buf|
    decreases n
  {
    if n == 0 then 0 else Nibble(buf, k) + 16 * Row(buf, k + 1, n - 1)
  }

  // An entry is three, four or seven half-bytes in a row; the eighth of FAT32 does not count.
  lemma EntryIs(w: Width, buf: seq<Byte>, cl: nat)
    requires Offset(w, cl) + Bytes(w) <= |buf|
    ensures match w
      case Fat12 => Row(buf, 3 * cl, 3) < Limit(w) && Get(w, buf, cl) == Widen(w, Row(buf, 3 * cl, 3))
      case Fat16 => Row(buf, 4 * cl, 4) < Limit(w) && Get(w, buf, cl) == Widen(w, Row(buf, 4 * cl, 4))
      case Fat32 => Row(buf, 8 * cl, 7) < Limit(w) && Get(w, buf, cl) == Widen(w, Row(buf, 8 * cl, 7))
  {
    hide Row, Widen, Le16, Le32;
    var p := Offset(w, cl);
    match w
    case Fat12 =>
      HalfBytes(cl);
      Row3(buf, 3 * cl);
    case Fat16 => Row4(buf, p);
    case Fat32 => Row7(buf, p);
  }

  lemma HalfBytes(cl: nat)
    ensures 3 * cl / 2 == cl + cl / 2 && 3 * cl % 2 == cl % 2
  {
  }

  lemma RowStep(buf: seq<Byte>, k: nat, n: nat)
    requires k + n <= 2 * |buf|
    ensures Row(buf, k, n) == if n == 0 then 0 else Nibble(buf, k) + 16 * Row(buf, k + 1, n - 1)
  {
    hide Nibble;
  }

  lemma NibbleIs(buf: seq<Byte>, p: nat)
    requires p < |buf|
    ensures Nibble(buf, 2 * p) == buf[p] % 16 && Nibble(buf, 2 * p + 1) == buf[p] / 16
  {
  }

  lemma Row3(buf: seq<Byte>, k: nat)
    requires k + 3 <= 2 * |buf|
    ensures var v := Le16(buf[k / 2], buf[k / 2 + 1]);
      Row(buf, k, 3) == if k % 2 == 0 then v % 0x1000 else v / 16 % 0x1000
  {
    hide Row, Nibble;
    Halves(buf[k / 2], buf[k / 2 + 1]);
    RowStep(buf, k, 3);
    RowStep(buf, k + 1, 2);
    RowStep(buf, k + 2, 1);
    RowStep(buf, k + 3, 0);
    NibbleIs(buf, k / 2);
    NibbleIs(buf, k / 2 + 1);
  }

  // Two half-bytes are a byte.
  lemma RowByte(buf: seq<Byte>, p: nat, n: nat)
    requires 2 <= n && 2 * p + n <= 2 * |buf|
    ensures Row(buf, 2 * p, n) == (buf[p] as int) + 256 * Row(buf, 2 * p + 2, n - 2)
  {
    hide Row, Nibble;
    RowStep(buf, 2 * p, n);
    RowStep(buf, 2 * p + 1, n - 1);
    NibbleIs(buf, p);
  }

  lemma Row4(buf: seq<Byte>, p: nat)
    requires p + 2 <= |buf|
    ensures Row(buf, 2 * p, 4) == Le16(buf[p], buf[p + 1]) < 0x1_0000
  {
    hide Row, Nibble;
    RowByte(buf, p, 4);
    RowByte(buf, p + 1, 2);
    RowStep(buf, 2 * p + 4, 0);
  }

  lemma Row7(buf: seq<Byte>, p: nat)
    requires p + 4 <= |buf|
    ensures Row(buf, 2 * p, 7) == Le32(buf[p], buf[p + 1], buf[p + 2], buf[p + 3]) % 0x1000_0000
  {
    hide Row, Le32, Nibble;
    RowByte(buf, p, 7);
    RowByte(buf, p + 1, 5);
    RowByte(buf, p + 2, 3);
    Row1(buf, p + 3);
    Sum7(buf[p], buf[p + 1], buf[p + 2], buf[p + 3], Row(buf, 2 * p + 4, 3), Row(buf, 2 * p + 2, 5),
      Row(buf, 2 * p, 7));
  }

  lemma Row1(buf: seq<Byte>, p: nat)
    requires p < |buf|
    ensures Row(buf, 2 * p, 1) == buf[p] % 16
  {
    hide Row, Nibble;
    RowStep(buf, 2 * p, 1);
    RowStep(buf, 2 * p + 1, 0);
    NibbleIs(buf, p);
  }

  lemma Sum7(b0: Byte, b1: Byte, b2: Byte, b3: Byte, r3: nat, r5: nat, r7: nat)
    requires r3 == b2 as int + 256 * (b3 as int % 16) && r5 == b1 as int + 256 * r3 && r7 == b0 as int + 256 * r5
    ensures r7 == Le32(b0, b1, b2, b3) % 0x1000_0000
  {
    TopNibble(b0, b1, b2, b3);
  }

  lemma TopNibble(b0: Byte, b1: Byte, b2: Byte, b3: Byte)
    ensures Le32(b0, b1, b2, b3) % 0x1000_0000 == b0 + 256 * b1 + 65536 * b2 + 16777216 * (b3 % 16)
  {
    assert Le32(b0, b1, b2, b3) == b0 + 256 * b1 + 65536 * b2 + 16777216 * (b3 % 16) + 0x1000_0000 * (b3 / 16);
  }

  // What is written for `next` in entry cl, given the bytes that are there.
  function Encoded(w: Width, p0: Byte, p1: Byte, cl: nat, next: nat): nat {
    var v := next % Limit(w);
    match w
    case Fat12 => if cl % 2 == 0 then v + 0x1000 * (p1 / 16) else 16 * v + p0 % 16
    case Fat16 => v
    case Fat32 => v
  }

  function Put(w: Width, buf: seq<Byte>, cl: nat, next: nat): (r: seq<Byte>)
    requires Offset(w, cl) + Bytes(w) <= |buf|
    ensures |r| == |buf|
  {
    var p := Offset(w, cl);
    var v := Encoded(w, buf[p], buf[p + 1], cl, next);
    var r := buf[p := v % 256][p + 1 := v / 256 % 256];
    if w == Fat32 then r[p + 2 := v / 65536 % 256][p + 3 := v / 16777216 % 256] else r
  }

  lemma Join16(b0: Byte, b1: Byte, v: nat)
    requires v < 65536 && b0 == v % 256 && b1 == v / 256 % 256
    ensures Le16(b0, b1) == v
  {
  }

  lemma Join32(b0: Byte, b1: Byte, b2: Byte, b3: Byte, v: nat)
    requires v < 0x1000_0000 && b0 == v % 256 && b1 == v / 256 % 256 && b2 == v / 65536 % 256
      && b3 == v / 16777216 % 256
    ensures Le32(b0, b1, b2, b3) == v
  {
    assert v / 65536 == v / 256 / 256 && v / 16777216 == v / 65536 / 256;
  }

  lemma Low12(n: nat, h: nat)
    requires n < 0x1000 && h < 16
    ensures n + 0x1000 * h < 65536 && (n + 0x1000 * h) % 0x1000 == n
  {
  }

  lemma High12(n: nat, l: nat)
    requires n < 0x1000 && l < 16
    ensures 16 * n + l < 65536 && (16 * n + l) / 16 == n
  {
  }

  lemma GetPut12(buf: seq<Byte>, cl: nat, next: nat)
    requires Offset(Fat12, cl) + 2 <= |buf|
    ensures Get(Fat12, Put(Fat12, buf, cl, next), cl) == Widen(Fat12, next % 0x1000)
  {
    hide Le16, Le32, Widen;
    var p, n := Offset(Fat12, cl), next % 0x1000;
    var v := Encoded(Fat12, buf[p], buf[p + 1], cl, next);
    Low12(n, buf[p + 1] / 16);
    High12(n, buf[p] % 16);
    var r := Put(Fat12, buf, cl, next);
    Join16(r[p], r[p + 1], v);
  }

  lemma GetPut16(buf: seq<Byte>, cl: nat, next: nat)
    requires Offset(Fat16, cl) + 2 <= |buf|
    ensures Get(Fat16, Put(Fat16, buf, cl, next), cl) == Widen(Fat16, next % 0x1_0000)
  {
    hide Le16, Le32, Widen;
    var p, r := Offset(Fat16, cl), Put(Fat16, buf, cl, next);
    Join16(r[p], r[p + 1], next % 0x1_0000);
  }

  lemma GetPut32(buf: seq<Byte>, cl: nat, next: nat)
    requires Offset(Fat32, cl) + 4 <= |buf|
    ensures Get(Fat32, Put(Fat32, buf, cl, next), cl) == Widen(Fat32, next % 0x1000_0000)
  {
    hide Le16, Le32, Widen;
    var p, r := Offset(Fat32, cl), Put(Fat32, buf, cl, next);
    Join32(r[p], r[p + 1], r[p + 2], r[p + 3], next % 0x1000_0000);
  }

  // An entry reads back as the value written, cut to the width and widened again.
  lemma GetPut(w: Width, buf: seq<Byte>, cl: nat, next: nat)
    requires Offset(w, cl) + Bytes(w) <= |buf|
    ensures Get(w, Put(w, buf, cl, next), cl) == Widen(w, next % Limit(w))
  {
    hide Get, Put, Widen;
    match w
    case Fat12 => GetPut12(buf, cl, next);
    case Fat16 => GetPut16(buf, cl, next);
    case Fat32 => GetPut32(buf, cl, next);
  }

  // The end mark, the free mark and every cluster number the width can hold read back unchanged.
  lemma GetPutExact(w: Width, buf: seq<Byte>, cl: nat, next: nat)
    requires Offset(w, cl) + Bytes(w) <= |buf|
    requires next < Limit(w) - 9 || 0xffff_fff7 <= next <= 0xffff_ffff
    ensures Get(w, Put(w, buf, cl, next), cl) == next
  {
    hide Get, Put;
    GetPut(w, buf, cl, next);
    WidenExact(w, next);
  }

  lemma WidenExact(w: Width, next: nat)
    requires next < Limit(w) - 9 || 0xffff_fff7 <= next <= 0xffff_ffff
    ensures Widen(w, next % Limit(w)) == next
  {
  }

  // A FAT12 entry shares one byte with a neighbour; writing it keeps the neighbour's half of that byte.
  lemma HighNibble(n: nat, h: nat)
    requires n < 0x1000 && h < 16
    ensures (n + 0x1000 * h) / 256 % 256 / 16 == h
  {
  }

  lemma LowNibble(n: nat, l: nat)
    requires l < 16
    ensures (16 * n + l) % 256 % 16 == l
  {
  }

  lemma Halves(b0: Byte, b1: Byte)
    ensures Le16(b0, b1) / 16 % 0x1000 == b0 / 16 + 16 * b1
    ensures Le16(b0, b1) % 0x1000 == b0 + 256 * (b1 % 16)
  {
  }

  lemma GetPutOther12(buf: seq<Byte>, cl: nat, next: nat, other: nat)
    requires Offset(Fat12, cl) + 2 <= |buf| && Offset(Fat12, other) + 2 <= |buf| && other != cl
    ensures Get(Fat12, Put(Fat12, buf, cl, next), other) == Get(Fat12, buf, other)
  {
    hide Le16, Le32, Widen;
    var p, o := Offset(Fat12, cl), Offset(Fat12, other);
    var r := Put(Fat12, buf, cl, next);
    Halves(buf[o], buf[o + 1]);
    Halves(r[o], r[o + 1]);
    if other == cl + 1 && cl % 2 == 0 {
      assert o == p + 1;
      HighNibble(next % 0x1000, buf[p + 1] / 16);
    } else if other + 1 == cl && cl % 2 == 1 {
      assert o == p - 1;
      LowNibble(next % 0x1000, buf[p] % 16);
    } else {
      Disjoint12(cl, other);
    }
  }

  lemma Disjoint12(cl: nat, other: nat)
    requires other != cl && !(other == cl + 1 && cl % 2 == 0) && !(other + 1 == cl && cl % 2 == 1)
    ensures Offset(Fat12, other) > Offset(Fat12, cl) + 1 || Offset(Fat12, other) + 1 < Offset(Fat12, cl)
  {
  }

  // No other entry changes, not even the one that shares a byte.
  lemma GetPutOther(w: Width, buf: seq<Byte>, cl: nat, next: nat, other: nat)
    requires Offset(w, cl) + Bytes(w) <= |buf| && Offset(w, other) + Bytes(w) <= |buf| && other != cl
    ensures Get(w, Put(w, buf, cl, next), other) == Get(w, buf, other)
  {
    match w
    case Fat12 => GetPutOther12(buf, cl, next, other);
    case Fat16 =>
    case Fat32 =>
  }
}
