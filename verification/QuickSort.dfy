// The library sort: three-way partition with equal keys parked at both ends, block swaps, a switch
// to insertion sort, and recursion on the smaller side only.
module QuickSort {
  import opened Arithmetic
  import opened SortSpec

  // swapfunc
  method Swap<T>(a: array<T>, i: int, j: int)
    requires 0 <= i < a.Length && 0 <= j < a.Length
    modifies a
    ensures a[..] == Swapped(old(a[..]), i, j)
  {
    a[i], a[j] := a[j], a[i];
  }

  // The block of n elements at i and the block at j have changed places.
  function BlocksSwapped<T>(s: seq<T>, i: int, j: int, n: int): (r: seq<T>)
    requires 0 <= n && 0 <= i && i + n <= j && j + n <= |s|
    ensures |r| == |s|
  {
    s[..i] + s[j..j + n] + s[i + n..j] + s[i..i + n] + s[j + n..]
  }

  lemma BlocksSwappedStep<T>(s: seq<T>, i: int, j: int, n: int)
    requires 0 <= n && 0 <= i && i + n + 1 <= j && j + n + 1 <= |s|
    ensures BlocksSwapped(s, i, j, n + 1) == Swapped(BlocksSwapped(s, i, j, n), i + n, j + n)
  {
  }

  lemma {:induction false} BlocksSwappedShuffled<T>(s: seq<T>, i: int, j: int, n: int, lo: int, hi: int)
    requires 0 <= lo <= i && 0 <= n && i + n <= j && j + n <= hi <= |s|
    ensures Shuffled(s, BlocksSwapped(s, i, j, n), lo, hi)
    decreases n
  {
    hide Shuffled, Swapped, BlocksSwapped;
    if n == 0 {
      BlocksSwappedNone(s, i, j);
      ShuffledSame(s, lo, hi);
    } else {
      var r := BlocksSwapped(s, i, j, n - 1);
      BlocksSwappedShuffled(s, i, j, n - 1, lo, hi);
      BlocksSwappedStep(s, i, j, n - 1);
      ShuffledSwap(r, i + n - 1, j + n - 1, lo, hi);
      ShuffledTwice(s, r, BlocksSwapped(s, i, j, n), lo, hi);
    }
  }

  // vecswap on blocks that do not overlap
  method VecSwap<T>(a: array<T>, i: int, j: int, n: int)
    requires 0 <= n && 0 <= i && i + n <= j && j + n <= a.Length
    modifies a
    ensures a[..] == BlocksSwapped(old(a[..]), i, j, n)
  {
    hide Swapped, BlocksSwapped;
    ghost var s := a[..];
    assert s == BlocksSwapped(s, i, j, 0) by { BlocksSwappedNone(s, i, j); }
    var k := 0;
    while k < n
      invariant 0 <= k <= n && a[..] == BlocksSwapped(s, i, j, k)
    {
      BlocksSwappedStep(s, i, j, k);
      Swap(a, i + k, j + k);
      k := k + 1;
    }
  }

  lemma BlocksSwappedNone<T>(s: seq<T>, i: int, j: int)
    requires 0 <= i <= j <= |s|
    ensures BlocksSwapped(s, i, j, 0) == s
  {
  }

  // The insertion sort used for short arrays and when the partition moved nothing.
  method InsertionSort<T(!new)>(a: array<T>, lo: int, hi: int, cmp: (T, T) -> int)
    requires 0 <= lo <= hi <= a.Length && Preorder(cmp)
    modifies a
    ensures Shuffled(old(a[..]), a[..], lo, hi) && Sorted(a[..], lo, hi, cmp)
  {
    hide Shuffled;
    ghost var s := a[..];
    ShuffledSame(s, lo, hi);
    var pm := lo + 1;
    while pm < hi
      invariant lo < pm && Shuffled(s, a[..], lo, hi) && Sorted(a[..], lo, if pm < hi then pm else hi, cmp)
    {
      ghost var t := a[..];
      Sink(a, lo, pm, hi, cmp);
      ShuffledTwice(s, t, a[..], lo, hi);
      pm := pm + 1;
    }
  }

  // Sorted up to pm but for the element at pl, which may be smaller than some before it.
  ghost predicate Sinking<T(!new)>(s: seq<T>, lo: int, pl: int, pm: int, cmp: (T, T) -> int) {
    && 0 <= lo <= pl <= pm < |s|
    && forall i, j | lo <= i < j <= pm && j != pl :: cmp(s[i], s[j]) <= 0
  }

  lemma SinkStep<T(!new)>(s: seq<T>, lo: int, pl: int, pm: int, cmp: (T, T) -> int)
    requires Preorder(cmp) && Sinking(s, lo, pl, pm, cmp) && lo < pl && cmp(s[pl - 1], s[pl]) > 0
    ensures Sinking(Swapped(s, pl, pl - 1), lo, pl - 1, pm, cmp)
  {
  }

  lemma SinkStart<T(!new)>(s: seq<T>, lo: int, pm: int, cmp: (T, T) -> int)
    requires 0 <= lo <= pm < |s| && Sorted(s, lo, pm, cmp)
    ensures Sinking(s, lo, pm, pm, cmp)
  {
  }

  lemma SinkEnd<T(!new)>(s: seq<T>, lo: int, pl: int, pm: int, cmp: (T, T) -> int)
    requires Preorder(cmp) && Sinking(s, lo, pl, pm, cmp) && (lo < pl ==> cmp(s[pl - 1], s[pl]) <= 0)
    ensures Sorted(s, lo, pm + 1, cmp)
  {
    forall i | lo <= i < pl ensures cmp(s[i], s[pl]) <= 0 {
      assert i < pl - 1 ==> cmp(s[i], s[pl - 1]) <= 0;
    }
  }

  // The inner loop: the element at pm sinks to its place.
  method Sink<T(!new)>(a: array<T>, lo: int, pm: int, ghost hi: int, cmp: (T, T) -> int)
    requires 0 <= lo <= pm < hi <= a.Length && Preorder(cmp) && Sorted(a[..], lo, pm, cmp)
    modifies a
    ensures Shuffled(old(a[..]), a[..], lo, hi) && Sorted(a[..], lo, pm + 1, cmp)
  {
    hide Shuffled, Swapped, Preorder, Sorted, Sinking;
    ghost var s := a[..];
    ShuffledSame(s, lo, hi);
    SinkStart(s, lo, pm, cmp);
    var pl := pm;
    while pl > lo && cmp(a[pl - 1], a[pl]) > 0
      invariant lo <= pl <= pm && Shuffled(s, a[..], lo, hi)
      invariant Sinking(a[..], lo, pl, pm, cmp)
    {
      ghost var t := a[..];
      SinkStep(t, lo, pl, pm, cmp);
      ShuffledSwap(t, pl, pl - 1, lo, hi);
      Swap(a, pl, pl - 1);
      ShuffledTwice(s, t, a[..], lo, hi);
      pl := pl - 1;
    }
    SinkEnd(a[..], lo, pl, pm, cmp);
  }

  // med3, on indices
  function Med3<T>(s: seq<T>, i: int, j: int, k: int, cmp: (T, T) -> int): (r: int)
    requires 0 <= i < |s| && 0 <= j < |s| && 0 <= k < |s|
    ensures r == i || r == j || r == k
  {
    if cmp(s[i], s[j]) < 0 then
      (if cmp(s[j], s[k]) < 0 then j else if cmp(s[i], s[k]) < 0 then k else i)
    else
      (if cmp(s[j], s[k]) > 0 then j else if cmp(s[i], s[k]) < 0 then i else k)
  }

  // It is a median: at most one of the three is smaller, and at most one is larger.
  lemma Med3IsMedian<T(!new)>(s: seq<T>, i: int, j: int, k: int, cmp: (T, T) -> int, p: int, q: int)
    requires 0 <= i < |s| && 0 <= j < |s| && 0 <= k < |s| && Preorder(cmp)
    requires (p == i && q == j) || (p == i && q == k) || (p == j && q == k)
    ensures var m := s[Med3(s, i, j, k, cmp)];
      !(cmp(s[p], m) < 0 && cmp(s[q], m) < 0) && !(cmp(s[p], m) > 0 && cmp(s[q], m) > 0)
  {
    assert cmp(s[i], s[j]) <= 0 || cmp(s[j], s[i]) <= 0;
    assert cmp(s[j], s[k]) <= 0 || cmp(s[k], s[j]) <= 0;
    assert cmp(s[i], s[k]) <= 0 || cmp(s[k], s[i]) <= 0;
  }

  // Of the elements of the stretch at other places, one is not after the one at m and one not before it.
  ghost predicate Inner<T(!new)>(s: seq<T>, lo: int, hi: int, m: int, cmp: (T, T) -> int) {
    && 0 <= lo <= m < hi <= |s|
    && exists p, q | lo <= p < hi && lo <= q < hi && p != m && q != m && p != q ::
      cmp(s[p], s[m]) <= 0 && cmp(s[q], s[m]) >= 0
  }

  lemma Med3Inner<T(!new)>(s: seq<T>, i: int, j: int, k: int, cmp: (T, T) -> int, lo: int, hi: int)
    requires 0 <= lo <= i < hi <= |s| && lo <= j < hi && lo <= k < hi && i != j && j != k && i != k && Preorder(cmp)
    ensures Inner(s, lo, hi, Med3(s, i, j, k, cmp), cmp)
  {
    var m := Med3(s, i, j, k, cmp);
    var p, q := if m == i then j else i, if m == k then j else k;
    Med3IsMedian(s, i, j, k, cmp, p, q);
    assert (cmp(s[p], s[m]) <= 0 && cmp(s[q], s[m]) >= 0) || (cmp(s[q], s[m]) <= 0 && cmp(s[p], s[m]) >= 0);
  }

  // The pivot: the middle, the median of three, or the median of three medians.
  method Pivot<T(!new)>(a: array<T>, lo: int, n: int, cmp: (T, T) -> int) returns (pm: int)
    requires 0 <= lo && 7 <= n && lo + n <= a.Length && Preorder(cmp)
    ensures lo <= pm < lo + n && (n > 7 ==> Inner(a[..], lo, lo + n, pm, cmp))
  {
    hide Preorder, Med3, Inner;
    pm := lo + n / 2;
    if n > 7 {
      var pl, pn := lo, lo + n - 1;
      if n > 40 {
        var d := n / 8;
        pl := Med3(a[..], pl, pl + d, pl + 2 * d, cmp);
        pm := Med3(a[..], pm - d, pm, pm + d, cmp);
        pn := Med3(a[..], pn - 2 * d, pn - d, pn, cmp);
      }
      Med3Inner(a[..], pl, pm, pn, cmp, lo, lo + n);
      pm := Med3(a[..], pl, pm, pn, cmp);
    }
  }

  // During the partition around the element at lo: equal, smaller, unknown, larger, equal.
  ghost predicate Parted<T(!new)>(s: seq<T>, lo: int, pa: int, pb: int, pc: int, pd: int, hi: int,
      cmp: (T, T) -> int) {
    && 0 <= lo < pa <= pb <= pc + 1 <= pd + 1 <= hi <= |s|
    && (forall k | lo <= k < pa :: cmp(s[k], s[lo]) == 0)
    && (forall k | pa <= k < pb :: cmp(s[k], s[lo]) < 0)
    && (forall k | pc < k <= pd :: cmp(s[k], s[lo]) > 0)
    && (forall k | pd < k < hi :: cmp(s[k], s[lo]) == 0)
  }

  lemma PartedLeft<T(!new)>(s: seq<T>, lo: int, pa: int, pb: int, pc: int, pd: int, hi: int, cmp: (T, T) -> int)
    requires Parted(s, lo, pa, pb, pc, pd, hi, cmp) && pb <= pc
    ensures cmp(s[pb], s[lo]) < 0 ==> Parted(s, lo, pa, pb + 1, pc, pd, hi, cmp)
    ensures cmp(s[pb], s[lo]) == 0 ==> Parted(Swapped(s, pa, pb), lo, pa + 1, pb + 1, pc, pd, hi, cmp)
  {
  }

  lemma PartedRight<T(!new)>(s: seq<T>, lo: int, pa: int, pb: int, pc: int, pd: int, hi: int, cmp: (T, T) -> int)
    requires Parted(s, lo, pa, pb, pc, pd, hi, cmp) && pb <= pc
    ensures cmp(s[pc], s[lo]) > 0 ==> Parted(s, lo, pa, pb, pc - 1, pd, hi, cmp)
    ensures cmp(s[pc], s[lo]) == 0 ==> Parted(Swapped(s, pc, pd), lo, pa, pb, pc - 1, pd - 1, hi, cmp)
  {
  }

  lemma PartedCross<T(!new)>(s: seq<T>, lo: int, pa: int, pb: int, pc: int, pd: int, hi: int, cmp: (T, T) -> int)
    requires Parted(s, lo, pa, pb, pc, pd, hi, cmp) && pb <= pc && cmp(s[pb], s[lo]) > 0 && cmp(s[pc], s[lo]) < 0
    ensures Parted(Swapped(s, pb, pc), lo, pa, pb + 1, pc - 1, pd, hi, cmp)
  {
  }

  function Min(a: int, b: int): int {
    if a < b then a else b
  }

  lemma BlocksSwappedAt<T>(s: seq<T>, i: int, j: int, n: int, k: int)
    requires 0 <= n && 0 <= i && i + n <= j && j + n <= |s| && 0 <= k < |s|
    ensures BlocksSwapped(s, i, j, n)[k] ==
      s[if i <= k < i + n then k - i + j else if j <= k < j + n then k - j + i else k]
  {
  }

  // The two block swaps bring the equal elements to the middle.
  lemma PartedJoin<T(!new)>(s: seq<T>, lo: int, pa: int, pb: int, pc: int, pd: int, hi: int, cmp: (T, T) -> int,
      m: int, n: int)
    requires Parted(s, lo, pa, pb, pc, pd, hi, cmp) && pb == pc + 1 && Preorder(cmp)
    requires m == Min(pa - lo, pb - pa) && n == Min(pd - pc, hi - pd - 1)
    ensures Split(BlocksSwapped(BlocksSwapped(s, lo, pb - m, m), pb, hi - n, n), lo, lo + (pb - pa), hi - (pd - pc),
      hi, s[lo], cmp)
  {
    hide BlocksSwapped, Preorder;
    var r := BlocksSwapped(s, lo, pb - m, m);
    var t := BlocksSwapped(r, pb, hi - n, n);
    forall k | lo <= k < hi
      ensures (k < lo + (pb - pa) ==> cmp(t[k], s[lo]) < 0) && (k >= hi - (pd - pc) ==> cmp(t[k], s[lo]) > 0)
      ensures lo + (pb - pa) <= k < hi - (pd - pc) ==> cmp(t[k], s[lo]) == 0
    {
      BlocksSwappedAt(r, pb, hi - n, n, k);
      var x := if pb <= k < pb + n then k - pb + hi - n else if hi - n <= k < hi then k - (hi - n) + pb else k;
      BlocksSwappedAt(s, lo, pb - m, m, x);
    }
  }

  // The partition of a stretch of at least 7 elements. `moved` tells whether it swapped anything but
  // the pivot; only then are the equal elements brought to the middle, from i up to j.
  method Partition<T(!new)>(a: array<T>, lo: int, hi: int, cmp: (T, T) -> int)
    returns (moved: bool, i: int, j: int, ghost v: T)
    requires 0 <= lo && lo + 7 <= hi <= a.Length && Preorder(cmp)
    modifies a
    ensures Shuffled(old(a[..]), a[..], lo, hi)
    ensures moved ==> Split(a[..], lo, i, j, hi, v, cmp) && i < j
    ensures moved && hi - lo > 7 ==> i + 2 <= hi && lo + 2 <= j
    ensures !moved ==> exists pm | lo <= pm < hi :: a[..] == Swapped(old(a[..]), lo, pm)
  {
    hide Shuffled, Preorder, BlocksSwapped, Split, Inner;
    var pm := Pivot(a, lo, hi - lo, cmp);
    ghost var s := a[..];
    ShuffledSwap(s, lo, pm, lo, hi);
    Swap(a, lo, pm);
    var pa, pb, pc, pd;
    pa, pb, pc, pd, moved := Scan(a, lo, hi, cmp, s);
    i, j, v := lo, hi, a[lo];
    if moved {
      Gather(a, lo, pa, pb, pc, pd, hi, cmp, s);
      i, j := lo + (pb - pa), hi - (pd - pc);
      if hi - lo > 7 {
        BothShorter(s, a[..], lo, pm, i, j, hi, v, cmp);
      }
    }
  }

  // A pivot between others leaves at least two elements out of each side.
  lemma BothShorter<T(!new)>(s: seq<T>, t: seq<T>, lo: int, pm: int, i: int, j: int, hi: int, v: T,
      cmp: (T, T) -> int)
    requires Shuffled(s, t, lo, hi) && Inner(s, lo, hi, pm, cmp) && v == s[pm] && Split(t, lo, i, j, hi, v, cmp)
    requires Preorder(cmp)
    ensures i + 2 <= hi && lo + 2 <= j
  {
    Reflexive(cmp, v);
    var p, q :| lo <= p < hi && lo <= q < hi && p != pm && q != pm && p != q && cmp(s[p], s[pm]) <= 0
      && cmp(s[q], s[pm]) >= 0;
    hide Shuffled, Inner, Preorder;
    TwoWithin(s, t, lo, hi, pm, q, i, hi);
    TwoWithin(s, t, lo, hi, pm, p, lo, j);
  }

  // The equal elements go from both ends to the middle.
  method Gather<T(!new)>(a: array<T>, lo: int, pa: int, pb: int, pc: int, pd: int, hi: int,
      ghost cmp: (T, T) -> int, ghost s: seq<T>)
    requires Parted(a[..], lo, pa, pb, pc, pd, hi, cmp) && pb == pc + 1 && Preorder(cmp) && Shuffled(s, a[..], lo, hi)
    modifies a
    ensures Shuffled(s, a[..], lo, hi)
    ensures Split(a[..], lo, lo + (pb - pa), hi - (pd - pc), hi, old(a[lo]), cmp)
  {
    hide Shuffled, Preorder, BlocksSwapped, Split;
    ghost var t := a[..];
    var m, n := Min(pa - lo, pb - pa), Min(pd - pc, hi - pd - 1);
    PartedJoin(t, lo, pa, pb, pc, pd, hi, cmp, m, n);
    BlocksSwappedShuffled(t, lo, pb - m, m, lo, hi);
    VecSwap(a, lo, pb - m, m);
    ghost var u := a[..];
    BlocksSwappedShuffled(u, pb, hi - n, n, lo, hi);
    VecSwap(a, pb, hi - n, n);
    ShuffledTwice(s, t, u, lo, hi);
    ShuffledTwice(s, u, a[..], lo, hi);
  }

  // The scan from both ends.
  method Scan<T(!new)>(a: array<T>, lo: int, hi: int, cmp: (T, T) -> int, ghost s: seq<T>)
    returns (pa: int, pb: int, pc: int, pd: int, moved: bool)
    requires 0 <= lo && lo + 2 <= hi <= a.Length && Preorder(cmp) && Shuffled(s, a[..], lo, hi)
    modifies a
    ensures Parted(a[..], lo, pa, pb, pc, pd, hi, cmp) && pb == pc + 1 && Shuffled(s, a[..], lo, hi)
    ensures a[lo] == old(a[lo]) && (!moved ==> a[..] == old(a[..]))
  {
    hide Shuffled, Swapped, Preorder;
    pa, pb, pc, pd, moved := lo + 1, lo + 1, hi - 1, hi - 1, false;
    Reflexive(cmp, a[lo]);
    while true
      invariant Parted(a[..], lo, pa, pb, pc, pd, hi, cmp) && Shuffled(s, a[..], lo, hi)
      invariant a[lo] == old(a[lo]) && (!moved ==> a[..] == old(a[..]))
      decreases pc - pb
    {
      pa, pb, moved := ScanUp(a, lo, pa, pb, pc, pd, hi, cmp, moved, s);
      pc, pd, moved := ScanDown(a, lo, pa, pb, pc, pd, hi, cmp, moved, s);
      if pb > pc {
        break;
      }
      ghost var t := a[..];
      PartedCross(t, lo, pa, pb, pc, pd, hi, cmp);
      ShuffledSwap(t, pb, pc, lo, hi);
      Swap(a, pb, pc);
      ShuffledTwice(s, t, a[..], lo, hi);
      moved := true;
      pb, pc := pb + 1, pc - 1;
    }
  }

  method ScanUp<T(!new)>(a: array<T>, lo: int, pa0: int, pb0: int, pc: int, ghost pd: int, ghost hi: int,
      cmp: (T, T) -> int, moved0: bool, ghost s: seq<T>)
    returns (pa: int, pb: int, moved: bool)
    requires Parted(a[..], lo, pa0, pb0, pc, pd, hi, cmp) && Shuffled(s, a[..], lo, hi)
    modifies a
    ensures Parted(a[..], lo, pa, pb, pc, pd, hi, cmp) && Shuffled(s, a[..], lo, hi)
    ensures pb0 <= pb && (pb <= pc ==> cmp(a[pb], a[lo]) > 0)
    ensures (moved0 ==> moved) && (!moved ==> a[..] == old(a[..])) && a[lo] == old(a[lo])
  {
    hide Shuffled, Swapped;
    pa, pb, moved := pa0, pb0, moved0;
    while pb <= pc && cmp(a[pb], a[lo]) <= 0
      invariant Parted(a[..], lo, pa, pb, pc, pd, hi, cmp) && Shuffled(s, a[..], lo, hi) && pb0 <= pb
      invariant (moved0 ==> moved) && (!moved ==> a[..] == old(a[..])) && a[lo] == old(a[lo])
    {
      ghost var t := a[..];
      PartedLeft(t, lo, pa, pb, pc, pd, hi, cmp);
      if cmp(a[pb], a[lo]) == 0 {
        moved := true;
        ShuffledSwap(t, pa, pb, lo, hi);
        Swap(a, pa, pb);
        ShuffledTwice(s, t, a[..], lo, hi);
        pa := pa + 1;
      }
      pb := pb + 1;
    }
  }

  method ScanDown<T(!new)>(a: array<T>, lo: int, ghost pa: int, pb: int, pc0: int, pd0: int, ghost hi: int,
      cmp: (T, T) -> int, moved0: bool, ghost s: seq<T>)
    returns (pc: int, pd: int, moved: bool)
    requires Parted(a[..], lo, pa, pb, pc0, pd0, hi, cmp) && Shuffled(s, a[..], lo, hi)
      && (pb <= pc0 ==> cmp(a[pb], a[lo]) > 0)
    modifies a
    ensures Parted(a[..], lo, pa, pb, pc, pd, hi, cmp) && Shuffled(s, a[..], lo, hi)
    ensures pc <= pc0 && (pb <= pc ==> cmp(a[pc], a[lo]) < 0 && cmp(a[pb], a[lo]) > 0)
    ensures (moved0 ==> moved) && (!moved ==> a[..] == old(a[..])) && a[lo] == old(a[lo])
  {
    hide Shuffled, Swapped;
    pc, pd, moved := pc0, pd0, moved0;
    while pb <= pc && cmp(a[pc], a[lo]) >= 0
      invariant Parted(a[..], lo, pa, pb, pc, pd, hi, cmp) && Shuffled(s, a[..], lo, hi) && pc <= pc0
      invariant pb <= pc ==> cmp(a[pb], a[lo]) > 0
      invariant (moved0 ==> moved) && (!moved ==> a[..] == old(a[..])) && a[lo] == old(a[lo])
    {
      ghost var t := a[..];
      PartedRight(t, lo, pa, pb, pc, pd, hi, cmp);
      if cmp(a[pc], a[lo]) == 0 {
        moved := true;
        ShuffledSwap(t, pc, pd, lo, hi);
        Swap(a, pc, pd);
        ShuffledTwice(s, t, a[..], lo, hi);
        pd := pd - 1;
      }
      pc := pc - 1;
    }
  }

  // local_qsort: it recurses on the smaller side and goes round on the larger one, so `depth`, the
  // number of calls nested below this one, is at most the logarithm of n0.
  method LocalQsort<T(!new)>(a: array<T>, lo0: int, n0: nat, cmp: (T, T) -> int) returns (ghost depth: nat)
    requires 0 <= lo0 && lo0 + n0 <= a.Length && Preorder(cmp)
    modifies a
    ensures Shuffled(old(a[..]), a[..], lo0, lo0 + n0) && Sorted(a[..], lo0, lo0 + n0, cmp)
    ensures n0 == 0 || Pow2(depth) <= n0
    decreases n0, 2
  {
    hide Shuffled, SortedAround, Preorder;
    depth := 0;
    ghost var s := a[..];
    ShuffledSame(s, lo0, lo0 + n0);
    if n0 < 2 {
      return;
    }
    var lo, n, more := lo0, n0, true;
    AroundAll(s, lo0, lo0 + n0, cmp);
    while more
      invariant lo0 <= lo && 2 <= n && lo + n <= lo0 + n0 && Shuffled(s, a[..], lo0, lo0 + n0)
      invariant if more then SortedAround(a[..], lo0, lo, lo + n, lo0 + n0, cmp)
        else Sorted(a[..], lo0, lo0 + n0, cmp)
      invariant Pow2(depth) <= n0
      decreases n, more
    {
      ghost var d;
      lo, n, more, d := Round(a, lo, n, cmp, s, lo0, n0);
      depth := if d > depth then d else depth;
    }
  }

  // Insertion sort of the stretch that is left, when everything around it is in place.
  method SortRest<T(!new)>(a: array<T>, lo: int, hi: int, cmp: (T, T) -> int, ghost s: seq<T>, ghost lo0: int,
      ghost hi0: int)
    requires 0 <= lo0 <= lo <= hi <= hi0 <= a.Length && Preorder(cmp)
    requires Shuffled(s, a[..], lo0, hi0) && SortedAround(a[..], lo0, lo, hi, hi0, cmp)
    modifies a
    ensures Shuffled(s, a[..], lo0, hi0) && Sorted(a[..], lo0, hi0, cmp)
  {
    hide Shuffled, SortedAround, Preorder, Sorted;
    ghost var t := a[..];
    InsertionSort(a, lo, hi, cmp);
    Inside(s, t, a[..], lo0, lo, hi, hi0, cmp);
    AroundSorted(a[..], lo0, lo, hi, hi0, cmp);
  }

  // One time round the loop. d is the depth of the recursive call, if any.
  method Round<T(!new)>(a: array<T>, lo: int, n: nat, cmp: (T, T) -> int, ghost s: seq<T>, ghost lo0: int,
      ghost n0: nat)
    returns (lo': int, n': nat, more: bool, ghost d: nat)
    requires 0 <= lo0 <= lo && 2 <= n && lo + n <= lo0 + n0 <= a.Length && Preorder(cmp)
    requires Shuffled(s, a[..], lo0, lo0 + n0) && SortedAround(a[..], lo0, lo, lo + n, lo0 + n0, cmp)
    modifies a
    ensures Shuffled(s, a[..], lo0, lo0 + n0)
    ensures lo0 <= lo' && 2 <= n' <= n && lo' + n' <= lo0 + n0 && (more ==> n' < n) && Pow2(d) <= n
    ensures more && n > 7 ==> n' + 2 <= n
    ensures if more then SortedAround(a[..], lo0, lo', lo' + n', lo0 + n0, cmp) else Sorted(a[..], lo0, lo0 + n0, cmp)
    decreases n, 1
  {
    hide Shuffled, SortedAround, Preorder, Split, Sorted;
    var hi := lo + n;
    lo', n', more, d := lo, n, false, 0;
    ghost var t := a[..];
    if n < 7 {
      SortRest(a, lo, hi, cmp, s, lo0, lo0 + n0);
      return;
    }
    var moved, i, j, v := Partition(a, lo, hi, cmp);
    Inside(s, t, a[..], lo0, lo, hi, lo0 + n0, cmp);
    if !moved {
      SortRest(a, lo, hi, cmp, s, lo0, lo0 + n0);
      return;
    }
    SplitBounds(a[..], lo, i, j, hi, v, cmp);
    if i - lo <= hi - j {
      d := SortLeft(a, lo, i, j, hi, cmp, v, s, lo0, lo0 + n0);
      if hi - j > 1 {
        lo', n', more := j, hi - j, true;
      } else {
        ShortSorted(a[..], j, hi, cmp);
        AroundSorted(a[..], lo0, j, hi, lo0 + n0, cmp);
      }
    } else {
      d := SortRight(a, lo, i, j, hi, cmp, v, s, lo0, lo0 + n0);
      if i - lo > 1 {
        n', more := i - lo, true;
      } else {
        ShortSorted(a[..], lo, i, cmp);
        AroundSorted(a[..], lo0, lo, i, lo0 + n0, cmp);
      }
    }
  }

  // The recursive call on the left side, when it is the smaller one.
  method SortLeft<T(!new)>(a: array<T>, lo: int, i: int, j: int, hi: int, cmp: (T, T) -> int, ghost v: T,
      ghost s: seq<T>, ghost lo0: int, ghost hi0: int)
    returns (ghost d: nat)
    requires 0 <= lo0 <= lo <= i < j <= hi <= hi0 <= a.Length && Preorder(cmp) && i - lo <= hi - j && 2 <= hi - lo
    requires Shuffled(s, a[..], lo0, hi0) && SortedAround(a[..], lo0, lo, hi, hi0, cmp)
      && Split(a[..], lo, i, j, hi, v, cmp)
    modifies a
    ensures Shuffled(s, a[..], lo0, hi0) && SortedAround(a[..], lo0, j, hi, hi0, cmp) && Pow2(d) <= hi - lo
    decreases hi - lo, 0
  {
    hide Shuffled, SortedAround, Preorder, Split, Sorted;
    d := 0;
    ghost var t := a[..];
    if i - lo > 1 {
      d := LocalQsort(a, lo, i - lo, cmp);
      d := d + 1;
      SplitShuffled(t, a[..], lo, i, j, hi, v, cmp, lo, i);
      ShuffledWider(t, a[..], lo, i, lo, hi);
      Inside(s, t, a[..], lo0, lo, hi, hi0, cmp);
    } else {
      ShortSorted(t, lo, i, cmp);
    }
    SplitLeft(a[..], lo0, lo, i, j, hi, hi0, v, cmp);
  }

  // The recursive call on the right side, when it is the smaller one.
  method SortRight<T(!new)>(a: array<T>, lo: int, i: int, j: int, hi: int, cmp: (T, T) -> int, ghost v: T,
      ghost s: seq<T>, ghost lo0: int, ghost hi0: int)
    returns (ghost d: nat)
    requires 0 <= lo0 <= lo <= i < j <= hi <= hi0 <= a.Length && Preorder(cmp) && hi - j < i - lo && 2 <= hi - lo
    requires Shuffled(s, a[..], lo0, hi0) && SortedAround(a[..], lo0, lo, hi, hi0, cmp)
      && Split(a[..], lo, i, j, hi, v, cmp)
    modifies a
    ensures Shuffled(s, a[..], lo0, hi0) && SortedAround(a[..], lo0, lo, i, hi0, cmp) && Pow2(d) <= hi - lo
    decreases hi - lo, 0
  {
    hide Shuffled, SortedAround, Preorder, Split, Sorted;
    d := 0;
    ghost var t := a[..];
    if hi - j > 1 {
      d := LocalQsort(a, j, hi - j, cmp);
      d := d + 1;
      SplitShuffled(t, a[..], lo, i, j, hi, v, cmp, j, hi);
      ShuffledWider(t, a[..], j, hi, lo, hi);
      Inside(s, t, a[..], lo0, lo, hi, hi0, cmp);
    } else {
      ShortSorted(t, j, hi, cmp);
    }
    SplitRight(a[..], lo0, lo, i, j, hi, hi0, v, cmp);
  }

  // qsort
  method Qsort<T(!new)>(a: array<T>, cmp: (T, T) -> int) returns (ghost depth: nat)
    requires Preorder(cmp)
    modifies a
    ensures multiset(a[..]) == multiset(old(a[..])) && Sorted(a[..], 0, a.Length, cmp)
    ensures a.Length == 0 || Pow2(depth) <= a.Length
  {
    depth := LocalQsort(a, 0, a.Length, cmp);
    assert a[..] == a[0..a.Length] && old(a[..]) == old(a[..])[0..a.Length];
  }
}
