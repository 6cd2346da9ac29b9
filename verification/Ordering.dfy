// Comparison functions as the tree macros take them, and the sorted lists they define.
module Ordering {
  // cmp orders the elements of S: opposite arguments give opposite signs, and "not after" is transitive.
  ghost predicate IsOrder<T>(cmp: (T, T) -> int, S: set<T>) {
    && (forall a, b | a in S && b in S :: cmp(a, b) < 0 <==> cmp(b, a) > 0)
    && (forall a, b, c | a in S && b in S && c in S :: cmp(a, b) <= 0 && cmp(b, c) <= 0 ==> cmp(a, c) <= 0)
  }

  ghost predicate Sorted<T>(cmp: (T, T) -> int, order: seq<T>) {
    forall i, j | 0 <= i < j < |order| :: cmp(order[i], order[j]) < 0
  }

  ghost predicate AllIn<T>(order: seq<T>, S: set<T>) {
    forall i | 0 <= i < |order| :: order[i] in S
  }

  // The positions below lo are before x, the positions from hi on are after it.
  ghost predicate Narrowed<T>(cmp: (T, T) -> int, order: seq<T>, x: T, lo: int, hi: int) {
    && 0 <= lo <= hi <= |order|
    && (forall i | 0 <= i < lo :: cmp(x, order[i]) > 0)
    && (forall i | hi <= i < |order| :: cmp(x, order[i]) < 0)
  }

  // One comparison with the element at position m discards everything on one side of it.
  lemma Narrow<T>(cmp: (T, T) -> int, S: set<T>, order: seq<T>, x: T, lo: int, m: int, hi: int)
    requires IsOrder(cmp, S) && x in S && AllIn(order, S) && Sorted(cmp, order)
    requires Narrowed(cmp, order, x, lo, hi) && lo <= m < hi
    ensures cmp(x, order[m]) < 0 ==> Narrowed(cmp, order, x, lo, m)
    ensures cmp(x, order[m]) > 0 ==> Narrowed(cmp, order, x, m + 1, hi)
  {
  }

  // o is the list with x put at position k.
  ghost predicate PutAt<T>(order: seq<T>, k: int, x: T, o: seq<T>) {
    && 0 <= k <= |order| && |o| == |order| + 1 && o[k] == x
    && (forall i | 0 <= i < k :: o[i] == order[i]) && (forall i | k < i <= |order| :: o[i] == order[i - 1])
  }

  // o is the list without its element at position k.
  ghost predicate CutAt<T>(order: seq<T>, k: int, o: seq<T>) {
    && 0 <= k < |order| && |o| == |order| - 1
    && (forall i | 0 <= i < k :: o[i] == order[i]) && (forall i | k <= i < |o| :: o[i] == order[i + 1])
  }

  lemma SortedPut<T>(cmp: (T, T) -> int, S: set<T>, order: seq<T>, x: T, k: int, o: seq<T>)
    requires IsOrder(cmp, S) && x in S && AllIn(order, S) && Sorted(cmp, order)
    requires Narrowed(cmp, order, x, k, k) && PutAt(order, k, x, o)
    ensures Sorted(cmp, o)
  {
    forall i, j | 0 <= i < j < |o| ensures cmp(o[i], o[j]) < 0 {
      var i', j' := if i < k then i else i - 1, if j < k then j else j - 1;
      assert i != k ==> o[i] == order[i'];
      assert j != k ==> o[j] == order[j'];
    }
  }

  lemma SortedCut<T>(cmp: (T, T) -> int, order: seq<T>, k: int, o: seq<T>)
    requires Sorted(cmp, order) && CutAt(order, k, o)
    ensures Sorted(cmp, o)
  {
  }

  // An element equal to x is the first one not before x.
  lemma EqualIsFirst<T>(cmp: (T, T) -> int, S: set<T>, order: seq<T>, x: T, m: int)
    requires IsOrder(cmp, S) && x in S && AllIn(order, S) && Sorted(cmp, order)
    requires 0 <= m < |order| && cmp(x, order[m]) == 0
    ensures forall n | n in order && cmp(x, n) <= 0 :: n == order[m] || cmp(order[m], n) < 0
    ensures forall n | n in order && cmp(x, n) == 0 :: n == order[m]
  {
  }

  lemma OrderSubset<T>(cmp: (T, T) -> int, S: set<T>, S': set<T>)
    requires IsOrder(cmp, S) && S' <= S
    ensures IsOrder(cmp, S')
  {
  }

  lemma SortedPrefix<T>(cmp: (T, T) -> int, order: seq<T>, k: int)
    requires Sorted(cmp, order) && 0 <= k <= |order|
    ensures Sorted(cmp, order[..k])
  {
  }

  // Everything listed before an element equal to x is before x.
  lemma BeforeEqual<T>(cmp: (T, T) -> int, S: set<T>, order: seq<T>, x: T, m: int)
    requires IsOrder(cmp, S) && x in S && AllIn(order, S) && Sorted(cmp, order)
    requires 0 <= m < |order| && cmp(x, order[m]) == 0
    ensures forall i | 0 <= i < m :: cmp(x, order[i]) > 0
  {
  }

  lemma SelfEqual<T>(cmp: (T, T) -> int, S: set<T>, x: T)
    requires IsOrder(cmp, S) && x in S
    ensures cmp(x, x) == 0
  {
  }

  // A place for x before or after every element of the list: x is none of them.
  lemma Absent<T>(cmp: (T, T) -> int, S: set<T>, order: seq<T>, x: T, k: int)
    requires IsOrder(cmp, S) && x in S && Narrowed(cmp, order, x, k, k)
    ensures x !in order
  {
  }

  // Nothing lies between x and a neighbour m of its place k.
  lemma NextTo<T>(cmp: (T, T) -> int, order: seq<T>, x: T, m: int, k: int)
    requires Sorted(cmp, order) && Narrowed(cmp, order, x, k, k) && 0 <= m < |order|
    requires (cmp(x, order[m]) < 0 && m == k) || (cmp(x, order[m]) > 0 && m == k - 1)
    ensures forall n | n in order ::
      && (cmp(x, order[m]) < 0 ==> cmp(x, n) > 0 || n == order[m] || cmp(order[m], n) < 0)
      && (cmp(x, order[m]) > 0 ==> cmp(x, n) < 0 || n == order[m] || cmp(n, order[m]) < 0)
      && cmp(x, n) != 0
  {
  }

  // What the listings before and after have to do with each other.
  lemma PutAtIs<T>(order: seq<T>, k: int, x: T, o: seq<T>)
    ensures PutAt(order, k, x, o) <==> 0 <= k <= |order| && o == order[..k] + [x] + order[k..]
  {
  }

  lemma CutAtIs<T>(order: seq<T>, k: int, o: seq<T>)
    ensures CutAt(order, k, o) <==> 0 <= k < |order| && o == order[..k] + order[k + 1..]
  {
  }

  // Compared by difference, sorted integers increase.
  lemma SortedIncreases(order: seq<int>)
    ensures Sorted((a, b) => a - b, order) <==> forall i | 0 <= i < |order| - 1 :: order[i] < order[i + 1]
  {
    var cmp := (a, b) => a - b;
    if forall i | 0 <= i < |order| - 1 :: order[i] < order[i + 1] {
      forall i, j | 0 <= i < j < |order| ensures cmp(order[i], order[j]) < 0 {
        Increases(order, i, j);
      }
    }
    if Sorted(cmp, order) {
      forall i | 0 <= i < |order| - 1 ensures order[i] < order[i + 1] {
        assert cmp(order[i], order[i + 1]) < 0;
      }
    }
  }

  lemma {:induction false} Increases(order: seq<int>, i: int, j: int)
    requires 0 <= i < j < |order| && forall i | 0 <= i < |order| - 1 :: order[i] < order[i + 1]
    ensures order[i] < order[j]
    decreases j - i
  {
    if i + 1 < j {
      Increases(order, i, j - 1);
    }
  }
}
