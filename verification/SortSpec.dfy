// What sorting a stretch of a sequence means, and how sorting parts of it adds up.
module SortSpec {
  // The comparison function is a total preorder.
  ghost predicate Preorder<T(!new)>(cmp: (T, T) -> int) {
    && (forall x, y :: cmp(x, y) < 0 <==> cmp(y, x) > 0)
    && (forall x, y, z :: cmp(x, y) <= 0 && cmp(y, z) <= 0 ==> cmp(x, z) <= 0)
  }

  lemma Reflexive<T(!new)>(cmp: (T, T) -> int, x: T)
    requires Preorder(cmp)
    ensures cmp(x, x) == 0
  {
  }

  ghost predicate Sorted<T(!new)>(s: seq<T>, lo: int, hi: int, cmp: (T, T) -> int)
    requires 0 <= lo && hi <= |s|
  {
    forall i, j | lo <= i < j < hi :: cmp(s[i], s[j]) <= 0
  }

  // t is s with the elements from lo up to hi permuted.
  ghost predicate Shuffled<T>(s: seq<T>, t: seq<T>, lo: int, hi: int) {
    0 <= lo <= hi <= |s| == |t| && s[..lo] == t[..lo] && s[hi..] == t[hi..]
      && multiset(s[lo..hi]) == multiset(t[lo..hi])
  }

  lemma ShuffledSame<T>(s: seq<T>, lo: int, hi: int)
    requires 0 <= lo <= hi <= |s|
    ensures Shuffled(s, s, lo, hi)
  {
  }

  lemma ShuffledTwice<T>(s: seq<T>, t: seq<T>, u: seq<T>, lo: int, hi: int)
    requires Shuffled(s, t, lo, hi) && Shuffled(t, u, lo, hi)
    ensures Shuffled(s, u, lo, hi)
  {
  }

  lemma ShuffledWider<T>(s: seq<T>, t: seq<T>, lo: int, hi: int, lo': int, hi': int)
    requires Shuffled(s, t, lo, hi) && 0 <= lo' <= lo && hi <= hi' <= |s|
    ensures Shuffled(s, t, lo', hi')
  {
    assert s[lo'..hi'] == s[..lo][lo'..] + s[lo..hi] + s[hi..][..hi' - hi];
    assert t[lo'..hi'] == t[..lo][lo'..] + t[lo..hi] + t[hi..][..hi' - hi];
    assert s[..lo'] == s[..lo][..lo'] && t[..lo'] == t[..lo][..lo'];
    assert s[hi'..] == s[hi..][hi' - hi..] && t[hi'..] == t[hi..][hi' - hi..];
  }

  function Swapped<T>(s: seq<T>, i: int, j: int): (r: seq<T>)
    requires 0 <= i < |s| && 0 <= j < |s|
    ensures |r| == |s| && r[i] == s[j] && r[j] == s[i] && forall k | 0 <= k < |s| && k != i && k != j :: r[k] == s[k]
  {
    s[i := s[j]][j := s[i]]
  }

  lemma ShuffledSwap<T>(s: seq<T>, i: int, j: int, lo: int, hi: int)
    requires 0 <= lo <= i < hi <= |s| && lo <= j < hi
    ensures Shuffled(s, Swapped(s, i, j), lo, hi)
  {
    assert Swapped(s, i, j)[lo..hi] == s[lo..hi][i - lo := s[j]][j - lo := s[i]];
  }

  // Where a permuted element came from.
  lemma CameFrom<T>(s: seq<T>, t: seq<T>, lo: int, hi: int, k: int) returns (k': int)
    requires Shuffled(s, t, lo, hi) && lo <= k < hi
    ensures lo <= k' < hi && s[k'] == t[k]
  {
    assert t[k] in multiset(t[lo..hi]) by { assert t[lo..hi][k - lo] == t[k]; }
    assert t[k] in s[lo..hi];
    k' :| lo <= k' < hi && s[k'] == t[k];
  }

  lemma Untouched<T>(s: seq<T>, t: seq<T>, lo: int, hi: int, k: int)
    requires Shuffled(s, t, lo, hi) && 0 <= k < |s| && !(lo <= k < hi)
    ensures s[k] == t[k]
  {
  }

  // From lo0 to hi0 everything is in order but for the stretch from lo to hi, which is only in the
  // right place.
  ghost predicate SortedAround<T(!new)>(s: seq<T>, lo0: int, lo: int, hi: int, hi0: int, cmp: (T, T) -> int) {
    && 0 <= lo0 <= lo <= hi <= hi0 <= |s|
    && forall i, j | lo0 <= i < j < hi0 && !(lo <= i && j < hi) :: cmp(s[i], s[j]) <= 0
  }

  // Permuting that stretch keeps this.
  lemma AroundShuffled<T(!new)>(s: seq<T>, t: seq<T>, lo0: int, lo: int, hi: int, hi0: int, cmp: (T, T) -> int)
    requires SortedAround(s, lo0, lo, hi, hi0, cmp) && Shuffled(s, t, lo, hi)
    ensures SortedAround(t, lo0, lo, hi, hi0, cmp)
  {
    forall i, j | lo0 <= i < j < hi0 && !(lo <= i && j < hi) ensures cmp(t[i], t[j]) <= 0 {
      var i', j' := i, j;
      if lo <= i < hi {
        i' := CameFrom(s, t, lo, hi, i);
      } else {
        Untouched(s, t, lo, hi, i);
      }
      if lo <= j < hi {
        j' := CameFrom(s, t, lo, hi, j);
      } else {
        Untouched(s, t, lo, hi, j);
      }
      assert cmp(s[i'], s[j']) <= 0;
    }
  }

  // Once the stretch is sorted, so is all.
  lemma AroundSorted<T(!new)>(s: seq<T>, lo0: int, lo: int, hi: int, hi0: int, cmp: (T, T) -> int)
    requires SortedAround(s, lo0, lo, hi, hi0, cmp) && Sorted(s, lo, hi, cmp)
    ensures Sorted(s, lo0, hi0, cmp)
  {
  }

  // The stretch split at two places around elements equal to v.
  ghost predicate Split<T(!new)>(s: seq<T>, lo: int, m: int, n: int, hi: int, v: T, cmp: (T, T) -> int) {
    && 0 <= lo <= m <= n <= hi <= |s|
    && (forall k | lo <= k < m :: cmp(s[k], v) < 0)
    && (forall k | m <= k < n :: cmp(s[k], v) == 0)
    && (forall k | n <= k < hi :: cmp(s[k], v) > 0)
  }

  lemma SplitShuffled<T(!new)>(s: seq<T>, t: seq<T>, lo: int, m: int, n: int, hi: int, v: T, cmp: (T, T) -> int,
      l: int, h: int)
    requires Split(s, lo, m, n, hi, v, cmp) && Shuffled(s, t, l, h) && ((l == lo && h == m) || (l == n && h == hi))
    ensures Split(t, lo, m, n, hi, v, cmp)
  {
    forall k | lo <= k < hi ensures (k < m ==> cmp(t[k], v) < 0) && (m <= k < n ==> cmp(t[k], v) == 0)
      && (n <= k ==> cmp(t[k], v) > 0) {
      if l <= k < h {
        var k' := CameFrom(s, t, l, h, k);
      } else {
        Untouched(s, t, l, h, k);
      }
    }
  }

  // One side sorted: what is left to do is the other side.
  lemma SplitLeft<T(!new)>(s: seq<T>, lo0: int, lo: int, m: int, n: int, hi: int, hi0: int, v: T, cmp: (T, T) -> int)
    requires Preorder(cmp) && SortedAround(s, lo0, lo, hi, hi0, cmp) && Split(s, lo, m, n, hi, v, cmp)
      && Sorted(s, lo, m, cmp)
    ensures SortedAround(s, lo0, n, hi, hi0, cmp)
  {
  }

  lemma SplitRight<T(!new)>(s: seq<T>, lo0: int, lo: int, m: int, n: int, hi: int, hi0: int, v: T, cmp: (T, T) -> int)
    requires Preorder(cmp) && SortedAround(s, lo0, lo, hi, hi0, cmp) && Split(s, lo, m, n, hi, v, cmp)
      && Sorted(s, n, hi, cmp)
    ensures SortedAround(s, lo0, lo, m, hi0, cmp)
  {
  }

  // A step inside the stretch is a step inside the whole.
  lemma Inside<T(!new)>(s: seq<T>, t: seq<T>, u: seq<T>, lo0: int, lo: int, hi: int, hi0: int, cmp: (T, T) -> int)
    requires Shuffled(s, t, lo0, hi0) && SortedAround(t, lo0, lo, hi, hi0, cmp) && Shuffled(t, u, lo, hi)
    ensures Shuffled(s, u, lo0, hi0) && SortedAround(u, lo0, lo, hi, hi0, cmp)
  {
    AroundShuffled(t, u, lo0, lo, hi, hi0, cmp);
    ShuffledWider(t, u, lo, hi, lo0, hi0);
    ShuffledTwice(s, t, u, lo0, hi0);
  }

  lemma AroundAll<T(!new)>(s: seq<T>, lo: int, hi: int, cmp: (T, T) -> int)
    requires 0 <= lo <= hi <= |s|
    ensures SortedAround(s, lo, lo, hi, hi, cmp)
  {
  }

  lemma ShortSorted<T(!new)>(s: seq<T>, lo: int, hi: int, cmp: (T, T) -> int)
    requires 0 <= lo <= hi <= |s| && hi - lo <= 1
    ensures Sorted(s, lo, hi, cmp)
  {
  }

  lemma SplitBounds<T(!new)>(s: seq<T>, lo: int, m: int, n: int, hi: int, v: T, cmp: (T, T) -> int)
    requires Split(s, lo, m, n, hi, v, cmp)
    ensures 0 <= lo <= m <= n <= hi <= |s|
  {
  }

  // Two elements of the stretch that are nowhere outside a..b after the permutation take two places there.
  lemma TwoWithin<T>(s: seq<T>, t: seq<T>, lo: int, hi: int, p: int, q: int, a: int, b: int)
    requires Shuffled(s, t, lo, hi) && lo <= p < hi && lo <= q < hi && p != q && lo <= a <= b <= hi
    requires forall k | lo <= k < hi && !(a <= k < b) :: t[k] != s[p] && t[k] != s[q]
    ensures b - a >= 2
  {
    TwoOf(s[lo..hi], p - lo, q - lo);
    Parts(t, lo, a, b, hi);
    NotIn(t, lo, a, s[p]);
    NotIn(t, lo, a, s[q]);
    NotIn(t, b, hi, s[p]);
    NotIn(t, b, hi, s[q]);
    Elsewhere(multiset(t[lo..a]), multiset(t[a..b]), multiset(t[b..hi]), multiset(s[lo..hi]), s[p], s[q]);
  }

  lemma NotIn<T>(t: seq<T>, lo: int, hi: int, x: T)
    requires 0 <= lo <= hi <= |t| && forall k | lo <= k < hi :: t[k] != x
    ensures x !in multiset(t[lo..hi])
  {
    assert x !in t[lo..hi];
  }

  lemma Parts<T>(t: seq<T>, lo: int, a: int, b: int, hi: int)
    requires 0 <= lo <= a <= b <= hi <= |t|
    ensures multiset(t[lo..hi]) == multiset(t[lo..a]) + multiset(t[a..b]) + multiset(t[b..hi])
  {
    assert t[lo..hi] == t[lo..a] + t[a..b] + t[b..hi];
  }

  lemma Elsewhere<T>(left: multiset<T>, m: multiset<T>, right: multiset<T>, u: multiset<T>, x: T, y: T)
    requires u == left + m + right && multiset{x, y} <= u
    requires x !in left && x !in right && y !in left && y !in right
    ensures |m| >= 2
  {
    var two := multiset{x, y};
    assert two <= m;
    assert m == two + (m - two);
  }

  lemma {:induction false} TwoOf<T>(u: seq<T>, m: int, n: int)
    requires 0 <= m < |u| && 0 <= n < |u| && m != n
    ensures multiset{u[m], u[n]} <= multiset(u)
  {
    if m > n {
      TwoOf(u, n, m);
    } else {
      assert multiset(u[..n]) <= multiset(u) - multiset{u[n]} by { assert u == u[..n] + [u[n]] + u[n + 1..]; }
      assert u[m] == u[..n][m] && u[m] in u[..n];
    }
  }

  // Compared by difference, sorted integers do not decrease.
  lemma SortedIntegers(s: seq<int>)
    ensures Sorted(s, 0, |s|, (a, b) => a - b) <==> forall i | 0 <= i < |s| - 1 :: s[i] <= s[i + 1]
  {
    var cmp := (a, b) => a - b;
    if forall i | 0 <= i < |s| - 1 :: s[i] <= s[i + 1] {
      forall i, j | 0 <= i < j < |s| ensures cmp(s[i], s[j]) <= 0 {
        NotDecreasing(s, i, j);
      }
    }
    if Sorted(s, 0, |s|, cmp) {
      forall i | 0 <= i < |s| - 1 ensures s[i] <= s[i + 1] {
        assert cmp(s[i], s[i + 1]) <= 0;
      }
    }
  }

  lemma {:induction false} NotDecreasing(s: seq<int>, i: int, j: int)
    requires 0 <= i < j < |s| && forall i | 0 <= i < |s| - 1 :: s[i] <= s[i + 1]
    ensures s[i] <= s[j]
    decreases j - i
  {
    if i + 1 < j {
      NotDecreasing(s, i, j - 1);
    }
  }
}
