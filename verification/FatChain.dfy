// Cluster chains as a table of "next" links: what the scan of the FAT establishes, and why the
// walks over chains that follow it end and stay apart.
module FatChain {
  import opened FiniteSets

  const CLUST_FREE: nat := 0
  const CLUST_FIRST: nat := 2
  const CLUST_RSRVD: nat := 0xfffffff6
  const CLUST_BAD: nat := 0xfffffff7
  const CLUST_EOFS: nat := 0xfffffff8
  const CLUST_EOF: nat := 0xffffffff
  const CLUST_DEAD: nat := 0xfdeadc0d

  // Entry i is what cluster i links to. Cluster numbers end far below the special values.
  type Table = seq<nat>

  ghost predicate ValidCl(t: Table, c: int) {
    CLUST_FIRST <= c < |t|
  }

  // No two clusters share a valid next cluster.
  ghost predicate Injective(t: Table) {
    forall i, j | ValidCl(t, i) && ValidCl(t, j) && i != j && ValidCl(t, t[i]) :: t[i] != t[j]
  }

  // Nobody points to c.
  ghost predicate Unpointed(t: Table, c: int) {
    forall i | ValidCl(t, i) :: t[i] != c
  }

  // What an entry may hold once out-of-range links are cut off.
  ghost predicate SaneEntry(t: Table, v: nat) {
    v == CLUST_FREE || v == CLUST_BAD || ValidCl(t, v) || v >= CLUST_EOFS
  }

  // What the scan establishes: the head bits (one per cluster) lie on unpointed clusters in use.
  ghost predicate Clean(t: Table, heads: seq<bool>) {
    && |heads| == |t| <= CLUST_RSRVD && Injective(t)
    && (forall i | ValidCl(t, i) :: SaneEntry(t, t[i]))
    && (forall c | ValidCl(t, c) && heads[c] :: Unpointed(t, c) && t[c] != CLUST_FREE && t[c] != CLUST_BAD)
  }

  // ---- walks ------------------------------------------------------------------

  // p follows the links, from one valid cluster to the next.
  ghost predicate Path(t: Table, p: seq<nat>) {
    && (forall i | 0 <= i < |p| :: ValidCl(t, p[i]))
    && (forall i | 0 <= i < |p| - 1 :: p[i + 1] == t[p[i]])
  }

  // p is the whole chain from its first cluster: the last link leaves the valid range.
  ghost predicate IsChain(t: Table, p: seq<nat>) {
    p != [] && Path(t, p) && !ValidCl(t, t[p[|p| - 1]])
  }

  lemma {:induction false} PathApart(t: Table, p: seq<nat>, i: nat, j: nat)
    requires Injective(t) && Path(t, p) && i < j < |p| && Unpointed(t, p[0])
    ensures p[i] != p[j]
  {
    if i == 0 {
      assert t[p[j - 1]] == p[j];
    } else {
      PathApart(t, p, i - 1, j - 1);
      assert t[p[i - 1]] == p[i] && t[p[j - 1]] == p[j];
    }
  }

  // A walk from an unpointed cluster never comes back to a cluster it has seen.
  lemma PathDistinct(t: Table, p: seq<nat>)
    requires Injective(t) && Path(t, p) && (p != [] ==> Unpointed(t, p[0]))
    ensures Distinct(p)
  {
    forall i, j | 0 <= i < j < |p| ensures p[i] != p[j] {
      PathApart(t, p, i, j);
    }
  }

  ghost function Below(n: nat): (s: set<nat>)
    ensures |s| == n && forall x: nat {:trigger x in s} :: x in s <==> x < n
  {
    if n == 0 then {} else Below(n - 1) + {n - 1}
  }

  // So it has at most as many clusters as the table.
  lemma PathBound(t: Table, p: seq<nat>)
    requires Injective(t) && Path(t, p) && (p != [] ==> Unpointed(t, p[0]))
    ensures |p| <= |t|
  {
    PathDistinct(t, p);
    DistinctBound(t, p);
  }

  lemma DistinctBound(t: Table, p: seq<nat>)
    requires Path(t, p) && Distinct(p)
    ensures |p| <= |t|
  {
    DistinctSize(p);
    SubsetSize(Elements(p), Below(|t|));
  }

  // A chain is determined by where it starts.
  lemma {:induction false} ChainPrefix(t: Table, p: seq<nat>, q: seq<nat>, i: nat)
    requires Path(t, p) && Path(t, q) && p != [] && q != [] && p[0] == q[0] && i < |p| && i < |q|
    ensures p[i] == q[i]
  {
    if i > 0 {
      ChainPrefix(t, p, q, i - 1);
      assert p[i] == t[p[i - 1]] && q[i] == t[q[i - 1]];
    }
  }

  lemma ChainLongest(t: Table, p: seq<nat>, q: seq<nat>)
    requires IsChain(t, p) && Path(t, q) && q != [] && p[0] == q[0]
    ensures |q| <= |p|
  {
    if |q| > |p| {
      assert q[|p|] == t[q[|p| - 1]];
      ChainPrefix(t, p, q, |p| - 1);
    }
  }

  lemma ChainUnique(t: Table, p: seq<nat>, q: seq<nat>)
    requires IsChain(t, p) && IsChain(t, q) && p[0] == q[0]
    ensures p == q
  {
    ChainLongest(t, p, q);
    ChainLongest(t, q, p);
    forall i | 0 <= i < |p| ensures p[i] == q[i] {
      ChainPrefix(t, p, q, i);
    }
  }

  // Chains from different unpointed clusters share no cluster.
  lemma {:induction false} ChainsDisjoint(t: Table, p: seq<nat>, q: seq<nat>, i: nat, j: nat)
    requires Injective(t) && Path(t, p) && Path(t, q) && i < |p| && j < |q|
    requires Unpointed(t, p[0]) && Unpointed(t, q[0]) && p[0] != q[0]
    ensures p[i] != q[j]
  {
    if i > 0 && j > 0 {
      ChainsDisjoint(t, p, q, i - 1, j - 1);
      assert t[p[i - 1]] == p[i] && t[q[j - 1]] == q[j];
    } else if i > 0 {
      assert t[p[i - 1]] == p[i];
    } else if j > 0 {
      assert t[q[j - 1]] == q[j];
    }
  }

  // Every unpointed cluster of an injective table starts exactly one chain.
  lemma {:induction false} ExtendToChain(t: Table, p: seq<nat>) returns (q: seq<nat>)
    requires Injective(t) && p != [] && Path(t, p) && Unpointed(t, p[0])
    ensures IsChain(t, q) && p <= q
    decreases |t| - |p|
  {
    PathBound(t, p);
    var next := t[p[|p| - 1]];
    if ValidCl(t, next) {
      PathBound(t, p + [next]);
      q := ExtendToChain(t, p + [next]);
    } else {
      q := p;
    }
  }

  // ---- counting -----------------------------------------------------------------

  // How many of the entries 2 .. n-1 hold v.
  ghost function Count(t: Table, n: nat, v: nat): nat
    requires n <= |t|
  {
    if n <= CLUST_FIRST then 0 else Count(t, n - 1, v) + (if t[n - 1] == v then 1 else 0)
  }

  lemma {:induction false} CountUpdate(t: Table, n: nat, v: nat, c: nat, w: nat)
    requires n <= |t| && ValidCl(t, c)
    ensures Count(t[c := w], n, v) == Count(t, n, v) - (if c < n && t[c] == v then 1 else 0) + (if c < n
      && w == v then 1 else 0)
  {
    if n > CLUST_FIRST {
      CountUpdate(t, n - 1, v, c, w);
    }
  }

  ghost function HeadCount(heads: seq<bool>, n: nat): nat
    requires n <= |heads|
  {
    if n == 0 then 0 else HeadCount(heads, n - 1) + (if heads[n - 1] then 1 else 0)
  }

  lemma {:induction false} HeadCountClear(heads: seq<bool>, n: nat, c: nat)
    requires n <= |heads| && c < |heads| && heads[c]
    ensures HeadCount(heads[c := false], n) == HeadCount(heads, n) - (if c < n then 1 else 0)
  {
    if n > 0 {
      HeadCountClear(heads, n - 1, c);
    }
  }

  lemma {:induction false} AllHeadCount(heads: seq<bool>, n: nat)
    requires n <= |heads| && forall i | 0 <= i < n :: heads[i]
    ensures HeadCount(heads, n) == n
  {
    if n > 0 {
      AllHeadCount(heads, n - 1);
    }
  }

  // ---- what the repair steps keep -------------------------------------------------

  // Writing an end mark anywhere keeps the table clean.
  lemma CutKeepsClean(t: Table, heads: seq<bool>, c: nat, v: nat)
    requires Clean(t, heads) && ValidCl(t, c) && v >= CLUST_EOFS
    ensures Clean(t[c := v], heads)
  {
  }

  lemma ClearHeadKeepsClean(t: Table, heads: seq<bool>, c: nat)
    requires Clean(t, heads) && c < |heads|
    ensures Clean(t, heads[c := false])
  {
  }

  // What the counters count: the clusters below n that hold v.
  lemma {:induction false} CountIs(t: Table, n: nat, v: nat)
    requires n <= |t|
    ensures Count(t, n, v) == |set c: nat | CLUST_FIRST <= c < n && t[c] == v|
  {
    var s := set c: nat | CLUST_FIRST <= c < n && t[c] == v;
    if n <= CLUST_FIRST {
      assert s == {};
    } else {
      CountIs(t, n - 1, v);
      var s' := set c: nat | CLUST_FIRST <= c < n - 1 && t[c] == v;
      assert s == s' + if t[n - 1] == v then {n - 1} else {};
    }
  }
}
