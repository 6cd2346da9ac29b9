// What checkchain, clearchain and the size check do to a table of links.
module FatRepair {
  import opened FatChain
  import opened FiniteSets

  // Any suffix of a chain is the chain from where it starts, so a chain visits no cluster twice.
  lemma ChainSuffix(t: Table, p: seq<nat>, i: nat)
    requires IsChain(t, p) && i < |p|
    ensures IsChain(t, p[i..])
  {
  }

  lemma ChainLink(t: Table, p: seq<nat>, i: nat)
    requires IsChain(t, p) && i < |p|
    ensures ValidCl(t, t[p[i]]) <==> i < |p| - 1
    ensures i < |p| - 1 ==> p[i + 1] == t[p[i]]
  {
  }

  lemma ChainDistinct(t: Table, p: seq<nat>)
    requires IsChain(t, p)
    ensures Distinct(p)
  {
    forall i, j | 0 <= i < j < |p| ensures p[i] != p[j] {
      if p[i] == p[j] {
        ChainSuffix(t, p, i);
        ChainSuffix(t, p, j);
        ChainUnique(t, p[i..], p[j..]);
      }
    }
  }

  // ---- checkchain -----------------------------------------------------------------

  datatype Verdict = AtEnd | AtMark | Astray

  // How the chain q ends: at an end mark, in a cluster marked free or bad, or out of range.
  ghost function Ending(t: Table, q: seq<nat>): Verdict
    requires IsChain(t, q)
  {
    var e := t[q[|q| - 1]];
    if e >= CLUST_EOFS then AtEnd else if e == CLUST_FREE || e >= CLUST_RSRVD then AtMark else Astray
  }

  // The clusters checkchain counts: all of the chain, but not a marked cluster at its end.
  ghost function Kept(t: Table, q: seq<nat>): nat
    requires IsChain(t, q)
  {
    if Ending(t, q) == AtMark then |q| - 1 else |q|
  }

  // The table after checkchain's repair.
  ghost function Truncated(t: Table, q: seq<nat>): Table
    requires IsChain(t, q)
  {
    var k := Kept(t, q);
    if Ending(t, q) == AtEnd then t
    else if k == 0 then t[q[0] := CLUST_FREE]
    else t[q[k - 1] := CLUST_EOF]
  }

  // In a clean table, the repair keeps at least one cluster ("Clear" is never proposed), the chain
  // from the same head becomes exactly the kept clusters, it ends in an end mark, and the table
  // stays clean with as many free and bad clusters as before.
  lemma TruncatedChain(t: Table, heads: seq<bool>, q: seq<nat>)
    requires Clean(t, heads) && IsChain(t, q) && heads[q[0]]
    ensures Kept(t, q) > 0 && Ending(t, q) != Astray
    ensures var t' := Truncated(t, q); var p := q[..Kept(t, q)];
      IsChain(t', p) && t'[p[|p| - 1]] >= CLUST_EOFS && Clean(t', heads)
    ensures forall v | v == CLUST_FREE || v == CLUST_BAD :: Count(Truncated(t, q), |t|, v) == Count(t, |t|, v)
  {
    ChainDistinct(t, q);
    var k := Kept(t, q);
    if Ending(t, q) == AtMark {
      assert t[q[k - 1]] == q[k];
      CutKeepsClean(t, heads, q[k - 1], CLUST_EOF);
      CountUpdate(t, |t|, CLUST_FREE, q[k - 1], CLUST_EOF);
      CountUpdate(t, |t|, CLUST_BAD, q[k - 1], CLUST_EOF);
    }
  }

  // The repair changes one entry of this chain, so it leaves every other chain alone.
  lemma OtherChain(t: Table, t': Table, q: seq<nat>)
    requires IsChain(t, q) && |t'| == |t| && forall i | 0 <= i < |q| :: t'[q[i]] == t[q[i]]
    ensures IsChain(t', q)
  {
  }

  // ---- clearchain -------------------------------------------------------------------

  ghost function Freed(t: Table, p: seq<nat>): (t': Table)
    ensures |t'| == |t|
  {
    seq(|t|, i requires 0 <= i < |t| => if i in p then CLUST_FREE else t[i])
  }

  // Freeing a chain adds all its clusters to the free ones, except a last cluster that was free already.
  lemma {:induction false} FreedCount(t: Table, p: seq<nat>)
    requires IsChain(t, p)
    ensures Count(Freed(t, p), |t|, CLUST_FREE) == Count(t, |t|, CLUST_FREE)
      + |p| - (if t[p[|p| - 1]] == CLUST_FREE then 1 else 0)
  {
    ChainDistinct(t, p);
    var n := |p| - 1;
    FreedPrefixCount(t, p, n);
    var t1 := Freed(t, p[..n]);
    CountUpdate(t1, |t|, CLUST_FREE, p[n], CLUST_FREE);
    assert Freed(t, p) == t1[p[n] := CLUST_FREE] by { FreedStep(t, p, n); assert p[..n + 1] == p; }
  }

  lemma FreedStep(t: Table, p: seq<nat>, n: nat)
    requires n < |p| && p[n] < |t|
    ensures Freed(t, p[..n + 1]) == Freed(t, p[..n])[p[n] := CLUST_FREE]
  {
  }

  lemma {:induction false} FreedPrefixCount(t: Table, p: seq<nat>, n: nat)
    requires IsChain(t, p) && Distinct(p) && n < |p|
    ensures Count(Freed(t, p[..n]), |t|, CLUST_FREE) == Count(t, |t|, CLUST_FREE) + n
  {
    if n == 0 {
      assert Freed(t, p[..0]) == t;
    } else {
      FreedPrefixCount(t, p, n - 1);
      FreedStep(t, p, n - 1);
      var t1 := Freed(t, p[..n - 1]);
      assert t1[p[n - 1]] == t[p[n - 1]] == p[n];
      CountUpdate(t1, |t|, CLUST_FREE, p[n - 1], CLUST_FREE);
    }
  }

  lemma FreedClean(t: Table, heads: seq<bool>, p: seq<nat>)
    requires Clean(t, heads) && Path(t, p) && forall i | 0 <= i < |p| :: !heads[p[i]]
    ensures Clean(Freed(t, p), heads)
  {
  }

  // A cluster with its head bit set is on the chain of no other cluster.
  lemma HeadsOffChain(t: Table, heads: seq<bool>, p: seq<nat>)
    requires Clean(t, heads) && Path(t, p) && p != [] && !heads[p[0]]
    ensures forall i | 0 <= i < |p| :: !heads[p[i]]
  {
    forall i | 0 <= i < |p| ensures !heads[p[i]] {
      if i > 0 {
        assert t[p[i - 1]] == p[i];
      }
    }
  }

  // ---- dropping superfluous clusters ---------------------------------------------------

  // Freeing the chain behind its first n clusters and ending it there.
  ghost function Dropped(t: Table, p: seq<nat>, n: nat): Table
    requires IsChain(t, p) && 0 < n <= |p|
  {
    Freed(t, p[n..])[p[n - 1] := CLUST_EOF]
  }

  lemma DroppedChain(t: Table, heads: seq<bool>, p: seq<nat>, n: nat)
    requires Clean(t, heads) && IsChain(t, p) && !heads[p[0]] && 0 < n <= |p| && t[p[|p| - 1]] >= CLUST_EOFS
    ensures var t' := Dropped(t, p, n); IsChain(t', p[..n]) && t'[p[n - 1]] == CLUST_EOF && Clean(t', heads)
    ensures Count(Dropped(t, p, n), |t|, CLUST_FREE) == Count(t, |t|, CLUST_FREE) + |p| - n
  {
    hide Clean, Injective;
    ChainDistinct(t, p);
    HeadsOffChain(t, heads, p);
    FreedClean(t, heads, p[n..]);
    var t1 := Freed(t, p[n..]);
    CutKeepsClean(t1, heads, p[n - 1], CLUST_EOF);
    DroppedCount(t, p, n);
    DroppedIsChain(t, p, n);
  }

  lemma DroppedIsChain(t: Table, p: seq<nat>, n: nat)
    requires IsChain(t, p) && Distinct(p) && 0 < n <= |p| && |t| <= CLUST_EOFS
    ensures IsChain(Dropped(t, p, n), p[..n])
  {
  }

  lemma DroppedCount(t: Table, p: seq<nat>, n: nat)
    requires IsChain(t, p) && Distinct(p) && 0 < n <= |p| && t[p[|p| - 1]] >= CLUST_EOFS
    ensures Count(Dropped(t, p, n), |t|, CLUST_FREE) == Count(t, |t|, CLUST_FREE) + |p| - n
  {
    var t1 := Freed(t, p[n..]);
    assert t1[p[n - 1]] == t[p[n - 1]];
    if n < |p| {
      ChainSuffix(t, p, n);
      FreedCount(t, p[n..]);
      assert t[p[n - 1]] == p[n];
    } else {
      assert t1 == t;
    }
    CountUpdate(t1, |t|, CLUST_FREE, p[n - 1], CLUST_EOF);
  }

  lemma DroppedBad(t: Table, p: seq<nat>, n: nat)
    requires IsChain(t, p) && 0 < n <= |p| && t[p[|p| - 1]] != CLUST_BAD && |t| <= CLUST_RSRVD
    ensures Count(Dropped(t, p, n), |t|, CLUST_BAD) == Count(t, |t|, CLUST_BAD)
  {
    DroppedBadBelow(t, p, n, |t|);
  }

  lemma {:induction false} DroppedBadBelow(t: Table, p: seq<nat>, n: nat, m: nat)
    requires IsChain(t, p) && 0 < n <= |p| && t[p[|p| - 1]] != CLUST_BAD && |t| <= CLUST_RSRVD && m <= |t|
    ensures Count(Dropped(t, p, n), m, CLUST_BAD) == Count(t, m, CLUST_BAD)
  {
    if m > CLUST_FIRST {
      DroppedBadBelow(t, p, n, m - 1);
      if m - 1 in p {
        var i :| 0 <= i < |p| && p[i] == m - 1;
        ChainLink(t, p, i);
      }
    }
  }

  lemma Scale(a: nat, b: nat, c: nat)
    ensures a * c < b * c ==> a < b
    ensures (a + 1) * c == a * c + c
  {
  }

  // The walk of checksize to the last needed cluster adds up 32-bit sizes: it can stop exactly when
  // some multiple of the cluster size, cut to 32 bits, reaches the file size.
  lemma DropLoopEnds(size: nat, clusterSize: nat, k: nat)
    requires 0 < clusterSize && clusterSize * k == 0x1_0000_0000
    ensures (exists n: nat {:trigger Wrapped(n, clusterSize)} :: n > 0 && size <= Wrapped(n, clusterSize))
      <==> size + clusterSize <= 0x1_0000_0000
  {
    forall n: nat | size <= Wrapped(n, clusterSize) ensures size + clusterSize <= 0x1_0000_0000 {
      WrappedRoom(n, clusterSize, k);
    }
    if size + clusterSize <= 0x1_0000_0000 {
      var n := k - 1;
      assert n * clusterSize == 0x1_0000_0000 - clusterSize;
      if n == 0 {
        assert Wrapped(1, clusterSize) == 0;
      } else {
        assert size <= Wrapped(n, clusterSize);
      }
    }
  }

  function Wrapped(n: nat, clusterSize: nat): nat {
    n * clusterSize % 0x1_0000_0000
  }

  lemma WrappedRoom(n: nat, clusterSize: nat, k: nat)
    requires 0 < clusterSize && clusterSize * k == 0x1_0000_0000
    ensures Wrapped(n, clusterSize) + clusterSize <= 0x1_0000_0000
  {
    var m := n * clusterSize / 0x1_0000_0000;
    var rest := n - m * k;
    assert m * (clusterSize * k) == (m * k) * clusterSize;
    assert Wrapped(n, clusterSize) == n * clusterSize - (m * k) * clusterSize == rest * clusterSize;
    Scale(rest, k, clusterSize);
    assert (k - rest) * clusterSize == 0x1_0000_0000 - rest * clusterSize;
    assert (k - rest) * clusterSize >= 1 * clusterSize;
  }

  // ---- lost chains ---------------------------------------------------------------------

  // checklost on the chain q: whether the truncation proposed by checkchain is accepted, whether the
  // chain cannot be reconnected, and whether its clusters are then given up.
  datatype Choice = Choice(truncate: bool, unreconnected: bool, clear: bool)

  ghost predicate Sound(t: Table, q: seq<nat>, c: Choice)
    requires IsChain(t, q)
  {
    Ending(t, q) == AtEnd || c.truncate
  }

  ghost predicate Cleared(t: Table, q: seq<nat>, c: Choice)
    requires IsChain(t, q)
  {
    c.clear && (c.unreconnected || !Sound(t, q, c))
  }

  ghost function Outcome(t: Table, q: seq<nat>, c: Choice): (t': Table)
    requires IsChain(t, q)
    ensures |t'| == |t|
  {
    var t1 := if c.truncate then Truncated(t, q) else t;
    if Cleared(t, q, c) then Freed(t1, if Sound(t, q, c) then q[..Kept(t, q)] else q) else t1
  }

  // What becomes of the clusters of a lost chain in a clean table. It is given up when it is not sound or could
  // not be reconnected, and the answer to "Clear" is yes; otherwise it stays, ended before a marked last cluster
  // where this was accepted.
  lemma OutcomeIs(t: Table, heads: seq<bool>, q: seq<nat>, c: Choice)
    requires Clean(t, heads) && IsChain(t, q) && heads[q[0]]
    ensures var last := t[q[|q| - 1]]; var k := if last >= CLUST_EOFS then |q| else |q| - 1;
      var sound := last >= CLUST_EOFS || c.truncate; var gone := c.clear && (!sound || c.unreconnected);
      && 0 < k && Kept(t, q) == k && (last < CLUST_EOFS ==> last == CLUST_FREE || last == CLUST_BAD)
      && forall i | 0 <= i < |q| ::
        Outcome(t, q, c)[q[i]] == if gone && (i < k || !sound) then CLUST_FREE
          else if !gone && k < |q| && c.truncate && i == k - 1 then CLUST_EOF else t[q[i]]
  {
    TruncatedChain(t, heads, q);
    ChainDistinct(t, q);
    hide Injective;
  }

  // How far the counter of clusters holding v falls out of step.
  ghost function Drift(t: Table, q: seq<nat>, c: Choice, v: nat): nat
    requires IsChain(t, q)
  {
    if !Sound(t, q, c) && c.clear && t[q[|q| - 1]] == v then 1 else 0
  }

  // What happens to one lost chain depends on the clusters of this chain only.
  lemma OutcomeLocal(t: Table, t0: Table, q: seq<nat>, c: Choice)
    requires IsChain(t0, q) && |t| == |t0| && forall i | 0 <= i < |q| :: t[q[i]] == t0[q[i]]
    ensures IsChain(t, q) && Drift(t, q, c, CLUST_FREE) == Drift(t0, q, c, CLUST_FREE)
      && Drift(t, q, c, CLUST_BAD) == Drift(t0, q, c, CLUST_BAD)
    ensures forall i | 0 <= i < |q| :: Outcome(t, q, c)[q[i]] == Outcome(t0, q, c)[q[i]]
    ensures forall i | 0 <= i < |t| && i !in q :: Outcome(t, q, c)[i] == t[i]
  {
    OtherChain(t0, t, q);
  }

  lemma {:induction false} FreedBad(t: Table, p: seq<nat>, m: nat)
    requires IsChain(t, p) && Distinct(p) && m <= |t| <= CLUST_RSRVD
    ensures Count(Freed(t, p), m, CLUST_BAD) == Count(t, m, CLUST_BAD) - (if p[|p| - 1] < m
      && t[p[|p| - 1]] == CLUST_BAD then 1 else 0)
  {
    if m > CLUST_FIRST {
      FreedBad(t, p, m - 1);
      if m - 1 in p {
        var i :| 0 <= i < |p| && p[i] == m - 1;
        ChainLink(t, p, i);
      }
    }
  }

  // A lost chain settled: no head is left on it, the table stays clean and the counters move by what
  // the chain held, up to the drift.
  lemma OutcomeClean(t: Table, heads: seq<bool>, q: seq<nat>, c: Choice)
    requires Clean(t, heads) && IsChain(t, q) && heads[q[0]]
    ensures Kept(t, q) > 0
    ensures Clean(Outcome(t, q, c), heads[q[0] := false])
    ensures Count(Outcome(t, q, c), |t|, CLUST_FREE) ==
      Count(t, |t|, CLUST_FREE) + (if Cleared(t, q, c) then (if Sound(t, q, c) then Kept(t, q) else |q|)
        else 0) - Drift(t, q, c, CLUST_FREE)
    ensures Count(Outcome(t, q, c), |t|, CLUST_BAD) == Count(t, |t|, CLUST_BAD) - Drift(t, q, c, CLUST_BAD)
  {
    hide Clean, Injective, Freed, Truncated, Count;
    TruncatedChain(t, heads, q);
    var t1 := if c.truncate then Truncated(t, q) else t;
    var p := if Sound(t, q, c) then q[..Kept(t, q)] else q;
    SizesOf(t, heads);
    ClearHeadKeepsClean(t, heads, q[0]);
    ClearHeadKeepsClean(t1, heads, q[0]);
    TruncatedSame(t, q);
    FreedOutcome(t1, heads[q[0] := false], p);
  }

  lemma TruncatedSame(t: Table, q: seq<nat>)
    requires IsChain(t, q)
    ensures Ending(t, q) == AtEnd ==> Truncated(t, q) == t && Kept(t, q) == |q| && q[..|q|] == q
    ensures |Truncated(t, q)| == |t|
  {
  }

  lemma FreedOutcome(t: Table, heads: seq<bool>, p: seq<nat>)
    requires Clean(t, heads) && IsChain(t, p) && !heads[p[0]]
    ensures Clean(Freed(t, p), heads)
    ensures Count(Freed(t, p), |t|, CLUST_FREE) == Count(t, |t|, CLUST_FREE)
      + |p| - (if t[p[|p| - 1]] == CLUST_FREE then 1 else 0)
    ensures Count(Freed(t, p), |t|, CLUST_BAD) == Count(t, |t|,
      CLUST_BAD) - (if t[p[|p| - 1]] == CLUST_BAD then 1 else 0)
  {
    hide Clean, Injective;
    SizesOf(t, heads);
    HeadsOffChain(t, heads, p);
    FreedClean(t, heads, p);
    FreedCount(t, p);
    ChainDistinct(t, p);
    FreedBad(t, p, |t|);
  }

  lemma SizesOf(t: Table, heads: seq<bool>)
    requires Clean(t, heads)
    ensures |heads| == |t| <= CLUST_RSRVD && Injective(t)
  {
  }
}
