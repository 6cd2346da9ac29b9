// Tables on which the checks go wrong.
module FatCases {
  import opened Arithmetic
  import opened FatChain
  import opened FatScan
  import opened FatRepair
  import opened FatCheck

  // A chain of two clusters whose second one is marked v, free or bad. It passes the scan without a
  // question. When its truncation is refused and it is then cleared, NumFree grows by two and NumBad stays:
  // one too many for a free cluster, or one bad cluster that is none any more.
  lemma DriftExample(ask: nat -> bool, v: nat)
    requires Marked(v)
    ensures var t, heads, q := [0, 0, 3, v], [true, true, true, false], [2, 3];
      var c := Choice(false, false, true);
      && Scanned(t, ask, t, heads, |t|) && Clean(t, heads) && IsChain(t, q) && heads[q[0]] && Drift(t, q, c, v) == 1
      && Count(Outcome(t, q, c), |t|, CLUST_FREE) ==
        Count(t, |t|, CLUST_FREE) + |q| - (if v == CLUST_FREE then 1 else 0)
      && Count(Outcome(t, q, c), |t|, CLUST_BAD) == Count(t, |t|, CLUST_BAD) - (if v == CLUST_BAD then 1 else 0)
  {
    var t, heads, q := [0, 0, 3, v], [true, true, true, false], [2, 3];
    assert t[2] == 3;
    assert forall c | ValidCl(t, c) :: heads[c] <==> !Taken(t, t, |t|, c);
    OutcomeClean(t, heads, q, Choice(false, false, true));
  }

  // A clean table with one chain, of n clusters.
  ghost function OneChain(n: nat): Table {
    seq(n + 2, i => if i < 2 then CLUST_FREE else if i == n + 1 then CLUST_EOF else i + 1)
  }

  lemma OneChainClean(n: nat)
    requires 0 < n && n + 2 <= CLUST_RSRVD
    ensures var t, heads, q := OneChain(n), seq(n + 2, i => i <= 2), seq(n, i => i + 2);
      Clean(t, heads) && IsChain(t, q) && q[0] == 2 && heads[2] && Ending(t, q) == AtEnd && Kept(t, q) == n
  {
    var t, heads, q := OneChain(n), seq(n + 2, i => i <= 2), seq(n, i => i + 2);
    assert forall i | 2 <= i < n + 2 :: t[i] == if i == n + 1 then CLUST_EOF else i + 1;
    assert q[|q| - 1] == n + 1;
  }

  // A file whose size comes within one cluster of 4 GiB, with one cluster more than 4 GiB in its chain: the
  // loop that drops clusters is started, and the 32-bit sum never reaches the size.
  lemma DropsForever(size: nat, clusterSize: nat, k: nat)
    requires 512 <= clusterSize && clusterSize * k == 0x1_0000_0000
    requires 0x1_0000_0000 < size + clusterSize && size < 0x1_0000_0000
    ensures k + 3 <= CLUST_RSRVD
    ensures var t, heads, q := OneChain(k + 1), seq(k + 3, i => i <= 2), seq(k + 1, i => i + 2);
      && Clean(t, heads) && IsChain(t, q) && heads[q[0]] && Ending(t, q) == AtEnd
      && FitVerdict(Kept(t, q), size, clusterSize, Answers(true, true, true, true)) == FsFatMod
    ensures forall n: nat {:trigger Wrapped(n, clusterSize)} :: Wrapped(n, clusterSize) < size
  {
    assert k < 0x1000_0000 by { MulBound(clusterSize, k); }
    OneChainClean(k + 1);
    assert Space(k + 1, clusterSize) == 0x1_0000_0000 + clusterSize by {
      assert (k + 1) * clusterSize == clusterSize * k + clusterSize;
    }
    forall n: nat ensures Wrapped(n, clusterSize) < size {
      WrappedRoom(n, clusterSize, k);
    }
  }

  lemma MulBound(a: nat, k: nat)
    requires 512 <= a && a * k == 0x1_0000_0000
    ensures k <= 0x80_0000
  {
    MulLe(512, a, k);
    CancelLe(k, 0x80_0000, 512);
  }

  // A file of 4 GiB - 1 bytes in 65537 clusters of 64 KiB.
  lemma DropsForeverExample()
    ensures forall n: nat {:trigger Wrapped(n, 65536)} :: Wrapped(n, 65536) < 0xffff_ffff
    ensures FitVerdict(65537, 0xffff_ffff, 65536, Answers(true, true, true, true)) == FsFatMod
  {
    DropsForever(0xffff_ffff, 65536, 65536);
  }
}
