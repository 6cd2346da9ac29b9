// The one-pass scan of the FAT, cluster by cluster: which links it cuts, and what holds of the
// part already scanned.
module FatScan {
  import opened FatChain
  import opened FiniteSets

  ghost predicate Marked(v: nat) {
    v == CLUST_FREE || v == CLUST_BAD
  }

  ghost predicate OutOfRange(t: Table, v: nat) {
    !Marked(v) && !ValidCl(t, v) && v < CLUST_RSRVD
  }

  // When cluster i is reached, its next cluster c is taken: an earlier cluster kept a link to it,
  // or it was seen to be free or bad.
  ghost predicate Taken(t0: Table, t: Table, i: nat, c: nat)
    requires |t| == |t0| && i <= |t|
  {
    (exists j | CLUST_FIRST <= j < i :: t[j] == c) || (CLUST_FIRST <= c < i && Marked(t0[c]))
  }

  // The links the scan proposes to cut.
  ghost predicate Faulty(t0: Table, t: Table, i: nat)
    requires |t| == |t0| && i < |t|
  {
    OutOfRange(t0, t0[i]) || (ValidCl(t0, t0[i]) && Taken(t0, t, i, t0[i]))
  }

  // The table t and the head bits after the clusters below n have been scanned, starting from t0.
  ghost predicate Scanned(t0: Table, ask: nat -> bool, t: Table, heads: seq<bool>, n: nat) {
    && |t| == |t0| == |heads| <= CLUST_RSRVD && n <= |t|
    && (forall i | CLUST_FIRST <= i < n :: t[i] == if Faulty(t0, t, i) && ask(i) then CLUST_EOF else t0[i])
    && (forall i | 0 <= i < |t| && !(CLUST_FIRST <= i < n) :: t[i] == t0[i])
    && (forall c | ValidCl(t, c) :: heads[c] <==> !Taken(t0, t, n, c))
  }

  lemma {:induction false} TakenStep(t0: Table, t: Table, t': Table, n: nat, c: nat)
    requires |t| == |t0| == |t'| && CLUST_FIRST <= n < |t| && (forall j | CLUST_FIRST <= j < n :: t'[j] == t[j])
    ensures Taken(t0, t', n + 1, c) <==> Taken(t0, t, n, c) || t'[n] == c || (c == n && Marked(t0[n]))
    ensures Taken(t0, t', n, c) <==> Taken(t0, t, n, c)
  {
  }

  // Scanning cluster n: its link is kept or cut, and the head bits lose n or its next cluster.
  lemma ScanStep(t0: Table, ask: nat -> bool, t: Table, heads: seq<bool>, n: nat, t': Table, heads': seq<bool>)
    requires Scanned(t0, ask, t, heads, n) && CLUST_FIRST <= n < |t| && |heads'| == |heads|
    requires t' == if Faulty(t0, t, n) && ask(n) then t[n := CLUST_EOF] else t
    requires forall c | ValidCl(t, c) :: heads'[c] <==> heads[c] && t'[n] != c && !(c == n && Marked(t0[n]))
    ensures Scanned(t0, ask, t', heads', n + 1)
  {
    forall i | CLUST_FIRST <= i <= n ensures t'[i] == if Faulty(t0, t', i) && ask(i) then CLUST_EOF else t0[i] {
      FaultySame(t0, t, t', i);
    }
    forall c | ValidCl(t', c) ensures heads'[c] <==> !Taken(t0, t', n + 1, c) {
      TakenStep(t0, t, t', n, c);
    }
  }

  lemma FaultySame(t0: Table, t: Table, t': Table, i: nat)
    requires |t| == |t0| == |t'| && i < |t| && (forall j | CLUST_FIRST <= j < i :: t'[j] == t[j])
    ensures Faulty(t0, t', i) <==> Faulty(t0, t, i)
  {
  }

  // What the body of the loop needs to know at cluster n.
  lemma ScanFacts(t0: Table, ask: nat -> bool, t: Table, heads: seq<bool>, n: nat)
    requires Scanned(t0, ask, t, heads, n) && ValidCl(t, n)
    ensures |t| == |t0| == |heads| && t[n] == t0[n]
    ensures ValidCl(t, t0[n]) ==> (heads[t0[n]] <==> !Taken(t0, t, n, t0[n]))
  {
  }

  // Before the scan every head bit is set.
  lemma ScanStart(t0: Table, ask: nat -> bool, heads: seq<bool>)
    requires |heads| == |t0| <= CLUST_RSRVD && CLUST_FIRST <= |t0| && forall i | 0 <= i < |heads| :: heads[i]
    ensures Scanned(t0, ask, t0, heads, CLUST_FIRST)
  {
  }

  // No entry holds the one value that is neither a cluster number nor an end, bad or free mark.
  ghost predicate Readable(t: Table) {
    forall i | 0 <= i < |t| :: t[i] != CLUST_RSRVD
  }

  // The faults that matter for the chains: a link out of range, or to a cluster that an earlier
  // cluster still links to. (A link to a cluster already seen free or bad is faulty too.)
  ghost predicate Breaks(t0: Table, t: Table, i: nat)
    requires |t| == |t0| && i < |t|
  {
    OutOfRange(t0, t0[i]) || (ValidCl(t0, t0[i]) && exists j | CLUST_FIRST <= j < i :: t[j] == t0[i])
  }

  ghost predicate BreaksAccepted(t0: Table, ask: nat -> bool, t: Table)
    requires |t| == |t0|
  {
    forall i | ValidCl(t, i) && Breaks(t0, t, i) :: ask(i)
  }

  // The same said of the table before the scan and the answers alone: a refused question is about no link
  // out of range, and no earlier cluster keeps a link to the same cluster. An earlier link to it is given
  // up only if it was seen to lead to a free or bad cluster and its cut was accepted.
  ghost predicate Harmless(t0: Table, ask: nat -> bool, i: nat)
    requires i < |t0|
  {
    && !OutOfRange(t0, t0[i])
    && (ValidCl(t0, t0[i]) ==>
      forall j | CLUST_FIRST <= j < i && t0[j] == t0[i] :: ask(j) && t0[i] < j && Marked(t0[t0[i]]))
  }

  ghost predicate Accepted(t0: Table, ask: nat -> bool) {
    forall i | ValidCl(t0, i) && !ask(i) :: Harmless(t0, ask, i)
  }

  lemma HarmlessIff(t0: Table, ask: nat -> bool, t: Table, heads: seq<bool>, i: nat)
    requires Scanned(t0, ask, t, heads, |t|) && ValidCl(t0, i) && !ask(i)
    ensures Harmless(t0, ask, i) <==> !Breaks(t0, t, i)
  {
    var c := t0[i];
    if ValidCl(t0, c) && !Harmless(t0, ask, i) {
      var j :| CLUST_FIRST <= j < i && t0[j] == c && !(ask(j) && c < j && Marked(t0[c]));
      assert t[j] == c || Taken(t0, t, j, c);
    }
  }

  lemma AcceptedIff(t0: Table, ask: nat -> bool, t: Table, heads: seq<bool>)
    requires Scanned(t0, ask, t, heads, |t|)
    ensures Accepted(t0, ask) <==> BreaksAccepted(t0, ask, t)
  {
    hide Scanned, Harmless, Breaks;
    ScanSizes(t0, ask, t, heads);
    forall i | ValidCl(t0, i) && !ask(i) ensures Harmless(t0, ask, i) <==> !Breaks(t0, t, i) {
      HarmlessIff(t0, ask, t, heads, i);
    }
  }

  lemma ScanSizes(t0: Table, ask: nat -> bool, t: Table, heads: seq<bool>)
    requires Scanned(t0, ask, t, heads, |t|)
    ensures |t| == |t0| == |heads| <= CLUST_RSRVD
  {
  }

  lemma ScanChanges(t0: Table, ask: nat -> bool, t: Table, heads: seq<bool>)
    requires Scanned(t0, ask, t, heads, |t|)
    ensures |t| == |t0| && (t != t0 <==> exists i | CLUST_FIRST <= i < |t| :: t[i] != t0[i])
  {
    assert forall i | 0 <= i < |t| && i < CLUST_FIRST :: t[i] == t0[i];
  }

  lemma BreaksClean(t0: Table, ask: nat -> bool, t: Table, heads: seq<bool>)
    requires Scanned(t0, ask, t, heads, |t|) && BreaksAccepted(t0, ask, t) && Readable(t0)
    ensures Clean(t, heads)
  {
  }

  lemma CleanBreaks(t0: Table, ask: nat -> bool, t: Table, heads: seq<bool>)
    requires Scanned(t0, ask, t, heads, |t|) && Clean(t, heads)
    ensures BreaksAccepted(t0, ask, t)
  {
  }

  // With the repairs accepted, the scan leaves a clean table.
  lemma ScanClean(t0: Table, ask: nat -> bool, t: Table, heads: seq<bool>)
    requires Scanned(t0, ask, t, heads, |t|) && Accepted(t0, ask) && Readable(t0)
    ensures Clean(t, heads)
  {
    hide *;
    ScanSizes(t0, ask, t, heads);
    AcceptedIff(t0, ask, t, heads);
    BreaksClean(t0, ask, t, heads);
  }

  // And not otherwise: one such repair refused leaves a link out of range or two links to one cluster.
  lemma ScanCleanOnlyIf(t0: Table, ask: nat -> bool, t: Table, heads: seq<bool>)
    requires Scanned(t0, ask, t, heads, |t|) && Clean(t, heads)
    ensures Accepted(t0, ask)
  {
    hide *;
    ScanSizes(t0, ask, t, heads);
    CleanBreaks(t0, ask, t, heads);
    AcceptedIff(t0, ask, t, heads);
  }

  // A refused cut can leave a loop: 2 -> 3 -> 4 -> 3 with the second link to 3 kept is a head whose
  // walk never leaves the valid clusters.
  lemma RefusedCutLoops(p: seq<nat>)
    ensures var t := [0, 0, 3, 4, 3]; var heads := [true, true, true, false, false];
      Scanned(t, i => false, t, heads, |t|) && !(IsChain(t, p) && p[0] == 2)
  {
    var t := [0, 0, 3, 4, 3];
    var heads := [true, true, true, false, false];
    assert t[2] == 3 && t[3] == 4;
    assert forall c | ValidCl(t, c) :: heads[c] <==> !Taken(t, t, |t|, c);
    if IsChain(t, p) && p[0] == 2 {
      var last := p[|p| - 1];
      assert ValidCl(t, last);
      assert ValidCl(t, t[last]);
    }
  }

  // What stays a head: exactly the clusters that nobody points to any more and that are in use.
  lemma ScanHeads(t0: Table, ask: nat -> bool, t: Table, heads: seq<bool>, c: nat)
    requires Scanned(t0, ask, t, heads, |t|) && ValidCl(t, c)
    ensures heads[c] <==> Unpointed(t, c) && !Marked(t0[c])
  {
  }

  lemma {:induction false} ScanCounts(t0: Table, ask: nat -> bool, t: Table, heads: seq<bool>, n: nat, v: nat)
    requires Scanned(t0, ask, t, heads, |t|) && n <= |t| && Marked(v)
    ensures Count(t, n, v) == Count(t0, n, v)
  {
    if n > CLUST_FIRST {
      ScanCounts(t0, ask, t, heads, n - 1, v);
    }
  }

  // Every cluster in use is on the chain of a head, or on a loop that no head leads into and that
  // no later step of the check will ever visit.
  lemma ScanCovers(t0: Table, ask: nat -> bool, t: Table, heads: seq<bool>, c: nat) returns (p: seq<nat>)
    requires Scanned(t0, ask, t, heads, |t|) && Clean(t, heads) && ValidCl(t, c) && !Marked(t[c])
    ensures p != [] && Path(t, p) && Distinct(p) && p[|p| - 1] == c && (heads[p[0]] || t[c] == p[0])
  {
    p := Ancestry(t, [c]);
    if t[c] != p[0] {
      ScanHeads(t0, ask, t, heads, p[0]);
      assert |p| > 1 ==> p[0 + 1] == t[p[0]];
    }
  }

  lemma {:induction false} Ancestry(t: Table, p: seq<nat>) returns (q: seq<nat>)
    requires Injective(t) && p != [] && Path(t, p) && Distinct(p)
    ensures q != [] && Path(t, q) && Distinct(q) && q[|q| - 1] == p[|p| - 1]
    ensures Unpointed(t, q[0]) || t[q[|q| - 1]] == q[0]
    decreases |t| - |p|
  {
    DistinctBound(t, p);
    if !Unpointed(t, p[0]) && t[p[|p| - 1]] != p[0] {
      var d :| ValidCl(t, d) && t[d] == p[0];
      var p' := [d] + p;
      forall k | 0 <= k < |p| ensures p[k] != d {
        assert k < |p| - 1 ==> p[k + 1] == t[p[k]] && p[k + 1] != p[0];
      }
      DistinctBound(t, p');
      q := Ancestry(t, p');
    } else {
      q := p;
    }
  }
}
