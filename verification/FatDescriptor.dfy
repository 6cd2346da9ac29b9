// The FAT checker over an in-memory FAT: the head bitmap, the scan of readfat, checkchain,
// clearchain, checksize and checklost.
module FatCheck {
  import opened FatEntry
  import opened FatChain
  import opened FiniteSets
  import opened FatScan
  import opened FatRepair

  const LONG_BIT: nat := 64

  datatype Ret = FsOk | FsDirMod | FsFatMod | FsError | FsFatal

  // An unsigned long as its bits.
  type Word = w: seq<bool> | |w| == LONG_BIT witness seq(LONG_BIT, i => false)

  predicate AllClear(w: Word) {
    forall i | 0 <= i < LONG_BIT :: !w[i]
  }

  // A directory entry as checksize sees it, and the answers to the questions it may ask.
  datatype DirEntry = DirEntry(head: nat, size: nat)
  datatype Answers = Answers(invalid: bool, chain: bool, truncate: bool, drop: bool)

  // The answers on lost chains, by head: to checkchain's question, the result of reconnecting so many
  // clusters, and the answer to "Clear".
  datatype Lost = Lost(truncate: nat -> bool, reconnect: (nat, nat) -> Ret, clear: nat -> bool)

  // Checking lost chains up to cluster n: chains holds the chain of every head so far. Their head
  // bits are cleared, each chain ended as its own answers say, and nothing else was touched.
  ghost predicate LostUpTo(t0: Table, heads0: seq<bool>, lost: Lost, t: Table, heads: seq<bool>,
      chains: map<nat, seq<nat>>, n: nat) {
    && |t| == |heads| == |heads0| == |t0|
    && (forall c | ValidCl(t, c) :: heads[c] <==> heads0[c] && c >= n)
    && (forall c: nat :: c in chains <==> ValidCl(t, c) && heads0[c] && c < n)
    && (forall c | c in chains :: IsChain(t0, chains[c]) && chains[c][0] == c)
    && (forall c | c in chains :: Resolved(t0, t, chains[c], lost))
    && (forall i | 0 <= i < |t| && (forall c | c in chains :: i !in chains[c]) :: t[i] == t0[i])
  }

  ghost predicate Resolved(t0: Table, t: Table, q: seq<nat>, lost: Lost)
    requires IsChain(t0, q) && |t| == |t0|
  {
    forall i | 0 <= i < |q| :: t[q[i]] == Outcome(t0, q, ChoiceOf(t0, q, lost))[q[i]]
  }

  ghost function TotalDrift(t0: Table, lost: Lost, chains: map<nat, seq<nat>>, n: nat, v: nat): nat
    requires forall c | c in chains :: IsChain(t0, chains[c])
  {
    if n == 0 then 0
    else
      var own := if n - 1 in chains then Drift(t0, chains[n - 1], ChoiceOf(t0, chains[n - 1], lost), v) else 0;
      TotalDrift(t0, lost, chains, n - 1, v) + own
  }

  // The counters: off by exactly one for every chain that ended in a free or bad cluster, was not
  // truncated, and was then cleared.
  ghost predicate LostAccount(t0: Table, lost: Lost, t: Table, chains: map<nat, seq<nat>>, n: nat, numFree: int,
      numBad: int, fatmod: bool) {
    && (forall c | c in chains :: IsChain(t0, chains[c]))
    && numFree == Count(t, |t|, CLUST_FREE) + TotalDrift(t0, lost, chains, n, CLUST_FREE)
    && numBad == Count(t, |t|, CLUST_BAD) + TotalDrift(t0, lost, chains, n, CLUST_BAD)
    && (fatmod <==> exists c | c in chains :: Cleared(t0, chains[c], ChoiceOf(t0, chains[c], lost)))
  }

  ghost function ChoiceOf(t: Table, q: seq<nat>, lost: Lost): Choice
    requires IsChain(t, q)
  {
    Choice(lost.truncate(q[0]), lost.reconnect(q[0], Kept(t, q)) == FsError, lost.clear(q[0]))
  }

  // The hint for the next free cluster: as it was, or else the first free cluster below n, if any.
  ghost predicate FreeHint(t: Table, n: nat, before: nat, after: nat)
    requires n <= |t|
  {
    if before != 0 then after == before
    else if after == 0 then forall c | CLUST_FIRST <= c < n :: t[c] != CLUST_FREE
    else CLUST_FIRST <= after < n && t[after] == CLUST_FREE && forall c | CLUST_FIRST <= c < after :: t[c] != CLUST_FREE
  }

  // The links that the bytes of a FAT stand for.
  ghost function Decoded(width: Width, buf: seq<Byte>, n: nat): (t: Table)
    requires Holds(width, |buf|, n)
    ensures |t| == n && forall i | 0 <= i < n :: Offset(width, i) + Bytes(width) <= |buf| && t[i] == Get(width, buf, i)
  {
    HoldsAll(width, |buf|, n);
    seq(n, i requires 0 <= i < n => Get(width, buf, i))
  }

  // fat_descriptor with its boot block. `table` and `heads` are what the bytes and bits stand for.
  class FatDescriptor {
    const width: Width
    const numClusters: nat
    const fatbuf: array<Byte>
    const bits: array<Word>
    var count: int
    var numFree: nat
    var numBad: nat
    var fsNext: nat
    ghost var table: Table
    ghost var heads: seq<bool>

    ghost predicate Valid()
      reads this`table, this`heads, this`count, fatbuf, bits
    {
      && fatbuf as object != bits as object
      && numClusters <= Limit(width) - 8 && Holds(width, fatbuf.Length, numClusters)
        && numClusters <= LONG_BIT * bits.Length
      && |table| == numClusters && |heads| == numClusters
      && (forall i | 0 <= i < numClusters ::
        Offset(width, i) + Bytes(width) <= fatbuf.Length && table[i] == Get(width, fatbuf[..], i))
      && (forall i | 0 <= i < numClusters :: heads[i] == bits[i / LONG_BIT][i % LONG_BIT])
      && count == HeadCount(heads, numClusters)
    }

    // The descriptor of a FAT in memory, every head bit set.
    constructor (width: Width, numClusters: nat, fatbuf: array<Byte>, fsNext: nat)
      requires numClusters <= Limit(width) - 8 && Holds(width, fatbuf.Length, numClusters)
      ensures Valid() && fresh(bits) && this.width == width && this.numClusters == numClusters
      ensures this.fatbuf == fatbuf && this.fsNext == fsNext
      ensures table == Decoded(width, fatbuf[..], numClusters) && forall i | 0 <= i < numClusters :: heads[i]
    {
      this.width, this.numClusters, this.fatbuf, this.fsNext := width, numClusters, fatbuf, fsNext;
      bits := new Word[(numClusters + LONG_BIT - 1) / LONG_BIT];
      numFree, numBad := 0, 0;
      table := Decoded(width, fatbuf[..], numClusters);
      new;
      InitHeads();
    }

    // ---- bitmap_clear, bitmap_get, bitmap_none_in_range ----------------------------

    method ClearHead(cl: nat)
      requires Valid() && cl < numClusters && heads[cl]
      modifies this`count, this`heads, bits
      ensures Valid() && heads == old(heads)[cl := false]
    {
      HeadCountClear(heads, numClusters, cl);
      bits[cl / LONG_BIT] := bits[cl / LONG_BIT][cl % LONG_BIT := false];
      count := count - 1;
      heads := heads[cl := false];
    }

    method IsHead(cl: nat) returns (b: bool)
      requires Valid() && cl < numClusters
      ensures b == heads[cl]
    {
      b := bits[cl / LONG_BIT][cl % LONG_BIT];
    }

    // Whether any bit of the word that holds cl is set.
    method IsHeadInRange(cl: nat) returns (b: bool)
      requires Valid() && cl < numClusters && cl % LONG_BIT == 0
      ensures b == !AllClear(bits[cl / LONG_BIT])
      ensures !b ==> forall i | cl <= i < cl + LONG_BIT && i < numClusters :: !heads[i]
    {
      b := !AllClear(bits[cl / LONG_BIT]);
      if !b {
        forall i | cl <= i < cl + LONG_BIT && i < numClusters ensures !heads[i] {
          assert i / LONG_BIT == cl / LONG_BIT;
        }
      }
    }

    // ---- fat_get_cl_next, fat_set_cl_next -------------------------------------------

    predicate ValidNumber(cl: int) {
      CLUST_FIRST <= cl < numClusters
    }

    method GetNext(cl: nat) returns (next: nat)
      requires Valid()
      ensures next == if ValidNumber(cl) then table[cl] else CLUST_DEAD
    {
      if !ValidNumber(cl) {
        return CLUST_DEAD;
      }
      var p := Offset(width, cl);
      assert table[cl] == Get(width, fatbuf[..], cl);
      next := Get(width, fatbuf[..], cl);
    }

    // The entry keeps the low bits of the value only; CLUST_FREE and CLUST_EOF lose nothing.
    method SetNext(cl: nat, next: nat) returns (ret: Ret)
      requires Valid()
      modifies this`table, fatbuf
      ensures Valid() && ret == (if ValidNumber(cl) then FsOk else FsFatal)
      ensures table == if ValidNumber(cl) then old(table)[cl := Widen(width, next % Limit(width))] else old(table)
      ensures next == CLUST_FREE || next == CLUST_EOF ==> Widen(width, next % Limit(width)) == next
    {
      hide Valid, Widen;
      if next == CLUST_FREE || next == CLUST_EOF {
        WidenExact(width, next);
      }
      if !ValidNumber(cl) {
        return FsFatal;
      }
      SetEntry(cl, next);
      ret := FsOk;
    }

    // The set function of the FAT's width.
    method SetEntry(cl: nat, next: nat)
      requires Valid() && ValidNumber(cl)
      modifies this`table, fatbuf
      ensures Valid() && table == old(table)[cl := Widen(width, next % Limit(width))]
    {
      hide Widen;
      var p := Offset(width, cl);
      ghost var buf := fatbuf[..];
      assert table[cl] == Get(width, fatbuf[..], cl);
      var v := Encoded(width, fatbuf[p], fatbuf[p + 1], cl, next);
      fatbuf[p], fatbuf[p + 1] := v % 256, v / 256 % 256;
      if width == Fat32 {
        fatbuf[p + 2], fatbuf[p + 3] := v / 65536 % 256, v / 16777216 % 256;
      }
      assert fatbuf[..] == Put(width, buf, cl, next);
      GetPut(width, buf, cl, next);
      forall i | 0 <= i < numClusters && i != cl ensures Get(width, fatbuf[..], i) == table[i] {
        assert table[i] == Get(width, buf, i);
        GetPutOther(width, buf, cl, next, i);
      }
      table := table[cl := Widen(width, next % Limit(width))];
    }

    // ---- the scan of readfat ----------------------------------------------------------

    // bitmap_ctor with every bit set
    method InitHeads()
      requires fatbuf as object != bits as object && numClusters <= LONG_BIT * bits.Length
      modifies this`count, this`heads, bits
      ensures |heads| == numClusters && (forall i | 0 <= i < numClusters ::
        heads[i] && bits[i / LONG_BIT][i % LONG_BIT])
      ensures count == HeadCount(heads, numClusters)
    {
      var ones: Word := seq(LONG_BIT, i => true);
      for i := 0 to bits.Length
        invariant forall j | 0 <= j < i :: bits[j] == ones
      {
        bits[i] := ones;
      }
      count := numClusters;
      heads := seq(numClusters, i => true);
      AllHeadCount(heads, numClusters);
    }

    // The loop over all clusters. ask(cl) is the answer to the question asked at cluster cl.
    method Scan(ask: nat -> bool) returns (modified: bool)
      requires Valid() && (forall i | 0 <= i < numClusters :: heads[i]) && CLUST_FIRST <= numClusters
      modifies this, fatbuf, bits
      ensures Valid() && Scanned(old(table), ask, table, heads, numClusters)
      ensures numFree == Count(table, numClusters, CLUST_FREE) && numBad == Count(table, numClusters, CLUST_BAD)
      ensures modified <==> exists i | CLUST_FIRST <= i < numClusters :: table[i] != old(table)[i]
      ensures FreeHint(old(table), numClusters, old(fsNext), fsNext)
      ensures Accepted(old(table), ask) <==> Clean(table, heads)
    {
      hide Valid, Scanned, Faulty, Marked, Clean, Accepted;
      Sizes();
      ghost var t0 := table;
      numFree, numBad, modified := 0, 0, false;
      ScanStart(t0, ask, heads);
      for cl := CLUST_FIRST to numClusters
        invariant Valid() && Scanned(t0, ask, table, heads, cl)
        invariant numFree == Count(t0, cl, CLUST_FREE) && numBad == Count(t0, cl, CLUST_BAD)
        invariant |table| == |heads| == numClusters
        invariant modified <==> exists i | CLUST_FIRST <= i < cl :: table[i] != t0[i]
        invariant FreeHint(t0, cl, old(fsNext), fsNext)
      {
        ghost var t, h := table, heads;
        ScanFacts(t0, ask, t, h, cl);
        var changed := ScanCluster(cl, ask, t0);
        Sizes();
        modified := modified || changed;
        ScanStep(t0, ask, t, h, cl, table, heads);
      }
      ScanCounts(t0, ask, table, heads, numClusters, CLUST_FREE);
      ScanCounts(t0, ask, table, heads, numClusters, CLUST_BAD);
      if Accepted(t0, ask) {
        ScanClean(t0, ask, table, heads);
      } else if Clean(table, heads) {
        ScanCleanOnlyIf(t0, ask, table, heads);
      }
    }

    lemma Sizes()
      requires Valid()
      ensures |table| == |heads| == numClusters <= CLUST_RSRVD && Readable(table)
      ensures count == HeadCount(heads, numClusters)
    {
    }

    // The body of the loop.
    method ScanCluster(cl: nat, ask: nat -> bool, ghost t0: Table) returns (changed: bool)
      requires Valid() && ValidNumber(cl) && Scanned(t0, ask, table, heads, cl)
      modifies this, fatbuf, bits
      ensures Valid()
      ensures table == if Faulty(t0, old(table), cl) && ask(cl) then old(table)[cl := CLUST_EOF] else old(table)
      ensures forall c | ValidCl(table, c) :: heads[c] <==>
        old(heads)[c] && table[cl] != c && !(c == cl && Marked(t0[cl]))
      ensures numFree == old(numFree) + (if t0[cl] == CLUST_FREE then 1 else 0)
      ensures numBad == old(numBad) + (if t0[cl] == CLUST_BAD then 1 else 0)
      ensures fsNext == if old(fsNext) == 0 && t0[cl] == CLUST_FREE then cl else old(fsNext)
      ensures changed <==> table[cl] != t0[cl]
    {
      hide Valid, Scanned, Taken;
      Sizes();
      ScanFacts(t0, ask, table, heads, cl);
      var nextcl := GetNext(cl);
      changed := false;
      if nextcl == CLUST_FREE || nextcl == CLUST_BAD {
        if nextcl == CLUST_FREE && fsNext == 0 {
          fsNext := cl;
        }
        var head := IsHead(cl);
        if head {
          ClearHead(cl);
        }
        if nextcl == CLUST_FREE {
          numFree := numFree + 1;
        } else {
          numBad := numBad + 1;
        }
      } else if !ValidNumber(nextcl) && nextcl < CLUST_RSRVD {
        if ask(cl) {
          var _ := SetNext(cl, CLUST_EOF);
          changed := true;
        }
      } else if ValidNumber(nextcl) {
        var head := IsHead(nextcl);
        if head {
          ClearHead(nextcl);
        } else if ask(cl) {
          var _ := SetNext(cl, CLUST_EOF);
          changed := true;
        }
      }
    }

    // ---- checkchain and clearchain ------------------------------------------------------

    // q is the chain that starts at head; ask is the answer to the one question that may be asked.
    method CheckChain(head: nat, ask: bool, ghost q: seq<nat>) returns (ret: Ret, chainsize: int)
      requires Valid() && ValidNumber(head) && heads[head] && IsChain(table, q) && q[0] == head
      modifies this`table, this`heads, this`count, fatbuf, bits
      ensures Valid() && heads == old(heads)[head := false] && chainsize == Kept(old(table), q)
      ensures if Ending(old(table), q) == AtEnd then ret == FsOk && table == old(table)
        else if ask then ret == FsFatMod && table == Truncated(old(table), q)
        else ret == FsError && table == old(table)
      ensures var t, last := old(table), old(table)[q[|q| - 1]];
        && chainsize == (if last == CLUST_FREE || CLUST_RSRVD <= last < CLUST_EOFS then |q| - 1 else |q|)
        && (ret == FsOk <==> last >= CLUST_EOFS) && (ret == FsFatMod <==> last < CLUST_EOFS && ask)
        && table == if ret != FsFatMod then t
          else if chainsize == 0 then t[q[0] := CLUST_FREE] else t[q[chainsize - 1] := CLUST_EOF]
    {
      hide Valid;
      Sizes();
      ClearHead(head);
      Sizes();
      chainsize := 0;
      var prev, current := head, head;
      var next := GetNext(current);
      ghost var i := 0;
      ChainLink(table, q, 0);
      while ValidNumber(next)
        invariant Valid() && table == old(table) && |table| == numClusters && heads == old(heads)[head := false]
        invariant 0 <= i < |q| && current == q[i] && prev == q[if i == 0 then 0 else i - 1] && next == table[current]
          && chainsize == i
        invariant ValidNumber(next) <==> i < |q| - 1
        decreases |q| - i
      {
        ChainLink(table, q, i);
        ChainLink(table, q, i + 1);
        chainsize := chainsize + 1;
        prev := current;
        current := next;
        next := GetNext(current);
        i := i + 1;
      }
      if next >= CLUST_EOFS {
        return FsOk, chainsize + 1;
      }
      if next == CLUST_FREE || next >= CLUST_RSRVD {
        current := prev;
      } else {
        chainsize := chainsize + 1;
      }
      if chainsize > 0 {
        next := CLUST_EOF;
      } else {
        next := CLUST_FREE;
      }
      if ask {
        var _ := SetNext(current, next);
        ret := FsFatMod;
      } else {
        ret := FsError;
      }
    }

    // p is the chain to clear, empty when head is not a valid cluster.
    method ClearChain(head: nat, ghost p: seq<nat>)
      requires Valid() && if ValidNumber(head) then IsChain(table, p) && p[0] == head else p == []
      modifies this`table, this`numFree, fatbuf
      ensures Valid() && table == Freed(old(table), p) && numFree == old(numFree) + |p|
    {
      hide Valid;
      Sizes();
      var current := head;
      ghost var t, i := table, 0;
      assert Freed(t, p[..0]) == t;
      if p != [] {
        ChainDistinct(t, p);
      }
      while ValidNumber(current)
        invariant Valid() && |table| == numClusters && 0 <= i <= |p| && numFree == old(numFree) + i
        invariant i < |p| ==> current == p[i]
        invariant i == |p| ==> !ValidNumber(current)
        invariant table == Freed(t, p[..i])
        decreases |p| - i
      {
        FreedStep(t, p, i);
        var next := GetNext(current);
        assert next == t[p[i]] by { assert p[i] !in p[..i]; }
        var _ := SetNext(current, CLUST_FREE);
        Sizes();
        numFree := numFree + 1;
        current := next;
        i := i + 1;
      }
      assert p[..i] == p;
    }

    // Between two steps of the check: a clean table, and counters that agree with it.
    ghost predicate Settled()
      reads this`table, this`heads, this`count, this`numFree, this`numBad, fatbuf, bits
    {
      && Valid() && Clean(table, heads)
      && numFree == Count(table, numClusters, CLUST_FREE) && numBad == Count(table, numClusters, CLUST_BAD)
    }

    // ---- checksize -------------------------------------------------------------------------

    // The walk to the last cluster a file of `size` bytes needs; sz is 32 bits wide.
    method LastNeeded(head: nat, size: nat, clusterSize: nat, ghost p: seq<nat>) returns (cl: nat, ghost n: nat)
      requires Valid() && IsChain(table, p) && p[0] == head && 0 < clusterSize < 0x1_0000_0000
        && size + clusterSize <= 0x1_0000_0000
      requires size <= |p| * clusterSize
      ensures 0 < n <= |p| && cl == p[n - 1] && size <= n * clusterSize && (n == 1 || (n - 1) * clusterSize < size)
    {
      hide Valid;
      Sizes();
      cl := head;
      var sz := clusterSize % 0x1_0000_0000;
      n := 1;
      while sz < size
        invariant 0 < n <= |p| && cl == p[n - 1] && sz == n * clusterSize && (n == 1 || (n - 1) * clusterSize < size)
        decreases size - sz
      {
        Scale(n, |p|, clusterSize);
        ChainLink(table, p, n - 1);
        cl := GetNext(cl);
        sz := (sz + clusterSize) % 0x1_0000_0000;
        n := n + 1;
      }
    }

    // "Drop superfluous clusters": p is the chain of the file.
    method Drop(head: nat, size: nat, clusterSize: nat, ghost p: seq<nat>) returns (ghost n: nat)
      requires Settled() && IsChain(table, p) && p[0] == head && table[p[|p| - 1]] >= CLUST_EOFS && !heads[head]
      requires 0 < clusterSize < 0x1_0000_0000 && size + clusterSize <= 0x1_0000_0000 && size <= |p| * clusterSize
      modifies this`table, this`numFree, fatbuf
      ensures Settled() && 0 < n <= |p| && size <= n * clusterSize && (n == 1 || (n - 1) * clusterSize < size)
      ensures table == Dropped(old(table), p, n) && IsChain(table, p[..n]) && table[p[n - 1]] == CLUST_EOF
    {
      hide Valid, Clean;
      Sizes();
      var cl;
      cl, n := LastNeeded(head, size, clusterSize, p);
      DroppedChain(table, heads, p, n);
      DroppedBad(table, p, n);
      ChainLink(table, p, n - 1);
      if n < |p| {
        ChainSuffix(table, p, n);
      }
      var next := GetNext(cl);
      ClearChain(next, p[n..]);
      var _ := SetNext(cl, CLUST_EOF);
      Sizes();
    }

    // The chain that starts at a head.
    ghost method ChainFrom(head: nat) returns (q: seq<nat>)
      requires Valid() && Clean(table, heads) && ValidNumber(head) && heads[head]
      ensures IsChain(table, q) && q[0] == head
    {
      q := ExtendToChain(table, [head]);
    }

    // The second half of checksize: the size against the chain p (empty when there is none).
    method FitSize(dir: DirEntry, chainsize: nat, clusterSize: nat, ask: Answers, ghost p: seq<nat>)
      returns (ret: Ret, dir': DirEntry, ghost p': seq<nat>)
      requires Settled() && 0 < clusterSize < 0x1_0000_0000
      requires FitVerdict(|p|, dir.size, clusterSize, ask) == FsFatMod ==> dir.size + clusterSize <= 0x1_0000_0000
      requires chainsize == |p| && (dir.head == CLUST_FREE <==> p == [])
      requires p != [] ==>
        IsChain(table, p) && p[0] == dir.head && table[p[|p| - 1]] >= CLUST_EOFS && !heads[dir.head]
      modifies this`table, this`numFree, fatbuf
      ensures Settled() && p' <= p && dir'.head == dir.head && dir'.size <= dir.size
      ensures forall i | 0 <= i < numClusters && i !in p :: table[i] == old(table)[i]
      ensures ret == FitVerdict(|p|, dir.size, clusterSize, ask)
      ensures if ret == FsError then dir' == dir else Backed(table, dir', clusterSize, p')
      ensures dir' == if ret == FsDirMod then dir.(size := Space(|p|, clusterSize)) else dir
      ensures ret != FsFatMod ==> p' == p && table == old(table)
    {
      hide Valid, Clean;
      Sizes();
      dir', p' := dir, p;
      var physicalSize := Space(chainsize, clusterSize);
      FitsTight(|p|, clusterSize, dir.size);
      if physicalSize < dir.size {
        if ask.truncate {
          return FsDirMod, dir.(size := physicalSize), p;
        }
        return FsError, dir, p;
      } else if physicalSize - dir.size >= clusterSize {
        if ask.drop {
          ghost var n := Drop(dir.head, dir.size, clusterSize, p);
          return FsFatMod, dir, p[..n];
        }
        return FsError, dir, p;
      }
      ret := FsOk;
    }

    // The loop that drops clusters is started: the entry has a chain of its own, accepted or repaired, that
    // has more clusters than its size needs, and the answer is yes.
    ghost predicate Drops(dir: DirEntry, clusterSize: nat, ask: Answers)
      reads this`table, this`heads
    {
      && ValidNumber(dir.head) && dir.head < |heads| && heads[dir.head]
      && exists q: seq<nat> | IsChain(table, q) && q[0] == dir.head ::
        (Ending(table, q) == AtEnd || ask.chain) && FitVerdict(Kept(table, q), dir.size, clusterSize, ask) == FsFatMod
    }

    lemma DropsWhen(dir: DirEntry, clusterSize: nat, ask: Answers, q: seq<nat>)
      requires ValidNumber(dir.head) && dir.head < |heads| && heads[dir.head] && IsChain(table, q) && q[0] == dir.head
      requires Ending(table, q) == AtEnd || ask.chain
      ensures FitVerdict(Kept(table, q), dir.size, clusterSize, ask) == FsFatMod ==> Drops(dir, clusterSize, ask)
    {
      hide FitVerdict, Ending, Kept, IsChain;
    }

    // checkchain for the entry's own chain q, which is used up to chainsize afterwards.
    method ClaimChain(dir: DirEntry, ghost clusterSize: nat, ask: Answers)
      returns (ret: Ret, chainsize: int, ghost q: seq<nat>)
      requires Settled() && ValidNumber(dir.head) && dir.head < |heads| && heads[dir.head]
      modifies this`table, this`heads, this`count, fatbuf, bits
      ensures Settled() && heads == old(heads)[dir.head := false]
      ensures IsChain(old(table), q) && q[0] == dir.head && chainsize == Kept(old(table), q) && 0 < chainsize <= |q|
      ensures forall i | 0 <= i < numClusters && i !in q :: table[i] == old(table)[i]
      ensures ret == FsError <==> Ending(old(table), q) != AtEnd && !ask.chain
      ensures !ask.chain ==> table == old(table)
      ensures ret != FsError ==> IsChain(table, q[..chainsize]) && table[q[chainsize - 1]] >= CLUST_EOFS
      ensures ret != FsError && FitVerdict(chainsize, dir.size, clusterSize, ask) == FsFatMod ==>
        old(Drops(dir, clusterSize, ask))
    {
      hide Valid, Clean, FitVerdict, Ending, Truncated, Drops, Kept;
      Sizes();
      q := ChainFrom(dir.head);
      if Ending(table, q) == AtEnd || ask.chain {
        DropsWhen(dir, clusterSize, ask, q);
      }
      CheckedClean(table, heads, q);
      ret, chainsize := CheckChain(dir.head, ask.chain, q);
      Sizes();
    }

    // q is the chain of the entry before the check and p the one after it, both empty for an entry
    // without a chain of its own.
    method CheckSize(dir: DirEntry, clusterSize: nat, ask: Answers)
      returns (ret: Ret, dir': DirEntry, ghost q: seq<nat>, ghost p: seq<nat>)
      requires Settled() && 0 < clusterSize < 0x1_0000_0000
      requires Drops(dir, clusterSize, ask) ==> dir.size + clusterSize <= 0x1_0000_0000
      modifies this`table, this`heads, this`count, this`numFree, fatbuf, bits
      ensures Settled()
      ensures if ValidNumber(dir.head) && old(heads)[dir.head]
        then heads == old(heads)[dir.head := false] && IsChain(old(table), q) && q[0] == dir.head && p <= q
        else heads == old(heads) && q == p == []
      ensures forall i | 0 <= i < numClusters && i !in q :: table[i] == old(table)[i]
      ensures if ret == FsError then dir' == dir else Backed(table, dir', clusterSize, p)
      ensures dir'.size <= dir.size && (dir'.head == dir.head || dir' == DirEntry(CLUST_FREE, 0))
      ensures if dir.head != CLUST_FREE && q == [] then
          ret == if ask.invalid then FsDirMod else FsError
        else if q != [] && Ending(old(table), q) != AtEnd && !ask.chain then ret == FsError
        else
          var n := if q == [] then 0 else Kept(old(table), q);
          && (ret == FsDirMod <==> n * clusterSize < dir.size && ask.truncate)
          && (ret == FsFatMod <==> n * clusterSize >= dir.size + clusterSize && ask.drop)
          && (ret == FsOk <==> dir.size <= n * clusterSize < dir.size + clusterSize)
          && dir'.size == (if ret == FsDirMod then |p| * clusterSize else dir.size)
          && (ret != FsFatMod ==> |p| == n)
      ensures ask.invalid && ask.chain && ask.truncate && ask.drop ==> ret != FsError
      ensures dir' != dir ==> if dir'.head != dir.head then ask.invalid else ask.truncate
      ensures table != old(table) ==> ask.chain || ask.drop
    {
      hide Valid, Clean, FitVerdict, Space, Ending, Truncated, Drops, Kept;
      Sizes();
      q, p := [], [];
      FitVerdicts(dir.size, clusterSize, ask);
      NothingToDrop(dir.size, clusterSize, ask);
      var chainsize := 0;
      if dir.head != CLUST_FREE {
        var mine := ValidNumber(dir.head);
        if mine {
          mine := IsHead(dir.head);
        }
        if !mine {
          if ask.invalid {
            return FsDirMod, DirEntry(CLUST_FREE, 0), q, p;
          }
          return FsError, dir, q, p;
        }
        ret, chainsize, q := ClaimChain(dir, clusterSize, ask);
        Sizes();
        p := q[..chainsize];
        if ret == FsError {
          return FsError, dir, q, p;
        }
      }
      ret, dir', p := FitSize(dir, chainsize, clusterSize, ask, p);
      Sizes();
    }

    // ---- checklost ------------------------------------------------------------------------

    // One lost chain. fatal ends the whole check; fatmod is what is reported as a change of the FAT.
    method LostChain(head: nat, lost: Lost, ghost q: seq<nat>) returns (fatal: bool, fatmod: bool)
      requires Valid() && Clean(table, heads) && ValidNumber(head) && heads[head] && IsChain(table, q) && q[0] == head
      modifies this`table, this`heads, this`count, this`numFree, fatbuf, bits
      ensures Valid() && Clean(table, heads) && heads == old(heads)[head := false]
      ensures table == Outcome(old(table), q, ChoiceOf(old(table), q, lost)) && count == old(count) - 1
      ensures fatal == (Sound(old(table), q, ChoiceOf(old(table), q, lost))
        && lost.reconnect(head, Kept(old(table), q)) == FsFatal)
      ensures fatmod == Cleared(old(table), q, ChoiceOf(old(table), q, lost))
      ensures numFree - Count(table, numClusters, CLUST_FREE) ==
        old(numFree - Count(table, numClusters, CLUST_FREE)) + Drift(old(table), q, ChoiceOf(old(table), q, lost),
          CLUST_FREE)
      ensures Count(table, numClusters, CLUST_BAD) ==
        old(Count(table, numClusters, CLUST_BAD)) - Drift(old(table), q, ChoiceOf(old(table), q, lost), CLUST_BAD)
    {
      hide Valid, Clean, Freed, Count;
      Sizes();
      ghost var t, c := table, ChoiceOf(table, q, lost);
      OutcomeClean(t, heads, q, c);
      CheckedClean(t, heads, q);
      HeadCountClear(heads, numClusters, head);
      var ret, chainlength := CheckChain(head, lost.truncate(head), q);
      Sizes();
      assert Sound(t, q, c) <==> ret != FsError;
      assert table == if c.truncate then Truncated(t, q) else t;
      fatal, fatmod := false, false;
      if ret != FsError && chainlength > 0 {
        ret := lost.reconnect(head, chainlength);
        fatal := ret == FsFatal;
      }
      if fatal {
        return;
      }
      if ret == FsError && lost.clear(head) {
        ClearChain(head, if Sound(t, q, c) then q[..Kept(t, q)] else q);
        fatmod := true;
      }
      Sizes();
    }

    // Every head bit still set starts a lost chain. n is where the walk ended.
    method CheckLost(lost: Lost) returns (fatal: bool, fatmod: bool, ghost chains: map<nat, seq<nat>>, ghost n: nat)
      requires Settled()
      modifies this`table, this`heads, this`count, this`numFree, fatbuf, bits
      ensures Valid() && Clean(table, heads) && (!fatal ==> n >= numClusters)
      ensures LostUpTo(old(table), old(heads), lost, table, heads, chains, n)
      ensures LostAccount(old(table), lost, table, chains, n, numFree, numBad, fatmod)
      ensures forall c | c in chains :: Fate(old(table), table, chains[c], lost)
      ensures (forall h :: lost.truncate(h)) ==> Settled()
    {
      hide Valid, Clean, LostUpTo, LostAccount, Count;
      Sizes();
      ghost var t0, h0 := table, heads;
      var remaining := count;
      fatal, fatmod, chains := false, false, map[];
      var head := CLUST_FIRST;
      LostStart(t0, h0, lost, numFree, numBad);
      while remaining > 0 && head < numClusters && !fatal
        invariant Valid() && Clean(table, heads) && |table| == |heads| == numClusters && CLUST_FIRST <= head
        invariant remaining == count == HeadCount(heads, numClusters)
        invariant LostUpTo(t0, h0, lost, table, heads, chains, head)
        invariant LostAccount(t0, lost, table, chains, head, numFree, numBad, fatmod)
        decreases numClusters - head
      {
        Sizes();
        var some := true;
        if head % LONG_BIT == 0 {
          some := IsHeadInRange(head);
        }
        if !some {
          LostSkip(t0, h0, lost, table, heads, chains, head, head + LONG_BIT, numFree, numBad, fatmod);
          head := head + LONG_BIT;
        } else {
          var isHead := IsHead(head);
          if isHead {
            fatal, fatmod, chains := LostHead(head, lost, t0, h0, chains, fatmod);
            remaining := remaining - 1;
          } else {
            LostSkip(t0, h0, lost, table, heads, chains, head, head + 1, numFree, numBad, fatmod);
          }
          head := head + 1;
        }
      }
      n := head;
      Sizes();
      if !fatal && head < numClusters {
        NoHeads(heads, numClusters);
        LostSkip(t0, h0, lost, table, heads, chains, head, numClusters, numFree, numBad, fatmod);
        n := numClusters;
      }
      NoDriftIf(t0, lost, table, chains, n, numFree, numBad, fatmod);
      LostFates(t0, h0, lost, table, heads, chains, n);
    }

    // The body of the loop at a head.
    method LostHead(head: nat, lost: Lost, ghost t0: Table, ghost h0: seq<bool>, ghost chains: map<nat, seq<nat>>,
        fatmod: bool)
      returns (fatal: bool, fatmod': bool, ghost chains': map<nat, seq<nat>>)
      requires Valid() && Clean(table, heads) && Clean(t0, h0) && ValidNumber(head) && heads[head]
      requires LostUpTo(t0, h0, lost, table, heads, chains, head)
      requires LostAccount(t0, lost, table, chains, head, numFree, numBad, fatmod)
      modifies this`table, this`heads, this`count, this`numFree, fatbuf, bits
      ensures Valid() && Clean(table, heads) && |table| == |heads| == numClusters
      ensures count == old(count) - 1 == HeadCount(heads, numClusters)
      ensures LostUpTo(t0, h0, lost, table, heads, chains', head + 1)
      ensures LostAccount(t0, lost, table, chains', head + 1, numFree, numBad, fatmod')
    {
      hide Valid, Clean, LostUpTo, LostAccount, Count, Outcome, Drift, Cleared;
      Sizes();
      ghost var t, free, bad := table, numFree, numBad;
      ghost var q := ChainFrom(head);
      LostNext(t0, h0, lost, t, heads, chains, head, q);
      var cleared;
      fatal, cleared := LostChain(head, lost, q);
      Sizes();
      fatmod', chains' := fatmod || cleared, chains[head := q];
      LostCount(t0, lost, t, chains, head, q, free, bad, fatmod, table, numFree, cleared);
    }
  }

  // What became of a lost chain, said of its clusters: it is given up, or it stays and perhaps ends earlier.
  ghost predicate Fate(t0: Table, t: Table, q: seq<nat>, lost: Lost)
    requires IsChain(t0, q) && |t| == |t0|
  {
    var last := t0[q[|q| - 1]];
    var k := if last >= CLUST_EOFS then |q| else |q| - 1;
    var sound := last >= CLUST_EOFS || lost.truncate(q[0]);
    var gone := lost.clear(q[0]) && (!sound || lost.reconnect(q[0], k) == FsError);
    forall i | 0 <= i < |q| ::
      t[q[i]] == if gone && (i < k || !sound) then CLUST_FREE
        else if !gone && k < |q| && lost.truncate(q[0]) && i == k - 1 then CLUST_EOF else t0[q[i]]
  }

  lemma LostFate(t0: Table, h0: seq<bool>, lost: Lost, t: Table, q: seq<nat>)
    requires Clean(t0, h0) && IsChain(t0, q) && h0[q[0]] && |t| == |t0| && Resolved(t0, t, q, lost)
    ensures Fate(t0, t, q, lost)
  {
    hide Clean, Outcome, Kept, Ending;
    OutcomeIs(t0, h0, q, ChoiceOf(t0, q, lost));
  }

  lemma LostFates(t0: Table, h0: seq<bool>, lost: Lost, t: Table, heads: seq<bool>, chains: map<nat, seq<nat>>, n: nat)
    requires Clean(t0, h0) && LostUpTo(t0, h0, lost, t, heads, chains, n)
    ensures forall c | c in chains :: Fate(t0, t, chains[c], lost)
  {
    hide Clean, Outcome, Kept, Ending, Resolved, Fate;
    forall c | c in chains ensures Fate(t0, t, chains[c], lost) {
      LostFate(t0, h0, lost, t, chains[c]);
    }
  }

  lemma LostStart(t0: Table, h0: seq<bool>, lost: Lost, numFree: int, numBad: int)
    requires |t0| == |h0|
    requires numFree == Count(t0, |t0|, CLUST_FREE) && numBad == Count(t0, |t0|, CLUST_BAD)
    ensures LostUpTo(t0, h0, lost, t0, h0, map[], CLUST_FIRST)
    ensures LostAccount(t0, lost, t0, map[], CLUST_FIRST, numFree, numBad, false)
  {
    SkipDrift(t0, lost, map[], 0, CLUST_FIRST, CLUST_FREE);
    SkipDrift(t0, lost, map[], 0, CLUST_FIRST, CLUST_BAD);
  }

  // Clusters that are no heads are passed over.
  lemma LostSkip(t0: Table, h0: seq<bool>, lost: Lost, t: Table, heads: seq<bool>, chains: map<nat, seq<nat>>, m: nat,
      n: nat, numFree: int, numBad: int, fatmod: bool)
    requires LostUpTo(t0, h0, lost, t, heads, chains, m) && CLUST_FIRST <= m <= n
    requires LostAccount(t0, lost, t, chains, m, numFree, numBad, fatmod)
    requires forall c | m <= c < n && c < |heads| :: !heads[c]
    ensures LostUpTo(t0, h0, lost, t, heads, chains, n)
    ensures LostAccount(t0, lost, t, chains, n, numFree, numBad, fatmod)
  {
    hide Resolved, Cleared, Count, Drift;
    SkipDrift(t0, lost, chains, m, n, CLUST_FREE);
    SkipDrift(t0, lost, chains, m, n, CLUST_BAD);
  }

  lemma {:induction false} SkipDrift(t0: Table, lost: Lost, chains: map<nat, seq<nat>>, m: nat, n: nat, v: nat)
    requires m <= n && forall c | c in chains :: IsChain(t0, chains[c]) && c < m
    ensures TotalDrift(t0, lost, chains, n, v) == TotalDrift(t0, lost, chains, m, v)
  {
    if m < n {
      SkipDrift(t0, lost, chains, m, n - 1, v);
    }
  }

  // The chain of the next head is still as it was at the start.
  lemma LostIntact(t0: Table, h0: seq<bool>, lost: Lost, t: Table, heads: seq<bool>, chains: map<nat, seq<nat>>,
      head: nat, q: seq<nat>)
    requires LostUpTo(t0, h0, lost, t, heads, chains, head) && Clean(t0, h0)
    requires ValidCl(t, head) && heads[head] && IsChain(t, q) && q[0] == head
    ensures IsChain(t0, q) && forall i | 0 <= i < |q| :: t[q[i]] == t0[q[i]]
    ensures forall c | c in chains :: forall i | 0 <= i < |q| :: q[i] !in chains[c]
  {
    hide Resolved;
    var p := ExtendToChain(t0, [head]);
    forall c, i | c in chains && 0 <= i < |p| ensures p[i] !in chains[c] {
      LostApart(t0, h0, p, chains[c], i);
    }
    OtherChain(t0, t, p);
    ChainUnique(t, p, q);
  }

  lemma LostApart(t0: Table, h0: seq<bool>, p: seq<nat>, q: seq<nat>, i: nat)
    requires Clean(t0, h0) && IsChain(t0, p) && IsChain(t0, q) && h0[p[0]] && h0[q[0]] && p[0] != q[0] && i < |p|
    ensures p[i] !in q
  {
    if p[i] in q {
      var j :| 0 <= j < |q| && q[j] == p[i];
      ChainsDisjoint(t0, p, q, i, j);
    }
  }

  // What another chain's settling leaves alone stays resolved.
  lemma ResolvedStill(t0: Table, t: Table, t': Table, p: seq<nat>, q: seq<nat>, lost: Lost)
    requires IsChain(t0, p) && |t'| == |t| == |t0| && Resolved(t0, t, p, lost)
    requires (forall i | 0 <= i < |t| && i !in q :: t'[i] == t[i]) && forall i | 0 <= i < |p| :: p[i] !in q
    ensures Resolved(t0, t', p, lost)
  {
  }

  // The chain of the next head, settled.
  lemma ResolvedNow(t0: Table, t: Table, q: seq<nat>, lost: Lost)
    requires IsChain(t0, q) && IsChain(t, q) && |t| == |t0| && forall i | 0 <= i < |q| :: t[q[i]] == t0[q[i]]
    ensures ChoiceOf(t0, q, lost) == ChoiceOf(t, q, lost)
    ensures Resolved(t0, Outcome(t, q, ChoiceOf(t, q, lost)), q, lost)
    ensures forall i | 0 <= i < |t| && i !in q :: Outcome(t, q, ChoiceOf(t, q, lost))[i] == t[i]
  {
    hide Outcome;
    OutcomeLocal(t, t0, q, ChoiceOf(t, q, lost));
  }

  // Settling the chain of the next head.
  lemma LostNext(t0: Table, h0: seq<bool>, lost: Lost, t: Table, heads: seq<bool>, chains: map<nat, seq<nat>>,
      head: nat, q: seq<nat>)
    requires LostUpTo(t0, h0, lost, t, heads, chains, head) && Clean(t0, h0)
    requires ValidCl(t, head) && heads[head] && IsChain(t, q) && q[0] == head
    ensures IsChain(t0, q) && ChoiceOf(t0, q, lost) == ChoiceOf(t, q, lost)
    ensures |t| == |t0| && (forall i | 0 <= i < |q| :: t[q[i]] == t0[q[i]]) && forall c | c in chains :: c < head
    ensures LostUpTo(t0, h0, lost, Outcome(t, q, ChoiceOf(t, q, lost)), heads[head := false], chains[head := q],
      head + 1)
  {
    hide Clean, Outcome, Resolved, Truncated, Freed, ChoiceOf;
    LostIntact(t0, h0, lost, t, heads, chains, head, q);
    ResolvedNow(t0, t, q, lost);
    var t', chains' := Outcome(t, q, ChoiceOf(t, q, lost)), chains[head := q];
    forall d | d in chains' ensures Resolved(t0, t', chains'[d], lost) {
      if d != head {
        ResolvedStill(t0, t, t', chains[d], q, lost);
      }
    }
    forall i | 0 <= i < |t| && (forall d | d in chains' :: i !in chains'[d]) ensures t'[i] == t0[i] {
      assert i !in chains'[head];
      forall d | d in chains ensures i !in chains[d] {
        assert i !in chains'[d];
      }
    }
  }

  lemma LostCount(t0: Table, lost: Lost, t: Table, chains: map<nat, seq<nat>>, head: nat, q: seq<nat>, numFree: int,
      numBad: int, fatmod: bool, t': Table, numFree': int, cleared: bool)
    requires LostAccount(t0, lost, t, chains, head, numFree, numBad, fatmod) && (forall c | c in chains :: c < head)
      && |t'| == |t| == |t0|
    requires IsChain(t0, q) && IsChain(t, q) && ChoiceOf(t0, q, lost) == ChoiceOf(t, q, lost)
      && forall i | 0 <= i < |q| :: t[q[i]] == t0[q[i]]
    requires var c := ChoiceOf(t, q, lost);
      && numFree' - Count(t', |t|, CLUST_FREE) == numFree - Count(t, |t|, CLUST_FREE) + Drift(t, q, c, CLUST_FREE)
      && Count(t', |t|, CLUST_BAD) == Count(t, |t|, CLUST_BAD) - Drift(t, q, c, CLUST_BAD)
      && cleared == Cleared(t, q, c)
    ensures LostAccount(t0, lost, t', chains[head := q], head + 1, numFree', numBad, fatmod || cleared)
  {
    hide Count;
    var c, chains' := ChoiceOf(t, q, lost), chains[head := q];
    DriftFrame(t0, lost, chains, chains', head, CLUST_FREE);
    DriftFrame(t0, lost, chains, chains', head, CLUST_BAD);
    if fatmod {
      var d :| d in chains && Cleared(t0, chains[d], ChoiceOf(t0, chains[d], lost));
      assert chains'[d] == chains[d];
    }
    if cleared {
      assert chains'[head] == q;
    }
  }

  lemma {:induction false} DriftFrame(t0: Table, lost: Lost, chains: map<nat, seq<nat>>, chains': map<nat, seq<nat>>,
      n: nat, v: nat)
    requires (forall c | c in chains :: IsChain(t0, chains[c]))
      && (forall c | c in chains' :: IsChain(t0, chains'[c]))
    requires forall c: nat | c < n :: (c in chains <==> c in chains') && (c in chains ==> chains[c] == chains'[c])
    ensures TotalDrift(t0, lost, chains', n, v) == TotalDrift(t0, lost, chains, n, v)
  {
    if n > 0 {
      DriftFrame(t0, lost, chains, chains', n - 1, v);
    }
  }

  lemma {:induction false} NoDrift(t0: Table, lost: Lost, chains: map<nat, seq<nat>>, n: nat, v: nat)
    requires forall c | c in chains :: IsChain(t0, chains[c])
    requires forall h :: lost.truncate(h)
    ensures TotalDrift(t0, lost, chains, n, v) == 0
  {
    if n > 0 {
      NoDrift(t0, lost, chains, n - 1, v);
    }
  }

  lemma NoDriftIf(t0: Table, lost: Lost, t: Table, chains: map<nat, seq<nat>>, n: nat, numFree: int, numBad: int,
      fatmod: bool)
    requires LostAccount(t0, lost, t, chains, n, numFree, numBad, fatmod)
    ensures (forall h :: lost.truncate(h)) ==>
      numFree == Count(t, |t|, CLUST_FREE) && numBad == Count(t, |t|, CLUST_BAD)
  {
    if forall h :: lost.truncate(h) {
      NoDrift(t0, lost, chains, n, CLUST_FREE);
      NoDrift(t0, lost, chains, n, CLUST_BAD);
    }
  }

  lemma {:induction false} NoHeads(heads: seq<bool>, n: nat)
    requires n <= |heads| && HeadCount(heads, n) == 0
    ensures forall i | 0 <= i < n :: !heads[i]
  {
    if n > 0 {
      NoHeads(heads, n - 1);
    }
  }

  // TruncatedChain once the head bit is cleared.
  lemma CheckedClean(t: Table, heads: seq<bool>, q: seq<nat>)
    requires Clean(t, heads) && IsChain(t, q) && heads[q[0]]
    ensures var h := heads[q[0] := false]; Clean(t, h) && Clean(Truncated(t, q), h)
    ensures var t' := Truncated(t, q); var p := q[..Kept(t, q)];
      p != [] && IsChain(t', p) && t'[p[|p| - 1]] >= CLUST_EOFS && Kept(t, q) <= |q|
      && (Ending(t, q) == AtEnd ==> t' == t && p == q)
    ensures forall v | v == CLUST_FREE || v == CLUST_BAD :: Count(Truncated(t, q), |t|, v) == Count(t, |t|, v)
    ensures forall i | 0 <= i < |t| && i !in q :: Truncated(t, q)[i] == t[i]
  {
    TruncatedChain(t, heads, q);
    ClearHeadKeepsClean(t, heads, q[0]);
    ClearHeadKeepsClean(Truncated(t, q), heads, q[0]);
  }

  // The entry's chain is p, it ends in an end mark, and it is as long as the file size needs.
  ghost predicate Backed(t: Table, dir: DirEntry, clusterSize: nat, p: seq<nat>) {
    if dir.head == CLUST_FREE then dir.size == 0 && p == []
    else
      && IsChain(t, p) && p[0] == dir.head && t[p[|p| - 1]] >= CLUST_EOFS
      && dir.size <= |p| * clusterSize && (|p| == 1 || (|p| - 1) * clusterSize < dir.size)
  }

  // The bytes n clusters hold.
  function Space(n: nat, clusterSize: nat): nat {
    n * clusterSize
  }

  // How the size of an entry compares with its n clusters, and what is done about it.
  function FitVerdict(n: nat, size: nat, clusterSize: nat, ask: Answers): Ret {
    if Space(n, clusterSize) < size then (if ask.truncate then FsDirMod else FsError)
    else if Space(n, clusterSize) >= size + clusterSize then (if ask.drop then FsFatMod else FsError)
    else FsOk
  }

  lemma FitVerdicts(size: nat, clusterSize: nat, ask: Answers)
    ensures forall n: nat {:trigger FitVerdict(n, size, clusterSize, ask)} ::
      var ret := FitVerdict(n, size, clusterSize, ask);
      && (ret == FsDirMod <==> n * clusterSize < size && ask.truncate)
      && (ret == FsFatMod <==> n * clusterSize >= size + clusterSize && ask.drop)
      && (ret == FsOk <==> size <= n * clusterSize < size + clusterSize)
      && (ret == FsError ==> !ask.truncate || !ask.drop) && Space(n, clusterSize) == n * clusterSize
  {
  }

  lemma NothingToDrop(size: nat, clusterSize: nat, ask: Answers)
    requires clusterSize > 0
    ensures FitVerdict(0, size, clusterSize, ask) != FsFatMod
  {
  }

  lemma FitsTight(n: nat, clusterSize: nat, size: nat)
    requires clusterSize > 0
    ensures n > 0 ==> (n - 1) * clusterSize == n * clusterSize - clusterSize
    ensures n * clusterSize - size >= clusterSize ==> n > 0
  {
  }

  // readfat, for a FAT that is in memory: everything later steps rely on holds if and only if the questions
  // that matter were answered yes.
  method ReadFat(width: Width, numClusters: nat, fatbuf: array<Byte>, fsNext: nat, ask: nat -> bool)
    returns (fat: FatDescriptor, modified: bool)
    requires CLUST_FIRST <= numClusters <= Limit(width) - 8 && Holds(width, fatbuf.Length, numClusters)
    modifies fatbuf
    ensures fresh(fat) && fresh(fat.bits) && fat.fatbuf == fatbuf && fat.Valid()
    ensures fat.width == width && fat.numClusters == numClusters
    ensures var t0 := Decoded(width, old(fatbuf[..]), numClusters);
      && Scanned(t0, ask, fat.table, fat.heads, numClusters) && FreeHint(t0, numClusters, fsNext, fat.fsNext)
      && (fat.Settled() <==> Accepted(t0, ask))
    ensures modified <==> fat.table != Decoded(width, old(fatbuf[..]), numClusters)
  {
    hide Scanned, Accepted, Clean, FreeHint, Count, Get, Holds, FatDescriptor.Valid;
    fat := new FatDescriptor(width, numClusters, fatbuf, fsNext);
    ghost var t0 := fat.table;
    fat.Sizes();
    modified := fat.Scan(ask);
    fat.Sizes();
    ScanChanges(t0, ask, fat.table, fat.heads);
  }

  // The values that FAT entries of the three widths hold for free, bad and last clusters.
  lemma MarksAre(w: Width, v: nat)
    requires v < Limit(w)
    ensures Widen(w, v) == CLUST_FREE <==> v == 0
    ensures var bad := match w case Fat12 => 0xff7 case Fat16 => 0xfff7 case Fat32 => 0xfff_fff7;
      && (Widen(w, v) == CLUST_BAD <==> v == bad) && (Widen(w, v) >= CLUST_EOFS <==> v > bad)
      && (Widen(w, v) == CLUST_EOF <==> v == bad + 8)
  {
  }
}
