// The layout the formatter computes against the size test of the checker.
module FatLayout {
  import opened Arithmetic
  import opened FatEntry

  const RESFTE: nat := 2
  const MAXSPC: nat := 128

  // What the layout starts from: bytes per sector, FAT width, number of FATs, sectors per cluster,
  // reserved sectors and root directory sectors, and the size of the volume in sectors.
  datatype Geometry = Geometry(bps: nat, fat: Width, fats: nat, spc: nat, res: nat, rds: nat, huge: nat)

  predicate Legal(g: Geometry) {
    && (g.bps == 512 || g.bps == 1024 || g.bps == 2048 || g.bps == 4096)
    && 1 <= g.fats <= 16 && 1 <= g.spc <= MAXSPC && g.huge < 0x1_0000_0000
  }

  // Nibbles per FAT entry.
  function Nibbles(f: Width): nat {
    match f case Fat12 => 3 case Fat16 => 4 case Fat32 => 8
  }

  function MaxClusters(f: Width): nat {
    match f case Fat12 => 0xff4 case Fat16 => 0xfff4 case Fat32 => 0xffffff4
  }

  function MinClusters(f: Width): nat {
    match f case Fat12 => 1 case Fat16 => 0xff5 case Fat32 => 0xfff5
  }

  // The numbers of clusters of the types adjoin, and cluster numbers of all of them are below the reserved values.
  lemma ClusterRanges(f: Width)
    ensures MinClusters(Fat12) == 1 && MinClusters(Fat16) == MaxClusters(Fat12) + 1
    ensures MinClusters(Fat32) == MaxClusters(Fat16) + 1
    ensures MaxClusters(f) + RESFTE == Limit(f) - 10
  {
  }

  function HowMany(x: nat, y: nat): nat
    requires y > 0
  {
    (x + y - 1) / y
  }

  // The checker's number of entries in a FAT of so many sectors.
  function FatEntries(g: Geometry, secs: nat): nat {
    match g.fat case Fat12 => secs * g.bps * 2 / 3 case Fat16 => secs * g.bps / 2 case Fat32 => secs * g.bps / 4
  }

  // The first sector of the data area behind FATs of so many sectors.
  function FirstCluster(g: Geometry, secs: nat): nat {
    g.rds + g.res + g.fats * secs
  }

  // The clusters in so many sectors.
  function Clusters(g: Geometry, sectors: int): int
    requires g.spc > 0
  {
    sectors / g.spc
  }

  // The checker's number of clusters.
  function CheckedClusters(g: Geometry, secs: nat, huge: nat): int
    requires g.spc > 0
  {
    Clusters(g, huge - FirstCluster(g, secs))
  }

  // ---- the formatter's choice of the FAT size, for a sectors left after one for each FAT ----

  // The clusters that fit together with their entries in all FATs.
  function Estimate(g: Geometry, a: nat): nat
    requires g.spc * g.bps > 0
  {
    a * (g.bps * 2) / (g.spc * (g.bps * 2) + Nibbles(g.fat) * g.fats)
  }

  // The entries needed for them, but no more than the FAT type allows.
  function Needed(g: Geometry, x: nat): nat {
    RESFTE + (if x < MaxClusters(g.fat) then x else MaxClusters(g.fat))
  }

  function FatSize(g: Geometry, m: nat): nat
    requires g.bps > 0
  {
    HowMany(m * Nibbles(g.fat), g.bps * 2)
  }

  // The entries in a FAT of that size.
  function Capacity(g: Geometry, secs: nat): nat {
    secs * (g.bps * 2) / Nibbles(g.fat)
  }

  datatype Layout = TooSmall | TooFew | Made(secs: nat, huge: nat, clusters: nat)

  // ---- arithmetic -------------------------------------------------------------------

  lemma DivBounds(x: nat, d: nat)
    requires d > 0
    ensures x / d * d <= x < (x / d + 1) * d
  {
  }

  // s nibbles per sector, w per entry; a sectors are left after one sector for each of n FATs. Of the x
  // clusters that fit with their entries, at most x + 2 really do when n is at most twice c.
  lemma ClustersFit(a: nat, s: nat, w: nat, n: nat, c: nat, x: nat, f: nat)
    requires s > 0 && a * s < (x + 1) * (c * s + w * n) && f * s >= (x + 2) * w && f > 0 && n <= 2 * c
    ensures a - (f - 1) * n < (x + 3) * c
  {
    Regroup(x + 2, w, n);
    MulLe((x + 2) * w, f * s, n);
    MulLe(n, 2 * c, s);
    Regroup(2, c, s);
    Spread(a * s, f * s * n, n * s, c * s, w * n, x);
    LeftOver(a, f, n, s);
    Regroup(x + 3, c, s);
    CancelLt(a - (f - 1) * n, (x + 3) * c, s);
  }

  lemma Regroup(a: int, b: int, c: int)
    ensures a * b * c == a * (b * c)
  {
  }

  // Linear once the products are numbers: as is a * s, and so on.
  lemma Spread(as_: nat, fsn: nat, ns: nat, p: nat, q: nat, x: nat)
    requires as_ < (x + 1) * (p + q) && fsn >= (x + 2) * q && ns <= 2 * p
    ensures as_ - fsn + ns < (x + 3) * p
  {
  }

  lemma LeftOver(a: nat, f: nat, n: nat, s: nat)
    ensures (a - (f - 1) * n) * s == a * s - f * s * n + n * s
  {
  }

  // The FATs leave room: they do not run past the end of the volume.
  lemma FatsFit(a: nat, s: nat, w: nat, n: nat, c: nat, x: nat, m: nat, f: nat)
    requires s >= 1024 && 3 <= w <= 8 && 1 <= n <= 16 && c >= 1 && x * (c * s + w * n) <= a * s && m <= x + 2
    requires f > 0 && (f - 1) * s < m * w
    ensures (f - 1) * n <= a
  {
    if f > 1 {
      ManyClusters(f, s, w, m, x);
      FatNibbles(f, s, w, n, m, x);
      Sizes(s, w, n, c);
      RoomSectors(a, s, c * s, w * n, x, (f - 1) * n);
    }
  }

  lemma RoomSectors(a: nat, s: nat, p: int, q: int, x: nat, k: int)
    requires s > 0 && x * (p + q) <= a * s && k * s <= (x + 2) * q && q <= 128 && p >= 1024 && x >= 126
    ensures k <= a
  {
  }

  lemma Sizes(s: nat, w: nat, n: nat, c: nat)
    requires s >= 1024 && w <= 8 && n <= 16 && c >= 1
    ensures w * n <= 128 && c * s >= 1024
  {
  }

  // More than one sector of entries is more than 128 of them.
  lemma ManyClusters(f: nat, s: nat, w: nat, m: nat, x: nat)
    requires f > 1 && s >= 1024 && 3 <= w <= 8 && (f - 1) * s < m * w && m <= x + 2
    ensures x >= 126
  {
  }

  lemma FatNibbles(f: nat, s: nat, w: nat, n: nat, m: nat, x: nat)
    requires f > 0 && (f - 1) * s < m * w && m <= x + 2
    ensures (f - 1) * n * s <= (x + 2) * (w * n)
  {
    MulLe(m, x + 2, w);
    MulLe((f - 1) * s, (x + 2) * w, n);
    Regroup(x + 2, w, n);
    assert (f - 1) * s * n == (f - 1) * n * s;
  }

  // Entries of a FAT: both programs count the same.
  lemma EntriesSame(g: Geometry, secs: nat)
    requires Legal(g)
    ensures FatEntries(g, secs) == secs * (g.bps * 2) / Nibbles(g.fat)
  {
  }

  // A FAT for the largest number of clusters has entries to spare, for every sector size.
  lemma MaxEntries(g: Geometry)
    requires Legal(g)
    ensures var s, w := g.bps * 2, Nibbles(g.fat);
      HowMany((MaxClusters(g.fat) + RESFTE) * w, s) * s / w > MaxClusters(g.fat) + RESFTE
  {
  }

  lemma EntriesEnough(m: nat, w: nat, f: nat, s: nat)
    requires w > 0 && f * s >= m * w
    ensures f * s / w >= m
  {
    DivBounds(f * s, w);
    CancelLt(m, f * s / w + 1, w);
  }

  lemma DivGe(d: int, k: int, c: nat)
    requires c > 0 && k * c <= d
    ensures k <= d / c
  {
    assert d < (d / c + 1) * c;
    CancelLt(k, d / c + 1, c);
  }

  lemma DivLe(d: int, k: int, c: nat)
    requires c > 0 && d < (k + 1) * c
    ensures d / c <= k
  {
    assert d / c * c <= d;
    CancelLt(d / c, k + 1, c);
  }

  // What the formatter's choice guarantees.
  lemma LayoutFacts(g: Geometry, a: nat)
    requires Legal(g)
    ensures var x := Estimate(g, a); var m := Needed(g, x); var secs := FatSize(g, m);
      && secs > 0 && FatEntries(g, secs) == Capacity(g, secs) >= m
      && FirstCluster(g, secs) - FirstCluster(g, 1) <= a
      && (x < MaxClusters(g.fat) && g.fats <= 2 * g.spc
        ==> Clusters(g, a + FirstCluster(g, 1) - FirstCluster(g, secs)) <= m)
      && (x >= MaxClusters(g.fat) ==> Capacity(g, secs) > m)
  {
    var m := Needed(g, Estimate(g, a));
    SizeBounds(g, m);
    hide Estimate, FatSize;
    EntriesSame(g, FatSize(g, m));
    EntriesEnough(m, Nibbles(g.fat), FatSize(g, m), g.bps * 2);
    RoomLeft(g, a, m, FatSize(g, m));
    MaxEntries(g);
    if Estimate(g, a) < MaxClusters(g.fat) && g.fats <= 2 * g.spc {
      ClustersLeft(g, a, FatSize(g, m));
    }
  }

  lemma SizeBounds(g: Geometry, m: nat)
    requires Legal(g) && m > 0
    ensures FatSize(g, m) > 0 && FatSize(g, m) * (g.bps * 2) >= m * Nibbles(g.fat) > (FatSize(g, m) - 1) * (g.bps * 2)
  {
  }

  lemma RoomLeft(g: Geometry, a: nat, m: nat, secs: nat)
    requires Legal(g) && m <= Estimate(g, a) + RESFTE && secs > 0 && m * Nibbles(g.fat) > (secs - 1) * (g.bps * 2)
    ensures FirstCluster(g, secs) - FirstCluster(g, 1) <= a
  {
    var s, w := g.bps * 2, Nibbles(g.fat);
    DivBounds(a * s, g.spc * s + w * g.fats);
    FatsFit(a, s, w, g.fats, g.spc, Estimate(g, a), m, secs);
    FirstClusters(g, secs);
  }

  lemma ClustersLeft(g: Geometry, a: nat, secs: nat)
    requires Legal(g) && secs > 0 && g.fats <= 2 * g.spc
      && secs * (g.bps * 2) >= (Estimate(g, a) + 2) * Nibbles(g.fat)
    ensures Clusters(g, a + FirstCluster(g, 1) - FirstCluster(g, secs)) <= Estimate(g, a) + 2
  {
    var s, w := g.bps * 2, Nibbles(g.fat);
    DivBounds(a * s, g.spc * s + w * g.fats);
    FirstClusters(g, secs);
    ClustersFit(a, s, w, g.fats, g.spc, Estimate(g, a), secs);
    hide Estimate;
    DivLe(a - (secs - 1) * g.fats, Estimate(g, a) + 2, g.spc);
  }

  lemma FirstClusters(g: Geometry, secs: nat)
    requires secs > 0
    ensures FirstCluster(g, secs) == FirstCluster(g, 1) + (secs - 1) * g.fats
  {
  }

  // ---- the layout ------------------------------------------------------------------------

  // The sectors per FAT for the volume of g.
  function ChosenSize(g: Geometry): nat
    requires Legal(g) && FirstCluster(g, 1) <= g.huge
  {
    FatSize(g, Needed(g, Estimate(g, g.huge - FirstCluster(g, 1))))
  }

  // The chosen FATs hold an entry for every cluster of the volume and the two reserved ones, or for more
  // clusters than the FAT type allows, so that the volume is cut.
  predicate Roomy(g: Geometry)
    requires Legal(g) && FirstCluster(g, 1) <= g.huge
  {
    || CheckedClusters(g, ChosenSize(g), g.huge) + RESFTE <= Capacity(g, ChosenSize(g))
    || Capacity(g, ChosenSize(g)) > MaxClusters(g.fat) + RESFTE
  }

  // The formatter's layout, when it chooses the FAT size itself and does not align.
  method MakeLayout(g: Geometry) returns (r: Layout)
    requires Legal(g)
    ensures r == TooSmall <==> FirstCluster(g, 1) > g.huge
    ensures r == TooFew <==> FirstCluster(g, 1) <= g.huge && var secs := ChosenSize(g);
      CheckedClusters(g, secs, g.huge) < MinClusters(g.fat) || Capacity(g, secs) - RESFTE < MinClusters(g.fat)
    ensures r.Made? ==> r.secs == ChosenSize(g) && r.secs > 0 && FirstCluster(g, r.secs) <= r.huge <= g.huge
    ensures r.Made? ==> r.huge == g.huge || r.clusters == MaxClusters(g.fat)
    ensures r.Made? ==>
      r.clusters == CheckedClusters(g, r.secs, r.huge) || r.clusters == Capacity(g, r.secs) - RESFTE
    ensures r.Made? && g.fats <= 2 * g.spc ==> CheckedClusters(g, r.secs, r.huge) <= FatEntries(g, r.secs)
    ensures r.Made? ==> (CheckedClusters(g, r.secs, r.huge) + RESFTE <= FatEntries(g, r.secs) <==> Roomy(g))
    ensures r.Made? ==>
      MinClusters(g.fat) <= r.clusters <= MaxClusters(g.fat) && r.clusters <= CheckedClusters(g, r.secs, r.huge)
  {
    hide FatEntries, Estimate, FatSize, Capacity, Clusters, FirstCluster, MaxClusters, MinClusters;
    var x1 := FirstCluster(g, 1);
    if x1 > g.huge {
      return TooSmall;
    }
    LayoutFacts(g, g.huge - x1);
    var x := Estimate(g, g.huge - x1);
    var secs := FatSize(g, Needed(g, x));
    x1 := FirstCluster(g, secs);
    var huge := g.huge;
    var clusters := Clusters(g, huge - x1);
    var limit := Capacity(g, secs) - RESFTE;
    if clusters > limit {
      clusters := limit;
    }
    if clusters < MinClusters(g.fat) {
      return TooFew;
    }
    Positive(g.fat);
    if clusters > MaxClusters(g.fat) {
      clusters := MaxClusters(g.fat);
      Shrunk(g, g.huge - x1, clusters);
      huge := x1 + (clusters + 1) * g.spc - 1;
    }
    r := Made(secs, huge, clusters);
  }

  lemma Positive(f: Width)
    ensures 0 < MinClusters(f) <= MaxClusters(f)
  {
  }

  lemma Shrunk(g: Geometry, d: int, k: nat)
    requires g.spc > 0 && Clusters(g, d) > k
    ensures 0 <= (k + 1) * g.spc - 1 <= d && Clusters(g, (k + 1) * g.spc - 1) == k
  {
    var c := g.spc;
    var e := (k + 1) * c - 1;
    assert (k + 1) * c == k * c + c;
    DivLe(e, k, c);
    DivGe(e, k, c);
    assert d / c * c <= d;
    MulLe(k + 1, d / c, c);
    MulLe(0, k, c);
  }

  // Without the bound on the number of FATs the layout can fail the test: so many FATs per sector of a
  // cluster always have a volume, with 512-byte sectors and FAT12, whose FAT is one entry short.
  lemma TooManyFats(fats: nat, spc: nat)
    requires 2 * spc < fats <= 16 && spc > 0
    ensures var g := Geometry(512, Fat12, fats, spc, 1, 1, 2 + fats + 342 * spc);
      && Legal(g) && FirstCluster(g, 1) <= g.huge && ChosenSize(g) == 1
      && FatEntries(g, 1) == 341 < CheckedClusters(g, 1, g.huge) == 342
      && MinClusters(Fat12) <= Capacity(g, 1) - RESFTE <= MaxClusters(Fat12)
  {
    var g := Geometry(512, Fat12, fats, spc, 1, 1, 2 + fats + 342 * spc);
    var d := spc * 1024 + 3 * fats;
    var x := Estimate(g, 342 * spc);
    assert x == 342 * spc * 1024 / d;
    assert 342 * spc * 1024 < 340 * d;
    Below(342 * spc * 1024, d, 340);
    OneSector(g, Needed(g, x));
    Whole(342, spc);
  }

  lemma Below(v: nat, d: nat, k: nat)
    requires d > 0 && v < k * d
    ensures v / d < k
  {
  }

  lemma OneSector(g: Geometry, m: nat)
    requires g.bps == 512 && g.fat == Fat12 && 2 <= m <= 341
    ensures FatSize(g, m) == 1
  {
  }

  lemma Whole(k: nat, c: nat)
    requires c > 0
    ensures k * c / c == k
  {
    DivGe(k * c, k, c);
    assert k * c < (k + 1) * c;
    DivLe(k * c, k, c);
  }
}
