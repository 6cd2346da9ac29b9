// The size test of readboot against what the scan of the FAT reads.
module FatVolume {
  import opened FatEntry
  import opened FatLayout
  import opened FatScan
  import opened FatCheck

  // The clusters the scan goes over, with the two reserved numbers that readboot adds after its test.
  function Scannable(g: Geometry, secs: nat, huge: nat): nat
    requires g.spc > 0 && FirstCluster(g, secs) <= huge
  {
    CheckedClusters(g, secs, huge) + RESFTE
  }

  // A FAT holds an entry for each of n clusters if and only if n is at most the number of entries that
  // readboot computes.
  lemma HoldsEntries(g: Geometry, secs: nat, n: nat)
    requires Legal(g)
    ensures Holds(g.fat, secs * g.bps, n) <==> n <= FatEntries(g, secs)
  {
    var size := secs * g.bps;
    match g.fat
    case Fat12 => assert FatEntries(g, secs) == size * 2 / 3;
    case Fat16 => assert FatEntries(g, secs) == size / 2;
    case Fat32 => assert FatEntries(g, secs) == size / 4;
  }

  // The scan stays inside the FAT if and only if there are two entries more than readboot asks for.
  lemma ScanInside(g: Geometry, secs: nat, huge: nat)
    requires Legal(g) && FirstCluster(g, secs) <= huge
    ensures Holds(g.fat, secs * g.bps, Scannable(g, secs, huge)) <==>
      CheckedClusters(g, secs, huge) + RESFTE <= FatEntries(g, secs)
  {
    HoldsEntries(g, secs, Scannable(g, secs, huge));
  }

  // The type readboot derives from the number of clusters, and from the root directory whether it is FAT32.
  datatype Derived = Rejected | Derived(width: Width)

  function DerivedType(fat32: bool, n: nat): Derived {
    if fat32 then (if 0xfff6 <= n <= 0xfff_fff6 then Derived(Fat32) else Rejected)
    else if n < 0xff6 then Derived(Fat12)
    else if n < 0xfff6 then Derived(Fat16) else Rejected
  }

  // The limits are the numbers from which on cluster values are reserved in the next smaller type.
  lemma DerivedIs(fat32: bool, n: nat)
    ensures DerivedType(fat32, n) == Derived(Fat12) <==> !fat32 && n < Limit(Fat12) - 10
    ensures DerivedType(fat32, n) == Derived(Fat16) <==> !fat32 && Limit(Fat12) - 10 <= n < Limit(Fat16) - 10
    ensures DerivedType(fat32, n) == Derived(Fat32) <==> fat32 && Limit(Fat16) - 10 <= n <= Limit(Fat32) - 10
  {
  }

  // What the formatter makes is read inside its FAT exactly when it is roomy, and then readfat's other
  // bound holds too.
  method Formatted(g: Geometry) returns (r: Layout)
    requires Legal(g)
    ensures r.Made? ==> FirstCluster(g, 1) <= g.huge && r.secs == ChosenSize(g) && FirstCluster(g, r.secs) <= r.huge
    ensures r.Made? ==> (Holds(g.fat, r.secs * g.bps, Scannable(g, r.secs, r.huge)) <==> Roomy(g))
    ensures r.Made? && Roomy(g) ==> Scannable(g, r.secs, r.huge) == r.clusters + RESFTE <= Limit(g.fat) - 8
    ensures r.Made? && Roomy(g) ==>
      (DerivedType(g.fat == Fat32, CheckedClusters(g, r.secs, r.huge)) == Derived(g.fat) <==>
        g.fat == Fat12 || r.clusters != MinClusters(g.fat))
  {
    hide FatEntries, FatSize, Estimate, Clusters, FirstCluster, Holds, Roomy;
    r := MakeLayout(g);
    if r.Made? {
      ScanInside(g, r.secs, r.huge);
      EntriesSame(g, r.secs);
    }
  }

  // So readfat takes the FAT of every roomy volume, whatever its bytes.
  method FormattedThenRead(g: Geometry, fatbuf: array<Byte>, fsNext: nat, ask: nat -> bool)
    returns (r: Layout, fat: FatDescriptor?)
    requires Legal(g) && FirstCluster(g, 1) <= g.huge && Roomy(g) && fatbuf.Length == ChosenSize(g) * g.bps
    modifies fatbuf
    ensures r.Made? <==> fat != null
    ensures fat != null ==> fresh(fat) && fat.Valid() && fat.fatbuf == fatbuf && fat.numClusters == r.clusters + RESFTE
    ensures fat != null ==>
      && Holds(g.fat, fatbuf.Length, r.clusters + RESFTE)
      && (fat.Settled() <==> Accepted(Decoded(g.fat, old(fatbuf[..]), r.clusters + RESFTE), ask))
  {
    hide FatEntries, FatSize, Estimate, Capacity, Clusters, FirstCluster, Holds, Roomy, Accepted, Scanned,
      FatDescriptor.Valid, FatDescriptor.Settled, Decoded;
    r := Formatted(g);
    fat := null;
    if r.Made? {
      var modified;
      fat, modified := ReadFat(g.fat, r.clusters + RESFTE, fatbuf, fsNext, ask);
    }
  }

  // A volume that the formatter makes, that readboot accepts, and whose last cluster has its entry partly
  // behind the FAT: entry 341 takes bytes 511 and 512 of 512.
  lemma ShortFat()
    ensures var g := Geometry(512, Fat12, 1, 1, 1, 1, 343);
      && Legal(g) && FirstCluster(g, 1) <= g.huge && ChosenSize(g) == 1 && !Roomy(g)
      && MinClusters(Fat12) <= Capacity(g, 1) - RESFTE <= MaxClusters(Fat12)
      && CheckedClusters(g, 1, g.huge) == 340 <= FatEntries(g, 1) == 341
      && !Holds(Fat12, 512, Scannable(g, 1, g.huge)) && Offset(Fat12, 341) == 511
  {
  }

  // The smallest FAT16 volume the formatter makes has a cluster fewer than the checker asks of FAT16, which
  // reads it as FAT12.
  lemma SmallestFat16()
    ensures var g := Geometry(512, Fat16, 2, 1, 1, 32, 4150);
      && Legal(g) && FirstCluster(g, 1) <= g.huge && ChosenSize(g) == 16 && Roomy(g)
      && CheckedClusters(g, 16, g.huge) == MinClusters(Fat16) == 0xff5 <= Capacity(g, 16) - RESFTE
      && DerivedType(false, 0xff5) == Derived(Fat12)
  {
  }
}
