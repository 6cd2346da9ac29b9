// The chunk cache in front of a large FAT32: a queue of buffered chunks in least-recently-used
// order over a disk of bytes. `flat` is the FAT the cached accessors stand for.
module FatCache {
  import opened FatEntry

  const CHUNK: nat := 131072
  const ENTRIES: nat := 32

  // The address that gets a short transfer: fatsize with one bit cleared.
  function LastAddr(fatsize: nat): nat {
    if fatsize / CHUNK % 2 == 1 then fatsize - CHUNK else fatsize
  }

  function IoSize(fatsize: nat, address: nat): nat {
    if address == LastAddr(fatsize) then fatsize % CHUNK else CHUNK
  }

  function ChunkOf(x: nat): (a: nat)
    ensures a <= x < a + CHUNK && a % CHUNK == 0
  {
    x - x % CHUNK
  }

  // Every chunk of the FAT is transferred whole exactly when its size is no odd number of whole chunks.
  lemma TransfersWhole(fatsize: nat)
    ensures (forall a | 0 <= a < fatsize && a % CHUNK == 0 :: IoSize(fatsize, a) == CHUNK)
      <==> fatsize % (2 * CHUNK) != CHUNK
  {
    if fatsize % (2 * CHUNK) == CHUNK {
      var a := fatsize - CHUNK;
      assert a % CHUNK == 0 && IoSize(fatsize, a) == 0;
    }
  }

  // What no dirty chunk covers is on the disk. d is the disk from the start of the FAT on.
  ghost predicate Stored(d: seq<Byte>, flat: seq<Byte>, dirty: set<nat>) {
    |d| == |flat| && forall x | 0 <= x < |flat| && ChunkOf(x) !in dirty :: d[x] == flat[x]
  }

  function Overwrite(d: seq<Byte>, a: nat, chunk: seq<Byte>): (r: seq<Byte>)
    requires a + |chunk| <= |d|
    ensures |r| == |d|
  {
    d[..a] + chunk + d[a + |chunk|..]
  }

  lemma InChunk(x: nat, a: nat)
    requires a % CHUNK == 0
    ensures a <= x < a + CHUNK <==> ChunkOf(x) == a
  {
  }

  lemma StoreChunk(d: seq<Byte>, flat: seq<Byte>, dirty: set<nat>, a: nat, dirty': set<nat>)
    requires Stored(d, flat, dirty) && a % CHUNK == 0 && a + CHUNK <= |d| && dirty' >= dirty - {a}
    ensures Stored(Overwrite(d, a, flat[a..a + CHUNK]), flat, dirty')
  {
    hide ChunkOf;
    var d' := Overwrite(d, a, flat[a..a + CHUNK]);
    forall x | 0 <= x < |flat| && ChunkOf(x) !in dirty' ensures d'[x] == flat[x] {
      InChunk(x, a);
    }
  }

  // A chunk that is not dirty can be read from the disk.
  lemma LoadChunk(d: seq<Byte>, flat: seq<Byte>, dirty: set<nat>, a: nat)
    requires Stored(d, flat, dirty) && a % CHUNK == 0 && a + CHUNK <= |d| && a !in dirty
    ensures d[a..a + CHUNK] == flat[a..a + CHUNK]
  {
    forall x | a <= x < a + CHUNK ensures d[x] == flat[x] {
      assert ChunkOf(x) == a;
    }
  }

  lemma AllStored(d: seq<Byte>, flat: seq<Byte>)
    requires Stored(d, flat, {})
    ensures d == flat
  {
  }

  function Le32Bytes(v: nat): (r: seq<Byte>)
    requires v < 0x1000_0000
    ensures |r| == 4
  {
    [v % 256, v / 256 % 256, v / 65536 % 256, v / 16777216 % 256]
  }

  lemma PutBytes(flat: seq<Byte>, cl: nat, v: nat)
    requires 4 * cl + 4 <= |flat| && v < 0x1000_0000
    ensures Put(Fat32, flat, cl, v) == Overwrite(flat, 4 * cl, Le32Bytes(v))
  {
    var b0, b1, b2, b3 := v % 256, v / 256 % 256, v / 65536 % 256, v / 16777216 % 256;
    assert v % Limit(Fat32) == v;
    assert Put(Fat32, flat, cl, v) == flat[4 * cl := b0][4 * cl + 1 := b1][4 * cl + 2 := b2][4 * cl + 3 := b3];
  }

  // Writing into the window of the flat FAT that a chunk is.
  lemma OverwriteWindow(flat: seq<Byte>, a: nat, off: nat, bytes: seq<Byte>)
    requires a + CHUNK <= |flat| && off + |bytes| <= CHUNK
    ensures Overwrite(flat, a + off, bytes)[a..a + CHUNK] == Overwrite(flat[a..a + CHUNK], off, bytes)
    ensures forall x | 0 <= x < |flat| && !(a <= x < a + CHUNK) :: Overwrite(flat, a + off, bytes)[x] == flat[x]
  {
    var r, w := Overwrite(flat, a + off, bytes), Overwrite(flat[a..a + CHUNK], off, bytes);
    assert |w| == CHUNK == |r[a..a + CHUNK]|;
    forall k | 0 <= k < CHUNK ensures r[a..a + CHUNK][k] == w[k] {
      assert r[a..a + CHUNK][k] == r[a + k];
    }
  }

  lemma ChunkAtLeast(y: nat, b: nat)
    requires b % CHUNK == 0 && b <= y
    ensures b <= ChunkOf(y)
  {
  }

  lemma Aligned(cl: nat)
    ensures 4 * cl % CHUNK + 4 <= CHUNK && 4 * cl == ChunkOf(4 * cl) + 4 * cl % CHUNK
  {
    assert 4 * cl % CHUNK == 4 * (cl % 32768);
  }

  // A write inside a dirty chunk asks nothing of the disk.
  lemma StoredPut(d: seq<Byte>, flat: seq<Byte>, flat': seq<Byte>, dirty: set<nat>, a: nat)
    requires Stored(d, flat, dirty) && a in dirty && a % CHUNK == 0 && |flat'| == |flat|
    requires forall x | 0 <= x < |flat| && !(a <= x < a + CHUNK) :: flat'[x] == flat[x]
    ensures Stored(d, flat', dirty)
  {
    hide ChunkOf;
    forall x | 0 <= x < |flat| && ChunkOf(x) !in dirty ensures d[x] == flat'[x] {
      InChunk(x, a);
    }
  }

  lemma SliceOther(flat: seq<Byte>, flat': seq<Byte>, a: nat, b: nat)
    requires a != b && a % CHUNK == 0 && b % CHUNK == 0 && |flat'| == |flat| && b + CHUNK <= |flat|
    requires forall x | 0 <= x < |flat| && !(a <= x < a + CHUNK) :: flat'[x] == flat[x]
    ensures flat'[b..b + CHUNK] == flat[b..b + CHUNK]
  {
    assert a + CHUNK <= b || b + CHUNK <= a;
  }

  // Where the entry at k was before the entry at i moved to the head.
  ghost function Old(i: nat, k: nat): nat {
    if k == 0 then i else if k <= i then k - 1 else k
  }

  lemma Same<T>(q: seq<T>, i: nat)
    requires i < |q|
    ensures multiset([q[i]] + q[..i] + q[i + 1..]) == multiset(q)
  {
    assert q == q[..i] + [q[i]] + q[i + 1..];
  }

  lemma OldApart(i: nat)
    ensures forall k: nat, l: nat | k < l :: Old(i, k) != Old(i, l)
  {
  }

  class Entry {
    var addr: nat
    var dirty: bool
    const chunk: array<Byte>

    constructor (addr: nat)
      ensures this.addr == addr && !dirty && chunk.Length == CHUNK && fresh(chunk)
    {
      this.addr := addr;
      dirty := false;
      chunk := new Byte[CHUNK];
    }
  }

  class Cache {
    const disk: array<Byte>
    const offset: nat
    const fatsize: nat
    var queue: seq<Entry>
    ghost var flat: seq<Byte>

    // The chunk at a is on the disk and transferred whole.
    ghost predicate Transferable(a: nat) {
      a % CHUNK == 0 && a < fatsize && offset + a + CHUNK <= disk.Length && IoSize(fatsize, a) == CHUNK
    }

    // The entries and their chunks are separate objects.
    ghost predicate Apart()
      reads this`queue
    {
      && (forall i | 0 <= i < |queue| :: queue[i].chunk.Length == CHUNK && queue[i].chunk != disk)
      && (forall i, j | 0 <= i < j < |queue| :: queue[i] != queue[j] && queue[i].chunk != queue[j].chunk)
    }

    // They hold different chunks of the FAT.
    ghost predicate Placed()
      reads this`queue, queue`addr
    {
      && (forall i | 0 <= i < |queue| :: Transferable(queue[i].addr))
      && (forall i, j | 0 <= i < j < |queue| :: queue[i].addr != queue[j].addr)
    }

    // Every buffered chunk is its part of the flat FAT.
    ghost predicate Filled()
      requires Placed() && offset + |flat| == disk.Length
      reads this`queue, this`flat, queue`addr, set e | e in queue :: e.chunk
    {
      forall i | 0 <= i < |queue| :: queue[i].chunk[..] == flat[queue[i].addr..queue[i].addr + CHUNK]
    }

    ghost function Dirty(): set<nat>
      reads this`queue, queue`addr, queue`dirty
    {
      set e | e in queue && e.dirty :: e.addr
    }

    ghost predicate Valid()
      reads this`queue, this`flat, queue, disk, set e | e in queue :: e.chunk
    {
      queue != [] && offset + |flat| == disk.Length && Apart() && Placed() && Filled()
        && Stored(disk[offset..], flat, Dirty())
    }

    // Writing the buffer of an entry to its place, as much of it as is transferred.
    method Write(entry: Entry)
      requires entry.chunk.Length == CHUNK && entry.chunk != disk
      requires IoSize(fatsize, entry.addr) == CHUNK && offset + entry.addr + CHUNK <= disk.Length
      modifies disk
      ensures disk[..offset] == old(disk[..offset])
      ensures disk[offset..] == Overwrite(old(disk[offset..]), entry.addr, entry.chunk[..])
    {
      hide IoSize;
      var writesize := IoSize(fatsize, entry.addr);
      var fatAddr := offset + entry.addr;
      forall k | 0 <= k < writesize {
        disk[fatAddr + k] := entry.chunk[k];
      }
    }

    // fat_flush_fat32_cache_entry
    method Flush(entry: Entry)
      requires Valid() && entry in queue
      modifies disk, entry`dirty
      ensures Valid() && !entry.dirty && disk[..offset] == old(disk[..offset])
    {
      hide Stored, IoSize, Overwrite;
      if !entry.dirty {
        return;
      }
      ghost var d, dirty := disk[offset..], Dirty();
      assert Transferable(entry.addr);
      Write(entry);
      hide Transferable;
      assert Filled();
      entry.dirty := false;
      assert Filled();
      assert Dirty() >= dirty - {entry.addr};
      StoreChunk(d, flat, dirty, entry.addr, Dirty());
    }

    ghost function Rotated(i: nat): seq<Entry>
      requires i < |queue|
      reads this`queue
    {
      [queue[i]] + queue[..i] + queue[i + 1..]
    }

    // TAILQ_REMOVE and TAILQ_INSERT_HEAD
    method MoveToHead(i: nat)
      requires Valid() && i < |queue|
      modifies this`queue
      ensures Valid() && queue == old(Rotated(i))
    {
      hide Stored, Transferable;
      ghost var q, dirty := queue, Dirty();
      queue := [queue[i]] + queue[..i] + queue[i + 1..];
      assert forall k | 0 <= k < |queue| :: queue[k] == q[Old(i, k)];
      assert forall e :: e in queue <==> e in q by {
        assert q == q[..i] + [q[i]] + q[i + 1..];
      }
      assert Dirty() == dirty;
      hide Dirty, Old;
      assert forall k, l | 0 <= k < l < |queue| :: Old(i, k) != Old(i, l) by { OldApart(i); }
    }

    method Find(addr: nat) returns (i: nat)
      ensures i <= |queue| && (forall j | 0 <= j < i :: queue[j].addr != addr)
        && (i < |queue| ==> queue[i].addr == addr)
    {
      i := 0;
      while i < |queue| && queue[i].addr != addr
        invariant i <= |queue| && forall j | 0 <= j < i :: queue[j].addr != addr
      {
        i := i + 1;
      }
    }

    // Reading a chunk into an entry: only the transferred part of the buffer changes, so for a FAT of
    // an odd number of whole chunks the last chunk keeps what the entry held before.
    method Read(entry: Entry, addr: nat)
      requires entry.chunk.Length == CHUNK && entry.chunk != disk
        && offset + addr + IoSize(fatsize, addr) <= disk.Length
      modifies entry`addr, entry.chunk
      ensures entry.addr == addr
      ensures var n := IoSize(fatsize, addr);
        entry.chunk[..] == disk[offset + addr..offset + addr + n] + old(entry.chunk[n..])
    {
      var rwsize := IoSize(fatsize, addr);
      var fatAddr := offset + addr;
      entry.addr := addr;
      forall k | 0 <= k < rwsize {
        entry.chunk[k] := disk[fatAddr + k];
      }
    }

    // The tail entry, already flushed, is overwritten with the chunk at addr.
    method Load(entry: Entry, addr: nat)
      requires Valid() && entry == queue[|queue| - 1] && !entry.dirty && Transferable(addr)
      requires forall i | 0 <= i < |queue| :: queue[i].addr != addr
      modifies entry`addr, entry.chunk
      ensures Valid() && entry.addr == addr
    {
      hide Stored, IoSize;
      ghost var d, dirty := disk[offset..], Dirty();
      LoadChunk(d, flat, dirty, addr);
      Read(entry, addr);
      assert entry.chunk[..] == d[addr..addr + CHUNK];
      hide Transferable;
      assert Dirty() == dirty;
      assert Placed();
      forall i | 0 <= i < |queue| ensures queue[i].chunk[..] == flat[queue[i].addr..queue[i].addr + CHUNK] {
        if i < |queue| - 1 {
          assert queue[i] != entry && queue[i].chunk != entry.chunk;
        }
      }
    }

    // fat_get_fat32_cache_entry: a hit moves to the head of the queue; a miss takes the entry at the
    // tail, which is flushed first.
    method GetEntry(addr0: nat, writing: bool) returns (entry: Entry, ghost i: nat)
      requires Valid() && Transferable(ChunkOf(addr0))
      modifies this`queue, disk, queue, set e | e in queue :: e.chunk
      ensures Valid() && disk[..offset] == old(disk[..offset])
      ensures entry == queue[0] && entry.addr == ChunkOf(addr0) && (writing ==> entry.dirty)
      ensures i < |old(queue)| && queue == [old(queue)[i]] + old(queue)[..i] + old(queue)[i + 1..]
      ensures old(queue[i].addr) == ChunkOf(addr0) || (i == |old(queue)| - 1
        && forall e | e in old(queue) :: old(e.addr) != ChunkOf(addr0))
    {
      hide Stored, Transferable, Placed, Filled, ChunkOf;
      var addr := ChunkOf(addr0);
      var n := Find(addr);
      i := n;
      if n < |queue| {
        entry := queue[n];
        if writing {
          SetDirty(entry);
        }
        if n > 0 {
          MoveToHead(n);
        }
        return;
      }
      i := n - 1;
      entry := queue[n - 1];
      Flush(entry);
      Load(entry, addr);
      if writing {
        SetDirty(entry);
      }
      MoveToHead(n - 1);
    }

    // A chunk may be marked dirty at any time.
    method SetDirty(entry: Entry)
      requires Valid() && entry in queue
      modifies entry`dirty
      ensures Valid() && entry.dirty
    {
      hide Transferable;
      ghost var dirty := Dirty();
      entry.dirty := true;
      assert dirty <= Dirty();
    }

    // The FAT is no odd number of whole chunks, and the disk goes on to the end of its last chunk.
    ghost predicate Sized() {
      fatsize % (2 * CHUNK) != CHUNK && offset + ChunkOf(fatsize + CHUNK - 1) <= disk.Length
    }

    lemma Reachable(cl: nat)
      requires Sized() && 4 * cl + 4 <= fatsize
      ensures Transferable(ChunkOf(4 * cl)) && 4 * cl % CHUNK + 4 <= CHUNK
        && 4 * cl == ChunkOf(4 * cl) + 4 * cl % CHUNK
    {
      hide ChunkOf, IoSize;
      TransfersWhole(fatsize);
      Aligned(cl);
      var a := ChunkOf(4 * cl);
      ChunkAtLeast(fatsize + CHUNK - 1, a + CHUNK);
    }

    lemma Window(e: Entry)
      requires Valid() && e == queue[0]
      ensures Transferable(e.addr) && e.chunk.Length == CHUNK && e.addr + CHUNK <= |flat|
        && offset + |flat| == disk.Length
      ensures forall k | 0 <= k < CHUNK :: e.chunk[k] == flat[e.addr + k]
    {
      forall k | 0 <= k < CHUNK ensures e.chunk[k] == flat[e.addr + k] {
        assert e.chunk[..][k] == flat[e.addr..e.addr + CHUNK][k];
      }
    }

    // fat_get_fat32_cached_next
    method GetNext(cl: nat) returns (next: nat)
      requires Valid() && Sized() && 4 * cl + 4 <= fatsize
      modifies this`queue, disk, queue, set e | e in queue :: e.chunk
      ensures Valid() && flat == old(flat) && disk[..offset] == old(disk[..offset])
      ensures multiset(queue) == multiset(old(queue))
      ensures 4 * cl + 4 <= |flat| && next == Get(Fat32, flat, cl)
    {
      hide Valid, Sized, Transferable, ChunkOf;
      Reachable(cl);
      var entry, i := GetEntry(4 * cl, false);
      Same(old(queue), i);
      Window(entry);
      var off := 4 * cl % CHUNK;
      next := Widen(Fat32, Le32(entry.chunk[off], entry.chunk[off + 1], entry.chunk[off + 2],
        entry.chunk[off + 3]) % 0x1000_0000);
    }

    // le32enc
    method Encode(p: array<Byte>, off: nat, v: nat)
      requires off + 4 <= p.Length && v < 0x1000_0000
      modifies p
      ensures p[..] == Overwrite(old(p[..]), off, Le32Bytes(v))
    {
      p[off], p[off + 1], p[off + 2], p[off + 3] := v % 256, v / 256 % 256, v / 65536 % 256, v / 16777216 % 256;
    }

    // The flat FAT with a link written: its chunk, the other buffered chunks, and what the disk owes.
    lemma PokeFlat(entry: Entry, cl: nat, v: nat) returns (f': seq<Byte>)
      requires Valid() && entry == queue[0] && entry.dirty && entry.addr == ChunkOf(4 * cl)
      requires v < 0x1000_0000 && 4 * cl % CHUNK + 4 <= CHUNK && 4 * cl == ChunkOf(4 * cl) + 4 * cl % CHUNK
      ensures 4 * cl + 4 <= |flat| == |f'| && f' == Put(Fat32, flat, cl, v) && Stored(disk[offset..], f', Dirty())
      ensures forall i | 0 <= i < |queue| :: queue[i].addr + CHUNK <= |f'|
      ensures f'[entry.addr..entry.addr + CHUNK] == Overwrite(entry.chunk[..], 4 * cl % CHUNK, Le32Bytes(v))
      ensures forall i | 0 < i < |queue| ::
        f'[queue[i].addr..queue[i].addr + CHUNK] == flat[queue[i].addr..queue[i].addr + CHUNK]
    {
      hide ChunkOf, Stored, IoSize, Put, Overwrite, Le32Bytes, Get;
      var a := entry.addr;
      assert forall i | 0 <= i < |queue| :: Transferable(queue[i].addr);
      PutBytes(flat, cl, v);
      OverwriteWindow(flat, a, 4 * cl % CHUNK, Le32Bytes(v));
      f' := Put(Fat32, flat, cl, v);
      StoredPut(disk[offset..], flat, f', Dirty(), a);
      forall i | 0 < i < |queue|
        ensures f'[queue[i].addr..queue[i].addr + CHUNK] == flat[queue[i].addr..queue[i].addr + CHUNK]
      {
        SliceOther(flat, f', a, queue[i].addr);
      }
    }

    // Writing into a buffered dirty chunk is writing into the flat FAT.
    method Poke(entry: Entry, cl: nat, v: nat)
      requires Valid() && entry == queue[0] && entry.dirty && entry.addr == ChunkOf(4 * cl)
      requires v < 0x1000_0000 && 4 * cl % CHUNK + 4 <= CHUNK && 4 * cl == ChunkOf(4 * cl) + 4 * cl % CHUNK
      modifies this`flat, entry.chunk
      ensures Valid() && |flat| == |old(flat)| && 4 * cl + 4 <= |flat| && flat == Put(Fat32, old(flat), cl, v)
    {
      hide ChunkOf, Stored, Transferable, Put, Overwrite, Le32Bytes, Dirty;
      ghost var d := disk[offset..];
      ghost var f' := PokeFlat(entry, cl, v);
      assert entry.chunk != disk;
      Encode(entry.chunk, 4 * cl % CHUNK, v);
      assert disk[offset..] == d;
      flat := f';
      forall i | 0 <= i < |queue| ensures queue[i].chunk[..] == flat[queue[i].addr..queue[i].addr + CHUNK] {
        if i > 0 {
          assert queue[0].chunk != queue[i].chunk;
        }
      }
    }

    // Only 28 bits of a link are stored.
    lemma PutMasked(f: seq<Byte>, cl: nat, next: nat)
      requires 4 * cl + 4 <= |f|
      ensures Put(Fat32, f, cl, next % 0x1000_0000) == Put(Fat32, f, cl, next)
    {
    }

    // fat_set_fat32_cached_next
    method SetNext(cl: nat, next: nat)
      requires Valid() && Sized() && 4 * cl + 4 <= fatsize
      modifies this`queue, this`flat, disk, queue, set e | e in queue :: e.chunk
      ensures Valid() && disk[..offset] == old(disk[..offset]) && multiset(queue) == multiset(old(queue))
      ensures 4 * cl + 4 <= |old(flat)| && flat == Put(Fat32, old(flat), cl, next)
    {
      hide Valid, Sized, Transferable, ChunkOf, Put;
      Reachable(cl);
      var entry, i := GetEntry(4 * cl, true);
      Same(old(queue), i);
      Window(entry);
      PutMasked(flat, cl, next);
      Poke(entry, cl, next % 0x1000_0000);
    }

    lemma NoneDirty()
      requires forall i | 0 <= i < |queue| :: !queue[i].dirty
      ensures Dirty() == {}
    {
      forall e | e in queue ensures !e.dirty {
        var i :| 0 <= i < |queue| && queue[i] == e;
      }
    }

    // The flush loop of writefat: afterwards the disk holds the flat FAT.
    method WriteBack()
      requires Valid()
      modifies disk, queue`dirty
      ensures Valid() && disk[offset..] == flat && disk[..offset] == old(disk[..offset]) && Dirty() == {}
    {
      hide Stored, Placed, Filled, Apart;
      var i := 0;
      while i < |queue|
        invariant i <= |queue| && Valid() && disk[..offset] == old(disk[..offset])
        invariant forall j | 0 <= j < i :: !queue[j].dirty
      {
        Flush(queue[i]);
        i := i + 1;
      }
      NoneDirty();
      AllStored(disk[offset..], flat);
    }

    // One more clean entry at the tail, read from the disk.
    method Append(addr: nat)
      requires offset + |flat| == disk.Length && flat == disk[offset..] && Apart() && Placed() && Filled()
        && Transferable(addr)
      requires forall i | 0 <= i < |queue| :: queue[i].addr != addr
      modifies this`queue
      ensures Apart() && Placed() && Filled()
      ensures |queue| == |old(queue)| + 1 && queue[..|old(queue)|] == old(queue)
      ensures var e := queue[|old(queue)|]; fresh(e) && fresh(e.chunk) && e.addr == addr && !e.dirty
    {
      hide IoSize;
      var e := new Entry(addr);
      assert disk[offset..][addr..addr + CHUNK] == disk[offset + addr..offset + addr + CHUNK];
      Read(e, addr);
      assert e.chunk[..] == flat[addr..addr + CHUNK];
      hide Transferable;
      queue := queue + [e];
    }

    // The cache part of _readfat: the first chunks of the FAT, in order.
    constructor (disk: array<Byte>, offset: nat, fatsize: nat)
      requires ENTRIES * CHUNK <= fatsize && fatsize % (2 * CHUNK) != CHUNK
        && offset + ChunkOf(fatsize + CHUNK - 1) <= disk.Length
      ensures Valid() && Sized() && flat == disk[offset..] && |queue| == ENTRIES && this.disk == disk
        && this.offset == offset && this.fatsize == fatsize
      ensures forall i | 0 <= i < ENTRIES :: queue[i].addr == CHUNK * i && !queue[i].dirty
      ensures |queue| == 32 && forall e | e in queue :: e.chunk.Length == 128 * 1024
      ensures fresh(queue) && forall e | e in queue :: fresh(e.chunk)
    {
      this.disk, this.offset, this.fatsize := disk, offset, fatsize;
      queue, flat := [], disk[offset..];
      new;
      TransfersWhole(fatsize);
      var i := 0;
      while i < ENTRIES
        invariant i == |queue| <= ENTRIES && fresh(queue) && (forall e | e in queue :: fresh(e.chunk))
          && flat == disk[offset..]
        invariant offset + |flat| == disk.Length && Apart() && Placed() && Filled()
        invariant forall j | 0 <= j < i :: queue[j].addr == CHUNK * j && !queue[j].dirty
      {
        assert Transferable(CHUNK * i);
        Append(CHUNK * i);
        i := i + 1;
      }
      NoneDirty();
    }
  }
}
