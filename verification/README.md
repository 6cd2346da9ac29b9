# FreeBSD libraries and tools: a verified model

Seven parts of the FreeBSD subset, modelled in Dafny. Code that changes memory is modelled as classes,
arrays and loops; every such method is proved against a value-level description, and the properties are
proved about that description. What a method and its specification share, such as the value of a digit or the
order of a search, is characterised a second time without it.

1. **Trees** (`sys/sys/tree.h`). The red-black and splay macros on nodes with real links. A ghost *shape*
   gives every node its links and its place in the in-order listing `order`; all invariants are local to a
   node and its neighbours. `Valid()` says that the fields of the nodes are those of a red-black (or
   search-tree) shape. `Meaning` turns it into an inductive tree: balanced, coloured, of logarithmic height.
   Keys are compared by a function parameter; what callers owe is that it orders the nodes.
2. **FAT checker** (`sbin/fsck_msdosfs`). FAT12/16/32 entries as bytes, the head bitmap as words, the scan
   of `readfat`, `checkchain`, `clearchain`, `checksize`, `checklost`, and the chunk cache for large FAT32s.
   The user's answers are function parameters. `table` and `heads` are what the bytes and bits stand for;
   `Clean` says that no two clusters share a next cluster, that no link leaves the range, and that a head
   bit is set on unreferenced clusters in use only.
3. **gdtoa** (`contrib/gdtoa`). Big integers as arrays of 32-bit words with their carry loops, the shared
   list of powers of five, hexadecimal input with all four rounding modes, and the exact half-ulp comparison
   of decimal input with the decision it leads to. Correct rounding (section 4.3 of IEEE 754-2008) is defined
   without reference to the algorithm: among all numbers of the format none lies between, or none is nearer.
4. **qsort** (`lib/libc/stdlib/qsort.c`), on an array, in place.
5. **Kernel objects** (`sys/kern/subr_kobj.c`) as a state machine whose events are the lock sections and
   the unlocked steps of any number of threads, and **devices** (`sys/kern/subr_bus.c`) as objects in a tree.
6. **Directory traversal** (`lib/libc/gen/fts.c`): linked entries, the shared path buffer and `fts_read`,
   against a recursive traversal of a directory graph that may have cycles.
7. **FAT layout** (`sbin/newfs_msdos` against `sbin/fsck_msdosfs/boot.c`), and what the checker then reads.

`dafny verify dfyconfig.toml` checks everything.

What the code does not do, and exactly when it does it:

- The scan leaves a clean table if and only if, in the table as it was, no question about a link that breaks it
  was refused: a link out of range, or one to a cluster that an earlier cluster keeps its link to. `Accepted`
  says this of the table before the scan and the answers (`ScanClean`, `ScanCleanOnlyIf`, `ReadFat`; a refused
  cut leaves a chain without end, `RefusedCutLoops`). Loops that no head leads into stay (`ScanCovers`).
- `readboot` compares the number of FAT entries with the number of clusters before it adds the two reserved
  ones, so a FAT up to two entries short is accepted and the scan leaves it. It stays inside if and only if
  clusters + 2 is at most the number of entries (`ScanInside`); a formatted volume satisfies this if and only
  if it is `Roomy`, and `ShortFat` is one that does not.
- `checksize` drops clusters in a loop whose 32-bit size wraps; it ends if and only if
  size + cluster size is at most 2^32 (`DropLoopEnds`); above this, files exist for which it is started
  (`DropsForever`, `DropsForeverExample`). A file of size 0 keeps one cluster, and a chain that `checkchain`
  truncated is reported as unchanged when the size then fits.
- `checklost` leaves NumFree (NumBad) too large by one for each chain that ended in a free (bad) cluster,
  was not truncated and was then cleared, and by nothing else (`LostAccount` in `CheckLost`, `DriftExample`).
- The FAT32 cache reads and writes whole chunks if and only if the FAT size is not an odd multiple of 128 KiB
  (`TransfersWhole`), because of the mask in `sbin/fsck_msdosfs/fat.c:738`.
- `gethex` in nearest mode returns 0 for values just above half the smallest number, and in a one-bit format
  the smallest number for exactly half of it; nothing else is rounded wrongly by its underflow exit (`GetHex`,
  `AboutHalfExample`, `OneBitExample`).
- `gethex` returns infinity if and only if the rounding with unbounded exponent has an exponent above the
  largest. Infinity is then wrong if and only if the direction is toward zero, where the answer is the largest
  number (`GetHex`, `OverflowAnswer`, `OverflowExample`).
- The smallest FAT16 and FAT32 volumes that the formatter makes are taken for FAT12, or rejected, because the
  limits of the two programs differ by one; all others with enough FAT entries are recognised (`Formatted`,
  `SmallestFat16`).
- The formatter's FAT is large enough for the checker's test for every volume if and only if the number of FATs
  is at most twice the sectors per cluster (`MakeLayout`, `TooManyFats`).
- `strtodg` in nearest mode, once within half an ulp, returns the correct rounding if and only if the input is not
  (1) half-way above a denormal number whose bits are all ones, unless that is the largest one, (2) more than a
  quarter of an ulp below a power of two that is kept in more than one bit, as after an adjustment, or (3) half of
  the smallest number, with one bit of precision (`SettledRight`, `Settle`, `TieExample`, `DropExample`).
- A compiled table without references stays in memory only when `kobj_class_compile` was called for its class by
  itself (`RestTidy`).
- `device_detach` overwrites the state after the driver's method: counts and states agree if and only if the
  method failed or left no reference (`EndDetach`, `DetachedBusyExample`).

## Model

| member | source | states |
|---|---|---|
| `RedBlackTree.Head.constructor` | sys/sys/tree.h:310-312 | an empty valid tree |
| `RedBlackTree.Head.RotateLeft` | sys/sys/tree.h:346-364 | a rotation keeps the in-order listing, all links and parent links, and moves exactly the three subtrees |
| `RedBlackTree.Head.RotateRight` | sys/sys/tree.h:366-384 | the mirror image |
| `RedBlackTree.Head.InsertPass` | sys/sys/tree.h:456-491 | one pass keeps the only possible fault, a red node with red parent, at the returned node, and comes nearer to the root or removes it |
| `RedBlackTree.Head.InsertColor` | sys/sys/tree.h:451-494 | from a tree whose only fault is at the new node, a valid red-black tree with the same nodes and order; it ends |
| `RedBlackTree.Head.RemovePass` | sys/sys/tree.h:501-570 | one pass keeps the only possible fault, one black node too few below `elm`; the sibling exists; it ends or comes nearer to the root |
| `RedBlackTree.Head.RemoveColor` | sys/sys/tree.h:496-573 | from a tree short of one black node, a valid red-black tree with the same nodes and order |
| `RedBlackTree.Head.RemoveOneChild` | sys/sys/tree.h:625-640 | removing a node with at most one child takes exactly this node out of the listing and leaves a valid tree |
| `RedBlackTree.Head.RemoveTwoChildren` | sys/sys/tree.h:585-624 | so does removing a node with two children, whose successor takes its place, links and colour |
| `RedBlackTree.Head.Remove` | sys/sys/tree.h:575-641 | for every valid tree and every node in it: a valid tree whose listing is the old one without that node; sorted if it was |
| `RedBlackTree.Head.Descend` | sys/sys/tree.h:652-661 | the search finds an equal node or the one place where the element belongs |
| `RedBlackTree.Head.Insert` | sys/sys/tree.h:643-673 | an equal node is returned and nothing changes, or there is none and the element is put at its place; valid and sorted |
| `RedBlackTree.Head.Find` | sys/sys/tree.h:675-692 | an equal node, or none exists |
| `RedBlackTree.Head.NFind` | sys/sys/tree.h:694-714 | the first node not before the element, or none exists |
| `RedBlackTree.Head.Next` | sys/sys/tree.h:716-737 | the next node of the listing, null after the last |
| `RedBlackTree.Head.Prev` | sys/sys/tree.h:739-760 | the previous node of the listing, null before the first |
| `RedBlackTree.Head.MinMax` | sys/sys/tree.h:762-776 | the first or last node of the listing, null for an empty tree |
| `RedBlackTree.Head.Foreach` | sys/sys/tree.h:829-832 | the minimum and then repeated successors list all nodes in order |
| `RedBlackTree.Head.Meaning` | sys/sys/tree.h:57-66 | the links of a valid tree are those of an inductive tree without red child of red node, with a black root and equally many black nodes on all paths, listing `order`, without repetition, of height at most 2 log2(n + 1) |
| `RedBlackTheory.HeightBound` | sys/sys/tree.h:65 | the colour conditions alone bound the height: 2^height <= (n + 1)^2 |
| `Ordering.PutAtIs` | sys/sys/tree.h:643-673 | the listing after an insertion is the old one with the element between two parts |
| `Ordering.CutAtIs` | sys/sys/tree.h:575-641 | the listing after a removal is the old one without the element |
| `Ordering.SortedIncreases` | sys/sys/tree.h:652-661 | compared by difference, a sorted listing of integers increases |
| `SplayTree.Head.constructor` | sys/sys/tree.h:76-78 | an empty valid tree |
| `SplayTree.Head.LinkLeft` | sys/sys/tree.h:104-108 | the root and what is after it join the right tree; nothing is lost or reordered |
| `SplayTree.Head.LinkRight` | sys/sys/tree.h:110-114 | the mirror image |
| `SplayTree.Head.Assemble` | sys/sys/tree.h:116-121 | the three trees become one search tree with the old listing and the middle root at the root |
| `SplayTree.Head.Splay` | sys/sys/tree.h:213-246 | for every tree and element: same listing, and at the root an equal node or else an in-order neighbour of the element's place; it ends |
| `SplayTree.Head.Insert` | sys/sys/tree.h:168-190 | set insertion: an equal node is returned and at the root, or the element is put at its place and is the root |
| `SplayTree.Head.Remove` | sys/sys/tree.h:192-211 | set removal: nothing equal and nothing changed, or exactly the equal node is gone from the listing |
| `SplayTree.Head.Find` | sys/sys/tree.h:131-141 | an equal node, now the root, or none exists; the listing stays |
| `SplayTree.Head.MinMax` | sys/sys/tree.h:248-282 | the first or last node of the listing becomes the root |
| `SplayTree.Head.Next` | sys/sys/tree.h:143-155 | the next node of the listing |
| `SplayTree.Head.Meaning` | sys/sys/tree.h:80-88 | the links of a valid tree are those of an inductive tree listing `order` without repetition |
| `FatEntry.GetPut` | sbin/fsck_msdosfs/fat.c:213-344 | reading an entry after writing it gives the written value, cut to the width and widened again, for FAT12, FAT16 and FAT32 |
| `FatEntry.GetPutExact` | sbin/fsck_msdosfs/fat.c:213-344 | nothing is lost for values below "bad" or from "bad" on |
| `FatEntry.GetPutOther` | sbin/fsck_msdosfs/fat.c:213-344 | writing an entry changes no other entry, also where FAT12 entries share a byte |
| `FatEntry.EntryIs` | sbin/fsck_msdosfs/fat.c:213-344 | an entry is three, four or seven half-bytes in a row, the lowest first |
| `FatCheck.MarksAre` | sbin/fsck_msdosfs/fat.c:230-310 | the stored values that stand for free, bad and last, by width |
| `FatChain.ExtendToChain` | sbin/fsck_msdosfs/fat.c:1053-1072 | with injective links, the walk from an unreferenced cluster ends: its chain exists |
| `FatChain.ChainUnique` | sbin/fsck_msdosfs/fat.c:1053-1072 | a cluster starts one chain only |
| `FatChain.ChainsDisjoint` | sbin/fsck_msdosfs/fat.c:953-963 | chains of different unreferenced clusters have no cluster in common |
| `FatScan.ScanClean` | sbin/fsck_msdosfs/fat.c:934-1004 | under a condition on the table before the scan and the answers, the scan leaves a clean table and clean head bits |
| `FatScan.ScanCleanOnlyIf` | sbin/fsck_msdosfs/fat.c:982-1001 | and only under this condition |
| `FatScan.AcceptedIff` | sbin/fsck_msdosfs/fat.c:982-1001 | the condition, which does not mention the scan, holds exactly when no refused question was about a link out of range or to a cluster that an earlier cluster still links to afterwards |
| `FatScan.RefusedCutLoops` | sbin/fsck_msdosfs/fat.c:994-1001 | a table in which, after a refused cut, no chain starts at a cluster with its head bit set |
| `FatScan.ScanHeads` | sbin/fsck_msdosfs/fat.c:953-963 | after the scan a head bit is set exactly on the clusters that nobody points to and that were not free or bad |
| `FatScan.ScanCounts` | sbin/fsck_msdosfs/fat.c:964-981 | the scan makes no cluster free or bad and unmakes none |
| `FatChain.CountIs` | sbin/fsck_msdosfs/fat.c:965-976 | what NumFree and NumBad count |
| `FatScan.ScanCovers` | sbin/fsck_msdosfs/fat.c:953-963 | after a clean scan every cluster in use is reached from a head or lies on a loop |
| `FatCheck.FatDescriptor.constructor` | sbin/fsck_msdosfs/fat.c:806-848 | every cluster is a possible head; the table is what the bytes say |
| `FatCheck.FatDescriptor.InitHeads` | sbin/fsck_msdosfs/fat.c:121-138 | every bit is set and the count is the number of clusters |
| `FatCheck.FatDescriptor.ClearHead` | sbin/fsck_msdosfs/fat.c:87-96 | one bit is cleared and the count still is the number of set bits |
| `FatCheck.FatDescriptor.IsHead` | sbin/fsck_msdosfs/fat.c:98-105 | the bit of the cluster |
| `FatCheck.FatDescriptor.IsHeadInRange` | sbin/fsck_msdosfs/fat.c:107-113 | an empty word means that no cluster of its range is a head |
| `FatCheck.FatDescriptor.GetNext` | sbin/fsck_msdosfs/fat.c:493-502 | the link of a valid cluster, CLUST_DEAD otherwise |
| `FatCheck.FatDescriptor.SetNext` | sbin/fsck_msdosfs/fat.c:504-518 | in the bytes exactly the one entry changes; a cluster out of range is an error and changes nothing |
| `FatCheck.FatDescriptor.ScanCluster` | sbin/fsck_msdosfs/fat.c:965-1002 | what one cluster does to links, head bits, counters and hint |
| `FatCheck.FatDescriptor.Scan` | sbin/fsck_msdosfs/fat.c:964-1004 | for all answers: exactly the faulty links with answer yes are cut; NumFree and NumBad are right; the hint is the first free cluster; the table is clean if and only if the table before and the answers satisfy `Accepted` |
| `FatCheck.ReadFat` | sbin/fsck_msdosfs/fat.c:806-1013 | from the bytes: a valid descriptor, ready for all later checks if and only if `Accepted`, and reported as modified exactly when a link changed |
| `FatRepair.TruncatedChain` | sbin/fsck_msdosfs/fat.c:1080-1110 | in a clean table "Clear" is never proposed; after the repair the kept clusters are a chain ending in EOF, the table is clean and the counts are as before |
| `FatCheck.FatDescriptor.CheckChain` | sbin/fsck_msdosfs/fat.c:1033-1114 | the head bit is cleared; all clusters count but a last one marked free or bad; the result, and the one entry changed, by how the chain ends and by the answer |
| `FatRepair.FreedCount` | sbin/fsck_msdosfs/fat.c:1125-1132 | how clearing a chain changes the number of free clusters |
| `FatCheck.FatDescriptor.ClearChain` | sbin/fsck_msdosfs/fat.c:1119-1134 | exactly the clusters of the chain become free, each counted once |
| `FatRepair.DroppedChain` | sbin/fsck_msdosfs/dir.c:451-459 | dropping the tail of a chain keeps the table clean, the front a chain ending in EOF, and the number of free clusters exact |
| `FatRepair.DropLoopEnds` | sbin/fsck_msdosfs/dir.c:452-456 | for every cluster size that divides 2^32: with 32-bit wrap-around some iteration reaches the size if and only if size + cluster size <= 2^32 |
| `FatCheck.FatDescriptor.Drop` | sbin/fsck_msdosfs/dir.c:450-459 | what is left is the least number of clusters, and at least one, that holds the size; free clusters stay counted |
| `FatCheck.FatDescriptor.CheckSize` | sbin/fsck_msdosfs/dir.c:385-464 | the result by bytes held and answers, also for a file of 4 GiB - 1 bytes; with all answers yes never an error, and what a no refuses stays as it was; unless it is an error the entry has exactly the clusters its size needs, in a chain ending in EOF; other chains are untouched; the table stays clean and the counters right |
| `FatCases.DropsForever` | sbin/fsck_msdosfs/dir.c:445-459 | for every cluster size that divides 2^32 and every size within one cluster of it: a clean table and a file on which the drop loop is started and its sum never reaches the size |
| `FatCases.DropsForeverExample` | sbin/fsck_msdosfs/dir.c:445-459 | 4 GiB - 1 bytes in 65537 clusters of 64 KiB |
| `FatRepair.OutcomeClean` | sbin/fsck_msdosfs/fat.c:1274-1290 | what happens to one lost chain keeps the table clean, and by how much the counts go off |
| `FatRepair.OutcomeIs` | sbin/fsck_msdosfs/fat.c:1274-1290 | which entries of a lost chain become free, which one EOF, and which stay |
| `FatCheck.FatDescriptor.LostChain` | sbin/fsck_msdosfs/fat.c:1275-1288 | one lost chain: checked, reconnected or cleared as the answers say |
| `FatCheck.FatDescriptor.CheckLost` | sbin/fsck_msdosfs/fat.c:1244-1292 | skipping empty words and stopping on the counter, every head is treated exactly once, on its own chain as it was at the start; no head is left; a sound chain stays unless reconnecting failed and the answer was yes; the counters are off by the drift and by nothing else |
| `FatCases.DriftExample` | sbin/fsck_msdosfs/fat.c:1119-1134 | a scanned, clean table with a chain into a free or bad cluster after whose clearing NumFree or NumBad is off by one |
| `FatCache.TransfersWhole` | sbin/fsck_msdosfs/fat.c:346-355 | every chunk is transferred whole if and only if the FAT size is not an odd number of chunks |
| `FatCache.Cache.constructor` | sbin/fsck_msdosfs/fat.c:732-776 | the first 32 chunks are buffered, clean, and stand for the FAT on disk |
| `FatCache.Cache.Flush` | sbin/fsck_msdosfs/fat.c:357-381 | a dirty chunk is written to its place and nowhere else; the flat FAT is the same |
| `FatCache.Cache.GetEntry` | sbin/fsck_msdosfs/fat.c:383-438 | the chunk is at the head of the queue; the others keep their order; the least recently used one was evicted only on a miss; addresses stay distinct |
| `FatCache.Cache.GetNext` | sbin/fsck_msdosfs/fat.c:458-474 | the cached read is the read of the flat FAT, for every cluster and every earlier sequence of reads and writes |
| `FatCache.Cache.SetNext` | sbin/fsck_msdosfs/fat.c:476-491 | the cached write is the write to the flat FAT |
| `FatCache.Cache.WriteBack` | sbin/fsck_msdosfs/fat.c:1200-1216 | after flushing all entries the disk holds the flat FAT and nothing before it changed |
| `Bigints.Bigint.constructor` | contrib/gdtoa/misc.c:43-83 | a big integer of capacity 2^k without words |
| `Bigints.MultAdd` | contrib/gdtoa/misc.c:157-212 | value b * m + a, normalised if b is, in a larger buffer where needed |
| `Bigints.Lshift` | contrib/gdtoa/misc.c:433-485 | value b * 2^k, normalised if b is, within the capacity allocated |
| `BigShift.Rshift` | contrib/gdtoa/gmisc.c:34-65 | value floor(b / 2^k), normalised if b is |
| `BigShift.AnyOn` | contrib/gdtoa/smisc.c:163-191 | true if and only if b mod 2^k is not 0, for every k |
| `BigCompare.Cmp` | contrib/gdtoa/misc.c:487-519 | the sign is the order of the values |
| `BigCompare.Diff` | contrib/gdtoa/misc.c:521-613 | the distance of the values, normalised, and which one is larger |
| `BigCompare.Sum` | contrib/gdtoa/sum.c:34-98 | the sum, by half-word carries, in a larger buffer where needed |
| `BigCompare.HalvesAdd` | contrib/gdtoa/sum.c:59-63 | adding by halves of words is adding words with carry |
| `BigCompare.Increment` | contrib/gdtoa/strtodg.c:47-90 | value b + 1; one word more only when it became a power of 2^32 |
| `HexBits.Hi0Bits` | contrib/gdtoa/misc.c:214-246 | the number of leading zero bits, 32 for 0 |
| `BigMult.Mult` | contrib/gdtoa/misc.c:264-372 | the product, normalised, within the capacity allocated |
| `PowFive.FromInt` | contrib/gdtoa/misc.c:248-262 | the big integer of one word |
| `PowFive.Powers.First` | contrib/gdtoa/misc.c:393-406 | the list starts with 625 and earlier nodes stay |
| `PowFive.Powers.Next` | contrib/gdtoa/misc.c:415-428 | the node after 5^(4 * 2^i) is its square, made when missing; earlier nodes stay |
| `PowFive.Powers.Pow5Mult` | contrib/gdtoa/misc.c:376-431 | value b * 5^k for every k, whatever earlier calls put on the list, whose i-th node stays 5^(4 * 2^i) |
| `PowFive.FromDecimal` | contrib/gdtoa/smisc.c:34-70 | the value of the digit string, with or without a decimal point |
| `PowFive.DecimalJoins` | contrib/gdtoa/smisc.c:34-70 | the value of digits by their places, powers of ten apart |
| `PowFive.DecimalExample` | contrib/gdtoa/smisc.c:34-70 | "90271" is 90271 |
| `PowFive.NumeralIs` | contrib/gdtoa/smisc.c:56-68 | the digits of a text are those before and behind its decimal point |
| `DecimalCheck.Plan` | contrib/gdtoa/strtodg.c:719-749 | the exponents put the three numbers on one scale, common powers of two cancelled |
| `DecimalCheck.Scale` | contrib/gdtoa/strtodg.c:715-766 | bb, bd and bs are the same positive multiple of rvb * 2^rve, of digits * 10^e and of half an ulp |
| `DecimalCheck.Compare` | contrib/gdtoa/strtodg.c:714-775 | with all numbers real: delta is zero, dsign is set, and cmp(delta, bs) is negative or zero exactly as rvb * 2^rve, digits * 10^e and half an ulp compare; so does twice delta |
| `DecimalSettle.UlpIsUnit` | contrib/gdtoa/strtodg.c:736-739 | the ulp is the unit of the format: in it the approximation is a number of the format, with its one significand |
| `DecimalNearest.NearestIsRounded` | contrib/gdtoa/strtodg.c:800-868 | rounding a real number to nearest, ties to even, is on integers what rounding means for hexadecimal input |
| `BigOnes.AllOn` | contrib/gdtoa/strtodg.c:124-141 | true if and only if the low n bits are ones |
| `BigOnes.SetOnes` | contrib/gdtoa/strtodg.c:143-169 | value 2^n - 1, in a larger buffer where needed |
| `BigOnes.Decrement` | contrib/gdtoa/strtodg.c:92-122 | value b - 1 |
| `DecimalSettle.Decide` | contrib/gdtoa/strtodg.c:769-868 | the tests of the loop in nearest mode, on the big integers, choose what the real numbers say |
| `DecimalSettle.SettledRight` | contrib/gdtoa/strtodg.c:800-868 | for all guesses and all reals: the loop stops exactly within half an ulp, and its result is the correct rounding if and only if the input is in none of three families |
| `DecimalSettle.Settle` | contrib/gdtoa/strtodg.c:714-997 | decision, step up or down, and final shift on the big integers: the same for the number returned |
| `DecimalSettle.TieExample` | contrib/gdtoa/strtodg.c:817-826 | 1.5 times the smallest number becomes the smallest normal number, although twice the smallest is nearest |
| `DecimalSettle.DropExample` | contrib/gdtoa/strtodg.c:832-843 | 2^(n-1) - 0.3, approximated by 2^(n-1) in n bits, gets an exponent too small by n - 1 |
| `Rounding.RoundedDown` | contrib/gdtoa/gethex.c:310-346 | when keeping the leading bits is the correct rounding |
| `Rounding.RoundedUp` | contrib/gdtoa/gethex.c:310-346 | when adding one is, also where this renormalises |
| `Rounding.CutMore` | contrib/gdtoa/gethex.c:299-308 | the two lost-bits flags stay exact when more bits are shifted out |
| `Rounding.NoOverflow` | contrib/gdtoa/gethex.c:255-263 | a value with a rounding within the exponent range does not overflow: no other rounding of it is beyond |
| `Rounding.OverflowAnswer` | contrib/gdtoa/gethex.c:255-263 | on overflow the format has a correct finite answer if and only if the direction is toward zero, and it is the largest number |
| `Rounding.ModeIs` | contrib/gdtoa/gethex.c:310-326 | with signs: rounding up is not below, rounding down not above, and no number of the format lies between |
| `Rounding.FormatHas` | contrib/gdtoa/gdtoa.h:86-93 | the numbers of a format are all c * 2^e with at most nbits bits and e from emin on |
| `Rounding.FormatOnce` | contrib/gdtoa/gdtoa.h:86-93 | and each of them is written in one way |
| `HexDigits.ReadDigits` | contrib/gdtoa/gethex.c:201-231 | the digits, point or not, packed from the right are the value of the text, in a buffer that is large enough |
| `HexDigits.HexDigitIs` | contrib/gdtoa/hd_init.c:48-55 | the digits are those of base 16 in either case |
| `HexDigits.HexRead` | contrib/gdtoa/gethex.c:201-231 | read from the left, each digit appends to sixteen times the value before, and a point changes nothing |
| `HexDigits.HexExample` | contrib/gdtoa/gethex.c:201-231 | "1aF.0c" is 0x1af0c |
| `HexFloat.Fit` | contrib/gdtoa/gethex.c:232-254 | exactly nbits bits, and the flags say what was shifted out |
| `HexFloat.Denormalise` | contrib/gdtoa/gethex.c:299-308 | the exponent is emin and the flags still say what was shifted out |
| `HexFloat.RoundOff` | contrib/gdtoa/gethex.c:310-346 | the correct rounding in the given mode and sign, with exact flags; infinity only when this rounding, the exponent unbounded, is beyond the largest exponent |
| `HexFloat.Tiny` | contrib/gdtoa/gethex.c:268-297 | the underflow exit rounds correctly if and only if the mode is not nearest or the value is neither just above half the smallest number nor, with one bit, exactly half of it |
| `HexFloat.AboutHalfExample` | contrib/gdtoa/gethex.c:270-273 | a value, in the format of doubles, that the underflow exit rounds to 0 although 1 is nearer |
| `HexFloat.OneBitExample` | contrib/gdtoa/gethex.c:271-272 | a tie in a one-bit format that it rounds to 1, although 0 is even |
| `HexFloat.OverflowExample` | contrib/gdtoa/gethex.c:255-263 | 2^1024 as a double, in every mode and sign: it overflows, and toward zero the largest double is the answer |
| `HexFloat.GetHex` | contrib/gdtoa/gethex.c:201-349 | for every text, exponent, format, mode and sign: infinity if and only if the exact value overflows; through the final exit the result is the correct rounding of the exact value (ties to even), fits the format, is classified as normal or denormal, and Inexlo, Inexhi or neither say whether it is below, above or equal; the underflow exit exactly as `Tiny` |
| `QuickSort.Med3IsMedian` | lib/libc/stdlib/qsort.c:137-147 | the chosen element is a median: no two of the three are both before or both after it |
| `QuickSort.Pivot` | lib/libc/stdlib/qsort.c:181-193 | above 7 elements the pivot has another element not after it and one not before it |
| `QuickSort.BothShorter` | lib/libc/stdlib/qsort.c:181-193 | with such a pivot no side of the split is longer than n - 2 |
| `QuickSort.VecSwap` | lib/libc/stdlib/qsort.c:112-125 | two blocks change places |
| `QuickSort.InsertionSort` | lib/libc/stdlib/qsort.c:173-180 | the stretch is sorted, a permutation, and nothing outside changes |
| `QuickSort.Scan` | lib/libc/stdlib/qsort.c:195-221 | equal elements at both ends, smaller and larger ones between; without a swap nothing has moved |
| `QuickSort.PartedJoin` | lib/libc/stdlib/qsort.c:231-240 | the two block swaps bring smaller, equal and larger elements into order |
| `QuickSort.Partition` | lib/libc/stdlib/qsort.c:181-240 | a permutation, split into smaller, equal and larger elements when something moved, above 7 elements each side at least two shorter than the whole; otherwise only the pivot has moved |
| `QuickSort.LocalQsort` | lib/libc/stdlib/qsort.c:160-268 | sorted, a permutation, nothing outside changes, recursion depth at most log2(n), for every total preorder |
| `QuickSort.Qsort` | lib/libc/stdlib/qsort.c:160-268 | the same for the whole array |
| `SortSpec.SortedIntegers` | lib/libc/stdlib/qsort.c:160-268 | compared by difference, sorted integers do not decrease |
| `KobjMethods.LookupMi` | sys/kern/subr_kobj.c:168-189 | an entry of the class itself wins, and the first one of it; otherwise the first base class in which the search finds something decides; nothing is found exactly when no class reached through base classes has an entry |
| `KobjMethods.SearchOrder` | sys/kern/subr_kobj.c:168-189 | where a class stands among its base classes |
| `KobjMethods.NothingFound` | sys/kern/subr_kobj.c:168-189 | the search covers exactly the classes that can be reached |
| `KobjMethods.FirstIsFirst` | sys/kern/subr_kobj.c:153-166 | what is found is a method for the operation with none for it before; nothing is found exactly when there is none |
| `KobjMethods.LookupMethod` | sys/kern/subr_kobj.c:191-204 | the slow result, with the default, is returned and put into the slot, and nothing else changes |
| `KobjMethods.OpLookup` | sys/sys/kobj.h:240-249 | the cached lookup returns the slow result and keeps every slot faithful, although slots are shared |
| `KobjMethods.Registry.Register` | sys/kern/subr_kobj.c:91-97 | every operation has its own number, never changed |
| `KobjSafety.Keeps` | sys/kern/subr_kobj.c:108-322 | every event of every thread keeps the invariant: counts, current tables, ownership |
| `KobjSafety.KeepsCaches` | sys/sys/kobj.h:240-249 | every event keeps every compiled table faithful to the slow search |
| `KobjSafety.RunSafe` | sys/kern/subr_kobj.c:206-322 | in every state of every run: each live object uses the current table of its class, no table of a live object is about to be freed, and no table is held by two threads, so none is freed twice |
| `KobjSafety.LookupExact` | sys/sys/kobj.h:240-249 | in every state of every run a cache hit is what the slow search returns |
| `KobjTidy.RunTidy` | sys/kern/subr_kobj.c:108-322 | in every state of every run a table in memory belongs to a class or a thread, and the table of a class without references is about to be used or freed, unless compiling it was asked for |
| `KobjTidy.RestTidy` | sys/kern/subr_kobj.c:206-236 | when all threads are idle, every table is that of a class, and a class that nobody asked to compile has one only while it has references |
| `KobjTidy.LastDelete` | sys/kern/subr_kobj.c:297-322 | kobj_delete of the last object frees the table and the object |
| `DeviceTree.Bus.constructor` | sys/kern/subr_bus.c:1368-1396 | no devices |
| `DeviceTree.Bus.AddChild` | sys/kern/subr_bus.c:1368-1404 | a new device without references, not present |
| `DeviceTree.RaisedBalanced` | sys/kern/subr_bus.c:1150-1160 | one open reference more, and every count is again own references plus busy children |
| `DeviceTree.LoweredBalanced` | sys/kern/subr_bus.c:1165-1179 | one open reference less, and every count is again own references plus busy children |
| `DeviceTree.CountsDetermined` | sys/kern/subr_bus.c:1150-1179 | the open references determine every count |
| `DeviceTree.Restored` | sys/kern/subr_bus.c:1150-1179 | device_unbusy after device_busy restores every count and every state |
| `DeviceTree.StatesAfterBusy` | sys/kern/subr_bus.c:1150-1160 | exactly the attached devices whose count grew become busy |
| `DeviceTree.StatesAfterUnbusy` | sys/kern/subr_bus.c:1165-1179 | exactly the busy devices whose count went to zero become attached |
| `DeviceTree.BusyAbove` | sys/kern/subr_bus.c:1150-1160 | every ancestor of a busy device is busy |
| `DeviceTree.Bus.DeviceBusy` | sys/kern/subr_bus.c:1150-1160 | without panic, one reference more, counts and states right in the whole tree |
| `DeviceTree.Bus.DeviceUnbusy` | sys/kern/subr_bus.c:1165-1179 | matched with an earlier device_busy it does not panic; one reference less, counts and states right in the whole tree |
| `DeviceTree.Bus.BeginAttach` | sys/kern/subr_bus.c:1660-1660 | the device is attaching; counts and states stay right |
| `DeviceTree.Bus.EndAttach` | sys/kern/subr_bus.c:1661-1689 | busy exactly when the count is not zero, not present after an error |
| `DeviceTree.Bus.BeginDetach` | sys/kern/subr_bus.c:2314-2322 | a busy or attaching device, and any with a busy device below it, is refused before the driver is called |
| `DeviceTree.Bus.EndDetach` | sys/kern/subr_bus.c:2323-2345 | whatever references were taken and given back meanwhile: counts and states agree afterwards if and only if the driver failed or no reference is open |
| `DeviceTree.Bus.Detach` | sys/kern/subr_bus.c:2307-2345 | the two halves around a driver method that takes no reference: a device with a busy device below it is refused; after success nothing below it is busy; counts and states right |
| `DeviceTree.DetachedBusyExample` | sys/kern/subr_bus.c:2340-2340 | a device that its driver kept busy while detaching is left not present and busy |
| `FtsWalk.StepVisits` | lib/libc/gen/fts.c:304-493 | each step returns the next visit of what remains of the recursive traversal |
| `FtsWalk.WalkIsTraversal` | lib/libc/gen/fts.c:304-493 | the steps from opening on are the recursive traversal, and they end, also on cyclic directory graphs |
| `FtsRoutes.SeenIff` | lib/libc/gen/fts.c:744-745 | exactly "." and ".." are skipped |
| `FtsRoutes.SeenJoins` | lib/libc/gen/fts.c:742-829 | the others are seen in order, each as often as it is there |
| `FtsRoutes.WalkAllJoins` | lib/libc/gen/fts.c:304-493 | entries are traversed in order |
| `FtsRoutes.WalkEnds` | lib/libc/gen/fts.c:304-493 | a directory that is entered comes first and last, the second time as unreadable if it is |
| `FtsRoutes.JoinIs` | lib/libc/gen/fts.c:300-302 | a slash is put between directory and name, unless it is there |
| `FtsRoutes.VisitsAreRoutes` | lib/libc/gen/fts.c:304-493 | the visits are the ends of the routes from the roots through readable directories, each entered once on the way: all of them, and nothing else |
| `FtsStream.Stream.constructor` | lib/libc/gen/fts.c:154-204 | the roots, in order, behind a dummy entry |
| `FtsStream.Stream.Stat` | lib/libc/gen/fts.c:928-961 | a directory is a cycle exactly when it is on the parent chain |
| `FtsStream.Stream.ReadNames` | lib/libc/gen/fts.c:727-829 | the loop: behind the slash in the buffer each name is written in turn, the directory before it stays |
| `FtsStream.Stream.Build` | lib/libc/gen/fts.c:627-873 | a list of the entries of the directory but "." and "..", in order, each classified while its path is in the buffer, with the length of that path; the buffer is back to the path of the directory |
| `FtsStream.Stream.Read` | lib/libc/gen/fts.c:304-493 | one step of the machine on linked entries; the returned entry and the path buffer are the visit |
| `FtsStream.ReadAll` | lib/libc/gen/fts.c:304-493 | for every file system and all roots, the entries and paths returned, call after call, are the recursive traversal, which visits the ends of all routes, and there is a last one |
| `FatLayout.ClustersFit` | sbin/newfs_msdos/mkfs_msdos.c:552-556 | the estimate of the cluster count, rounded to sectors, is not exceeded by what is left for clusters |
| `FatLayout.LayoutFacts` | sbin/newfs_msdos/mkfs_msdos.c:545-561 | the chosen FAT size holds the entries, leaves room, and bounds the clusters behind it |
| `FatLayout.ClusterRanges` | sbin/newfs_msdos/mkfs_msdos.c:75-80 | the numbers of clusters of the three types adjoin and stay below the reserved values |
| `FatLayout.MakeLayout` | sbin/newfs_msdos/mkfs_msdos.c:545-592 | when it succeeds with at most 2 * sectors-per-cluster FATs, the checker's cluster count is at most the checker's number of FAT entries, for all sector sizes and FAT types; the two reserved entries fit too if and only if the geometry is `Roomy` |
| `FatLayout.TooManyFats` | sbin/fsck_msdosfs/boot.c:257-319 | for every larger number of FATs a volume, with a root directory and accepted by the formatter, that fails the checker's test |
| `FatVolume.HoldsEntries` | sbin/fsck_msdosfs/fat.c:213-344 | a FAT of so many bytes holds n entries, FAT12 ones across bytes, if and only if n is at most the number of entries the checker computes |
| `FatVolume.ScanInside` | sbin/fsck_msdosfs/boot.c:304-326 | the scan stays inside the FAT if and only if clusters + 2 is at most the number of entries |
| `FatVolume.DerivedIs` | sbin/fsck_msdosfs/boot.c:273-302 | the limits from which the FAT type is derived |
| `FatVolume.Formatted` | sbin/newfs_msdos/mkfs_msdos.c:545-592 | on what the formatter makes this is so if and only if the geometry is `Roomy`; then the checker derives the FAT type that was made, if and only if it is FAT12 or not the smallest volume of its type |
| `FatVolume.FormattedThenRead` | sbin/fsck_msdosfs/fat.c:806-1013 | the layout of a roomy geometry, whatever its FAT then contains, is read by the checker without leaving it, with the clean condition on its bytes |
| `FatVolume.ShortFat` | sbin/fsck_msdosfs/boot.c:315-326 | a volume that the formatter makes and the checker accepts, and whose scan reads an entry from byte 511 of a FAT of 512 bytes |
| `FatVolume.SmallestFat16` | sbin/fsck_msdosfs/boot.c:294-297 | the smallest FAT16 volume is taken for FAT12 |

## Left out

- Trees: RB_AUGMENT, the post-order and reverse traversals, RB_FOREACH_SAFE and SPLAY_FOREACH; the amortised cost of splaying. SPLAY_MINMAX with argument 0, which does not end, is outside the model.
- FAT checker: reading and writing of sectors, I/O errors, read-only mode (all questions are then answered no, and the model writes only after a yes), the first two FAT entries, `copyfat`, the FSInfo part of `checklost`, directories, and how `reconnect` works; its result is a parameter.
- CheckSize: when, and only when, the loop that drops clusters is started (`Drops`: superfluous clusters and answer yes), size + cluster size is at most 2^32; otherwise that loop does not end (`DropLoopEnds`, `DropsForever`), so there is no result to state. The bytes of the directory entry are a head and a size.
- Scan: assumes, like `ReadFat` and every other method of `FatDescriptor`, that the FAT holds an entry for every cluster number below NumClusters (`Holds` in `Valid`). The code does not establish this: `ScanInside` says exactly when it is so, `Formatted` for which formatted volumes, `ShortFat` is a volume where it is not; what the original reads there is outside the FAT and not modelled.
- FatDescriptor: the scan and the checks are over a FAT in memory; that the cached accessors stand for the same flat FAT is proved for the cache on its own.
- Cache: each buffered chunk is an array of its own, while the original cuts them from one buffer filled by one read. The disk must reach to the end of the last whole chunk.
- gdtoa: the free lists of `Balloc` and `Bfree`, the locks of `pow5mult`, `trailz`, `lo0bits`, `copybits`, and everything in hardware floating point: the first guess of `strtodg`, its adjustments and early stopping tests. Shifts and masks are written as multiplication, division and remainder; word and exponent counts are unbounded.
- GetHex: starts with the digits and the exponent already located in the text; the scan of the text, the exits for exponents of nine digits and more, and `errno` are not modelled.
- Settle: one pass of the loop in nearest mode, without sudden underflow and overflow; which guesses the earlier passes lead to depends on hardware floating point.
- Rounded: in a format of one bit all nonzero significands are odd; a tie between two nonzero numbers then goes up, a tie with zero to zero.
- Qsort: elements are values, not bytes of a size known at run time.
- Kernel objects: reference counts are unbounded; allocation does not fail; `kobj_init_static`; classes are finite trees of base classes. Callers are assumed not to delete an object that another thread initialises, deletes or calls, and default methods carry their own operation.
- Detach: composes the halves for a driver method that takes no reference; what happens otherwise is `EndDetach`.
- Devices: what driver methods do is a parameter; `device_delete_child`, driver and devclass bookkeeping are left out. `device_busy` is called on devices that are attaching or attached, like their ancestors up to the first busy one; it panics otherwise. A driver that fails to attach leaves no reference.
- ReadAll: walks with FTS_NOCHDIR and without FTS_SEEDOT, FTS_XDEV, FTS_NOSTAT, FTS_WHITEOUT, comparison function, instructions (`fts_set`) and changes of directory, of a file system that does not change; allocation does not fail. `fts_load` shortens `fts_name` of a root; the model does not.
- MakeLayout: the FAT size is chosen by the formatter, without alignment; the choice of the cluster size and of the reserved sectors is made before. For volumes that are not `Roomy` the FAT type the checker derives is not compared with the formatter's.
