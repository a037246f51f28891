/** From file sectors to device sectors: fat_bmap, and fat_get_block, which allocates as a file grows. */
module BlockMap {
  import opened Arithmetic
  import opened FatDefs
  import opened FatTable
  import opened FatChains
  import opened FatVolume
  import opened ClusterWalk
  import opened ExtentCache
  import opened ChainLedger
  import opened Files

  const MSDOS_ROOT_INO: nat := 1

  /** Where the data area lies. Sectors are blocks of the device. */
  datatype Layout = Layout(blockSize: pos, secPerClus: pos, dataStart: pos, dirStart: pos, rootBlocks: nat)

  /** fat_clus_to_blknr */
  function ClusToBlk(lay: Layout, clus: int): int {
    (clus - FAT_START_ENT) * lay.secPerClus + lay.dataStart
  }

  /** The device sector of sector number s of a file with clusters c. */
  ghost function BlockOf(lay: Layout, c: seq<int>, s: nat): int
    requires s / lay.secPerClus < |c|
  {
    ClusToBlk(lay, c[s / lay.secPerClus]) + s % lay.secPerClus
  }

  /** Division by the sectors per cluster, spelled out for one cluster index. */
  lemma InCluster(lay: Layout, ci: nat, off: nat, s: nat)
    requires off < lay.secPerClus && s == ci * lay.secPerClus + off
    ensures s / lay.secPerClus == ci && s % lay.secPerClus == off
  {
    QuotientUnique(lay.secPerClus, ci, off, s);
  }

  lemma SplitSector(lay: Layout, s: nat)
    ensures s == (s / lay.secPerClus) * lay.secPerClus + s % lay.secPerClus
    ensures 0 <= s % lay.secPerClus < lay.secPerClus
    ensures 0 <= s / lay.secPerClus
  {
    AddressFacts(lay.secPerClus, s);
  }

  /** The rest of a cluster is physically consecutive. */
  lemma Consecutive(lay: Layout, c: seq<int>, s: nat, i: nat)
    requires s / lay.secPerClus < |c| && s % lay.secPerClus + i < lay.secPerClus
    ensures (s + i) / lay.secPerClus < |c|
    ensures BlockOf(lay, c, s + i) == BlockOf(lay, c, s) + i
  {
    SplitSector(lay, s);
    InCluster(lay, s / lay.secPerClus, s % lay.secPerClus + i, s + i);
  }

  /** Different clusters have no sector in common. */
  lemma ClustersApart(lay: Layout, a: int, b: int, i: nat, j: nat)
    requires i < lay.secPerClus && j < lay.secPerClus
    requires ClusToBlk(lay, a) + i == ClusToBlk(lay, b) + j
    ensures a == b && i == j
  {
    assert (a - FAT_START_ENT + 1) * lay.secPerClus == (a - FAT_START_ENT) * lay.secPerClus + lay.secPerClus;
    assert (b - FAT_START_ENT + 1) * lay.secPerClus == (b - FAT_START_ENT) * lay.secPerClus + lay.secPerClus;
    MulMonotone(a - FAT_START_ENT + 1, b - FAT_START_ENT, lay.secPerClus);
    MulMonotone(b - FAT_START_ENT + 1, a - FAT_START_ENT, lay.secPerClus);
  }

  /** No device sector belongs to two files, or to one file twice. */
  lemma SectorsNeverShared(lay: Layout, s: Ledger, k: nat, l: nat, i: nat, j: nat)
    requires Sound(s) && k in s.chains && l in s.chains
    requires i / lay.secPerClus < |s.chains[k]| && j / lay.secPerClus < |s.chains[l]|
    requires BlockOf(lay, s.chains[k], i) == BlockOf(lay, s.chains[l], j)
    ensures k == l && i == j
  {
    var c, d := s.chains[k], s.chains[l];
    var ci, dj := i / lay.secPerClus, j / lay.secPerClus;
    SplitSector(lay, i);
    SplitSector(lay, j);
    ClustersApart(lay, c[ci], d[dj], i % lay.secPerClus, j % lay.secPerClus);
    assert k != l ==> Apart(c, d);
    assert c[ci] in c && d[dj] in d;
    assert ChainOk(s.fat, c);
    ChainDistinct(s.fat, c);
    assert ci == dj;
  }

  /** Sectors of the data area of a volume with a table of that many entries. */
  function DataSectors(lay: Layout, entries: nat): int {
    (entries - FAT_START_ENT) * lay.secPerClus
  }

  /** File sectors lie in the data area: after the table copies and the root directory, and before its end. */
  lemma InDataArea(lay: Layout, fat: seq<int>, c: seq<int>, s: nat)
    requires ChainOk(fat, c) && s / lay.secPerClus < |c|
    ensures lay.dataStart <= BlockOf(lay, c, s) < lay.dataStart + DataSectors(lay, |fat|)
  {
    SplitSector(lay, s);
    var x := c[s / lay.secPerClus];
    assert InRange(fat, x);
    MulMonotone(0, x - FAT_START_ENT, lay.secPerClus);
    MulMonotone(x - FAT_START_ENT + 1, |fat| - FAT_START_ENT, lay.secPerClus);
    NextMultiple(x - FAT_START_ENT, lay.secPerClus);
  }

  lemma NextMultiple(n: int, m: int)
    ensures (n + 1) * m == n * m + m
  {
  }

  /** The data area begins with the first cluster, and each cluster is followed by the next one. */
  lemma ClusterOrder(lay: Layout, x: int)
    ensures BlockOf(lay, [FAT_START_ENT], 0) == lay.dataStart
    ensures BlockOf(lay, [x + 1], 0) == BlockOf(lay, [x], 0) + lay.secPerClus
  {
    InCluster(lay, 0, 0, 0);
    NextMultiple(x - FAT_START_ENT, lay.secPerClus);
  }

  /** Every sector of the data area belongs to a cluster: counting clusters from 2 and their sectors from 0, to one
      place of one cluster. */
  lemma EverySector(lay: Layout, entries: nat, b: int)
    requires lay.dataStart <= b < lay.dataStart + DataSectors(lay, entries)
    ensures var d := b - lay.dataStart;
            var x, off := FAT_START_ENT + d / lay.secPerClus, d % lay.secPerClus;
            && FAT_START_ENT <= x < entries && 0 <= off < lay.secPerClus && off / lay.secPerClus == 0
            && BlockOf(lay, [x], off) == b
  {
    var d := b - lay.dataStart;
    AddressFacts(lay.secPerClus, d);
    MulMonotone(entries - FAT_START_ENT, d / lay.secPerClus, lay.secPerClus);
    QuotientUnique(lay.secPerClus, 0, d % lay.secPerClus, d % lay.secPerClus);
  }

  /** Whole blocks a byte count needs. */
  function BlocksFor(lay: Layout, bytes: nat): nat {
    (bytes + (lay.blockSize - 1)) / lay.blockSize
  }

  /** The sector count fat_bmap allows: the file size, or on the allocation path the allocated size. */
  function LastBlock(lay: Layout, size: nat, private_: nat, create: bool, s: nat): nat {
    if s >= BlocksFor(lay, size) && create then BlocksFor(lay, private_) else BlocksFor(lay, size)
  }

  /** The answer to a mapping request that found sector s of a file with clusters c. */
  ghost predicate MapsTo(lay: Layout, c: seq<int>, last: nat, s: nat, phys: nat, mapped: nat) {
    && s < last && s / lay.secPerClus < |c|
    && phys == BlockOf(lay, c, s) && phys > 0
    && mapped == Min(lay.secPerClus - s % lay.secPerClus, last - s) && mapped > 0
  }

  /** fat_bmap_cluster: the disk cluster at a position of the file, 0 for a file without clusters. */
  method BmapCluster(fs: FileSystem, k: nat, ino: FatInode, cluster: nat) returns (st: Status, dclus: int)
    requires fs.FilesOk() && k in fs.inodes && ino == fs.inodes[k]
    modifies ino`lru, ino`nrCaches, fs.vol`readFaults
    ensures fs.FilesOk() && fs.Now() == old(fs.Now())
    ensures fs.vol.readFaults >= old(fs.vol.readFaults)
    ensures st.Ok? ==>
              if fs.chains[k] == [] then dclus == 0 else cluster < |fs.chains[k]| && dclus == fs.chains[k][cluster] > 0
    ensures st.Err? && fs.vol.readFaults == old(fs.vol.readFaults) && |fs.chains[k]| <= ino.limit + 1 ==>
              0 < |fs.chains[k]| <= cluster
  {
    hide FileOk, Sound, CacheOk, FatOf, DiskOk, FileSystem.FilesOk, FileSystem.Open, FileSystem.OthersOk,
         FileSystem.ThisOk, IsChain, Walk, Volume.TableOk, Volume.HintsOk;
    fs.OpenFiles(k);
    ghost var s := fs.Now();
    fs.OpenFacts(s, k);
    if ino.start == 0 {
      fs.CloseFiles(s, k);
      return Ok, 0;
    }
    PositionFound(s.fat, s.chains[k], ino.limit, cluster);
    var r := fs.Seek(s, k, ino, cluster);
    fs.CloseFiles(s, k);
    if r.end == Reached {
      return Ok, r.dclus;
    }
    return Err(EIO), 0;
  }

  lemma PositionFound(fat: seq<int>, c: seq<int>, limit: nat, cluster: nat)
    requires |fat| < FAT_ENT_EOF && IsChain(fat, c)
    ensures var w := Walk(fat, limit, cluster, 0, c[0]);
            && (w.end == Reached ==> cluster < |c| && w.dclus == c[cluster] > 0)
            && (w.end != Reached && |c| <= limit + 1 ==> |c| <= cluster)
    ensures |c| > 0
  {
    WalkAlongChain(fat, c, limit, cluster, 0);
    assert cluster < |c| ==> InRange(fat, c[cluster]);
  }

  /** FAT12 and FAT16 keep the root directory outside the clusters. */
  predicate FixedRoot(g: Geometry, k: nat) {
    !g.bits.Fat32? && k == MSDOS_ROOT_INO
  }

  /** fat_bmap: the device sector of sector s and how many sectors follow it consecutively, or 0 and 0 when s lies
      beyond the file. */
  method Bmap(fs: FileSystem, lay: Layout, k: nat, ino: FatInode, s: nat, create: bool)
    returns (st: Status, phys: nat, mapped: nat)
    requires fs.FilesOk() && k in fs.inodes && ino == fs.inodes[k]
    requires 0 <= ino.size && 0 <= ino.mmuPrivate
    modifies ino`lru, ino`nrCaches, fs.vol`readFaults
    ensures fs.FilesOk() && fs.Now() == old(fs.Now())
    ensures fs.vol.readFaults >= old(fs.vol.readFaults)
    ensures FixedRoot(fs.vol.g, k) ==>
              st == Ok && if s < lay.rootBlocks then phys == lay.dirStart + s && mapped == 1
                          else phys == 0 && mapped == 0
    ensures !FixedRoot(fs.vol.g, k) ==>
              Answered(lay, fs.chains[k], LastBlock(lay, ino.size, ino.mmuPrivate, create, s), s, st, phys, mapped)
    ensures !FixedRoot(fs.vol.g, k) && st.Err? && fs.vol.readFaults == old(fs.vol.readFaults)
              && |fs.chains[k]| <= ino.limit + 1 ==>
              PastChain(lay, fs.chains[k], LastBlock(lay, ino.size, ino.mmuPrivate, create, s), s)
    ensures !FixedRoot(fs.vol.g, k) && s >= LastBlock(lay, ino.size, ino.mmuPrivate, create, s) ==> st.Ok?
  {
    hide FileOk, Sound, FatOf, DiskOk, FileSystem.FilesOk, IsChain, Volume.TableOk, BlocksFor, BlockOf, ClusToBlk;
    if FixedRoot(fs.vol.g, k) {
      if s < lay.rootBlocks {
        return Ok, s + lay.dirStart, 1;
      }
      return Ok, 0, 0;
    }
    var last := BlocksFor(lay, ino.size);
    if s >= last {
      if !create {
        return Ok, 0, 0;
      }
      last := BlocksFor(lay, ino.mmuPrivate);
      if s >= last {
        return Ok, 0, 0;
      }
    }
    SplitSector(lay, s);
    var cluster, offset := s / lay.secPerClus, s % lay.secPerClus;
    var dclus;
    st, dclus := BmapCluster(fs, k, ino, cluster);
    phys, mapped := 0, 0;
    if st.Ok? && dclus != 0 {
      MappedSector(fs, lay, k, s);
      phys := ClusToBlk(lay, dclus) + offset;
      mapped := lay.secPerClus - offset;
      if mapped > last - s {
        mapped := last - s;
      }
    }
  }

  /** A successful answer is a true mapping, or none because s is past the end or the file has no clusters. */
  ghost predicate Answered(lay: Layout, c: seq<int>, last: nat, s: nat, st: Status, phys: nat, mapped: nat) {
    && (st.Ok? && phys > 0 ==> MapsTo(lay, c, last, s, phys, mapped))
    && (st.Ok? && phys == 0 ==> mapped == 0 && (s >= last || c == []))
  }

  /** The size claims a sector the chain does not reach. */
  ghost predicate PastChain(lay: Layout, c: seq<int>, last: nat, s: nat) {
    c != [] && s < last && |c| <= s / lay.secPerClus
  }

  lemma MappedSector(fs: FileSystem, lay: Layout, k: nat, s: nat)
    requires fs.FilesOk() && k in fs.inodes && s / lay.secPerClus < |fs.chains[k]|
    ensures BlockOf(lay, fs.chains[k], s) == ClusToBlk(lay, fs.chains[k][s / lay.secPerClus]) + s % lay.secPerClus > 0
  {
    hide FileOk, CacheOk, FatOf, DiskOk, IsChain;
    assert ChainOk(fs.Now().fat, fs.Now().chains[k]);
    InDataArea(lay, fs.Now().fat, fs.chains[k], s);
  }

  // ----- fat_get_block -----

  /** The clusters are just enough for the allocated size, and the file is no larger. */
  ghost predicate SizesOk(lay: Layout, c: seq<int>, size: int, private_: int) {
    0 <= size <= private_ && |c| == ClustersFor(lay, BlocksFor(lay, private_))
  }

  function ClustersFor(lay: Layout, blocks: nat): nat {
    (blocks + lay.secPerClus - 1) / lay.secPerClus
  }

  lemma ClustersForSplit(lay: Layout, ci: nat, off: nat)
    requires off < lay.secPerClus
    ensures ClustersFor(lay, ci * lay.secPerClus + off) == if off == 0 then ci else ci + 1
  {
    if off == 0 {
      QuotientUnique(lay.secPerClus, ci, lay.secPerClus - 1, ci * lay.secPerClus + lay.secPerClus - 1);
    } else {
      assert (ci + 1) * lay.secPerClus == ci * lay.secPerClus + lay.secPerClus;
      QuotientUnique(lay.secPerClus, ci + 1, off - 1, ci * lay.secPerClus + off + lay.secPerClus - 1);
    }
  }

  /** Adding m blocks, up to the end of the cluster that block nblk lies in, needs that cluster and no more. */
  lemma GrowBlocks(lay: Layout, nblk: nat, m: nat)
    requires 1 <= m <= lay.secPerClus - nblk % lay.secPerClus
    ensures ClustersFor(lay, nblk + m) == nblk / lay.secPerClus + 1
    ensures ClustersFor(lay, nblk) == nblk / lay.secPerClus + if nblk % lay.secPerClus == 0 then 0 else 1
  {
    SplitSector(lay, nblk);
    var ci, off := nblk / lay.secPerClus, nblk % lay.secPerClus;
    ClustersForSplit(lay, ci, off);
    if off + m < lay.secPerClus {
      ClustersForSplit(lay, ci, off + m);
    } else {
      assert (ci + 1) * lay.secPerClus == ci * lay.secPerClus + lay.secPerClus;
      ClustersForSplit(lay, ci + 1, 0);
    }
  }

  lemma BlocksForAligned(lay: Layout, bytes: nat)
    requires bytes % lay.blockSize == 0
    ensures BlocksFor(lay, bytes) == bytes / lay.blockSize
  {
    AddressFacts(lay.blockSize, bytes);
    QuotientUnique(lay.blockSize, bytes / lay.blockSize, lay.blockSize - 1, bytes + (lay.blockSize - 1));
  }

  /** The allocated size reaches into the block before the one it ends at, and no further. */
  lemma BlocksForReach(lay: Layout, bytes: nat, x: nat)
    requires x * lay.blockSize == bytes || (x == bytes / lay.blockSize && x >= BlocksFor(lay, bytes))
    ensures x * lay.blockSize == bytes && bytes % lay.blockSize == 0
    ensures x == bytes / lay.blockSize && x == BlocksFor(lay, bytes)
  {
    AddressFacts(lay.blockSize, bytes);
    if x * lay.blockSize == bytes {
      QuotientUnique(lay.blockSize, x, 0, bytes);
    } else {
      AddressFacts(lay.blockSize, bytes + (lay.blockSize - 1));
      MulMonotone(BlocksFor(lay, bytes), x, lay.blockSize);
    }
    BlocksForAligned(lay, bytes);
  }

  lemma BlocksForMonotone(lay: Layout, a: nat, b: nat)
    requires a <= b
    ensures BlocksFor(lay, a) <= BlocksFor(lay, b)
  {
    var x, y := a + (lay.blockSize - 1), b + (lay.blockSize - 1);
    AddressFacts(lay.blockSize, x);
    AddressFacts(lay.blockSize, y);
    MulMonotone(y / lay.blockSize + 1, x / lay.blockSize, lay.blockSize);
    assert (y / lay.blockSize + 1) * lay.blockSize == (y / lay.blockSize) * lay.blockSize + lay.blockSize;
  }

  lemma MoreBlocks(lay: Layout, bytes: nat, m: nat)
    requires bytes % lay.blockSize == 0
    ensures (bytes + m * lay.blockSize) % lay.blockSize == 0
    ensures (bytes + m * lay.blockSize) / lay.blockSize == bytes / lay.blockSize + m
  {
    AddressFacts(lay.blockSize, bytes);
    assert (bytes / lay.blockSize + m) * lay.blockSize == (bytes / lay.blockSize) * lay.blockSize + m * lay.blockSize;
    QuotientUnique(lay.blockSize, bytes / lay.blockSize + m, 0, bytes + m * lay.blockSize);
  }

  /** What fat_get_block hands back for a block it did not find: the block at the old end of the file, mapped,
      with the allocated size moved past the count blocks now usable. */
  ghost predicate Extended(lay: Layout, old_: seq<int>, now: seq<int>, private0: int, private1: int,
                           iblock: nat, want: nat, phys: nat, count: nat)
  {
    && iblock * lay.blockSize == private0
    && count == Min(lay.secPerClus - iblock % lay.secPerClus, want) && count > 0
    && private1 == private0 + count * lay.blockSize
    && GrownFor(lay, old_, now, iblock)
    && iblock / lay.secPerClus == |now| - 1
    && phys == BlockOf(lay, now, iblock) && phys > 0
  }

  /** The sizes after extending, and why the second lookup must find the block. */
  lemma SizesExtended(lay: Layout, old_: seq<int>, now: seq<int>, size: int, private_: int, iblock: nat, count: nat)
    requires SizesOk(lay, old_, size, private_) && iblock * lay.blockSize == private_
    requires 1 <= count <= lay.secPerClus - iblock % lay.secPerClus
    requires |now| == |old_| + if iblock % lay.secPerClus == 0 then 1 else 0
    ensures SizesOk(lay, now, size, private_ + count * lay.blockSize)
    ensures LastBlock(lay, size, private_ + count * lay.blockSize, true, iblock) == iblock + count
    ensures |now| == iblock / lay.secPerClus + 1 && now != []
  {
    SplitSector(lay, iblock);
    BlocksForReach(lay, private_, iblock);
    MulMonotone(0, count, lay.blockSize);
    GrowBlocks(lay, iblock, count);
    MoreBlocks(lay, private_, count);
    BlocksForAligned(lay, private_);
    BlocksForAligned(lay, private_ + count * lay.blockSize);
    BlocksForMonotone(lay, size, private_);
  }

  lemma CeilingBounds(n: nat, m: nat)
    requires m > 0
    ensures var x: int := (n + m - 1) / m; 0 <= x && (x - 1) * m < n <= x * m
  {
    AddressFacts(m, n + m - 1);
  }

  /** Rounding up twice. */
  lemma CeilingTwice(n: nat, p: nat, q: nat, b: int, c: int)
    requires p > 0 && q > 0 && (b - 1) * p < n <= b * p && (c - 1) * q < b <= c * q
    ensures (c - 1) * (p * q) < n <= c * (p * q)
  {
    MulMonotone(b, c * q, p);
    MulMonotone((c - 1) * q, b - 1, p);
    Reorder(c, p, q);
    Reorder(c - 1, p, q);
  }

  lemma Reorder(c: int, p: int, q: int)
    ensures c * q * p == c * (p * q)
  {
  }

  lemma CeilingIs(n: nat, m: nat, c: int)
    requires m > 0 && (c - 1) * m < n <= c * m
    ensures (n + m - 1) / m == c
  {
    MulMonotone(c, -1, m);
    assert (c - 1) * m == c * m - m;
    QuotientUnique(m, c, n + m - 1 - c * m, n + m - 1);
  }

  /** Counting the clusters of a size through its blocks gives the clusters fat_truncate counts. */
  lemma ClustersThroughBlocks(lay: Layout, units: pos, size: nat)
    requires units * 512 == lay.blockSize * lay.secPerClus
    ensures ClustersNeeded(size, units) == ClustersFor(lay, BlocksFor(lay, size))
  {
    var b, c := BlocksFor(lay, size), ClustersFor(lay, BlocksFor(lay, size));
    CeilingBounds(size, lay.blockSize);
    CeilingBounds(b, lay.secPerClus);
    CeilingTwice(size, lay.blockSize, lay.secPerClus, b, c);
    CeilingIs(size, units * 512, c);
  }

  /** What fat_truncate leaves when nothing fails meets what fat_get_block asks of the sizes. */
  lemma TruncatedSizes(lay: Layout, units: pos, old_: seq<int>, now: seq<int>, size0: int, private0: int, size: int)
    requires units * 512 == lay.blockSize * lay.secPerClus
    requires SizesOk(lay, old_, size0, private0) && 0 <= size <= private0
    requires |now| == ClustersKept(|old_|, size, units)
    ensures SizesOk(lay, now, size, size)
  {
    hide ClustersNeeded, ClustersFor, BlocksFor;
    ClustersThroughBlocks(lay, units, size);
    ClustersThroughBlocks(lay, units, private0);
    NeededMonotone(size, private0, units);
  }

  lemma NeededMonotone(a: nat, b: nat, units: pos)
    requires a <= b
    ensures ClustersNeeded(a, units) <= ClustersNeeded(b, units)
  {
    QuotientMonotone(units * 512, a + units * 512 - 1, b + units * 512 - 1);
  }

  /** With the cluster that block iblock lies in, the chain is within the file-size limit. */
  predicate RoomFor(lay: Layout, c: seq<int>, limit: nat, iblock: nat) {
    |c| + (if iblock % lay.secPerClus == 0 then 1 else 0) <= limit + 1
  }

  /** now is old_, with one more cluster if block iblock begins one. */
  ghost predicate GrownFor(lay: Layout, old_: seq<int>, now: seq<int>, iblock: nat) {
    if iblock % lay.secPerClus == 0 then exists x :: now == old_ + [x] else now == old_
  }

  /** A cluster for the block at the end of the file, if it needs one. */
  method GrowFor(fs: FileSystem, lay: Layout, k: nat, ino: FatInode, iblock: nat)
    returns (st: Status, ghost broken: bool)
    requires fs.FilesOk() && k in fs.inodes && ino == fs.inodes[k]
    modifies fs`chains, fs.vol`blocks, fs.vol`prevFree, fs.vol`freeClusters, fs.vol`freeClusValid, fs.vol`readFaults,
             fs.vol`writeFaults, fs.vol`discarded
    modifies ino`start, ino`logstart, ino`lru, ino`nrCaches, ino`cacheValidId, ino`blocks512
    ensures !broken ==> fs.FilesOk() && k in fs.chains
    ensures broken ==> st.Err? && fs.vol.writeFaults > old(fs.vol.writeFaults)
    ensures st.Ok? ==> !broken && GrownFor(lay, old(fs.chains[k]), fs.chains[k], iblock)
    ensures st.Err? && fs.vol.writeFaults == old(fs.vol.writeFaults) ==> fs.chains == old(fs.chains)
    ensures fs.vol.readFaults >= old(fs.vol.readFaults) && fs.vol.writeFaults >= old(fs.vol.writeFaults)
    ensures fs.vol.readFaults == old(fs.vol.readFaults) && fs.vol.writeFaults == old(fs.vol.writeFaults)
            && RoomFor(lay, old(fs.chains[k]), ino.limit, iblock) && old(fs.vol.CountRight()) ==>
              Granted(lay, iblock, old(fs.vol.Fat()), st)
    ensures k in fs.chains && HeadFollows(old(fs.chains[k]), fs.chains[k], old(ino.start), old(ino.logstart), ino.start,
                                          ino.logstart)
    ensures st.Ok? || fs.vol.writeFaults == old(fs.vol.writeFaults) ==>
              (Counted(old(fs.chains[k]), ino.units, old(ino.blocks512)) ==>
                 Counted(fs.chains[k], ino.units, ino.blocks512))
  {
    hide FileOk, Sound, FatOf, DiskOk, FileSystem.FilesOk, IsChain, Volume.TableOk, Step, CleanStep, Snatched,
         HeadFollows, Counted;
    fs.OpenFiles(k);
    fs.OpenFacts(fs.Now(), k);
    HeadSame(fs.chains[k], ino.start, ino.logstart);
    st, broken := Ok, false;
    if iblock % lay.secPerClus == 0 {
      ghost var linked;
      st, linked, broken := fs.AddCluster(k, ino);
      if !broken {
        fs.OpenFiles(k);
      }
    }
  }

  /** Without device failures the block at the end is refused only when it needs a cluster and none is free. */
  ghost predicate Granted(lay: Layout, iblock: nat, fat: seq<int>, st: Status) {
    && (st.Ok? <==> iblock % lay.secPerClus != 0 || FreeCount(fat) >= 1)
    && (st.Err? ==> st == Err(ENOSPC))
  }

  /** The second fat_bmap of fat_get_block, for the block at the end that is now allocated. */
  method MapEnd(fs: FileSystem, lay: Layout, k: nat, ino: FatInode, iblock: nat, count: nat)
    returns (st: Status, phys: nat)
    requires fs.FilesOk() && k in fs.inodes && ino == fs.inodes[k] && !FixedRoot(fs.vol.g, k)
    requires 0 <= ino.size && 0 <= ino.mmuPrivate
              && LastBlock(lay, ino.size, ino.mmuPrivate, true, iblock) == iblock + count
    requires 0 < count <= lay.secPerClus - iblock % lay.secPerClus && iblock / lay.secPerClus == |fs.chains[k]| - 1
    modifies ino`lru, ino`nrCaches, fs.vol`readFaults
    ensures fs.FilesOk() && fs.Now() == old(fs.Now())
    ensures fs.vol.readFaults >= old(fs.vol.readFaults)
    ensures st.Ok? ==> phys == BlockOf(lay, fs.chains[k], iblock) > 0
    ensures |fs.chains[k]| <= ino.limit + 1 && fs.vol.readFaults == old(fs.vol.readFaults) ==> st.Ok?
  {
    hide FileOk, Sound, FatOf, DiskOk, FileSystem.FilesOk, IsChain, Volume.TableOk, BlockOf, ClusToBlk, LastBlock;
    var mapped;
    st, phys, mapped := Bmap(fs, lay, k, ino, iblock, true);
    if st.Ok? {
      assert phys > 0;              // BUG_ON(!phys)
      assert count == mapped;       // BUG_ON(*max_blocks != mapped_blocks)
    }
  }

  /** The part of fat_get_block that extends the file by the block at its end. */
  method ExtendFile(fs: FileSystem, lay: Layout, k: nat, ino: FatInode, iblock: nat, want: nat)
    returns (st: Status, phys: nat, count: nat, ghost broken: bool)
    requires fs.FilesOk() && k in fs.inodes && ino == fs.inodes[k] && !FixedRoot(fs.vol.g, k)
    requires SizesOk(lay, fs.chains[k], ino.size, ino.mmuPrivate) && 1 <= want
    requires iblock * lay.blockSize == ino.mmuPrivate
    modifies fs`chains, fs.vol`blocks, fs.vol`prevFree, fs.vol`freeClusters, fs.vol`freeClusValid, fs.vol`readFaults,
             fs.vol`writeFaults, fs.vol`discarded
    modifies ino`start, ino`logstart, ino`lru, ino`nrCaches, ino`cacheValidId, ino`blocks512, ino`mmuPrivate
    ensures !broken ==> fs.FilesOk()
    ensures broken ==> st.Err? && fs.vol.writeFaults > old(fs.vol.writeFaults)
    ensures !broken && (st.Ok? || fs.vol.writeFaults == old(fs.vol.writeFaults)) ==>
              k in fs.chains && SizesOk(lay, fs.chains[k], ino.size, ino.mmuPrivate)
    ensures fs.vol.readFaults >= old(fs.vol.readFaults) && fs.vol.writeFaults >= old(fs.vol.writeFaults)
    ensures fs.vol.readFaults == old(fs.vol.readFaults) && fs.vol.writeFaults == old(fs.vol.writeFaults)
            && RoomFor(lay, old(fs.chains[k]), ino.limit, iblock) && old(fs.vol.CountRight()) ==>
              Granted(lay, iblock, old(fs.vol.Fat()), st)
    ensures st.Ok? ==> Extended(lay, old(fs.chains)[k], fs.chains[k], old(ino.mmuPrivate), ino.mmuPrivate, iblock,
                                want, phys, count)
    ensures st.Ok? ==> phys > 0
    ensures k in fs.chains && HeadFollows(old(fs.chains[k]), fs.chains[k], old(ino.start), old(ino.logstart), ino.start,
                                          ino.logstart)
    ensures st.Ok? || fs.vol.writeFaults == old(fs.vol.writeFaults) ==>
              (Counted(old(fs.chains[k]), ino.units, old(ino.blocks512)) ==>
                 Counted(fs.chains[k], ino.units, ino.blocks512))
  {
    hide FileOk, Sound, FatOf, DiskOk, FileSystem.FilesOk, IsChain, Volume.TableOk, BlockOf, ClusToBlk, LastBlock,
         SizesOk, Step, ClustersFor, Granted, HeadFollows, Counted;
    fs.OpenFiles(k);
    fs.OpenFacts(fs.Now(), k);
    SplitSector(lay, iblock);
    phys, count := 0, 0;
    ghost var c0, private0 := fs.chains[k], ino.mmuPrivate;
    st, broken := GrowFor(fs, lay, k, ino, iblock);
    if st.Err? {
      return;
    }
    // as many as asked for, up to the end of the cluster
    count := Min(lay.secPerClus - iblock % lay.secPerClus, want);
    SizesExtended(lay, c0, fs.chains[k], ino.size, private0, iblock, count);
    PrivateGrows(lay, c0, ino.size, private0, count);
    fs.SetPrivateSize(k, ino, ino.mmuPrivate + count * lay.blockSize);
    st, phys := MapEnd(fs, lay, k, ino, iblock, count);
  }

  lemma PrivateGrows(lay: Layout, c: seq<int>, size: int, private_: int, count: nat)
    requires SizesOk(lay, c, size, private_)
    ensures 0 <= size && 0 <= private_ <= private_ + count * lay.blockSize
  {
    MulMonotone(0, count, lay.blockSize);
  }

  /** __fat_get_block: map block iblock of the file, allocating at its end when create is set. isNew marks a block
      that was not part of the file before. */
  method GetBlock(fs: FileSystem, lay: Layout, k: nat, ino: FatInode, iblock: nat, want: nat, create: bool)
    returns (st: Status, phys: nat, count: nat, isNew: bool, ghost broken: bool)
    requires fs.FilesOk() && k in fs.inodes && ino == fs.inodes[k] && !FixedRoot(fs.vol.g, k)
    requires SizesOk(lay, fs.chains[k], ino.size, ino.mmuPrivate) && 1 <= want
    modifies fs`chains, fs.vol`blocks, fs.vol`prevFree, fs.vol`freeClusters, fs.vol`freeClusValid, fs.vol`readFaults,
             fs.vol`writeFaults, fs.vol`discarded
    modifies ino`start, ino`logstart, ino`lru, ino`nrCaches, ino`cacheValidId, ino`blocks512, ino`mmuPrivate
    ensures !broken ==> fs.FilesOk()
    ensures broken ==> st.Err? && fs.vol.writeFaults > old(fs.vol.writeFaults)
    ensures !broken && (st.Ok? || fs.vol.writeFaults == old(fs.vol.writeFaults)) ==>
              k in fs.chains && SizesOk(lay, fs.chains[k], ino.size, ino.mmuPrivate)
    // a block within the file, or on the allocation path within its allocated size, is mapped
    ensures old(Within(lay, ino, create, iblock)) && |old(fs.chains[k])| <= ino.limit + 1
            && fs.vol.readFaults == old(fs.vol.readFaults) ==>
              st.Ok?
    ensures old(Within(lay, ino, create, iblock)) && st.Ok? ==> !isNew && phys > 0
    ensures st.Ok? && !isNew && phys > 0 ==>
              Existing(lay, fs.chains[k], old(LastBlock(lay, ino.size, ino.mmuPrivate, create, iblock)), iblock, want,
                       phys, count)
    // the block at the end is allocated when asked for
    ensures create && iblock * lay.blockSize == old(ino.mmuPrivate) && old(fs.vol.CountRight())
            && RoomFor(lay, old(fs.chains[k]), ino.limit, iblock)
            && fs.vol.readFaults == old(fs.vol.readFaults) && fs.vol.writeFaults == old(fs.vol.writeFaults) ==>
              Granted(lay, iblock, old(fs.vol.Fat()), st) && isNew == st.Ok?
    ensures isNew ==> st.Ok? && create
    ensures isNew ==> Extended(lay, old(fs.chains)[k], fs.chains[k], old(ino.mmuPrivate), ino.mmuPrivate, iblock, want,
                               phys, count)
    ensures st.Ok? && !isNew ==> fs.chains == old(fs.chains) && ino.mmuPrivate == old(ino.mmuPrivate)
    // any other block is not there, or refused
    ensures !create && iblock >= BlocksFor(lay, old(ino.size)) ==> st.Ok? && phys == 0
    ensures st.Ok? && phys == 0 ==> !isNew && !create && count == 0 && iblock >= BlocksFor(lay, old(ino.size))
    ensures create && iblock >= BlocksFor(lay, old(ino.mmuPrivate)) && iblock * lay.blockSize != old(ino.mmuPrivate) ==>
              st == Err(EIO)
    // the inode follows the chain
    ensures k in fs.chains && HeadFollows(old(fs.chains[k]), fs.chains[k], old(ino.start), old(ino.logstart), ino.start,
                                          ino.logstart)
    ensures st.Ok? || fs.vol.writeFaults == old(fs.vol.writeFaults) ==>
              (Counted(old(fs.chains[k]), ino.units, old(ino.blocks512)) ==>
                 Counted(fs.chains[k], ino.units, ino.blocks512))
  {
    hide FileOk, Sound, FatOf, DiskOk, FileSystem.FilesOk, IsChain, Volume.TableOk, BlockOf, ClusToBlk, ClustersFor,
         BlocksFor, Extended, SizesOk, LastBlock, Granted, HeadFollows, Counted;
    fs.OpenFiles(k);
    fs.OpenFacts(fs.Now(), k);
    HeadSame(fs.chains[k], ino.start, ino.logstart);
    broken, isNew, count := false, false, 0;
    WithinPrivate(lay, fs.chains[k], ino.size, ino.mmuPrivate, create, iblock);
    var mapped;
    st, phys, mapped := Bmap(fs, lay, k, ino, iblock, create);
    if st.Err? {
      return;
    }
    if phys > 0 {
      count := Min(mapped, want);
      return;
    }
    if !create {
      return;
    }
    if iblock != ino.mmuPrivate / lay.blockSize {      // neither known nor the next one
      return Err(EIO), 0, 0, false, false;
    }
    BlocksForReach(lay, ino.mmuPrivate, iblock);
    st, phys, count, broken := ExtendFile(fs, lay, k, ino, iblock, want);
    isNew := st.Ok?;
  }

  /** Block s is one fat_bmap may map: within the size, or when allocating within the allocated size. */
  ghost predicate Within(lay: Layout, ino: FatInode, create: bool, s: nat)
    reads ino
  {
    0 <= ino.size && 0 <= ino.mmuPrivate && s < LastBlock(lay, ino.size, ino.mmuPrivate, create, s)
  }

  /** The answer for a block that was there before: where it is, and how many follow it in its cluster, within the
      limit, and up to as many as wanted. */
  ghost predicate Existing(lay: Layout, c: seq<int>, last: nat, iblock: nat, want: nat, phys: nat, count: nat) {
    && iblock < last && iblock / lay.secPerClus < |c| && phys == BlockOf(lay, c, iblock)
    && count == Min(Min(lay.secPerClus - iblock % lay.secPerClus, last - iblock), want) > 0
  }

  /** What the sizes say about the limit fat_bmap uses: it lies within the chain, it is never past the allocated size,
      and when allocating it reaches that far. */
  lemma WithinPrivate(lay: Layout, c: seq<int>, size: int, private_: int, create: bool, s: nat)
    requires SizesOk(lay, c, size, private_)
    ensures 0 <= size <= private_
    ensures var last := LastBlock(lay, size, private_, create, s);
            && (s < last ==> s / lay.secPerClus < |c|)
            && (s >= BlocksFor(lay, private_) ==> s >= last)
            && (create && s >= last ==> s >= BlocksFor(lay, private_))
            && (s * lay.blockSize == private_ ==> s == BlocksFor(lay, private_) == private_ / lay.blockSize)
            && (!create ==> last == BlocksFor(lay, size))
            && (s >= last ==> s >= BlocksFor(lay, size))
  {
    hide ClustersFor;
    BlocksForMonotone(lay, size, private_);
    if s < BlocksFor(lay, private_) {
      InsideClusters(lay, BlocksFor(lay, private_), s);
    }
    if s * lay.blockSize == private_ {
      BlocksForReach(lay, private_, s);
    }
  }

  lemma InsideClusters(lay: Layout, blocks: nat, s: nat)
    requires s < blocks
    ensures s / lay.secPerClus < ClustersFor(lay, blocks)
  {
    SplitSector(lay, s);
    SplitSector(lay, blocks);
    ClustersForSplit(lay, blocks / lay.secPerClus, blocks % lay.secPerClus);
    QuotientMonotone(lay.secPerClus, s, blocks);
  }
}
