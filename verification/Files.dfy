/** Growing and shrinking files: fat_chain_add, fat_add_cluster, fat_free, on one volume and its in-core inodes. */
module Files {
  import opened Arithmetic
  import opened FatDefs
  import opened FatTable
  import opened FatMirror
  import opened FatChains
  import opened FatVolume
  import opened ClusterWalk
  import opened ExtentCache
  import opened ChainLedger

  /** The inode's first cluster and cache fit its chain. */
  ghost predicate FileOk(fat: seq<int>, start: int, limit: nat, lru: seq<Extent>, c: seq<int>) {
    && |fat| < FAT_ENT_EOF && limit < FAT_ENT_EOF
    && CacheOk(fat, start, limit, lru)
    && if start == 0 then c == [] else IsChain(fat, c) && c[0] == start
  }

  /** A cached extent lies inside the chain. */
  lemma ExtentInside(fat: seq<int>, c: seq<int>, limit: nat, e: Extent)
    requires |fat| < FAT_ENT_EOF && IsChain(fat, c) && ExtentOk(fat, c[0], limit, e)
    ensures e.fcluster + e.nrContig < |c|
  {
    if e.fcluster + e.nrContig >= |c| {
      assert At(fat, c[0], e.fcluster + e.nrContig) != Nowhere;
      ChainEndsAt(fat, c, e.fcluster + e.nrContig);
      assert false;
    }
  }

  lemma CacheInside(fat: seq<int>, c: seq<int>, limit: nat, lru: seq<Extent>)
    requires |fat| < FAT_ENT_EOF && IsChain(fat, c) && CacheOk(fat, c[0], limit, lru)
    ensures EndsBy(lru, |c| - 1)
  {
    forall i | 0 <= i < |lru|
      ensures lru[i].fcluster + lru[i].nrContig <= |c| - 1
    {
      ExtentInside(fat, c, limit, lru[i]);
    }
  }

  /** Extents that end before position n survive changes to the links from position n - 1 on. */
  lemma CacheFrame(fat: seq<int>, fat': seq<int>, c: seq<int>, n: nat, limit: nat, lru: seq<Extent>)
    requires |fat'| == |fat| < FAT_ENT_EOF && IsChain(fat, c) && 1 <= n <= |c|
    requires forall i :: 0 <= i < n - 1 ==> fat'[c[i]] == fat[c[i]]
    requires CacheOk(fat, c[0], limit, lru) && EndsBy(lru, n - 1)
    ensures CacheOk(fat', c[0], limit, lru)
  {
    hide ExtentOk, IsChain;
    forall i | 0 <= i < |lru|
      ensures ExtentOk(fat', c[0], limit, lru[i])
    {
      ExtentFrame(fat, fat', c, n, limit, lru[i]);
    }
  }

  lemma ExtentFrame(fat: seq<int>, fat': seq<int>, c: seq<int>, n: nat, limit: nat, e: Extent)
    requires |fat'| == |fat| < FAT_ENT_EOF && IsChain(fat, c) && 1 <= n <= |c|
    requires forall i :: 0 <= i < n - 1 ==> fat'[c[i]] == fat[c[i]]
    requires ExtentOk(fat, c[0], limit, e) && e.fcluster + e.nrContig <= n - 1
    ensures ExtentOk(fat', c[0], limit, e)
  {
    hide At, IsChain;
    forall k: nat | e.fcluster - 1 <= k <= e.fcluster + e.nrContig
      ensures At(fat', c[0], k) == At(fat, c[0], k)
    {
      AtFrame(fat, fat', c, n, k);
    }
  }

  /** A file without clusters has nothing cached. */
  lemma EmptyFileCache(fat: seq<int>, limit: nat, lru: seq<Extent>)
    requires CacheOk(fat, 0, limit, lru)
    ensures lru == []
  {
    if |lru| > 0 {
      var e := lru[0];
      assert ExtentOk(fat, 0, limit, e);
      assert At(fat, 0, e.fcluster) == On(e.dcluster);
      NowhereFromZero(fat, e.fcluster);
      assert false;
    }
  }

  lemma {:induction false} NowhereFromZero(fat: seq<int>, k: nat)
    requires k > 0
    ensures At(fat, 0, k) == Nowhere
  {
    if k > 1 {
      NowhereFromZero(fat, k - 1);
    }
  }

  /** Changes elsewhere in the table do not matter to a file: its cache stays truthful too. */
  lemma FileFrame(fat: seq<int>, fat': seq<int>, start: int, limit: nat, lru: seq<Extent>, c: seq<int>)
    requires FileOk(fat, start, limit, lru, c) && |fat'| == |fat|
    requires forall x :: x in c && InRange(fat, x) ==> fat'[x] == fat[x]
    ensures FileOk(fat', start, limit, lru, c)
  {
    if start == 0 {
      EmptyFileCache(fat, limit, lru);
    } else {
      ChainOkFrame(fat, fat', c);
      CacheInside(fat, c, limit, lru);
      assert forall i :: 0 <= i < |c| ==> c[i] in c;
      CacheFrame(fat, fat', c, |c|, limit, lru);
    }
  }

  /** Growing a file keeps its cached extents truthful. */
  lemma FileGrown(fat: seq<int>, start: int, limit: nat, lru: seq<Extent>, c: seq<int>, x: int)
    requires FileOk(fat, start, limit, lru, c) && InRange(fat, x) && fat[x] == FAT_ENT_FREE
    ensures FileOk(Append(fat, c, x), if start == 0 then x else start, limit, lru, c + [x])
  {
    AppendChain(fat, c, x);
    if start == 0 {
      EmptyFileCache(fat, limit, lru);
    } else {
      CacheInside(fat, c, limit, lru);
      ChainDistinct(fat, c);
      assert forall i :: 0 <= i < |c| - 1 ==> c[i] != c[|c| - 1] && c[i] in c;
      CacheFrame(fat, Append(fat, c, x), c, |c|, limit, lru);
    }
  }

  /** The same for a whole run of clusters hung on the end. */
  lemma FileJoined(fat: seq<int>, start: int, limit: nat, lru: seq<Extent>, c: seq<int>, cs: seq<int>)
    requires FileOk(fat, start, limit, lru, c) && IsChain(fat, cs) && Apart(c, cs)
    ensures FileOk(Join(fat, c, cs[0]), if start == 0 then cs[0] else start, limit, lru, c + cs)
  {
    JoinChain(fat, c, cs);
    if start == 0 {
      EmptyFileCache(fat, limit, lru);
    } else {
      CacheInside(fat, c, limit, lru);
      ChainDistinct(fat, c);
      assert forall i :: 0 <= i < |c| - 1 ==> c[i] != c[|c| - 1] && c[i] in c;
      CacheFrame(fat, Join(fat, c, cs[0]), c, |c|, limit, lru);
    }
  }

  /** Shortening a file keeps the extents that end inside the part that stays. */
  lemma FileCut(fat: seq<int>, start: int, limit: nat, lru: seq<Extent>, c: seq<int>, n: nat)
    requires FileOk(fat, start, limit, lru, c) && 1 <= n < |c| && EndsBy(lru, n - 1)
    ensures FileOk(Cut(fat, c, n), start, limit, lru, c[..n])
  {
    CutChain(fat, c, n);
    ChainDistinct(fat, c);
    CacheFrame(fat, Cut(fat, c, n), c, n, limit, lru);
  }

  /** Walking as far as possible ends on the last cluster, unless the file is longer than allowed. */
  lemma LastCluster(fat: seq<int>, c: seq<int>, limit: nat)
    requires |fat| < FAT_ENT_EOF && IsChain(fat, c) && limit < FAT_ENT_EOF
    ensures Walk(fat, limit, FAT_ENT_EOF, 0, c[0]) ==
            if |c| <= limit + 1 then Walked(AtEof, |c| - 1, c[|c| - 1])
            else Walked(Broken, limit + 1, c[limit + 1])
  {
    ChainShort(fat, c);
    WalkAlongChain(fat, c, limit, FAT_ENT_EOF, 0);
  }

  /** A chain is no longer than the table. */
  lemma ChainShort(fat: seq<int>, c: seq<int>)
    requires |fat| < FAT_ENT_EOF && IsChain(fat, c)
    ensures |c| < FAT_ENT_EOF
  {
    ChainDistinct(fat, c);
    DistinctBelow(c, |fat|);
  }

  /** What releasing a single allocated cluster can do. */
  lemma ReleasedOne(s: Ledger, x: int, freed: seq<int>)
    requires |s.fat| < FAT_ENT_EOF && InRange(s.fat, x) && s.fat[x] == FAT_ENT_FREE
    requires IsPath(s.fat[x := FAT_ENT_EOF], x, freed)
    ensures freed <= [x] && forall i :: 0 <= i < |freed| ==> InRange(s.fat, freed[i])
    ensures InUseKept(s.fat, FreeAll(s.fat[x := FAT_ENT_EOF], freed))
    ensures !BadEnd(s.fat[x := FAT_ENT_EOF], x, freed)
    ensures IsChain(s.fat[x := FAT_ENT_EOF], freed) ==> FreeAll(s.fat[x := FAT_ENT_EOF], freed) == s.fat
  {
    assert [x][..0] == [] && Link(s.fat, [x]) == s.fat[x := FAT_ENT_EOF];
    RollBackPath(s.fat, [x], freed);
    RollBack(s.fat, [x], freed);
  }

  /** No whole chain begins at start. */
  ghost predicate Unreadable(fat: seq<int>, start: int) {
    !exists ch :: IsChain(fat, ch) && ch[0] == start
  }

  lemma ReleasedLast(fat: seq<int>, d: seq<int>, freed: seq<int>)
    requires |fat| < FAT_ENT_EOF && IsChain(fat, d)
    requires freed <= [d[|d| - 1]] && forall i :: 0 <= i < |freed| ==> InRange(fat, freed[i])
    ensures freed == [] ==> FreeAll(fat, freed) == fat
    ensures freed != [] ==> Unreadable(FreeAll(fat, freed), d[0])
  {
    if freed != [] {
      assert freed == [d[|d| - 1]] && freed[..0] == [];
      forall ch
        ensures !(IsChain(FreeAll(fat, freed), ch) && ch[0] == d[0])
      {
        LastReleased(fat, d, ch);
      }
    }
  }

  /** A file whose new cluster was freed under it can no longer be read to an end. */
  lemma SnatchedBreaks(s: Ledger, s': Ledger, k: nat, x: int)
    requires Sound(s) && Snatched(s, s', k, x)
    ensures k in s'.chains && |s'.chains[k]| > 0 && Unreadable(s'.fat, s'.chains[k][0]) && !Sound(s')
  {
    var fat := s'.fat[x := FAT_ENT_EOF];
    AppendChain(s.fat, s.chains[k], x);
    var d := s'.chains[k];
    assert fat[x := FAT_ENT_FREE] == s'.fat;
    forall ch
      ensures !(IsChain(s'.fat, ch) && ch[0] == d[0])
    {
      LastReleased(fat, d, ch);
    }
    assert !ChainOk(s'.fat, d);
  }

  /** So it goes for a file of one cluster on a table of two. */
  lemma SnatchedExample()
    ensures var s := Ledger([0, 0, FAT_ENT_EOF, FAT_ENT_FREE], map[7 := [2]]);
            var s' := Ledger([0, 0, 3, FAT_ENT_FREE], map[7 := [2, 3]]);
            Sound(s) && Snatched(s, s', 7, 3) && !Sound(s') && Unreadable(s'.fat, 2)
  {
    var s := Ledger([0, 0, FAT_ENT_EOF, FAT_ENT_FREE], map[7 := [2]]);
    var s' := Ledger([0, 0, 3, FAT_ENT_FREE], map[7 := [2, 3]]);
    assert IsChain(s.fat, [2]);
    assert s'.fat[3 := FAT_ENT_EOF] == Append(s.fat, s.chains[7], 3);
    assert s.chains[7] + [3] == [2, 3];
    assert s'.chains == s.chains[7 := s.chains[7] + [3]];
    SnatchedBreaks(s, s', 7, 3);
  }

  lemma GaveUpStep(s: Ledger, s': Ledger)
    requires s'.chains == s.chains && InUseKept(s.fat, s'.fat)
    ensures Step(s, s')
  {
    assert GaveUp(s, s');
  }

  /** How many of a file's clusters its size asks for. */
  function ClustersKept(have: nat, size: nat, units: pos): nat {
    var need := ClustersNeeded(size, units);
    if need < have then need else have
  }

  /** Clusters that a size in bytes takes up, the last of them perhaps in part. */
  function ClustersNeeded(size: nat, units: pos): nat {
    AddressFacts(units * 512, size + units * 512 - 1);
    (size + units * 512 - 1) / (units * 512)
  }

  lemma KeptAfter(s: Ledger, s': Ledger, k: nat, size: nat, units: pos)
    requires k in s.chains && CutTo(s, s', k, ClustersNeeded(size, units))
    ensures k in s'.chains && |s'.chains[k]| == ClustersKept(|s.chains[k]|, size, units)
  {
    hide ClustersNeeded, FreeAll;
  }

  /** The first cluster in memory and the one that goes into the directory entry, after a chain changed from c0 to c1:
      both follow a chain that begins or goes away, and else stay as they were. */
  ghost predicate HeadFollows(c0: seq<int>, c1: seq<int>, start0: int, log0: int, start1: int, log1: int) {
    if c0 == [] && c1 != [] then start1 == c1[0] && log1 == c1[0]
    else if c0 != [] && c1 == [] then start1 == 0 && log1 == 0
    else start1 == start0 && log1 == log0
  }

  lemma HeadJoined(c0: seq<int>, cs: seq<int>, start0: int, log0: int)
    requires |cs| > 0
    ensures HeadFollows(c0, c0 + cs, start0, log0, if c0 == [] then cs[0] else start0, if c0 == [] then cs[0] else log0)
  {
  }

  lemma HeadCut(c: seq<int>, n: nat, start: int, log: int)
    requires n < |c|
    ensures HeadFollows(c, c[..n], start, log, if n == 0 then 0 else start, if n == 0 then 0 else log)
  {
  }

  lemma HeadSame(c: seq<int>, start: int, log: int)
    ensures HeadFollows(c, c, start, log, start, log)
  {
  }

  /** i_blocks counts the clusters of the chain. */
  ghost predicate Counted(c: seq<int>, units: pos, blocks512: int) {
    blocks512 == |c| * units
  }

  lemma CountedGrows(c0: seq<int>, c1: seq<int>, units: pos, blocks512: int)
    requires Counted(c0, units, blocks512) && |c1| == |c0| + 1
    ensures Counted(c1, units, blocks512 + units)
  {
    assert (|c0| + 1) * units == |c0| * units + units;
  }

  lemma CountedCut(c: seq<int>, n: nat, units: pos)
    requires n <= |c|
    ensures Counted(c[..n], units, n * units)
  {
  }

  lemma CountedClusters(c: seq<int>, units: pos, blocks512: int)
    requires Counted(c, units, blocks512)
    ensures blocks512 / units == |c|
  {
    QuotientUnique(units, |c|, 0, blocks512);
  }

  /** A file system: one volume and the in-core inodes, by number, whose chains live on it. */
  class FileSystem {
    const vol: Volume
    var inodes: map<nat, FatInode>
    ghost var chains: map<nat, seq<int>>

    constructor (volume: Volume, table: map<nat, FatInode>, ghost clusters: map<nat, seq<int>>)
      ensures vol == volume && inodes == table && chains == clusters
    {
      vol, inodes, chains := volume, table, clusters;
    }

    ghost predicate FilesOk()
      reads this, vol, inodes.Values
    {
      && vol.TableOk() && vol.HintsOk()
      && chains.Keys == inodes.Keys
      && (forall k, l :: k in inodes && l in inodes && k != l ==> inodes[k] != inodes[l])
      && (forall k :: k in inodes ==>
            inodes[k].LruOk() && FileOk(vol.Fat(), inodes[k].start, inodes[k].limit, inodes[k].lru, chains[k]))
      && Sound(Now())
    }

    ghost function Now(): Ledger
      requires vol.TableOk()
      reads this, vol
    {
      Ledger(vol.Fat(), chains)
    }

    /** Every file but k is in order over table fat and chains ch. */
    ghost predicate OthersOk(fat: seq<int>, ch: map<nat, seq<int>>, k: nat)
      reads `inodes, inodes.Values - (if k in inodes then {inodes[k]} else {})
    {
      && ch.Keys == inodes.Keys && k in inodes
      && (forall l, m :: l in inodes && m in inodes && l != m ==> inodes[l] != inodes[m])
      && (forall l :: l in inodes && l != k ==>
            inodes[l].LruOk() && FileOk(fat, inodes[l].start, inodes[l].limit, inodes[l].lru, ch[l]))
    }

    /** File k is in order over table fat with clusters c. */
    ghost predicate ThisOk(fat: seq<int>, k: nat, c: seq<int>)
      requires k in inodes
      reads `inodes, inodes[k]
    {
      inodes[k].LruOk() && FileOk(fat, inodes[k].start, inodes[k].limit, inodes[k].lru, c)
    }

    lemma SplitFiles(k: nat)
      requires FilesOk() && k in inodes
      ensures OthersOk(vol.Fat(), chains, k) && ThisOk(vol.Fat(), k, chains[k])
      ensures inodes[k].LruOk() && CacheOk(vol.Fat(), inodes[k].start, inodes[k].limit, inodes[k].lru)
      ensures inodes[k].start == 0 <==> chains[k] == []
      ensures inodes[k].start != 0 ==> IsChain(vol.Fat(), chains[k]) && chains[k][0] == inodes[k].start
      ensures inodes[k].limit < FAT_ENT_EOF
    {
    }

    lemma JoinFiles(fat: seq<int>, k: nat)
      requires vol.TableOk() && vol.HintsOk() && fat == vol.Fat() && k in chains
      requires OthersOk(fat, chains, k) && ThisOk(fat, k, chains[k]) && Sound(Ledger(fat, chains))
      ensures FilesOk()
    {
    }

    /** The other files over a table that differs only outside their chains. */
    lemma OthersFrame(fat: seq<int>, fat': seq<int>, ch: map<nat, seq<int>>, k: nat, c: seq<int>)
      requires OthersOk(fat, ch, k) && |fat'| == |fat|
      requires forall l, x :: l in ch && l != k && x in ch[l] && InRange(fat, x) ==> fat'[x] == fat[x]
      ensures OthersOk(fat', ch[k := c], k)
    {
      forall l | l in inodes && l != k
        ensures FileOk(fat', inodes[l].start, inodes[l].limit, inodes[l].lru, ch[l])
      {
        FileFrame(fat, fat', inodes[l].start, inodes[l].limit, inodes[l].lru, ch[l]);
      }
    }

    /** All files over a table where no file's entries changed. */
    lemma ChainsKeptFiles(s: Ledger, k: nat)
      requires vol.TableOk() && vol.HintsOk() && k in chains && chains == s.chains
      requires OthersOk(s.fat, s.chains, k) && ThisOk(s.fat, k, s.chains[k]) && Sound(s)
      requires ChainsKept(s, vol.Fat())
      ensures FilesOk()
    {
      var fat' := vol.Fat();
      ChainsKeptSound(s, fat');
      OthersFrame(s.fat, fat', chains, k, chains[k]);
      assert chains[k := chains[k]] == chains;
      FileFrame(s.fat, fat', inodes[k].start, inodes[k].limit, inodes[k].lru, chains[k]);
      JoinFiles(fat', k);
    }

    /** The files after file k's chain went on with the orphan chain cs. */
    lemma JoinedFiles(s: Ledger, k: nat, cs: seq<int>, start: int)
      requires vol.TableOk() && vol.HintsOk() && k in s.chains
      requires OthersOk(s.fat, s.chains, k) && Sound(s) && Orphan(s, cs)
      requires Joined(s, Now(), k, cs)
      requires inodes[k].LruOk() && FileOk(s.fat, start, inodes[k].limit, inodes[k].lru, s.chains[k])
      requires inodes[k].start == if start == 0 then cs[0] else start
      ensures FilesOk()
    {
      var c, fat' := s.chains[k], vol.Fat();
      JoinedSound(s, Now(), k, cs);
      FileJoined(s.fat, start, inodes[k].limit, inodes[k].lru, c, cs);
      forall l, x | l in s.chains && l != k && x in s.chains[l] && InRange(s.fat, x)
        ensures fat'[x] == s.fat[x]
      {
        assert Apart(s.chains[l], c);
        assert |c| > 0 ==> c[|c| - 1] in c;
      }
      OthersFrame(s.fat, fat', s.chains, k, c + cs);
      JoinFiles(fat', k);
    }

    /** Everything is in order, spelled out around file k. */
    ghost predicate Open(s: Ledger, k: nat)
      reads this, vol, inodes.Values
    {
      && vol.TableOk() && vol.HintsOk()
      && k in inodes && k in s.chains && s == Now()
      && OthersOk(s.fat, s.chains, k) && ThisOk(s.fat, k, s.chains[k]) && Sound(s)
    }

    lemma OpenFiles(k: nat)
      requires FilesOk() && k in inodes
      ensures Open(Now(), k)
    {
      SplitFiles(k);
    }

    lemma CloseFiles(s: Ledger, k: nat)
      requires Open(s, k)
      ensures FilesOk() && Now() == s
    {
      JoinFiles(s.fat, k);
    }

    lemma OpenFacts(s: Ledger, k: nat)
      requires Open(s, k)
      ensures k in inodes && k in s.chains && vol.TableOk() && vol.HintsOk() && vol.Fat() == s.fat && chains == s.chains
      ensures |s.fat| < FAT_ENT_EOF
      ensures inodes[k].LruOk() && CacheOk(s.fat, inodes[k].start, inodes[k].limit, inodes[k].lru)
      ensures inodes[k].start == 0 <==> s.chains[k] == []
      ensures inodes[k].start != 0 ==> IsChain(s.fat, s.chains[k]) && s.chains[k][0] == inodes[k].start
      ensures inodes[k].limit < FAT_ENT_EOF
      ensures Sound(s) && OthersOk(s.fat, s.chains, k)
    {
    }

    /** Nothing but file k's cache changed. */
    lemma KeepOpen(s: Ledger, k: nat)
      requires vol.TableOk() && vol.HintsOk() && k in inodes && k in s.chains && vol.Fat() == s.fat
                && chains == s.chains
      requires OthersOk(s.fat, s.chains, k) && Sound(s)
      requires inodes[k].LruOk() && CacheOk(s.fat, inodes[k].start, inodes[k].limit, inodes[k].lru)
      requires inodes[k].limit < FAT_ENT_EOF
      requires inodes[k].start == 0 <==> s.chains[k] == []
      requires inodes[k].start != 0 ==> IsChain(s.fat, s.chains[k]) && s.chains[k][0] == inodes[k].start
      ensures Open(s, k)
    {
    }

    /** Walk file k as far as cluster position target. */
    method Seek(ghost s: Ledger, k: nat, ino: FatInode, target: nat) returns (r: Walked)
      requires Open(s, k) && k in inodes && ino == inodes[k] && ino.start != 0
      modifies ino`lru, ino`nrCaches, vol`readFaults
      ensures Open(s, k)
      ensures old(vol.readFaults) <= vol.readFaults
      ensures vol.readFaults == old(vol.readFaults) ==>
                r == Walk(s.fat, ino.limit, target, 0, ino.start)
      ensures r.end != Broken ==> vol.readFaults == old(vol.readFaults)
      ensures forall n :: EndsBy(old(ino.lru), n) && r.fclus <= n ==> EndsBy(ino.lru, n)
    {
      hide *;
      OpenFacts(s, k);
      ghost var looked;
      r, looked := ino.GetCluster(vol, target);
      KeepOpen(s, k);
    }

    /** Locate the last cluster of file k: position and number, 0 and 0 for an empty file. */
    method FindLast(ghost s: Ledger, k: nat, ino: FatInode) returns (st: Status, last: int, newFclus: int)
      requires Open(s, k) && k in inodes && ino == inodes[k]
      modifies ino`lru, ino`nrCaches, vol`readFaults
      ensures Open(s, k)
      ensures old(vol.readFaults) <= vol.readFaults
      ensures st.Ok? ==> if s.chains[k] == [] then last == newFclus == 0
                         else last == s.chains[k][|s.chains[k]| - 1] && newFclus == |s.chains[k]|
      ensures st.Ok? ==> vol.readFaults == old(vol.readFaults)
      ensures st.Err? && |s.chains[k]| <= ino.limit + 1 ==> vol.readFaults > old(vol.readFaults)
    {
      hide *;
      OpenFacts(s, k);
      if ino.start == 0 {
        return Ok, 0, 0;
      }
      LastCluster(s.fat, s.chains[k], ino.limit);
      var r := Seek(s, k, ino, FAT_ENT_EOF);
      if r.end == Broken {
        return Err(EIO), 0, 0;
      }
      return Ok, r.dclus, r.fclus + 1;
    }

    lemma LinkReady(s: Ledger, k: nat, cs: seq<int>)
      requires Open(s, k) && s.chains[k] != [] && IsChain(s.fat, cs)
      ensures InRange(s.fat, s.chains[k][|s.chains[k]| - 1])
      ensures Storable(vol.g, cs[0])
    {
      assert InRange(s.fat, cs[0]);
    }

    /** Redirect the last entry of file k to the new clusters. */
    method LinkAfter(ghost s: Ledger, k: nat, last: int, newDclus: int, ghost cs: seq<int>)
      returns (st: Status, ghost linked: bool)
      requires Open(s, k) && s.chains[k] != [] && last == s.chains[k][|s.chains[k]| - 1]
      requires IsChain(s.fat, cs) && cs[0] == newDclus && Orphan(s, cs)
      modifies `chains, vol`blocks, vol`readFaults, vol`writeFaults
      ensures linked ==> FilesOk() && Joined(s, Now(), k, cs)
      ensures !linked ==> Open(s, k)
      ensures st.Ok? ==> linked
      ensures st.Err? && linked ==> vol.writeFaults > old(vol.writeFaults)
      ensures linked <==> vol.readFaults == old(vol.readFaults)
      ensures old(vol.readFaults) <= vol.readFaults && old(vol.writeFaults) <= vol.writeFaults
    {
      hide FilesOk, Open, Sound, OthersOk, ThisOk, FileOk, FatOf, DiskOk, Step;
      OpenFacts(s, k);
      LinkReady(s, k, cs);
      var e, r := vol.EntReadAt(NO_ENTRY, last);
      if r.Failed? {
        KeepOpen(s, k);
        return Err(r.errno), false;
      }
      st := vol.EntWrite(e, newDclus, inodes[k].NeedsSync());
      linked := true;
      chains := chains[k := chains[k] + cs];
      LinkedFiles(s, k, cs);
    }

    lemma LinkedFiles(s: Ledger, k: nat, cs: seq<int>)
      requires vol.TableOk() && vol.HintsOk() && k in s.chains && s.chains[k] != []
      requires OthersOk(s.fat, s.chains, k) && Sound(s) && IsChain(s.fat, cs) && Orphan(s, cs)
      requires ThisOk(s.fat, k, s.chains[k])
      requires chains == s.chains[k := s.chains[k] + cs]
      requires vol.Fat() == s.fat[s.chains[k][|s.chains[k]| - 1] := cs[0]]
      ensures FilesOk() && Joined(s, Now(), k, cs)
    {
      JoinedFiles(s, k, cs, inodes[k].start);
    }

    /** The new clusters become the whole of file k. */
    method LinkFirst(ghost s: Ledger, k: nat, ino: FatInode, newDclus: int, ghost cs: seq<int>) returns (st: Status)
      requires Open(s, k) && k in inodes && ino == inodes[k] && s.chains[k] == []
      requires IsChain(s.fat, cs) && cs[0] == newDclus && Orphan(s, cs)
      modifies `chains, vol`writeFaults, ino`start, ino`logstart
      ensures FilesOk() && Joined(s, Now(), k, cs)
      ensures ino.start == newDclus && ino.logstart == newDclus
      ensures vol.writeFaults == old(vol.writeFaults) + if st.Ok? then 0 else 1
    {
      hide FileOk, Sound, OthersOk, ThisOk, CacheOk, FatOf, DiskOk, FilesOk, Open, Unsynced, IsChain, IsPath, FreeAll,
           BadEnd, Orphan, Walk, At, Link, Scan, Distinct, Step, Grown, CountOk, InUseKept, FreeCount, Locate,
           Volume.TableOk, Volume.HintsOk;
      OpenFacts(s, k);
      ino.start, ino.logstart := newDclus, newDclus;
      chains := chains[k := chains[k] + cs];
      st := Ok;
      if ino.isDir && ino.dirSync {
        st := vol.SyncBhs([]);                 // fat_sync_inode
      }
      JoinedFiles(s, k, cs, 0);
    }

    lemma EmptyCacheOk(fat: seq<int>, start: int, limit: nat)
      ensures CacheOk(fat, start, limit, [])
    {
    }

    /** Bookkeeping after a link: a block count that does not fit drops the cache. */
    method CountBlocks(k: nat, ino: FatInode, newFclus: int, nrCluster: nat)
      requires FilesOk() && k in inodes && ino == inodes[k]
      modifies ino`lru, ino`nrCaches, ino`cacheValidId, ino`blocks512
      ensures FilesOk()
      ensures ino.blocks512 == old(ino.blocks512) + nrCluster * ino.units
      ensures if newFclus == old(ino.blocks512) / ino.units then ino.cacheValidId == old(ino.cacheValidId)
              else ino.lru == []
    {
      hide *;
      OpenFiles(k);
      ghost var s := Now();
      OpenFacts(s, k);
      if newFclus != ino.blocks512 / ino.units {
        ino.Invalidate();
      }
      ino.blocks512 := ino.blocks512 + nrCluster * ino.units;
      EmptyCacheOk(s.fat, ino.start, ino.limit);
      KeepOpen(s, k);
      CloseFiles(s, k);
    }

    /** fat_chain_add: hang the clusters that begin at newDclus on the end of file k. linked tells whether the
        file now has them, which is not the same as success: a write that fails late leaves the link in place. */
    method ChainAdd(k: nat, ino: FatInode, newDclus: int, nrCluster: nat, ghost cs: seq<int>)
      returns (st: Status, ghost linked: bool)
      requires FilesOk() && k in inodes && ino == inodes[k]
      requires IsChain(vol.Fat(), cs) && cs[0] == newDclus && Orphan(Now(), cs)
      modifies `chains, vol`blocks, vol`readFaults, vol`writeFaults
      modifies ino`start, ino`logstart, ino`lru, ino`nrCaches, ino`cacheValidId, ino`blocks512
      ensures FilesOk()
      ensures linked ==> Joined(old(Now()), Now(), k, cs)
      ensures !linked ==> Now() == old(Now())
      ensures st.Ok? ==> linked
      ensures k in chains
                && HeadFollows(old(chains[k]), chains[k], old(ino.start), old(ino.logstart), ino.start, ino.logstart)
      ensures ino.blocks512 == old(ino.blocks512) + if st.Ok? then nrCluster * ino.units else 0
      ensures Counted(old(chains[k]), ino.units, old(ino.blocks512)) ==> ino.cacheValidId == old(ino.cacheValidId)
      ensures st.Ok? && |old(chains[k])| != old(ino.blocks512) / ino.units ==> ino.lru == []
      ensures st.Err? && linked ==> vol.writeFaults > old(vol.writeFaults)
      ensures linked ==> vol.readFaults == old(vol.readFaults)
      ensures !linked && |old(chains)[k]| <= ino.limit + 1 ==> vol.readFaults > old(vol.readFaults)
      ensures old(vol.readFaults) <= vol.readFaults && old(vol.writeFaults) <= vol.writeFaults
      ensures vol.TableOk() && (old(vol.CountRight()) ==> vol.CountRight())
    {
      hide FileOk, Sound, OthersOk, ThisOk, CacheOk, FatOf, DiskOk, FilesOk, Open, Unsynced, IsChain, IsPath, FreeAll,
           BadEnd, Orphan, Walk, At, Link, Scan, Distinct, Step, Grown, CountOk, InUseKept, FreeCount, Locate,
           HeadFollows, Counted, Volume.TableOk, Volume.HintsOk;
      OpenFiles(k);
      ghost var s := Now();
      OpenFacts(s, k);
      SomeClusters(cs);
      HeadJoined(s.chains[k], cs, ino.start, ino.logstart);
      HeadSame(s.chains[k], ino.start, ino.logstart);
      var last, newFclus;
      st, last, newFclus := FindLast(s, k, ino);
      if st.Err? {
        CloseFiles(s, k);
        return st, false;
      }
      LastNonZero(s, k);
      if last != 0 {
        st, linked := LinkAfter(s, k, last, newDclus, cs);
        if !linked {
          CloseFiles(s, k);
        }
      } else {
        st := LinkFirst(s, k, ino, newDclus, cs);
        linked := true;
      }
      if linked {
        LinkCounted(s, k, cs);
      }
      if st.Ok? {
        if Counted(s.chains[k], ino.units, ino.blocks512) {
          CountedClusters(s.chains[k], ino.units, ino.blocks512);
        }
        CountBlocks(k, ino, newFclus, nrCluster);
      }
    }

    lemma SomeClusters(cs: seq<int>)
      requires vol.TableOk() && IsChain(vol.Fat(), cs)
      ensures |cs| > 0
    {
    }

    lemma LastNonZero(s: Ledger, k: nat)
      requires Sound(s) && k in s.chains
      ensures s.chains[k] != [] ==> s.chains[k][|s.chains[k]| - 1] != 0
    {
      assert ChainOk(s.fat, s.chains[k]);
    }

    /** An allocation that failed has changed no file. */
    lemma GaveUpFiles(s: Ledger, k: nat)
      requires vol.TableOk() && vol.HintsOk() && k in chains && chains == s.chains
      requires OthersOk(s.fat, s.chains, k) && ThisOk(s.fat, k, s.chains[k]) && Sound(s)
      requires InUseKept(s.fat, vol.Fat())
      ensures FilesOk() && Step(s, Now())
    {
      UseKeptChains(s, vol.Fat());
      ChainsKeptFiles(s, k);
      assert GaveUp(s, Now());
    }

    /** A freshly allocated cluster belongs to no file, and taking it disturbed none. */
    lemma AllocatedFiles(s: Ledger, k: nat, x: int)
      requires vol.TableOk() && vol.HintsOk() && k in chains && chains == s.chains
      requires OthersOk(s.fat, s.chains, k) && ThisOk(s.fat, k, s.chains[k]) && Sound(s)
      requires InRange(s.fat, x) && s.fat[x] == FAT_ENT_FREE && vol.Fat() == Link(s.fat, [x])
      ensures FilesOk() && Now() == Ledger(s.fat[x := FAT_ENT_EOF], s.chains)
      ensures Orphan(Now(), [x]) && IsChain(vol.Fat(), [x])
    {
      hide FilesOk, Open, Sound, Volume.TableOk, Volume.HintsOk;
      TakenOne(s, x);
      ChainsKeptFiles(s, k);
    }

    /** Releasing clusters no file has leaves every file alone. */
    lemma OrphanReleased(s: Ledger, k: nat, cs: seq<int>, freed: seq<int>)
      requires vol.TableOk() && vol.HintsOk() && k in chains && chains == s.chains
      requires OthersOk(s.fat, s.chains, k) && ThisOk(s.fat, k, s.chains[k]) && Sound(s) && Orphan(s, cs)
      requires freed <= cs && forall i :: 0 <= i < |freed| ==> InRange(s.fat, freed[i])
      requires vol.Fat() == FreeAll(s.fat, freed)
      ensures FilesOk()
    {
      forall l, x | l in s.chains && x in s.chains[l] && InRange(s.fat, x)
        ensures vol.Fat()[x] == s.fat[x]
      {
        assert Apart(s.chains[l], cs);
      }
      ChainsKeptFiles(s, k);
    }

    /** After releasing cluster x of s, which no file had: every file is as before. */
    lemma UnlinkedReleased(s: Ledger, s1: Ledger, k: nat, x: int, freed: seq<int>)
      requires vol.TableOk() && vol.HintsOk() && k in chains && chains == s1.chains
      requires OthersOk(s1.fat, s1.chains, k) && ThisOk(s1.fat, k, s1.chains[k]) && Sound(s1) && Sound(s)
      requires InRange(s.fat, x) && s.fat[x] == FAT_ENT_FREE && s1 == Ledger(s.fat[x := FAT_ENT_EOF], s.chains)
      requires IsPath(s1.fat, x, freed) && vol.Fat() == FreeAll(s1.fat, freed)
      ensures FilesOk() && Step(s, Now())
      ensures IsChain(s1.fat, freed) || BadEnd(s1.fat, x, freed) ==> Now() == s
    {
      hide FilesOk, Open, Sound, Volume.TableOk, Volume.HintsOk;
      TakenOne(s, x);
      ReleasedOne(s, x, freed);
      OrphanReleased(s1, k, [x], freed);
      GaveUpStep(s, Now());
    }

    /** After releasing x, the last cluster of file k with clusters d: either nothing was released, or the file's
        links now run into a free entry. */
    lemma LinkedReleased(s2: Ledger, k: nat, x: int, d: seq<int>, freed: seq<int>)
      requires |s2.fat| < FAT_ENT_EOF && IsChain(s2.fat, d) && d[|d| - 1] == x
      requires IsPath(s2.fat, x, freed)
      ensures |d| > 0 && InRange(s2.fat, x)
      ensures freed == [] ==> FreeAll(s2.fat, freed) == s2.fat && !BadEnd(s2.fat, x, freed)
      ensures freed != [] ==> IsChain(s2.fat, freed) && FreeAll(s2.fat, freed) == s2.fat[x := FAT_ENT_FREE]
      ensures freed != [] ==> Unreadable(FreeAll(s2.fat, freed), d[0])
    {
      SuffixIsChain(s2.fat, d, |d| - 1);
      assert d[|d| - 1..] == [x];
      PathAlongChain(s2.fat, [x], freed);
      ReleasedLast(s2.fat, d, freed);
      if freed != [] {
        assert freed == [x] && freed[..0] == [];
      }
    }

    /** Taking file k's last cluster away leaves the other files alone. */
    lemma SnatchedOthers(s2: Ledger, k: nat, x: int)
      requires OthersOk(s2.fat, s2.chains, k) && Sound(s2) && k in s2.chains && x in s2.chains[k] && InRange(s2.fat, x)
      ensures OthersOk(s2.fat[x := FAT_ENT_FREE], s2.chains, k)
    {
      forall l | l in s2.chains && l != k
        ensures x !in s2.chains[l]
      {
        assert Apart(s2.chains[k], s2.chains[l]);
      }
      OthersFrame(s2.fat, s2.fat[x := FAT_ENT_FREE], s2.chains, k, s2.chains[k]);
      assert s2.chains[k := s2.chains[k]] == s2.chains;
    }

    /** fat_free_clusters on the cluster just allocated, which file k has already got if it is linked: then a
        release that gets through takes it from under the file. */
    method ReleaseNew(ghost s: Ledger, ghost s1: Ledger, k: nat, x: int, ghost linked: bool)
      returns (ghost broken: bool)
      requires FilesOk() && k in inodes && Sound(s)
      requires InRange(s.fat, x) && s.fat[x] == FAT_ENT_FREE && s1 == Ledger(s.fat[x := FAT_ENT_EOF], s.chains)
      requires !linked ==> Now() == s1
      requires linked ==>
                Step(s, Now()) && k in chains && IsChain(vol.Fat(), chains[k]) && chains[k][|chains[k]| - 1] == x
      modifies vol`blocks, vol`freeClusters, vol`readFaults, vol`writeFaults, vol`discarded
      ensures vol.TableOk()
      ensures !broken ==> FilesOk() && Step(s, Now())
      ensures broken <==> linked && vol.readFaults == old(vol.readFaults)
      ensures broken ==> |chains[k]| > 0 && Unreadable(vol.Fat(), chains[k][0])
      ensures broken ==> InRange(old(vol.Fat()), x) && vol.Fat() == old(vol.Fat())[x := FAT_ENT_FREE]
      ensures broken ==> OthersOk(vol.Fat(), chains, k)
      ensures old(vol.CountRight()) ==> vol.CountRight()
      ensures old(vol.readFaults) <= vol.readFaults && old(vol.writeFaults) <= vol.writeFaults
      ensures !linked && vol.readFaults == old(vol.readFaults) && vol.writeFaults == old(vol.writeFaults) ==> Now() == s
    {
      hide *;
      OpenFiles(k);
      ghost var s2 := Now();
      OpenFacts(s2, k);
      OpenSplit(s2, k);
      var st;
      ghost var freed;
      st, freed := vol.FreeClusters(x);
      broken := linked && freed != [];
      if linked {
        LinkedReleased(s2, k, x, chains[k], freed);
        LastIn(chains[k]);
        SnatchedOthers(s2, k, x);
        if !broken {
          KeepOpen(s2, k);
          CloseFiles(s2, k);
        }
      } else {
        UnlinkedReleased(s, s1, k, x, freed);
      }
    }

    lemma LastIn(c: seq<int>)
      ensures c != [] ==> c[|c| - 1] in c
    {
    }

    lemma OpenSplit(s: Ledger, k: nat)
      requires Open(s, k)
      ensures k in inodes && k in s.chains && ThisOk(s.fat, k, s.chains[k])
      ensures |s.fat| < FAT_ENT_EOF
    {
    }

    /** fat_add_cluster after the allocation: link the cluster, or give it back. */
    method AddAllocated(ghost s: Ledger, k: nat, ino: FatInode, x: int)
      returns (st: Status, ghost linked: bool, ghost broken: bool)
      requires FilesOk() && k in inodes && ino == inodes[k] && Sound(s)
      requires InRange(s.fat, x) && s.fat[x] == FAT_ENT_FREE && Now() == Ledger(s.fat[x := FAT_ENT_EOF], s.chains)
      requires Orphan(Now(), [x]) && IsChain(vol.Fat(), [x])
      modifies `chains, vol`blocks, vol`freeClusters, vol`readFaults, vol`writeFaults, vol`discarded
      modifies ino`start, ino`logstart, ino`lru, ino`nrCaches, ino`cacheValidId, ino`blocks512
      ensures vol.TableOk()
      ensures !broken ==> FilesOk() && Step(s, Now())
      ensures st.Ok? ==> linked && Grown(s, Now(), k, x)
      ensures linked && st.Err? ==> vol.writeFaults > old(vol.writeFaults)
      ensures broken <==> linked && st.Err? && vol.readFaults == old(vol.readFaults)
      ensures broken ==> ino.start != 0 && Unreadable(vol.Fat(), ino.start) && Snatched(s, Now(), k, x)
      ensures broken ==> OthersOk(vol.Fat(), chains, k)
      ensures !linked ==> chains == s.chains
      ensures vol.readFaults == old(vol.readFaults) && vol.writeFaults == old(vol.writeFaults)
                && |s.chains[k]| <= ino.limit + 1 ==>
                st.Ok?
      ensures old(vol.CountRight()) ==> vol.CountRight()
      ensures old(vol.readFaults) <= vol.readFaults && old(vol.writeFaults) <= vol.writeFaults
      ensures st.Err? && vol.readFaults == old(vol.readFaults) && vol.writeFaults == old(vol.writeFaults) ==> Now() == s
      ensures st.Err? && vol.writeFaults == old(vol.writeFaults) ==> chains == s.chains
      ensures k in chains
                && HeadFollows(s.chains[k], chains[k], old(ino.start), old(ino.logstart), ino.start, ino.logstart)
      ensures ino.blocks512 == old(ino.blocks512) + if st.Ok? then ino.units else 0
      ensures st.Ok? || vol.writeFaults == old(vol.writeFaults) ==>
                (Counted(s.chains[k], ino.units, old(ino.blocks512)) ==> Counted(chains[k], ino.units, ino.blocks512))
    {
      hide FilesOk, Open, Sound, OthersOk, ThisOk, FileOk, FatOf, DiskOk, Step, HeadFollows, Counted;
      OpenFiles(k);
      ghost var s1 := Now();
      OpenFacts(s1, k);
      broken := false;
      st, linked := ChainAdd(k, ino, x, 1, [x]);
      ghost var s2 := Now();
      if linked {
        AddedCluster(s, s1, k, x);
        if st.Ok? && Counted(s.chains[k], ino.units, old(ino.blocks512)) {
          CountedGrows(s.chains[k], chains[k], ino.units, old(ino.blocks512));
        }
      }
      if st.Err? {
        broken := ReleaseNew(s, s1, k, x, linked);
        if broken {
          SnatchedNow(s, s2, k, x);
        }
      }
    }

    /** fat_add_cluster: one more cluster for file k. linked tells whether the link was put. broken reports the one
        way this can damage the file: the link was put, a later write failed, and the release of the cluster that
        follows could read its entry, so that the file's last link runs into a free entry. */
    method AddCluster(k: nat, ino: FatInode) returns (st: Status, ghost linked: bool, ghost broken: bool)
      requires FilesOk() && k in inodes && ino == inodes[k]
      modifies `chains, vol`blocks, vol`prevFree, vol`freeClusters, vol`freeClusValid, vol`readFaults,
               vol`writeFaults, vol`discarded
      modifies ino`start, ino`logstart, ino`lru, ino`nrCaches, ino`cacheValidId, ino`blocks512
      ensures vol.TableOk()
      ensures !broken ==> FilesOk() && Step(old(Now()), Now())
      ensures st.Ok? ==> linked && exists x :: Grown(old(Now()), Now(), k, x)
      ensures linked && st.Err? ==> vol.writeFaults > old(vol.writeFaults)
      ensures broken <==> linked && st.Err? && vol.readFaults == old(vol.readFaults)
      ensures broken ==>
                ino.start != 0 && Unreadable(vol.Fat(), ino.start) && exists x :: Snatched(old(Now()), Now(), k, x)
      ensures broken ==> OthersOk(vol.Fat(), chains, k)
      ensures !linked ==> chains == old(chains)
      ensures old(vol.readFaults) <= vol.readFaults && old(vol.writeFaults) <= vol.writeFaults
      ensures vol.readFaults == old(vol.readFaults) && vol.writeFaults == old(vol.writeFaults) && old(vol.CountRight())
              && |old(chains)[k]| <= ino.limit + 1 ==>
                (st.Ok? <==> FreeCount(old(vol.Fat())) >= 1) && (st.Err? ==> st == Err(ENOSPC))
      ensures old(vol.CountRight()) ==> vol.CountRight()
      ensures st.Err? && vol.readFaults == old(vol.readFaults) && vol.writeFaults == old(vol.writeFaults) ==>
                Now() == old(Now())
      ensures st.Ok? || (vol.readFaults == old(vol.readFaults) && vol.writeFaults == old(vol.writeFaults)) ==>
                CleanStep(old(Now()), Now())
      ensures st.Err? && vol.writeFaults == old(vol.writeFaults) ==> chains == old(chains)
      ensures k in chains
                && HeadFollows(old(chains[k]), chains[k], old(ino.start), old(ino.logstart), ino.start, ino.logstart)
      ensures ino.blocks512 == old(ino.blocks512) + if st.Ok? then ino.units else 0
      ensures st.Ok? || vol.writeFaults == old(vol.writeFaults) ==>
                (Counted(old(chains[k]), ino.units, old(ino.blocks512)) ==>
                   Counted(chains[k], ino.units, ino.blocks512))
    {
      hide FilesOk, Open, Sound, Volume.TableOk, Volume.HintsOk, HeadFollows, Counted;
      OpenFiles(k);
      ghost var s := Now();
      OpenFacts(s, k);
      OpenSplit(s, k);
      var x;
      st, x := AllocateFor(s, k, ino);
      if st.Err? {
        HeadSame(s.chains[k], ino.start, ino.logstart);
        return st, false, false;
      }
      st, linked, broken := AddAllocated(s, k, ino, x);
    }

    /** The allocation in fat_add_cluster: a cluster for file k that no file has yet. */
    method AllocateFor(ghost s: Ledger, k: nat, ino: FatInode) returns (st: Status, x: int)
      requires Open(s, k) && k in inodes && ino == inodes[k]
      modifies vol`blocks, vol`prevFree, vol`freeClusters, vol`freeClusValid, vol`readFaults, vol`writeFaults,
               vol`discarded
      ensures vol.TableOk() && FilesOk() && chains == s.chains && (st.Err? ==> Step(s, Now()))
      ensures st.Ok? ==>
                && InRange(s.fat, x) && s.fat[x] == FAT_ENT_FREE && Now() == Ledger(s.fat[x := FAT_ENT_EOF], s.chains)
                && Orphan(Now(), [x]) && IsChain(vol.Fat(), [x])
      ensures st.Ok? ==> vol.readFaults == old(vol.readFaults) && vol.writeFaults == old(vol.writeFaults)
      ensures old(vol.readFaults) <= vol.readFaults && old(vol.writeFaults) <= vol.writeFaults
      ensures vol.readFaults == old(vol.readFaults) && vol.writeFaults == old(vol.writeFaults) ==>
                && (st.Err? ==> st == Err(ENOSPC) && Now() == s)
                && (CountOk(old(vol.freeClusters), old(vol.freeClusValid), s.fat) ==>
                      (st.Ok? <==> FreeCount(s.fat) >= 1))
      ensures CountOk(old(vol.freeClusters), old(vol.freeClusValid), s.fat) ==> vol.CountRight()
    {
      hide FilesOk, Open, Sound, Volume.TableOk, Volume.HintsOk;
      OpenFacts(s, k);
      OpenSplit(s, k);
      x := 0;
      var cs;
      ghost var rolledBack;
      st, cs, rolledBack := vol.AllocClusters(1, ino.NeedsSync());
      if st.Err? {
        GaveUpFiles(s, k);
        return;
      }
      x := cs[0];
      assert cs == [x];
      AllocatedFiles(s, k, x);
    }

    lemma SnatchedNow(s: Ledger, s2: Ledger, k: nat, x: int)
      requires Grown(s, s2, k, x) && vol.TableOk() && chains == s2.chains
      requires InRange(s2.fat, x) && s2.fat[x] == FAT_ENT_EOF && vol.Fat() == s2.fat[x := FAT_ENT_FREE]
      ensures Snatched(s, Now(), k, x)
    {
      assert vol.Fat()[x := FAT_ENT_EOF] == s2.fat;
    }

    /** What a link means for the file, and for the count of free entries. */
    lemma AddedCluster(s: Ledger, s1: Ledger, k: nat, x: int)
      requires FilesOk() && k in inodes && Sound(s) && Sound(s1)
      requires InRange(s.fat, x) && s.fat[x] == FAT_ENT_FREE && s1 == Ledger(s.fat[x := FAT_ENT_EOF], s.chains)
      requires Joined(s1, Now(), k, [x])
      ensures vol.TableOk()
      ensures Grown(s, Now(), k, x) && Step(s, Now())
      ensures k in chains && IsChain(vol.Fat(), chains[k]) && chains[k][|chains[k]| - 1] == x
                && chains[k][0] == inodes[k].start
      ensures inodes[k].start != 0 && InRange(vol.Fat(), x) && vol.Fat()[x] == FAT_ENT_EOF
    {
      JoinedIsGrown(s, Now(), k, x);
    }

    lemma LinkCounted(s: Ledger, k: nat, cs: seq<int>)
      requires FilesOk() && Sound(s) && Joined(s, Now(), k, cs)
      ensures vol.TableOk() && (CountOk(vol.freeClusters, vol.freeClusValid, s.fat) ==> vol.CountRight())
    {
      JoinedCount(s, Now(), k, cs);
    }

    // ----- fat_free -----

    /** File k now ends after n clusters; the rest of the table is as in s. */
    lemma CutFiles(s: Ledger, k: nat, n: nat)
      requires vol.TableOk() && vol.HintsOk() && k in inodes && k in s.chains && n < |s.chains[k]|
      requires OthersOk(s.fat, s.chains, k) && Sound(s)
      requires chains == s.chains[k := s.chains[k][..n]] && vol.Fat() == Cut(s.fat, s.chains[k], n)
      requires ThisOk(vol.Fat(), k, s.chains[k][..n])
      ensures FilesOk() && Now() == CutLedger(s, k, n)
    {
      var c, fat' := s.chains[k], vol.Fat();
      TailOrphan(s, k, n);
      forall l, x | l in s.chains && l != k && x in s.chains[l] && InRange(s.fat, x)
        ensures fat'[x] == s.fat[x]
      {
        assert Apart(s.chains[l], c);
        assert n > 0 ==> c[n - 1] in c;
      }
      OthersFrame(s.fat, fat', s.chains, k, c[..n]);
      JoinFiles(fat', k);
    }

    lemma CutThis(s: Ledger, k: nat, n: nat)
      requires Open(s, k) && 1 <= n < |s.chains[k]| && EndsBy(inodes[k].lru, n - 1)
      ensures ThisOk(Cut(s.fat, s.chains[k], n), k, s.chains[k][..n])
    {
      FileCut(s.fat, inodes[k].start, inodes[k].limit, inodes[k].lru, s.chains[k], n);
    }

    /** Where the walk to position n - 1 of file k leads, and what its entry holds. */
    lemma CutPoint(s: Ledger, k: nat, n: nat)
      requires Open(s, k) && s.chains[k] != [] && 1 <= n
      ensures var c, w := s.chains[k], Walk(s.fat, inodes[k].limit, n - 1, 0, inodes[k].start);
              && (n <= |c| && n - 1 <= inodes[k].limit + 1 ==>
                    w == Walked(Reached, n - 1, c[n - 1]) && InRange(s.fat, c[n - 1])
                    && s.fat[c[n - 1]] == if n == |c| then FAT_ENT_EOF else c[n])
              && (w.end == Reached ==> n <= |c| && n - 1 <= inodes[k].limit + 1)
              && (w.end == AtEof ==> n > |c|)
              && (n < |c| ==> InRange(s.fat, c[n]))
              && (w.end == Broken ==> |c| > inodes[k].limit + 1)
    {
      var c := s.chains[k];
      WalkAlongChain(s.fat, c, inodes[k].limit, n - 1, 0);
      assert n <= |c| ==> InRange(s.fat, c[n - 1]);
      assert n < |c| ==> s.fat[c[n - 1]] == c[n - 1 + 1] && InRange(s.fat, c[n]);
    }

    /** The write in the middle of fat_free: an end mark in the last cluster kept. */
    method WriteEnd(ghost s: Ledger, k: nat, ino: FatInode, n: nat, e: FatEntry, wait: bool) returns (st: Status)
      requires Open(s, k) && k in inodes && ino == inodes[k] && EndsBy(ino.lru, n - 1)
      requires 1 <= n < |s.chains[k]| && InRange(s.fat, s.chains[k][n - 1])
      requires e == Locate(vol.g, s.chains[k][n - 1]) && vol.Held(e)
      modifies `chains, vol`blocks, vol`readFaults, vol`writeFaults
      ensures FilesOk() && Now() == CutLedger(s, k, n)
      ensures vol.TableOk() && (CountOk(vol.freeClusters, vol.freeClusValid, s.fat) ==> vol.CountRight())
      ensures old(vol.readFaults) <= vol.readFaults && old(vol.writeFaults) <= vol.writeFaults
      ensures st.Err? ==> vol.readFaults > old(vol.readFaults) || vol.writeFaults > old(vol.writeFaults)
    {
      hide FileOk, Sound, OthersOk, ThisOk, CacheOk, FatOf, DiskOk, FilesOk, Open, Unsynced, IsChain, Step, CountOk,
           FreeCount, Locate, Cut, EndsBy, Volume.TableOk, Volume.HintsOk;
      OpenFacts(s, k);
      CutThis(s, k, n);
      CutWritten(s, k, n);
      st := vol.EntWrite(e, FAT_ENT_EOF, wait);
      chains := chains[k := chains[k][..n]];
      CutFiles(s, k, n);
    }

    /** The middle of fat_free: write the new end mark after n clusters, and find what follows. cut tells whether
        the file is now shorter. */
    method CutAt(ghost s: Ledger, k: nat, ino: FatInode, n: nat, wait: bool) returns (st: Status, cut: bool, tail: int)
      requires Open(s, k) && k in inodes && ino == inodes[k] && ino.start != 0 && ino.lru == [] && 1 <= n
      modifies `chains, vol`blocks, vol`readFaults, vol`writeFaults, ino`lru, ino`nrCaches
      ensures !cut ==> Open(s, k)
      ensures cut ==> n < |s.chains[k]| && FilesOk() && Now() == CutLedger(s, k, n) && tail == s.chains[k][n]
      ensures vol.TableOk() && (CountOk(vol.freeClusters, vol.freeClusValid, s.fat) ==> vol.CountRight())
      ensures old(vol.readFaults) <= vol.readFaults && old(vol.writeFaults) <= vol.writeFaults
      ensures vol.readFaults == old(vol.readFaults) && vol.writeFaults == old(vol.writeFaults)
                && |s.chains[k]| <= ino.limit + 1 ==>
                st.Ok? && cut == (n < |s.chains[k]|)
      ensures st.Err? && vol.readFaults == old(vol.readFaults) && vol.writeFaults == old(vol.writeFaults) ==> !cut
    {
      hide FileOk, Sound, OthersOk, ThisOk, CacheOk, FatOf, DiskOk, FilesOk, Open, Unsynced, IsChain, Walk, At, Step,
           CountOk, FreeCount, Locate, Cut, EndsBy, Volume.TableOk, Volume.HintsOk;
      OpenFacts(s, k);
      NothingCached(n - 1);
      var r := Seek(s, k, ino, n - 1);
      OpenFacts(s, k);
      CutPoint(s, k, n);
      if r.end == Broken {
        return Err(EIO), false, 0;
      }
      if r.end == AtEof {
        return Ok, false, 0;
      }
      var e, v := vol.EntReadAt(NO_ENTRY, r.dclus);
      KeepOpen(s, k);
      if v.Failed? {
        return Err(v.errno), false, 0;
      }
      if v.v == FAT_ENT_EOF {
        return Ok, false, 0;
      }
      st := WriteEnd(s, k, ino, n, e, wait);
      cut, tail := true, v.v;
    }

    lemma NothingCached(n: int)
      ensures EndsBy([], n)
    {
    }

    lemma CutWritten(s: Ledger, k: nat, n: nat)
      requires Sound(s) && k in s.chains && 1 <= n < |s.chains[k]|
      ensures InRange(s.fat, s.chains[k][n - 1])
      ensures Cut(s.fat, s.chains[k], n) == s.fat[s.chains[k][n - 1] := FAT_ENT_EOF]
      ensures FreeCount(Cut(s.fat, s.chains[k], n)) == FreeCount(s.fat)
      ensures forall c, v :: CountOk(c, v, s.fat) ==> CountOk(c, v, Cut(s.fat, s.chains[k], n))
    {
      assert ChainOk(s.fat, s.chains[k]);
      assert InRange(s.fat, s.chains[k][n - 1]);
      CutCount(s.fat, s.chains[k], n);
    }

    /** After part of an orphan tail was released: every file is as before, and without a failure it is all gone. */
    lemma TailReleased(s: Ledger, s1: Ledger, k: nat, n: nat, freed: seq<int>)
      requires Sound(s) && k in s.chains && n < |s.chains[k]| && s1 == CutLedger(s, k, n)
      requires vol.TableOk() && vol.HintsOk() && k in chains && chains == s1.chains
      requires OthersOk(s1.fat, s1.chains, k) && ThisOk(s1.fat, k, s1.chains[k])
      requires IsPath(s1.fat, s.chains[k][n], freed) && vol.Fat() == FreeAll(s1.fat, freed)
      ensures FilesOk() && Shrunk(s, Now(), k, n, freed) && Step(s, Now())
      ensures IsChain(s1.fat, freed) ==> freed == s.chains[k][n..]
      ensures !BadEnd(s1.fat, s.chains[k][n], freed)
    {
      hide FilesOk, Open, Sound, Volume.TableOk, Volume.HintsOk;
      TailOrphan(s, k, n);
      var tail := s.chains[k][n..];
      ReleaseAlongChain(s1.fat, tail, freed);
      OrphanReleased(s1, k, tail, freed);
      CutThenFreed(s, Now(), k, n, freed);
    }

    /** The end of fat_free: release the clusters cut off. */
    method ReleaseTail(ghost s: Ledger, k: nat, ghost n: nat, tail: int) returns (st: Status, ghost freed: seq<int>)
      requires FilesOk() && k in inodes && Sound(s) && k in s.chains && n < |s.chains[k]|
      requires Now() == CutLedger(s, k, n) && tail == s.chains[k][n]
      modifies vol`blocks, vol`freeClusters, vol`readFaults, vol`writeFaults, vol`discarded
      ensures FilesOk() && Shrunk(s, Now(), k, n, freed) && Step(s, Now())
      ensures st.Ok? ==> freed == s.chains[k][n..]
      ensures old(vol.readFaults) <= vol.readFaults && old(vol.writeFaults) <= vol.writeFaults
      ensures vol.readFaults == old(vol.readFaults) && vol.writeFaults == old(vol.writeFaults) ==> st.Ok?
      ensures vol.TableOk() && old(vol.TableOk()) && (old(vol.CountRight()) ==> vol.CountRight())
    {
      hide *;
      OpenFiles(k);
      ghost var s1 := Now();
      OpenFacts(s1, k);
      OpenSplit(s1, k);
      st, freed := vol.FreeClusters(tail);
      TailReleased(s, s1, k, n, freed);
    }

    /** The whole of file k is cut off: it has no first cluster any more. */
    lemma EmptiedThis(s: Ledger, k: nat)
      requires Open(s, k)
      ensures FileOk(Cut(s.fat, s.chains[k], 0), 0, inodes[k].limit, [], s.chains[k][..0])
      ensures Cut(s.fat, s.chains[k], 0) == s.fat
    {
    }

    lemma SameStep(s: Ledger)
      ensures Step(s, s)
    {
      assert GaveUp(s, s);
    }

    method DropCache(ghost s: Ledger, k: nat, ino: FatInode)
      requires Open(s, k) && k in inodes && ino == inodes[k]
      modifies ino`lru, ino`nrCaches, ino`cacheValidId
      ensures Open(s, k) && ino.lru == []
    {
      hide *;
      OpenFacts(s, k);
      ino.Invalidate();
      EmptyCacheOk(s.fat, ino.start, ino.limit);
      KeepOpen(s, k);
    }

    /** fat_sync_inode, if the directory is to be written at once. */
    method WriteInode(ino: FatInode) returns (st: Status)
      modifies vol`writeFaults
      ensures vol.writeFaults == old(vol.writeFaults) + if st.Ok? then 0 else 1
    {
      st := Ok;
      if ino.dirSync {
        st := vol.SyncBhs([]);
      }
    }

    /** Nothing of file k is to stay: it loses its first cluster, and gets it back if that cannot be written. */
    method ClearFirst(ghost s: Ledger, k: nat, ino: FatInode) returns (st: Status)
      requires Open(s, k) && k in inodes && ino == inodes[k] && ino.start != 0 && ino.lru == []
      modifies `chains, vol`writeFaults, ino`start, ino`logstart
      ensures st.Ok? ==> FilesOk() && Now() == CutLedger(s, k, 0)
      ensures st.Err? ==> Open(s, k) && ino.start == old(ino.start) && ino.logstart == old(ino.logstart)
      ensures st.Ok? ==> ino.start == 0 && ino.logstart == 0
      ensures vol.writeFaults == old(vol.writeFaults) + if st.Ok? then 0 else 1
    {
      hide *;
      OpenFacts(s, k);
      EmptiedThis(s, k);
      EmptyCacheOk(s.fat, ino.start, ino.limit);
      var iStart, iLogstart := ino.start, ino.logstart;
      ino.start, ino.logstart := 0, 0;
      st := WriteInode(ino);
      if st.Err? {
        ino.start, ino.logstart := iStart, iLogstart;
        KeepOpen(s, k);
        return;
      }
      chains := chains[k := chains[k][..0]];
      CutFiles(s, k, 0);
    }

    /** The first half of fat_free: drop the cache, clear the first cluster if nothing is to stay, write the inode. */
    method BeginFree(ghost s: Ledger, k: nat, ino: FatInode, skip: nat) returns (st: Status)
      requires Open(s, k) && k in inodes && ino == inodes[k] && ino.start != 0
      modifies `chains, vol`writeFaults, ino`start, ino`logstart, ino`lru, ino`nrCaches, ino`cacheValidId
      ensures ino.lru == []
      ensures st.Err? || skip > 0 ==> Open(s, k) && ino.start == old(ino.start) && ino.logstart == old(ino.logstart)
      ensures st.Ok? && skip == 0 ==> ino.start == 0 && ino.logstart == 0
      ensures st.Ok? && skip == 0 ==> FilesOk() && Now() == CutLedger(s, k, 0)
      ensures vol.writeFaults == old(vol.writeFaults) + if st.Ok? then 0 else 1
    {
      hide *;
      DropCache(s, k, ino);
      if skip == 0 {
        st := ClearFirst(s, k, ino);
      } else {
        OpenFacts(s, k);
        st := WriteInode(ino);
        KeepOpen(s, k);
      }
    }

    /** The part of fat_free that shortens the file: cut says whether it did. */
    method CutOff(ghost s: Ledger, k: nat, ino: FatInode, skip: nat) returns (st: Status, cut: bool, freeStart: int)
      requires Open(s, k) && k in inodes && ino == inodes[k] && ino.start != 0
      modifies `chains, vol`blocks, vol`readFaults, vol`writeFaults
      modifies ino`start, ino`logstart, ino`lru, ino`nrCaches, ino`cacheValidId
      ensures !cut ==> Open(s, k)
      ensures cut ==>
                && skip < |s.chains[k]| && FilesOk() && Now() == CutLedger(s, k, skip)
                && freeStart == s.chains[k][skip]
      ensures ino.start == if cut && skip == 0 then 0 else old(ino.start)
      ensures ino.logstart == if cut && skip == 0 then 0 else old(ino.logstart)
      ensures vol.TableOk() && (CountOk(vol.freeClusters, vol.freeClusValid, s.fat) ==> vol.CountRight())
      ensures old(vol.readFaults) <= vol.readFaults && old(vol.writeFaults) <= vol.writeFaults
      ensures vol.readFaults == old(vol.readFaults) && vol.writeFaults == old(vol.writeFaults)
                && |s.chains[k]| <= ino.limit + 1 ==>
                st.Ok? && cut == (skip < |s.chains[k]|)
    {
      hide FileOk, Sound, OthersOk, ThisOk, CacheOk, FatOf, DiskOk, FilesOk, Open, Unsynced, IsChain, Step, CountOk,
           FreeCount, Cut, Volume.TableOk, Volume.HintsOk;
      OpenFacts(s, k);
      cut, freeStart := false, ino.start;
      st := BeginFree(s, k, ino, skip);
      if st.Err? {
        OpenFacts(s, k);
        return;
      }
      if skip > 0 {
        OpenFacts(s, k);
        st, cut, freeStart := CutAt(s, k, ino, skip, ino.dirSync);
      } else {
        cut := true;
        CutNothing(s, k);
      }
    }

    lemma CutNothing(s: Ledger, k: nat)
      requires FilesOk() && k in s.chains && Now() == CutLedger(s, k, 0)
      ensures vol.TableOk() && vol.Fat() == s.fat
    {
    }

    /** fat_free: keep the first skip clusters of file k. Whatever fails on the way, no file is damaged. */
    method FreeAfter(k: nat, ino: FatInode, skip: nat) returns (st: Status)
      requires FilesOk() && k in inodes && ino == inodes[k]
      modifies `chains, vol`blocks, vol`freeClusters, vol`readFaults, vol`writeFaults, vol`discarded
      modifies ino`start, ino`logstart, ino`lru, ino`nrCaches, ino`cacheValidId, ino`blocks512
      ensures FilesOk() && Step(old(Now()), Now())
      ensures vol.TableOk() && (old(vol.CountRight()) ==> vol.CountRight())
      ensures vol.readFaults == old(vol.readFaults) && vol.writeFaults == old(vol.writeFaults)
                && |old(chains)[k]| <= ino.limit + 1 ==>
                && st.Ok? && CutTo(old(Now()), Now(), k, skip)
                && ino.blocks512 == (if skip < |old(chains)[k]| then skip * ino.units else old(ino.blocks512))
                && (Counted(old(chains[k]), ino.units, old(ino.blocks512)) ==>
                      Counted(chains[k], ino.units, ino.blocks512))
      ensures k in chains
                && HeadFollows(old(chains[k]), chains[k], old(ino.start), old(ino.logstart), ino.start, ino.logstart)
      ensures ino.blocks512 == old(ino.blocks512) || ino.blocks512 == skip * ino.units
    {
      hide FileOk, Sound, OthersOk, ThisOk, CacheOk, FatOf, DiskOk, FilesOk, Open, Unsynced, IsChain, Step, Shrunk,
           CountOk, FreeCount, Cut, HeadFollows, Counted, Volume.TableOk, Volume.HintsOk;
      OpenFiles(k);
      ghost var s := Now();
      OpenFacts(s, k);
      SameStep(s);
      HeadSame(s.chains[k], ino.start, ino.logstart);
      if ino.start == 0 {
        CloseFiles(s, k);
        return Ok;
      }
      var cut, freeStart;
      st, cut, freeStart := CutOff(s, k, ino, skip);
      if !cut {
        CloseFiles(s, k);
        return;
      }
      HeadCut(s.chains[k], skip, old(ino.start), old(ino.logstart));
      CountedCut(s.chains[k], skip, ino.units);
      CutStep(s, k, skip);
      if st.Err? {
        return;
      }
      SetBlocks(k, ino, skip);
      ghost var freed;
      st, freed := ReleaseTail(s, k, skip, freeStart);
    }

    /** Cutting the chain alone is already a step; its rest is merely not free yet. */
    lemma CutStep(s: Ledger, k: nat, n: nat)
      requires Sound(s) && k in s.chains && n < |s.chains[k]|
      ensures Step(s, CutLedger(s, k, n))
      ensures n == 0 && IsChain(s.fat, s.chains[k]) ==> s.chains[k][n] == s.chains[k][0]
    {
      CutThenFreed(s, CutLedger(s, k, n), k, n, []);
    }

    method SetBlocks(k: nat, ino: FatInode, clusters: nat)
      requires FilesOk() && k in inodes && ino == inodes[k]
      modifies ino`blocks512
      ensures FilesOk() && ino.blocks512 == clusters * ino.units
    {
      hide Sound, FileOk, FatOf, DiskOk;
      ino.blocks512 := clusters * ino.units;
    }

    method SetPrivateSize(k: nat, ino: FatInode, bytes: nat)
      requires FilesOk() && k in inodes && ino == inodes[k]
      modifies ino`mmuPrivate
      ensures FilesOk() && ino.mmuPrivate == bytes
    {
      hide Sound, FileOk, FatOf, DiskOk;
      ino.mmuPrivate := bytes;
    }

    /** fat_truncate: cut file k down to the clusters its size needs; the result of fat_free is not looked at. */
    method Truncate(k: nat, ino: FatInode)
      requires FilesOk() && k in inodes && ino == inodes[k]
      requires 0 <= ino.size && 0 <= ino.mmuPrivate
      modifies `chains, vol`blocks, vol`freeClusters, vol`readFaults, vol`writeFaults, vol`discarded
      modifies ino`start, ino`logstart, ino`lru, ino`nrCaches, ino`cacheValidId, ino`blocks512, ino`mmuPrivate
      ensures FilesOk() && Step(old(Now()), Now())
      ensures ino.mmuPrivate == if old(ino.mmuPrivate) > ino.size then ino.size else old(ino.mmuPrivate)
      ensures vol.TableOk() && (old(vol.CountRight()) ==> vol.CountRight())
      ensures vol.readFaults == old(vol.readFaults) && vol.writeFaults == old(vol.writeFaults)
                && |old(chains)[k]| <= ino.limit + 1 ==>
                && CutTo(old(Now()), Now(), k, ClustersNeeded(ino.size, ino.units))
                && CleanStep(old(Now()), Now())
                && |chains[k]| == ClustersKept(|old(chains)[k]|, ino.size, ino.units)
                && ino.blocks512 == (if chains == old(chains) then old(ino.blocks512) else |chains[k]| * ino.units)
                && (Counted(old(chains[k]), ino.units, old(ino.blocks512)) ==>
                      Counted(chains[k], ino.units, ino.blocks512))
      ensures k in chains
                && HeadFollows(old(chains[k]), chains[k], old(ino.start), old(ino.logstart), ino.start, ino.logstart)
    {
      hide FilesOk, Open, Sound, HeadFollows, Counted, Step, Volume.TableOk, Volume.HintsOk;
      OpenFiles(k);
      OpenFacts(Now(), k);
      ghost var s := Now();
      if ino.mmuPrivate > ino.size {
        SetPrivateSize(k, ino, ino.size);
      }
      var nrClusters := ClustersNeeded(ino.size, ino.units);
      var st := FreeAfter(k, ino, nrClusters);
      if CutTo(s, Now(), k, nrClusters) {
        KeptAfter(s, Now(), k, ino.size, ino.units);
        CutToClean(s, Now(), k, nrClusters);
      }
    }
  }
}
