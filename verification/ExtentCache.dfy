/** The per-inode cache of contiguous cluster runs, and fat_get_cluster on top of it. */
module ExtentCache {
  import opened FatDefs
  import opened FatTable
  import opened FatChains
  import opened FatVolume
  import opened ClusterWalk

  const FAT_MAX_CACHE: nat := 8
  const FAT_CACHE_VALID: int := 0

  /** struct fat_cache: clusters fcluster .. fcluster + nrContig of the file lie at dcluster and up. */
  datatype Extent = Extent(nrContig: int, fcluster: int, dcluster: int)

  /** struct fat_cache_id: a copy of an extent, or one being built. */
  datatype CacheId = CacheId(id: int, ext: Extent)

  /** cache_init */
  function CacheInit(fclus: int, dclus: int): CacheId {
    CacheId(FAT_CACHE_VALID, Extent(0, fclus, dclus))
  }

  const DUMMY := CacheInit(-1, -1)

  /** cache_contiguous: extend the run by one, and say whether dclus is where it now ends. */
  function CacheContiguous(cid: CacheId, dclus: int): (CacheId, bool) {
    var e := cid.ext.(nrContig := cid.ext.nrContig + 1);
    (cid.(ext := e), e.dcluster + e.nrContig == dclus)
  }

  /** The extent tells the truth about the chain from start, begins at position 1 or where the clusters stop being
      consecutive, and stays within the file-size limit. */
  ghost predicate ExtentOk(fat: seq<int>, start: int, limit: nat, e: Extent) {
    && 1 <= e.fcluster && 0 <= e.nrContig
    && e.fcluster + e.nrContig <= limit + 1
    && (e.fcluster > 1 ==> At(fat, start, e.fcluster - 1) != On(e.dcluster - 1))
    && forall k: nat :: e.fcluster <= k <= e.fcluster + e.nrContig ==>
         At(fat, start, k) == On(e.dcluster + (k - e.fcluster))
  }

  /** The cache invariant: truthful extents with different first positions, at most FAT_MAX_CACHE of them. */
  ghost predicate CacheOk(fat: seq<int>, start: int, limit: nat, lru: seq<Extent>) {
    && |lru| <= FAT_MAX_CACHE
    && (forall i :: 0 <= i < |lru| ==> ExtentOk(fat, start, limit, lru[i]))
    && (forall i, j :: 0 <= i < j < |lru| ==> lru[i].fcluster != lru[j].fcluster)
  }

  /** Some extent knows position n. */
  ghost predicate Covered(lru: seq<Extent>, n: int) {
    exists i :: 0 <= i < |lru| && lru[i].fcluster <= n <= lru[i].fcluster + lru[i].nrContig
  }

  /** Extents do not overlap: one ends before another begins. */
  lemma Disjoint(fat: seq<int>, start: int, limit: nat, a: Extent, b: Extent)
    requires ExtentOk(fat, start, limit, a) && ExtentOk(fat, start, limit, b) && a.fcluster < b.fcluster
    ensures a.fcluster + a.nrContig < b.fcluster
  {
    hide ExtentOk, At;
    ExtentAt(fat, start, limit, a, a.fcluster);
    if b.fcluster <= a.fcluster + a.nrContig {
      ExtentAt(fat, start, limit, a, b.fcluster);
      ExtentAt(fat, start, limit, a, b.fcluster - 1);
      ExtentAt(fat, start, limit, b, b.fcluster);
    }
  }

  lemma ExtentAt(fat: seq<int>, start: int, limit: nat, e: Extent, k: int)
    requires ExtentOk(fat, start, limit, e)
    ensures 1 <= e.fcluster && 0 <= e.nrContig
    ensures e.fcluster <= k <= e.fcluster + e.nrContig ==> At(fat, start, k) == On(e.dcluster + (k - e.fcluster))
    ensures e.fcluster > 1 ==> At(fat, start, e.fcluster - 1) != On(e.dcluster - 1)
  {
  }

  /** Every extent ends at or before position n. */
  ghost predicate EndsBy(lru: seq<Extent>, n: int) {
    forall i :: 0 <= i < |lru| ==> lru[i].fcluster + lru[i].nrContig <= n
  }

  /** fat_cache_update_lru: the i-th extent becomes the most recently used. */
  function MoveToFront(lru: seq<Extent>, i: nat): (r: seq<Extent>)
    requires i < |lru|
    ensures |r| == |lru|
  {
    [lru[i]] + lru[..i] + lru[i + 1..]
  }

  lemma MoveToFrontOk(fat: seq<int>, start: int, limit: nat, lru: seq<Extent>, i: nat, n: int)
    requires CacheOk(fat, start, limit, lru) && i < |lru|
    ensures CacheOk(fat, start, limit, MoveToFront(lru, i))
    ensures EndsBy(lru, n) ==> EndsBy(MoveToFront(lru, i), n)
  {
    var r := MoveToFront(lru, i);
    assert forall k :: 0 < k <= i ==> r[k] == lru[k - 1];
    assert forall k :: i < k < |r| ==> r[k] == lru[k];
  }

  /** Position of the extent that begins at position f of the file, or |lru|. */
  ghost function IndexOf(lru: seq<Extent>, f: int): (i: nat)
    ensures i <= |lru|
    ensures forall k :: 0 <= k < i ==> lru[k].fcluster != f
    ensures i < |lru| ==> lru[i].fcluster == f
  {
    if |lru| == 0 || lru[0].fcluster == f then 0
    else 1 + IndexOf(lru[1..], f)
  }

  /** The list after adding an extent: merged into the one with the same first position if there is one,
      else put in front, the least recently used one making way when the list is full. */
  ghost function Added(lru: seq<Extent>, e: Extent): seq<Extent> {
    var i := IndexOf(lru, e.fcluster);
    if i < |lru| then
      var n := if e.nrContig > lru[i].nrContig then e.nrContig else lru[i].nrContig;
      MoveToFront(lru[i := lru[i].(nrContig := n)], i)
    else if |lru| < FAT_MAX_CACHE then [e] + lru
    else [e] + lru[..|lru| - 1]
  }

  /** Two truthful extents with one first position have one first cluster, so the driver's BUG_ON cannot fire. */
  lemma SameStart(fat: seq<int>, start: int, limit: nat, a: Extent, b: Extent)
    requires ExtentOk(fat, start, limit, a) && ExtentOk(fat, start, limit, b)
    requires a.fcluster == b.fcluster
    ensures a.dcluster == b.dcluster
  {
    assert At(fat, start, a.fcluster) == On(a.dcluster);
    assert At(fat, start, b.fcluster) == On(b.dcluster);
  }

  /** Adding a truthful extent keeps the invariant, through merge, insertion and eviction alike. */
  lemma AddedOk(fat: seq<int>, start: int, limit: nat, lru: seq<Extent>, e: Extent, n: int)
    requires CacheOk(fat, start, limit, lru) && ExtentOk(fat, start, limit, e)
    ensures CacheOk(fat, start, limit, Added(lru, e))
    ensures EndsBy(lru, n) && e.fcluster + e.nrContig <= n ==> EndsBy(Added(lru, e), n)
    ensures |Added(lru, e)| > 0 && Added(lru, e)[0].fcluster == e.fcluster && Added(lru, e)[0].nrContig >= e.nrContig
  {
    var i := IndexOf(lru, e.fcluster);
    if i < |lru| {
      SameStart(fat, start, limit, lru[i], e);
      var m := if e.nrContig > lru[i].nrContig then e.nrContig else lru[i].nrContig;
      var merged := lru[i].(nrContig := m);
      assert ExtentOk(fat, start, limit, merged);
      var lru' := lru[i := merged];
      assert CacheOk(fat, start, limit, lru');
      MoveToFrontOk(fat, start, limit, lru', i, n);
    }
  }

  /** What a lookup may answer: no extent begins in 1..fclus, or the extent h of the list is at or before fclus,
      off positions into it, and it either covers fclus or is the closest one before it. */
  ghost predicate Nearest(lru: seq<Extent>, fclus: int, h: int, off: int) {
    && 0 <= h < |lru| && 1 <= lru[h].fcluster <= fclus
    && off == (if lru[h].fcluster + lru[h].nrContig < fclus then lru[h].nrContig else fclus - lru[h].fcluster)
    && (lru[h].fcluster + lru[h].nrContig < fclus ==>
          forall i :: 0 <= i < |lru| && lru[i].fcluster <= fclus ==> lru[i].fcluster <= lru[h].fcluster)
  }

  /** From position f the way to fclus is no longer than from any position an extent knows. */
  ghost predicate LeadsOn(lru: seq<Extent>, fclus: int, f: int) {
    forall n :: n <= fclus && Covered(lru, n) ==> n <= f
  }

  lemma NearestCovers(fat: seq<int>, start: int, limit: nat, lru: seq<Extent>, fclus: int, h: nat, off: int)
    requires CacheOk(fat, start, limit, lru) && h < |lru| && Nearest(lru, fclus, h, off)
    ensures LeadsOn(lru, fclus, lru[h].fcluster + off)
  {
    hide ExtentOk, At;
    ExtentAt(fat, start, limit, lru[h], 1);
    forall n | n <= fclus && Covered(lru, n)
      ensures n <= lru[h].fcluster + off
    {
      var i :| 0 <= i < |lru| && lru[i].fcluster <= n <= lru[i].fcluster + lru[i].nrContig;
      if lru[h].fcluster + lru[h].nrContig < fclus && i != h {
        assert lru[i].fcluster != lru[h].fcluster;
        Disjoint(fat, start, limit, lru[i], lru[h]);
      }
    }
  }

  type pos = x: int | x >= 1 witness 1

  /** What reading one link says. */
  datatype LinkStep = Follow(d: int) | Stop(end: WalkEnd)

  /** The cluster-related part of an in-core inode. */
  class FatInode {
    /** s_maxbytes in clusters. */
    const limit: nat
    /** 512-byte units per cluster. */
    const units: pos
    const isDir: bool
    /** Writes are synchronous: of the inode (IS_SYNC), of directories (IS_DIRSYNC). */
    const sync: bool
    const dirSync: bool
    var start: int
    var logstart: int
    /** i_blocks, in 512-byte units */
    var blocks512: int
    var size: int
    var mmuPrivate: int
    var lru: seq<Extent>
    var nrCaches: int
    var cacheValidId: int

    /** inode_needs_sync */
    predicate NeedsSync() {
      sync || (isDir && dirSync)
    }

    ghost predicate LruOk()
      reads `lru, `nrCaches, `cacheValidId
    {
      nrCaches == |lru| && 0 < cacheValidId < UINT_RANGE
    }

    /** fat_cache_lookup */
    method Lookup(fclus: int) returns (off: int, cid: CacheId, cachedF: int, cachedD: int)
      requires LruOk() && 1 <= fclus
      requires forall i :: 0 <= i < |lru| ==> 1 <= lru[i].fcluster && 0 <= lru[i].nrContig
      modifies `lru
      ensures LruOk()
      ensures off < 0 ==> lru == old(lru) && forall i :: 0 <= i < |lru| ==> lru[i].fcluster > fclus
      ensures off >= 0 ==>
                exists h: nat :: h < |old(lru)| && Nearest(old(lru), fclus, h, off)
                                 && lru == MoveToFront(old(lru), h) && cid == CacheId(cacheValidId, old(lru)[h])
      ensures off >= 0 ==> cachedF == cid.ext.fcluster + off && cachedD == cid.ext.dcluster + off
    {
      var hit := -1;
      off, cid, cachedF, cachedD := -1, DUMMY, 0, 0;
      var i := 0;
      while i < |lru|
        invariant 0 <= i <= |lru| && -1 <= hit < i && (off < 0 <==> hit < 0)
        invariant hit < 0 ==> forall k :: 0 <= k < i ==> lru[k].fcluster > fclus
        invariant hit >= 0 ==>
                  1 <= lru[hit].fcluster && lru[hit].fcluster + lru[hit].nrContig < fclus && off == lru[hit].nrContig
        invariant hit >= 0 ==> forall k :: 0 <= k < i && lru[k].fcluster <= fclus ==>
                  lru[k].fcluster <= lru[hit].fcluster
      {
        var p := lru[i];
        // a later start beats an earlier one; before the first hit any start at 1 or later does
        if p.fcluster <= fclus && (if hit < 0 then 0 else lru[hit].fcluster) < p.fcluster {
          hit := i;
          if p.fcluster + p.nrContig < fclus {
            off := p.nrContig;
          } else {
            off := fclus - p.fcluster;
            break;
          }
        }
        i := i + 1;
      }
      if hit >= 0 {
        assert Nearest(lru, fclus, hit, off);
        cid := CacheId(cacheValidId, lru[hit]);
        cachedF, cachedD := cid.ext.fcluster + off, cid.ext.dcluster + off;
        lru := MoveToFront(lru, hit);
      }
    }

    /** fat_cache_merge: find the extent with the same first position and let it grow. */
    method Merge(new_: Extent, ghost vol: Volume) returns (i: nat)
      requires vol.TableOk() && CacheOk(vol.Fat(), start, limit, lru) && ExtentOk(vol.Fat(), start, limit, new_)
      modifies `lru
      ensures i == IndexOf(old(lru), new_.fcluster)
      ensures i == |old(lru)| ==> lru == old(lru)
      ensures i < |old(lru)| ==>
                lru == old(lru)[i := old(lru)[i].(nrContig := if new_.nrContig > old(lru)[i].nrContig then new_.nrContig
                                                             else old(lru)[i].nrContig)]
    {
      i := 0;
      while i < |lru|
        invariant i <= |lru| && lru == old(lru)
        invariant IndexOf(lru, new_.fcluster) == i + IndexOf(lru[i..], new_.fcluster)
      {
        var p := lru[i];
        if p.fcluster == new_.fcluster {
          SameStart(vol.Fat(), start, limit, p, new_);
          assert p.dcluster == new_.dcluster;      // the BUG_ON of the source
          if new_.nrContig > p.nrContig {
            lru := lru[i := p.(nrContig := new_.nrContig)];
          }
          return;
        }
        assert lru[i..][1..] == lru[i + 1..];
        i := i + 1;
      }
    }

    /** fat_cache_add */
    method Add(new_: CacheId, ghost vol: Volume)
      requires vol.TableOk() && LruOk() && CacheOk(vol.Fat(), start, limit, lru)
      requires new_.ext.fcluster != -1 ==> ExtentOk(vol.Fat(), start, limit, new_.ext)
      modifies `lru, `nrCaches
      ensures LruOk() && CacheOk(vol.Fat(), start, limit, lru)
      ensures lru == if new_.ext.fcluster == -1 || (new_.id != FAT_CACHE_VALID && new_.id != cacheValidId) then old(lru)
                     else Added(old(lru), new_.ext)
    {
      if new_.ext.fcluster == -1 {                     // nothing was tracked
        return;
      }
      if new_.id != FAT_CACHE_VALID && new_.id != cacheValidId {     // taken from a list since emptied
        return;
      }
      AddedOk(vol.Fat(), start, limit, lru, new_.ext, 0);
      var i := Merge(new_.ext, vol);
      if i < |lru| {
        lru := MoveToFront(lru, i);
      } else if nrCaches < FAT_MAX_CACHE {
        nrCaches := nrCaches + 1;
        lru := [new_.ext] + lru;
      } else {
        lru := [new_.ext] + lru[..|lru| - 1];
      }
    }

    /** fat_cache_inval_inode */
    method Invalidate()
      requires LruOk()
      modifies `lru, `nrCaches, `cacheValidId
      ensures LruOk() && lru == [] && cacheValidId != old(cacheValidId)
    {
      while |lru| > 0
        invariant nrCaches == |lru| && cacheValidId == old(cacheValidId)
      {
        lru := lru[1..];
        nrCaches := nrCaches - 1;
      }
      cacheValidId := (cacheValidId + 1) % UINT_RANGE;
      if cacheValidId == FAT_CACHE_VALID {
        cacheValidId := cacheValidId + 1;
      }
    }

    /** fat_get_cluster as the ATS driver has it: follow the links from the first cluster. */
    method GetClusterUncached(vol: Volume, cluster: int) returns (r: Walked)
      requires vol.TableOk() && 0 <= cluster
      modifies vol`readFaults
      ensures vol.readFaults == old(vol.readFaults) ==> r == Walk(vol.Fat(), limit, cluster, 0, start)
      ensures vol.readFaults != old(vol.readFaults) ==> r.end == Broken && vol.readFaults == old(vol.readFaults) + 1
    {
      var fclus, dclus, c := 0, start, NO_ENTRY;
      while fclus < cluster
        invariant 0 <= fclus <= cluster && vol.readFaults == old(vol.readFaults) && vol.Held(c)
        invariant Walk(vol.Fat(), limit, cluster, 0, start) == Walk(vol.Fat(), limit, cluster, fclus, dclus)
      {
        if fclus > limit {
          return Walked(Broken, fclus, dclus);
        }
        var nr;
        c, nr := vol.EntReadAt(c, dclus);
        if nr.Failed? || nr.v == FAT_ENT_FREE {
          return Walked(Broken, fclus, dclus);
        }
        if nr.v == FAT_ENT_EOF {
          return Walked(AtEof, fclus, dclus);
        }
        fclus, dclus := fclus + 1, nr.v;
      }
      return Walked(Reached, fclus, dclus);
    }

    /** The run being built ends exactly where the walk stands; the dummy runs nowhere. */
    ghost predicate Tracking(fat: seq<int>, cluster: int, cid: CacheId, fclus: int, dclus: int)
      reads `start, `cacheValidId
    {
      && 0 <= fclus <= limit + 1 && fclus <= cluster
      && At(fat, start, fclus) == On(dclus)
      && (cid.id == FAT_CACHE_VALID || cid.id == cacheValidId)
      && (cid.ext.fcluster == -1 ==> cid == DUMMY)
      && (cid.ext.fcluster != -1 ==> ExtentOk(fat, start, limit, cid.ext))
      && (fclus >= 1 ==> cid.ext.fcluster != -1 && cid.ext.fcluster <= fclus <= cid.ext.fcluster + cid.ext.nrContig)
      && (cid.ext.fcluster != -1 && fclus < cluster ==> cid.ext.fcluster + cid.ext.nrContig == fclus)
      && Walk(fat, limit, cluster, 0, start) == Walk(fat, limit, cluster, fclus, dclus)
    }

    lemma TrackingStep(fat: seq<int>, cluster: int, cid: CacheId, fclus: int, dclus: int)
      requires Tracking(fat, cluster, cid, fclus, dclus)
      requires fclus < cluster && fclus <= limit
      requires InRange(fat, dclus) && fat[dclus] != FAT_ENT_FREE && fat[dclus] != FAT_ENT_EOF
      ensures var (longer, contiguous) := CacheContiguous(cid, fat[dclus]);
              var cid' := if contiguous then longer else CacheInit(fclus + 1, fat[dclus]);
              && Tracking(fat, cluster, cid', fclus + 1, fat[dclus])
              && cid'.ext.fcluster != -1 && cid'.ext.fcluster + cid'.ext.nrContig == fclus + 1
    {
      assert At(fat, start, fclus + 1) == On(fat[dclus]);
      if fclus > 0 {
        assert dclus == cid.ext.dcluster + cid.ext.nrContig;
      }
    }

    lemma LookupTracks(fat: seq<int>, lru0: seq<Extent>, cluster: int, h: nat, off: int)
      requires CacheOk(fat, start, limit, lru0) && 1 <= cluster && 0 < cacheValidId
      requires h < |lru0| && Nearest(lru0, cluster, h, off)
      ensures h < |lru0|
      ensures var e := lru0[h];
              Tracking(fat, cluster, CacheId(cacheValidId, e), e.fcluster + off, e.dcluster + off)
    {
      var e := lru0[h];
      assert At(fat, start, e.fcluster + off) == On(e.dcluster + off);
      WalkFromMiddle(fat, limit, cluster, start, e.fcluster + off, e.dcluster + off);
    }

    /** cid will be remembered, and knows position n. */
    ghost predicate Gives(cid: CacheId, n: int)
      reads `cacheValidId
    {
      && (cid.id == FAT_CACHE_VALID || cid.id == cacheValidId)
      && cid.ext.fcluster != -1 && cid.ext.fcluster <= n <= cid.ext.fcluster + cid.ext.nrContig
    }

    /** What the plain walk answers where this one stops. */
    lemma TrackingEnd(fat: seq<int>, cluster: int, cid: CacheId, fclus: int, dclus: int)
      requires Tracking(fat, cluster, cid, fclus, dclus)
      ensures 0 <= fclus <= limit + 1 && fclus <= cluster
      ensures cid.ext.fcluster != -1 ==> ExtentOk(fat, start, limit, cid.ext)
      ensures fclus >= 1 ==> Gives(cid, fclus)
      ensures fclus == cluster ==> Walk(fat, limit, cluster, 0, start) == Walked(Reached, fclus, dclus)
      ensures fclus < cluster && (fclus > limit || !InRange(fat, dclus) || fat[dclus] == FAT_ENT_FREE) ==>
                Walk(fat, limit, cluster, 0, start) == Walked(Broken, fclus, dclus)
      ensures fclus < cluster && fclus <= limit && InRange(fat, dclus) && fat[dclus] == FAT_ENT_EOF ==>
                Walk(fat, limit, cluster, 0, start) == Walked(AtEof, fclus, dclus)
    {
    }

    /** However far the cached runs reached, cid reaches no further than they or the walk did. */
    ghost predicate Bounded(lru0: seq<Extent>, lru1: seq<Extent>, cid: CacheId, fclus: int) {
      && (forall n :: EndsBy(lru0, n) ==> EndsBy(lru1, n))
      && (forall n :: EndsBy(lru0, n) && fclus <= n ==> cid.ext.fcluster + cid.ext.nrContig <= n)
    }

    lemma BoundedEnd(lru0: seq<Extent>, lru1: seq<Extent>, cid: CacheId, fclus: int)
      requires Bounded(lru0, lru1, cid, fclus)
      ensures forall n :: EndsBy(lru0, n) ==> EndsBy(lru1, n)
    {
    }

    lemma BoundedStep(lru0: seq<Extent>, lru1: seq<Extent>, cid: CacheId, fclus: int, dclus: int)
      requires Bounded(lru0, lru1, cid, fclus)
      ensures var (longer, contiguous) := CacheContiguous(cid, dclus);
              var cid' := if contiguous then longer else CacheInit(fclus + 1, dclus);
              cid'.ext.fcluster + cid'.ext.nrContig == fclus + 1 ==> Bounded(lru0, lru1, cid', fclus + 1)
    {
    }

    lemma LookupBounded(fat: seq<int>, lru0: seq<Extent>, h: nat, id: int, fclus: int)
      requires CacheOk(fat, start, limit, lru0) && h < |lru0|
      ensures CacheOk(fat, start, limit, MoveToFront(lru0, h))
      ensures Bounded(lru0, MoveToFront(lru0, h), CacheId(id, lru0[h]), fclus)
    {
      hide CacheOk, MoveToFront;
      MoveToFrontOk(fat, start, limit, lru0, h, 0);
      forall n | EndsBy(lru0, n)
        ensures EndsBy(MoveToFront(lru0, h), n)
      {
        MoveToFrontOk(fat, start, limit, lru0, h, n);
      }
    }

    lemma DummyTracks(fat: seq<int>, lru0: seq<Extent>, cluster: int)
      requires CacheOk(fat, start, limit, lru0) && 1 <= cluster
      ensures Tracking(fat, cluster, DUMMY, 0, start)
      ensures Bounded(lru0, lru0, DUMMY, 0)
    {
    }

    lemma CacheShape(fat: seq<int>, lru0: seq<Extent>)
      requires CacheOk(fat, start, limit, lru0)
      ensures forall i :: 0 <= i < |lru0| ==> 1 <= lru0[i].fcluster && 0 <= lru0[i].nrContig
    {
    }

    lemma CoveredFrom(fat: seq<int>, lru0: seq<Extent>)
      requires CacheOk(fat, start, limit, lru0)
      ensures LeadsOn(lru0, 0, 0)
    {
    }

    lemma LeadsFrom(lru0: seq<Extent>, cluster: int, f: int, looked: nat)
      requires LeadsOn(lru0, cluster, f) && looked <= cluster - f
      ensures forall n :: n <= cluster && Covered(lru0, n) ==> looked <= cluster - n
    {
    }

    lemma LruShape()
      requires LruOk()
      ensures 0 < cacheValidId
    {
    }

    lemma NoneCovered(lru0: seq<Extent>, cluster: int)
      ensures (forall i :: 0 <= i < |lru0| ==> lru0[i].fcluster > cluster) ==> LeadsOn(lru0, cluster, 0)
    {
    }

    /** The lookup, or the dummy when it finds nothing. */
    method BeginWalk(vol: Volume, cluster: int) returns (cid: CacheId, fclus: int, dclus: int)
      requires vol.TableOk() && 1 <= cluster
      requires LruOk() && CacheOk(vol.Fat(), start, limit, lru)
      modifies `lru
      ensures LruOk() && CacheOk(vol.Fat(), start, limit, lru)
      ensures Tracking(vol.Fat(), cluster, cid, fclus, dclus)
      ensures Bounded(old(lru), lru, cid, fclus)
      ensures LeadsOn(old(lru), cluster, fclus)
    {
      hide *;
      CacheShape(vol.Fat(), lru);
      LruShape();
      NoneCovered(lru, cluster);
      var off;
      off, cid, fclus, dclus := Lookup(cluster);
      if off < 0 {
        cid, fclus, dclus := DUMMY, 0, start;
        DummyTracks(vol.Fat(), lru, cluster);
      } else {
        ghost var h: nat :| h < |old(lru)| && Nearest(old(lru), cluster, h, off)
                            && lru == MoveToFront(old(lru), h) && cid == CacheId(cacheValidId, old(lru)[h]);
        LookupTracks(vol.Fat(), old(lru), cluster, h, off);
        NearestCovers(vol.Fat(), start, limit, old(lru), cluster, h, off);
        LookupBounded(vol.Fat(), old(lru), h, cacheValidId, fclus);
      }
    }

    lemma FrontCovers(lru1: seq<Extent>, n: int)
      ensures |lru1| > 0 && lru1[0].fcluster <= n <= lru1[0].fcluster + lru1[0].nrContig ==> Covered(lru1, n)
    {
    }

    /** Remember the run the walk has built. */
    method EndWalk(vol: Volume, cid: CacheId, fclus: int, ghost lru0: seq<Extent>)
      requires vol.TableOk() && LruOk() && CacheOk(vol.Fat(), start, limit, lru)
      requires cid.ext.fcluster != -1 ==> ExtentOk(vol.Fat(), start, limit, cid.ext)
      requires Bounded(lru0, lru, cid, fclus)
      modifies `lru, `nrCaches
      ensures LruOk() && CacheOk(vol.Fat(), start, limit, lru)
      ensures forall n :: EndsBy(lru0, n) && fclus <= n ==> EndsBy(lru, n)
      ensures Gives(cid, fclus) ==> Covered(lru, fclus)
    {
      hide CacheOk, EndsBy, ExtentOk, LruOk, Added, Covered;
      ghost var before := lru;
      Add(cid, vol);
      if Gives(cid, fclus) {
        AddedOk(vol.Fat(), start, limit, before, cid.ext, 0);
        FrontCovers(lru, fclus);
      }
      forall n | EndsBy(lru0, n) && fclus <= n
        ensures EndsBy(lru, n)
      {
        if lru != before {
          AddedOk(vol.Fat(), start, limit, before, cid.ext, n);
        }
      }
    }

    /** One turn of the loop: read the link at dclus and follow it, or say how the walk ends here. */
    method FollowLink(vol: Volume, cluster: int, c: FatEntry, cid: CacheId, fclus: int, dclus: int,
        ghost lru0: seq<Extent>)
      returns (step: LinkStep, c': FatEntry, cid': CacheId)
      requires vol.TableOk() && vol.Held(c)
      requires Tracking(vol.Fat(), cluster, cid, fclus, dclus) && fclus < cluster && fclus <= limit
      requires Bounded(lru0, lru, cid, fclus)
      modifies vol`readFaults
      ensures vol.Held(c')
      ensures step.Follow? ==> vol.readFaults == old(vol.readFaults)
      ensures step.Follow? ==>
                Tracking(vol.Fat(), cluster, cid', fclus + 1, step.d) && Bounded(lru0, lru, cid', fclus + 1)
      ensures step.Stop? ==> cid' == cid && step.end != Reached
      ensures step.Stop? && vol.readFaults == old(vol.readFaults) ==>
                Walk(vol.Fat(), limit, cluster, 0, start) == Walked(step.end, fclus, dclus)
      ensures vol.readFaults != old(vol.readFaults) ==>
                step == Stop(Broken) && vol.readFaults == old(vol.readFaults) + 1
    {
      hide ExtentOk, Tracking, Walk, At, FatOf, DiskOk, CacheInit, CacheContiguous, Bounded;
      TrackingEnd(vol.Fat(), cluster, cid, fclus, dclus);
      cid' := cid;
      var nr;
      c', nr := vol.EntReadAt(c, dclus);
      if nr.Failed? || nr.v == FAT_ENT_FREE {
        step := Stop(Broken);
      } else if nr.v == FAT_ENT_EOF {
        step := Stop(AtEof);
      } else {
        TrackingStep(vol.Fat(), cluster, cid, fclus, dclus);
        BoundedStep(lru0, lru, cid, fclus, nr.v);
        step := Follow(nr.v);
        var (longer, contiguous) := CacheContiguous(cid, nr.v);
        cid' := if contiguous then longer else CacheInit(fclus + 1, nr.v);
      }
    }

    /** The loop of fat_get_cluster. */
    method WalkOn(vol: Volume, cluster: int, cid0: CacheId, fclus0: int, dclus0: int, ghost lru0: seq<Extent>)
      returns (r: Walked, cid: CacheId, ghost looked: nat)
      requires vol.TableOk()
      requires Tracking(vol.Fat(), cluster, cid0, fclus0, dclus0) && Bounded(lru0, lru, cid0, fclus0)
      modifies vol`readFaults
      ensures vol.readFaults == old(vol.readFaults) ==> r == Walk(vol.Fat(), limit, cluster, 0, start)
      ensures vol.readFaults != old(vol.readFaults) ==> r.end == Broken && vol.readFaults == old(vol.readFaults) + 1
      ensures Bounded(lru0, lru, cid, r.fclus)
      ensures cid.ext.fcluster != -1 ==> ExtentOk(vol.Fat(), start, limit, cid.ext)
      ensures looked <= limit + 2 && looked <= cluster - fclus0
      ensures r.end != Broken && r.fclus >= 1 ==> Gives(cid, r.fclus)
    {
      hide ExtentOk, Tracking, Walk, At, FatOf, DiskOk, CacheInit, CacheContiguous, Bounded, Gives;
      var fclus, dclus, c, step := fclus0, dclus0, NO_ENTRY, Stop(Reached);
      cid, looked := cid0, 0;
      assert vol.Held(c);
      TrackingEnd(vol.Fat(), cluster, cid, fclus, dclus);
      while fclus < cluster
        invariant Tracking(vol.Fat(), cluster, cid, fclus, dclus) && vol.Held(c)
        invariant Bounded(lru0, lru, cid, fclus)
        invariant vol.readFaults == old(vol.readFaults) && looked <= fclus <= limit + 1 && fclus <= cluster
        invariant looked == fclus - fclus0
        invariant step.Follow? || step == Stop(Reached)
      {
        TrackingEnd(vol.Fat(), cluster, cid, fclus, dclus);
        if fclus > limit {
          return Walked(Broken, fclus, dclus), cid, looked;
        }
        step, c, cid := FollowLink(vol, cluster, c, cid, fclus, dclus, lru0);
        looked := looked + 1;
        if step.Stop? {
          return Walked(step.end, fclus, dclus), cid, looked;
        }
        fclus, dclus := fclus + 1, step.d;
        TrackingEnd(vol.Fat(), cluster, cid, fclus, dclus);
      }
      TrackingEnd(vol.Fat(), cluster, cid, fclus, dclus);
      return Walked(Reached, fclus, dclus), cid, looked;
    }

    /** fat_get_cluster with the cache: the same answer as the plain walk, and the cache stays truthful. looked counts
        the table entries read: none for a position some extent knows, and no more than the way from one that is known.
        Where the walk ended is known afterwards. */
    method GetCluster(vol: Volume, cluster: int) returns (r: Walked, ghost looked: nat)
      requires vol.TableOk() && 0 <= cluster
      requires LruOk() && CacheOk(vol.Fat(), start, limit, lru)
      modifies `lru, `nrCaches, vol`readFaults
      ensures LruOk() && CacheOk(vol.Fat(), start, limit, lru)
      ensures vol.readFaults == old(vol.readFaults) ==> r == Walk(vol.Fat(), limit, cluster, 0, start)
      ensures vol.readFaults != old(vol.readFaults) ==> r.end == Broken && vol.readFaults == old(vol.readFaults) + 1
      ensures forall n :: EndsBy(old(lru), n) && r.fclus <= n ==> EndsBy(lru, n)
      ensures looked <= limit + 2
      ensures forall n :: n <= cluster && Covered(old(lru), n) ==> looked <= cluster - n
      ensures r.end != Broken && r.fclus >= 1 ==> Covered(lru, r.fclus)
    {
      CoveredFrom(vol.Fat(), lru);
      if cluster == 0 {
        LeadsFrom(lru, 0, 0, 0);
        return Walked(Reached, 0, start), 0;
      }
      hide CacheOk, EndsBy, ExtentOk, LruOk, Tracking, Walk, At, FatOf, DiskOk, CacheInit, CacheContiguous, Bounded,
           Covered, LeadsOn;
      var cid, fclus, dclus := BeginWalk(vol, cluster);
      r, cid, looked := WalkOn(vol, cluster, cid, fclus, dclus, old(lru));
      BoundedEnd(old(lru), lru, cid, r.fclus);
      LeadsFrom(old(lru), cluster, fclus, looked);
      if r.end != Broken {
        EndWalk(vol, cid, r.fclus, old(lru));
      }
    }
  }
}
