/** The mounted volume: the FAT in its buffers, the allocation hints, and the operations of the cluster
    allocator. Device reads may fail at any point, and so may writing buffers out; each failure is counted. */
module FatVolume {
  import opened FatDefs
  import opened FatTable
  import opened FatMirror
  import opened FatChains

  datatype EntRead = Value(v: int) | Failed(errno: Errno)

  /** unsigned free_clusters-- / ++, which leave the unknown mark alone. */
  function CountDown(n: int): int {
    if n == COUNT_UNKNOWN then n else (n - 1) % UINT_RANGE
  }

  function CountUp(n: int): int {
    if n == COUNT_UNKNOWN then n else (n + 1) % UINT_RANGE
  }

  ghost function CountDownBy(n: int, k: nat): int {
    if k == 0 then n else CountDown(CountDownBy(n, k - 1))
  }

  ghost function CountUpBy(n: int, k: nat): int {
    if k == 0 then n else CountUp(CountUpBy(n, k - 1))
  }

  /** sbi->free_clusters, where it claims to be valid, is the number of free entries. */
  ghost predicate CountOk(count: int, valid: bool, fat: seq<int>) {
    valid && count != COUNT_UNKNOWN ==> count == FreeCount(fat)
  }

  /** Counting one entry freed (or taken) keeps a valid count right; it cannot wrap around. */
  lemma CountTracks(n: int, valid: bool, fat: seq<int>, fat': seq<int>)
    requires |fat| <= FAT_ENT_EOF && |fat'| <= FAT_ENT_EOF
    requires CountOk(n, valid, fat)
    ensures FreeCount(fat') == FreeCount(fat) + 1 ==> CountOk(CountUp(n), valid, fat')
    ensures FreeCount(fat') == FreeCount(fat) - 1 ==> CountOk(CountDown(n), valid, fat')
  {
    assert FreeCount(fat) <= FAT_ENT_EOF && FreeCount(fat') <= FAT_ENT_EOF;
    if 0 <= n < COUNT_UNKNOWN {
      assert CountUp(n) == if n + 1 == UINT_RANGE then 0 else n + 1;
    }
  }

  ghost predicate Storable(g: Geometry, v: int) {
    v == FAT_ENT_EOF || 0 <= v < Bad(g.bits)
  }

  /** The clusters of one discard request. */
  function Run(first: int, last: int): (r: set<int>)
    ensures forall x :: x in r <==> first <= x <= last
    decreases last - first + 1
  {
    if first > last then {} else Run(first, last - 1) + {last}
  }

  ghost function Elements(s: seq<int>): (r: set<int>)
    ensures forall x :: x in r <==> x in s
  {
    set x | x in s
  }

  /** Discard requests so far cover the released clusters except the current run of successive ones. */
  ghost predicate Discarding(before: set<int>, now: set<int>, freed: set<int>, firstCl: int, cluster: int) {
    && before <= now <= before + freed
    && firstCl <= cluster
    && Run(firstCl, cluster - 1) <= freed
    && freed <= now + Run(firstCl, cluster - 1)
  }

  /** The discard bookkeeping of one round: a gap before next closes the run. */
  lemma DiscardStep(before: set<int>, now: set<int>, freed: seq<int>, firstCl: int, cluster: int, next: int)
    requires Discarding(before, now, Elements(freed), firstCl, cluster)
    ensures next == cluster + 1 ==> Discarding(before, now, Elements(freed + [cluster]), firstCl, next)
    ensures Discarding(before, now + Run(firstCl, cluster), Elements(freed + [cluster]), next, next)
  {
    assert Elements(freed + [cluster]) == Elements(freed) + {cluster};
    assert Run(firstCl, cluster) == Run(firstCl, cluster - 1) + {cluster};
    assert Run(next, next - 1) == {};
  }

  /** fat is fat0 after releasing freed, a path from start that now leads to cluster. */
  ghost predicate Releasing(fat0: seq<int>, start: int, freed: seq<int>, fat: seq<int>, cluster: int) {
    && IsPath(fat0, start, freed) && Distinct(freed)
    && PathEnd(fat0, start, freed) == cluster
    && fat == FreeAll(fat0, freed)
  }

  lemma ReleaseStart(g: Geometry, fat: seq<int>, start: int, count: int, discarded: set<int>)
    ensures Releasing(fat, start, [], fat, start)
    ensures CountUpBy(count, 0) == count
    ensures Touched(g, []) == {} && Bufs([]) == {}
    ensures Discarding(discarded, discarded, Elements([]), start, start)
  {
    assert Run(start, start - 1) == {};
  }

  lemma ReleaseStep(fat0: seq<int>, start: int, freed: seq<int>, fat: seq<int>, cluster: int, count: int)
    requires Releasing(fat0, start, freed, fat, cluster)
    requires InRange(fat, cluster) && fat[cluster] != FAT_ENT_FREE
    requires |fat| < FAT_ENT_EOF
    ensures fat[cluster] == FAT_ENT_EOF ==> fat[cluster] != cluster + 1
    ensures Releasing(fat0, start, freed + [cluster], fat[cluster := FAT_ENT_FREE], fat[cluster])
    ensures CountUpBy(count, |freed| + 1) == CountUp(CountUpBy(count, |freed|))
  {
    PathStep(fat0, start, freed, cluster);
    assert (freed + [cluster])[..|freed|] == freed;
  }

  lemma ReleaseEnd(fat0: seq<int>, start: int, freed: seq<int>, fat: seq<int>, cluster: int)
    requires Releasing(fat0, start, freed, fat, cluster)
    ensures IsPath(fat0, start, freed) && Distinct(freed) && fat == FreeAll(fat0, freed)
    ensures |freed| > 0 && cluster == FAT_ENT_EOF ==> IsChain(fat0, freed)
    ensures IsChain(fat0, freed) ==> |freed| > 0 && cluster == FAT_ENT_EOF
    ensures (|freed| == 0 || cluster != FAT_ENT_EOF) && (InRange(fat, cluster) ==> fat[cluster] == FAT_ENT_FREE) ==>
              BadEnd(fat0, start, freed)
  {
  }

  lemma DiscardEnd(before: set<int>, now: set<int>, freed: set<int>, firstCl: int, cluster: int)
    requires Discarding(before, now, freed, firstCl, cluster)
    ensures before <= now <= before + freed
    ensures firstCl == cluster ==> now == before + freed
  {
  }

  lemma TouchedStep(g: Geometry, es: seq<int>, e: int)
    ensures Touched(g, es + [e]) == Touched(g, es) + EntryBlocks(g, e)
  {
    assert (es + [e])[..|es|] == es;
  }

  /** u is what a pass may have left out of sync so far: buffers waiting in bufs, all of them among the
      touched ones, and blocks that were out of sync before and are not touched. */
  ghost predicate Pending(u0: set<nat>, u: set<nat>, bufs: set<nat>, touched: set<nat>) {
    && (forall b :: b in bufs ==> b in touched)
    && (forall b :: b in u ==> b in bufs || (b in u0 && b !in touched))
  }

  lemma PendingStart(u0: set<nat>)
    ensures Pending(u0, u0, Bufs([]), {})
  {
  }

  /** Storing through buffers cb, then making room and collecting them into bufs'. */
  lemma PendingStep(u0: set<nat>, u: set<nat>, bufs: set<nat>, touched: set<nat>,
                    u1: set<nat>, cb: set<nat>, u2: set<nat>, bufs': set<nat>)
    requires Pending(u0, u, bufs, touched)
    requires u1 <= u + cb
    requires Collected(u1, bufs, cb, u2, bufs')
    ensures Pending(u0, u2, bufs', touched + cb)
  {
  }

  ghost predicate Collected(u1: set<nat>, bufs: set<nat>, cb: set<nat>, u2: set<nat>, bufs': set<nat>) {
    && u2 <= u1
    && (forall b :: b in bufs' ==> b in bufs || b in cb)
    && (forall b :: b in cb ==> b in bufs')
    && (forall b :: b in u2 && b in bufs ==> b in bufs')
  }

  lemma UnsyncedBound(u0: set<nat>, u: set<nat>, bufs: set<nat>, touched: set<nat>, u1: set<nat>, cb: set<nat>,
      u2: set<nat>)
    requires Pending(u0, u, bufs, touched) && u1 <= u + cb && u2 <= u1
    ensures u2 <= u0 + (touched + cb)
  {
  }

  /** Stopping here, or flushing what waits. */
  lemma PendingEnd(u0: set<nat>, u: set<nat>, bufs: set<nat>, touched: set<nat>)
    requires Pending(u0, u, bufs, touched)
    ensures u <= u0 + touched
    ensures forall u' :: u' <= u - bufs ==> u' <= u0 - touched
  {
    forall u' | u' <= u - bufs
      ensures u' <= u0 - touched
    {
      forall b | b in u'
        ensures b in u0 - touched
      {
        assert b in u - bufs;
      }
    }
  }

  /** The volume as an allocation found it. */
  datatype AllocStart = AllocStart(
    fat: seq<int>, prev: int, unsynced: set<nat>, count: int, valid: bool, writeFaults: nat)

  /** Nothing has been written out since the start: every touched buffer still waits in bufs. */
  ghost predicate Waiting(u0: set<nat>, u: set<nat>, bufs: set<nat>, touched: set<nat>) {
    && bufs == touched
    && (forall b :: b in u ==> b in bufs || b in u0)
  }

  lemma WaitingTake(u0: set<nat>, u: set<nat>, bufs: set<nat>, touched: set<nat>,
                    u1: set<nat>, cb: set<nat>, pb: set<nat>, bufs': set<nat>)
    requires Waiting(u0, u, bufs, touched)
    requires u1 <= u + cb + pb && pb <= touched && bufs' == bufs + cb
    ensures Waiting(u0, u1, bufs', touched + cb)
  {
  }

  /** TakeNext, with the previously taken entry named by the cursor that holds it. */
  lemma TakeThrough(fat0: seq<int>, prev: int, j: nat, cs: seq<int>, fat: seq<int>, c: FatEntry, prevEnt: FatEntry)
    requires Taken(fat0, prev, j, cs, fat)
    requires j < |fat0| - FAT_START_ENT && c.entry == VisitPos(prev, |fat0|, j)
    requires InRange(fat, c.entry) && fat[c.entry] == FAT_ENT_FREE
    requires if |cs| == 0 then |prevEnt.bhs| == 0 else |prevEnt.bhs| > 0 && prevEnt.entry == cs[|cs| - 1]
    ensures |prevEnt.bhs| > 0 ==>
              InRange(fat, prevEnt.entry) && prevEnt.entry != c.entry && fat[prevEnt.entry] != FAT_ENT_FREE
    ensures var f := fat[c.entry := FAT_ENT_EOF];
            Taken(fat0, prev, j + 1, cs + [c.entry], if |prevEnt.bhs| == 0 then f else f[prevEnt.entry := c.entry])
  {
    TakeNext(fat0, prev, j, cs, fat);
    TakenFacts(fat0, prev, j, cs, fat);
  }

  lemma {:induction false} CountUpFromZero(k: nat)
    requires k < COUNT_UNKNOWN
    ensures CountUpBy(0, k) == k
  {
    if k > 0 {
      CountUpFromZero(k - 1);
    }
  }

  lemma CountNone(fat: seq<int>)
    requires |fat| >= FAT_START_ENT
    ensures FreeBelow(fat, FAT_START_ENT) == 0
  {
  }

  lemma CountDownStep(n: int, k: nat)
    ensures CountDownBy(n, k + 1) == CountDown(CountDownBy(n, k))
  {
  }

  lemma PrevTouched(g: Geometry, cs: seq<int>, prevEnt: FatEntry)
    requires |cs| == 0 ==> |prevEnt.bhs| == 0
    requires |cs| > 0 ==> cs[|cs| - 1] >= 0 && g.blockSize > 0 && prevEnt == Locate(g, cs[|cs| - 1])
    ensures Bufs(prevEnt.bhs) <= Touched(g, cs)
  {
  }

  /** The volume as a chain release found it. */
  datatype FreeStart = FreeStart(
    fat: seq<int>, unsynced: set<nat>, discarded: set<int>, count: int, readFaults: nat, writeFaults: nat)

  class Volume {
    const g: Geometry
    /** The file system is mounted with synchronous writes. */
    const synchronous: bool
    var blocks: seq<Block>
    var prevFree: int
    var freeClusters: int
    var freeClusValid: bool
    /** Clusters handed to the device's discard request so far. */
    var discarded: set<int>
    var readFaults: nat
    var writeFaults: nat

    ghost predicate TableOk()
      reads `blocks
    {
      g.Ok() && DiskOk(g, blocks)
    }

    ghost predicate HintsOk()
      reads `prevFree, `freeClusters
    {
      g.InRange(prevFree) && 0 <= freeClusters < UINT_RANGE
    }

    ghost function Fat(): (fat: seq<int>)
      requires TableOk()
      reads `blocks
      ensures |fat| == g.maxCluster < FAT_ENT_EOF
    {
      FatOf(g, blocks)
    }

    ghost predicate CountRight()
      requires TableOk()
      reads this
    {
      CountOk(freeClusters, freeClusValid, Fat())
    }

    constructor (geometry: Geometry, sync: bool, image: seq<Block>, next: int, free: int, valid: bool)
      requires geometry.Ok() && DiskOk(geometry, image)
      requires geometry.InRange(next) && 0 <= free < UINT_RANGE
      ensures g == geometry && synchronous == sync && blocks == image
      ensures prevFree == next && freeClusters == free && freeClusValid == valid
      ensures TableOk() && HintsOk() && readFaults == 0 && writeFaults == 0 && discarded == {}
    {
      g, synchronous, blocks := geometry, sync, image;
      prevFree, freeClusters, freeClusValid := next, free, valid;
      readFaults, writeFaults, discarded := 0, 0, {};
    }

    // ----- device -----

    /** sb_bread: succeeds or not, as the device pleases. */
    method Bread(b: nat) returns (ok: bool)
      modifies `readFaults
      ensures readFaults == old(readFaults) + if ok then 0 else 1
    {
      ok := *;
      if !ok {
        readFaults := readFaults + 1;
      }
    }

    /** fat_sync_bhs */
    method SyncBhs(bhs: seq<nat>) returns (st: Status)
      modifies `writeFaults
      ensures st == Ok || st == Err(EIO)
      ensures writeFaults == old(writeFaults) + if st.Ok? then 0 else 1
    {
      st := Ok;
      if * {
        st := Err(EIO);
        writeFaults := writeFaults + 1;
      }
    }

    /** One turn of fat_mirror_bhs's outer loop: bring one backup copy up to date. */
    method MirrorTo(bhs: seq<nat>, copy: nat) returns (st: Status)
      requires TableOk() && 1 <= copy < g.fats
      requires AllPrimary(g, bhs)
      modifies `blocks, `writeFaults
      ensures st != Err(ENOSPC)
      ensures TableOk() && Refreshed(g, old(blocks), blocks)
      ensures writeFaults == old(writeFaults) + if st.Ok? then 0 else 1
      ensures OtherCopiesKept(g, old(blocks), blocks, copy)
      ensures st.Ok? ==> Mirrored(g, blocks, bhs, copy)
    {
      for n := 0 to |bhs|
        invariant TableOk() && Refreshed(g, old(blocks), blocks)
        invariant writeFaults == old(writeFaults)
        invariant OtherCopiesKept(g, old(blocks), blocks, copy)
        invariant Mirrored(g, blocks, bhs[..n], copy)
      {
        CopyBlockRefreshes(g, blocks, bhs[n], copy);
        RefreshedTransitive(g, old(blocks), blocks, CopyBlock(g, blocks, bhs[n], copy));
        if * {                            // sb_getblk found no buffer
          writeFaults := writeFaults + 1;
          return Err(ENOMEM);
        }
        CopyBlockMirrors(g, old(blocks), blocks, bhs[..n], bhs[n], copy);
        assert bhs[..n + 1] == bhs[..n] + [bhs[n]];
        blocks := CopyBlock(g, blocks, bhs[n], copy);
        if synchronous {
          st := SyncBhs([Backup(g, bhs[n], copy)]);
          if st.Err? {
            return;
          }
        }
      }
      assert bhs[..|bhs|] == bhs;
      return Ok;
    }

    /** fat_mirror_bhs: copy the collected buffers over every backup copy; stops at the first failure. */
    method MirrorBhs(bhs: seq<nat>) returns (st: Status)
      requires TableOk()
      requires AllPrimary(g, bhs)
      modifies `blocks, `writeFaults
      ensures st != Err(ENOSPC)
      ensures TableOk() && Refreshed(g, old(blocks), blocks) && Fat() == old(Fat())
      ensures writeFaults == old(writeFaults) + if st.Ok? then 0 else 1
      ensures Unsynced(g, blocks) <= Unsynced(g, old(blocks))
      ensures st.Ok? ==> Unsynced(g, blocks) <= Unsynced(g, old(blocks)) - Bufs(bhs)
      ensures st.Ok? && Unsynced(g, old(blocks)) <= Bufs(bhs) ==> CopiesAgree(g, blocks)
    {
      hide CopiesAgree;
      st := Ok;
      for copy := 1 to g.fats
        invariant TableOk() && Refreshed(g, old(blocks), blocks)
        invariant writeFaults == old(writeFaults)
        invariant st == Ok
        invariant forall c: nat :: 1 <= c < copy ==> Mirrored(g, blocks, bhs, c)
      {
        ghost var before := blocks;
        st := MirrorTo(bhs, copy);
        RefreshedTransitive(g, old(blocks), before, blocks);
        forall c: nat | 1 <= c < copy
          ensures Mirrored(g, blocks, bhs, c)
        {
          MirroredKept(g, before, blocks, bhs, c, copy);
        }
        if st.Err? {
          break;
        }
      }
      FatFromPrimary(g, old(blocks), blocks);
      RefreshedUnsynced(g, old(blocks), blocks);
      if st.Ok? {
        MirroredInSync(g, blocks, bhs);
        if Unsynced(g, old(blocks)) <= Bufs(bhs) {
          SyncedCopiesAgree(g, blocks);
        }
      }
    }

    // ----- single entries -----

    /** fat_ent_read_block: place a fresh cursor on entry e, reading the one or two blocks it needs. */
    method ReadBlock(e: int) returns (c: FatEntry, st: Status)
      requires TableOk() && 0 <= e < g.maxCluster
      modifies `readFaults
      ensures st == Ok || st == Err(EIO)
      ensures readFaults == old(readFaults) + if st.Ok? then 0 else 1
      ensures st.Ok? ==> c == Locate(g, e)
    {
      c, st := FatEntry(e, [], []), Ok;
      var placed := Locate(g, e);
      for n := 0 to |placed.bhs|
        invariant readFaults == old(readFaults)
      {
        var ok := Bread(placed.bhs[n]);
        if !ok {
          return c, Err(EIO);
        }
      }
      c := placed;
    }

    /** A cursor as fatent_init, a read or an advance leaves it. */
    predicate Held(c: FatEntry) {
      !g.bits.Fat12? ==> |c.bhs| <= 1
    }

    /** fat_ent_update_ptr: reuse the buffers a cursor already holds. */
    function UpdatePtr(c: FatEntry, e: nat): (r: (FatEntry, bool))
      requires g.blockSize > 0
      requires Held(c)
      ensures r.1 ==> r.0 == Locate(g, e)
    {
      var p := Address(g, g.EntryOffset(e));
      if |c.bhs| == 0 || c.bhs[0] != p.blk then
        (FatEntry(e, [], []), false)
      else if g.bits.Fat12? then
        if p.off + 1 < g.blockSize then
          (FatEntry(e, [c.bhs[0]], [p, Ptr(p.blk, p.off + 1)]), true)
        else if |c.bhs| != 2 || c.bhs[1] != p.blk + 1 then
          (FatEntry(e, [], []), false)
        else
          (FatEntry(e, c.bhs, [p, Ptr(c.bhs[1], 0)]), true)
      else
        (FatEntry(e, c.bhs, [p]), true)
    }

    /** fat_ent_read: the value of entry e, or a failure; the cursor ends on e when it succeeds. */
    method EntReadAt(c: FatEntry, e: int) returns (c': FatEntry, r: EntRead)
      requires TableOk()
      requires Held(c)
      modifies `readFaults
      ensures r.Value? ==> InRange(Fat(), e) && c' == Locate(g, e) && c'.entry == e && r.v == Fat()[e]
      ensures r.Failed? ==> r.errno == EIO
      ensures readFaults == old(readFaults) + if r.Failed? && InRange(Fat(), e) then 1 else 0
      ensures Held(c')
    {
      if e < FAT_START_ENT || g.maxCluster <= e {
        return NO_ENTRY, Failed(EIO);
      }
      var (held, kept) := UpdatePtr(c, e);
      c' := held;
      if !kept {
        var st;
        c', st := ReadBlock(e);
        if st.Err? {
          return NO_ENTRY, Failed(EIO);
        }
      }
      EntGetRefines(g, blocks, e);
      r := Value(EntGet(g, blocks, c'));
    }

    /** ent_put through a placed cursor. */
    method Put(c: FatEntry, new_: int)
      requires TableOk() && InRange(Fat(), c.entry) && c == Locate(g, c.entry)
      requires Storable(g, new_)
      modifies `blocks
      ensures TableOk()
      ensures Fat() == old(Fat())[c.entry := new_]
      ensures AllPrimary(g, c.bhs)
      ensures Unsynced(g, blocks) <= Unsynced(g, old(blocks)) + Bufs(c.bhs)
    {
      var e := c.entry;
      var v := Encode(g.bits, new_);
      EntPutRefines(g, blocks, e, v);
      EntPutFrame(g, blocks, e, v);
      LocateBytes(g, blocks, e);
      PutUnsynced(g, blocks, EntPut(g, blocks, c, v), c.bhs);
      DecodeEncode(g.bits, new_);
      blocks := EntPut(g, blocks, c, v);
    }

    /** fat_ent_write: store, optionally sync, mirror. The store stays even when a later step fails. */
    method EntWrite(c: FatEntry, new_: int, wait: bool) returns (st: Status)
      requires TableOk() && InRange(Fat(), c.entry) && c == Locate(g, c.entry)
      requires Storable(g, new_)
      modifies `blocks, `writeFaults
      ensures TableOk()
      ensures Fat() == old(Fat())[c.entry := new_]
      ensures writeFaults == old(writeFaults) + if st.Ok? then 0 else 1
      ensures Unsynced(g, blocks) <= Unsynced(g, old(blocks)) + Bufs(c.bhs)
      ensures st.Ok? ==> Unsynced(g, blocks) <= Unsynced(g, old(blocks)) - Bufs(c.bhs)
      ensures st.Ok? ==> ReadAlike(g, blocks, [c.entry])
      ensures st.Ok? && Unsynced(g, old(blocks)) == {} ==> CopiesAgree(g, blocks)
    {
      hide ReadAlike, CopiesAgree, Unsynced, DiskOk, FatOf;
      ghost var before := Unsynced(g, blocks);
      OneTouched(g, c.entry);
      Put(c, new_);
      if wait {
        st := SyncBhs(c.bhs);
        if st.Err? {
          return;
        }
      }
      st := MirrorBhs(c.bhs);
      if st.Ok? {
        CopiesAfter(g, blocks, before, [c.entry]);
      }
    }

    // ----- fat_free_clusters -----

    /** Full buffer list: sync if mounted so, mirror, and start over. */
    method FlushBhs(bhs: seq<nat>) returns (st: Status)
      requires TableOk()
      requires AllPrimary(g, bhs)
      modifies `blocks, `writeFaults
      ensures st != Err(ENOSPC)
      ensures TableOk() && Fat() == old(Fat())
      ensures writeFaults == old(writeFaults) + if st.Ok? then 0 else 1
      ensures Unsynced(g, blocks) <= Unsynced(g, old(blocks))
      ensures st.Ok? ==> Unsynced(g, blocks) <= Unsynced(g, old(blocks)) - Bufs(bhs)
    {
      if synchronous {
        st := SyncBhs(bhs);
        if st.Err? {
          return;
        }
      }
      st := MirrorBhs(bhs);
    }

    /** fat_collect_bhs: append the cursor's buffers that are not collected yet. */
    method CollectBhs(bhs: seq<nat>, c: FatEntry) returns (bhs': seq<nat>)
      requires |bhs| + |c.bhs| <= MAX_BUF_PER_PAGE
      ensures Bufs(bhs') == Bufs(bhs) + Bufs(c.bhs)
      ensures bhs <= bhs' && |bhs'| <= |bhs| + |c.bhs|
      ensures forall i, j :: 0 <= i < j < |bhs'| && |bhs| <= j ==> bhs'[i] != bhs'[j]
      ensures AllPrimary(g, bhs) && AllPrimary(g, c.bhs) ==> AllPrimary(g, bhs')
    {
      bhs' := bhs;
      for n := 0 to |c.bhs|
        invariant Bufs(bhs') == Bufs(bhs) + Bufs(c.bhs[..n])
        invariant bhs <= bhs' && |bhs'| <= |bhs| + n
        invariant forall i, j :: 0 <= i < j < |bhs'| && |bhs| <= j ==> bhs'[i] != bhs'[j]
      {
        var i := 0;
        while i < |bhs'| && c.bhs[n] != bhs'[i]
          invariant 0 <= i <= |bhs'| && c.bhs[n] !in bhs'[..i]
        {
          i := i + 1;
        }
        assert c.bhs[..n + 1] == c.bhs[..n] + [c.bhs[n]];
        if i == |bhs'| {
          assert c.bhs[n] !in bhs';
          bhs' := bhs' + [c.bhs[n]];
        }
      }
      assert c.bhs[..|c.bhs|] == c.bhs;
      assert forall b :: b in bhs' ==> b in Bufs(bhs');
    }

    /** Collect the cursor's buffers, flushing the collected ones first when there might be no room. */
    method MakeRoomAndCollect(bhs: seq<nat>, c: FatEntry) returns (bhs': seq<nat>, st: Status)
      requires TableOk()
      requires |c.bhs| <= 2 && |bhs| <= MAX_BUF_PER_PAGE
      requires AllPrimary(g, bhs)
      requires AllPrimary(g, c.bhs)
      modifies `blocks, `writeFaults
      ensures TableOk() && Fat() == old(Fat())
      ensures writeFaults == old(writeFaults) + if st.Ok? then 0 else 1
      ensures |bhs'| <= MAX_BUF_PER_PAGE && AllPrimary(g, bhs')
      ensures Unsynced(g, blocks) <= Unsynced(g, old(blocks))
      ensures st.Ok? ==> Collected(Unsynced(g, old(blocks)), Bufs(bhs), Bufs(c.bhs), Unsynced(g, blocks), Bufs(bhs'))
    {
      bhs', st := bhs, Ok;
      if |bhs| + |c.bhs| > MAX_BUF_PER_PAGE {
        st := FlushBhs(bhs);
        if st.Err? {
          return;
        }
        bhs' := [];
      }
      ghost var room := bhs';
      bhs' := CollectBhs(bhs', c);
      assert forall b :: b in bhs' ==> b in Bufs(bhs');
      forall b | b in Unsynced(g, blocks) && b in Bufs(bhs)
        ensures b in Bufs(bhs')
      {
        assert b in Bufs(room) + Bufs(c.bhs);
      }
    }

    /** Put the free mark through the cursor and count it. */
    method MarkFree(c: FatEntry)
      requires TableOk() && HintsOk()
      requires InRange(Fat(), c.entry) && c == Locate(g, c.entry) && Fat()[c.entry] != FAT_ENT_FREE
      modifies `blocks, `freeClusters
      ensures TableOk() && HintsOk()
      ensures Fat() == old(Fat())[c.entry := FAT_ENT_FREE]
      ensures FreeCount(Fat()) == FreeCount(old(Fat())) + 1 <= |Fat()|
      ensures freeClusters == CountUp(old(freeClusters))
      ensures CountOk(old(freeClusters), freeClusValid, old(Fat())) ==> CountOk(freeClusters, freeClusValid, Fat())
      ensures |c.bhs| <= 2 && AllPrimary(g, c.bhs)
      ensures EntryBlocks(g, c.entry) == Bufs(c.bhs)
      ensures Unsynced(g, blocks) <= Unsynced(g, old(blocks)) + Bufs(c.bhs)
    {
      FreeCountUpdate(Fat(), c.entry, FAT_ENT_FREE);
      Put(c, FAT_ENT_FREE);
      if CountOk(freeClusters, freeClusValid, old(Fat())) {
        CountTracks(freeClusters, freeClusValid, old(Fat()), Fat());
      }
      freeClusters := CountUp(freeClusters);
    }

    /** What holds before each round of the release loop. */
    ghost predicate Freeing(s0: FreeStart, start: int, freed: seq<int>, bhs: seq<nat>, firstCl: int, cluster: int)
      reads this
    {
      && TableOk() && HintsOk()
      && Releasing(s0.fat, start, freed, Fat(), cluster)
      && freeClusters == CountUpBy(s0.count, |freed|)
      && (CountOk(s0.count, freeClusValid, s0.fat) ==> CountOk(freeClusters, freeClusValid, Fat()))
      && readFaults == s0.readFaults && writeFaults == s0.writeFaults
      && |bhs| <= MAX_BUF_PER_PAGE && AllPrimary(g, bhs)
      && Pending(s0.unsynced, Unsynced(g, blocks), Bufs(bhs), Touched(g, freed))
      && Discarding(s0.discarded, discarded, Elements(freed), firstCl, cluster)
    }

    /** What a release leaves behind however it ends. */
    ghost predicate Freed(s0: FreeStart, start: int, st: Status, freed: seq<int>)
      reads this
    {
      && TableOk() && HintsOk()
      && IsPath(s0.fat, start, freed) && Distinct(freed)
      && Fat() == FreeAll(s0.fat, freed)
      && freeClusters == CountUpBy(s0.count, |freed|)
      && (CountOk(s0.count, freeClusValid, s0.fat) ==> CountOk(freeClusters, freeClusValid, Fat()))
      && s0.readFaults <= readFaults && s0.writeFaults <= writeFaults
      && readFaults + writeFaults <= s0.readFaults + s0.writeFaults + 1
      && s0.discarded <= discarded <= s0.discarded + Elements(freed)
      && Unsynced(g, blocks) <= s0.unsynced + Touched(g, freed)
      && (st.Ok? ==>
            && |freed| > 0 && IsChain(s0.fat, freed)
            && readFaults == s0.readFaults && writeFaults == s0.writeFaults
            && discarded == s0.discarded + Elements(freed)
            && Unsynced(g, blocks) <= s0.unsynced - Touched(g, freed))
      && (st.Err? && readFaults + writeFaults == s0.readFaults + s0.writeFaults ==>
            st == Err(EIO) && BadEnd(s0.fat, start, freed))
      && (freed == [] ==> writeFaults == s0.writeFaults)
      && (IsChain(s0.fat, freed) ==> readFaults == s0.readFaults)
    }

    /** The next link does not lead to the next cluster: discard the run of successive clusters that ends here. */
    method DiscardUpTo(ghost s0: FreeStart, ghost freed: seq<int>, firstCl: int, cluster: int, next: int)
      returns (firstCl': int)
      requires Discarding(s0.discarded, discarded, Elements(freed), firstCl, cluster)
      modifies `discarded
      ensures Discarding(s0.discarded, discarded, Elements(freed + [cluster]), firstCl', next)
      ensures next != cluster + 1 ==> firstCl' == next
      ensures s0.discarded <= discarded <= s0.discarded + Elements(freed + [cluster])
    {
      hide Discarding, Run, Elements;
      DiscardStep(s0.discarded, discarded, freed, firstCl, cluster, next);
      firstCl' := firstCl;
      if next != cluster + 1 {
        discarded := discarded + Run(firstCl, cluster);
        firstCl' := next;
      }
      DiscardEnd(s0.discarded, discarded, Elements(freed + [cluster]), firstCl', next);
    }

    /** Release the entry under the cursor: discard a finished run, mark it free, collect its buffers. */
    method ReleaseOne(ghost s0: FreeStart, ghost start: int, ghost freed: seq<int>, c: FatEntry, next: int,
                      bhs: seq<nat>, firstCl: int)
      returns (st: Status, bhs': seq<nat>, firstCl': int)
      requires Freeing(s0, start, freed, bhs, firstCl, c.entry)
      requires InRange(Fat(), c.entry) && c == Locate(g, c.entry) && Fat()[c.entry] == next != FAT_ENT_FREE
      modifies `blocks, `freeClusters, `writeFaults, `discarded
      ensures st.Ok? ==> Freeing(s0, start, freed + [c.entry], bhs', firstCl', next)
      ensures st.Ok? && next == FAT_ENT_EOF ==> firstCl' == next
      ensures st.Ok? ==> FreeCount(old(Fat())) < FreeCount(Fat()) <= |Fat()| == |old(Fat())|
      ensures st.Err? ==> Freed(s0, start, st, freed + [c.entry])
    {
      hide Unsynced, Touched, EntryBlocks, Releasing, Discarding, Pending, Collected, CountOk, CountUpBy, CountUp,
           Locate, DiskOk, FatOf, FreeCount, FreeAll, IsPath, Distinct, BadEnd, IsChain, TableOk, HintsOk, Bufs,
           AllPrimary, Run, Elements;
      var cluster := c.entry;
      ReleaseStep(s0.fat, start, freed, Fat(), cluster, s0.count);
      firstCl' := DiscardUpTo(s0, freed, firstCl, cluster, next);
      TouchedStep(g, freed, cluster);
      ghost var u, bufs, touched := Unsynced(g, blocks), Bufs(bhs), Touched(g, freed);
      MarkFree(c);
      ghost var u1 := Unsynced(g, blocks);
      ReleaseEnd(s0.fat, start, freed + [cluster], Fat(), next);
      bhs', st := MakeRoomAndCollect(bhs, c);
      if st.Err? {
        UnsyncedBound(s0.unsynced, u, bufs, touched, u1, Bufs(c.bhs), Unsynced(g, blocks));
      } else {
        PendingStep(s0.unsynced, u, bufs, touched, u1, Bufs(c.bhs), Unsynced(g, blocks), Bufs(bhs'));
      }
    }

    /** The loop stops before touching the next entry. */
    lemma StopFreeing(s0: FreeStart, start: int, freed: seq<int>, bhs: seq<nat>, firstCl: int, cluster: int)
      requires TableOk() && HintsOk()
      requires Releasing(s0.fat, start, freed, Fat(), cluster)
      requires freeClusters == CountUpBy(s0.count, |freed|)
      requires CountOk(s0.count, freeClusValid, s0.fat) ==> CountOk(freeClusters, freeClusValid, Fat())
      requires s0.readFaults <= readFaults <= s0.readFaults + 1 && writeFaults == s0.writeFaults
      requires Pending(s0.unsynced, Unsynced(g, blocks), Bufs(bhs), Touched(g, freed))
      requires Discarding(s0.discarded, discarded, Elements(freed), firstCl, cluster)
      requires |freed| > 0 ==> cluster != FAT_ENT_EOF
      requires readFaults == s0.readFaults ==> InRange(Fat(), cluster) ==> Fat()[cluster] == FAT_ENT_FREE
      ensures Freed(s0, start, Err(EIO), freed)
    {
      hide Unsynced, Touched, Releasing, Discarding, Pending, CountOk, CountUpBy, DiskOk, FatOf, FreeAll, IsPath,
           Distinct, BadEnd, IsChain;
      ReleaseEnd(s0.fat, start, freed, Fat(), cluster);
      DiscardEnd(s0.discarded, discarded, Elements(freed), firstCl, cluster);
      PendingEnd(s0.unsynced, Unsynced(g, blocks), Bufs(bhs), Touched(g, freed));
    }

    /** The whole chain is released: write out what is collected. */
    method FinishFreeing(ghost s0: FreeStart, ghost start: int, ghost freed: seq<int>, bhs: seq<nat>,
        ghost firstCl: int)
      returns (st: Status)
      requires Freeing(s0, start, freed, bhs, firstCl, FAT_ENT_EOF) && |freed| > 0 && firstCl == FAT_ENT_EOF
      modifies `blocks, `writeFaults
      ensures Freed(s0, start, st, freed)
    {
      hide Unsynced, Touched, Releasing, Discarding, Pending, CountOk, CountUpBy, DiskOk, FatOf, FreeAll, IsPath,
           Distinct, BadEnd, IsChain;
      ReleaseEnd(s0.fat, start, freed, Fat(), FAT_ENT_EOF);
      DiscardEnd(s0.discarded, discarded, Elements(freed), firstCl, FAT_ENT_EOF);
      PendingEnd(s0.unsynced, Unsynced(g, blocks), Bufs(bhs), Touched(g, freed));
      st := FlushBhs(bhs);
    }

    /** The release loop. */
    method ReleaseChain(ghost s0: FreeStart, start: int) returns (st: Status, ghost freed: seq<int>)
      requires Freeing(s0, start, [], [], start, start)
      modifies `blocks, `freeClusters, `readFaults, `writeFaults, `discarded
      ensures Freed(s0, start, st, freed)
    {
      st, freed := Ok, [];
      var bhs: seq<nat>, c, cluster, firstCl := [], NO_ENTRY, start, start;
      hide Unsynced, Touched, Releasing, Discarding, Pending, CountOk, CountUpBy, DiskOk, FatOf, FreeAll, IsPath,
           Distinct, BadEnd, IsChain, Locate, Freed, FreeCount;
      while true
        invariant Freeing(s0, start, freed, bhs, firstCl, cluster) && Held(c)
        invariant |freed| > 0 ==> cluster != FAT_ENT_EOF
        decreases |Fat()| - FreeCount(Fat())
      {
        var r;
        c, r := EntReadAt(c, cluster);
        if r.Failed? || r.v == FAT_ENT_FREE {
          StopFreeing(s0, start, freed, bhs, firstCl, cluster);
          return Err(EIO), freed;
        }
        st, bhs, firstCl := ReleaseOne(s0, start, freed, c, r.v, bhs, firstCl);
        freed := freed + [cluster];
        if st.Err? {
          return;
        }
        cluster := r.v;
        if cluster == FAT_ENT_EOF {
          break;
        }
      }
      st := FinishFreeing(s0, start, freed, bhs, firstCl);
    }

    /** fat_free_clusters: release the chain starting at start, whatever the table looks like.
        freed lists the entries released, in order. */
    method FreeClusters(start: int) returns (st: Status, ghost freed: seq<int>)
      requires TableOk() && HintsOk()
      modifies `blocks, `freeClusters, `readFaults, `writeFaults, `discarded
      ensures TableOk() && HintsOk()
      ensures IsPath(old(Fat()), start, freed) && Distinct(freed)
      ensures Fat() == FreeAll(old(Fat()), freed)
      ensures freeClusters == CountUpBy(old(freeClusters), |freed|)
      ensures old(CountRight()) ==> CountRight()
      ensures old(readFaults) <= readFaults && old(writeFaults) <= writeFaults
      ensures readFaults + writeFaults <= old(readFaults + writeFaults) + 1
      ensures old(discarded) <= discarded <= old(discarded) + Elements(freed)
      ensures st.Ok? ==> |freed| > 0 && IsChain(old(Fat()), freed)
      ensures st.Ok? ==> readFaults == old(readFaults) && writeFaults == old(writeFaults)
      ensures st.Ok? ==> discarded == old(discarded) + Elements(freed)
      ensures st.Err? && readFaults + writeFaults == old(readFaults + writeFaults) ==>
                st == Err(EIO) && BadEnd(old(Fat()), start, freed)
      ensures freed == [] ==> writeFaults == old(writeFaults)
      ensures IsChain(old(Fat()), freed) ==> readFaults == old(readFaults)
      ensures Unsynced(g, blocks) <= Unsynced(g, old(blocks)) + Touched(g, freed)
      ensures st.Ok? ==> Unsynced(g, blocks) <= Unsynced(g, old(blocks)) - Touched(g, freed)
      ensures st.Ok? ==> ReadAlike(g, blocks, freed)
      ensures st.Ok? && Unsynced(g, old(blocks)) == {} ==> CopiesAgree(g, blocks)
    {
      ghost var s0 := FreeStart(Fat(), Unsynced(g, blocks), discarded, freeClusters, readFaults, writeFaults);
      hide ReadAlike, CopiesAgree, Unsynced, Touched, Releasing, Discarding, Pending, CountOk, CountUpBy, DiskOk,
           FatOf, FreeAll, IsPath, Distinct, BadEnd, IsChain;
      ReleaseStart(g, Fat(), start, freeClusters, discarded);
      PendingStart(Unsynced(g, blocks));
      st, freed := ReleaseChain(s0, start);
      if st.Ok? {
        CopiesNow(s0.unsynced, freed);
      }
    }

    lemma CopiesNow(before: set<nat>, es: seq<int>)
      requires TableOk() && Unsynced(g, blocks) <= before - Touched(g, es)
      ensures ReadAlike(g, blocks, es) && (before == {} ==> CopiesAgree(g, blocks))
    {
      CopiesAfter(g, blocks, before, es);
    }

    // ----- fat_alloc_clusters -----

    /** What holds after the allocator has looked at j entries and taken cs. */
    ghost predicate Allocating(a0: AllocStart, j: nat, cs: seq<int>, bhs: seq<nat>)
      reads this
    {
      && TableOk() && HintsOk()
      && Taken(a0.fat, a0.prev, j, cs, Fat())
      && prevFree == (if |cs| == 0 then a0.prev else cs[|cs| - 1])
      && freeClusters == CountDownBy(a0.count, |cs|)
      && freeClusValid == a0.valid
      && (CountOk(a0.count, a0.valid, a0.fat) ==> CountOk(freeClusters, freeClusValid, Fat()))
      && writeFaults == a0.writeFaults
      && |bhs| <= 2 * |cs| && AllPrimary(g, bhs)
      && Waiting(a0.unsynced, Unsynced(g, blocks), Bufs(bhs), Touched(g, cs))
    }

    /** Put the end mark through the cursor, and link the previously taken entry to it. */
    method MarkTaken(c: FatEntry, prevEnt: FatEntry)
      requires TableOk() && HintsOk()
      requires InRange(Fat(), c.entry) && c == Locate(g, c.entry) && Fat()[c.entry] == FAT_ENT_FREE
      requires |prevEnt.bhs| > 0 ==>
                 InRange(Fat(), prevEnt.entry) && prevEnt == Locate(g, prevEnt.entry)
                 && prevEnt.entry != c.entry && Fat()[prevEnt.entry] != FAT_ENT_FREE
      modifies `blocks, `prevFree, `freeClusters
      ensures TableOk() && HintsOk()
      ensures var f := old(Fat())[c.entry := FAT_ENT_EOF];
              Fat() == if |prevEnt.bhs| == 0 then f else f[prevEnt.entry := c.entry]
      ensures prevFree == c.entry
      ensures freeClusters == CountDown(old(freeClusters))
      ensures CountOk(old(freeClusters), freeClusValid, old(Fat())) ==> CountOk(freeClusters, freeClusValid, Fat())
      ensures 1 <= |c.bhs| <= 2 && AllPrimary(g, c.bhs)
      ensures EntryBlocks(g, c.entry) == Bufs(c.bhs)
      ensures Unsynced(g, blocks) <= Unsynced(g, old(blocks)) + Bufs(c.bhs) + Bufs(prevEnt.bhs)
    {
      FreeCountUpdate(Fat(), c.entry, FAT_ENT_EOF);
      Put(c, FAT_ENT_EOF);
      if |prevEnt.bhs| > 0 {
        FreeCountUpdate(Fat(), prevEnt.entry, c.entry);
        Put(prevEnt, c.entry);
      }
      if CountOk(freeClusters, freeClusValid, old(Fat())) {
        CountTracks(freeClusters, freeClusValid, old(Fat()), Fat());
      }
      prevFree := c.entry;
      freeClusters := CountDown(freeClusters);
    }

    /** What is known just before an entry is taken. */
    lemma BeforeTaking(a0: AllocStart, j: nat, cs: seq<int>, bhs: seq<nat>, c: FatEntry, prevEnt: FatEntry)
      requires Allocating(a0, j, cs, bhs)
      requires j < |a0.fat| - FAT_START_ENT && c.entry == VisitPos(a0.prev, |a0.fat|, j)
      requires InRange(Fat(), c.entry) && c == Locate(g, c.entry) && Fat()[c.entry] == FAT_ENT_FREE
      requires PrevOf(cs, prevEnt)
      ensures g.blockSize > 0 && c.entry >= 0 && TableOk() && HintsOk()
      ensures freeClusters == CountDownBy(a0.count, |cs|) && freeClusValid == a0.valid && writeFaults == a0.writeFaults
      ensures CountOk(a0.count, a0.valid, a0.fat) ==> CountOk(freeClusters, freeClusValid, Fat())
      ensures |bhs| <= 2 * |cs| && AllPrimary(g, bhs)
      ensures Waiting(a0.unsynced, Unsynced(g, blocks), Bufs(bhs), Touched(g, cs))
      ensures Bufs(prevEnt.bhs) <= Touched(g, cs)
      ensures |prevEnt.bhs| > 0 ==> InRange(Fat(), prevEnt.entry) && prevEnt == Locate(g, prevEnt.entry)
      ensures |prevEnt.bhs| > 0 ==> prevEnt.entry != c.entry && Fat()[prevEnt.entry] != FAT_ENT_FREE
      ensures var f := Fat()[c.entry := FAT_ENT_EOF];
              Taken(a0.fat, a0.prev, j + 1, cs + [c.entry],
                    if |prevEnt.bhs| == 0 then f else f[prevEnt.entry := c.entry])
    {
      hide Unsynced, Touched, EntryBlocks, Taken, Waiting, Bufs, CountOk, CountDownBy, HintsOk, AllPrimary, Locate;
      TakeThrough(a0.fat, a0.prev, j, cs, Fat(), c, prevEnt);
      PrevTouched(g, cs, prevEnt);
    }

    /** Taking entry e, seen from outside the table: what the allocation state needs to go from j to j + 1. */
    lemma TakenState(a0: AllocStart, j: nat, cs: seq<int>, e: int, bhs: seq<nat>, bhs': seq<nat>, cb: seq<nat>)
      requires TableOk() && HintsOk()
      requires Taken(a0.fat, a0.prev, j + 1, cs + [e], Fat())
      requires prevFree == e && freeClusters == CountDown(CountDownBy(a0.count, |cs|)) && freeClusValid == a0.valid
      requires CountOk(a0.count, a0.valid, a0.fat) ==> CountOk(freeClusters, freeClusValid, Fat())
      requires writeFaults == a0.writeFaults
      requires |bhs| <= 2 * |cs| && |cb| <= 2 && |bhs'| <= |bhs| + |cb| && AllPrimary(g, bhs')
      requires Waiting(a0.unsynced, Unsynced(g, blocks), Bufs(bhs'), Touched(g, cs) + Bufs(cb))
      requires EntryBlocks(g, e) == Bufs(cb)
      ensures Allocating(a0, j + 1, cs + [e], bhs')
    {
      hide Unsynced, Touched, EntryBlocks, Taken, Waiting, Bufs, CountOk, CountDown, CountDownBy, TableOk, HintsOk,
           Fat, AllPrimary;
      TouchedStep(g, cs, e);
      CountDownStep(a0.count, |cs|);
    }

    /** The body of the innermost if: take the free entry under the cursor. */
    method TakeEntry(ghost a0: AllocStart, ghost j: nat, cs: seq<int>, bhs: seq<nat>, c: FatEntry, prevEnt: FatEntry)
      returns (bhs': seq<nat>)
      requires Allocating(a0, j, cs, bhs)
      requires j < |a0.fat| - FAT_START_ENT && c.entry == VisitPos(a0.prev, |a0.fat|, j)
      requires InRange(Fat(), c.entry) && c == Locate(g, c.entry) && Fat()[c.entry] == FAT_ENT_FREE
      requires PrevOf(cs, prevEnt) && |cs| < MAX_BUF_PER_PAGE / 2
      modifies `blocks, `prevFree, `freeClusters
      ensures Allocating(a0, j + 1, cs + [c.entry], bhs')
      ensures PrevOf(cs + [c.entry], c)
    {
      hide *;
      BeforeTaking(a0, j, cs, bhs, c, prevEnt);
      ghost var u, e := Unsynced(g, blocks), c.entry;
      MarkTaken(c, prevEnt);
      bhs' := CollectBhs(bhs, c);
      WaitingTake(a0.unsynced, u, Bufs(bhs), Touched(g, cs), Unsynced(g, blocks), Bufs(c.bhs), Bufs(prevEnt.bhs),
                  Bufs(bhs'));
      TakenState(a0, j, cs, e, bhs, bhs', c.bhs);
      PrevNow(cs, c);
    }

    lemma PrevNow(cs: seq<int>, c: FatEntry)
      requires g.blockSize > 0 && c.entry >= 0 && c == Locate(g, c.entry)
      ensures PrevOf(cs + [c.entry], c)
    {
    }

    /** prev_ent holds the entry taken last, if any. */
    ghost predicate PrevOf(cs: seq<int>, prevEnt: FatEntry) {
      if |cs| == 0 then |prevEnt.bhs| == 0
      else |prevEnt.bhs| > 0 && cs[|cs| - 1] >= 0 && g.blockSize > 0 && prevEnt == Locate(g, cs[|cs| - 1])
    }

    /** Where the scan stands: j entries looked at, entry is next (or one past the table's end). */
    ghost predicate AtVisit(a0: AllocStart, j: nat, entry: int)
      reads `blocks
    {
      && TableOk() && FAT_START_ENT <= a0.prev < |a0.fat| == g.maxCluster && j <= g.maxCluster - FAT_START_ENT
      && (j < g.maxCluster - FAT_START_ENT ==>
            VisitPos(a0.prev, |a0.fat|, j) == if entry >= g.maxCluster then FAT_START_ENT else entry)
    }

    lemma AllocatingTable(a0: AllocStart, j: nat, cs: seq<int>, bhs: seq<nat>)
      requires Allocating(a0, j, cs, bhs)
      ensures TableOk() && FAT_START_ENT <= a0.prev < |a0.fat| == g.maxCluster
    {
      TakenFacts(a0.fat, a0.prev, j, cs, Fat());
    }

    /** fat_ent_next: to the next entry, unless that needs another block or leaves the table. */
    method NextInBlock(c: FatEntry) returns (c': FatEntry, more: bool)
      requires TableOk() && InRange(Fat(), c.entry) && c == Locate(g, c.entry)
      ensures c'.entry == c.entry + 1
      ensures more ==> InRange(Fat(), c'.entry) && c' == Locate(g, c'.entry)
    {
      EntNextRefines(g, c.entry);
      var r := EntNext(g, c);
      c', more := r.0, r.1 && r.0.entry < g.maxCluster;
    }

    /** ops->ent_get */
    method GetEntry(c: FatEntry) returns (v: int)
      requires TableOk() && InRange(Fat(), c.entry) && c == Locate(g, c.entry)
      ensures v == Fat()[c.entry]
    {
      EntGetRefines(g, blocks, c.entry);
      v := EntGet(g, blocks, c);
    }

    /** The free entries in one block. */
    method ScanBlock(ghost a0: AllocStart, n: nat, c0: FatEntry, count0: int, cs0: seq<int>, bhs0: seq<nat>,
        prevEnt0: FatEntry)
      returns (count: int, entry: int, cs: seq<int>, bhs: seq<nat>, prevEnt: FatEntry, ghost visited: nat)
      requires FAT_START_ENT <= count0 < g.maxCluster
      requires Allocating(a0, count0 - FAT_START_ENT, cs0, bhs0) && |cs0| < n <= MAX_BUF_PER_PAGE / 2
      requires AtVisit(a0, count0 - FAT_START_ENT, c0.entry)
      requires InRange(Fat(), c0.entry) && c0 == Locate(g, c0.entry)
      requires PrevOf(cs0, prevEnt0)
      modifies `blocks, `prevFree, `freeClusters
      ensures Allocating(a0, visited, cs, bhs) && |cs| <= n && PrevOf(cs, prevEnt)
      ensures |cs| < n ==>
                visited == count - FAT_START_ENT && count0 < count <= g.maxCluster && AtVisit(a0, visited, entry)
    {
      hide Unsynced, Touched, EntryBlocks, Taken, Waiting, CountOk, DiskOk, FatOf, Locate, AllPrimary, EntNext,
           VisitPos, Allocating, HintsOk, PrevOf, AtVisit;
      var c := c0;
      count, entry, cs, bhs, prevEnt, visited := count0, c0.entry, cs0, bhs0, prevEnt0, count0 - FAT_START_ENT;
      AllocatingTable(a0, visited, cs, bhs);
      while true
        invariant Allocating(a0, visited, cs, bhs) && |cs| < n && PrevOf(cs, prevEnt)
        invariant visited == count - FAT_START_ENT && count0 <= count < g.maxCluster
        invariant AtVisit(a0, visited, c.entry)
        invariant TableOk() && InRange(Fat(), c.entry) && c == Locate(g, c.entry)
        decreases g.maxCluster - count
      {
        AllocatingTable(a0, visited, cs, bhs);
        AtVisitStep(a0, visited, c.entry);
        var v := GetEntry(c);
        if v == FAT_ENT_FREE {
          bhs := TakeEntry(a0, visited, cs, bhs, c, prevEnt);
          cs := cs + [c.entry];
          visited := visited + 1;
          prevEnt := c;
          AllocatingTable(a0, visited, cs, bhs);
          if |cs| == n {
            return;
          }
        } else {
          SkipEntry(a0, visited, cs, bhs, c.entry);
          visited := visited + 1;
        }
        count, entry := count + 1, c.entry + 1;
        AtVisitStep(a0, visited - 1, c.entry);
        if count == g.maxCluster {
          return;
        }
        var c', more := NextInBlock(c);
        if !more {
          return;
        }
        c := c';
      }
    }

    lemma AtVisitStep(a0: AllocStart, j: nat, entry: int)
      requires TableOk() && FAT_START_ENT <= a0.prev < |a0.fat| == g.maxCluster && j < g.maxCluster - FAT_START_ENT
      requires InRange(Fat(), entry)
      ensures AtVisit(a0, j, entry) ==> entry == VisitPos(a0.prev, |a0.fat|, j)
      ensures entry == VisitPos(a0.prev, |a0.fat|, j) ==> AtVisit(a0, j + 1, entry + 1)
    {
    }

    /** The scan: from prev_free + 1 upward, wrapping once, block by block, until n entries are taken or every
        entry has been looked at. visited counts the entries looked at. */
    method ScanForFree(ghost a0: AllocStart, n: nat)
      returns (st: Status, cs: seq<int>, bhs: seq<nat>, ghost visited: nat)
      requires Allocating(a0, 0, [], []) && prevFree == a0.prev && 1 <= n <= MAX_BUF_PER_PAGE / 2
      modifies `blocks, `prevFree, `freeClusters, `readFaults
      ensures Allocating(a0, visited, cs, bhs) && |cs| <= n
      ensures readFaults == old(readFaults) + if st == Err(EIO) then 1 else 0
      ensures st == Ok ==> |cs| == n
      ensures st == Err(ENOSPC) ==> |cs| < n && visited == g.maxCluster - FAT_START_ENT
      ensures st == Ok || st == Err(ENOSPC) || (st == Err(EIO) && |cs| < n)
    {
      hide Unsynced, Touched, EntryBlocks, Taken, Waiting, CountOk, DiskOk, FatOf, Locate, AllPrimary, EntNext;
      AllocatingTable(a0, 0, [], []);
      var count, entry, prevEnt := FAT_START_ENT, prevFree + 1, NO_ENTRY;
      cs, bhs, visited := [], [], 0;
      while count < g.maxCluster
        invariant Allocating(a0, visited, cs, bhs) && |cs| < n
        invariant visited == count - FAT_START_ENT && FAT_START_ENT <= count <= g.maxCluster
        invariant AtVisit(a0, visited, entry)
        invariant PrevOf(cs, prevEnt)
        invariant readFaults == old(readFaults)
      {
        if entry >= g.maxCluster {
          entry := FAT_START_ENT;
        }
        var c;
        c, st := ReadBlock(entry);
        if st.Err? {
          return;
        }
        count, entry, cs, bhs, prevEnt, visited := ScanBlock(a0, n, c, count, cs, bhs, prevEnt);
        if |cs| == n {
          return;
        }
      }
      st := Err(ENOSPC);
    }

    /** An entry in use is passed over; nothing changes but the count of entries looked at. */
    lemma SkipEntry(a0: AllocStart, j: nat, cs: seq<int>, bhs: seq<nat>, e: int)
      requires Allocating(a0, j, cs, bhs)
      requires j < |a0.fat| - FAT_START_ENT && e == VisitPos(a0.prev, |a0.fat|, j)
      requires InRange(Fat(), e) && Fat()[e] != FAT_ENT_FREE
      ensures Allocating(a0, j + 1, cs, bhs)
    {
      hide Unsynced, Touched, Waiting, CountOk, DiskOk, FatOf, Taken;
      PassOver(a0.fat, a0.prev, j, cs, Fat());
    }

    /** The volume after an allocation that succeeded with clusters cs. */
    ghost predicate Allocated(a0: AllocStart, cs: seq<int>)
      reads this
    {
      && TableOk() && HintsOk()
      && (exists j: nat :: Taken(a0.fat, a0.prev, j, cs, Fat()))
      && |cs| > 0 && prevFree == cs[|cs| - 1]
      && freeClusters == CountDownBy(a0.count, |cs|) && freeClusValid == a0.valid
      && (CountOk(a0.count, a0.valid, a0.fat) ==> CountOk(freeClusters, freeClusValid, Fat()))
      && writeFaults == a0.writeFaults
      && Unsynced(g, blocks) <= a0.unsynced - Touched(g, cs)
    }

    /** The volume while an allocation has failed and its entries are still linked. */
    ghost predicate Abandoned(a0: AllocStart, visited: nat, cs: seq<int>)
      reads this
    {
      && TableOk() && HintsOk()
      && Taken(a0.fat, a0.prev, visited, cs, Fat())
      && (CountOk(a0.count, a0.valid, a0.fat) ==> CountOk(freeClusters, freeClusValid, Fat()))
      && Unsynced(g, blocks) <= a0.unsynced + Touched(g, cs)
    }

    lemma StartAllocation(a0: AllocStart)
      requires TableOk() && HintsOk()
      requires a0 == AllocStart(Fat(), prevFree, Unsynced(g, blocks), freeClusters, freeClusValid, writeFaults)
      ensures Allocating(a0, 0, [], [])
      ensures 0 <= freeClusters
      ensures Scan(a0.fat, a0.prev, 0) == [] && Distinct([])
    {
    }

    lemma EarlyNoSpace(n: nat)
      requires TableOk() && HintsOk()
      requires freeClusters != COUNT_UNKNOWN && freeClusValid && freeClusters < n
      ensures CountOk(freeClusters, freeClusValid, Fat()) ==> FreeCount(Fat()) < n
    {
    }

    lemma ScannedFacts(a0: AllocStart, visited: nat, cs: seq<int>, bhs: seq<nat>)
      requires Allocating(a0, visited, cs, bhs)
      ensures |bhs| <= 2 * |cs|
      ensures visited <= |a0.fat| - FAT_START_ENT && FAT_START_ENT <= a0.prev < |a0.fat| == g.maxCluster == |Fat()|
      ensures cs == Scan(a0.fat, a0.prev, visited)
      ensures |cs| <= FreeCount(a0.fat)
      ensures forall i :: 0 <= i < |cs| ==> InRange(a0.fat, cs[i]) && a0.fat[cs[i]] == FAT_ENT_FREE
      ensures Distinct(cs)
    {
      TakenFacts(a0.fat, a0.prev, visited, cs, Fat());
      TakenCount(a0.fat, a0.prev, visited, cs, Fat());
    }

    lemma AllocatedFacts(a0: AllocStart, cs: seq<int>)
      requires Allocated(a0, cs)
      ensures Fat() == Link(a0.fat, cs) && IsChain(Fat(), cs)
    {
      var j: nat :| Taken(a0.fat, a0.prev, j, cs, Fat());
      TakenFacts(a0.fat, a0.prev, j, cs, Fat());
    }

    lemma AbandonAllocation(a0: AllocStart, visited: nat, cs: seq<int>, bhs: seq<nat>)
      requires Allocating(a0, visited, cs, bhs)
      ensures Abandoned(a0, visited, cs)
    {
    }

    /** Write the collected buffers out: sync if the inode asks for it, then mirror. */
    method CommitAllocation(ghost a0: AllocStart, ghost visited: nat, cs: seq<int>, bhs: seq<nat>, sync: bool)
      returns (st: Status)
      requires Allocating(a0, visited, cs, bhs) && |cs| > 0
      requires |bhs| <= MAX_BUF_PER_PAGE
      modifies `blocks, `writeFaults
      ensures st != Err(ENOSPC)
      ensures writeFaults == old(writeFaults) + if st.Ok? then 0 else 1
      ensures st.Ok? ==> Allocated(a0, cs)
      ensures st.Err? ==> Abandoned(a0, visited, cs)
    {
      hide Touched, Taken, CountOk, DiskOk, FatOf, CountDownBy, Unsynced;
      if sync {
        st := SyncBhs(bhs);
        if st.Err? {
          return;
        }
      }
      st := MirrorBhs(bhs);
    }

    /** No entry was left: the count becomes zero and is declared valid. */
    method NoSpace(ghost a0: AllocStart, ghost visited: nat, cs: seq<int>)
      requires Abandoned(a0, visited, cs) && visited == |a0.fat| - FAT_START_ENT
      modifies `freeClusters, `freeClusValid
      ensures Abandoned(a0, visited, cs) && freeClusValid && freeClusters == FreeCount(Fat()) == 0
      ensures |cs| == FreeCount(a0.fat)
    {
      TakenFacts(a0.fat, a0.prev, visited, cs, Fat());
      TakenCount(a0.fat, a0.prev, visited, cs, Fat());
      LinkCount(a0.fat, cs);
      freeClusters, freeClusValid := 0, true;
    }

    /** The error exit: give back what was taken by releasing the new chain. */
    method UndoAllocation(ghost a0: AllocStart, ghost visited: nat, cs: seq<int>) returns (ghost rolledBack: bool)
      requires Abandoned(a0, visited, cs)
      modifies `blocks, `freeClusters, `readFaults, `writeFaults, `discarded
      ensures TableOk() && HintsOk() && |Fat()| == |a0.fat|
      ensures old(readFaults) <= readFaults && old(writeFaults) <= writeFaults
      ensures readFaults + writeFaults == old(readFaults + writeFaults) ==> rolledBack
      ensures rolledBack ==> Fat() == a0.fat && Unsynced(g, blocks) <= a0.unsynced
      ensures InUseKept(a0.fat, Fat())
      ensures CountOk(old(freeClusters), freeClusValid, old(Fat())) ==> CountOk(freeClusters, freeClusValid, Fat())
      ensures old(discarded) <= discarded <= old(discarded) + Elements(cs)
      ensures old(freeClusters) == 0 == FreeCount(old(Fat())) && freeClusValid ==> freeClusters == FreeCount(Fat())
    {
      TakenFacts(a0.fat, a0.prev, visited, cs, Fat());
      assert |cs| == 0 ==> Link(a0.fat, cs) == a0.fat && Touched(g, cs) == {};
      hide Touched, DiskOk, FatOf, Unsynced, Taken, IsChain, IsPath, Distinct, FreeAll, Link, BadEnd, FreeCount;
      if |cs| == 0 {
        return true;
      }
      var st;
      ghost var freed;
      st, freed := FreeClusters(cs[0]);
      RollBackPath(a0.fat, cs, freed);
      RollBack(a0.fat, cs, freed);
      TakenCount(a0.fat, a0.prev, visited, cs, old(Fat()));
      if old(freeClusters) == 0 {
        CountUpFromZero(|freed|);
      }
      rolledBack := st.Ok?;
    }

    /** The out: label: write out a complete allocation, or give up and undo. */
    method FinishAllocation(ghost a0: AllocStart, ghost visited: nat, scan: Status, cs: seq<int>, bhs: seq<nat>,
        sync: bool)
      returns (st: Status, ghost rolledBack: bool)
      requires Allocating(a0, visited, cs, bhs) && |bhs| <= MAX_BUF_PER_PAGE
      requires scan.Ok? ==> |cs| > 0
      requires scan == Err(ENOSPC) ==> visited == |a0.fat| - FAT_START_ENT
      modifies `blocks, `freeClusters, `freeClusValid, `readFaults, `writeFaults, `discarded
      ensures TableOk() && HintsOk()
      ensures st.Ok? ==> scan.Ok? && Allocated(a0, cs) && discarded == old(discarded)
      ensures st.Ok? ==> readFaults == old(readFaults) && writeFaults == old(writeFaults)
      ensures st.Err? ==> if scan.Err? then st == scan else st != Err(ENOSPC)
      ensures st.Err? ==> old(readFaults) <= readFaults && old(writeFaults) + (if scan.Ok? then 1 else 0) <= writeFaults
      ensures st.Err? && readFaults + writeFaults == old(readFaults + writeFaults) + (if scan.Ok? then 1 else 0) ==>
                rolledBack
      ensures st.Err? && rolledBack ==> Fat() == a0.fat && Unsynced(g, blocks) <= a0.unsynced
      ensures st.Err? ==> InUseKept(a0.fat, Fat())
      ensures CountOk(a0.count, a0.valid, a0.fat) ==> CountOk(freeClusters, freeClusValid, Fat())
      ensures st.Err? ==> old(discarded) <= discarded <= old(discarded) + Elements(cs)
      ensures st == Err(ENOSPC) ==> freeClusValid && freeClusters == FreeCount(Fat()) && |cs| == FreeCount(a0.fat)
    {
      hide Touched, CountOk, DiskOk, FatOf, Unsynced, IsChain, Distinct, Link, Waiting, Bufs, AllPrimary, CountDownBy,
           FreeCount, Taken, Allocating, HintsOk;
      st := scan;
      AbandonAllocation(a0, visited, cs, bhs);
      if st.Ok? {
        st := CommitAllocation(a0, visited, cs, bhs, sync);
      } else if st == Err(ENOSPC) {
        NoSpace(a0, visited, cs);
      }
      rolledBack := false;
      if st.Err? {
        rolledBack := UndoAllocation(a0, visited, cs);
      }
    }

    /** fat_alloc_clusters: take n free entries, link them in order and write them out. cs lists the entries tried;
        rolledBack says whether a failed allocation managed to give all of them back. */
    method AllocClusters(n: nat, sync: bool) returns (st: Status, cs: seq<int>, ghost rolledBack: bool)
      requires TableOk() && HintsOk()
      requires 1 <= n <= MAX_BUF_PER_PAGE / 2
      modifies `blocks, `prevFree, `freeClusters, `freeClusValid, `readFaults, `writeFaults, `discarded
      ensures TableOk() && HintsOk()
      ensures exists j: nat :: j <= g.maxCluster - FAT_START_ENT && cs == Scan(old(Fat()), old(prevFree), j)
      ensures forall i :: 0 <= i < |cs| ==> InRange(old(Fat()), cs[i]) && old(Fat())[cs[i]] == FAT_ENT_FREE
      ensures Distinct(cs)
      ensures old(CountRight()) ==> CountRight()
      ensures old(readFaults) <= readFaults && old(writeFaults) <= writeFaults
      // success
      ensures st.Ok? ==> |cs| == n && Fat() == Link(old(Fat()), cs) && IsChain(Fat(), cs)
      ensures st.Ok? ==> prevFree == cs[n - 1] && freeClusters == CountDownBy(old(freeClusters), n)
                         && freeClusValid == old(freeClusValid)
      ensures st.Ok? ==> readFaults == old(readFaults) && writeFaults == old(writeFaults) && discarded == old(discarded)
      ensures st.Ok? ==> Unsynced(g, blocks) <= Unsynced(g, old(blocks)) - Touched(g, cs)
      ensures st.Ok? ==> ReadAlike(g, blocks, cs)
      ensures st.Ok? && Unsynced(g, old(blocks)) == {} ==> CopiesAgree(g, blocks)
      // failure
      ensures st.Err? ==> InUseKept(old(Fat()), Fat())
      ensures st.Err? && rolledBack ==> Fat() == old(Fat()) && Unsynced(g, blocks) <= Unsynced(g, old(blocks))
      ensures st == Err(ENOSPC) && readFaults + writeFaults == old(readFaults + writeFaults) ==> rolledBack
      ensures st.Err? && st != Err(ENOSPC) && readFaults + writeFaults == old(readFaults + writeFaults) + 1 ==>
                rolledBack
      ensures st.Err? && st != Err(ENOSPC) ==> readFaults + writeFaults > old(readFaults + writeFaults)
      ensures st.Err? ==> old(discarded) <= discarded <= old(discarded) + Elements(cs)
      ensures st == Err(ENOSPC) && old(CountRight()) ==> FreeCount(old(Fat())) < n
      ensures st == Err(ENOSPC) ==>
                || (blocks == old(blocks) && prevFree == old(prevFree) && freeClusters == old(freeClusters)
                    && freeClusValid && 0 <= freeClusters < n)
                || (freeClusValid && freeClusters == FreeCount(Fat()))
      ensures st.Ok? ==> n <= FreeCount(old(Fat()))
    {
      ghost var a0 := AllocStart(Fat(), prevFree, Unsynced(g, blocks), freeClusters, freeClusValid, writeFaults);
      hide ReadAlike, CopiesAgree, Touched, CountOk, DiskOk, FatOf, Unsynced, IsChain, Distinct, Link, Waiting, Bufs,
           AllPrimary, CountDownBy, FreeCount, Taken, Allocating, HintsOk, Scan;
      StartAllocation(a0);
      if freeClusters != COUNT_UNKNOWN && freeClusValid && freeClusters < n {
        EarlyNoSpace(n);
        return Err(ENOSPC), [], true;
      }
      var bhs;
      ghost var visited;
      st, cs, bhs, visited := ScanForFree(a0, n);
      ScannedFacts(a0, visited, cs, bhs);
      st, rolledBack := FinishAllocation(a0, visited, st, cs, bhs, sync);
      if st.Ok? {
        AllocatedFacts(a0, cs);
        CopiesNow(a0.unsynced, cs);
      }
    }

    // ----- fat_count_free_clusters -----

    /** The free entries of one block, added to those below it. */
    method CountBlock(c0: FatEntry, free0: int) returns (entry: int, free: int)
      requires TableOk() && InRange(Fat(), c0.entry) && c0 == Locate(g, c0.entry)
      requires free0 == FreeBelow(Fat(), c0.entry)
      ensures c0.entry < entry <= g.maxCluster && free == FreeBelow(Fat(), entry)
    {
      hide DiskOk, FatOf, Locate;
      var c, more := c0, true;
      free, entry := free0, c0.entry;
      while more
        invariant FAT_START_ENT <= c0.entry <= entry <= g.maxCluster && free == FreeBelow(Fat(), entry)
        invariant if more then c.entry == entry && InRange(Fat(), entry) && c == Locate(g, c.entry)
                  else c0.entry < entry
        decreases g.maxCluster - entry, more
      {
        var v := GetEntry(c);
        if v == FAT_ENT_FREE {
          free := free + 1;
        }
        entry := entry + 1;
        c, more := NextInBlock(c);
      }
    }

    /** fat_count_free_clusters: unless a valid count is at hand, look at every entry. */
    method CountFreeClusters() returns (st: Status)
      requires TableOk() && HintsOk()
      modifies `freeClusters, `freeClusValid, `readFaults
      ensures TableOk() && HintsOk()
      ensures readFaults == old(readFaults) + if st.Ok? then 0 else 1
      ensures st.Ok? && (old(freeClusters) == COUNT_UNKNOWN || !old(freeClusValid)) ==>
                freeClusValid && freeClusters == FreeCount(Fat())
      ensures st.Err? || (old(freeClusters) != COUNT_UNKNOWN && old(freeClusValid)) ==>
                freeClusters == old(freeClusters) && freeClusValid == old(freeClusValid)
      ensures old(CountRight()) ==> CountRight()
    {
      hide DiskOk, FatOf, Locate, FreeBelow;
      if freeClusters != COUNT_UNKNOWN && freeClusValid {
        return Ok;
      }
      CountNone(Fat());
      var free, entry := 0, FAT_START_ENT;
      while entry < g.maxCluster
        invariant FAT_START_ENT <= entry <= g.maxCluster && free == FreeBelow(Fat(), entry)
        invariant readFaults == old(readFaults)
        invariant freeClusters == old(freeClusters) && freeClusValid == old(freeClusValid) && HintsOk()
      {
        var c;
        c, st := ReadBlock(entry);
        if st.Err? {
          return;
        }
        entry, free := CountBlock(c, free);
      }
      freeClusters, freeClusValid := free, true;
      return Ok;
    }
  }
}
