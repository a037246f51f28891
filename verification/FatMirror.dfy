/** The backup copies of the FAT: where they live and which blocks agree with the primary copy. */
module FatMirror {
  import opened Arithmetic
  import opened FatDefs
  import opened FatTable

  predicate IsPrimary(g: Geometry, b: nat) {
    g.fatStart <= b < g.fatStart + g.fatLength
  }

  ghost predicate AllPrimary(g: Geometry, bhs: seq<nat>) {
    forall b :: b in bhs ==> IsPrimary(g, b)
  }

  /** Sector of copy number copy of primary block b. */
  function Backup(g: Geometry, b: nat, copy: nat): nat {
    g.fatLength * copy + b
  }

  lemma BackupPlace(g: Geometry, b: nat, copy: nat)
    requires IsPrimary(g, b) && copy < g.fats
    ensures g.fatStart + g.fatLength * copy <= Backup(g, b, copy) < g.fatStart + g.fatLength * (copy + 1)
    ensures Backup(g, b, copy) < g.fatStart + g.fats * g.fatLength
  {
    MulMonotone(copy + 1, g.fats, g.fatLength);
  }

  /** No two (block, copy) pairs share a sector. */
  lemma BackupInjective(g: Geometry, b: nat, copy: nat, b': nat, copy': nat)
    requires IsPrimary(g, b) && IsPrimary(g, b') && copy < g.fats && copy' < g.fats
    ensures Backup(g, b, copy) == Backup(g, b', copy') ==> b == b' && copy == copy'
  {
    BackupPlace(g, b, copy);
    BackupPlace(g, b', copy');
    MulMonotone(copy + 1, copy', g.fatLength);
    MulMonotone(copy' + 1, copy, g.fatLength);
  }

  /** Every backup copy of block b holds what the primary holds. */
  ghost predicate InSync(g: Geometry, blocks: seq<Block>, b: nat) {
    b < |blocks| &&
    forall copy: nat :: 1 <= copy < g.fats ==>
      Backup(g, b, copy) < |blocks| && blocks[Backup(g, b, copy)] == blocks[b]
  }

  ghost function Bufs(bhs: seq<nat>): (r: set<nat>)
    ensures forall b :: b in r <==> b in bhs
  {
    set b | b in bhs
  }

  /** The primary blocks some backup copy disagrees with. */
  ghost function Unsynced(g: Geometry, blocks: seq<Block>): (r: set<nat>)
    ensures forall b :: b in r <==> IsPrimary(g, b) && !InSync(g, blocks, b)
  {
    set b: nat | g.fatStart <= b < g.fatStart + g.fatLength && !InSync(g, blocks, b)
  }

  /** blocks' is blocks with some backup sectors brought up to date. */
  ghost predicate Refreshed(g: Geometry, blocks: seq<Block>, blocks': seq<Block>) {
    && |blocks'| == |blocks|
    && (forall b: nat :: IsPrimary(g, b) && b < |blocks| ==> blocks'[b] == blocks[b])
    && (forall b: nat, copy: nat ::
          IsPrimary(g, b) && b < |blocks| && 1 <= copy < g.fats && Backup(g, b, copy) < |blocks| ==>
          blocks'[Backup(g, b, copy)] == blocks[Backup(g, b, copy)] || blocks'[Backup(g, b, copy)] == blocks[b])
  }

  lemma RefreshedUnsynced(g: Geometry, blocks: seq<Block>, blocks': seq<Block>)
    requires Refreshed(g, blocks, blocks')
    ensures Unsynced(g, blocks') <= Unsynced(g, blocks)
  {
    forall b | b in Unsynced(g, blocks') && b !in Unsynced(g, blocks)
      ensures false
    {
      assert InSync(g, blocks, b);
      forall copy: nat | 1 <= copy < g.fats
        ensures Backup(g, b, copy) < |blocks'| && blocks'[Backup(g, b, copy)] == blocks'[b]
      {
      }
      assert InSync(g, blocks', b);
    }
  }

  /** memcpy of one primary block over its copy. */
  function CopyBlock(g: Geometry, blocks: seq<Block>, b: nat, copy: nat): seq<Block>
    requires b < |blocks| && Backup(g, b, copy) < |blocks|
  {
    blocks[Backup(g, b, copy) := blocks[b]]
  }

  lemma CopyBlockRefreshes(g: Geometry, blocks: seq<Block>, b: nat, copy: nat)
    requires g.Ok() && DiskOk(g, blocks) && IsPrimary(g, b) && 1 <= copy < g.fats
    ensures Backup(g, b, copy) < |blocks| && b < |blocks|
    ensures DiskOk(g, CopyBlock(g, blocks, b, copy))
    ensures Refreshed(g, blocks, CopyBlock(g, blocks, b, copy))
  {
    BackupPlace(g, b, copy);
    BackupPlace(g, b, 0);
    forall b': nat | IsPrimary(g, b')
      ensures b' != Backup(g, b, copy)
    {
      BackupInjective(g, b', 0, b, copy);
    }
    forall b': nat, copy': nat | IsPrimary(g, b') && 1 <= copy' < g.fats && Backup(g, b', copy') == Backup(g, b, copy)
      ensures b' == b
    {
      BackupInjective(g, b', copy', b, copy);
    }
  }

  lemma RefreshedTransitive(g: Geometry, x: seq<Block>, y: seq<Block>, z: seq<Block>)
    requires g.Ok() && DiskOk(g, x)
    requires Refreshed(g, x, y) && Refreshed(g, y, z)
    ensures Refreshed(g, x, z)
  {
    forall b: nat, copy: nat | IsPrimary(g, b) && b < |x| && 1 <= copy < g.fats && Backup(g, b, copy) < |x|
      ensures z[Backup(g, b, copy)] == x[Backup(g, b, copy)] || z[Backup(g, b, copy)] == x[b]
    {
      assert z[Backup(g, b, copy)] == y[Backup(g, b, copy)] || z[Backup(g, b, copy)] == y[b];
      assert y[Backup(g, b, copy)] == x[Backup(g, b, copy)] || y[Backup(g, b, copy)] == x[b];
    }
  }

  /** Copy number copy of each listed block agrees with the primary. */
  ghost predicate Mirrored(g: Geometry, blocks: seq<Block>, bhs: seq<nat>, copy: nat) {
    forall b :: b in bhs && b < |blocks| && Backup(g, b, copy) < |blocks| ==> blocks[Backup(g, b, copy)] == blocks[b]
  }

  /** Only copy number copy (and never the primary) may differ. */
  ghost predicate OtherCopiesKept(g: Geometry, blocks: seq<Block>, blocks': seq<Block>, copy: nat) {
    && |blocks'| == |blocks|
    && forall b: nat, c: nat :: IsPrimary(g, b) && c < g.fats && c != copy && Backup(g, b, c) < |blocks| ==>
         blocks'[Backup(g, b, c)] == blocks[Backup(g, b, c)]
  }

  lemma CopyBlockMirrors(g: Geometry, start: seq<Block>, blocks: seq<Block>, done: seq<nat>, b: nat, copy: nat)
    requires g.Ok() && DiskOk(g, blocks) && IsPrimary(g, b) && 1 <= copy < g.fats
    requires forall x :: x in done ==> IsPrimary(g, x)
    requires OtherCopiesKept(g, start, blocks, copy) && Mirrored(g, blocks, done, copy)
    ensures b < |blocks| && Backup(g, b, copy) < |blocks|
    ensures OtherCopiesKept(g, start, CopyBlock(g, blocks, b, copy), copy)
    ensures Mirrored(g, CopyBlock(g, blocks, b, copy), done + [b], copy)
  {
    CopyBlockRefreshes(g, blocks, b, copy);
    var blocks' := CopyBlock(g, blocks, b, copy);
    forall x: nat, c: nat | IsPrimary(g, x) && c < g.fats && c != copy && Backup(g, x, c) < |blocks|
      ensures blocks'[Backup(g, x, c)] == blocks[Backup(g, x, c)]
    {
      BackupInjective(g, x, c, b, copy);
    }
    forall x | x in done + [b] && x < |blocks| && Backup(g, x, copy) < |blocks|
      ensures blocks'[Backup(g, x, copy)] == blocks'[x]
    {
      BackupInjective(g, x, copy, b, copy);
    }
  }

  lemma MirroredKept(g: Geometry, blocks: seq<Block>, blocks': seq<Block>, bhs: seq<nat>, c: nat, copy: nat)
    requires c != copy && c < g.fats
    requires forall b :: b in bhs ==> IsPrimary(g, b)
    requires OtherCopiesKept(g, blocks, blocks', copy) && Refreshed(g, blocks, blocks')
    requires Mirrored(g, blocks, bhs, c)
    ensures Mirrored(g, blocks', bhs, c)
  {
  }

  lemma MirroredInSync(g: Geometry, blocks: seq<Block>, bhs: seq<nat>)
    requires g.Ok() && DiskOk(g, blocks)
    requires forall b :: b in bhs ==> IsPrimary(g, b)
    requires forall c: nat :: 1 <= c < g.fats ==> Mirrored(g, blocks, bhs, c)
    ensures forall b :: b in bhs ==> InSync(g, blocks, b)
  {
    forall b | b in bhs
      ensures InSync(g, blocks, b)
    {
      BackupPlace(g, b, 0);
      forall c: nat | 1 <= c < g.fats
        ensures Backup(g, b, c) < |blocks| && blocks[Backup(g, b, c)] == blocks[b]
      {
        BackupPlace(g, b, c);
        assert Mirrored(g, blocks, bhs, c);
      }
    }
  }

  /** The abstract table is read from the primary copy alone. */
  lemma FatFromPrimary(g: Geometry, blocks: seq<Block>, blocks': seq<Block>)
    requires g.Ok() && DiskOk(g, blocks) && DiskOk(g, blocks')
    requires forall b: nat :: IsPrimary(g, b) && b < |blocks| && b < |blocks'| ==> blocks'[b] == blocks[b]
    ensures FatOf(g, blocks') == FatOf(g, blocks)
  {
    forall e: nat | e < g.maxCluster
      ensures Field(g, blocks', e) == Field(g, blocks, e)
    {
      EntryFits(g, e);
      forall o: nat | o < g.fatLength * g.blockSize
        ensures TableByte(g, blocks', o) == TableByte(g, blocks, o)
      {
        AddressInPrimary(g, blocks, o);
        AddressInPrimary(g, blocks', o);
      }
    }
  }

  /** Blocks whose buffers a cursor placed on entry e holds. */
  ghost function EntryBlocks(g: Geometry, e: int): set<nat> {
    if g.blockSize > 0 && e >= 0 then Bufs(Locate(g, e).bhs) else {}
  }

  ghost function Touched(g: Geometry, es: seq<int>): set<nat> {
    if |es| == 0 then {} else Touched(g, es[..|es| - 1]) + EntryBlocks(g, es[|es| - 1])
  }

  /** Changing only the buffers of entry e can unsync only those buffers. */
  lemma PutUnsynced(g: Geometry, blocks: seq<Block>, blocks': seq<Block>, bhs: seq<nat>)
    requires g.Ok() && DiskOk(g, blocks) && |blocks'| == |blocks|
    requires forall b :: b in bhs ==> IsPrimary(g, b)
    requires forall b :: 0 <= b < |blocks| && b !in bhs ==> blocks'[b] == blocks[b]
    ensures Unsynced(g, blocks') <= Unsynced(g, blocks) + Bufs(bhs)
  {
    forall b | b in Unsynced(g, blocks') && b !in bhs && b !in Unsynced(g, blocks)
      ensures false
    {
      assert InSync(g, blocks, b);
      forall copy: nat | 1 <= copy < g.fats
        ensures Backup(g, b, copy) < |blocks'| && blocks'[Backup(g, b, copy)] == blocks'[b]
      {
        forall b' | b' in bhs
          ensures b' != Backup(g, b, copy)
        {
          BackupInjective(g, b', 0, b, copy);
        }
      }
      assert InSync(g, blocks', b);
    }
  }

  // ----- reading the other copies -----

  /** A volume of which only copy number copy of the table is looked at. */
  function CopyGeometry(g: Geometry, copy: nat): Geometry {
    g.(fatStart := g.fatStart + copy * g.fatLength, fats := 1)
  }

  lemma CopyFits(g: Geometry, blocks: seq<Block>, copy: nat)
    requires g.Ok() && DiskOk(g, blocks) && copy < g.fats
    ensures CopyGeometry(g, copy).Ok() && DiskOk(CopyGeometry(g, copy), blocks)
  {
    MulMonotone(copy + 1, g.fats, g.fatLength);
  }

  /** Entry e as copy number copy has it. */
  ghost function CopyEntry(g: Geometry, blocks: seq<Block>, copy: nat, e: nat): int
    requires g.Ok() && DiskOk(g, blocks) && copy < g.fats && e < g.maxCluster
  {
    CopyFits(g, blocks, copy);
    EntryAt(CopyGeometry(g, copy), blocks, e)
  }

  /** Every copy has the listed entries as the table is read. */
  ghost predicate ReadAlike(g: Geometry, blocks: seq<Block>, es: seq<int>) {
    && g.Ok() && DiskOk(g, blocks)
    && forall i: nat, copy: nat :: i < |es| && copy < g.fats && 0 <= es[i] < g.maxCluster ==>
         CopyEntry(g, blocks, copy, es[i]) == EntryAt(g, blocks, es[i])
  }

  /** Every copy read for itself is the table. */
  ghost predicate CopiesAgree(g: Geometry, blocks: seq<Block>) {
    && g.Ok() && DiskOk(g, blocks)
    && forall copy: nat :: copy < g.fats ==>
         && CopyGeometry(g, copy).Ok() && DiskOk(CopyGeometry(g, copy), blocks)
         && FatOf(CopyGeometry(g, copy), blocks) == FatOf(g, blocks)
  }

  lemma ByteInCopy(g: Geometry, blocks: seq<Block>, copy: nat, o: nat)
    requires g.Ok() && DiskOk(g, blocks) && copy < g.fats && o < g.fatLength * g.blockSize
    requires Address(g, o).blk !in Unsynced(g, blocks)
    ensures CopyGeometry(g, copy).Ok() && DiskOk(CopyGeometry(g, copy), blocks)
    ensures TableByte(CopyGeometry(g, copy), blocks, o) == TableByte(g, blocks, o)
  {
    CopyFits(g, blocks, copy);
    AddressInPrimary(g, blocks, o);
    assert InSync(g, blocks, Address(g, o).blk);
    assert copy > 0 ==> Backup(g, Address(g, o).blk, copy) < |blocks|;
  }

  lemma EntryByteInCopy(g: Geometry, blocks: seq<Block>, copy: nat, e: nat, k: nat)
    requires g.Ok() && DiskOk(g, blocks) && copy < g.fats && e < g.maxCluster && k < g.EntryBytes()
    requires EntryBlocks(g, e) !! Unsynced(g, blocks)
    ensures CopyGeometry(g, copy).Ok() && DiskOk(CopyGeometry(g, copy), blocks)
    ensures g.EntryOffset(e) + k < g.fatLength * g.blockSize
    ensures TableByte(CopyGeometry(g, copy), blocks, g.EntryOffset(e) + k) == TableByte(g, blocks, g.EntryOffset(e) + k)
  {
    hide Unsynced, TableByte, DiskOk;
    EntryFits(g, e);
    LocateBytes(g, blocks, e);
    if !g.bits.Fat12? {
      FieldByteAddress(g, e, k);
    }
    ByteInCopy(g, blocks, copy, g.EntryOffset(e) + k);
  }

  /** An entry whose blocks are in step reads alike in every copy. */
  lemma EntryInCopy(g: Geometry, blocks: seq<Block>, copy: nat, e: nat)
    requires g.Ok() && DiskOk(g, blocks) && copy < g.fats && e < g.maxCluster
    requires EntryBlocks(g, e) !! Unsynced(g, blocks)
    ensures CopyEntry(g, blocks, copy, e) == EntryAt(g, blocks, e)
  {
    hide Unsynced, TableByte, DiskOk, EntryBlocks, Twelve;
    EntryByteInCopy(g, blocks, copy, e, 0);
    EntryByteInCopy(g, blocks, copy, e, 1);
    if g.bits.Fat32? {
      EntryByteInCopy(g, blocks, copy, e, 2);
      EntryByteInCopy(g, blocks, copy, e, 3);
    }
  }

  /** With all blocks in step every copy is the table. */
  lemma SyncedCopiesAgree(g: Geometry, blocks: seq<Block>)
    requires g.Ok() && DiskOk(g, blocks) && Unsynced(g, blocks) == {}
    ensures CopiesAgree(g, blocks)
  {
    hide Unsynced, EntryAt;
    forall copy: nat | copy < g.fats
      ensures CopyGeometry(g, copy).Ok() && DiskOk(CopyGeometry(g, copy), blocks)
      ensures FatOf(CopyGeometry(g, copy), blocks) == FatOf(g, blocks)
    {
      CopyFits(g, blocks, copy);
      forall e: nat | e < g.maxCluster
        ensures EntryAt(CopyGeometry(g, copy), blocks, e) == EntryAt(g, blocks, e)
      {
        EntryInCopy(g, blocks, copy, e);
      }
    }
  }

  /** After a change that brought the blocks of the listed entries in step. */
  lemma CopiesAfter(g: Geometry, blocks: seq<Block>, before: set<nat>, es: seq<int>)
    requires g.Ok() && DiskOk(g, blocks) && Unsynced(g, blocks) <= before - Touched(g, es)
    ensures ReadAlike(g, blocks, es)
    ensures before == {} ==> CopiesAgree(g, blocks)
  {
    hide Unsynced, CopyEntry, EntryAt;
    forall i: nat, copy: nat | i < |es| && copy < g.fats && 0 <= es[i] < g.maxCluster
      ensures CopyEntry(g, blocks, copy, es[i]) == EntryAt(g, blocks, es[i])
    {
      TouchedHas(g, es, i);
      EntryInCopy(g, blocks, copy, es[i]);
    }
    if before == {} {
      SyncedCopiesAgree(g, blocks);
    }
  }

  lemma {:induction false} TouchedHas(g: Geometry, es: seq<int>, i: nat)
    requires i < |es|
    ensures EntryBlocks(g, es[i]) <= Touched(g, es)
  {
    if i < |es| - 1 {
      TouchedHas(g, es[..|es| - 1], i);
    }
  }

  lemma OneTouched(g: Geometry, e: int)
    requires g.blockSize > 0 && e >= 0
    ensures Touched(g, [e]) == Bufs(Locate(g, e).bhs)
  {
    assert [e][..0] == [];
    assert Touched(g, [e]) == Touched(g, []) + EntryBlocks(g, e);
  }
}
