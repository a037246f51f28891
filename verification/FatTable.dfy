/** The FAT as bytes in device blocks, and the cursor (struct fat_entry) the driver moves over it.
    Masks and shifts of the source are written as / and % of the block size. */
module FatTable {
  import opened Arithmetic
  import opened FatDefs

  /** What mounting fixes about the table. */
  datatype Geometry = Geometry(
    bits: FatBits, blockSize: nat, fatStart: nat, fatLength: nat, fats: nat, maxCluster: nat)
  {
    /** Mount checks: at least one copy, at least one data cluster, and a table that holds every entry. */
    ghost predicate Ok() {
      && blockSize >= 512
      && blockSize % 4 == 0
      && fats >= 1
      && FAT_START_ENT < maxCluster <= Bad(bits)
      && EntryOffset(maxCluster - 1) + EntryBytes() <= fatLength * blockSize
    }

    /** Byte position of an entry, counted from the start of the table. */
    function EntryOffset(e: nat): nat {
      match bits
      case Fat12 => e + e / 2
      case Fat16 => 2 * e
      case Fat32 => 4 * e
    }

    function EntryBytes(): nat {
      if bits.Fat32? then 4 else 2
    }

    predicate InRange(e: int) {
      FAT_START_ENT <= e < maxCluster
    }
  }

  /** The block list covers every copy of the table, and every block is full size. */
  ghost predicate DiskOk(g: Geometry, blocks: seq<Block>) {
    && |blocks| >= g.fatStart + g.fats * g.fatLength
    && forall i :: 0 <= i < |blocks| ==> |blocks[i]| == g.blockSize
  }

  // ----- byte addresses -----

  /** Moving k bytes on stays in the block when there is room for it. */
  lemma SameBlock(bs: nat, o: nat, k: nat)
    requires bs > 0
    requires o % bs + k < bs
    ensures (o + k) / bs == o / bs
    ensures (o + k) % bs == o % bs + k
  {
    AddressFacts(bs, o);
    QuotientUnique(bs, o / bs, o % bs + k, o + k);
  }

  lemma NextBlock(bs: nat, o: nat)
    requires bs > 0
    requires o % bs == bs - 1
    ensures (o + 1) / bs == o / bs + 1
    ensures (o + 1) % bs == 0
  {
    AddressFacts(bs, o);
    assert (o / bs + 1) * bs == (o / bs) * bs + bs;
    QuotientUnique(bs, o / bs + 1, 0, o + 1);
  }

  /** FAT16 and FAT32 entries never straddle a block: block sizes are multiples of 4. */
  lemma AlignedOffset(bs: nat, w: nat, e: nat)
    requires bs > 0 && bs % 4 == 0 && (w == 2 || w == 4)
    ensures (w * e) % bs + w <= bs
  {
    var o, m := w * e, bs / 4;
    AddressFacts(bs, o);
    var q, r := o / bs, o % bs;
    assert q * bs == 4 * (q * m) by {
      assert bs == 4 * m;
      MulByFour(q, m, bs);
    }
    RoomForField(bs, w, e, q * m, r);
  }

  lemma RoomForField(bs: nat, w: nat, e: nat, t: int, r: nat)
    requires bs % 4 == 0 && r < bs
    requires (w == 2 && r == 2 * e - 4 * t) || (w == 4 && r == 4 * e - 4 * t)
    ensures r + w <= bs
  {
  }

  lemma MulByFour(q: int, m: int, bs: int)
    requires bs == 4 * m
    ensures q * bs == 4 * (q * m)
  {
  }

  lemma BlockInTable(bs: nat, len: nat, o: nat)
    requires bs > 0 && o < len * bs
    ensures o / bs < len
  {
    AddressFacts(bs, o);
    MulMonotone(len, o / bs, bs);
  }

  /** Position of byte o of the primary table. */
  datatype Ptr = Ptr(blk: nat, off: nat)

  function Address(g: Geometry, o: nat): Ptr
    requires g.blockSize > 0
  {
    Ptr(g.fatStart + o / g.blockSize, o % g.blockSize)
  }

  lemma AddressInjective(g: Geometry, o: nat, o': nat)
    requires g.blockSize > 0
    ensures Address(g, o) == Address(g, o') ==> o == o'
  {
    AddressFacts(g.blockSize, o);
    AddressFacts(g.blockSize, o');
  }

  ghost predicate Addressable(g: Geometry, blocks: seq<Block>, p: Ptr) {
    p.blk < |blocks| && p.off < |blocks[p.blk]|
  }

  /** Byte offsets inside the table have an address inside the primary copy. */
  lemma AddressInPrimary(g: Geometry, blocks: seq<Block>, o: nat)
    requires g.Ok() && DiskOk(g, blocks)
    requires o < g.fatLength * g.blockSize
    ensures Addressable(g, blocks, Address(g, o))
    ensures g.fatStart <= Address(g, o).blk < g.fatStart + g.fatLength
  {
    AddressFacts(g.blockSize, o);
    BlockInTable(g.blockSize, g.fatLength, o);
    assert g.fats * g.fatLength >= g.fatLength by {
      assert (g.fats - 1) * g.fatLength >= 0;
    }
  }

  function ByteAt(blocks: seq<Block>, p: Ptr): byte
    requires p.blk < |blocks| && p.off < |blocks[p.blk]|
  {
    blocks[p.blk][p.off]
  }

  /** Overwrite |vs| consecutive bytes of one block. */
  function StoreBytes(blocks: seq<Block>, p: Ptr, vs: seq<byte>): seq<Block>
    requires p.blk < |blocks| && p.off + |vs| <= |blocks[p.blk]|
  {
    var blk: Block := blocks[p.blk];
    var blk': Block := blk[..p.off] + vs + blk[p.off + |vs|..];
    blocks[p.blk := blk']
  }

  /** Byte o of the primary table. */
  ghost function TableByte(g: Geometry, blocks: seq<Block>, o: nat): byte
    requires g.Ok() && DiskOk(g, blocks)
    requires o < g.fatLength * g.blockSize
  {
    AddressInPrimary(g, blocks, o);
    ByteAt(blocks, Address(g, o))
  }

  /** Storing inside one block of the primary copy changes exactly those bytes of the table. */
  lemma StoreTableBytes(g: Geometry, blocks: seq<Block>, o: nat, vs: seq<byte>)
    requires g.Ok() && DiskOk(g, blocks)
    requires o + |vs| <= g.fatLength * g.blockSize && |vs| > 0
    requires o % g.blockSize + |vs| <= g.blockSize
    ensures Addressable(g, blocks, Address(g, o))
    ensures DiskOk(g, StoreBytes(blocks, Address(g, o), vs))
    ensures forall o': nat :: o' < g.fatLength * g.blockSize ==>
              TableByte(g, StoreBytes(blocks, Address(g, o), vs), o')
              == if o <= o' < o + |vs| then vs[o' - o] else TableByte(g, blocks, o')
  {
    AddressInPrimary(g, blocks, o);
    var blocks' := StoreBytes(blocks, Address(g, o), vs);
    forall o': nat | o' < g.fatLength * g.blockSize
      ensures TableByte(g, blocks', o') == if o <= o' < o + |vs| then vs[o' - o] else TableByte(g, blocks, o')
    {
      AddressInPrimary(g, blocks, o');
      if o <= o' < o + |vs| {
        SameBlock(g.blockSize, o, o' - o);
      } else {
        NotInRun(g.blockSize, o, |vs|, o');
      }
    }
  }

  /** An offset outside a run that fits one block has another address. */
  lemma NotInRun(bs: nat, o: nat, n: nat, o': nat)
    requires bs > 0 && o % bs + n <= bs
    requires !(o <= o' < o + n)
    ensures o' / bs == o / bs ==> !(o % bs <= o' % bs < o % bs + n)
  {
    AddressFacts(bs, o);
    AddressFacts(bs, o');
  }

  // ----- entries -----

  lemma EntryFits(g: Geometry, e: nat)
    requires g.Ok() && e < g.maxCluster
    ensures g.EntryOffset(e) + g.EntryBytes() <= g.fatLength * g.blockSize
  {
  }

  function EntryWidth(bits: FatBits): nat {
    match bits
    case Fat12 => 12
    case Fat16 => 16
    case Fat32 => 32
  }

  /** Entry e begins with bit 12, 16 or 32 times e of the table, which for an odd 12-bit entry is in the middle of its
      first byte. */
  lemma EntryBits(g: Geometry, e: nat)
    ensures 8 * g.EntryOffset(e) + (if g.bits.Fat12? && e % 2 == 1 then 4 else 0) == EntryWidth(g.bits) * e
  {
  }

  /** The 12 bits of entry e among the two bytes it touches: a neighbour owns the other nibble. */
  function Twelve(e: int, b0: int, b1: int): (r: int)
    ensures 0 <= r < 0x1000
  {
    (if e % 2 == 1 then b0 / 16 + b1 * 16 else b1 * 256 + b0) % 0x1000
  }

  /** The whole stored field of entry e: 12, 16 or 32 bits wide. */
  ghost function Field(g: Geometry, blocks: seq<Block>, e: nat): (r: nat)
    requires g.Ok() && DiskOk(g, blocks) && e < g.maxCluster
  {
    EntryFits(g, e);
    var o := g.EntryOffset(e);
    var b0, b1 := TableByte(g, blocks, o), TableByte(g, blocks, o + 1);
    match g.bits
    case Fat12 => Twelve(e, b0, b1)
    case Fat16 => b0 + 256 * b1
    case Fat32 => b0 + 256 * b1 + 0x1_0000 * TableByte(g, blocks, o + 2) + 0x100_0000 * TableByte(g, blocks, o + 3)
  }

  /** The next-cluster part of a stored field: FAT32 reserves the top four bits. */
  function Value(bits: FatBits, field: nat): nat {
    if bits.Fat32? then field % 0x1000_0000 else field
  }

  function Reserved(bits: FatBits, field: nat): nat {
    if bits.Fat32? then field / 0x1000_0000 else 0
  }

  /** What a stored value means: bad-cluster marks and every end mark read as end-of-chain. */
  function Decode(bits: FatBits, v: int): int {
    if v >= Bad(bits) then FAT_ENT_EOF else v
  }

  /** What the driver stores for a next-cluster value. */
  function Encode(bits: FatBits, v: int): int {
    if v == FAT_ENT_EOF then EofMark(bits) else v
  }

  /** A value survives being stored and read back exactly when it is the end mark or below the bad-cluster mark. */
  lemma DecodeEncode(bits: FatBits, v: int)
    requires v == FAT_ENT_EOF || 0 <= v < ValueRange(bits)
    ensures Decode(bits, Encode(bits, v)) == v <==> v == FAT_ENT_EOF || v < Bad(bits)
  {
  }

  ghost function EntryAt(g: Geometry, blocks: seq<Block>, e: nat): int
    requires g.Ok() && DiskOk(g, blocks) && e < g.maxCluster
  {
    Decode(g.bits, Value(g.bits, Field(g, blocks, e)))
  }

  /** The abstract table: one next-cluster value per entry. */
  ghost function FatOf(g: Geometry, blocks: seq<Block>): (fat: seq<int>)
    requires g.Ok() && DiskOk(g, blocks)
    ensures |fat| == g.maxCluster
    ensures forall e :: 0 <= e < g.maxCluster ==> fat[e] == EntryAt(g, blocks, e)
  {
    seq(g.maxCluster, e requires 0 <= e < g.maxCluster => EntryAt(g, blocks, e))
  }

  // ----- the cursor -----

  /** struct fat_entry: the entry number, the buffers held, and pointers to the entry's bytes
      (two for FAT12, one otherwise, none once a block is used up). */
  datatype FatEntry = FatEntry(entry: int, bhs: seq<nat>, ptrs: seq<Ptr>)

  const NO_ENTRY := FatEntry(0, [], [])

  /** ent_blocknr followed by a successful ent_bread: the cursor placed on entry e. */
  function Locate(g: Geometry, e: nat): (c: FatEntry)
    requires g.blockSize > 0
    ensures c.entry == e
    ensures 1 <= |c.bhs| <= 2
  {
    var p := Address(g, g.EntryOffset(e));
    if g.bits.Fat12? then
      if p.off + 1 < g.blockSize then
        FatEntry(e, [p.blk], [p, Ptr(p.blk, p.off + 1)])
      else
        FatEntry(e, [p.blk, p.blk + 1], [p, Ptr(p.blk + 1, 0)])
    else
      FatEntry(e, [p.blk], [p])
  }

  /** The pointers of a placed cursor address exactly the bytes of its entry, inside the primary copy. */
  lemma LocateBytes(g: Geometry, blocks: seq<Block>, e: nat)
    requires g.Ok() && DiskOk(g, blocks) && e < g.maxCluster
    ensures var c, o := Locate(g, e), g.EntryOffset(e);
            && c.ptrs[0] == Address(g, o)
            && o + g.EntryBytes() <= g.fatLength * g.blockSize
            && (g.bits.Fat12? ==> c.ptrs[1] == Address(g, o + 1))
            && (!g.bits.Fat12? ==> c.ptrs[0].off + g.EntryBytes() <= g.blockSize)
            && forall b :: b in c.bhs ==> g.fatStart <= b < g.fatStart + g.fatLength && b < |blocks|
    ensures forall p :: p in Locate(g, e).ptrs ==> p.blk in Locate(g, e).bhs
  {
    hide DiskOk;
    var o := g.EntryOffset(e);
    EntryFits(g, e);
    AddressFacts(g.blockSize, o);
    AddressInPrimary(g, blocks, o);
    AddressInPrimary(g, blocks, o + 1);
    if g.bits.Fat12? {
      if o % g.blockSize + 1 < g.blockSize {
        SameBlock(g.blockSize, o, 1);
      } else {
        NextBlock(g.blockSize, o);
      }
    } else {
      AlignedOffset(g.blockSize, g.EntryBytes(), e);
    }
  }

  /** The k-th byte of a FAT16 or FAT32 entry is k bytes after the cursor's pointer. */
  lemma FieldByteAddress(g: Geometry, e: nat, k: nat)
    requires g.Ok() && e < g.maxCluster && !g.bits.Fat12? && k < g.EntryBytes()
    ensures var p := Locate(g, e).ptrs[0];
            Address(g, g.EntryOffset(e) + k) == Ptr(p.blk, p.off + k)
  {
    AlignedOffset(g.blockSize, g.EntryBytes(), e);
    SameBlock(g.blockSize, g.EntryOffset(e), k);
  }

  /** The bytes a cursor needs are in the block list. */
  ghost predicate Readable(g: Geometry, blocks: seq<Block>, c: FatEntry) {
    if g.bits.Fat12? then
      |c.ptrs| == 2 && Addressable(g, blocks, c.ptrs[0]) && Addressable(g, blocks, c.ptrs[1])
    else
      |c.ptrs| == 1 && c.ptrs[0].blk < |blocks| && c.ptrs[0].off + g.EntryBytes() <= |blocks[c.ptrs[0].blk]|
  }

  /** ent_get: read through the cursor's pointers. */
  function EntGet(g: Geometry, blocks: seq<Block>, c: FatEntry): int
    requires Readable(g, blocks, c)
  {
    match g.bits
    case Fat12 =>
      Decode(Fat12, Twelve(c.entry, ByteAt(blocks, c.ptrs[0]), ByteAt(blocks, c.ptrs[1])))
    case Fat16 =>
      var d, o := blocks[c.ptrs[0].blk], c.ptrs[0].off;
      var b0: int, b1: int := d[o], d[o + 1];
      Decode(Fat16, b0 + 256 * b1)
    case Fat32 =>
      var d, o := blocks[c.ptrs[0].blk], c.ptrs[0].off;
      var b0: int, b1: int, b2: int, b3: int := d[o], d[o + 1], d[o + 2], d[o + 3];
      Decode(Fat32, (b0 + 256 * b1 + 0x1_0000 * b2 + 0x100_0000 * b3) % 0x1000_0000)
  }

  lemma LocateReadable(g: Geometry, blocks: seq<Block>, e: nat)
    requires g.Ok() && DiskOk(g, blocks) && e < g.maxCluster
    ensures Readable(g, blocks, Locate(g, e))
  {
    LocateBytes(g, blocks, e);
    AddressInPrimary(g, blocks, g.EntryOffset(e));
    AddressInPrimary(g, blocks, g.EntryOffset(e) + 1);
  }

  /** Byte k of the entry under a FAT16 or FAT32 cursor is byte k of the stored field. */
  lemma FieldByte(g: Geometry, blocks: seq<Block>, e: nat, k: nat)
    requires g.Ok() && DiskOk(g, blocks) && e < g.maxCluster && !g.bits.Fat12? && k < g.EntryBytes()
    ensures Readable(g, blocks, Locate(g, e))
    ensures g.EntryOffset(e) + k < g.fatLength * g.blockSize
    ensures var p := Locate(g, e).ptrs[0];
            blocks[p.blk][p.off + k] == TableByte(g, blocks, g.EntryOffset(e) + k)
  {
    LocateReadable(g, blocks, e);
    EntryFits(g, e);
    FieldByteAddress(g, e, k);
    AddressInPrimary(g, blocks, g.EntryOffset(e) + k);
  }

  lemma Get12Refines(g: Geometry, blocks: seq<Block>, e: nat)
    requires g.Ok() && DiskOk(g, blocks) && e < g.maxCluster && g.bits.Fat12?
    ensures Readable(g, blocks, Locate(g, e))
    ensures EntGet(g, blocks, Locate(g, e)) == EntryAt(g, blocks, e)
  {
    LocateReadable(g, blocks, e);
    LocateBytes(g, blocks, e);
  }

  lemma Get16Refines(g: Geometry, blocks: seq<Block>, e: nat)
    requires g.Ok() && DiskOk(g, blocks) && e < g.maxCluster && g.bits.Fat16?
    ensures Readable(g, blocks, Locate(g, e))
    ensures EntGet(g, blocks, Locate(g, e)) == EntryAt(g, blocks, e)
  {
    FieldByte(g, blocks, e, 0);
    FieldByte(g, blocks, e, 1);
  }

  lemma Get32Refines(g: Geometry, blocks: seq<Block>, e: nat)
    requires g.Ok() && DiskOk(g, blocks) && e < g.maxCluster && g.bits.Fat32?
    ensures Readable(g, blocks, Locate(g, e))
    ensures EntGet(g, blocks, Locate(g, e)) == EntryAt(g, blocks, e)
  {
    FieldByte(g, blocks, e, 0);
    FieldByte(g, blocks, e, 1);
    FieldByte(g, blocks, e, 2);
    FieldByte(g, blocks, e, 3);
  }

  /** Reading through a placed cursor gives the abstract entry. */
  lemma EntGetRefines(g: Geometry, blocks: seq<Block>, e: nat)
    requires g.Ok() && DiskOk(g, blocks) && e < g.maxCluster
    ensures Readable(g, blocks, Locate(g, e))
    ensures EntGet(g, blocks, Locate(g, e)) == FatOf(g, blocks)[e]
  {
    match g.bits
    case Fat12 => Get12Refines(g, blocks, e);
    case Fat16 => Get16Refines(g, blocks, e);
    case Fat32 => Get32Refines(g, blocks, e);
  }

  /** ent_next: step inside the buffers held; more == false when the next entry needs another read. */
  function EntNext(g: Geometry, c: FatEntry): (r: (FatEntry, bool))
    requires |c.bhs| >= 1 && |c.ptrs| == (if g.bits.Fat12? then 2 else 1)
    requires |c.bhs| <= 2
  {
    if g.bits.Fat12? then
      var nextp := Ptr(c.ptrs[1].blk, c.ptrs[1].off + 1 + (if c.entry % 2 == 1 then 1 else 0));
      if |c.bhs| == 1 then
        if nextp.off < g.blockSize - 1 then
          (FatEntry(c.entry + 1, c.bhs, [Ptr(nextp.blk, nextp.off - 1), nextp]), true)
        else
          (FatEntry(c.entry + 1, c.bhs, []), false)
      else
        (FatEntry(c.entry + 1, [c.bhs[1]], [Ptr(nextp.blk, nextp.off - 1), nextp]), true)
    else
      var p := c.ptrs[0];
      if p.off < g.blockSize - g.EntryBytes() then
        (FatEntry(c.entry + 1, c.bhs, [Ptr(p.blk, p.off + g.EntryBytes())]), true)
      else
        (FatEntry(c.entry + 1, c.bhs, []), false)
  }

  /** Stepping inside a block lands exactly where locating the next entry from scratch would. */
  lemma EntNextRefines(g: Geometry, e: nat)
    requires g.Ok() && e < g.maxCluster
    ensures var (c, more) := EntNext(g, Locate(g, e));
            && c.entry == e + 1
            && (more ==> c == Locate(g, e + 1))
  {
    var o, bs := g.EntryOffset(e), g.blockSize;
    AddressFacts(bs, o);
    var d := g.EntryOffset(e + 1) - o;
    if g.bits.Fat12? {
      assert d == 1 + e % 2;
      if o % bs + 1 < bs {
        if o % bs + 1 + d < bs - 1 + 1 {
          if o % bs + d < bs { SameBlock(bs, o, d); }
        }
      } else {
        NextBlock(bs, o);
        SameBlock(bs, o + 1, d - 1);
      }
    } else {
      AlignedOffset(bs, g.EntryBytes(), e);
      if o % bs + d < bs { SameBlock(bs, o, d); }
    }
  }

  /** Exactly when the step stays in the buffers held. On FAT16 and FAT32 that is when the next entry lies in the same
      block. On FAT12 it is not: an entry whose last byte is the last one of the buffer is asked for again. */
  lemma EntNextMore(g: Geometry, e: nat)
    requires g.Ok() && e < g.maxCluster
    ensures var more, one := EntNext(g, Locate(g, e)).1, |Locate(g, e).bhs| == 1;
            var end := g.EntryOffset(e) % g.blockSize + 3 + e % 2;
            && (!g.bits.Fat12? ==> (more <==> Locate(g, e + 1).bhs == Locate(g, e).bhs))
            && (g.bits.Fat12? ==> (more <==> !one || end < g.blockSize))
            && (g.bits.Fat12? ==> (!more && Locate(g, e + 1).bhs == Locate(g, e).bhs <==> one && end == g.blockSize))
  {
    var o, bs := g.EntryOffset(e), g.blockSize;
    AddressFacts(bs, o);
    if g.bits.Fat12? {
      NextOffset12(g, e);
      var d := 1 + e % 2;
      if o % bs + d < bs {
        SameBlock(bs, o, d);
      } else {
        LaterBlock(bs, o, d);
      }
    } else {
      AlignedOffset(bs, g.EntryBytes(), e);
      if o % bs + g.EntryBytes() < bs {
        SameBlock(bs, o, g.EntryBytes());
      } else {
        LaterBlock(bs, o, g.EntryBytes());
      }
    }
  }

  lemma NextOffset12(g: Geometry, e: nat)
    requires g.bits.Fat12?
    ensures g.EntryOffset(e + 1) == g.EntryOffset(e) + 1 + e % 2
  {
  }

  lemma LaterBlock(bs: nat, o: nat, d: nat)
    requires bs > 0 && d <= bs && o % bs + d >= bs
    ensures (o + d) / bs == o / bs + 1 && (o + d) % bs == o % bs + d - bs
  {
    AddressFacts(bs, o);
    QuotientUnique(bs, o / bs + 1, o % bs + d - bs, o + d);
  }

  /** Entry 340 of a FAT12 table in 512-byte blocks lies in the buffer held for entry 339, and is asked for again. */
  lemma EntNextAsksAgain()
    ensures var g := Geometry(Fat12, 512, 1, 3, 2, 1000);
            g.Ok() && !EntNext(g, Locate(g, 339)).1 && Locate(g, 340).bhs == Locate(g, 339).bhs
  {
    var g := Geometry(Fat12, 512, 1, 3, 2, 1000);
    QuotientUnique(512, 0, 508, 508);
    assert g.EntryOffset(339) == 508;
    EntNextMore(g, 339);
  }

  // ----- ent_put -----

  function ToByte(v: int): byte {
    v % 256
  }

  /** The two bytes fat12_ent_put writes: the neighbour's nibble stays. */
  function TwelvePut(e: int, b0: byte, b1: byte, v: nat): (r: (byte, byte)) {
    if e % 2 == 1 then (ToByte(v * 16 + b0 % 16), ToByte(v / 16))
    else (ToByte(v), ToByte((b1 / 16) * 16 + v / 256))
  }

  lemma Mod4096(h: int, x: int)
    requires 0 <= x < 0x1000
    ensures (0x1000 * h + x) % 0x1000 == x
  {
  }

  lemma Mod256(h: int, x: int)
    requires 0 <= x < 256
    ensures (256 * h + x) % 256 == x
  {
  }

  /** Writing 12 bits reads back, and keeps whichever neighbour shares a byte. */
  lemma OddPutGet(e: int, b0: byte, b1: byte, v: nat)
    requires v < 0x1000 && e % 2 == 1
    ensures var (n0, n1) := TwelvePut(e, b0, b1, v);
            Twelve(e, n0, n1) == v && n0 % 16 == b0 % 16
  {
    var q, l, r: int := v / 16, v % 16, b0 % 16;
    Mod256(q, 16 * l + r);
    assert ToByte(v * 16 + b0 % 16) == 16 * l + r;
    assert ToByte(v / 16) == q;
    Mod4096(0, l + 16 * q);
  }

  lemma EvenPutGet(e: int, b0: byte, b1: byte, v: nat)
    requires v < 0x1000 && e % 2 == 0
    ensures var (n0, n1) := TwelvePut(e, b0, b1, v);
            Twelve(e, n0, n1) == v && n1 / 16 == b1 / 16
  {
    var h, q, l: int := b1 / 16, v / 256, v % 256;
    assert ToByte(v) == l;
    Mod256(0, 16 * h + q);
    assert ToByte((b1 / 16) * 16 + v / 256) == 16 * h + q;
    Mod4096(h, 256 * q + l);
    assert (16 * h + q) * 256 + l == 0x1000 * h + (256 * q + l);
  }

  lemma LowNibble(b0: byte, b1: byte)
    ensures (b1 * 256 + b0) % 0x1000 == (b1 % 16) * 256 + b0
  {
    var h, n: int := b1 / 16, b1 % 16;
    Mod4096(h, n * 256 + b0);
    assert b1 * 256 + b0 == 0x1000 * h + (n * 256 + b0);
  }

  /** The neighbours of a FAT12 entry depend on their own nibble only. */
  lemma TwelveNibbles(e: int, b0: byte, b1: byte, c0: byte, c1: byte)
    requires e % 2 == 1 ==> b0 / 16 == c0 / 16 && b1 == c1
    requires e % 2 == 0 ==> b0 == c0 && b1 % 16 == c1 % 16
    ensures Twelve(e, b0, b1) == Twelve(e, c0, c1)
  {
    if e % 2 == 0 {
      LowNibble(b0, b1);
      LowNibble(c0, c1);
    }
  }

  /** cpu_to_le16 / cpu_to_le32. */
  function LittleEndian(v: nat, n: nat): (r: seq<byte>)
    ensures |r| == n
    decreases n
  {
    if n == 0 then [] else [ToByte(v)] + LittleEndian(v / 256, n - 1)
  }

  /** Every table entry but e holds the same bits in both block lists. */
  ghost predicate OthersKept(g: Geometry, blocks: seq<Block>, blocks': seq<Block>, e: nat)
    requires g.Ok() && DiskOk(g, blocks) && DiskOk(g, blocks')
  {
    forall e': nat :: e' < g.maxCluster && e' != e ==> Field(g, blocks', e') == Field(g, blocks, e')
  }

  /** What fat32_ent_put stores: the new value under the old top nibble. */
  function LongWord(v: nat, b3: byte): (word: nat)
    requires v < 0x1000_0000
    ensures word < 0x1_0000_0000
  {
    v + b3 / 16 * 0x1000_0000
  }

  /** Entry e of blocks' holds v, and its reserved bits are those it had in blocks. */
  ghost predicate Stored(g: Geometry, blocks: seq<Block>, blocks': seq<Block>, e: nat, v: nat)
    requires g.Ok() && DiskOk(g, blocks) && DiskOk(g, blocks') && e < g.maxCluster
  {
    && Value(g.bits, Field(g, blocks', e)) == v
    && Reserved(g.bits, Field(g, blocks', e)) == Reserved(g.bits, Field(g, blocks, e))
  }

  /** ent_put: what storing v through the cursor leaves in the blocks. FAT12 stores two single bytes,
      FAT16 a word, FAT32 a long word that keeps its top four bits. */
  function EntPut(g: Geometry, blocks: seq<Block>, c: FatEntry, v: nat): seq<Block>
    requires Readable(g, blocks, c)
    requires v < ValueRange(g.bits)
  {
    match g.bits
    case Fat12 =>
      var n := TwelvePut(c.entry, ByteAt(blocks, c.ptrs[0]), ByteAt(blocks, c.ptrs[1]), v);
      StoreBytes(StoreBytes(blocks, c.ptrs[0], [n.0]), c.ptrs[1], [n.1])
    case Fat16 =>
      StoreBytes(blocks, c.ptrs[0], LittleEndian(v, 2))
    case Fat32 =>
      StoreBytes(blocks, c.ptrs[0], LittleEndian(LongWord(v, blocks[c.ptrs[0].blk][c.ptrs[0].off + 3]), 4))
  }

  /** The table after the two bytes of entry e became n0 and n1. */
  lemma TwelveFields(g: Geometry, blocks: seq<Block>, blocks': seq<Block>, e: nat, v: nat)
    requires g.Ok() && DiskOk(g, blocks) && DiskOk(g, blocks') && e < g.maxCluster && g.bits.Fat12?
    requires v < 0x1000
    requires g.EntryOffset(e) + 2 <= g.fatLength * g.blockSize
    requires var o := g.EntryOffset(e);
             var n := TwelvePut(e, TableByte(g, blocks, o), TableByte(g, blocks, o + 1), v);
             forall o': nat :: o' < g.fatLength * g.blockSize ==>
               TableByte(g, blocks', o') == if o' == o then n.0 else if o' == o + 1 then n.1
                                             else TableByte(g, blocks, o')
    ensures Field(g, blocks', e) == v
    ensures OthersKept(g, blocks, blocks', e)
  {
    var o := g.EntryOffset(e);
    if e % 2 == 1 {
      OddPutGet(e, TableByte(g, blocks, o), TableByte(g, blocks, o + 1), v);
    } else {
      EvenPutGet(e, TableByte(g, blocks, o), TableByte(g, blocks, o + 1), v);
    }
    forall e': nat | e' < g.maxCluster && e' != e
      ensures Field(g, blocks', e') == Field(g, blocks, e')
    {
      EntryFits(g, e');
      var o' := g.EntryOffset(e');
      TwelveNibbles(e', TableByte(g, blocks, o'), TableByte(g, blocks, o' + 1),
                    TableByte(g, blocks', o'), TableByte(g, blocks', o' + 1));
    }
  }

  lemma Put12Refines(g: Geometry, blocks: seq<Block>, e: nat, v: nat)
    requires g.Ok() && DiskOk(g, blocks) && e < g.maxCluster && g.bits.Fat12?
    requires v < 0x1000
    ensures Readable(g, blocks, Locate(g, e))
    ensures var blocks' := EntPut(g, blocks, Locate(g, e), v);
            && DiskOk(g, blocks')
            && Stored(g, blocks, blocks', e, v)
            && OthersKept(g, blocks, blocks', e)
  {
    LocateReadable(g, blocks, e);
    LocateBytes(g, blocks, e);
    var o := g.EntryOffset(e);
    AddressFacts(g.blockSize, o);
    AddressFacts(g.blockSize, o + 1);
    var n := TwelvePut(e, TableByte(g, blocks, o), TableByte(g, blocks, o + 1), v);
    StoreTableBytes(g, blocks, o, [n.0]);
    StoreTableBytes(g, StoreBytes(blocks, Address(g, o), [n.0]), o + 1, [n.1]);
    TwelveFields(g, blocks, EntPut(g, blocks, Locate(g, e), v), e, v);
  }

  lemma Bytes2(v: nat)
    requires v < 0x1_0000
    ensures LittleEndian(v, 2) == [ToByte(v), ToByte(v / 256)]
    ensures v % 256 + 256 * ((v / 256) % 256) == v
  {
  }

  lemma Bytes4(v: nat)
    requires v < 0x1_0000_0000
    ensures LittleEndian(v, 4) == [ToByte(v), ToByte(v / 256), ToByte(v / 256 / 256), ToByte(v / 256 / 256 / 256)]
    ensures v % 256 + 256 * ((v / 256) % 256) + 0x1_0000 * ((v / 256 / 256) % 256)
            + 0x100_0000 * ((v / 256 / 256 / 256) % 256) == v
  {
    assert LittleEndian(v / 256 / 256, 2) == [ToByte(v / 256 / 256), ToByte(v / 256 / 256 / 256)];
  }

  lemma Put16Refines(g: Geometry, blocks: seq<Block>, e: nat, v: nat)
    requires g.Ok() && DiskOk(g, blocks) && e < g.maxCluster && g.bits.Fat16?
    requires v < 0x1_0000
    ensures Readable(g, blocks, Locate(g, e))
    ensures var blocks' := EntPut(g, blocks, Locate(g, e), v);
            && DiskOk(g, blocks')
            && Stored(g, blocks, blocks', e, v)
            && OthersKept(g, blocks, blocks', e)
  {
    LocateReadable(g, blocks, e);
    LocateBytes(g, blocks, e);
    Bytes2(v);
    StoreTableBytes(g, blocks, g.EntryOffset(e), LittleEndian(v, 2));
  }

  /** A FAT32 entry's four bytes became those of word; no other entry overlaps them. */
  lemma WordFields(g: Geometry, blocks: seq<Block>, blocks': seq<Block>, e: nat, word: nat)
    requires g.Ok() && DiskOk(g, blocks) && DiskOk(g, blocks') && e < g.maxCluster && g.bits.Fat32?
    requires word < 0x1_0000_0000
    requires var o, vs := g.EntryOffset(e), LittleEndian(word, 4);
             forall o': nat :: o' < g.fatLength * g.blockSize ==>
               TableByte(g, blocks', o') == if o <= o' < o + 4 then vs[o' - o] else TableByte(g, blocks, o')
    ensures Field(g, blocks', e) == word
    ensures OthersKept(g, blocks, blocks', e)
  {
    EntryFits(g, e);
    Bytes4(word);
    forall e': nat | e' < g.maxCluster && e' != e
      ensures Field(g, blocks', e') == Field(g, blocks, e')
    {
      EntryFits(g, e');
    }
  }

  lemma WordStored(g: Geometry, blocks: seq<Block>, blocks': seq<Block>, e: nat, v: nat, top: nat)
    requires g.Ok() && DiskOk(g, blocks) && DiskOk(g, blocks') && e < g.maxCluster && g.bits.Fat32?
    requires v < 0x1000_0000
    requires Field(g, blocks', e) == v + top * 0x1000_0000
    requires Field(g, blocks, e) / 0x1000_0000 == top
    ensures Stored(g, blocks, blocks', e, v)
  {
    LowBits(v, top, 0x1000_0000);
  }

  /** Where a FAT32 entry's four bytes are. */
  lemma WordPlace(g: Geometry, blocks: seq<Block>, e: nat)
    requires g.Ok() && DiskOk(g, blocks) && e < g.maxCluster && g.bits.Fat32?
    ensures Locate(g, e).ptrs == [Address(g, g.EntryOffset(e))]
    ensures g.EntryOffset(e) + 4 <= g.fatLength * g.blockSize
    ensures g.EntryOffset(e) % g.blockSize + 4 <= g.blockSize
  {
    EntryFits(g, e);
    AlignedOffset(g.blockSize, 4, e);
  }

  lemma Put32Bytes(g: Geometry, blocks: seq<Block>, e: nat, v: nat)
    requires g.Ok() && DiskOk(g, blocks) && e < g.maxCluster && g.bits.Fat32?
    requires v < 0x1000_0000
    requires Readable(g, blocks, Locate(g, e))
    ensures var blocks', o, p := EntPut(g, blocks, Locate(g, e), v), g.EntryOffset(e), Locate(g, e).ptrs[0];
            var vs := LittleEndian(LongWord(v, blocks[p.blk][p.off + 3]), 4);
            && DiskOk(g, blocks')
            && forall o': nat :: o' < g.fatLength * g.blockSize ==>
                 TableByte(g, blocks', o') == if o <= o' < o + 4 then vs[o' - o] else TableByte(g, blocks, o')
  {
    hide Twelve, TwelvePut, LittleEndian, LongWord, Locate, Address, TableByte;
    WordPlace(g, blocks, e);
    var p := Locate(g, e).ptrs[0];
    StoreTableBytes(g, blocks, g.EntryOffset(e), LittleEndian(LongWord(v, blocks[p.blk][p.off + 3]), 4));
  }

  /** The reserved top four bits of a FAT32 entry survive the store. */
  lemma Put32Refines(g: Geometry, blocks: seq<Block>, e: nat, v: nat)
    requires g.Ok() && DiskOk(g, blocks) && e < g.maxCluster && g.bits.Fat32?
    requires v < 0x1000_0000
    ensures Readable(g, blocks, Locate(g, e))
    ensures var blocks' := EntPut(g, blocks, Locate(g, e), v);
            && DiskOk(g, blocks')
            && Stored(g, blocks, blocks', e, v)
            && OthersKept(g, blocks, blocks', e)
  {
    FieldTop(g, blocks, e);
    Put32Bytes(g, blocks, e, v);
    var p := Locate(g, e).ptrs[0];
    var b3 := blocks[p.blk][p.off + 3];
    var blocks' := EntPut(g, blocks, Locate(g, e), v);
    WordFields(g, blocks, blocks', e, LongWord(v, b3));
    WordStored(g, blocks, blocks', e, v, b3 / 16);
  }

  /** The top nibble of the fourth byte is what a FAT32 field holds above 28 bits. */
  lemma FieldTop(g: Geometry, blocks: seq<Block>, e: nat)
    requires g.Ok() && DiskOk(g, blocks) && e < g.maxCluster && g.bits.Fat32?
    ensures Readable(g, blocks, Locate(g, e))
    ensures var p := Locate(g, e).ptrs[0];
            Field(g, blocks, e) / 0x1000_0000 == blocks[p.blk][p.off + 3] / 16
  {
    FieldByte(g, blocks, e, 3);
    EntryFits(g, e);
    var o := g.EntryOffset(e);
    TopNibble(TableByte(g, blocks, o), TableByte(g, blocks, o + 1), TableByte(g, blocks, o + 2),
              TableByte(g, blocks, o + 3));
  }

  lemma TopNibble(b0: byte, b1: byte, b2: byte, b3: byte)
    ensures (b0 + 256 * b1 + 0x1_0000 * b2 + 0x100_0000 * b3) / 0x1000_0000 == b3 / 16
  {
  }

  lemma LowBits(v: nat, top: nat, range: nat)
    requires v < range
    ensures (v + top * range) % range == v && (v + top * range) / range == top
  {
    QuotientUnique(range, top, v, v + top * range);
  }

  /** From stored fields to the abstract table. */
  lemma FieldsToFat(g: Geometry, blocks: seq<Block>, blocks': seq<Block>, e: nat, v: nat)
    requires g.Ok() && DiskOk(g, blocks) && DiskOk(g, blocks') && e < g.maxCluster
    requires v < ValueRange(g.bits)
    requires OthersKept(g, blocks, blocks', e)
    requires Stored(g, blocks, blocks', e, v)
    ensures FatOf(g, blocks') == FatOf(g, blocks)[e := Decode(g.bits, v)]
  {
    var fat, fat' := FatOf(g, blocks), FatOf(g, blocks');
    forall e': nat | e' < g.maxCluster
      ensures fat'[e'] == fat[e := Decode(g.bits, v)][e']
    {
      if e' != e {
        assert Field(g, blocks', e') == Field(g, blocks, e');
      }
    }
  }

  /** ent_put then ent_get, for every width: entry e reads back as the decoded value,
      every other entry keeps its bits, and on FAT32 so does the reserved nibble of e. */
  lemma EntPutRefines(g: Geometry, blocks: seq<Block>, e: nat, v: nat)
    requires g.Ok() && DiskOk(g, blocks) && e < g.maxCluster
    requires v < ValueRange(g.bits)
    ensures Readable(g, blocks, Locate(g, e))
    ensures DiskOk(g, EntPut(g, blocks, Locate(g, e), v))
    ensures FatOf(g, EntPut(g, blocks, Locate(g, e), v)) == FatOf(g, blocks)[e := Decode(g.bits, v)]
    ensures OthersKept(g, blocks, EntPut(g, blocks, Locate(g, e), v), e)
    ensures Stored(g, blocks, EntPut(g, blocks, Locate(g, e), v), e, v)
  {
    match g.bits
    case Fat12 => Put12Refines(g, blocks, e, v);
    case Fat16 => Put16Refines(g, blocks, e, v);
    case Fat32 => Put32Refines(g, blocks, e, v);
    FieldsToFat(g, blocks, EntPut(g, blocks, Locate(g, e), v), e, v);
  }

  /** Only the buffers the cursor holds change. */
  lemma EntPutFrame(g: Geometry, blocks: seq<Block>, e: nat, v: nat)
    requires g.Ok() && DiskOk(g, blocks) && e < g.maxCluster
    requires v < ValueRange(g.bits)
    ensures Readable(g, blocks, Locate(g, e))
    ensures var blocks' := EntPut(g, blocks, Locate(g, e), v);
            && |blocks'| == |blocks|
            && forall b :: 0 <= b < |blocks| && b !in Locate(g, e).bhs ==> blocks'[b] == blocks[b]
  {
    LocateReadable(g, blocks, e);
    LocateBytes(g, blocks, e);
  }
}
