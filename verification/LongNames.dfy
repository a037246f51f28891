/** Long names: their translation to 16-bit characters and back, and their layout over directory slots. */
module LongNames {
  import opened Arithmetic
  import opened FatDefs
  import opened DirSlots
  import opened Directory

  /** A 16-bit character. */
  type Uni = x: int | 0 <= x < 0x1_0000

  const ATTR_EXT: byte := 0x0F
  const CHARS_PER_SLOT: nat := 13
  /** Most long name slots one name can have. */
  const MAX_LONG_SLOTS: nat := 20
  const LAST_FLAG: byte := 0x40

  // ----- one slot -----

  /** Byte offset of character j in a struct msdos_dir_slot. */
  function CharOffset(j: nat): nat
    requires j < CHARS_PER_SLOT
  {
    if j < 5 then 1 + 2 * j else if j < 11 then 14 + 2 * (j - 5) else 28 + 2 * (j - 11)
  }

  function SlotChar(s: Slot, j: nat): Uni
    requires j < CHARS_PER_SLOT
  {
    var low: int, high: int := s[CharOffset(j)], s[CharOffset(j) + 1];
    low + 256 * high
  }

  predicate Flagged(s: Slot) {
    s[0] / 64 % 2 == 1
  }

  /** ds->id & ~0x40 */
  function SlotNumber(s: Slot): nat {
    var id: int := s[0];
    if Flagged(s) then id - 64 else id
  }

  function Attr(s: Slot): byte { s[11] }
  function AliasChecksum(s: Slot): byte { s[13] }

  predicate IsVolume(s: Slot) {
    Attr(s) / 8 % 2 == 1
  }

  function DirName(s: Slot): seq<byte> { s[..11] }

  /** fat_checksum: rotate the sum right by one bit and add the next byte of the name, all in eight bits. */
  function Checksum(name: seq<byte>): byte
    requires name != []
  {
    if |name| == 1 then name[0]
    else
      var s: int := Checksum(name[..|name| - 1]);
      (s * 128 + s / 2 + name[|name| - 1]) % 256
  }

  /** r is s turned right by one bit: its upper seven bits moved down, its lowest bit on top. */
  predicate Turned(s: byte, r: byte) {
    r % 128 == s / 2 && r / 128 == s % 2
  }

  /** Before each byte but the first is added the sum is turned right by one bit, which loses none of it. */
  lemma ChecksumTurns(name: seq<byte>, r: byte)
    requires |name| > 1 && Turned(Checksum(name[..|name| - 1]), r)
    ensures Checksum(name) == (r + name[|name| - 1]) % 256
    ensures forall s: byte :: Turned(s, r) <==> s == Checksum(name[..|name| - 1])
  {
    var s: int := Checksum(name[..|name| - 1]);
    assert r == s / 2 + s % 2 * 128;
    assert s * 128 == s % 2 * 128 + s / 2 * 256;
  }

  /** Low or high byte of a character. */
  function Half(c: Uni, high: bool): byte {
    if high then c / 256 else c % 256
  }

  /** Byte i of a long name slot: its number, the checksum of the alias, and 13 characters in three groups. */
  function LongByte(id: byte, cks: byte, cs: seq<Uni>, i: nat): byte
    requires |cs| == CHARS_PER_SLOT && i < 32
  {
    if i == 0 then id
    else if i < 11 then Half(cs[(i - 1) / 2], i % 2 == 0)
    else if i == 11 then ATTR_EXT
    else if i == 13 then cks
    else if i == 12 || i == 26 || i == 27 then 0
    else if i < 26 then Half(cs[5 + (i - 14) / 2], i % 2 == 1)
    else Half(cs[11 + (i - 28) / 2], i % 2 == 1)
  }

  function LongSlot(id: byte, cks: byte, cs: seq<Uni>): (s: Slot)
    requires |cs| == CHARS_PER_SLOT
  {
    seq(32, i requires 0 <= i < 32 => LongByte(id, cks, cs, i))
  }

  /** A slot gives back the characters written to it. */
  lemma LongSlotFields(id: byte, cks: byte, cs: seq<Uni>, j: nat)
    requires |cs| == CHARS_PER_SLOT && j < CHARS_PER_SLOT
    ensures var s := LongSlot(id, cks, cs);
            && s[0] == id && Attr(s) == ATTR_EXT && AliasChecksum(s) == cks && SlotChar(s, j) == cs[j]
            && s[12] == 0 && s[26] == 0 && s[27] == 0
  {
    var s, o := LongSlot(id, cks, cs), CharOffset(j);
    assert s[o] == LongByte(id, cks, cs, o) == Half(cs[j], false);
    assert s[o + 1] == LongByte(id, cks, cs, o + 1) == Half(cs[j], true);
  }

  function Chars(s: Slot): (cs: seq<Uni>)
    ensures |cs| == CHARS_PER_SLOT
  {
    seq(CHARS_PER_SLOT, j requires 0 <= j < CHARS_PER_SLOT => SlotChar(s, j))
  }

  // ----- the characters of a run of slots -----

  /** Thirteen characters of the buffer. */
  function Row(buf: seq<Uni>, m: nat): (row: seq<Uni>)
    requires 13 * m + 13 <= |buf|
    ensures |row| == CHARS_PER_SLOT
  {
    buf[13 * m..13 * m + 13]
  }

  /** Row m of a name of n slots, the first of them read into run: a flagged slot ends the text right behind its own
      characters, over the first one of the slot read before it. */
  function RowOf(run: seq<Slot>, n: nat, m: nat): seq<Uni>
    requires |run| <= n && n - |run| <= m < n
  {
    var row := Chars(run[n - 1 - m]);
    if n - m < |run| && Flagged(run[n - m]) then row[0 := 0] else row
  }

  /** The buffer holds what the slots in run say. */
  ghost predicate Holds(run: seq<Slot>, n: nat, buf: seq<Uni>) {
    && 0 < |run| <= n && 13 * n < |buf| && (Flagged(run[0]) ==> buf[13 * n] == 0)
    && forall m :: n - |run| <= m < n ==> Row(buf, m) == RowOf(run, n, m)
  }

  /** The buffer after the 13 characters of ds are copied to offset, and the text ended there if ds is flagged. */
  function Copied(buf: seq<Uni>, ds: Slot, offset: nat): (r: seq<Uni>)
    requires offset + 13 < |buf|
    ensures |r| == |buf|
    ensures forall i :: 0 <= i < |r| ==>
              r[i] == if offset <= i < offset + 13 then Chars(ds)[i - offset]
                      else if i == offset + 13 && Flagged(ds) then 0 else buf[i]
  {
    buf[..offset] + Chars(ds) + [if Flagged(ds) then 0 else buf[offset + 13]] + buf[offset + 14..]
  }

  /** Copying a slot changes its own row, the first character after that, and nothing else. */
  lemma RowsCopied(buf: seq<Uni>, ds: Slot, m0: nat, m: nat)
    requires 13 * m0 + 13 < |buf| && m0 <= m && 13 * m + 13 <= |buf|
    ensures var now := Copied(buf, ds, 13 * m0);
            Row(now, m) == if m == m0 then Chars(ds)
                           else if m == m0 + 1 && Flagged(ds) then Row(buf, m)[0 := 0] else Row(buf, m)
  {
    hide Chars, Flagged;
    var now := Copied(buf, ds, 13 * m0);
    forall j | 0 <= j < 13
      ensures now[13 * m + j] == if m == m0 then Chars(ds)[j]
                                 else if m == m0 + 1 && j == 0 && Flagged(ds) then 0 else buf[13 * m + j]
    {
    }
  }

  /** Copying one more slot to its place. */
  lemma HoldsMore(run: seq<Slot>, ds: Slot, n: nat, buf: seq<Uni>)
    requires |run| < n && 13 * n < |buf| && (run != [] ==> Holds(run, n, buf))
    ensures Holds(run + [ds], n, Copied(buf, ds, 13 * (n - 1 - |run|)))
  {
    hide Chars, Flagged, Row;
    var m0 := n - 1 - |run|;
    var now := Copied(buf, ds, 13 * m0);
    var run' := run + [ds];
    forall m | n - |run'| <= m < n
      ensures Row(now, m) == RowOf(run', n, m)
    {
      RowsCopied(buf, ds, m0, m);
      assert run'[n - 1 - m] == if m == m0 then ds else run[n - 1 - m];
      if m > m0 {
        assert Row(buf, m) == RowOf(run, n, m);
        assert run'[n - m] == if m == m0 + 1 then ds else run[n - m];
      }
    }
  }

  // ----- a long name in the directory -----

  /** The slot that k entries further on are read from, starting at slot p. */
  function At(v: Pass, p: nat, k: nat): nat
    requires v.spb > 0
  {
    if k == 0 then p else NextSlot(v, At(v, p, k - 1) + 1)
  }

  /** Slot k of a long name of n slots with that checksum that begins at p: there, and in its place. */
  predicate PartOk(v: Pass, slots: seq<Slot>, p: nat, n: nat, k: nat)
    requires v.spb > 0 && p < |slots|
  {
    var i := At(v, p, k);
    && i < |slots| && i / v.spb < v.blocks
    && SlotNumber(slots[i]) == n - k && AliasChecksum(slots[i]) == AliasChecksum(slots[p])
    && (k > 0 ==> Attr(slots[i]) == ATTR_EXT)
  }

  /** A short entry in use, and no volume label. */
  predicate ShortEntry(s: Slot) {
    !IsFree(s) && !IsVolume(s)
  }

  /** A long name of n slots begins at slot p: numbered downwards from its flagged first slot, under one checksum, and
      followed by a short entry. */
  ghost predicate LongName(v: Pass, slots: seq<Slot>, p: nat, n: nat)
    requires v.spb > 0
  {
    && p < |slots| && Flagged(slots[p]) && 1 <= n <= MAX_LONG_SLOTS
    && (forall k :: 0 <= k < n ==> PartOk(v, slots, p, n, k))
    && At(v, p, n) < |slots| && At(v, p, n) / v.spb < v.blocks && ShortEntry(slots[At(v, p, n)])
  }

  // ----- fat_parse_long -----

  datatype ParseResult = Parsed | Invalid | NotLongName | Eof
  /** How one attempt at a long name ends: with a result, or with a jump back to parse_long at a later slot. */
  datatype Attempt = Result(res: ParseResult) | Again

  /** The first k slots of a long name of n slots at p are in their places. */
  ghost predicate PartsOk(v: Pass, slots: seq<Slot>, p: nat, n: nat, k: nat)
    requires v.spb > 0
  {
    p < |slots| && Flagged(slots[p]) && 1 <= n <= MAX_LONG_SLOTS && forall i :: 0 <= i < k ==> PartOk(v, slots, p, n, i)
  }

  /** Copying the 13 characters of slot ds to a position of the buffer, and ending the text there if it is flagged. */
  method CopyChars(ds: Slot, unicode: array<Uni>, offset: nat)
    requires offset + 13 < unicode.Length
    modifies unicode
    ensures unicode[..] == Copied(old(unicode[..]), ds, offset)
  {
    hide SlotChar, Flagged, Copied;
    ghost var was := unicode[..];
    var j := 0;
    while j < 13
      invariant 0 <= j <= 13
      invariant forall i :: 0 <= i < unicode.Length ==>
                  unicode[i] == if offset <= i < offset + j then Chars(ds)[i - offset] else was[i]
    {
      unicode[offset + j] := SlotChar(ds, j);
      j := j + 1;
    }
    if Flagged(ds) {
      unicode[offset + 13] := 0;
    }
  }

  /** The first k slots of the entry at p. */
  function SlotsOf(v: Pass, slots: seq<Slot>, p: nat, k: nat): seq<Slot>
    requires v.spb > 0 && forall i :: 0 <= i < k ==> At(v, p, i) < |slots|
  {
    seq(k, i requires 0 <= i < k => slots[At(v, p, i)])
  }

  /** No long name begins at slot p. */
  ghost predicate NoLongName(v: Pass, slots: seq<Slot>, p: nat)
    requires v.spb > 0
  {
    forall m :: !LongName(v, slots, p, m)
  }

  /** The buffer holds the name that the n slots at p spell. */
  ghost predicate Spelled(v: Pass, slots: seq<Slot>, p: nat, n: nat, buf: seq<Uni>)
    requires v.spb > 0
  {
    (forall k :: 0 <= k < n ==> At(v, p, k) < |slots|) && Holds(SlotsOf(v, slots, p, n), n, buf)
  }

  /** The slots in run have been read from p on, the next one is in its place too, and the buffer has their
      characters. */
  ghost predicate Reading(v: Pass, slots: seq<Slot>, p: nat, n: nat, run: seq<Slot>, buf: seq<Uni>)
    requires v.spb > 0
  {
    && |run| < n && 13 * MAX_LONG_SLOTS < |buf| && PartsOk(v, slots, p, n, |run| + 1)
    && (forall i :: 0 <= i < |run| ==> At(v, p, i) < |slots| && run[i] == slots[At(v, p, i)])
    && (run != [] ==> Holds(run, n, buf))
  }

  lemma SameLength(v: Pass, slots: seq<Slot>, p: nat, m: nat)
    requires v.spb > 0 && LongName(v, slots, p, m)
    ensures p < |slots| && m == SlotNumber(slots[p])
  {
    assert PartOk(v, slots, p, m, 0);
  }

  lemma NotFlagged(v: Pass, slots: seq<Slot>, p: nat)
    requires v.spb > 0 && p < |slots|
    requires !Flagged(slots[p]) || !(1 <= SlotNumber(slots[p]) <= MAX_LONG_SLOTS)
    ensures NoLongName(v, slots, p)
  {
    forall m | LongName(v, slots, p, m)
      ensures false
    {
      SameLength(v, slots, p, m);
    }
  }

  lemma MissingPart(v: Pass, slots: seq<Slot>, p: nat, n: nat, k: nat)
    requires v.spb > 0 && p < |slots| && n == SlotNumber(slots[p])
    requires (k < n && !PartOk(v, slots, p, n, k)) || (k <= n && At(v, p, k) / v.spb >= v.blocks)
    ensures NoLongName(v, slots, p)
  {
    hide PartOk;
    forall m | LongName(v, slots, p, m)
      ensures false
    {
      SameLength(v, slots, p, m);
      PartIn(v, slots, p, m, k);
    }
  }

  lemma PartIn(v: Pass, slots: seq<Slot>, p: nat, n: nat, k: nat)
    requires v.spb > 0 && LongName(v, slots, p, n) && k <= n
    ensures k < n ==> PartOk(v, slots, p, n, k)
    ensures At(v, p, k) / v.spb < v.blocks
  {
  }

  /** With all its slots in their places, the entry is a long name if and only if a short entry follows. */
  lemma WholeName(v: Pass, slots: seq<Slot>, p: nat, n: nat)
    requires v.spb > 0 && PartsOk(v, slots, p, n, n) && At(v, p, n) < |slots| && At(v, p, n) / v.spb < v.blocks
    ensures ShortEntry(slots[At(v, p, n)]) ==> LongName(v, slots, p, n)
    ensures !ShortEntry(slots[At(v, p, n)]) ==> NoLongName(v, slots, p)
  {
    assert PartOk(v, slots, p, n, 0);
    forall m | LongName(v, slots, p, m)
      ensures m == n
    {
      SameLength(v, slots, p, m);
    }
  }

  lemma FirstPart(v: Pass, slots: seq<Slot>, p: nat, n: nat, buf: seq<Uni>)
    requires v.spb > 0 && p < |slots| && p / v.spb < v.blocks && 13 * MAX_LONG_SLOTS < |buf|
    requires Flagged(slots[p]) && n == SlotNumber(slots[p]) && 1 <= n <= MAX_LONG_SLOTS
    ensures Reading(v, slots, p, n, [], buf)
  {
    assert At(v, p, 0) == p;
  }

  /** The characters of the current slot are copied. */
  lemma ReadOne(v: Pass, slots: seq<Slot>, p: nat, n: nat, run: seq<Slot>, buf: seq<Uni>)
    requires v.spb > 0 && Reading(v, slots, p, n, run, buf)
    ensures At(v, p, |run|) < |slots| && 13 * n < |buf|
    ensures var ds := slots[At(v, p, |run|)];
            var now := Copied(buf, ds, 13 * (n - 1 - |run|));
            && Holds(run + [ds], n, now)
            && (|run| + 1 == n ==> PartsOk(v, slots, p, n, n) && Spelled(v, slots, p, n, now))
            && (|run| + 1 < n && PartOk(v, slots, p, n, |run| + 1) ==> Reading(v, slots, p, n, run + [ds], now))
  {
    hide Holds, Copied, At;
    assert PartOk(v, slots, p, n, |run|);
    var ds := slots[At(v, p, |run|)];
    HoldsMore(run, ds, n, buf);
    if |run| + 1 == n {
      forall k | 0 <= k < n
        ensures At(v, p, k) < |slots|
      {
        assert PartOk(v, slots, p, n, k);
      }
      assert run + [ds] == SlotsOf(v, slots, p, n);
    }
  }

  lemma InPass(v: Pass, bh: nat, de: nat, len: nat)
    requires v.spb > 0 && bh < v.blocks && de < v.spb && v.blocks * v.spb <= len
    ensures bh * v.spb + de < len && (bh * v.spb + de) / v.spb == bh
  {
    BlockEnd(v, bh, de, 1, len);
    QuotientUnique(v.spb, bh, de, bh * v.spb + de);
  }

  lemma NextAt(v: Pass, p: nat, k: nat)
    requires v.spb > 0
    ensures At(v, p, k + 1) == NextSlot(v, At(v, p, k) + 1) > At(v, p, k)
  {
    hide NextSlot;
    NextSlotFacts(v, At(v, p, k) + 1);
  }

  /** From the label parse_long up to the short entry, a result, or a jump back. The current entry is slot p. */
  method ReadSlots(d: Dir, v: Pass, bh: nat, de: nat, unicode: array<Uni>, ghost p: nat)
    returns (a: Attempt, pos': nat, bh': int, de': nat, n: nat)
    requires d.Valid() && Covers(v, d.spb, d.blocks) && v.blocks * v.spb <= |d.slots| && d.Held(v, p + 1, bh, de)
    requires unicode.Length > 13 * MAX_LONG_SLOTS
    modifies unicode
    ensures d.Held(v, pos', bh', de') && pos' > p
    ensures a != Result(Invalid) && a != Result(Eof) ==> bh' >= 0
    ensures a.Again? ==> pos' > p + 1
    ensures a != Result(Parsed) ==> NoLongName(v, d.slots, p)
    ensures a == Result(Parsed) ==> 1 <= n && PartsOk(v, d.slots, p, n, n) && Spelled(v, d.slots, p, n, unicode[..])
    ensures a == Result(Parsed) ==> pos' == At(v, p, n) + 1
  {
    hide NextSlot, Holds, SlotChar, Reading, PartOk, PartsOk, Spelled, At, Copied, NoLongName, Flagged;
    ghost var all := d.slots;
    InPass(v, bh, de, |all|);
    pos', bh', de', n := bh * d.spb + de + 1, bh, de, 0;
    var ds := d.slots[pos' - 1];
    if !Flagged(ds) || SlotNumber(ds) > 20 || SlotNumber(ds) == 0 {
      NotFlagged(v, all, p);
      return Result(Invalid), pos', bh', de', n;
    }
    n := SlotNumber(ds);
    var cks, slot := AliasChecksum(ds), n;
    ghost var run: seq<Slot> := [];
    FirstPart(v, all, p, n, unicode[..]);
    AtFirst(v, p);
    while true
      invariant 0 < slot <= n <= MAX_LONG_SLOTS && |run| == n - slot && n == SlotNumber(all[p])
      invariant d.Held(v, pos', bh', de') && bh' >= 0 && pos' > p && pos' == At(v, p, n - slot) + 1
      invariant pos' <= |all| && ds == all[pos' - 1]
      invariant Reading(v, all, p, n, run, unicode[..])
      decreases slot
    {
      slot := slot - 1;
      ReadOne(v, all, p, n, run, unicode[..]);
      CopyChars(ds, unicode, 13 * slot);
      run := run + [ds];
      NextAt(v, p, n - slot - 1);
      var more;
      more, pos', bh', de' := d.GetEntry(v, pos', bh', de');
      if !more {
        MissingPart(v, all, p, n, n - slot);
        return Result(Eof), pos', bh', de', n;
      }
      InPass(v, bh', de', |all|);
      if slot == 0 {
        return Result(Parsed), pos', bh', de', n;
      }
      ds := d.slots[pos' - 1];
      PartNow(v, all, p, n, n - slot);
      if Attr(ds) != ATTR_EXT {
        MissingPart(v, all, p, n, n - slot);
        return Result(NotLongName), pos', bh', de', n;
      }
      if SlotNumber(ds) != slot || AliasChecksum(ds) != cks {
        MissingPart(v, all, p, n, n - slot);
        return Again, pos', bh', de', n;
      }
    }
  }

  lemma AtFirst(v: Pass, p: nat)
    requires v.spb > 0
    ensures At(v, p, 0) == p
  {
  }

  lemma PartNow(v: Pass, slots: seq<Slot>, p: nat, n: nat, k: nat)
    requires v.spb > 0 && p < |slots| && At(v, p, k) < |slots| && At(v, p, k) / v.spb < v.blocks && k > 0
    ensures PartOk(v, slots, p, n, k)
            <==> SlotNumber(slots[At(v, p, k)]) == n - k && AliasChecksum(slots[At(v, p, k)]) == AliasChecksum(slots[p])
                 && Attr(slots[At(v, p, k)]) == ATTR_EXT
  {
  }

  /** What fat_parse_long returns for a long name of n slots at p: whether its alias still carries its checksum. */
  function SlotsReported(slots: seq<Slot>, p: nat, n: nat, short: nat): nat
    requires p < |slots| && short < |slots|
  {
    if Checksum(DirName(slots[short])) == AliasChecksum(slots[p]) then n else 0
  }

  /** From the label parse_long to a result or a jump back there. */
  method ParseOnce(d: Dir, v: Pass, bh: nat, de: nat, unicode: array<Uni>, ghost p: nat)
    returns (a: Attempt, pos': nat, bh': int, de': nat, nrSlots: nat, ghost n: nat)
    requires d.Valid() && Covers(v, d.spb, d.blocks) && v.blocks * v.spb <= |d.slots| && d.Held(v, p + 1, bh, de)
    requires unicode.Length > 13 * MAX_LONG_SLOTS
    modifies unicode
    ensures d.Held(v, pos', bh', de') && pos' > p
    ensures a.Again? ==> bh' >= 0 && pos' > p + 1
    ensures a != Result(Parsed) ==> NoLongName(v, d.slots, p)
    ensures a == Result(Parsed) ==> LongName(v, d.slots, p, n) && pos' == At(v, p, n) + 1
    ensures a == Result(Parsed) ==> Spelled(v, d.slots, p, n, unicode[..])
    ensures a == Result(Parsed) ==> nrSlots == SlotsReported(d.slots, p, n, pos' - 1)
  {
    hide LongName, NextSlot, Holds, SlotChar, PartsOk, Spelled, At, NoLongName, Checksum;
    InPass(v, bh, de, |d.slots|);
    var cks := AliasChecksum(d.slots[bh * d.spb + de]);
    var count;
    a, pos', bh', de', count := ReadSlots(d, v, bh, de, unicode, p);
    nrSlots, n := count, count;
    if a != Result(Parsed) {
      return;
    }
    InPass(v, bh', de', |d.slots|);
    WholeName(v, d.slots, p, n);
    var short := d.slots[pos' - 1];
    if short[0] == DELETED_FLAG {
      a := Result(Invalid);
    } else if Attr(short) == ATTR_EXT {
      AfterFirst(v, p, n);
      a := Again;
    } else if IsFree(short) || IsVolume(short) {
      a := Result(Invalid);
    } else if Checksum(DirName(short)) != cks {
      nrSlots := 0;
    }
  }

  lemma {:induction false} AfterFirst(v: Pass, p: nat, k: nat)
    requires v.spb > 0
    ensures At(v, p, k) >= p + k
  {
    hide NextSlot;
    if k > 0 {
      AfterFirst(v, p, k - 1);
      NextSlotFacts(v, At(v, p, k - 1) + 1);
    }
  }

  /** fat_parse_long. What it returns is a long name that begins at the current slot or, after jumps back, at a later
      one; and one that begins at the current slot is found. */
  method ParseLong(d: Dir, v: Pass, bh: nat, de: nat, unicode: array<Uni>, ghost first: nat)
    returns (res: ParseResult, pos': nat, nrSlots: nat, ghost p: nat, ghost n: nat)
    requires d.Valid() && Covers(v, d.spb, d.blocks) && v.blocks * v.spb <= |d.slots| && d.Held(v, first + 1, bh, de)
    requires unicode.Length > 13 * MAX_LONG_SLOTS
    modifies unicode
    ensures res.Parsed? ==> p >= first && LongName(v, d.slots, p, n) && pos' == At(v, p, n) + 1
    ensures res.Parsed? ==> Spelled(v, d.slots, p, n, unicode[..])
    ensures res.Parsed? ==> nrSlots == SlotsReported(d.slots, p, n, pos' - 1)
    ensures !NoLongName(v, d.slots, first) ==> res.Parsed? && p == first
  {
    hide LongName, Spelled, At, NoLongName;
    p, n := first, 0;
    var bh', de': nat, a := bh, de, Again;
    while true
      invariant d.Held(v, p + 1, bh', de') && bh' >= 0 && p >= first
      invariant p == first || NoLongName(v, d.slots, first)
      decreases v.blocks * v.spb - p
    {
      InPass(v, bh', de', v.blocks * v.spb);
      a, pos', bh', de', nrSlots, n := ParseOnce(d, v, bh', de', unicode, p);
      if a.Result? {
        return a.res, pos', nrSlots, p, n;
      }
      p := pos' - 1;
    }
  }

  // ----- vfat_build_slots -----

  /** The slots of a name of |padded| / 13 rows: the last row first, and its slot flagged. */
  function Built(padded: seq<Uni>, cks: byte): (r: seq<Slot>)
    requires |padded| % 13 == 0 && |padded| <= 13 * MAX_LONG_SLOTS
    ensures |r| == |padded| / 13
  {
    var n := |padded| / 13;
    seq(n, k requires 0 <= k < n => BuiltSlot(padded, n, cks, k))
  }

  function BuiltSlot(padded: seq<Uni>, n: nat, cks: byte, k: nat): Slot
    requires |padded| == 13 * n && k < n <= MAX_LONG_SLOTS
  {
    LongSlot(if k == 0 then n + 64 else n - k, cks, Row(padded, n - 1 - k))
  }

  /** The loop of vfat_build_slots, and the short entry after it. */
  method BuildSlots(uname: seq<Uni>, cks: byte, short: Slot) returns (slots: seq<Slot>)
    requires |uname| % 13 == 0 && 0 < |uname| <= 13 * MAX_LONG_SLOTS
    ensures slots == Built(uname, cks) + [short] && |slots| <= MSDOS_SLOTS
  {
    var n := |uname| / 13;
    slots := [];
    var i := n;
    while i > 0
      invariant 0 <= i <= n && |slots| == n - i
      invariant forall k :: 0 <= k < n - i ==> slots[k] == LongSlot(n - k, cks, Row(uname, n - 1 - k))
    {
      slots := slots + [LongSlot(i, cks, uname[13 * (i - 1)..13 * (i - 1) + 13])];
      i := i - 1;
    }
    FlagByte(n, cks, Row(uname, n - 1));
    slots := slots[0 := slots[0][0 := slots[0][0] + LAST_FLAG]];
    assert slots == Built(uname, cks);
    slots := slots + [short];
  }

  lemma FlagByte(n: byte, cks: byte, cs: seq<Uni>)
    requires |cs| == CHARS_PER_SLOT && n <= MAX_LONG_SLOTS
    ensures LongSlot(n, cks, cs)[0] == n
    ensures LongSlot(n, cks, cs)[0 := n + LAST_FLAG] == LongSlot(n + LAST_FLAG, cks, cs)
  {
    var s, t := LongSlot(n, cks, cs), LongSlot(n + LAST_FLAG, cks, cs);
    forall i | 0 <= i < 32
      ensures s[0 := n + LAST_FLAG][i] == t[i]
    {
    }
  }

  lemma LongSlotChars(id: byte, cks: byte, cs: seq<Uni>)
    requires |cs| == CHARS_PER_SLOT
    ensures Chars(LongSlot(id, cks, cs)) == cs
  {
    forall j | 0 <= j < CHARS_PER_SLOT
      ensures SlotChar(LongSlot(id, cks, cs), j) == cs[j]
    {
      LongSlotFields(id, cks, cs, j);
    }
  }

  /** Consecutive readable slots from p on. */
  lemma {:induction false} AtClean(v: Pass, len: nat, p: nat, k: nat)
    requires v.spb > 0 && Clean(v, len) && p + k <= len
    ensures At(v, p, k) == p + k
  {
    if k > 0 {
      AtClean(v, len, p, k - 1);
      CleanNext(v, seq(len, _ => ZeroSlot()), p + k);
    }
  }

  /** The slots built for a name lie in the directory from p on, with their short entry behind them. */
  ghost predicate StoredAt(slots: seq<Slot>, p: nat, padded: seq<Uni>, cks: byte)
    requires |padded| % 13 == 0 && 0 < |padded| <= 13 * MAX_LONG_SLOTS
  {
    var n := |padded| / 13;
    && p + n < |slots| && slots[p..p + n] == Built(padded, cks)
    && ShortEntry(slots[p + n])
  }

  lemma BuiltPart(padded: seq<Uni>, cks: byte, k: nat)
    requires |padded| % 13 == 0 && |padded| <= 13 * MAX_LONG_SLOTS && k < |padded| / 13
    ensures var s := Built(padded, cks)[k];
            && (Flagged(s) <==> k == 0) && SlotNumber(s) == |padded| / 13 - k && AliasChecksum(s) == cks
            && Attr(s) == ATTR_EXT && Chars(s) == Row(padded, |padded| / 13 - 1 - k)
  {
    hide LongSlot, SlotChar, Row, Chars;
    var n := |padded| / 13;
    var id: byte := if k == 0 then n + 64 else n - k;
    LongSlotFields(id, cks, Row(padded, n - 1 - k), 0);
    LongSlotChars(id, cks, Row(padded, n - 1 - k));
  }

  lemma StoredPart(v: Pass, slots: seq<Slot>, p: nat, padded: seq<Uni>, cks: byte, k: nat)
    requires v.spb > 0 && Clean(v, |slots|) && |padded| % 13 == 0 && 0 < |padded| <= 13 * MAX_LONG_SLOTS
    requires StoredAt(slots, p, padded, cks) && k <= |padded| / 13
    ensures At(v, p, k) == p + k && (p + k) / v.spb < v.blocks
    ensures k < |padded| / 13 ==> slots[p + k] == Built(padded, cks)[k] && PartOk(v, slots, p, |padded| / 13, k)
  {
    hide Built, NextSlot, Flagged, ShortEntry, SlotNumber, At;
    var n := |padded| / 13;
    AtClean(v, |slots|, p, k);
    CleanNext(v, slots, p + k);
    assert slots[p..p + n][0] == slots[p];
    if k < n {
      assert slots[p..p + n][k] == slots[p + k];
      BuiltPart(padded, cks, k);
      BuiltPart(padded, cks, 0);
    }
  }

  /** Built slots that are stored consecutively are a long name of that many slots. */
  lemma StoredIsLongName(v: Pass, slots: seq<Slot>, p: nat, padded: seq<Uni>, cks: byte)
    requires v.spb > 0 && Clean(v, |slots|) && |padded| % 13 == 0 && 0 < |padded| <= 13 * MAX_LONG_SLOTS
    requires StoredAt(slots, p, padded, cks)
    ensures LongName(v, slots, p, |padded| / 13)
    ensures forall m :: LongName(v, slots, p, m) ==> m == |padded| / 13
  {
    hide Built, NextSlot, Flagged, ShortEntry, PartOk, At;
    var n := |padded| / 13;
    forall k | 0 <= k < n
      ensures PartOk(v, slots, p, n, k)
    {
      StoredPart(v, slots, p, padded, cks, k);
    }
    StoredPart(v, slots, p, padded, cks, n);
    StoredPart(v, slots, p, padded, cks, 0);
    BuiltPart(padded, cks, 0);
    forall m | LongName(v, slots, p, m)
      ensures m == n
    {
      SameLength(v, slots, p, m);
    }
  }

  /** A buffer filled from built slots holds the padded name, and a terminator behind it. */
  lemma BuiltSpells(padded: seq<Uni>, cks: byte, buf: seq<Uni>)
    requires |padded| % 13 == 0 && 0 < |padded| <= 13 * MAX_LONG_SLOTS
    requires Holds(Built(padded, cks), |padded| / 13, buf)
    ensures |padded| < |buf| && buf[..|padded|] == padded && buf[|padded|] == 0
  {
    hide Built, Flagged, Chars;
    var n, run := |padded| / 13, Built(padded, cks);
    BuiltPart(padded, cks, 0);
    forall i | 0 <= i < |padded|
      ensures buf[i] == padded[i]
    {
      var m, j := i / 13, i % 13;
      BuiltPart(padded, cks, n - 1 - m);
      if m > 0 {
        BuiltPart(padded, cks, n - m);
      }
      assert Row(buf, m) == RowOf(run, n, m) == Row(padded, m);
      assert Row(buf, m)[j] == buf[13 * m + j] && Row(padded, m)[j] == padded[13 * m + j];
    }
  }

  /** fat_parse_long on the slots of vfat_build_slots: a long name is found where they begin, the buffer holds the
      padded name with a terminator behind it, and all the slots are reported if the alias has its checksum. */
  lemma StoredReadsBack(v: Pass, slots: seq<Slot>, p: nat, padded: seq<Uni>, cks: byte, n: nat, buf: seq<Uni>)
    requires v.spb > 0 && Clean(v, |slots|) && |padded| % 13 == 0 && 0 < |padded| <= 13 * MAX_LONG_SLOTS
    requires StoredAt(slots, p, padded, cks)
    requires LongName(v, slots, p, n) && Spelled(v, slots, p, n, buf)
    ensures n == |padded| / 13 && At(v, p, n) == p + n < |slots|
    ensures |padded| < |buf| && buf[..|padded|] == padded && buf[|padded|] == 0
    ensures Checksum(DirName(slots[p + n])) == cks ==> SlotsReported(slots, p, n, p + n) == n
  {
    hide LongName, Built, Holds, Checksum, NextSlot;
    StoredIsLongName(v, slots, p, padded, cks);
    AtClean(v, |slots|, p, n);
    var run := SlotsOf(v, slots, p, n);
    forall k | 0 <= k < n
      ensures run[k] == Built(padded, cks)[k]
    {
      AtClean(v, |slots|, p, k);
      assert slots[p..p + n][k] == slots[p + k];
    }
    assert run == Built(padded, cks);
    BuiltSpells(padded, cks, buf);
    BuiltPart(padded, cks, 0);
    assert slots[p] == slots[p..p + n][0];
  }
}
