/** Looking a short name up in a directory, and what unique names mean for the alias search. */
module DirScan {
  import opened Arithmetic
  import opened FatDefs
  import opened DirSlots
  import opened Directory
  import opened DirLaws
  import opened LongNames
  import opened ShortNames

  /** strncmp(a, b, n) == 0 */
  predicate SameName(a: seq<byte>, b: seq<byte>, n: nat)
    requires n <= |a| && n <= |b|
  {
    n > 0 ==> a[0] == b[0] && (a[0] == 0 || SameName(a[1..], b[1..], n - 1))
  }

  /** Against a name without zero bytes strncmp compares every byte. */
  lemma {:induction false} SameNameIff(a: seq<byte>, b: seq<byte>)
    requires |a| == |b| && 0 !in b
    ensures SameName(a, b, |a|) <==> a == b
  {
    if a != [] {
      SameNameIff(a[1..], b[1..]);
      assert a == [a[0]] + a[1..] && b == [b[0]] + b[1..];
    }
  }

  /** Slot i is a short entry under that name. */
  predicate Named(slots: seq<Slot>, i: nat, name: seq<byte>) {
    i < |slots| && ShortEntry(slots[i]) && DirName(slots[i]) == name
  }

  ghost predicate Taken(slots: seq<Slot>, name: seq<byte>) {
    exists i :: Named(slots, i, name)
  }

  lemma SkippedUnreadable(v: Pass, p: nat, i: nat)
    requires v.spb > 0 && p <= i < NextSlot(v, p)
    ensures !Reads(v, i)
  {
    NextSlotFacts(v, p);
    QuotientMonotone(v.spb, p, i);
    var b := NextBlock(v, p / v.spb);
    AddressFacts(v.spb, i);
    MulMonotone(b, i / v.spb, v.spb);
  }

  lemma NothingAfter(v: Pass, p: nat, i: nat)
    requires v.spb > 0 && p <= i && p / v.spb >= v.blocks
    ensures !Reads(v, i)
  {
    QuotientMonotone(v.spb, p, i);
  }

  /** What fat_scan can find: a short entry under that name in a slot that can be read. */
  ghost predicate Seen(v: Pass, slots: seq<Slot>, name: seq<byte>)
    requires v.spb > 0
  {
    exists i :: Reads(v, i) && Named(slots, i, name)
  }

  lemma NotSeen(v: Pass, slots: seq<Slot>, name: seq<byte>)
    requires v.spb > 0 && forall i :: 0 <= i < |slots| && Reads(v, i) ==> !Named(slots, i, name)
    ensures !Seen(v, slots, name)
  {
  }

  lemma SeenAt(v: Pass, slots: seq<Slot>, i: nat, name: seq<byte>)
    requires v.spb > 0 && Reads(v, i) && Named(slots, i, name)
    ensures Seen(v, slots, name)
  {
  }

  lemma ReadsNow(v: Pass, p: nat)
    requires v.spb > 0
    ensures NextSlot(v, p) / v.spb < v.blocks ==> Reads(v, NextSlot(v, p))
  {
    NextSlotFacts(v, p);
  }

  /** fat_scan: the first short entry with that name among those that can be read. */
  method Scan(d: Dir, v: Pass, name: seq<byte>) returns (st: Status, slotOff: nat)
    requires d.Valid() && Covers(v, d.spb, d.blocks) && v.blocks * v.spb <= |d.slots|
    requires |name| == MSDOS_NAME && 0 !in name
    ensures st.Ok? <==> Seen(v, d.slots, name)
    ensures st.Ok? ==> Reads(v, slotOff) && Named(d.slots, slotOff, name)
    ensures st.Ok? ==> forall i :: 0 <= i < slotOff && Reads(v, i) ==> !Named(d.slots, i, name)
    ensures st.Err? ==> st == Err(ENOENT) && forall i :: 0 <= i < |d.slots| && Reads(v, i) ==> !Named(d.slots, i, name)
  {
    hide NextSlot, Named, Reads, Seen;
    slotOff := 0;
    var bh, de: nat, more := -1, 0, true;
    ghost var extent := v.blocks * v.spb;
    while true
      invariant d.Held(v, slotOff, bh, de)
      invariant forall i :: 0 <= i < slotOff && Reads(v, i) ==> !Named(d.slots, i, name)
      decreases extent - slotOff
    {
      ghost var p := slotOff;
      NextSlotFacts(v, p);
      more, slotOff, bh, de := d.GetEntry(v, slotOff, bh, de);
      forall i | p <= i < NextSlot(v, p)
        ensures !Reads(v, i)
      {
        SkippedUnreadable(v, p, i);
      }
      if !more {
        forall i | NextSlot(v, p) <= i < |d.slots|
          ensures !Reads(v, i)
        {
          NothingAfter(v, NextSlot(v, p), i);
        }
        NotSeen(v, d.slots, name);
        return Err(ENOENT), 0;
      }
      InPass(v, bh, de, extent);
      var s := d.slots[slotOff - 1];
      SameNameIff(DirName(s), name);
      NamedNow(d.slots, slotOff - 1, name);
      ReadsNow(v, p);
      if ShortEntry(s) && SameName(DirName(s), name, MSDOS_NAME) {
        SeenAt(v, d.slots, slotOff - 1, name);
        return Ok, slotOff - 1;
      }
    }
  }

  lemma NamedNow(slots: seq<Slot>, i: nat, name: seq<byte>)
    requires i < |slots|
    ensures Named(slots, i, name) <==> ShortEntry(slots[i]) && DirName(slots[i]) == name
  {
  }

  /** In a readable directory fat_scan tells exactly whether a name is taken. */
  lemma ScanTells(v: Pass, slots: seq<Slot>, name: seq<byte>)
    requires v.spb > 0 && Clean(v, |slots|)
    ensures (forall i :: 0 <= i < |slots| && Reads(v, i) ==> !Named(slots, i, name)) <==> !Taken(slots, name)
  {
    forall i: nat | i < |slots|
      ensures Reads(v, i)
    {
      CleanNext(v, slots, i);
    }
  }

  // ----- names stay unique -----

  /** No two short entries have the same name. */
  ghost predicate NamesUnique(slots: seq<Slot>) {
    forall i, j, name :: Named(slots, i, name) && Named(slots, j, name) ==> i == j
  }

  /** Whatever can be read, adding long name slots and a short entry whose name is not taken keeps the names unique. */
  lemma AddKeepsUnique(v: Pass, was: seq<Slot>, now: seq<Slot>, es: seq<Slot>, slotOff: int, last: nat, perCluster: nat)
    requires v.spb > 0 && v.blocks * v.spb <= |was| && es != [] && perCluster > 0
    requires Added(Start(v, was, |es|), was, now, es, slotOff, last, perCluster)
    requires NamesUnique(was) && forall k :: 0 <= k < |es| - 1 ==> IsVolume(es[k])
    requires !Taken(was, DirName(es[|es| - 1]))
    ensures NamesUnique(now)
    ensures ShortEntry(es[|es| - 1]) ==> Named(now, last, DirName(es[|es| - 1]))
  {
    hide FindRun, NextSlot;
    var run := Occupied(Start(v, was, |es|), was, |es|);
    var all := was + Zeros(|now| - |was|);
    assert now[run[|es| - 1]] == es[|es| - 1];
    forall i: nat, name | Named(now, i, name)
      ensures i == last || Named(was, i, name)
    {
      if i in run {
        var k :| 0 <= k < |run| && run[k] == i;
        assert now[i] == es[k];
      } else {
        assert now[i] == all[i];
      }
    }
  }

  /** The name of an added short entry is the only one of its kind if and only if no entry had it. */
  lemma AddUniqueIff(v: Pass, was: seq<Slot>, now: seq<Slot>, es: seq<Slot>, slotOff: int, last: nat, perCluster: nat)
    requires v.spb > 0 && v.blocks * v.spb <= |was| && es != [] && perCluster > 0
    requires Added(Start(v, was, |es|), was, now, es, slotOff, last, perCluster)
    requires NamesUnique(was) && forall k :: 0 <= k < |es| - 1 ==> IsVolume(es[k])
    requires ShortEntry(es[|es| - 1])
    ensures NamesUnique(now) <==> !Taken(was, DirName(es[|es| - 1]))
  {
    hide Added, FindRun, NextSlot;
    var name := DirName(es[|es| - 1]);
    if !Taken(was, name) {
      AddKeepsUnique(v, was, now, es, slotOff, last, perCluster);
    } else {
      var i: nat :| Named(was, i, name);
      AddKeepsInUse(v, was, now, es, slotOff, last, perCluster);
      LastPlaced(v, was, now, es, slotOff, last, perCluster);
      assert Named(now, i, name) && Named(now, last, name) && i != last;
    }
  }

  lemma LastPlaced(v: Pass, was: seq<Slot>, now: seq<Slot>, es: seq<Slot>, slotOff: int, last: nat, perCluster: nat)
    requires v.spb > 0 && v.blocks * v.spb <= |was| && es != [] && perCluster > 0
    requires Added(Start(v, was, |es|), was, now, es, slotOff, last, perCluster)
    ensures last < |now| && now[last] == es[|es| - 1] && (last < |was| ==> IsFree(was[last]))
  {
    hide FindRun, RunOk, IsFree;
    StartOk(v, was, |es|);
    var f := Start(v, was, |es|);
    if |f.run| == |es| {
      RunInside(v, was, f.run, f.next, |es| - 1);
    }
    assert now[Occupied(f, was, |es|)[|es| - 1]] == es[|es| - 1];
  }

  /** Where fat_scan has not found the name the entry is the only one under it if and only if no slot that could not be
      read has it. */
  lemma UnseenUniqueIff(v: Pass, scan: Pass, was: seq<Slot>, now: seq<Slot>, es: seq<Slot>, slotOff: int, last: nat,
      perCluster: nat)
    requires v.spb > 0 && v.blocks * v.spb <= |was| && es != [] && perCluster > 0 && scan.spb > 0
    requires Added(Start(v, was, |es|), was, now, es, slotOff, last, perCluster)
    requires NamesUnique(was) && forall k :: 0 <= k < |es| - 1 ==> IsVolume(es[k])
    requires ShortEntry(es[|es| - 1]) && !Seen(scan, was, DirName(es[|es| - 1]))
    ensures NamesUnique(now) <==>
              forall i :: 0 <= i < |was| && !Reads(scan, i) ==> !Named(was, i, DirName(es[|es| - 1]))
  {
    hide Added, FindRun, NextSlot, Reads;
    AddUniqueIff(v, was, now, es, slotOff, last, perCluster);
  }
}
