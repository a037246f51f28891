/** When the search for an alias ends, and when its outcome is the only one of its name in the directory. */
module AliasLaws {
  import opened Arithmetic
  import opened FatDefs
  import opened DirSlots
  import opened Directory
  import opened DirLaws
  import opened LongNames
  import opened ShortNames
  import opened AliasNames
  import opened DirScan

  /** What is said to be taken is in the directory; some of it may go unseen, as it does by fat_scan. */
  ghost predicate Truthful(taken: seq<byte> -> bool, slots: seq<Slot>) {
    forall name :: taken(name) ==> Taken(slots, name)
  }

  /** taken answers as fat_scan does in a pass over the directory. */
  ghost predicate Answers(taken: seq<byte> -> bool, scan: Pass, slots: seq<Slot>)
    requires scan.spb > 0
  {
    forall name :: taken(name) <==> Seen(scan, slots, name)
  }

  lemma NamedInside(slots: seq<Slot>, i: nat, name: seq<byte>)
    requires Named(slots, i, name)
    ensures i < |slots| && DirName(slots[i]) == name && ShortEntry(slots[i])
  {
  }

  // ----- a directory in which the search does not end -----

  /** A short entry under that name, all else in it zero. */
  function Entry(name: seq<byte>): (s: Slot)
    requires |name| == MSDOS_NAME
  {
    name + seq(21, _ => 0)
  }

  lemma EntryNamed(slots: seq<Slot>, i: nat, name: seq<byte>)
    requires Usable(name) && i < |slots| && slots[i] == Entry(name)
    ensures forall other :: Named(slots, i, other) <==> other == name
  {
    assert DirName(slots[i]) == name && slots[i][0] == name[0] && Attr(slots[i]) == 0;
  }

  /** An entry under every name tried. */
  function Blocked(nls: DiskCharset, base: seq<Uni>, ext: seq<Uni>, jiffies: int): (r: seq<Slot>)
    ensures |r| == TAILS
    ensures forall i :: 0 <= i < TAILS ==> r[i] == Entry(Tried(nls, base, ext, jiffies, i))
  {
    seq(TAILS, i requires 0 <= i < TAILS => Entry(Tried(nls, base, ext, jiffies, i)))
  }

  /** For every name not of 8.3 form that is to get a tail there is a directory in which vfat_create_shortname does not
      return. No name is in it twice unless the short tail of the clock makes one of the long ones. */
  lemma BlockedNeverReturns(nls: DiskCharset, base: seq<Uni>, ext: seq<Uni>, taken: seq<byte> -> bool, winnt: bool,
      jiffies: int, r: Alias, name: seq<byte>, lower: (bool, bool))
    requires Sane(nls) && Flat(nls, base) != [] && !ShortForm(nls, base, ext)
    requires forall n :: taken(n) <==> Taken(Blocked(nls, base, ext, jiffies), n)
    requires AliasOf(nls, base, ext, taken, winnt, true, jiffies, r, name, lower)
    ensures r == NeverReturns
    ensures |Fitting(nls, base, 6)| != |Fitting(nls, base, 2)| + 4 ==> NamesUnique(Blocked(nls, base, ext, jiffies))
  {
    hide AliasOf, Named, Flat, Fitting, ShortForm, Sane, Tried, Entry, NamesUnique;
    var slots := Blocked(nls, base, ext, jiffies);
    forall i | 0 <= i < TAILS
      ensures taken(Tried(nls, base, ext, jiffies, i))
    {
      TriedUsable(nls, base, ext, jiffies, i);
      EntryNamed(slots, i, Tried(nls, base, ext, jiffies, i));
      assert Named(slots, i, Tried(nls, base, ext, jiffies, i));
    }
    NeverReturnsIff(nls, base, ext, taken, winnt, true, jiffies, r, name, lower);
    if |Fitting(nls, base, 6)| != |Fitting(nls, base, 2)| + 4 {
      BlockedUnique(nls, base, ext, jiffies);
    }
  }

  lemma BlockedUnique(nls: DiskCharset, base: seq<Uni>, ext: seq<Uni>, jiffies: int)
    requires Sane(nls) && Flat(nls, base) != [] && |Fitting(nls, base, 6)| != |Fitting(nls, base, 2)| + 4
    ensures NamesUnique(Blocked(nls, base, ext, jiffies))
  {
    hide Named, Flat, Fitting, Sane, Tried, Entry;
    var slots := Blocked(nls, base, ext, jiffies);
    forall i: nat, j: nat, name | Named(slots, i, name) && Named(slots, j, name)
      ensures i == j
    {
      NamedInside(slots, i, name);
      NamedInside(slots, j, name);
      TriedUsable(nls, base, ext, jiffies, i);
      TriedUsable(nls, base, ext, jiffies, j);
      EntryNamed(slots, i, Tried(nls, base, ext, jiffies, i));
      EntryNamed(slots, j, Tried(nls, base, ext, jiffies, j));
      if i != j {
        TriedDistinct(nls, base, ext, jiffies, if i < j then i else j, if i < j then j else i);
      }
    }
  }

  /** A plus sign alone is such a name. */
  lemma PlusSignNeverReturns(taken: seq<byte> -> bool, winnt: bool, jiffies: int, r: Alias, name: seq<byte>,
      lower: (bool, bool))
    requires forall n :: taken(n) <==> Taken(Blocked(WideCharset(), [0x2B], [], jiffies), n)
    requires AliasOf(WideCharset(), [0x2B], [], taken, winnt, true, jiffies, r, name, lower)
    ensures r == NeverReturns && NamesUnique(Blocked(WideCharset(), [0x2B], [], jiffies))
  {
    hide AliasOf, Named, NamesUnique, Fitting;
    var nls, base: seq<Uni> := WideCharset(), [0x2B];
    WideBytes();
    assert base == [] + base && base[..0] == [];
    FlatEmpty(nls);
    FlatMore(nls, [], 0x2B);
    assert Flat(nls, base) == [UNDERSCORE];
    assert !Stays(nls, base[0]);
    CutPositions(nls, base);
    BlockedNeverReturns(nls, base, [], taken, winnt, jiffies, r, name, lower);
  }

  // ----- what it takes -----

  ghost function SlotNamed(slots: seq<Slot>, name: seq<byte>): (i: nat)
    requires Taken(slots, name)
    ensures Named(slots, i, name)
  {
    var i :| Named(slots, i, name);
    i
  }

  /** If every four-digit tail is taken the directory has at least 65536 slots. */
  lemma AllTailsNeedSlots(slots: seq<Slot>, stem: seq<byte>, at: nat)
    requires at + 4 <= |stem|
    requires forall t: nat :: t < 0x1_0000 ==> Taken(slots, Put(stem, at, Hex4(t)))
    ensures |slots| >= 0x1_0000
  {
    hide Named, Hex4, Put;
    var xs: seq<nat> :=
      seq(0x1_0000, t requires 0 <= t < 0x1_0000 => SlotNamed(slots, Put(stem, at, Hex4(t))));
    forall i | 0 <= i < |xs|
      ensures xs[i] < |slots|
    {
      NamedInside(slots, xs[i], Put(stem, at, Hex4(i)));
    }
    forall i, j | 0 <= i < j < |xs|
      ensures xs[i] != xs[j]
    {
      if xs[i] == xs[j] {
        NamedInside(slots, xs[i], Put(stem, at, Hex4(i)));
        NamedInside(slots, xs[j], Put(stem, at, Hex4(j)));
        TailsDistinct(stem, at, i, j);
      }
    }
    DistinctBelow(xs, |slots|);
  }

  /** The names tried but for the short tail of the clock. */
  function Other(jiffies: int, i: nat): (j: nat)
    requires i < TAILS - 1
    ensures j < TAILS && j != 0x1_0000 + jiffies / 0x1_0000 % 8
  {
    if i < 0x1_0000 + jiffies / 0x1_0000 % 8 then i else i + 1
  }

  ghost predicate Distinct(xs: seq<nat>) {
    forall i, j :: 0 <= i < j < |xs| ==> xs[i] != xs[j]
  }

  /** Not returning takes as many short entries as there are names tried, less one. */
  lemma EntriesNeeded(slots: seq<Slot>, nls: DiskCharset, base: seq<Uni>, ext: seq<Uni>, taken: seq<byte> -> bool,
      winnt: bool, numtail: bool, jiffies: int, name: seq<byte>, lower: (bool, bool)) returns (xs: seq<nat>)
    requires Truthful(taken, slots)
    requires AliasOf(nls, base, ext, taken, winnt, numtail, jiffies, NeverReturns, name, lower)
    ensures |xs| == TAILS - 1 && Distinct(xs) && |slots| >= TAILS - 1
    ensures forall i :: 0 <= i < |xs| ==> xs[i] < |slots| && ShortEntry(slots[xs[i]])
  {
    hide AliasOf, Named, Flat, Fitting, ShortForm, Tried, Taken;
    NeverReturnsIff(nls, base, ext, taken, winnt, numtail, jiffies, NeverReturns, name, lower);
    xs := seq(TAILS - 1, i requires 0 <= i < TAILS - 1 =>
              SlotNamed(slots, Tried(nls, base, ext, jiffies, Other(jiffies, i))));
    forall i | 0 <= i < |xs|
      ensures xs[i] < |slots| && ShortEntry(slots[xs[i]])
      ensures DirName(slots[xs[i]]) == Tried(nls, base, ext, jiffies, Other(jiffies, i))
    {
      NamedInside(slots, xs[i], Tried(nls, base, ext, jiffies, Other(jiffies, i)));
    }
    forall i, j | 0 <= i < j < |xs|
      ensures xs[i] != xs[j]
    {
      if xs[i] == xs[j] {
        TriedDistinct(nls, base, ext, jiffies, Other(jiffies, i), Other(jiffies, j));
      }
    }
    DistinctBelow(xs, |slots|);
  }

  // ----- directories that the driver has filled -----

  /** The search of fat_add_entries reuses slots below 65535 only. In a readable directory of 65536 slots or more it
      finds room or gives up: new clusters are not added there. */
  lemma {:induction false} ReusedBelow(v: Pass, slots: seq<Slot>, n: nat, p: nat, run: seq<nat>)
    requires v.spb > 0 && v.blocks * v.spb <= |slots| && |run| < n
    requires forall k :: 0 <= k < |run| ==> run[k] < MAX_DIR_SLOTS - 1
    ensures var f := FindRun(v, slots, n, p, run);
            && (f.Run? ==> forall k :: 0 <= k < |f.run| ==> f.run[k] < MAX_DIR_SLOTS - 1)
            && (f.Run? && Clean(v, |slots|) && p < MAX_DIR_SLOTS <= |slots| ==> |f.run| == n)
    decreases v.blocks * v.spb - p
  {
    hide IsFree, NextSlot;
    FindRunStep(v, slots, n, p, run);
    NextSlotFacts(v, p);
    var q := NextSlot(v, p);
    if Clean(v, |slots|) && p <= |slots| {
      CleanNext(v, slots, p);
    }
    if q / v.spb < v.blocks {
      InDirectory(v, q, v.blocks * v.spb);
      if q + 1 < MAX_DIR_SLOTS {
        if !IsFree(slots[q]) {
          ReusedBelow(v, slots, n, q + 1, []);
        } else if |run| + 1 < n {
          ReusedBelow(v, slots, n, q + 1, run + [q]);
        }
      }
    }
  }

  /** Of the slots that are never reused at most one is a short entry. */
  ghost predicate Few(slots: seq<Slot>) {
    forall i, j :: MAX_DIR_SLOTS - 1 <= i < j < |slots| ==> !ShortEntry(slots[i]) || !ShortEntry(slots[j])
  }

  /** An entry of long name slots and one last slot is added, some slots are removed, or an addition fails. Additions
      read the whole directory. */
  ghost predicate DirStep(was: seq<Slot>, now: seq<Slot>) {
    || (exists xs :: OnlyRemoved(was, now, xs))
    || (exists v: Pass, es: seq<Slot>, slotOff: int, last: nat, perCluster: nat ::
        AddedWhole(v, was, now, es, slotOff, last, perCluster))
    || (exists v: Pass, undo: Pass, mid: seq<Slot>, es: seq<Slot>, cleared: Status ::
        FailedWhole(v, undo, was, mid, now, es, cleared))
  }

  ghost predicate AddedWhole(v: Pass, was: seq<Slot>, now: seq<Slot>, es: seq<Slot>, slotOff: int, last: nat,
      perCluster: nat) {
    && v.spb > 0 && Clean(v, |was|) && es != [] && perCluster > 0 && (forall k :: 0 <= k < |es| - 1 ==> IsVolume(es[k]))
    && Added(Start(v, was, |es|), was, now, es, slotOff, last, perCluster)
  }

  ghost predicate FailedWhole(v: Pass, undo: Pass, was: seq<Slot>, mid: seq<Slot>, now: seq<Slot>, es: seq<Slot>,
      cleared: Status) {
    && v.spb > 0 && Clean(v, |was|) && undo.spb > 0 && es != []
    && Undone(Start(v, was, |es|), undo, was, mid, now, es, cleared)
  }

  lemma RemovedFew(was: seq<Slot>, now: seq<Slot>, xs: seq<nat>)
    requires Few(was) && OnlyRemoved(was, now, xs)
    ensures Few(now)
  {
    forall i | 0 <= i < |now| && ShortEntry(now[i])
      ensures now[i] == was[i]
    {
    }
  }

  lemma RunBelow(v: Pass, was: seq<Slot>, n: nat)
    requires v.spb > 0 && Clean(v, |was|) && n > 0
    ensures var f := Start(v, was, n);
            && (f.Run? ==> forall k :: 0 <= k < |f.run| ==> f.run[k] < MAX_DIR_SLOTS - 1)
            && (f.Run? && MAX_DIR_SLOTS <= |was| ==> |f.run| == n)
  {
    ReusedBelow(v, was, n, 0, []);
  }

  lemma AddedFew(v: Pass, was: seq<Slot>, now: seq<Slot>, es: seq<Slot>, slotOff: int, last: nat, perCluster: nat)
    requires Few(was) && AddedWhole(v, was, now, es, slotOff, last, perCluster)
    ensures Few(now)
  {
    hide FindRun, IsFree;
    RunBelow(v, was, |es|);
    var run := Occupied(Start(v, was, |es|), was, |es|);
    var all := was + Zeros(|now| - |was|);
    forall i | MAX_DIR_SLOTS - 1 <= i < |now| && ShortEntry(now[i])
      ensures if |was| < MAX_DIR_SLOTS then i == last else i < |was| && now[i] == was[i]
    {
      ZeroFree();
      if i in run {
        var k :| 0 <= k < |run| && run[k] == i;
        assert now[i] == es[k];
      } else {
        assert now[i] == all[i];
      }
    }
  }

  lemma ZeroFree()
    ensures IsFree(ZeroSlot())
  {
  }

  lemma FailedFew(v: Pass, undo: Pass, was: seq<Slot>, mid: seq<Slot>, now: seq<Slot>, es: seq<Slot>, cleared: Status)
    requires Few(was) && FailedWhole(v, undo, was, mid, now, es, cleared)
    ensures Few(now)
  {
    hide FindRun, Steps;
    RunBelow(v, was, |es|);
    var f := Start(v, was, |es|);
    if now != was {
      forall i | MAX_DIR_SLOTS - 1 <= i < |now| && ShortEntry(now[i])
        ensures now[i] == was[i]
      {
        assert forall given :: 0 <= given <= |f.run| ==> i !in f.run[..given];
      }
    }
  }

  lemma StepFew(was: seq<Slot>, now: seq<Slot>)
    requires Few(was) && DirStep(was, now)
    ensures Few(now)
  {
    hide Few, OnlyRemoved, AddedWhole, FailedWhole;
    if xs :| OnlyRemoved(was, now, xs) {
      RemovedFew(was, now, xs);
    } else if v: Pass, es: seq<Slot>, slotOff: int, last: nat, perCluster: nat :|
        AddedWhole(v, was, now, es, slotOff, last, perCluster) {
      AddedFew(v, was, now, es, slotOff, last, perCluster);
    } else if v: Pass, undo: Pass, mid: seq<Slot>, es: seq<Slot>, cleared: Status :|
        FailedWhole(v, undo, was, mid, now, es, cleared) {
      FailedFew(v, undo, was, mid, now, es, cleared);
    }
  }

  /** So few entries do not block the search. */
  lemma FewReturns(slots: seq<Slot>, nls: DiskCharset, base: seq<Uni>, ext: seq<Uni>, taken: seq<byte> -> bool,
      winnt: bool, numtail: bool, jiffies: int, r: Alias, name: seq<byte>, lower: (bool, bool))
    requires Few(slots) && Truthful(taken, slots)
    requires AliasOf(nls, base, ext, taken, winnt, numtail, jiffies, r, name, lower)
    ensures r != NeverReturns
  {
    hide AliasOf, Truthful, Flat, Fitting, ShortForm, Tried, ShortEntry;
    if r == NeverReturns {
      var xs := EntriesNeeded(slots, nls, base, ext, taken, winnt, numtail, jiffies, name, lower);
      TooMany(slots, xs);
    }
  }

  lemma TooMany(slots: seq<Slot>, xs: seq<nat>)
    requires Few(slots) && Distinct(xs) && forall i :: 0 <= i < |xs| ==> xs[i] < |slots| && ShortEntry(slots[xs[i]])
    ensures |xs| <= MAX_DIR_SLOTS
  {
    hide ShortEntry;
    if far :| 0 <= far < |xs| && xs[far] >= MAX_DIR_SLOTS - 1 {
      var ys := xs[..far] + xs[far + 1..];
      forall i | 0 <= i < |ys|
        ensures ys[i] == xs[if i < far then i else i + 1] && ys[i] < MAX_DIR_SLOTS - 1
      {
        var l := if i < far then i else i + 1;
        assert ys[i] == xs[l] && xs[l] != xs[far];
      }
      forall i, j | 0 <= i < j < |ys|
        ensures ys[i] != ys[j]
      {
        assert xs[if i < far then i else i + 1] != xs[if j < far then j else j + 1];
      }
      DistinctBelow(ys, MAX_DIR_SLOTS - 1);
    } else {
      DistinctBelow(xs, MAX_DIR_SLOTS - 1);
    }
  }

  lemma {:induction false} RunFew(run: seq<seq<Slot>>, i: nat)
    requires i < |run| && |run[0]| < MAX_DIR_SLOTS
    requires forall j :: 0 <= j < |run| - 1 ==> DirStep(run[j], run[j + 1])
    ensures Few(run[i])
  {
    hide DirStep, ShortEntry;
    if i > 0 {
      RunFew(run, i - 1);
      assert DirStep(run[i - 1], run[i - 1 + 1]);
      StepFew(run[i - 1], run[i]);
    }
  }

  /** In a directory that began with fewer than 65536 slots and was changed by steps that could read it whole, the
      search for an alias ends, for every name. */
  lemma SearchEnds(run: seq<seq<Slot>>, i: nat, nls: DiskCharset, base: seq<Uni>, ext: seq<Uni>,
      taken: seq<byte> -> bool, winnt: bool, numtail: bool, jiffies: int, r: Alias, name: seq<byte>,
      lower: (bool, bool))
    requires i < |run| && |run[0]| < MAX_DIR_SLOTS
    requires forall j :: 0 <= j < |run| - 1 ==> DirStep(run[j], run[j + 1])
    requires Truthful(taken, run[i]) && AliasOf(nls, base, ext, taken, winnt, numtail, jiffies, r, name, lower)
    ensures r != NeverReturns
  {
    hide AliasOf, Truthful, DirStep, Few;
    RunFew(run, i);
    FewReturns(run[i], nls, base, ext, taken, winnt, numtail, jiffies, r, name, lower);
  }

  // ----- is the name the only one? -----

  /** An alias that fat_scan did not find is added. No other entry has it if and only if no slot that fat_scan could not
      read has it. */
  lemma CreatedUniqueIff(scan: Pass, taken: seq<byte> -> bool, nls: DiskCharset, base: seq<Uni>, ext: seq<Uni>,
      winnt: bool, numtail: bool, jiffies: int, r: Alias, name: seq<byte>, lower: (bool, bool), v: Pass,
      was: seq<Slot>, now: seq<Slot>, es: seq<Slot>, slotOff: int, last: nat, perCluster: nat)
    requires scan.spb > 0 && Answers(taken, scan, was)
    requires AliasOf(nls, base, ext, taken, winnt, numtail, jiffies, r, name, lower) && r.Made?
    requires v.spb > 0 && v.blocks * v.spb <= |was| && es != [] && perCluster > 0
    requires Added(Start(v, was, |es|), was, now, es, slotOff, last, perCluster)
    requires NamesUnique(was) && forall k :: 0 <= k < |es| - 1 ==> IsVolume(es[k])
    requires ShortEntry(es[|es| - 1]) && DirName(es[|es| - 1]) == name
    ensures NamesUnique(now) <==> forall i :: 0 <= i < |was| && !Reads(scan, i) ==> !Named(was, i, name)
  {
    hide AliasOf, Added, FindRun, Reads, Named, Seen, NamesUnique, ShortEntry;
    MadeFree(nls, base, ext, taken, winnt, numtail, jiffies, r, name, lower);
    UnseenUniqueIff(v, scan, was, now, es, slotOff, last, perCluster);
  }

  /** The letter A as an eleven-byte name. */
  function LetterName(): (r: seq<byte>)
    ensures |r| == MSDOS_NAME
  {
    [0x41] + seq(10, _ => SPACE)
  }

  /** Two 16-slot blocks, empty but for an entry under that name in the first slot of the second. */
  function Hidden(): (r: seq<Slot>)
    ensures |r| == 32 && forall i :: 0 <= i < 32 ==> r[i] == if i == 16 then Entry(LetterName()) else ZeroSlot()
  {
    Zeros(16) + [Entry(LetterName())] + Zeros(15)
  }

  lemma HiddenNames(scan: Pass)
    requires scan == Pass(16, 2, {1})
    ensures forall i, name :: Named(Hidden(), i, name) <==> i == 16 && name == LetterName()
    ensures NamesUnique(Hidden()) && !Seen(scan, Hidden(), LetterName()) && !Reads(scan, 16) && Usable(LetterName())
  {
    hide Entry;
    EntryNamed(Hidden(), 16, LetterName());
    ZeroFree();
  }

  lemma LetterBytes()
    ensures Sane(WideCharset()) && Flat(WideCharset(), [0x41]) == [0x41] && Flat(WideCharset(), []) == []
    ensures Fitting(WideCharset(), [], 3) == []
  {
    hide Flat, ShortChar, Fitting, WideCharset;
    var nls, base: seq<Uni> := WideCharset(), [0x41];
    WideBytes();
    FlatEmpty(nls);
    FlatMore(nls, [], 0x41);
    assert [] + base == base;
  }

  lemma LetterShortForm()
    ensures Flat(WideCharset(), [0x41]) != [] && ShortForm(WideCharset(), [0x41], [])
    ensures PlainName(WideCharset(), [0x41], []) == LetterName()
  {
    hide Flat, Fitting;
    var base: seq<Uni> := [0x41];
    LetterBytes();
    assert base[..0] == [];
    assert Stays(WideCharset(), base[0]);
    assert PlainName(WideCharset(), base, []) == Formatted([0x41], []);
  }

  /** With the second block unreadable, a file named A gets the alias that the entry in it has: then two have it. */
  lemma UnseenDuplicate(taken: seq<byte> -> bool, winnt: bool, numtail: bool, jiffies: int, r: Alias, name: seq<byte>,
      lower: (bool, bool), now: seq<Slot>, slotOff: int, last: nat, perCluster: nat)
    requires Answers(taken, Pass(16, 2, {1}), Hidden()) && perCluster > 0
    requires AliasOf(WideCharset(), [0x41], [], taken, winnt, numtail, jiffies, r, name, lower)
    requires Added(Start(Pass(16, 2, {1}), Hidden(), 1), Hidden(), now, [Entry(LetterName())], slotOff, last,
                   perCluster)
    ensures r.Made? && name == LetterName() && NamesUnique(Hidden()) && !NamesUnique(now)
  {
    hide Added, FindRun, Reads, Named, Seen, NamesUnique, ShortEntry, ShortForm, Flat, PlainName, Hidden, Searched;
    var scan, es := Pass(16, 2, {1}), [Entry(LetterName())];
    HiddenNames(scan);
    LetterShortForm();
    EntryNamed(es, 0, LetterName());
    NamedInside(es, 0, LetterName());
    CreatedUniqueIff(scan, taken, WideCharset(), [0x41], [], winnt, numtail, jiffies, r, name, lower, scan, Hidden(),
                     now, es, slotOff, last, perCluster);
    assert Named(Hidden(), 16, name);
  }
}
