/** What adding and removing directory entries guarantee, and the one case in which they do not. */
module DirLaws {
  import opened Arithmetic
  import opened FatDefs
  import opened DirSlots
  import opened Directory

  function Start(v: Pass, was: seq<Slot>, n: nat): Search
    requires v.spb > 0 && v.blocks * v.spb <= |was|
  {
    FindRun(v, was, n, 0, [])
  }

  /** The search ended with a run of free slots in the order of the directory. */
  lemma StartOk(v: Pass, was: seq<Slot>, n: nat)
    requires v.spb > 0 && v.blocks * v.spb <= |was| && n > 0
    ensures var f := Start(v, was, n);
            f.Run? ==> RunOk(v, was, f.run, f.next) && |f.run| <= n && |f.run| <= f.next
                       && (|f.run| == n ==> f.next == f.run[n - 1] + 1)
  {
    hide FindRun, RunOk;
    NoRun(v, was, 0);
    FindRunOk(v, was, n, 0, []);
    var f := Start(v, was, n);
    if f.Run? {
      RunCounts(v, was, f.run, f.next);
    }
  }

  /** Whatever could be read: adding an entry changes no slot in use, and the new clusters hold zeros after it. */
  lemma AddKeepsInUse(v: Pass, was: seq<Slot>, now: seq<Slot>, es: seq<Slot>, slotOff: int, last: nat, perCluster: nat)
    requires v.spb > 0 && v.blocks * v.spb <= |was| && es != [] && perCluster > 0
    requires Added(Start(v, was, |es|), was, now, es, slotOff, last, perCluster)
    ensures |was| <= |now|
    ensures forall i :: 0 <= i < |was| && !IsFree(was[i]) ==> now[i] == was[i]
    ensures forall i :: |was| + (|es| - |Start(v, was, |es|).run|) <= i < |now| ==> now[i] == ZeroSlot()
  {
    hide FindRun, RunOk, IsFree;
    StartOk(v, was, |es|);
    var f := Start(v, was, |es|);
    var run := Occupied(f, was, |es|);
    forall i | 0 <= i < |was| && !IsFree(was[i])
      ensures i !in run
    {
      forall k | 0 <= k < |f.run|
        ensures f.run[k] != i
      {
        RunInside(v, was, f.run, f.next, k);
      }
    }
    forall k | 0 <= k < |f.run|
      ensures f.run[k] < |was|
    {
      RunInside(v, was, f.run, f.next, k);
    }
    ClustersCover(|es| - |f.run|, perCluster);
  }

  lemma ClustersCover(n: nat, perCluster: nat)
    requires perCluster > 0
    ensures n <= Clusters(n, perCluster) * perCluster
  {
    AddressFacts(perCluster, n + perCluster - 1);
  }

  /** The entries are consecutive from slotOff on if and only if the search skipped no unreadable block inside the run,
      and, when new clusters were needed, it had reached the end of the directory. */
  lemma AddContiguousIff(v: Pass, was: seq<Slot>, now: seq<Slot>, es: seq<Slot>, slotOff: int, last: nat,
      perCluster: nat)
    requires v.spb > 0 && v.blocks * v.spb <= |was| && es != [] && perCluster > 0
    requires Added(Start(v, was, |es|), was, now, es, slotOff, last, perCluster)
    ensures var f := Start(v, was, |es|);
            Contiguous(Occupied(f, was, |es|), slotOff)
            <==> (f.run != [] ==> NoGap(v, f.run[0], f.next)) && (|f.run| < |es| ==> f.next == |was|)
  {
    hide FindRun, RunOk, NoGap, Placed;
    StartOk(v, was, |es|);
    var f := Start(v, was, |es|);
    var run := Occupied(f, was, |es|);
    if f.run != [] {
      ContiguousIff(v, was, f.run, f.next);
    }
    if Contiguous(run, slotOff) {
      assert forall k :: 0 <= k < |f.run| ==> run[k] == f.run[k];
      assert |f.run| < |es| ==> run[|f.run|] == |was|;
    }
  }

  /** In a directory that can be read whole, the entries are consecutive, in the first place with room for them. */
  lemma AddFirstFit(v: Pass, was: seq<Slot>, now: seq<Slot>, es: seq<Slot>, slotOff: int, last: nat, perCluster: nat)
    requires v.spb > 0 && Clean(v, |was|) && es != [] && perCluster > 0
    requires Added(Start(v, was, |es|), was, now, es, slotOff, last, perCluster)
    ensures 0 <= slotOff && slotOff + |es| <= |now| && now[slotOff..slotOff + |es|] == es && last == slotOff + |es| - 1
    ensures forall i :: 0 <= i < |was| && !(slotOff <= i < slotOff + |es|) ==> now[i] == was[i]
    ensures forall i :: slotOff <= i < slotOff + |es| && i < |was| ==> IsFree(was[i])
    ensures forall q: nat :: q < slotOff ==> !Window(was, q, |es|)
    ensures slotOff + |es| <= |was| ==> |now| == |was|
  {
    hide FindRun, RunOk, IsFree, NoWindow, Tail, Window, Clusters;
    var n, f := |es|, Start(v, was, |es|);
    FirstFitRun(v, was, n);
    var run := Occupied(f, was, n);
    forall k | 0 <= k < n
      ensures run[k] == slotOff + k
    {
    }
    RunReach(v, was, now, es, slotOff, last, perCluster);
    forall k | 0 <= k < n
      ensures now[slotOff + k] == es[k]
    {
      assert run[k] == slotOff + k;
    }
    FirstPlace(was, n, f.run, f.next);
    forall i | slotOff <= i < slotOff + |es| && i < |was|
      ensures IsFree(was[i])
    {
      StartOk(v, was, n);
      RunInside(v, was, f.run, f.next, i - slotOff);
    }
  }

  lemma FirstFitRun(v: Pass, was: seq<Slot>, n: nat)
    requires v.spb > 0 && Clean(v, |was|) && n > 0
    ensures var f := Start(v, was, n);
            f.Run? ==> FoundFirst(was, n, f.run, f.next)
  {
    hide FindRun;
    EmptyTail(was, n);
    FirstFit(v, was, n, 0, []);
  }

  /** Nothing before the place found has room for n slots. */
  lemma FirstPlace(was: seq<Slot>, n: nat, run: seq<nat>, next: nat)
    requires n > 0 && FoundFirst(was, n, run, next)
    ensures forall q: nat :: q < next - |run| ==> !Window(was, q, n)
  {
    hide Window, Tail;
    forall q: nat | q < next - |run|
      ensures !Window(was, q, n)
    {
      assert |run| == n ==> NoWindow(was, n, next - 1);
      assert |run| < n ==> NoWindow(was, n, next);
      WindowFits(was, q, n);
    }
  }

  lemma WindowFits(was: seq<Slot>, q: nat, n: nat)
    ensures Window(was, q, n) ==> q + n <= |was|
  {
  }

  lemma EmptyTail(was: seq<Slot>, n: nat)
    requires n > 0
    ensures Tail(was, [], 0) && NoWindow(was, n, 0)
  {
  }

  lemma ZeroClusters(perCluster: nat)
    requires perCluster > 0
    ensures Clusters(0, perCluster) == 0
  {
    QuotientUnique(perCluster, 0, perCluster - 1, perCluster - 1);
  }

  // ----- undoing -----

  /** The removal counts back to the run: the search skipped no block inside it, and the removal skips none of its
      slots. */
  ghost predicate CountsBack(v: Pass, undo: Pass, run: seq<nat>, next: nat)
    requires v.spb > 0 && undo.spb > 0 && run != [] && |run| <= next
  {
    NoGap(v, run[0], next) && forall i :: next - |run| <= i < next ==> NotSkipped(undo, i)
  }

  /** Whatever the two passes can read: no entry of the run comes after the step of its number. */
  lemma RunBehind(v: Pass, undo: Pass, was: seq<Slot>, run: seq<nat>, next: nat)
    requires v.spb > 0 && undo.spb > 0 && RunOk(v, was, run, next) && |run| <= next
    ensures Ascending(run) && Ascending(Steps(undo, next - |run|, |run|))
    ensures |Steps(undo, next - |run|, |run|)| == |run| && KeepsLevel(Steps(undo, next - |run|, |run|), run)
    ensures forall k :: 0 <= k < |run| ==> Steps(undo, next - |run|, |run|)[k] >= next - |run| + k >= run[k]
  {
    hide RunOk, Steps;
    StepsAscend(undo, next - |run|, |run|);
    forall i, j | 0 <= i < j < |run|
      ensures run[i] < run[j]
    {
      RunAscends(v, was, run, next, i, j);
    }
    forall k | 0 <= k < |run|
      ensures next - |run| + k >= run[k]
    {
      RunAscends(v, was, run, next, k, |run| - 1);
    }
  }

  /** The slots removed are those of the run if and only if the removal counts back to it. */
  lemma StepsAreRunIff(v: Pass, undo: Pass, was: seq<Slot>, run: seq<nat>, next: nat)
    requires v.spb > 0 && undo.spb > 0 && RunOk(v, was, run, next) && run != [] && |run| <= next
    ensures Steps(undo, next - |run|, |run|) == run <==> CountsBack(v, undo, run, next)
  {
    hide RunOk, Steps, NoGap, NotSkipped;
    var pos := next - |run|;
    RunBehind(v, undo, was, run, next);
    ContiguousIff(v, was, run, next);
    StepsConsecutive(undo, pos, |run|);
    assert Contiguous(run, pos) <==> run == UpTo(pos, |run|);
  }

  /** When the removal counts back, a failed addition leaves every slot it wrote free, and all others as they were. */
  lemma UndoRestores(v: Pass, undo: Pass, was: seq<Slot>, mid: seq<Slot>, now: seq<Slot>, es: seq<Slot>)
    requires v.spb > 0 && undo.spb > 0 && v.blocks * v.spb <= |was| && es != []
    requires Undone(Start(v, was, |es|), undo, was, mid, now, es, Ok)
    requires var f := Start(v, was, |es|);
             f.Run? && f.run != [] && |f.run| <= f.next ==> CountsBack(v, undo, f.run, f.next)
    ensures |now| == |was|
    ensures forall i :: 0 <= i < |was| ==> now[i] == was[i] || (IsFree(was[i]) && IsFree(now[i]))
  {
    hide FindRun, RunOk, Steps, CountsBack, IsFree;
    StartOk(v, was, |es|);
    DeletedIsFree(mid);
    var f := Start(v, was, |es|);
    if now != was {
      StepsAreRunIff(v, undo, was, f.run, f.next);
      forall i | 0 <= i < |was|
        ensures now[i] == was[i] || (IsFree(was[i]) && IsFree(now[i]))
      {
        if i in f.run {
          var k :| 0 <= k < |f.run| && f.run[k] == i;
          RunInside(v, was, f.run, f.next, k);
        }
      }
    }
  }

  /** The whole run holds entries, and its removal has gone through. */
  ghost predicate Cleared(f: Search, undo: Pass, was: seq<Slot>, mid: seq<Slot>, now: seq<Slot>, es: seq<Slot>)
    requires undo.spb > 0
  {
    && f.Run? && f.run != [] && |f.run| <= |es| && |f.run| <= f.next
    && Placed(was, mid, f.run, es) && Removed(mid, now, Steps(undo, f.next - |f.run|, |f.run|))
  }

  /** Once the whole run holds entries, its removal frees all of them if and only if it counts back to them; otherwise
      it marks a slot deleted that is none of them. */
  lemma UndoFreesIff(v: Pass, undo: Pass, was: seq<Slot>, mid: seq<Slot>, now: seq<Slot>, es: seq<Slot>)
    requires v.spb > 0 && undo.spb > 0 && v.blocks * v.spb <= |was| && es != []
    requires forall k :: 0 <= k < |es| ==> !IsFree(es[k])
    requires Cleared(Start(v, was, |es|), undo, was, mid, now, es)
    ensures var f := Start(v, was, |es|);
            && |now| == |was|
            && ((forall k :: 0 <= k < |f.run| ==> f.run[k] < |now| && IsFree(now[f.run[k]]))
                <==> CountsBack(v, undo, f.run, f.next))
            && (!CountsBack(v, undo, f.run, f.next) ==>
                exists i :: 0 <= i < |was| && i !in f.run && now[i] == Deleted(was[i]))
  {
    hide FindRun, RunOk, CountsBack, Steps, IsFree, Placed, Removed, Ascending, KeepsLevel, Listed;
    StartOk(v, was, |es|);
    var f := Start(v, was, |es|);
    StepsAreRunIff(v, undo, was, f.run, f.next);
    RunBehind(v, undo, was, f.run, f.next);
    var steps := Steps(undo, f.next - |f.run|, |f.run|);
    FreedIffListed(was, mid, now, f.run, steps, es);
    SelfListed(f.run);
    if Listed(f.run, steps) {
      SameIfCovers(steps, f.run);
    }
    if Listed(steps, f.run) {
      SameIfInside(steps, f.run);
    } else {
      OtherDeleted(was, mid, now, f.run, steps, es);
    }
  }

  lemma SelfListed(xs: seq<nat>)
    ensures Listed(xs, xs)
  {
  }

  lemma FreedIffListed(was: seq<Slot>, mid: seq<Slot>, now: seq<Slot>, run: seq<nat>, steps: seq<nat>, es: seq<Slot>)
    requires |run| <= |es| && Placed(was, mid, run, es) && Removed(mid, now, steps)
    requires forall k :: 0 <= k < |es| ==> !IsFree(es[k])
    ensures |now| == |was|
    ensures (forall k :: 0 <= k < |run| ==> run[k] < |now| && IsFree(now[run[k]])) <==> Listed(run, steps)
  {
    hide IsFree;
    DeletedIsFree(mid);
    forall k | 0 <= k < |run|
      ensures run[k] < |now| && (IsFree(now[run[k]]) <==> run[k] in steps)
    {
    }
  }

  lemma OtherDeleted(was: seq<Slot>, mid: seq<Slot>, now: seq<Slot>, run: seq<nat>, steps: seq<nat>, es: seq<Slot>)
    requires Placed(was, mid, run, es) && Removed(mid, now, steps) && !Listed(steps, run)
    ensures |now| == |was| && exists i :: 0 <= i < |was| && i !in run && now[i] == Deleted(was[i])
  {
    var k :| 0 <= k < |steps| && steps[k] !in run;
    assert now[steps[k]] == Deleted(was[steps[k]]);
  }

  /** With a gap in the run its first entry stays in use, whatever the removal can read. */
  lemma GapLeavesFirst(v: Pass, undo: Pass, was: seq<Slot>, mid: seq<Slot>, now: seq<Slot>, es: seq<Slot>)
    requires v.spb > 0 && undo.spb > 0 && v.blocks * v.spb <= |was| && es != []
    requires Cleared(Start(v, was, |es|), undo, was, mid, now, es)
    requires var f := Start(v, was, |es|); !NoGap(v, f.run[0], f.next)
    ensures var f := Start(v, was, |es|); f.run[0] < |now| && now[f.run[0]] == es[0]
  {
    hide FindRun, RunOk, NoGap, Steps;
    StartOk(v, was, |es|);
    var f := Start(v, was, |es|);
    var steps := Steps(undo, f.next - |f.run|, |f.run|);
    ContiguousIff(v, was, f.run, f.next);
    RunBehind(v, undo, was, f.run, f.next);
    if f.run[0] == f.next - |f.run| {
      forall k | 0 <= k < |f.run|
        ensures f.run[k] == f.run[0] + k
      {
        RunAscends(v, was, f.run, f.next, 0, k);
      }
    }
    assert forall k :: 0 <= k < |steps| ==> steps[k] > f.run[0];
  }

  lemma DeletedIsFree(slots: seq<Slot>)
    ensures forall i :: 0 <= i < |slots| ==> IsFree(Deleted(slots[i]))
  {
  }

  /** Readable slots in use are passed over. */
  lemma {:induction false} PassOverUsed(v: Pass, was: seq<Slot>, n: nat, p: nat, q: nat)
    requires v.spb > 0 && v.blocks * v.spb <= |was| && p <= q < MAX_DIR_SLOTS && q <= |was|
    requires forall i :: p <= i < q ==> Reads(v, i) && !IsFree(was[i])
    ensures FindRun(v, was, n, p, []) == FindRun(v, was, n, q, [])
    decreases q - p
  {
    hide IsFree;
    if p < q {
      PassOverUsed(v, was, n, p + 1, q);
      ReadableStays(v, p);
      FindRunStep(v, was, n, p, []);
    }
  }

  lemma ReadableStays(v: Pass, p: nat)
    requires v.spb > 0 && Reads(v, p)
    ensures NextSlot(v, p) == p
  {
  }

  /** A directory of three 16-slot blocks, full but for the last slot of the first and the first of the third. */
  ghost predicate NearlyFull(was: seq<Slot>) {
    |was| == 48 && forall i :: 0 <= i < 48 ==> (IsFree(was[i]) <==> i == 15 || i == 32)
  }

  lemma OverMiddle()
    ensures NextSlot(Pass(16, 3, {1}), 16) == 32
  {
    assert NextBlock(Pass(16, 3, {1}), 1) == 2;
  }

  /** With the middle block unreadable the search takes the two free slots for neighbours. */
  lemma TakenForNeighbours(was: seq<Slot>)
    requires NearlyFull(was)
    ensures Start(Pass(16, 3, {1}), was, 2) == Run([15, 32], 33)
  {
    hide IsFree, FindRun, NextSlot;
    var v := Pass(16, 3, {1});
    PassOverUsed(v, was, 2, 0, 15);
    ReadableStays(v, 15);
    FindRunStep(v, was, 2, 15, []);
    OverMiddle();
    FindRunStep(v, was, 2, 16, [15]);
    assert [] + [15] == [15] && [15] + [32] == [15, 32];
  }

  /** If adding then fails after the slots were written, and the middle block can be read again, the removal deletes
      slot 31, which was in use, and leaves the first of the new entries in the directory. */
  lemma UndoDestroysEntry(was: seq<Slot>, mid: seq<Slot>, now: seq<Slot>, es: seq<Slot>)
    requires NearlyFull(was) && |es| == 2 && Placed(was, mid, [15, 32], es)
    requires Removed(mid, now, Steps(Pass(16, 3, {}), 31, 2))
    ensures Start(Pass(16, 3, {1}), was, 2) == Run([15, 32], 33)
    ensures !IsFree(was[31]) && IsFree(now[31]) && now[15] == es[0]
  {
    TakenForNeighbours(was);
    hide FindRun, Steps, IsFree;
    StepsConsecutive(Pass(16, 3, {}), 31, 2);
    DeletedIsFree(mid);
    assert UpTo(31, 2)[0] == 31;
    assert mid[[15, 32][0]] == es[0];
  }

  /** If the middle block stays unreadable, the removal deletes slot 33, which was in use, and leaves that entry too. */
  lemma UndoDestroysNext(was: seq<Slot>, mid: seq<Slot>, now: seq<Slot>, es: seq<Slot>)
    requires NearlyFull(was) && |es| == 2 && Placed(was, mid, [15, 32], es)
    requires Removed(mid, now, Steps(Pass(16, 3, {1}), 31, 2))
    ensures Start(Pass(16, 3, {1}), was, 2) == Run([15, 32], 33)
    ensures !IsFree(was[33]) && IsFree(now[33]) && now[15] == es[0]
  {
    TakenForNeighbours(was);
    hide FindRun, IsFree;
    var v := Pass(16, 3, {1});
    DeletedIsFree(mid);
    assert NextBlock(v, 1) == 2;
    assert Steps(v, 31, 2) == [32] + Steps(v, 33, 1);
    assert Steps(v, 33, 1) == [33];
    assert [32] + [33] == [32, 33];
    assert mid[[15, 32][0]] == es[0];
  }

  // ----- adding, then removing -----

  /** Removing the slots of an entry added in consecutive ones leaves every other slot as it was, and its own free. */
  lemma AddThenRemove(v: Pass, was: seq<Slot>, now: seq<Slot>, es: seq<Slot>, slotOff: int, last: nat, perCluster: nat)
    requires v.spb > 0 && v.blocks * v.spb <= |was| && es != [] && perCluster > 0
    requires Added(Start(v, was, |es|), was, now, es, slotOff, last, perCluster)
    requires Contiguous(Occupied(Start(v, was, |es|), was, |es|), slotOff)
    ensures 0 <= slotOff && last == slotOff + |es| - 1 < |now|
    ensures var after := Wiped(now, slotOff, |es|);
            && (forall i :: 0 <= i < |was| ==> after[i] == was[i] || (IsFree(was[i]) && IsFree(after[i])))
            && (forall i :: |was| <= i < |after| ==> IsFree(after[i]))
  {
    hide FindRun, RunOk;
    StartOk(v, was, |es|);
    var f := Start(v, was, |es|);
    var run := Occupied(f, was, |es|);
    assert run[0] == slotOff && run[|es| - 1] == slotOff + |es| - 1;
    DeletedIsFree(now);
    forall i | 0 <= i < |now|
      ensures slotOff <= i < slotOff + |es| ==> i in run && (i < |was| ==> IsFree(was[i]))
    {
      if slotOff <= i < slotOff + |es| {
        assert run[i - slotOff] == i;
        if i - slotOff < |f.run| {
          RunInside(v, was, f.run, f.next, i - slotOff);
        }
      }
    }
    forall i | 0 <= i < |now| && i in run
      ensures slotOff <= i < slotOff + |es|
    {
    }
  }

  /** An entry in slots 13 to 17 of 16-slot blocks. If the first block cannot be read when the rest of the entry is to
      be removed, slot 18 is marked deleted in place of one of its own. */
  lemma RemoveHitsNeighbour(was: seq<Slot>, now: seq<Slot>)
    requires |was| == 32 && Removed(Wiped(was, 16, 2), now, Steps(Pass(16, 2, {0}), 13, 3))
    ensures now[18] == Deleted(was[18]) && forall i :: 13 <= i < 16 ==> now[i] == was[i]
  {
    var v := Pass(16, 2, {0});
    assert NextBlock(v, 0) == 1;
    assert Steps(v, 13, 3) == [16] + Steps(v, 17, 2);
    assert Steps(v, 17, 2) == [17] + Steps(v, 18, 1);
    assert Steps(v, 18, 1) == [18];
    assert [16] + ([17] + [18]) == [16, 17, 18];
  }

  /** The last slot of an entry added over a gap lies in a later block than the first. */
  lemma GapBlocks(v: Pass, was: seq<Slot>, now: seq<Slot>, es: seq<Slot>, slotOff: int, last: nat, perCluster: nat)
    requires v.spb > 0 && v.blocks * v.spb <= |was| && es != [] && perCluster > 0
    requires Added(Start(v, was, |es|), was, now, es, slotOff, last, perCluster)
    requires var f := Start(v, was, |es|); f.run != [] && !NoGap(v, f.run[0], f.next)
    ensures var f := Start(v, was, |es|);
            && f.Run? && f.run[0] / v.spb < last / v.spb && last < |now|
            && f.run[0] < |now| && now[f.run[0]] == es[0] && f.run[0] < slotOff
  {
    hide FindRun, RunOk, Contiguous;
    StartOk(v, was, |es|);
    var f := Start(v, was, |es|);
    var run := Occupied(f, was, |es|);
    assert run[0] == f.run[0] && run[|es| - 1] < |now|;
    ContiguousIff(v, was, f.run, f.next);
    FirstBehind(v, was, f.run, f.next);
    if |f.run| < |es| {
      ReadsOfRun(v, was, f.run, f.next, 0);
      QuotientUnique(v.spb, v.blocks, 0, v.blocks * v.spb);
      QuotientMonotone(v.spb, v.blocks * v.spb, last);
    } else {
      var b :| f.run[0] / v.spb < b <= (f.next - 1) / v.spb && b in v.bad;
      assert last == f.next - 1;
    }
  }

  lemma FirstBehind(v: Pass, was: seq<Slot>, run: seq<nat>, next: nat)
    requires v.spb > 0 && RunOk(v, was, run, next) && run != [] && |run| <= next
    ensures run[0] <= next - |run| && (run[0] == next - |run| ==> Contiguous(run, next - |run|))
  {
    hide RunOk;
    RunAscends(v, was, run, next, 0, |run| - 1);
    if run[0] == next - |run| {
      forall k | 0 <= k < |run|
        ensures run[k] == run[0] + k
      {
        RunAscends(v, was, run, next, 0, k);
        RunAscends(v, was, run, next, k, |run| - 1);
      }
    }
  }

  lemma ReadsOfRun(v: Pass, was: seq<Slot>, run: seq<nat>, next: nat, k: nat)
    requires v.spb > 0 && RunOk(v, was, run, next) && k < |run|
    ensures Reads(v, run[k])
  {
    assert FreeAt(v, was, run[k]);
  }

  /** Slots that the first stage of fat_remove_entries deletes. */
  function FirstStage(spb: nat, n: nat, last: nat): (k: nat)
    requires spb > 0
    ensures k <= last + 1
  {
    AddressFacts(spb, last);
    Min(n, last % spb + 1)
  }

  /** An entry that was added over a gap and is removed again, as when a rename is undone, keeps its first slot,
      whatever the removal can read. */
  lemma RemoveOverGap(v: Pass, undo: Pass, was: seq<Slot>, now: seq<Slot>, es: seq<Slot>, slotOff: nat, last: nat,
      perCluster: nat, after: seq<Slot>)
    requires v.spb > 0 && undo.spb > 0 && v.blocks * v.spb <= |was| && es != [] && perCluster > 0
    requires Added(Start(v, was, |es|), was, now, es, slotOff, last, perCluster) && last < |now|
    requires var f := Start(v, was, |es|); f.run != [] && !NoGap(v, f.run[0], f.next)
    requires var first := FirstStage(v.spb, |es|, last);
             var mid, steps := Wiped(now, last + 1 - first, first), Steps(undo, slotOff, |es| - first);
             Removed(mid, after, steps) || OnlyRemoved(mid, after, steps)
    ensures var first := Start(v, was, |es|).run[0]; first < |after| && after[first] == es[0]
  {
    hide FindRun, RunOk, NoGap, Steps, Added, Removed, OnlyRemoved, Wiped, FirstStage;
    GapBlocks(v, was, now, es, slotOff, last, perCluster);
    var x, first := Start(v, was, |es|).run[0], FirstStage(v.spb, |es|, last);
    BeforeStage(v.spb, |es|, last, x);
    BeforeSteps(undo, slotOff, |es| - first, x);
    SlotStays(now, after, last + 1 - first, first, Steps(undo, slotOff, |es| - first), x);
  }

  lemma BeforeStage(spb: nat, n: nat, last: nat, x: nat)
    requires spb > 0 && x / spb < last / spb
    ensures x < last + 1 - FirstStage(spb, n, last)
    ensures n > 0 ==> FirstStage(spb, n, last) <= n
  {
    AddressFacts(spb, x);
    AddressFacts(spb, last);
    MulMonotone(x / spb + 1, last / spb, spb);
  }

  lemma BeforeSteps(v: Pass, pos: nat, n: nat, x: nat)
    requires v.spb > 0 && x < pos
    ensures x !in Steps(v, pos, n)
  {
    hide Steps, Ascending;
    StepsAscend(v, pos, n);
  }

  lemma SlotStays(now: seq<Slot>, after: seq<Slot>, q: nat, k: nat, steps: seq<nat>, x: nat)
    requires q + k <= |now| && x < q && x !in steps
    requires Removed(Wiped(now, q, k), after, steps) || OnlyRemoved(Wiped(now, q, k), after, steps)
    ensures x < |after| && after[x] == now[x]
  {
  }

  lemma RunReach(v: Pass, was: seq<Slot>, now: seq<Slot>, es: seq<Slot>, slotOff: int, last: nat, perCluster: nat)
    requires v.spb > 0 && Clean(v, |was|) && es != [] && perCluster > 0
    requires Added(Start(v, was, |es|), was, now, es, slotOff, last, perCluster)
    ensures |was| + (|es| - |Start(v, was, |es|).run|) <= |now|
    ensures slotOff + |es| > |was| ==> slotOff + |es| == |was| + (|es| - |Start(v, was, |es|).run|)
    ensures slotOff + |es| <= |was| ==> |now| == |was|
  {
    hide FindRun, IsFree;
    var f := Start(v, was, |es|);
    FirstFitRun(v, was, |es|);
    ClustersCover(|es| - |f.run|, perCluster);
    ZeroClusters(perCluster);
  }
}
