/** Writing and removing directory entries in place, buffer by buffer. */
module Directory {
  import opened Arithmetic
  import opened FatDefs
  import opened DirSlots

  // ----- slots written and removed -----

  /** now is was with entry k of es in slot run[k]. */
  ghost predicate Placed(was: seq<Slot>, now: seq<Slot>, run: seq<nat>, es: seq<Slot>) {
    && |now| == |was| && |run| <= |es|
    && (forall k :: 0 <= k < |run| ==> run[k] < |now| && now[run[k]] == es[k])
    && (forall i :: 0 <= i < |was| && i !in run ==> now[i] == was[i])
  }

  function Spliced(s: seq<Slot>, base: nat, piece: seq<Slot>): (r: seq<Slot>)
    requires base + |piece| <= |s|
    ensures |r| == |s|
    ensures forall i :: 0 <= i < |s| ==> r[i] == if base <= i < base + |piece| then piece[i - base] else s[i]
  {
    s[..base] + piece + s[base + |piece|..]
  }

  /** Slot x is the j-th slot of the buffers bhs. */
  predicate Sits(x: nat, j: nat, bhs: seq<nat>, spb: nat)
    requires spb > 0
  {
    j / spb < |bhs| && x == bhs[j / spb] * spb + j % spb
  }

  /** The buffers a run of free slots lies in, from slot off of the first: its tail, all of those between, the head of
      the last. */
  ghost predicate InBuffers(off: nat, run: seq<nat>, bhs: seq<nat>, spb: nat)
    requires spb > 0
  {
    && off < spb
    && |bhs| == Blocks(off + |run|, spb)
    && forall k :: 0 <= k < |run| ==> Sits(run[k], off + k, bhs, spb)
  }

  /** Blocks that the first n slots of a chain of blocks reach into. */
  function Blocks(n: nat, spb: nat): nat
    requires spb > 0
  {
    if n == 0 then 0 else Quotient(n - 1, spb) + 1
  }

  function Quotient(n: nat, spb: nat): nat
    requires spb > 0
  {
    AddressFacts(spb, n);
    n / spb
  }

  lemma BufferBound(off: nat, n: nat, spb: nat)
    requires 16 <= spb && off < spb && 0 < n <= MSDOS_SLOTS
    ensures (off + n - 1) / spb < 3
  {
    AddressFacts(spb, off + n - 1);
    MulMonotone(3, (off + n - 1) / spb, spb);
  }

  lemma FirstBuffer(q: nat, spb: nat)
    requires spb > 0
    ensures InBuffers(q % spb, [q], [q / spb], spb)
  {
    AddressFacts(spb, q);
    QuotientUnique(spb, 0, q % spb, q % spb);
    SitsNow(q, q % spb, [q / spb], spb);
  }

  /** A further free slot lies in the last buffer, or opens the next one at its start. */
  lemma BuffersGrow(v: Pass, slots: seq<Slot>, off: nat, run: seq<nat>, bhs: seq<nat>, q: nat)
    requires v.spb > 0 && RunOk(v, slots, run, q) && NextSlot(v, q) == q && run != []
    requires InBuffers(off, run, bhs, v.spb)
    ensures bhs != []
    ensures q / v.spb == bhs[|bhs| - 1] ==> InBuffers(off, run + [q], bhs, v.spb)
    ensures q / v.spb != bhs[|bhs| - 1] ==> InBuffers(off, run + [q], bhs + [q / v.spb], v.spb)
  {
    hide NextSlot, RunOk, Sits, InBuffers;
    NextSeat(v, slots, off, run, bhs, q);
    var bhs' := if q / v.spb == bhs[|bhs| - 1] then bhs else bhs + [q / v.spb];
    SitsNow(q, off + |run|, bhs', v.spb);
    BuffersOf(off, run, q, bhs, bhs', v.spb);
  }

  lemma BuffersOf(off: nat, run: seq<nat>, q: nat, bhs: seq<nat>, longer: seq<nat>, spb: nat)
    requires spb > 0 && bhs <= longer && InBuffers(off, run, bhs, spb)
    requires Sits(q, off + |run|, longer, spb) && |longer| == Quotient(off + |run|, spb) + 1
    ensures InBuffers(off, run + [q], longer, spb)
  {
    hide Sits, Quotient;
    forall k | 0 <= k < |run|
      ensures Sits(run[k], off + k, longer, spb)
    {
      SitsStill(run[k], off + k, bhs, longer, spb);
    }
  }

  lemma NextSeat(v: Pass, slots: seq<Slot>, off: nat, run: seq<nat>, bhs: seq<nat>, q: nat)
    requires v.spb > 0 && RunOk(v, slots, run, q) && NextSlot(v, q) == q && run != []
    requires InBuffers(off, run, bhs, v.spb)
    ensures var j := off + |run|;
            && bhs != [] && q % v.spb == j % v.spb
            && j / v.spb == Quotient(j, v.spb)
            && Quotient(j, v.spb) == if q / v.spb == bhs[|bhs| - 1] then |bhs| - 1 else |bhs|
  {
    hide NextSlot, RunOk, Sits;
    var n := |run|;
    FollowsRun(v, slots, run, q);
    SitsWhere(run[n - 1], off + n - 1, bhs, v.spb);
    NextPosition(v.spb, off + n - 1);
    NextPosition(v.spb, run[n - 1]);
  }

  lemma SitsNow(x: nat, j: nat, bhs: seq<nat>, spb: nat)
    requires spb > 0 && j / spb < |bhs| && bhs[j / spb] == x / spb && j % spb == x % spb
    ensures Sits(x, j, bhs, spb)
  {
    AddressFacts(spb, x);
  }

  lemma SitsWhere(x: nat, j: nat, bhs: seq<nat>, spb: nat)
    requires spb > 0 && Sits(x, j, bhs, spb)
    ensures j / spb < |bhs| && x / spb == bhs[j / spb] && x % spb == j % spb
  {
    AddressFacts(spb, j);
    QuotientUnique(spb, bhs[j / spb], j % spb, x);
  }

  lemma SitsStill(x: nat, j: nat, bhs: seq<nat>, longer: seq<nat>, spb: nat)
    requires spb > 0 && Sits(x, j, bhs, spb) && bhs <= longer
    ensures Sits(x, j, longer, spb)
  {
  }

  lemma NextPosition(spb: nat, x: nat)
    requires spb > 0
    ensures x % spb + 1 < spb ==> (x + 1) / spb == x / spb && (x + 1) % spb == x % spb + 1
    ensures x % spb + 1 == spb ==> (x + 1) / spb == x / spb + 1 && (x + 1) % spb == 0
  {
    AddressFacts(spb, x);
    if x % spb + 1 < spb {
      QuotientUnique(spb, x / spb, x % spb + 1, x + 1);
    } else {
      QuotientUnique(spb, x / spb + 1, 0, x + 1);
    }
  }

  /** Where a pass that stands on slot q stands to the last slot of the run. */
  lemma FollowsRun(v: Pass, slots: seq<Slot>, run: seq<nat>, q: nat)
    requires v.spb > 0 && RunOk(v, slots, run, q) && NextSlot(v, q) == q && run != []
    ensures var last := run[|run| - 1];
            && (last % v.spb + 1 < v.spb ==> q == last + 1)
            && (last % v.spb + 1 == v.spb ==> q % v.spb == 0 && q / v.spb > last / v.spb)
  {
    var last := run[|run| - 1];
    AfterSlot(v, last);
    NextSlotFacts(v, last + 1);
    QuotientMonotone(v.spb, last + 1, q);
  }

  /** A pass over a directory of that many blocks. */
  predicate Covers(v: Pass, spb: nat, blocks: nat) {
    v.spb == spb && v.blocks <= blocks
  }

  lemma SettlesAt(v: Pass, p: nat, b: nat, q: nat)
    requires v.spb > 0 && b == NextBlock(v, p / v.spb) && q == if b == p / v.spb then p else b * v.spb
    ensures NextSlot(v, p) == q && q / v.spb == b && b * v.spb + q % v.spb == q && 0 <= q % v.spb < v.spb
  {
    NextSlotFacts(v, p);
    AddressFacts(v.spb, q);
  }

  class Dir {
    const spb: nat
    const secPerClus: nat
    /** The root directory of a FAT12 or FAT16 volume, which cannot grow. */
    const fixedRoot: bool
    const isRoot: bool
    /** Mounted or flagged to write directories at once. */
    const dirSync: bool
    var start: nat
    var blocks: nat
    var slots: seq<Slot>
    /** What has failed so far outside the directory: writing it out, getting a buffer, the allocator, the chain. */
    var faults: nat

    ghost predicate Valid()
      reads this
    {
      && 16 <= spb && 0 < secPerClus
      && |slots| == blocks * spb
      && (!fixedRoot ==> blocks % secPerClus == 0)
    }

    constructor (spb: nat, secPerClus: nat, fixedRoot: bool, isRoot: bool, dirSync: bool, start: nat, blocks: nat,
        slots: seq<Slot>)
      requires 16 <= spb && 0 < secPerClus && |slots| == blocks * spb && (!fixedRoot ==> blocks % secPerClus == 0)
      ensures Valid()
      ensures this.spb == spb && this.secPerClus == secPerClus && this.fixedRoot == fixedRoot && this.isRoot == isRoot
      ensures this.dirSync == dirSync && this.faults == 0
      ensures this.start == start && this.blocks == blocks && this.slots == slots
    {
      this.spb, this.secPerClus, this.fixedRoot, this.isRoot := spb, secPerClus, fixedRoot, isRoot;
      this.start, this.blocks, this.slots, this.dirSync, this.faults := start, blocks, slots, dirSync, 0;
    }

    /** Something outside the directory fails or not, as it pleases; each failure is counted. */
    method Fails() returns (failed: bool)
      modifies this`faults
      ensures faults == old(faults) + if failed then 1 else 0
    {
      failed := *;
      if failed {
        faults := faults + 1;
      }
    }

    /** Writing buffers out where that is done at once. */
    method SyncFails() returns (failed: bool)
      modifies this`faults
      ensures faults == old(faults) + if failed then 1 else 0
      ensures failed ==> dirSync
    {
      failed := false;
      if dirSync {
        failed := Fails();
      }
    }

    /** bh and de name the slot before pos, unless no buffer is held. */
    ghost predicate Held(v: Pass, pos: nat, bh: int, de: nat)
      requires v.spb > 0
    {
      bh >= 0 ==> bh < v.blocks && bh !in v.bad && de < v.spb && pos == bh * v.spb + de + 1
    }

    /** fat_get_entry: on in the held buffer, or through the first block from pos on that can be read. */
    method GetEntry(v: Pass, pos: nat, bh: int, de: nat) returns (ok: bool, pos': nat, bh': int, de': nat)
      requires Valid() && Covers(v, spb, blocks) && Held(v, pos, bh, de)
      ensures Held(v, pos', bh', de')
      ensures ok <==> NextSlot(v, pos) / spb < v.blocks
      ensures ok <==> bh' >= 0
      ensures ok ==>
                bh' == NextSlot(v, pos) / spb && bh' * spb + de' == NextSlot(v, pos) && pos' == NextSlot(v, pos) + 1
      ensures !ok ==> bh' == -1 && pos' == NextSlot(v, pos)
    {
      if bh >= 0 && de < spb - 1 {
        QuotientUnique(spb, bh, de + 1, pos);
        SettlesAt(v, pos, bh, pos);
        return true, pos + 1, bh, de + 1;
      }
      pos', bh', de' := pos, -1, 0;
      AddressFacts(spb, pos);
      var b := pos / spb;
      while b < v.blocks && b in v.bad
        invariant pos / spb <= b
        invariant NextBlock(v, b) == NextBlock(v, pos / spb)
        invariant pos' == if b == pos / spb then pos else b * spb
        decreases v.blocks - b
      {
        b := b + 1;
        pos' := b * spb;
      }
      SettlesAt(v, pos, b, pos');
      if b >= v.blocks {
        return false, pos', -1, 0;
      }
      return true, pos' + 1, b, pos' % spb;
    }

    /** A free slot joins the run; its buffer is noted unless it is the one noted last. */
    method CountSlot(v: Pass, n: nat, bhs: array<nat>, nrBhs: nat, prev: int, bh: nat,
        ghost all: seq<Slot>, ghost q: nat, ghost off: nat, ghost run: seq<nat>) returns (nrBhs': nat, prev': int)
      requires 16 <= v.spb && bhs.Length == 3 && nrBhs <= 3 && bh == q / v.spb && |run| < n <= MSDOS_SLOTS
      requires prev == if nrBhs == 0 then -1 else bhs[nrBhs - 1]
      requires Searching(v, all, n, q, off, run, bhs[..nrBhs]) && NextSlot(v, q) == q && FreeAt(v, all, q)
      modifies bhs
      ensures nrBhs' <= 3 && prev' == if nrBhs' == 0 then -1 else bhs[nrBhs' - 1]
      ensures Searching(v, all, n, q + 1, OffsetNow(v.spb, off, run, q), run + [q], bhs[..nrBhs'])
    {
      hide NextSlot, RunOk, InBuffers, FreeAt;
      nrBhs', prev' := nrBhs, prev;
      ghost var was := bhs[..nrBhs];
      NewSlot(v, all, n, q, off, run, was);
      if prev != bh {
        bhs[nrBhs] := bh;
        prev' := bh;
        nrBhs' := nrBhs + 1;
        assert bhs[..nrBhs'] == was + [bh];
      }
    }

    /** First stage of fat_add_entries. The buffer array has room for three buffers, and never needs more. */
    method FindFree(v: Pass, n: nat)
      returns (st: Status, pos: nat, freeSlots: nat, bhs: array<nat>, nrBhs: nat, ghost off: nat, ghost run: seq<nat>)
      requires Valid() && Covers(v, spb, blocks) && 0 < n <= MSDOS_SLOTS && v.blocks * spb <= |slots|
      ensures fresh(bhs) && nrBhs <= bhs.Length == 3
      ensures st == if FindRun(v, slots, n, 0, []).TooLarge? then Err(ENOSPC) else Ok
      ensures st.Ok? ==> FindRun(v, slots, n, 0, []) == Run(run, pos) && freeSlots == |run|
      ensures st.Ok? ==> InBuffers(off, run, bhs[..nrBhs], spb)
    {
      hide FindRun, NextSlot, Searching, IsFree, FreeAt;
      bhs := new nat[3];
      freeSlots, nrBhs, pos, run, off := 0, 0, 0, [], 0;
      var bh, de, prev := -1, 0, -1;
      var more;
      ghost var all := slots;
      StartOver(v, all, n, 0);
      ghost var extent := v.blocks * v.spb;
      while true
        invariant slots == all
        invariant Held(v, pos, bh, de)
        invariant freeSlots == |run| < n && nrBhs <= 3
        invariant prev == if nrBhs == 0 then -1 else bhs[nrBhs - 1]
        invariant Searching(v, all, n, pos, off, run, bhs[..nrBhs])
        invariant FindRun(v, all, n, 0, []) == FindRun(v, all, n, pos, run)
        decreases extent - pos
      {
        ghost var p := pos;
        SearchSettles(v, all, n, p, off, run, bhs[..nrBhs]);
        FindRunStep(v, all, n, p, run);
        more, pos, bh, de := GetEntry(v, pos, bh, de);
        if !more {
          SearchBuffers(v, all, n, pos, off, run, bhs[..nrBhs]);
          return Ok, pos, freeSlots, bhs, nrBhs, off, run;
        }
        if pos >= MAX_DIR_SLOTS {
          return Err(ENOSPC), pos, freeSlots, bhs, nrBhs, off, run;
        }
        if IsFree(slots[bh * spb + de]) {
          FreeAtNow(v, all, pos - 1);
          nrBhs, prev := CountSlot(v, n, bhs, nrBhs, prev, bh, all, pos - 1, off, run);
          off := OffsetNow(spb, off, run, pos - 1);
          run := run + [pos - 1];
          freeSlots := freeSlots + 1;
          if freeSlots == n {
            SearchBuffers(v, all, n, pos, off, run, bhs[..nrBhs]);
            return Ok, pos, freeSlots, bhs, nrBhs, off, run;
          }
        } else {
          prev, freeSlots, nrBhs, run, off := -1, 0, 0, [], 0;
          StartOver(v, all, n, pos);
          assert bhs[..0] == [];
        }
      }
    }

    /** Second stage of fat_add_entries: the long name slots, a sync, and, unless entries remain for a new cluster,
        the buffer with the short name last. */
    method FillRun(bhs: array<nat>, nrBhs: nat, pos: nat, freeSlots: nat, rest: nat, es: seq<Slot>,
        v: Pass, ghost off: nat, ghost run: seq<nat>, ghost next: nat)
      returns (failed: bool, ghost given: nat)
      requires Valid() && v.spb == spb && nrBhs <= bhs.Length
      requires run != [] && |run| == freeSlots && |es| == freeSlots + rest && next == pos + freeSlots
      requires RunOk(v, slots, run, next) && InBuffers(off, run, bhs[..nrBhs], spb)
      modifies this`slots, this`faults
      ensures Valid()
      ensures faults == old(faults) + (if failed then 1 else 0) && (failed ==> dirSync)
      ensures given <= freeSlots && (!failed ==> given == freeSlots)
      ensures Placed(old(slots), slots, run[..given], es)
    {
      hide RunOk, InBuffers, Placed, Spliced;
      ghost var was, bufs := slots, bhs[..nrBhs];
      OffsetOfRun(v, was, off, run, next, bufs);
      RunBuffers(off, run, bufs, spb);
      var size, offset, i, taken := freeSlots, pos % spb, 0, 0;
      var longBhs := nrBhs - if rest == 0 then 1 else 0;
      failed := false;
      NothingPlaced(was, run, es);
      while i < longBhs
        invariant 0 <= i <= longBhs && |slots| == |was| && faults == old(faults)
        invariant offset == if i == 0 then off else 0
        invariant 0 <= taken <= freeSlots && size == freeSlots - taken
        invariant taken == if i == nrBhs then freeSlots else Given(off, i, spb)
        invariant Placed(was, slots, run[..taken], es)
      {
        CopyStep(v, was, slots, off, run, next, bufs, es, i);
        BufferSpan(off, run, bufs, spb, i);
        var copy := Min(spb - offset, size);
        slots := Spliced(slots, bhs[i] * spb + offset, es[taken..taken + copy]);
        offset, taken, size, i := 0, taken + copy, size - copy, i + 1;
      }
      if longBhs > 0 {
        failed := SyncFails();
      }
      if !failed && i < nrBhs {
        CopyStep(v, was, slots, off, run, next, bufs, es, i);
        BufferSpan(off, run, bufs, spb, i);
        var copy := Min(spb - offset, size);
        slots := Spliced(slots, bhs[i] * spb + offset, es[taken..taken + copy]);
        taken := taken + copy;
        failed := SyncFails();
      }
      given := taken;
    }

    /** __fat_remove_entries: n slots from pos on, block by block. */
    method RemoveRun(v: Pass, pos: nat, n: nat) returns (st: Status)
      requires Valid() && Covers(v, spb, blocks) && v.blocks * spb <= |slots|
      modifies this`slots, this`faults
      ensures Valid()
      ensures old(faults) <= faults && (st.Ok? <==> faults == old(faults) && StepsInside(v, pos, n))
      ensures !dirSync ==> faults == old(faults)
      ensures st.Ok? ==> Removed(old(slots), slots, Steps(v, pos, n))
      ensures st.Err? ==> OnlyRemoved(old(slots), slots, Steps(v, pos, n))
    {
      hide Removed, OnlyRemoved, Steps, NextSlot;
      ghost var was, done := slots, 0;
      var pos: nat, left: nat := pos, n;
      NothingRemoved(was);
      StepsLength(v, pos, n);
      ghost var all := Steps(v, pos, n);
      while left > 0
        invariant 0 <= left <= n == |all| && done == n - left && |slots| == |was|
        invariant Removed(was, slots, all[..done])
        invariant all[done..] == Steps(v, pos, left) && faults == old(faults)
        invariant forall j :: 0 <= j < done ==> all[j] / spb < v.blocks
      {
        OnlyRemovedSome(was, slots, all, done);
        var more, pos', bh, de := GetEntry(v, pos, -1, 0);
        FirstStep(v, pos, left);
        assert all[done] == all[done..][0];
        if !more {
          return Err(EIO);
        }
        var k := Min(left, spb - de);
        StepsInBlock(v, pos, left, k);
        forall j | done <= j < done + k
          ensures all[j] / spb < v.blocks
        {
          assert all[j] == all[done..][j - done];
          InBlock(spb, bh, de, j - done);
        }
        InDirectory(v, pos' - 1, |slots|);
        BlockEnd(v, bh, de, k, |slots|);
        RemoveStep(v, was, slots, all, done, pos' - 1, k);
        slots := Wiped(slots, pos' - 1, k);
        left, pos, done := left - k, pos' - 1 + k, done + k;
        assert all[done..] == all[done - k..][k..];
        OnlyRemovedSome(was, slots, all, done);
        var failed := SyncFails();
        if failed {
          return Err(EIO);
        }
      }
      assert all[..done] == all;
      return Ok;
    }

    /** First stage of fat_add_new_entries: fill blocks from the first of the new clusters on, up to the last entry. */
    method FillBlocks(before: seq<Slot>, es: seq<Slot>, nrCluster: nat)
      returns (st: Status, area: seq<Slot>, n: nat, copy: nat)
      requires Valid() && 0 < |es| <= MSDOS_SLOTS && nrCluster == Clusters(|es|, spb * secPerClus)
      requires |before| == nrCluster * (spb * secPerClus)
      modifies this`faults
      ensures faults == old(faults) + if st.Ok? then 0 else 1
      ensures st.Ok? ==> |area| == |before| && n <= 1 && copy <= spb && n * spb + copy == |es| && area[..|es|] == es
      ensures st.Ok? ==> n * spb + spb <= |before|
    {
      hide Spliced, Clusters;
      area := before;
      ghost var total := |before|;
      var i, taken := 0, 0;
      n, copy := 0, 0;
      ClusterNeed(|es|, spb, secPerClus);
      while true
        invariant 0 <= i < nrCluster && n == i * secPerClus && taken == n * spb < |es|
        invariant |area| == total && area[..taken] == es[..taken] && faults == old(faults)
        decreases nrCluster - i
      {
        var blknr := 0;
        while blknr < secPerClus
          invariant 0 <= blknr <= secPerClus && n == i * secPerClus + blknr && taken == n * spb < |es|
          invariant |area| == total && area[..taken] == es[..taken] && faults == old(faults)
        {
          BlockOfArea(|es|, spb, secPerClus, n);
          NextMultiple(n, spb);
          assert n < MAX_BUF_PER_PAGE;
          var failed := Fails();
          if failed {
            return Err(ENOMEM), [], 0, 0;
          }
          copy := Min(|es| - taken, spb);
          SpliceNext(area, es, taken, copy);
          area := Spliced(area, n * spb, es[taken..taken + copy]);
          taken := taken + copy;
          if taken == |es| {
            return Ok, area, n, copy;
          }
          n, blknr := n + 1, blknr + 1;
        }
        NextMultiple(i, secPerClus);
        i := i + 1;
        EntriesLeft(|es|, spb, secPerClus, n, i);
      }
    }

    /** fat_add_new_entries: the entries at the start of new clusters, and zeros behind them. What the blocks of the
        clusters held before is in stale. */
    method AddNewEntries(es: seq<Slot>, stale: nat -> Slot) returns (st: Status, area: seq<Slot>, nrCluster: nat)
      requires Valid() && 0 < |es| <= MSDOS_SLOTS
      modifies this`faults
      ensures faults == old(faults) + if st.Ok? then 0 else 1
      ensures nrCluster == Clusters(|es|, spb * secPerClus)
      ensures st.Ok? ==> |es| <= nrCluster * (spb * secPerClus)
      ensures st.Ok? ==> area == es + Zeros(nrCluster * (spb * secPerClus) - |es|)
    {
      hide ZeroedFrom, Spliced, Clusters;
      ClusterNeed(|es|, spb, secPerClus);
      nrCluster := Clusters(|es|, spb * secPerClus);
      assert nrCluster <= 2;
      area := [];
      st := AllocOutcome();
      if st.Err? {
        return;
      }
      var n, copy;
      st, area, n, copy := FillBlocks(Stale(nrCluster * (spb * secPerClus), stale), es, nrCluster);
      if st.Err? {
        return;
      }
      NextZeros(area, es, n * spb + copy, spb - copy);
      area := Spliced(area, n * spb + copy, Zeros(spb - copy));
      LastBlock(nrCluster, spb, secPerClus, n);
      st, area := ZeroedCluster(area, (nrCluster - 1) * secPerClus, n + 1, es);
      ZeroedAll(area, es);
    }

    /** How an operation outside the directory ended. */
    method AllocOutcome() returns (st: Status)
      modifies this`faults
      ensures faults == old(faults) + if st.Ok? then 0 else 1
    {
      var failed := Fails();
      var error: Errno := *;
      st := if failed then Err(error) else Ok;
    }

    /** fat_zeroed_cluster: zero the blocks of the cluster at block start that come after its first used blocks. */
    method ZeroedCluster(before: seq<Slot>, start: nat, used: nat, ghost es: seq<Slot>)
      returns (st: Status, area: seq<Slot>)
      requires Valid() && used < MAX_BUF_PER_PAGE && |before| == (start + secPerClus) * spb
      requires used > secPerClus ==> ZeroedFrom(before, es, |before|)
      requires used <= secPerClus ==> ZeroedFrom(before, es, (start + used) * spb)
      modifies this`faults
      ensures faults == old(faults) + if st.Ok? then 0 else 1
      ensures st.Ok? ==> ZeroedFrom(area, es, |before|) && |area| == |before|
    {
      hide ZeroedFrom, Spliced;
      area := before;
      var blknr, n := start + used, used;
      while blknr < start + secPerClus
        invariant n < MAX_BUF_PER_PAGE && |area| == |before| && faults == old(faults)
        invariant used <= secPerClus ==> blknr <= start + secPerClus && ZeroedFrom(area, es, blknr * spb)
        invariant used > secPerClus ==> blknr > start + secPerClus && ZeroedFrom(area, es, |before|)
      {
        var failed := Fails();
        if failed {
          return Err(ENOMEM), area;
        }
        MulMonotone(blknr + 1, start + secPerClus, spb);
        SpliceZeros(area, es, blknr * spb, spb);
        area := Spliced(area, blknr * spb, Zeros(spb));
        n, blknr := n + 1, blknr + 1;
        if n == MAX_BUF_PER_PAGE {
          failed := SyncFails();
          if failed {
            return Err(EIO), area;
          }
          n := 0;
        }
      }
      var failed := SyncFails();
      st := if failed then Err(EIO) else Ok;
    }

    /** Second stage with its error path: the run holds the entries, or removing it has been tried. */
    method FillOrUndo(bhs: array<nat>, nrBhs: nat, pos: nat, freeSlots: nat, rest: nat, es: seq<Slot>, v: Pass,
        undo: Pass, ghost off: nat, ghost run: seq<nat>, ghost next: nat)
      returns (failed: bool, cleared: Status, ghost mid: seq<Slot>)
      requires Valid() && v.spb == spb && Covers(undo, spb, blocks) && undo.blocks * spb <= |slots|
      requires nrBhs <= bhs.Length && |run| == freeSlots && |es| == freeSlots + rest && next == pos + freeSlots
      requires run != [] ==> RunOk(v, slots, run, next) && InBuffers(off, run, bhs[..nrBhs], spb)
      modifies this`slots, this`faults
      ensures Valid()
      ensures old(faults) <= faults && (failed <==> faults > old(faults)) && (failed ==> dirSync)
      ensures !failed ==> Placed(old(slots), slots, run, es)
      ensures failed ==> Undone(Run(run, next), undo, old(slots), mid, slots, es, cleared)
    {
      hide RunOk, InBuffers, Placed, Undone, Removed, OnlyRemoved;
      ghost var was := slots;
      failed, cleared, mid := false, Ok, slots;
      if freeSlots == 0 {
        NothingPlaced(was, run, es);
        assert run[..0] == run;
        return;
      }
      ghost var given;
      failed, given := FillRun(bhs, nrBhs, pos, freeSlots, rest, es, v, off, run, next);
      mid := slots;
      if failed {
        cleared := RemoveRun(undo, pos, freeSlots);
        RolledBack(Run(run, next), undo, was, mid, slots, es, cleared, given);
      } else {
        assert run[..given] == run;
      }
    }

    /** Third stage with its error path: the entries left over go to new clusters at the end of the directory. */
    method AppendOrUndo(pos: nat, freeSlots: nat, es: seq<Slot>, undo: Pass, stale: nat -> Slot,
        ghost was: seq<Slot>, ghost run: seq<nat>, ghost next: nat)
      returns (st: Status, last: nat, cleared: Status)
      requires Valid() && Covers(undo, spb, blocks) && undo.blocks * spb <= |slots|
      requires |run| == freeSlots < |es| <= MSDOS_SLOTS && next == pos + freeSlots && Placed(was, slots, run, es)
      modifies this
      ensures Valid()
      ensures old(faults) <= faults && (st.Err? <==> faults > old(faults))
      ensures st.Ok? ==> Added(Run(run, next), was, slots, es, pos, last, spb * secPerClus)
      ensures st.Err? ==> Undone(Run(run, next), undo, was, old(slots), slots, es, cleared)
    {
      hide Added, Undone, Placed, Removed, OnlyRemoved, Clusters;
      ghost var mid := slots;
      last, cleared := 0, Ok;
      var area, nrCluster;
      st, area, nrCluster := AddNewEntries(es[freeSlots..], stale);
      if st.Ok? {
        // the outcome of fat_chain_add
        st := AllocOutcome();
      }
      if st.Err? {
        if freeSlots > 0 {
          cleared := RemoveRun(undo, pos, freeSlots);
        }
        assert run[..freeSlots] == run;
        RolledBack(Run(run, next), undo, was, mid, slots, es, cleared, freeSlots);
        return;
      }
      last := |slots| + (|es| - freeSlots) - 1;
      slots := slots + area;
      blocks := blocks + nrCluster * secPerClus;
      Grown(spb, secPerClus, blocks - nrCluster * secPerClus, nrCluster);
      PlacedLength(was, mid, run, es);
      NewAdded(Run(run, next), was, mid, slots, es, area, spb * secPerClus);
    }

    /** What fat_add_entries answers to the outcome of its search, when nothing fails. */
    function Answer(f: Search, n: nat): Status
      reads this
    {
      if f.TooLarge? then Err(ENOSPC)
      else if |f.run| >= n then Ok
      else if isRoot then (if fixedRoot then Err(ENOSPC) else Ok)
      else if start == 0 then Err(EIO) else Ok
    }

    /** fat_add_entries: es gets consecutive slots, reused or in new clusters. search and undo say what the two
        passes it may make over the directory can read; anything else that fails is counted. cleared says how the
        removal ended that a failure calls for, and mid what it began with. */
    method AddEntries(search: Pass, undo: Pass, es: seq<Slot>, stale: nat -> Slot)
      returns (st: Status, slotOff: int, last: nat, cleared: Status, ghost mid: seq<Slot>)
      requires Valid() && 0 < |es| <= MSDOS_SLOTS && Covers(search, spb, blocks) && Covers(undo, spb, blocks)
      requires search.blocks * spb <= |slots| && undo.blocks * spb <= |slots|
      modifies this
      ensures Valid()
      ensures var answer := old(Answer(FindRun(search, slots, |es|, 0, []), |es|));
              && old(faults) <= faults && (st.Ok? <==> answer.Ok? && faults == old(faults))
              && (answer.Err? ==> st == answer && slots == old(slots) && faults == old(faults))
      ensures var f := FindRun(search, old(slots), |es|, 0, []);
              !dirSync && f.Run? && |f.run| == |es| ==> st.Ok?
      ensures st.Ok? ==> Added(FindRun(search, old(slots), |es|, 0, []), old(slots), slots, es, slotOff, last,
                               spb * secPerClus)
      ensures st.Err? ==> Undone(FindRun(search, old(slots), |es|, 0, []), undo, old(slots), mid, slots, es, cleared)
    {
      hide FindRun, Added, Undone, RunOk, InBuffers, Placed;
      ghost var was := slots;
      mid, slotOff, last, cleared := was, 0, 0, Ok;
      NothingDone(FindRun(search, was, |es|, 0, []), undo, was, es);
      NoRun(search, was, 0);
      FindRunOk(search, was, |es|, 0, []);
      var pos, freeSlots, bhs, nrBhs;
      ghost var off, run;
      st, pos, freeSlots, bhs, nrBhs, off, run := FindFree(search, |es|);
      if st.Err? {
        return;
      }
      if freeSlots < |es| {
        if isRoot {
          if fixedRoot {
            st := Err(ENOSPC);
            return;
          }
        } else if start == 0 {
          st := Err(EIO);
          return;
        }
      }
      RunCounts(search, was, run, pos);
      slotOff := pos - freeSlots;
      var failed;
      failed, cleared, mid := FillOrUndo(bhs, nrBhs, slotOff, freeSlots, |es| - freeSlots, es, search, undo, off, run,
                                         pos);
      if failed {
        st := Err(EIO);
        return;
      }
      if freeSlots < |es| {
        mid := slots;
        st, last, cleared := AppendOrUndo(slotOff, freeSlots, es, undo, stale, was, run, pos);
      } else {
        last := pos - 1;
        InPlaceAdded(Run(run, pos), was, slots, es, spb * secPerClus);
      }
    }

    /** Slots of an entry that the first stage removes: those from its last slot back to the start of the block. */
    function InLastBlock(nrSlots: nat, last: nat): (k: nat)
      requires spb > 0
      ensures k <= nrSlots && k <= last + 1 && (nrSlots > 0 ==> k > 0)
    {
      AddressFacts(spb, last);
      Min(nrSlots, last % spb + 1)
    }

    /** First stage of fat_remove_entries: from the last slot back, as far as the buffer held goes. */
    method RemoveFirst(nrSlots: nat, last: nat) returns (left: nat)
      requires Valid() && 0 < nrSlots && last < |slots|
      modifies this`slots
      ensures Valid() && left == nrSlots - InLastBlock(nrSlots, last) < nrSlots
      ensures slots == Wiped(old(slots), last + 1 - InLastBlock(nrSlots, last), InLastBlock(nrSlots, last))
    {
      ghost var was := slots;
      AddressFacts(spb, last);
      var base, de: int := last - last % spb, last;
      left := nrSlots;
      while left > 0 && de >= base
        invariant 0 <= left <= nrSlots && de == last - (nrSlots - left) && base - 1 <= de
        invariant slots == Wiped(was, de + 1, nrSlots - left)
      {
        slots, de, left := slots[de := Deleted(slots[de])], de - 1, left - 1;
      }
    }

    /** fat_remove_entries: the nrSlots slots of one entry, whose last is at slot last. Those in the block of the last
        one go first, and the others are looked for from slotOff on. second says how that ended, which is not
        reported. */
    method RemoveEntries(v: Pass, slotOff: nat, nrSlots: nat, last: nat) returns (st: Status, second: Status)
      requires Valid() && Covers(v, spb, blocks) && v.blocks * spb <= |slots|
      requires 0 < nrSlots && last < |slots|
      modifies this`slots, this`faults
      ensures Valid() && old(faults) <= faults && (!dirSync ==> faults == old(faults))
      ensures var first := InLastBlock(nrSlots, last);
              var left, mid := nrSlots - first, Wiped(old(slots), last + 1 - first, first);
              && (st.Err? ==> slots == mid && faults > old(faults))
              && (st.Ok? ==> (second.Ok? <==> faults == old(faults) && StepsInside(v, slotOff, left)))
              && (st.Ok? && second.Ok? ==> Removed(mid, slots, Steps(v, slotOff, left)))
              && (st.Ok? && second.Err? ==> OnlyRemoved(mid, slots, Steps(v, slotOff, left)))
      ensures IsFree(slots[last])
    {
      hide Wiped, Removed, OnlyRemoved, Steps, StepsInside, IsFree, InLastBlock;
      ghost var was, first := slots, InLastBlock(nrSlots, last);
      var left := RemoveFirst(nrSlots, last);
      LastWiped(was, last + 1 - first, first);
      ghost var mid := slots;
      var failed := SyncFails();
      st, second := Ok, Ok;
      NoSteps(v, slotOff, mid);
      if failed {
        return Err(EIO), Ok;
      }
      if left > 0 {
        second := RemoveRun(v, slotOff, left);
        RemovedStays(mid, slots, Steps(v, slotOff, left), last);
      }
    }
  }

  lemma NoSteps(v: Pass, pos: nat, slots: seq<Slot>)
    requires v.spb > 0
    ensures StepsInside(v, pos, 0) && Removed(slots, slots, Steps(v, pos, 0))
  {
  }

  /** State of the search at position p. */
  ghost predicate Searching(v: Pass, slots: seq<Slot>, n: nat, p: nat, off: nat, run: seq<nat>, bhs: seq<nat>)
    requires v.spb > 0
  {
    RunOk(v, slots, run, p) && InBuffers(off, run, bhs, v.spb) && |bhs| <= 3 && (run == [] ==> bhs == [] && off == 0)
  }

  lemma SearchBuffers(v: Pass, slots: seq<Slot>, n: nat, p: nat, off: nat, run: seq<nat>, bhs: seq<nat>)
    requires v.spb > 0 && Searching(v, slots, n, p, off, run, bhs)
    ensures InBuffers(off, run, bhs, v.spb)
  {
  }

  ghost function OffsetNow(spb: nat, off: nat, run: seq<nat>, q: nat): nat
    requires spb > 0
  {
    if run == [] then q % spb else off
  }

  lemma StartOver(v: Pass, slots: seq<Slot>, n: nat, p: nat)
    requires v.spb > 0
    ensures Searching(v, slots, n, p, 0, [], [])
  {
  }

  /** The search still stands after moving on to the slot the pass settles on. */
  lemma SearchSettles(v: Pass, slots: seq<Slot>, n: nat, p: nat, off: nat, run: seq<nat>, bhs: seq<nat>)
    requires v.spb > 0 && Searching(v, slots, n, p, off, run, bhs)
    ensures var q := NextSlot(v, p);
            p <= q && NextSlot(v, q) == q && Searching(v, slots, n, q, off, run, bhs)
            && (q / v.spb < v.blocks ==> q < v.blocks * v.spb)
  {
    hide NextSlot, RunOk, InBuffers;
    NextSlotFacts(v, p);
    RunSettles(v, slots, run, p);
    if NextSlot(v, p) / v.spb < v.blocks {
      InDirectory(v, NextSlot(v, p), v.blocks * v.spb);
    }
  }

  lemma FindRunStep(v: Pass, slots: seq<Slot>, n: nat, p: nat, run: seq<nat>)
    requires v.spb > 0 && v.blocks * v.spb <= |slots|
    ensures var q := NextSlot(v, p);
            FindRun(v, slots, n, p, run)
            == if q / v.spb >= v.blocks then Run(run, q)
               else if q + 1 >= MAX_DIR_SLOTS then TooLarge
               else (InDirectory(v, q, v.blocks * v.spb);
                     if !IsFree(slots[q]) then FindRun(v, slots, n, q + 1, [])
                     else if |run| + 1 == n then Run(run + [q], q + 1)
                     else FindRun(v, slots, n, q + 1, run + [q]))
  {
    hide NextSlot;
    NextSlotFacts(v, p);
  }

  lemma FreeAtNow(v: Pass, slots: seq<Slot>, q: nat)
    requires v.spb > 0 && v.blocks * v.spb <= |slots|
    requires NextSlot(v, q) == q && q / v.spb < v.blocks && q < v.blocks * v.spb && IsFree(slots[q])
    ensures FreeAt(v, slots, q)
  {
    NextSlotFacts(v, q);
  }

  lemma NewSlot(v: Pass, slots: seq<Slot>, n: nat, q: nat, off: nat, run: seq<nat>, bhs: seq<nat>)
    requires 16 <= v.spb && |run| < n <= MSDOS_SLOTS
    requires Searching(v, slots, n, q, off, run, bhs) && NextSlot(v, q) == q && FreeAt(v, slots, q)
    ensures Searching(v, slots, n, q + 1, OffsetNow(v.spb, off, run, q), run + [q],
                      if bhs != [] && bhs[|bhs| - 1] == q / v.spb then bhs else bhs + [q / v.spb])
  {
    hide NextSlot, RunOk, FreeAt, Sits;
    RunGrows(v, slots, run, q);
    if run == [] {
      FirstBuffer(q, v.spb);
      assert run + [q] == [q] && bhs + [q / v.spb] == [q / v.spb];
    } else {
      BuffersGrow(v, slots, off, run, bhs, q);
    }
    BuffersFit(OffsetNow(v.spb, off, run, q), |run| + 1, v.spb);
  }

  lemma BuffersFit(off: nat, n: nat, spb: nat)
    requires 16 <= spb && off < spb && 0 < n <= MSDOS_SLOTS
    ensures Blocks(off + n, spb) <= 3
  {
    BufferBound(off, n, spb);
  }

  // ----- filling the run -----

  /** Buffer i begins with entry Given of the run. */
  function Given(off: nat, i: nat, spb: nat): int {
    if i == 0 then 0 else i * spb - off
  }

  lemma BufferSpan(off: nat, run: seq<nat>, bhs: seq<nat>, spb: nat, i: nat)
    requires spb > 0 && run != [] && InBuffers(off, run, bhs, spb) && i < |bhs|
    ensures 0 <= Given(off, i, spb) < |run|
    ensures var offset := if i == 0 then off else 0;
            var copy := Min(spb - offset, |run| - Given(off, i, spb));
            copy > 0 && Given(off, i, spb) + copy == if i + 1 == |bhs| then |run| else Given(off, i + 1, spb)
  {
    var x := off + |run| - 1;
    AddressFacts(spb, x);
    MulMonotone(i, x / spb, spb);
    MulMonotone(1, i, spb);
    if i + 1 == |bhs| {
      assert x / spb == i;
      MulMonotone(x / spb + 1, i + 1, spb);
    } else {
      MulMonotone(i + 1, x / spb, spb);
    }
  }

  /** The entries that buffer i takes are the run's next ones, in its slots from offset on. */
  lemma BufferRun(off: nat, run: seq<nat>, bhs: seq<nat>, spb: nat, i: nat, j: nat)
    requires spb > 0 && InBuffers(off, run, bhs, spb) && i < |bhs|
    requires var offset := if i == 0 then off else 0;
             0 <= Given(off, i, spb) && Given(off, i, spb) + j < |run| && offset + j < spb
    ensures run[Given(off, i, spb) + j] == bhs[i] * spb + (if i == 0 then off else 0) + j
  {
    var k := Given(off, i, spb) + j;
    assert Sits(run[k], off + k, bhs, spb);
    QuotientUnique(spb, i, (if i == 0 then off else 0) + j, off + k);
  }

  lemma CopyStep(v: Pass, was: seq<Slot>, now: seq<Slot>, off: nat, run: seq<nat>, p: nat, bhs: seq<nat>,
      es: seq<Slot>, i: nat)
    requires v.spb > 0 && run != [] && RunOk(v, was, run, p) && InBuffers(off, run, bhs, v.spb) && i < |bhs|
              && |run| <= |es|
    requires 0 <= Given(off, i, v.spb) <= |run| && Placed(was, now, run[..Given(off, i, v.spb)], es)
    ensures var given, offset := Given(off, i, v.spb), if i == 0 then off else 0;
            var copy := Min(v.spb - offset, |run| - given);
            && 0 < copy && bhs[i] * v.spb + offset + copy <= |now| && given + copy <= |run|
            && Placed(was, Spliced(now, bhs[i] * v.spb + offset, es[given..given + copy]), run[..given + copy], es)
  {
    hide RunOk, InBuffers, Spliced, IsFree, Placed;
    BufferSpan(off, run, bhs, v.spb, i);
    var given, offset := Given(off, i, v.spb), if i == 0 then off else 0;
    var copy := Min(v.spb - offset, |run| - given);
    var base := bhs[i] * v.spb + offset;
    PlacedLength(was, now, run[..given], es);
    forall k | given <= k < given + copy
      ensures run[k] == base + (k - given) < |now|
    {
      BufferRun(off, run, bhs, v.spb, i, k - given);
      RunInside(v, was, run, p, k);
    }
    assert run[given] == base && run[given + copy - 1] == base + copy - 1;
    forall k | 0 <= k < given
      ensures run[k] < base
    {
      RunAscends(v, was, run, p, k, given);
    }
    SpliceRun(was, now, run, es, given, copy, base);
  }

  lemma PlacedLength(was: seq<Slot>, now: seq<Slot>, run: seq<nat>, es: seq<Slot>)
    requires Placed(was, now, run, es)
    ensures |now| == |was|
  {
  }

  lemma RunInside(v: Pass, slots: seq<Slot>, run: seq<nat>, p: nat, k: nat)
    requires v.spb > 0 && RunOk(v, slots, run, p) && k < |run|
    ensures run[k] < |slots| && IsFree(slots[run[k]])
  {
    assert FreeAt(v, slots, run[k]);
  }

  lemma SpliceRun(was: seq<Slot>, now: seq<Slot>, run: seq<nat>, es: seq<Slot>, given: nat, copy: nat, base: nat)
    requires given + copy <= |run| <= |es| && base + copy <= |now|
    requires Placed(was, now, run[..given], es)
    requires forall k :: given <= k < given + copy ==> run[k] == base + (k - given)
    requires forall k :: 0 <= k < given ==> run[k] < base
    ensures Placed(was, Spliced(now, base, es[given..given + copy]), run[..given + copy], es)
  {
    var then' := Spliced(now, base, es[given..given + copy]);
    var run' := run[..given + copy];
    forall k | 0 <= k < |run'|
      ensures run'[k] < |then'| && then'[run'[k]] == es[k]
    {
      if k < given {
        assert run[..given][k] == run[k];
      }
    }
    forall i | base <= i < base + copy
      ensures i in run'
    {
      assert run'[given + (i - base)] == i;
    }
    forall i | 0 <= i < |was| && i !in run'
      ensures then'[i] == was[i]
    {
      forall k | 0 <= k < given
        ensures run[..given][k] != i
      {
        assert run'[k] == run[k];
      }
    }
  }

  /** Counting back from where the search stopped hits the offset of the run in its first buffer. */
  lemma OffsetOfRun(v: Pass, slots: seq<Slot>, off: nat, run: seq<nat>, p: nat, bhs: seq<nat>)
    requires v.spb > 0 && run != [] && RunOk(v, slots, run, p) && InBuffers(off, run, bhs, v.spb)
    ensures p >= |run| && (p - |run|) % v.spb == off
  {
    var n := |run|;
    RunAscends(v, slots, run, p, 0, n - 1);
    assert Sits(run[n - 1], off + n - 1, bhs, v.spb);
    assert FreeAt(v, slots, run[n - 1]);
    SitsWhere(run[n - 1], off + n - 1, bhs, v.spb);
    AfterSlot(v, run[n - 1]);
    NextPosition(v.spb, run[n - 1]);
    NextPosition(v.spb, off + n - 1);
    SameRemainder(v.spb, p, off + n, n);
  }

  lemma SameRemainder(m: nat, x: nat, y: nat, n: nat)
    requires m > 0 && x % m == y % m && n <= x && n <= y && y - n < m
    ensures (x - n) % m == y - n
  {
    AddressFacts(m, x);
    AddressFacts(m, y);
    var q := x / m - y / m;
    assert q * m == x / m * m - y / m * m;
    QuotientUnique(m, q, y - n, x - n);
  }

  // ----- removing slots -----

  /** The n slots that fat_get_entry leads to from pos on, one after the other. */
  function Steps(v: Pass, pos: nat, n: nat): seq<nat>
    requires v.spb > 0
    decreases n
  {
    if n == 0 then [] else [NextSlot(v, pos)] + Steps(v, NextSlot(v, pos) + 1, n - 1)
  }

  /** now is was with the listed slots marked deleted. */
  ghost predicate Removed(was: seq<Slot>, now: seq<Slot>, run: seq<nat>) {
    && |now| == |was|
    && (forall k :: 0 <= k < |run| ==> run[k] < |was|)
    && forall i :: 0 <= i < |was| ==> now[i] == if i in run then Deleted(was[i]) else was[i]
  }

  /** Some of the listed slots are marked deleted, and nothing else has changed. */
  ghost predicate OnlyRemoved(was: seq<Slot>, now: seq<Slot>, run: seq<nat>) {
    |now| == |was| && forall i :: 0 <= i < |was| ==> now[i] == was[i] || (i in run && now[i] == Deleted(was[i]))
  }

  function Wiped(slots: seq<Slot>, q: nat, k: nat): (r: seq<Slot>)
    requires q + k <= |slots|
    ensures |r| == |slots|
  {
    seq(|slots|, i requires 0 <= i < |slots| => if q <= i < q + k then Deleted(slots[i]) else slots[i])
  }

  lemma NothingRemoved(was: seq<Slot>)
    ensures Removed(was, was, [])
  {
  }

  lemma {:induction false} StepsLength(v: Pass, pos: nat, n: nat)
    requires v.spb > 0
    ensures |Steps(v, pos, n)| == n
    decreases n
  {
    if n > 0 {
      StepsLength(v, NextSlot(v, pos) + 1, n - 1);
    }
  }

  /** Within a block the next k slots follow each other. */
  lemma {:induction false} StepsInBlock(v: Pass, pos: nat, n: nat, k: nat)
    requires v.spb > 0 && 0 < k <= n
    requires NextSlot(v, pos) / v.spb < v.blocks && NextSlot(v, pos) % v.spb + k <= v.spb
    ensures var q := NextSlot(v, pos);
            && |Steps(v, pos, n)| == n
            && (forall i :: 0 <= i < k ==> Steps(v, pos, n)[i] == q + i)
            && Steps(v, pos, n)[k..] == Steps(v, q + k, n - k)
    decreases k
  {
    hide NextSlot;
    var q := NextSlot(v, pos);
    StepsLength(v, pos, n);
    NextSlotFacts(v, pos);
    AfterSlot(v, q);
    if k > 1 {
      NextPosition(v.spb, q);
      StepsInBlock(v, q + 1, n - 1, k - 1);
      assert Steps(v, pos, n)[k..] == Steps(v, q + 1, n - 1)[k - 1..];
      forall i | 0 < i < k
        ensures Steps(v, pos, n)[i] == q + i
      {
        assert Steps(v, pos, n)[i] == Steps(v, q + 1, n - 1)[i - 1];
      }
    }
  }

  /** All the steps come before the end of what the pass maps. */
  ghost predicate StepsInside(v: Pass, pos: nat, n: nat)
    requires v.spb > 0
  {
    forall k :: 0 <= k < |Steps(v, pos, n)| ==> Steps(v, pos, n)[k] / v.spb < v.blocks
  }

  lemma FirstStep(v: Pass, pos: nat, n: nat)
    requires v.spb > 0 && n > 0
    ensures |Steps(v, pos, n)| > 0 && Steps(v, pos, n)[0] == NextSlot(v, pos)
  {
  }

  lemma InBlock(spb: nat, bh: nat, de: nat, j: nat)
    requires spb > 0 && de + j < spb
    ensures (bh * spb + de + j) / spb == bh
  {
    QuotientUnique(spb, bh, de + j, bh * spb + de + j);
  }

  lemma BlockEnd(v: Pass, bh: nat, de: nat, k: nat, len: nat)
    requires v.spb > 0 && bh < v.blocks && v.blocks * v.spb <= len && de + k <= v.spb
    ensures bh * v.spb + de + k <= len
  {
    MulMonotone(bh + 1, v.blocks, v.spb);
  }

  lemma RemoveStep(v: Pass, was: seq<Slot>, now: seq<Slot>, all: seq<nat>, done: nat, q: nat, k: nat)
    requires v.spb > 0 && done + k <= |all| && Removed(was, now, all[..done]) && q + k <= |now|
    requires forall i :: 0 <= i < k ==> all[done..][i] == q + i
    ensures Removed(was, Wiped(now, q, k), all[..done + k])
  {
    var then', run' := Wiped(now, q, k), all[..done + k];
    forall j | 0 <= j < |run'|
      ensures run'[j] < |was|
    {
      if j < done {
        assert all[..done][j] == run'[j];
      } else {
        assert all[done..][j - done] == run'[j];
      }
    }
    var piece := all[done..][..k];
    assert run' == all[..done] + piece;
    forall i | q <= i < q + k
      ensures i in piece
    {
      assert piece[i - q] == i;
    }
    assert forall i :: i in piece ==> q <= i < q + k;
    forall i | 0 <= i < |was|
      ensures then'[i] == if i in run' then Deleted(was[i]) else was[i]
    {
    }
  }

  lemma OnlyRemovedSome(was: seq<Slot>, now: seq<Slot>, all: seq<nat>, done: nat)
    requires done <= |all| && Removed(was, now, all[..done])
    ensures OnlyRemoved(was, now, all)
  {
    forall i | 0 <= i < |was| && i in all[..done]
      ensures i in all
    {
    }
  }

  lemma NothingPlaced(was: seq<Slot>, run: seq<nat>, es: seq<Slot>)
    ensures Placed(was, was, run[..0], es)
  {
  }

  lemma RunBuffers(off: nat, run: seq<nat>, bhs: seq<nat>, spb: nat)
    requires spb > 0 && run != [] && InBuffers(off, run, bhs, spb)
    ensures bhs != []
  {
  }

  // ----- new clusters -----

  function Zeros(n: nat): (r: seq<Slot>)
    ensures |r| == n
  {
    seq(n, _ => ZeroSlot())
  }

  /** Clusters that n slots need. */
  function Clusters(n: nat, perCluster: nat): nat
    requires perCluster > 0
  {
    Quotient(n + perCluster - 1, perCluster)
  }

  lemma ClusterNeed(n: nat, spb: nat, spc: nat)
    requires 16 <= spb && 0 < spc && 0 < n <= MSDOS_SLOTS
    ensures spb * spc >= spb
    ensures var c := Clusters(n, spb * spc);
            && 1 <= c <= 2 && (c - 1) * (spb * spc) < n <= c * (spb * spc)
            && (c == 2 ==> spc == 1)
  {
    var per := spb * spc;
    MulMonotone(1, spc, spb);
    assert per >= spb;
    AddressFacts(per, n + per - 1);
    var c := (n + per - 1) / per;
    if c >= 3 {
      MulMonotone(3, c, per);
    }
    if c < 1 {
      MulMonotone(c, 0, per);
    }
    if c == 2 && spc >= 2 {
      MulMonotone(2, spc, spb);
    }
  }

  /** Entry positions reach at most the second block, and stay within the clusters. */
  lemma BlockOfArea(size: nat, spb: nat, spc: nat, n: nat)
    requires 16 <= spb && 0 < spc && 0 < size <= MSDOS_SLOTS && n * spb < size
    ensures n <= 1
    ensures n * spb + spb <= Clusters(size, spb * spc) * (spb * spc)
  {
    MulMonotone(2, n, spb);
    ClusterNeed(size, spb, spc);
    var c := Clusters(size, spb * spc);
    assert c * (spb * spc) == c * spc * spb by {
      Associate(c, spb, spc);
    }
    MulMonotone(c * spc, n, spb);
    MulMonotone(n + 1, c * spc, spb);
  }

  lemma NextMultiple(n: nat, m: nat)
    ensures (n + 1) * m == n * m + m
  {
  }

  lemma Associate(c: nat, spb: nat, spc: nat)
    ensures c * (spb * spc) == c * spc * spb
  {
  }

  /** While entries are left there is a cluster left for them. */
  lemma EntriesLeft(size: nat, spb: nat, spc: nat, n: nat, i: nat)
    requires 16 <= spb && 0 < spc && 0 < size <= MSDOS_SLOTS && n == i * spc && n * spb < size
    ensures i < Clusters(size, spb * spc)
  {
    ClusterNeed(size, spb, spc);
    var c := Clusters(size, spb * spc);
    if i >= c {
      MulMonotone(c, i, spb * spc);
      Associate(i, spb, spc);
    }
  }

  /** The entries end in the last cluster, and with two clusters in its only block. */
  lemma LastBlock(c: nat, spb: nat, spc: nat, n: nat)
    requires 1 <= c <= 2 && 0 < spc && (c == 2 ==> spc == 1)
    ensures c * (spb * spc) == ((c - 1) * spc + spc) * spb
    ensures c == 1 ==> (c - 1) * spc == 0
    ensures c == 2 ==> (c - 1) * spc == 1
  {
    Associate(c, spb, spc);
  }

  lemma SpliceNext(area: seq<Slot>, es: seq<Slot>, taken: nat, copy: nat)
    requires taken + copy <= |es| && taken + copy <= |area| && area[..taken] == es[..taken]
    ensures Spliced(area, taken, es[taken..taken + copy])[..taken + copy] == es[..taken + copy]
  {
  }

  function Stale(n: nat, stale: nat -> Slot): (r: seq<Slot>)
    ensures |r| == n
  {
    seq(n, i requires 0 <= i < n => stale(i))
  }

  /** Up to position z the area holds the entries, then zeros. */
  ghost predicate ZeroedFrom(area: seq<Slot>, es: seq<Slot>, z: nat) {
    |es| <= z <= |area| && area[..|es|] == es && forall i :: |es| <= i < z ==> area[i] == ZeroSlot()
  }

  lemma SpliceZeros(area: seq<Slot>, es: seq<Slot>, z: nat, n: nat)
    requires z + n <= |area| && ZeroedFrom(area, es, z)
    ensures ZeroedFrom(Spliced(area, z, Zeros(n)), es, z + n)
  {
  }

  lemma NextZeros(area: seq<Slot>, es: seq<Slot>, z: nat, n: nat)
    requires z + n <= |area| && z == |es| && area[..z] == es
    ensures ZeroedFrom(Spliced(area, z, Zeros(n)), es, z + n)
  {
    SpliceZeros(area, es, z, n);
  }

  lemma ZeroedAll(area: seq<Slot>, es: seq<Slot>)
    ensures ZeroedFrom(area, es, |area|) ==> area == es + Zeros(|area| - |es|)
  {
    if ZeroedFrom(area, es, |area|) {
      assert area == area[..|es|] + area[|es|..];
      assert area[|es|..] == Zeros(|area| - |es|);
    }
  }

  // ----- what adding comes to -----

  function UpTo(a: nat, n: nat): (r: seq<nat>)
    ensures |r| == n && forall k :: 0 <= k < n ==> r[k] == a + k
  {
    seq(n, k requires k >= 0 => a + k)
  }

  /** The slots that es occupies: the free ones found, then the first of the new clusters. */
  function Occupied(f: Search, was: seq<Slot>, n: nat): seq<nat>
    requires f.Run? && |f.run| <= n
  {
    f.run + UpTo(|was|, n - |f.run|)
  }

  /** The entries are in the slots found and at the start of as many new clusters as the others need; the rest of
      those clusters is zero, and no other slot has changed. */
  ghost predicate Added(f: Search, was: seq<Slot>, now: seq<Slot>, es: seq<Slot>, slotOff: int, last: nat,
      perCluster: nat)
    requires perCluster > 0
  {
    && f.Run? && |f.run| <= |es| && |es| > 0
    && |now| == |was| + Clusters(|es| - |f.run|, perCluster) * perCluster
    && Placed(was + Zeros(|now| - |was|), now, Occupied(f, was, |es|), es)
    && slotOff == f.next - |f.run|
    && last == Occupied(f, was, |es|)[|es| - 1]
  }

  /** The directory is as it was, or as removing the run counted back to left it once the run held entries. */
  ghost predicate Undone(f: Search, undo: Pass, was: seq<Slot>, mid: seq<Slot>, now: seq<Slot>, es: seq<Slot>,
      cleared: Status)
    requires undo.spb > 0
  {
    || now == was
    || (&& f.Run? && 0 < |f.run| <= f.next && |f.run| <= |es|
        && (exists given :: 0 <= given <= |f.run| && Placed(was, mid, f.run[..given], es))
        && (if cleared.Ok? then Removed(mid, now, Steps(undo, f.next - |f.run|, |f.run|))
            else OnlyRemoved(mid, now, Steps(undo, f.next - |f.run|, |f.run|))))
  }

  lemma RunCounts(v: Pass, slots: seq<Slot>, run: seq<nat>, p: nat)
    requires v.spb > 0 && RunOk(v, slots, run, p)
    ensures |run| <= p
  {
    if run != [] {
      RunAscends(v, slots, run, p, 0, |run| - 1);
    }
  }

  lemma NothingDone(f: Search, undo: Pass, was: seq<Slot>, es: seq<Slot>)
    requires undo.spb > 0
    ensures Undone(f, undo, was, was, was, es, Ok)
  {
  }

  lemma RolledBack(f: Search, undo: Pass, was: seq<Slot>, mid: seq<Slot>, now: seq<Slot>, es: seq<Slot>,
      cleared: Status, given: nat)
    requires undo.spb > 0 && f.Run? && |f.run| <= f.next && |f.run| <= |es| && given <= |f.run|
    requires Placed(was, mid, f.run[..given], es)
    requires f.run == [] ==> now == mid
    requires f.run != [] && cleared.Ok? ==> Removed(mid, now, Steps(undo, f.next - |f.run|, |f.run|))
    requires f.run != [] && cleared.Err? ==> OnlyRemoved(mid, now, Steps(undo, f.next - |f.run|, |f.run|))
    ensures Undone(f, undo, was, mid, now, es, cleared)
  {
  }

  lemma Grown(spb: nat, spc: nat, blocks: nat, c: nat)
    requires 0 < spc
    ensures (blocks + c * spc) * spb == blocks * spb + c * (spb * spc)
    ensures blocks % spc == 0 ==> (blocks + c * spc) % spc == 0
  {
    Associate(c, spb, spc);
    AddressFacts(spc, blocks);
    if blocks % spc == 0 {
      assert blocks + c * spc == (blocks / spc + c) * spc;
      QuotientUnique(spc, blocks / spc + c, 0, blocks + c * spc);
    }
  }

  lemma NewAdded(f: Search, was: seq<Slot>, mid: seq<Slot>, now: seq<Slot>, es: seq<Slot>, area: seq<Slot>,
      perCluster: nat)
    requires perCluster > 0 && f.Run? && |f.run| < |es| && |f.run| <= f.next
    requires Placed(was, mid, f.run, es) && now == mid + area
    requires var n := |es| - |f.run|; var all := Clusters(n, perCluster) * perCluster;
             n <= all && area == es[|f.run|..] + Zeros(all - n)
    ensures Added(f, was, now, es, f.next - |f.run|, |was| + |es| - |f.run| - 1, perCluster)
  {
    var all := was + Zeros(|now| - |was|);
    var run := Occupied(f, was, |es|);
    forall k | 0 <= k < |run|
      ensures run[k] < |now| && now[run[k]] == es[k]
    {
    }
    forall i | |was| <= i < |was| + (|es| - |f.run|)
      ensures i in run
    {
      assert run[|f.run| + (i - |was|)] == i;
    }
    forall i | 0 <= i < |all| && i !in run
      ensures now[i] == all[i]
    {
      if i < |was| {
        forall k | 0 <= k < |f.run|
          ensures f.run[k] != i
        {
          assert run[k] == f.run[k];
        }
      }
    }
  }

  lemma InPlaceAdded(f: Search, was: seq<Slot>, now: seq<Slot>, es: seq<Slot>, perCluster: nat)
    requires perCluster > 0 && f.Run? && 0 < |f.run| == |es| && f.next == f.run[|es| - 1] + 1
    requires Placed(was, now, f.run, es)
    ensures Added(f, was, now, es, f.next - |f.run|, f.next - 1, perCluster)
  {
    QuotientUnique(perCluster, 0, perCluster - 1, perCluster - 1);
    assert Occupied(f, was, |es|) == f.run;
    assert was + Zeros(|now| - |was|) == was;
  }

  lemma LastWiped(was: seq<Slot>, q: nat, k: nat)
    requires 0 < k && q + k <= |was|
    ensures IsFree(Wiped(was, q, k)[q + k - 1])
  {
  }

  /** A slot marked deleted is still free after more are. */
  lemma RemovedStays(mid: seq<Slot>, now: seq<Slot>, run: seq<nat>, i: nat)
    requires i < |mid| && IsFree(mid[i]) && (Removed(mid, now, run) || OnlyRemoved(mid, now, run))
    ensures i < |now| && IsFree(now[i])
  {
  }

  /** The steps are consecutive slots if and only if each of these can be read, or lies past what the pass maps. */
  lemma {:induction false} StepsConsecutive(v: Pass, pos: nat, n: nat)
    requires v.spb > 0
    ensures Steps(v, pos, n) == UpTo(pos, n) <==> forall i :: pos <= i < pos + n ==> NotSkipped(v, i)
    decreases n
  {
    hide NextSlot, NotSkipped;
    StepsLength(v, pos, n);
    if n > 0 {
      NextSlotFacts(v, pos);
      StepsConsecutive(v, pos + 1, n - 1);
      SkippedIff(v, pos);
      var up := UpTo(pos, n);
      assert up[0] == pos && up[1..] == UpTo(pos + 1, n - 1);
      if NextSlot(v, pos) == pos {
        assert Steps(v, pos, n) == [pos] + Steps(v, pos + 1, n - 1);
        assert [pos] + UpTo(pos + 1, n - 1) == up;
        assert Steps(v, pos, n)[1..] == Steps(v, pos + 1, n - 1);
      } else {
        assert Steps(v, pos, n)[0] != up[0];
        assert !NotSkipped(v, pos);
      }
    }
  }

  predicate NotSkipped(v: Pass, i: nat)
    requires v.spb > 0
  {
    i / v.spb < v.blocks ==> i / v.spb !in v.bad
  }

  lemma SkippedIff(v: Pass, i: nat)
    requires v.spb > 0
    ensures NextSlot(v, i) == i <==> NotSkipped(v, i)
  {
    AddressFacts(v.spb, i);
    var b := NextBlock(v, i / v.spb);
    if b != i / v.spb {
      MulMonotone(i / v.spb + 1, b, v.spb);
    }
  }

  /** The removal of an entry in two stages is the removal of its slots if and only if the slots left for the second
      stage are met one after the other: none of them in an unreadable block. The entry's slots are not deleted yet. */
  lemma RemoveExactIff(v: Pass, was: seq<Slot>, now: seq<Slot>, pos: nat, left: nat, n: nat)
    requires v.spb > 0 && left <= n && pos + n <= |was|
    requires forall i :: pos <= i < pos + n ==> was[i] != Deleted(was[i])
    requires Removed(Wiped(was, pos + left, n - left), now, Steps(v, pos, left))
    ensures now == Wiped(was, pos, n) <==> forall i :: pos <= i < pos + left ==> NotSkipped(v, i)
  {
    StepsConsecutive(v, pos, left);
    StepsLength(v, pos, left);
    var steps := Steps(v, pos, left);
    if steps == UpTo(pos, left) {
      forall i | pos <= i < pos + left
        ensures i in steps
      {
        assert UpTo(pos, left)[i - pos] == i;
      }
    } else if now == Wiped(was, pos, n) {
      forall i | pos <= i < pos + left
        ensures i in steps
      {
        assert now[i] == Deleted(was[i]);
      }
      StepsAscend(v, pos, left);
      SameIfCovers(steps, UpTo(pos, left));
    }
  }

  lemma {:induction false} StepsAscend(v: Pass, pos: nat, n: nat)
    requires v.spb > 0
    ensures |Steps(v, pos, n)| == n
    ensures forall i :: 0 <= i < n ==> Steps(v, pos, n)[i] >= pos + i
    ensures Ascending(Steps(v, pos, n))
    decreases n
  {
    hide NextSlot, Ascending;
    if n > 0 {
      var q := NextSlot(v, pos);
      NextSlotFacts(v, pos);
      StepsAscend(v, q + 1, n - 1);
      AscendingFrom(q, Steps(v, q + 1, n - 1));
    } else {
      NoneAscend();
    }
  }

  lemma NoneAscend()
    ensures Ascending([])
  {
  }

  lemma AscendingFrom(q: nat, rest: seq<nat>)
    requires Ascending(rest) && forall i :: 0 <= i < |rest| ==> rest[i] > q
    ensures Ascending([q] + rest)
  {
  }

  ghost predicate Ascending(xs: seq<nat>) {
    forall i, j :: 0 <= i < j < |xs| ==> xs[i] < xs[j]
  }

  ghost predicate KeepsLevel(xs: seq<nat>, ys: seq<nat>) {
    |xs| == |ys| && forall i :: 0 <= i < |xs| ==> xs[i] >= ys[i]
  }

  ghost predicate Listed(ys: seq<nat>, xs: seq<nat>) {
    forall i :: 0 <= i < |ys| ==> ys[i] in xs
  }

  lemma AscendingAt(xs: seq<nat>, i: nat, j: nat)
    requires Ascending(xs) && i <= j < |xs|
    ensures xs[i] <= xs[j] && (i < j ==> xs[i] < xs[j])
  {
  }

  lemma LevelAt(xs: seq<nat>, ys: seq<nat>, i: nat)
    requires KeepsLevel(xs, ys) && i < |xs|
    ensures |xs| == |ys| && xs[i] >= ys[i]
  {
  }

  lemma ListedAt(ys: seq<nat>, xs: seq<nat>, i: nat) returns (j: nat)
    requires Listed(ys, xs) && i < |ys|
    ensures j < |xs| && xs[j] == ys[i]
  {
    assert ys[i] in xs;
    j :| j < |xs| && xs[j] == ys[i];
  }

  /** An ascending list that keeps level with another of its length and has all its numbers is the same. */
  lemma {:induction false} CoverAt(xs: seq<nat>, ys: seq<nat>, k: nat)
    requires Ascending(xs) && Ascending(ys) && |xs| == |ys| && KeepsLevel(xs, ys) && Listed(ys, xs) && k < |xs|
    ensures xs[k] == ys[k]
  {
    hide *;
    LevelAt(xs, ys, k);
    if k > 0 {
      CoverAt(xs, ys, k - 1);
      AscendingAt(ys, k - 1, k);
    }
    var j := ListedAt(ys, xs, k);
    if j < k {
      AscendingAt(xs, j, k - 1);
    } else {
      AscendingAt(xs, k, j);
    }
  }

  lemma SameIfCovers(xs: seq<nat>, ys: seq<nat>)
    requires Ascending(xs) && Ascending(ys) && |xs| == |ys| && KeepsLevel(xs, ys) && Listed(ys, xs)
    ensures xs == ys
  {
    hide *;
    forall k | 0 <= k < |xs|
      ensures xs[k] == ys[k]
    {
      CoverAt(xs, ys, k);
    }
  }

  /** So is one that has no other numbers. */
  lemma {:induction false} InsideAt(xs: seq<nat>, ys: seq<nat>, k: nat)
    requires Ascending(xs) && Ascending(ys) && |xs| == |ys| && KeepsLevel(xs, ys) && Listed(xs, ys) && k < |xs|
    ensures xs[k] == ys[k]
    decreases |xs| - k
  {
    hide *;
    LevelAt(xs, ys, k);
    if k + 1 < |xs| {
      InsideAt(xs, ys, k + 1);
      AscendingAt(xs, k, k + 1);
    }
    var j := ListedAt(xs, ys, k);
    if j > k {
      AscendingAt(ys, k + 1, j);
    } else {
      AscendingAt(ys, j, k);
    }
  }

  lemma SameIfInside(xs: seq<nat>, ys: seq<nat>)
    requires Ascending(xs) && Ascending(ys) && |xs| == |ys| && KeepsLevel(xs, ys) && Listed(xs, ys)
    ensures xs == ys
  {
    hide *;
    forall k | 0 <= k < |xs|
      ensures xs[k] == ys[k]
    {
      InsideAt(xs, ys, k);
    }
  }
}
