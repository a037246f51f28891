/** A directory as a sequence of 32-byte slots in blocks, and the search of fat_add_entries for free ones. */
module DirSlots {
  import opened Arithmetic
  import opened FatDefs

  /** One raw directory entry. */
  type Slot = s: seq<byte> | |s| == 32 witness seq(32, _ => 0)

  const DELETED_FLAG: byte := 0xE5
  /** FAT_MAX_DIR_SIZE, counted in slots. */
  const MAX_DIR_SLOTS: nat := 65536
  /** MSDOS_SLOTS: a long name and its short entry. */
  const MSDOS_SLOTS: nat := 21

  function ZeroSlot(): Slot {
    seq(32, _ => 0)
  }

  predicate IsFree(s: Slot) {
    s[0] == 0 || s[0] == DELETED_FLAG
  }

  function Deleted(s: Slot): Slot {
    s[0 := DELETED_FLAG]
  }

  // ----- what a pass over the directory reads -----

  /** One pass: fat_bmap maps the first blocks of the directory, and the blocks in bad fail to read. */
  datatype Pass = Pass(spb: nat, blocks: nat, bad: set<nat>)

  /** The block fat__get_entry settles on, from block b. */
  function NextBlock(v: Pass, b: nat): (r: nat)
    ensures r >= b
    ensures r < v.blocks ==> r !in v.bad
    ensures forall x :: b <= x < r ==> x in v.bad && x < v.blocks
    ensures r >= v.blocks ==> r == if b >= v.blocks then b else v.blocks
    decreases v.blocks - b
  {
    if b < v.blocks && b in v.bad then NextBlock(v, b + 1) else b
  }

  /** The slot fat__get_entry settles on, from slot p. */
  function NextSlot(v: Pass, p: nat): nat
    requires v.spb > 0
  {
    var b := NextBlock(v, p / v.spb);
    if b == p / v.spb then p else b * v.spb
  }

  lemma NextSlotFacts(v: Pass, p: nat)
    requires v.spb > 0
    ensures NextSlot(v, p) >= p
    ensures NextSlot(v, p) / v.spb == NextBlock(v, p / v.spb)
    ensures NextSlot(v, p) != p ==> NextSlot(v, p) % v.spb == 0 && p / v.spb < v.blocks
  {
    var b := NextBlock(v, p / v.spb);
    AddressFacts(v.spb, p);
    if b != p / v.spb {
      MulMonotone(p / v.spb + 1, b, v.spb);
      QuotientUnique(v.spb, b, 0, b * v.spb);
    }
  }

  lemma Settled(v: Pass, p: nat)
    requires v.spb > 0
    ensures NextSlot(v, NextSlot(v, p)) == NextSlot(v, p)
  {
    NextSlotFacts(v, p);
  }

  /** Slot p of the pass can be read. */
  predicate Reads(v: Pass, p: nat)
    requires v.spb > 0
  {
    p / v.spb < v.blocks && p / v.spb !in v.bad
  }

  lemma InDirectory(v: Pass, p: nat, len: nat)
    requires v.spb > 0 && p / v.spb < v.blocks && v.blocks * v.spb <= len
    ensures p < len
  {
    AddressFacts(v.spb, p);
    MulMonotone(p / v.spb + 1, v.blocks, v.spb);
  }

  /** A readable slot is followed by the next one of its block, or by the start of a later block. */
  lemma AfterSlot(v: Pass, p: nat)
    requires v.spb > 0 && Reads(v, p)
    ensures NextSlot(v, p + 1) % v.spb == (p + 1) % v.spb
    ensures p % v.spb + 1 < v.spb ==> NextSlot(v, p + 1) == p + 1 && (p + 1) / v.spb == p / v.spb
    ensures p % v.spb + 1 == v.spb ==> (p + 1) % v.spb == 0 && (p + 1) / v.spb == p / v.spb + 1
  {
    AddressFacts(v.spb, p);
    NextSlotFacts(v, p + 1);
    if p % v.spb + 1 < v.spb {
      QuotientUnique(v.spb, p / v.spb, p % v.spb + 1, p + 1);
    } else {
      QuotientUnique(v.spb, p / v.spb + 1, 0, p + 1);
    }
  }

  // ----- the search for free slots -----

  /** Outcome of the search: the free run it ended with and the position after it, or a directory too large. */
  datatype Search = TooLarge | Run(run: seq<nat>, next: nat)

  /** The search of fat_add_entries, as a function of the pass: n free slots in a row are wanted. */
  function FindRun(v: Pass, slots: seq<Slot>, n: nat, p: nat, run: seq<nat>): Search
    requires v.spb > 0 && v.blocks * v.spb <= |slots|
    decreases v.blocks * v.spb - p
  {
    NextSlotFacts(v, p);
    var q := NextSlot(v, p);
    if q / v.spb >= v.blocks then Run(run, q)
    else
      InDirectory(v, q, v.blocks * v.spb);
      if q + 1 >= MAX_DIR_SLOTS then TooLarge
      else if !IsFree(slots[q]) then FindRun(v, slots, n, q + 1, [])
      else if |run| + 1 == n then Run(run + [q], q + 1)
      else FindRun(v, slots, n, q + 1, run + [q])
  }

  /** Slot i can be read and is free. */
  predicate FreeAt(v: Pass, slots: seq<Slot>, i: nat)
    requires v.spb > 0
  {
    Reads(v, i) && i < |slots| && IsFree(slots[i])
  }

  /** Entry k of the run is the slot the pass meets after entry k - 1. */
  ghost predicate Linked(v: Pass, run: seq<nat>, k: nat)
    requires v.spb > 0 && 0 < k < |run|
  {
    run[k] == NextSlot(v, run[k - 1] + 1)
  }

  /** run lists readable free slots in the order the pass meets them, and p is where the pass stands after them. */
  ghost predicate RunOk(v: Pass, slots: seq<Slot>, run: seq<nat>, p: nat)
    requires v.spb > 0
  {
    && (forall k :: 0 <= k < |run| ==> FreeAt(v, slots, run[k]))
    && (forall k :: 0 < k < |run| ==> Linked(v, run, k))
    && (run != [] ==> p == run[|run| - 1] + 1 || p == NextSlot(v, run[|run| - 1] + 1))
  }

  lemma RunGrows(v: Pass, slots: seq<Slot>, run: seq<nat>, q: nat)
    requires v.spb > 0 && RunOk(v, slots, run, q) && NextSlot(v, q) == q && FreeAt(v, slots, q)
    ensures RunOk(v, slots, run + [q], q + 1)
  {
    hide NextSlot, FreeAt;
    forall k | 0 < k < |run + [q]|
      ensures Linked(v, run + [q], k)
    {
      if k < |run| {
        assert Linked(v, run, k);
      } else {
        Settled(v, run[|run| - 1] + 1);
      }
    }
  }

  /** The pass settles on slot q without leaving the run. */
  lemma RunSettles(v: Pass, slots: seq<Slot>, run: seq<nat>, p: nat)
    requires v.spb > 0 && RunOk(v, slots, run, p)
    ensures RunOk(v, slots, run, NextSlot(v, p))
    ensures NextSlot(v, NextSlot(v, p)) == NextSlot(v, p)
  {
    hide NextSlot, FreeAt, Linked;
    Settled(v, p);
    if run != [] {
      Settled(v, run[|run| - 1] + 1);
    }
  }

  /** What any pass ends with: readable free slots only, in order, n of them unless the pass reached the end. */
  lemma {:induction false} FindRunOk(v: Pass, slots: seq<Slot>, n: nat, p: nat, run: seq<nat>)
    requires v.spb > 0 && v.blocks * v.spb <= |slots| && |run| < n
    requires RunOk(v, slots, run, p)
    ensures var f := FindRun(v, slots, n, p, run);
            f.Run? ==> RunOk(v, slots, f.run, f.next) && |f.run| <= n
                       && (|f.run| < n ==> f.next / v.spb >= v.blocks)
                       && (|f.run| == n ==> f.next == f.run[n - 1] + 1)
    decreases v.blocks * v.spb - p
  {
    hide NextSlot, RunOk, IsFree;
    NextSlotFacts(v, p);
    RunSettles(v, slots, run, p);
    var q := NextSlot(v, p);
    if q / v.spb < v.blocks {
      InDirectory(v, q, v.blocks * v.spb);
      if q + 1 < MAX_DIR_SLOTS {
        if !IsFree(slots[q]) {
          NoRun(v, slots, q + 1);
          FindRunOk(v, slots, n, q + 1, []);
        } else {
          RunGrows(v, slots, run, q);
          if |run| + 1 < n {
            FindRunOk(v, slots, n, q + 1, run + [q]);
          }
        }
      }
    }
  }

  lemma NoRun(v: Pass, slots: seq<Slot>, p: nat)
    requires v.spb > 0
    ensures RunOk(v, slots, [], p)
  {
  }

  // ----- where the run lies -----

  ghost predicate Contiguous(run: seq<nat>, pos: int) {
    forall k :: 0 <= k < |run| ==> run[k] == pos + k
  }

  /** No unreadable block begins between slot a and slot z. */
  ghost predicate NoGap(v: Pass, a: nat, z: nat)
    requires v.spb > 0
  {
    forall b :: a / v.spb < b <= (z - 1) / v.spb ==> b !in v.bad
  }

  lemma {:induction false} RunAscends(v: Pass, slots: seq<Slot>, run: seq<nat>, p: nat, k: nat, j: nat)
    requires v.spb > 0 && RunOk(v, slots, run, p) && k <= j < |run|
    ensures run[k] + (j - k) <= run[j] < p
    decreases j - k
  {
    NextSlotFacts(v, run[|run| - 1] + 1);
    if k < j {
      RunAscends(v, slots, run, p, k, j - 1);
      assert Linked(v, run, j);
      NextSlotFacts(v, run[j - 1] + 1);
    }
    if j < |run| - 1 {
      RunBelow(v, slots, run, p, j);
    }
  }

  lemma {:induction false} RunBelow(v: Pass, slots: seq<Slot>, run: seq<nat>, p: nat, j: nat)
    requires v.spb > 0 && RunOk(v, slots, run, p) && j < |run|
    ensures run[j] < p
    decreases |run| - j
  {
    NextSlotFacts(v, run[j] + 1);
    if j < |run| - 1 {
      RunBelow(v, slots, run, p, j + 1);
      assert Linked(v, run, j + 1);
    }
  }

  /** Without a gap the pass goes from each slot of the run to the very next one. */
  lemma StepWithoutGap(v: Pass, slots: seq<Slot>, run: seq<nat>, p: nat, k: nat)
    requires v.spb > 0 && RunOk(v, slots, run, p) && k < |run|
    requires NoGap(v, run[0], p)
    ensures k < |run| - 1 ==> run[k + 1] == run[k] + 1
    ensures k == |run| - 1 ==> p == run[k] + 1
  {
    hide NextSlot;
    var x := run[k] + 1;
    var y := if k < |run| - 1 then run[k + 1] else p;
    assert k < |run| - 1 ==> Linked(v, run, k + 1);
    AfterSlot(v, run[k]);
    NextSlotFacts(v, x);
    if NextSlot(v, x) != x && y != x {
      RunAscends(v, slots, run, p, 0, k);
      assert x <= p - 1 by {
        if k < |run| - 1 {
          RunBelow(v, slots, run, p, k + 1);
        }
      }
      QuotientMonotone(v.spb, run[0], run[k]);
      QuotientMonotone(v.spb, x, p - 1);
      NextBlockSkips(v, x);
      assert false;
    }
  }

  lemma NextBlockSkips(v: Pass, x: nat)
    requires v.spb > 0 && NextSlot(v, x) != x
    ensures x / v.spb in v.bad
  {
  }

  lemma {:induction false} RunWithoutGap(v: Pass, slots: seq<Slot>, run: seq<nat>, p: nat, k: nat)
    requires v.spb > 0 && RunOk(v, slots, run, p) && k < |run|
    requires NoGap(v, run[0], p)
    ensures run[k] == run[0] + k
  {
    if k > 0 {
      RunWithoutGap(v, slots, run, p, k - 1);
      StepWithoutGap(v, slots, run, p, k - 1);
    }
  }

  /** The slots found are the ones fat_add_entries counts back to if and only if it skipped no unreadable block. */
  lemma ContiguousIff(v: Pass, slots: seq<Slot>, run: seq<nat>, p: nat)
    requires v.spb > 0 && RunOk(v, slots, run, p) && run != []
    ensures p >= |run|
    ensures Contiguous(run, p - |run|) <==> NoGap(v, run[0], p)
  {
    hide NextSlot, FreeAt;
    RunAscends(v, slots, run, p, 0, |run| - 1);
    if NoGap(v, run[0], p) {
      forall k | 0 <= k < |run|
        ensures run[k] == run[0] + k
      {
        RunWithoutGap(v, slots, run, p, k);
      }
      StepWithoutGap(v, slots, run, p, |run| - 1);
    }
    if Contiguous(run, p - |run|) {
      forall b | run[0] / v.spb < b <= (p - 1) / v.spb
        ensures b !in v.bad
      {
        BlockOfRun(v, slots, run, p, b);
      }
    }
  }

  lemma BlockOfRun(v: Pass, slots: seq<Slot>, run: seq<nat>, p: nat, b: nat)
    requires v.spb > 0 && RunOk(v, slots, run, p) && run != [] && p >= |run|
    requires Contiguous(run, p - |run|) && run[0] / v.spb < b <= (p - 1) / v.spb
    ensures b !in v.bad
  {
    hide NextSlot, FreeAt, Linked;
    BlockBetween(v.spb, run[0], b, p);
    ReadsOf(v, slots, run[b * v.spb - run[0]]);
  }

  /** A block after that of slot x and not after that of slot p - 1 begins between the two. */
  lemma BlockBetween(spb: nat, x: nat, b: nat, p: nat)
    requires spb > 0 && p > 0 && x / spb < b <= (p - 1) / spb
    ensures x < b * spb < p && b * spb / spb == b
  {
    AddressFacts(spb, x);
    AddressFacts(spb, p - 1);
    MulMonotone(x / spb + 1, b, spb);
    MulMonotone(b, (p - 1) / spb, spb);
    QuotientUnique(spb, b, 0, b * spb);
  }

  lemma ReadsOf(v: Pass, slots: seq<Slot>, i: nat)
    requires v.spb > 0 && FreeAt(v, slots, i)
    ensures i / v.spb !in v.bad
  {
  }

  // ----- the search when every block can be read -----

  /** Every block of the directory is mapped and readable. */
  predicate Clean(v: Pass, len: nat) {
    v.bad == {} && v.blocks * v.spb == len
  }

  ghost predicate Window(slots: seq<Slot>, q: nat, n: nat) {
    q + n <= |slots| && forall i :: q <= i < q + n ==> IsFree(slots[i])
  }

  ghost predicate NoWindow(slots: seq<Slot>, n: nat, e: nat) {
    forall q: nat :: q + n <= e ==> !Window(slots, q, n)
  }

  /** run is the whole stretch of free slots that ends at p. */
  ghost predicate Tail(slots: seq<Slot>, run: seq<nat>, p: nat) {
    && |run| <= p <= |slots| && Contiguous(run, p - |run|)
    && (forall i :: p - |run| <= i < p ==> IsFree(slots[i]))
    && (p > |run| ==> !IsFree(slots[p - |run| - 1]))
  }

  lemma NoWindowGrows(slots: seq<Slot>, n: nat, p: nat, run: seq<nat>)
    requires n > 0 && p < |slots| && Tail(slots, run, p) && NoWindow(slots, n, p)
    requires !IsFree(slots[p]) || |run| + 1 < n
    ensures NoWindow(slots, n, p + 1)
  {
    forall q: nat | q + n <= p + 1
      ensures !Window(slots, q, n)
    {
      if q + n == p + 1 && IsFree(slots[p]) {
        assert q <= p - |run| - 1 < q + n;
        assert !IsFree(slots[p - |run| - 1]);
      }
    }
  }

  /** The search ended with the first n free slots in a row; or there are none, and it has every free slot at the
      end. */
  ghost predicate FoundFirst(slots: seq<Slot>, n: nat, run: seq<nat>, next: nat)
    requires n > 0
  {
    && |run| <= next <= |slots| && Contiguous(run, next - |run|)
    && (|run| == n ==> Window(slots, next - n, n) && NoWindow(slots, n, next - 1))
    && (|run| != n ==> |run| < n && next == |slots| && Tail(slots, run, next) && NoWindow(slots, n, next))
  }

  /** In a readable directory the search is first fit. */
  lemma {:induction false} FirstFit(v: Pass, slots: seq<Slot>, n: nat, p: nat, run: seq<nat>)
    requires v.spb > 0 && Clean(v, |slots|) && |run| < n
    requires Tail(slots, run, p) && NoWindow(slots, n, p)
    ensures var f := FindRun(v, slots, n, p, run);
            f.Run? ==> FoundFirst(slots, n, f.run, f.next)
    decreases |slots| - p
  {
    hide NextSlot, IsFree, NoWindow;
    CleanNext(v, slots, p);
    if p < |slots| && p + 1 < MAX_DIR_SLOTS {
      if !IsFree(slots[p]) {
        NoWindowGrows(slots, n, p, run);
        FirstFit(v, slots, n, p + 1, []);
      } else if |run| + 1 < n {
        NoWindowGrows(slots, n, p, run);
        FirstFit(v, slots, n, p + 1, run + [p]);
      }
    }
  }

  lemma CleanNext(v: Pass, slots: seq<Slot>, p: nat)
    requires v.spb > 0 && Clean(v, |slots|) && p <= |slots|
    ensures NextSlot(v, p) == p
    ensures p / v.spb < v.blocks <==> p < |slots|
  {
    AddressFacts(v.spb, p);
    MulMonotone(v.blocks, p / v.spb, v.spb);
    MulMonotone(p / v.spb + 1, v.blocks, v.spb);
  }
}
