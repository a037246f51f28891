/** The driver's own inode table, keyed by the position of the directory entry, and what a rename does to it. */
module InodeHash {
  import opened FatDefs

  // ----- bucket lists -----

  /** A list without one of its members. */
  function Without(s: seq<nat>, x: nat): seq<nat> {
    if s == [] then [] else if s[0] == x then Without(s[1..], x) else [s[0]] + Without(s[1..], x)
  }

  ghost predicate NoRepeats(s: seq<nat>) {
    forall i, j :: 0 <= i < j < |s| ==> s[i] != s[j]
  }

  lemma {:induction false} WithoutMembers(s: seq<nat>, x: nat)
    ensures forall y :: y in Without(s, x) <==> y in s && y != x
    ensures NoRepeats(s) ==> NoRepeats(Without(s, x))
  {
    if s != [] {
      WithoutMembers(s[1..], x);
      assert s == [s[0]] + s[1..];
      if NoRepeats(s) && s[0] != x {
        assert forall j :: 0 <= j < |s[1..]| ==> s[1..][j] == s[j + 1];
        assert s[0] !in s[1..];
      }
    }
  }

  // ----- the table -----

  class Table {
    /** hash_32 of a position. */
    const hash: int -> nat
    const buckets: array<seq<nat>>
    /** i_pos of every inode in memory; 0 is an inode in no bucket. */
    var pos: map<nat, int>
    /** Inodes being freed, which igrab refuses. */
    var dying: set<nat>
    /** What has failed so far outside the table: memory, reading an entry, directories, writing out. */
    var faults: nat

    /** Each inode with a position is in the bucket of that position, once, and in no other. */
    ghost predicate Hashed()
      reads this`pos, this`dying, buckets
    {
      && (forall p :: hash(p) < buckets.Length)
      && (forall b :: 0 <= b < buckets.Length ==> BucketOk(b))
      && (forall i :: i in pos && pos[i] != 0 ==> i in buckets[hash(pos[i])])
    }

    ghost predicate BucketOk(b: nat)
      requires b < buckets.Length
      reads this`pos, this`dying, buckets
    {
      NoRepeats(buckets[b]) && forall i :: i in buckets[b] ==> i in pos && pos[i] != 0 && hash(pos[i]) == b
    }

    /** No two inodes alive have the same position. */
    ghost predicate Unique()
      reads this`pos, this`dying
    {
      forall i, j :: Alive(i) && Alive(j) && pos[i] == pos[j] ==> i == j
    }

    ghost predicate Valid()
      reads this`pos, this`dying, buckets
    {
      Hashed() && Unique()
    }

    /** An inode with a position that igrab would grant. */
    predicate Alive(i: nat)
      reads this`pos, this`dying
    {
      i in pos && pos[i] != 0 && i !in dying
    }

    /** fat_attach: to the front of its bucket. */
    method Attach(inode: nat, iPos: int)
      requires Hashed() && inode in pos && pos[inode] == 0 && iPos != 0
      modifies this`pos, buckets
      ensures Hashed() && pos == old(pos)[inode := iPos]
      ensures old(Unique()) && (forall i :: old(Alive(i)) ==> old(pos[i]) != iPos) ==> Unique()
    {
      var b := hash(iPos);
      forall c | 0 <= c < buckets.Length
        ensures inode !in buckets[c]
      {
        assert BucketOk(c);
      }
      ghost var was := buckets[b];
      pos := pos[inode := iPos];
      buckets[b] := [inode] + buckets[b];
      forall c | 0 <= c < buckets.Length
        ensures BucketOk(c)
      {
        assert old(BucketOk(c));
        if c == b {
          assert forall j :: 0 < j < |buckets[b]| ==> buckets[b][j] == was[j - 1];
        }
      }
    }

    /** fat_detach, of an inode in a bucket or in none. */
    method Detach(inode: nat)
      requires Hashed() && inode in pos
      modifies this`pos, buckets
      ensures Hashed() && pos == old(pos)[inode := 0]
      ensures old(Unique()) ==> Unique()
    {
      var b := hash(pos[inode]);
      forall c | 0 <= c < buckets.Length && (pos[inode] == 0 || c != b)
        ensures inode !in buckets[c]
      {
        assert BucketOk(c);
      }
      if pos[inode] != 0 {
        WithoutMembers(buckets[b], inode);
        buckets[b] := Without(buckets[b], inode);
      }
      pos := pos[inode := 0];
      forall c | 0 <= c < buckets.Length
        ensures BucketOk(c)
      {
        assert old(BucketOk(c));
      }
    }

    /** fat_iget: the first inode alive in the bucket with that position. */
    method Iget(iPos: int) returns (found: bool, inode: nat)
      requires Hashed() && iPos != 0
      ensures found ==> Alive(inode) && pos[inode] == iPos
      ensures found <==> exists i :: Alive(i) && pos[i] == iPos
    {
      var list := buckets[hash(iPos)];
      assert BucketOk(hash(iPos));
      var k := 0;
      while k < |list|
        invariant 0 <= k <= |list|
        invariant forall j :: 0 <= j < k ==> !(Alive(list[j]) && pos[list[j]] == iPos)
      {
        if pos[list[k]] == iPos && list[k] !in dying {
          return true, list[k];
        }
        k := k + 1;
      }
      return false, 0;
    }

    /** An operation outside the table ends as it pleases; each failure is counted. */
    method Outcome() returns (st: Status)
      modifies this`faults
      ensures faults == old(faults) + if st.Ok? then 0 else 1
    {
      var failed: bool, error: Errno := *, *;
      st := if failed then Err(error) else Ok;
      if failed {
        faults := faults + 1;
      }
    }

    /** new_inode: an inode in no bucket. */
    method NewInode(unused: nat)
      requires Hashed() && unused !in pos
      modifies this`pos
      ensures Hashed() && pos == old(pos)[unused := 0]
      ensures old(Unique()) ==> Unique()
    {
      pos := pos[unused := 0];
      forall c | 0 <= c < buckets.Length
        ensures BucketOk(c)
      {
        assert old(BucketOk(c));
      }
    }

    /** fat_build_inode: the inode alive at that position, or a new one put there; getting it or reading the entry may
        fail. */
    method Build(iPos: int, unused: nat) returns (st: Status, inode: nat)
      requires Valid() && iPos != 0 && unused !in pos && unused !in dying
      modifies this`pos, this`faults, buckets
      ensures Valid()
      ensures faults == old(faults) + if st.Ok? then 0 else 1
      ensures st.Ok? ==> Alive(inode) && pos[inode] == iPos
      ensures (exists i :: old(Alive(i)) && old(pos[i]) == iPos) ==> st.Ok? && pos == old(pos)
      ensures (forall i :: old(Alive(i)) ==> old(pos[i]) != iPos) ==>
                if st.Ok? then inode == unused && pos == old(pos)[unused := iPos] else pos == old(pos)
    {
      hide Table.Hashed, Table.Unique;
      var found;
      found, inode := Iget(iPos);
      if found {
        return Ok, inode;
      }
      st := Outcome();
      if st.Err? {
        return;
      }
      inode := unused;
      NewInode(unused);
      Attach(unused, iPos);
    }

    lemma OnlyOne(inode: nat)
      requires Unique() && Alive(inode)
      ensures forall i :: Alive(i) && pos[i] == pos[inode] ==> i == inode
    {
    }

    /** No inode alive is at that position, but for the one named. */
    ghost predicate FreeBut(iPos: int, inode: nat)
      reads this`pos, this`dying
    {
      forall i :: Alive(i) && i != inode ==> pos[i] != iPos
    }

    /** fat_detach and fat_attach: the inode goes to another position. */
    method Rehash(inode: nat, iPos: int)
      requires Hashed() && Unique() && inode in pos && iPos != 0 && FreeBut(iPos, inode)
      modifies this`pos, buckets
      ensures Hashed() && Unique() && pos == old(pos)[inode := iPos]
    {
      hide Table.Hashed, Table.Unique;
      Detach(inode);
      Attach(inode, iPos);
    }

    /** The positions once inode has gone to a new entry at newPos, over the one of another inode if there was one. */
    ghost function Moved(was: map<nat, int>, inode: nat, newPos: int, target: Target): map<nat, int>
    {
      (if target.Over? then was[target.inode := 0] else was)[inode := newPos]
    }

    /** The part of do_msdos_rename that moves inodes: old_inode goes from its entry to the one of new_inode, or to a
        new entry. Each step keeps the table valid; a failure puts every inode back. */
    method Rename(inode: nat, target: Target) returns (st: Status)
      requires Valid() && Alive(inode)
      requires target.Over? ==> Alive(target.inode) && target.inode != inode
      requires target.Fresh? ==> target.pos != 0 && forall i :: Alive(i) ==> pos[i] != target.pos
      modifies this`pos, this`faults, buckets
      ensures Valid()
      ensures faults == old(faults) + if st.Ok? then 0 else 1
      ensures st.Ok? ==> pos == Moved(old(pos), inode, if target.Over? then old(pos[target.inode]) else target.pos,
                                      target)
      ensures st.Err? ==> pos == old(pos)
    {
      hide Table.Hashed, Table.Unique;
      ghost var was := pos;
      var oldPos := pos[inode];
      var newPos;
      OnlyOne(inode);
      if target.Over? {
        OnlyOne(target.inode);
        // fat_scan may not find the entry, or the directory may not be empty
        st := Outcome();
        if st.Err? {
          return;
        }
        newPos := pos[target.inode];
        Detach(target.inode);
      } else {
        newPos := target.pos;
        // msdos_add_entry may fail
        st := Outcome();
        if st.Err? {
          return;
        }
      }
      Rehash(inode, newPos);
      // syncing the inode, syncing its ".." entry, or removing the old entry may fail
      st := Outcome();
      if st.Ok? {
        return;
      }
      Rehash(inode, oldPos);
      if target.Over? {
        Attach(target.inode, newPos);
      }
      assert pos == was;
    }
  }

  /** Where a rename goes: over an inode's entry, or to a fresh entry at a position. */
  datatype Target = Over(inode: nat) | Fresh(pos: int)

  /** A finished rename leaves the inode as the only one alive at its new place, none at its old one, and all others
      where they were. */
  lemma RenameMoves(t: Table, was: map<nat, int>, inode: nat, newPos: int, target: Target)
    requires t.Valid() && inode in was && was[inode] != 0 && inode !in t.dying && newPos != 0 && newPos != was[inode]
    requires t.pos == t.Moved(was, inode, newPos, target)
    requires target.Over? ==> target.inode in was && target.inode != inode && was[target.inode] == newPos
    requires forall i, j :: i in was && j in was && i !in t.dying && j !in t.dying && was[i] == was[j] != 0 ==> i == j
    ensures forall i :: t.Alive(i) && t.pos[i] == newPos <==> i == inode
    ensures forall i :: t.Alive(i) ==> t.pos[i] != was[inode]
    ensures forall i :: i in was && i != inode && (target.Over? ==> i != target.inode) ==>
              i in t.pos && t.pos[i] == was[i]
  {
    assert t.Alive(inode);
    forall i | t.Alive(i)
      ensures t.pos[i] != was[inode]
    {
      if i != inode {
        assert i in was;
      }
    }
  }
}
