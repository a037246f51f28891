/** Theory of the abstract table: cluster chains, free-entry counts, the allocator's scan order and links. */
module FatChains {
  import opened FatDefs

  predicate InRange(fat: seq<int>, e: int) {
    FAT_START_ENT <= e < |fat|
  }

  /** c lists a whole chain: in-range entries, each pointing to the next, the last marked end-of-chain. */
  ghost predicate IsChain(fat: seq<int>, c: seq<int>) {
    && |c| > 0
    && (forall i :: 0 <= i < |c| ==> InRange(fat, c[i]))
    && (forall i :: 0 <= i < |c| - 1 ==> fat[c[i]] == c[i + 1])
    && fat[c[|c| - 1]] == FAT_ENT_EOF
  }

  ghost predicate Distinct(s: seq<int>) {
    forall i, j :: 0 <= i < j < |s| ==> s[i] != s[j]
  }

  lemma {:induction false} ChainShift(fat: seq<int>, c: seq<int>, i: nat, j: nat, k: nat)
    requires |fat| <= FAT_ENT_EOF && IsChain(fat, c)
    requires i < j && j + k < |c| && c[i] == c[j]
    ensures c[i + k] == c[j + k]
  {
    if k > 0 {
      ChainShift(fat, c, i, j, k - 1);
      assert fat[c[i + k - 1]] == c[i + k - 1 + 1];
      assert fat[c[j + k - 1]] == c[j + k - 1 + 1];
    }
  }

  /** A chain that ends visits no cluster twice, so it is finite. */
  lemma ChainDistinct(fat: seq<int>, c: seq<int>)
    requires |fat| <= FAT_ENT_EOF && IsChain(fat, c)
    ensures Distinct(c)
  {
    forall i, j | 0 <= i < j < |c|
      ensures c[i] != c[j]
    {
      if c[i] == c[j] {
        var k := |c| - 1 - j;
        assert fat[c[i + k]] == c[i + k + 1] && InRange(fat, c[i + k + 1]);
        ChainShift(fat, c, i, j, k);
        assert false;
      }
    }
  }

  /** Two chains with the same first cluster are the same chain. */
  lemma {:induction false} ChainUnique(fat: seq<int>, c: seq<int>, d: seq<int>)
    requires |fat| <= FAT_ENT_EOF && IsChain(fat, c) && IsChain(fat, d) && c[0] == d[0]
    ensures c == d
    decreases |c|
  {
    assert |c| > 1 ==> fat[c[0]] == c[0 + 1] && InRange(fat, c[1]);
    assert |d| > 1 ==> fat[d[0]] == d[0 + 1] && InRange(fat, d[1]);
    if |c| > 1 && |d| > 1 {
      TailIsChain(fat, c);
      TailIsChain(fat, d);
      ChainUnique(fat, c[1..], d[1..]);
      assert c == [c[0]] + c[1..];
      assert d == [d[0]] + d[1..];
    }
  }

  lemma TailIsChain(fat: seq<int>, c: seq<int>)
    requires IsChain(fat, c) && |c| > 1
    ensures IsChain(fat, c[1..])
  {
    assert forall i :: 0 <= i < |c[1..]| ==> c[1..][i] == c[i + 1];
  }

  /** Suffixes of a chain are chains. */
  lemma SuffixIsChain(fat: seq<int>, c: seq<int>, k: nat)
    requires IsChain(fat, c) && k < |c|
    ensures IsChain(fat, c[k..])
  {
    assert forall i :: 0 <= i < |c[k..]| ==> c[k..][i] == c[i + k];
  }

  /** A chain does not notice changes to entries outside it. */
  lemma ChainFrame(fat: seq<int>, fat': seq<int>, c: seq<int>)
    requires IsChain(fat, c) && |fat'| == |fat|
    requires forall i :: 0 <= i < |c| ==> fat'[c[i]] == fat[c[i]]
    ensures IsChain(fat', c)
  {
  }

  /** Chains that share one cluster share everything after it. */
  lemma {:induction false} SharedSuffix(fat: seq<int>, c: seq<int>, d: seq<int>, i: nat, j: nat)
    requires |fat| <= FAT_ENT_EOF && IsChain(fat, c) && IsChain(fat, d)
    requires i < |c| && j < |d| && c[i] == d[j]
    ensures c[i..] == d[j..]
  {
    SuffixIsChain(fat, c, i);
    SuffixIsChain(fat, d, j);
    ChainUnique(fat, c[i..], d[j..]);
  }

  // ----- counting free entries -----

  /** Free entries among FAT_START_ENT .. n-1. */
  ghost function FreeBelow(fat: seq<int>, n: nat): (r: nat)
    requires n <= |fat|
    ensures r <= if n >= FAT_START_ENT then n - FAT_START_ENT else 0
  {
    if n <= FAT_START_ENT then 0
    else FreeBelow(fat, n - 1) + (if fat[n - 1] == FAT_ENT_FREE then 1 else 0)
  }

  ghost function FreeCount(fat: seq<int>): nat {
    FreeBelow(fat, |fat|)
  }

  lemma {:induction false} FreeBelowUpdate(fat: seq<int>, e: int, v: int, n: nat)
    requires InRange(fat, e) && n <= |fat|
    ensures FreeBelow(fat[e := v], n)
            == FreeBelow(fat, n)
               + (if e < n && v == FAT_ENT_FREE && fat[e] != FAT_ENT_FREE then 1
                  else if e < n && v != FAT_ENT_FREE && fat[e] == FAT_ENT_FREE then -1 else 0)
  {
    if n > FAT_START_ENT {
      FreeBelowUpdate(fat, e, v, n - 1);
    }
  }

  lemma FreeCountUpdate(fat: seq<int>, e: int, v: int)
    requires InRange(fat, e)
    ensures FreeCount(fat[e := v])
            == FreeCount(fat)
               + (if v == FAT_ENT_FREE && fat[e] != FAT_ENT_FREE then 1
                  else if v != FAT_ENT_FREE && fat[e] == FAT_ENT_FREE then -1 else 0)
  {
    FreeBelowUpdate(fat, e, v, |fat|);
  }

  // ----- releasing entries -----

  /** The table with every listed entry marked free. */
  ghost function FreeAll(fat: seq<int>, es: seq<int>): (r: seq<int>)
    requires forall i :: 0 <= i < |es| ==> InRange(fat, es[i])
    ensures |r| == |fat|
    ensures forall x :: 0 <= x < |fat| ==> r[x] == if x in es then FAT_ENT_FREE else fat[x]
  {
    if |es| == 0 then fat
    else
      var k := |es| - 1;
      assert InRange(fat, es[k]);
      FreeAll(fat, es[..k])[es[k] := FAT_ENT_FREE]
  }

  /** es is a run of successive pointers starting at e. */
  ghost predicate IsPath(fat: seq<int>, e: int, es: seq<int>) {
    && (forall i :: 0 <= i < |es| ==> InRange(fat, es[i]) && fat[es[i]] != FAT_ENT_FREE)
    && (|es| > 0 ==> es[0] == e)
    && (forall i :: 0 <= i < |es| - 1 ==> fat[es[i]] == es[i + 1])
  }

  lemma PathStep(fat: seq<int>, e: int, es: seq<int>, next: int)
    requires IsPath(fat, e, es) && PathEnd(fat, e, es) == next
    requires InRange(fat, next) && fat[next] != FAT_ENT_FREE && next !in es
    requires Distinct(es)
    ensures IsPath(fat, e, es + [next]) && Distinct(es + [next])
    ensures PathEnd(fat, e, es + [next]) == fat[next]
  {
  }

  /** The cluster a path leads to. */
  ghost function PathEnd(fat: seq<int>, e: int, es: seq<int>): int
    requires IsPath(fat, e, es)
  {
    if |es| == 0 then e else fat[es[|es| - 1]]
  }

  /** A path from a chain's head runs along the chain. */
  lemma {:induction false} PathAlongChain(fat: seq<int>, c: seq<int>, es: seq<int>)
    requires |fat| <= FAT_ENT_EOF && IsChain(fat, c) && IsPath(fat, c[0], es)
    ensures es <= c
    ensures PathEnd(fat, c[0], es) == if |es| < |c| then c[|es|] else FAT_ENT_EOF
    decreases |es|
  {
    if |es| > 0 {
      var k := |es| - 1;
      var init := es[..k];
      assert IsPath(fat, c[0], init);
      PathAlongChain(fat, c, init);
      assert k > 0 ==> fat[es[k - 1]] == es[k - 1 + 1];
      assert InRange(fat, es[k]);
      assert es == init + [es[k]];
      assert k < |c| - 1 ==> fat[c[k]] == c[k + 1];
    }
  }

  // ----- the allocator's scan -----

  /** The j-th entry fat_alloc_clusters looks at: upward from prev + 1, wrapping past the end once. */
  function VisitPos(prev: int, max: int, j: nat): int {
    var p := prev + 1 + j;
    if p < max then p else p - (max - FAT_START_ENT)
  }

  /** Every entry is visited once in max - 2 steps: positions are in range and pairwise different... */
  lemma VisitInjective(prev: int, max: int, i: nat, j: nat)
    requires FAT_START_ENT <= prev < max
    requires i < j < max - FAT_START_ENT
    ensures FAT_START_ENT <= VisitPos(prev, max, i) < max
    ensures FAT_START_ENT <= VisitPos(prev, max, j) < max
    ensures VisitPos(prev, max, i) != VisitPos(prev, max, j)
  {
  }

  /** ...and none is left out. */
  lemma VisitComplete(prev: int, max: int, e: int)
    requires FAT_START_ENT <= prev < max
    requires FAT_START_ENT <= e < max
    ensures exists j: nat :: j < max - FAT_START_ENT && VisitPos(prev, max, j) == e
  {
    var j: nat := if e > prev then e - prev - 1 else e - prev - 1 + (max - FAT_START_ENT);
    assert VisitPos(prev, max, j) == e;
  }

  /** The free entries among the first j visited, in visiting order. */
  ghost function Scan(fat: seq<int>, prev: int, j: nat): (r: seq<int>)
    requires FAT_START_ENT <= prev < |fat| && j <= |fat| - FAT_START_ENT
    ensures |r| <= j
  {
    if j == 0 then [] else
    var e := VisitPos(prev, |fat|, j - 1);
    Scan(fat, prev, j - 1) + (if fat[e] == FAT_ENT_FREE then [e] else [])
  }

  lemma {:induction false} ScanMembers(fat: seq<int>, prev: int, j: nat)
    requires FAT_START_ENT <= prev < |fat| && j <= |fat| - FAT_START_ENT
    ensures forall e :: e in Scan(fat, prev, j) ==>
              InRange(fat, e) && fat[e] == FAT_ENT_FREE && exists i: nat :: i < j && VisitPos(prev, |fat|, i) == e
    ensures forall i: nat :: i < j && fat[VisitPos(prev, |fat|, i)] == FAT_ENT_FREE ==>
              VisitPos(prev, |fat|, i) in Scan(fat, prev, j)
    ensures Distinct(Scan(fat, prev, j))
  {
    if j > 0 {
      ScanMembers(fat, prev, j - 1);
      var e := VisitPos(prev, |fat|, j - 1);
      var s := Scan(fat, prev, j - 1);
      if e in s {
        var i: nat :| i < j - 1 && VisitPos(prev, |fat|, i) == e;
        VisitInjective(prev, |fat|, i, j - 1);
        assert false;
      }
    }
  }

  /** A full scan finds every free entry exactly once: as many as there are. */
  lemma {:induction false} ScanCount(fat: seq<int>, prev: int, j: nat)
    requires FAT_START_ENT <= prev < |fat| && j <= |fat| - FAT_START_ENT
    ensures var n := prev + 1 + j;
            |Scan(fat, prev, j)| ==
            if n <= |fat| then FreeBelow(fat, n) - FreeBelow(fat, prev + 1)
            else FreeCount(fat) - FreeBelow(fat, prev + 1) + FreeBelow(fat, n - (|fat| - FAT_START_ENT))
  {
    if j > 0 {
      ScanCount(fat, prev, j - 1);
    }
  }

  lemma FullScan(fat: seq<int>, prev: int)
    requires FAT_START_ENT <= prev < |fat|
    ensures |Scan(fat, prev, |fat| - FAT_START_ENT)| == FreeCount(fat)
    ensures forall e :: InRange(fat, e) && fat[e] == FAT_ENT_FREE ==> e in Scan(fat, prev, |fat| - FAT_START_ENT)
  {
    ScanCount(fat, prev, |fat| - FAT_START_ENT);
    ScanMembers(fat, prev, |fat| - FAT_START_ENT);
    forall e | InRange(fat, e) && fat[e] == FAT_ENT_FREE
      ensures e in Scan(fat, prev, |fat| - FAT_START_ENT)
    {
      VisitComplete(prev, |fat|, e);
    }
  }

  /** The first entry taken is the nearest free one above prev, or the lowest of all when there is none above. */
  lemma {:induction false} NextFit(fat: seq<int>, prev: int, j: nat)
    requires FAT_START_ENT <= prev < |fat| && j <= |fat| - FAT_START_ENT && Scan(fat, prev, j) != []
    ensures var e := Scan(fat, prev, j)[0];
            && InRange(fat, e) && fat[e] == FAT_ENT_FREE
            && forall x :: InRange(fat, x) && fat[x] == FAT_ENT_FREE ==>
                 if e > prev then prev < x ==> e <= x else x <= prev && e <= x
  {
    if Scan(fat, prev, j - 1) != [] {
      NextFit(fat, prev, j - 1);
    } else {
      ScanMembers(fat, prev, j - 1);
      var e := VisitPos(prev, |fat|, j - 1);
      forall x | InRange(fat, x) && fat[x] == FAT_ENT_FREE
        ensures if e > prev then prev < x ==> e <= x else x <= prev && e <= x
      {
        var i: nat := if x > prev then x - prev - 1 else x - prev - 1 + (|fat| - FAT_START_ENT);
        assert VisitPos(prev, |fat|, i) == x;
      }
    }
  }

  lemma {:induction false} ScanPrefix(fat: seq<int>, prev: int, i: nat, j: nat)
    requires FAT_START_ENT <= prev < |fat| && i <= j <= |fat| - FAT_START_ENT
    ensures Scan(fat, prev, i) <= Scan(fat, prev, j)
  {
    if i < j {
      ScanPrefix(fat, prev, i, j - 1);
    }
  }

  // ----- linking allocated entries -----

  /** The table after the allocator has put each entry of cs in turn: end mark on the newest,
      and the one before it redirected to it. */
  ghost function Link(fat: seq<int>, cs: seq<int>): (r: seq<int>)
    requires forall i :: 0 <= i < |cs| ==> InRange(fat, cs[i])
    ensures |r| == |fat|
  {
    if |cs| == 0 then fat
    else
      var k := |cs| - 1;
      assert InRange(fat, cs[k]) && (k > 0 ==> InRange(fat, cs[k - 1]));
      var f := Link(fat, cs[..k])[cs[k] := FAT_ENT_EOF];
      if k == 0 then f else f[cs[k - 1] := cs[k]]
  }

  /** The linked entries form one chain in order, and nothing else changed. */
  lemma {:induction false} LinkSpec(fat: seq<int>, cs: seq<int>)
    requires forall i :: 0 <= i < |cs| ==> InRange(fat, cs[i])
    requires Distinct(cs)
    ensures forall i :: 0 <= i < |cs| ==>
              Link(fat, cs)[cs[i]] == if i == |cs| - 1 then FAT_ENT_EOF else cs[i + 1]
    ensures forall x :: 0 <= x < |fat| && x !in cs ==> Link(fat, cs)[x] == fat[x]
    ensures |cs| > 0 ==> IsChain(Link(fat, cs), cs)
    decreases |cs|
  {
    if |cs| > 0 {
      var k := |cs| - 1;
      LinkSpec(fat, cs[..k]);
      var init := Link(fat, cs[..k]);
      assert InRange(fat, cs[k]) && (k > 0 ==> InRange(fat, cs[k - 1]) && cs[k - 1] != cs[k]);
      forall i | 0 <= i < k - 1
        ensures Link(fat, cs)[cs[i]] == cs[i + 1]
      {
        assert cs[..k][i] == cs[i] && cs[..k][i + 1] == cs[i + 1];
        assert cs[i] != cs[k] && cs[i] != cs[k - 1];
        assert init[cs[..k][i]] == cs[..k][i + 1];
      }
      assert Link(fat, cs)[cs[k]] == FAT_ENT_EOF;
      assert k > 0 ==> Link(fat, cs)[cs[k - 1]] == cs[k];
      forall i | 0 <= i < |cs|
        ensures Link(fat, cs)[cs[i]] == if i == k then FAT_ENT_EOF else cs[i + 1]
      {
      }
      assert forall x :: x !in cs ==> x !in cs[..k];
    }
  }

  lemma LinkedInUse(fat: seq<int>, cs: seq<int>, e: int)
    requires forall i :: 0 <= i < |cs| ==> InRange(fat, cs[i])
    requires Distinct(cs) && e in cs
    ensures Link(fat, cs)[e] != FAT_ENT_FREE
  {
    LinkSpec(fat, cs);
    var i :| 0 <= i < |cs| && cs[i] == e;
    assert i < |cs| - 1 ==> InRange(fat, cs[i + 1]);
  }

  /** Releasing what was just linked restores the table. */
  lemma UnlinkRestores(fat: seq<int>, cs: seq<int>)
    requires forall i :: 0 <= i < |cs| ==> InRange(fat, cs[i]) && fat[cs[i]] == FAT_ENT_FREE
    requires Distinct(cs)
    ensures FreeAll(Link(fat, cs), cs) == fat
  {
    LinkSpec(fat, cs);
  }

  /** No entry in use in fat differs in fat'. */
  ghost predicate InUseKept(fat: seq<int>, fat': seq<int>) {
    |fat'| == |fat| && forall x :: 0 <= x < |fat| && fat[x] != FAT_ENT_FREE ==> fat'[x] == fat[x]
  }

  /** cs is what the allocator has taken after looking at j entries of fat0, and fat is the table now. */
  ghost predicate Taken(fat0: seq<int>, prev: int, j: nat, cs: seq<int>, fat: seq<int>) {
    && FAT_START_ENT <= prev < |fat0| < FAT_ENT_EOF && j <= |fat0| - FAT_START_ENT
    && cs == Scan(fat0, prev, j)
    && (forall i :: 0 <= i < |cs| ==> InRange(fat0, cs[i]) && fat0[cs[i]] == FAT_ENT_FREE)
    && Distinct(cs)
    && fat == Link(fat0, cs)
  }

  /** An entry still reading as free when it is visited was free from the start... */
  lemma FreeNow(fat0: seq<int>, prev: int, j: nat, cs: seq<int>, fat: seq<int>)
    requires Taken(fat0, prev, j, cs, fat)
    requires j < |fat0| - FAT_START_ENT
    requires fat[VisitPos(prev, |fat0|, j)] == FAT_ENT_FREE
    ensures var e := VisitPos(prev, |fat0|, j);
            InRange(fat0, e) && fat0[e] == FAT_ENT_FREE && e !in cs
  {
    var e := VisitPos(prev, |fat0|, j);
    if e in cs {
      LinkedInUse(fat0, cs, e);
      assert false;
    }
    LinkSpec(fat0, cs);
  }

  /** ...and is taken next. */
  lemma TakeNext(fat0: seq<int>, prev: int, j: nat, cs: seq<int>, fat: seq<int>)
    requires Taken(fat0, prev, j, cs, fat)
    requires j < |fat0| - FAT_START_ENT
    requires fat[VisitPos(prev, |fat0|, j)] == FAT_ENT_FREE
    ensures var e := VisitPos(prev, |fat0|, j);
            var f := fat[e := FAT_ENT_EOF];
            && InRange(fat0, e)
            && (|cs| > 0 ==> cs[|cs| - 1] != e && InRange(fat0, cs[|cs| - 1]))
            && Taken(fat0, prev, j + 1, cs + [e], if |cs| == 0 then f else f[cs[|cs| - 1] := e])
  {
    FreeNow(fat0, prev, j, cs, fat);
    var e := VisitPos(prev, |fat0|, j);
    var cs' := cs + [e];
    assert cs'[..|cs|] == cs;
    assert Scan(fat0, prev, j + 1) == cs';
    assert Distinct(cs');
    assert |cs| > 0 ==> InRange(fat0, cs[|cs| - 1]) && cs[|cs| - 1] != e;
  }

  /** An entry in use is passed over. */
  lemma PassOver(fat0: seq<int>, prev: int, j: nat, cs: seq<int>, fat: seq<int>)
    requires Taken(fat0, prev, j, cs, fat)
    requires j < |fat0| - FAT_START_ENT
    requires fat[VisitPos(prev, |fat0|, j)] != FAT_ENT_FREE
    ensures Taken(fat0, prev, j + 1, cs, fat)
  {
    var e := VisitPos(prev, |fat0|, j);
    LinkSpec(fat0, cs);
    ScanMembers(fat0, prev, j);
    if e in cs {
      var i: nat :| i < j && VisitPos(prev, |fat0|, i) == e;
      VisitInjective(prev, |fat0|, i, j);
      assert false;
    }
  }

  lemma TakenFacts(fat0: seq<int>, prev: int, j: nat, cs: seq<int>, fat: seq<int>)
    requires Taken(fat0, prev, j, cs, fat)
    ensures |cs| > 0 ==> IsChain(fat, cs)
    ensures forall i :: 0 <= i < |cs| ==> InRange(fat0, cs[i]) && fat0[cs[i]] == FAT_ENT_FREE
    ensures Distinct(cs) && fat == Link(fat0, cs) && |fat| == |fat0|
    ensures InUseKept(fat0, fat)
  {
    LinkSpec(fat0, cs);
  }

  /** No more entries are taken than were free; a complete scan takes them all. */
  lemma TakenCount(fat0: seq<int>, prev: int, j: nat, cs: seq<int>, fat: seq<int>)
    requires Taken(fat0, prev, j, cs, fat)
    ensures |cs| <= FreeCount(fat0)
    ensures j == |fat0| - FAT_START_ENT ==> |cs| == FreeCount(fat0)
  {
    FullScan(fat0, prev);
    ScanPrefix(fat0, prev, j, |fat0| - FAT_START_ENT);
  }

  /** A release that starts on a whole chain runs along it, and only a failing device can stop it early. */
  lemma ReleaseAlongChain(fat: seq<int>, c: seq<int>, freed: seq<int>)
    requires |fat| < FAT_ENT_EOF && IsChain(fat, c) && IsPath(fat, c[0], freed)
    ensures freed <= c
    ensures forall i :: 0 <= i < |freed| ==> InRange(fat, freed[i])
    ensures IsChain(fat, freed) ==> freed == c
    ensures !BadEnd(fat, c[0], freed)
  {
    PathAlongChain(fat, c, freed);
    ChainDistinct(fat, c);
    if IsChain(fat, freed) {
      ChainUnique(fat, c, freed);
    }
    if |freed| < |c| {
      assert InRange(fat, c[|freed|]);
      assert |freed| < |c| - 1 ==> fat[c[|freed|]] == c[|freed| + 1] && InRange(fat, c[|freed| + 1]);
    }
  }

  /** Undoing an allocation by releasing its chain: the release runs along the chain just built... */
  lemma RollBackPath(fat0: seq<int>, cs: seq<int>, freed: seq<int>)
    requires |fat0| < FAT_ENT_EOF && |cs| > 0
    requires forall i :: 0 <= i < |cs| ==> InRange(fat0, cs[i]) && fat0[cs[i]] == FAT_ENT_FREE
    requires Distinct(cs)
    requires IsPath(Link(fat0, cs), cs[0], freed)
    ensures freed <= cs
    ensures IsChain(Link(fat0, cs), freed) ==> freed == cs
    ensures !BadEnd(Link(fat0, cs), cs[0], freed)
  {
    LinkSpec(fat0, cs);
    ReleaseAlongChain(Link(fat0, cs), cs, freed);
  }

  /** ...so whatever part of it is released, no entry in use before is affected,
      and a complete release restores the table. */
  lemma RollBack(fat0: seq<int>, cs: seq<int>, freed: seq<int>)
    requires forall i :: 0 <= i < |cs| ==> InRange(fat0, cs[i]) && fat0[cs[i]] == FAT_ENT_FREE
    requires Distinct(cs) && freed <= cs
    ensures freed == cs ==> FreeAll(Link(fat0, cs), freed) == fat0
    ensures InUseKept(fat0, FreeAll(Link(fat0, cs), freed))
  {
    LinkSpec(fat0, cs);
    assert forall i :: 0 <= i < |freed| ==> freed[i] == cs[i];
    if freed == cs {
      UnlinkRestores(fat0, cs);
    }
  }

  /** Where an unwilling chain release stops: an entry outside the table, or one that is (or has become) free. */
  ghost predicate BadEnd(fat: seq<int>, start: int, freed: seq<int>)
    requires IsPath(fat, start, freed)
  {
    var e := PathEnd(fat, start, freed);
    && (InRange(fat, e) ==> fat[e] == FAT_ENT_FREE || e in freed)
    && (|freed| > 0 ==> e != FAT_ENT_EOF)
  }

  /** When every free entry was taken, what a partial undo released is all that is free. */
  lemma {:induction false} FreeAllCount(fat: seq<int>, es: seq<int>)
    requires forall i :: 0 <= i < |es| ==> InRange(fat, es[i]) && fat[es[i]] != FAT_ENT_FREE
    requires Distinct(es)
    ensures FreeCount(FreeAll(fat, es)) == FreeCount(fat) + |es|
  {
    if |es| > 0 {
      var k := |es| - 1;
      FreeAllCount(fat, es[..k]);
      assert InRange(fat, es[k]);
      FreeCountUpdate(FreeAll(fat, es[..k]), es[k], FAT_ENT_FREE);
    }
  }

  lemma {:induction false} LinkCount(fat: seq<int>, cs: seq<int>)
    requires forall i :: 0 <= i < |cs| ==> InRange(fat, cs[i]) && fat[cs[i]] == FAT_ENT_FREE
    requires Distinct(cs)
    ensures FreeCount(Link(fat, cs)) == FreeCount(fat) - |cs|
  {
    if |cs| > 0 {
      var k := |cs| - 1;
      LinkCount(fat, cs[..k]);
      LinkSpec(fat, cs[..k]);
      assert InRange(fat, cs[k]);
      var f := Link(fat, cs[..k]);
      FreeCountUpdate(f, cs[k], FAT_ENT_EOF);
      if k > 0 {
        assert InRange(fat, cs[k - 1]) && cs[k - 1] != cs[k];
        assert cs[..k][k - 1] == cs[k - 1];
        FreeCountUpdate(f[cs[k] := FAT_ENT_EOF], cs[k - 1], cs[k]);
      }
    }
  }
}
