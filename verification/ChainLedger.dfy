/** All files' chains over one table: no cluster belongs to two files, whatever sequence of growing, shrinking
    and failing operations is run. Files are named by inode number. */
module ChainLedger {
  import opened FatDefs
  import opened FatChains

  /** The table, and for each file the list of its clusters (empty for a file with no first cluster). */
  datatype Ledger = Ledger(fat: seq<int>, chains: map<nat, seq<int>>)

  ghost predicate ChainOk(fat: seq<int>, c: seq<int>) {
    c == [] || IsChain(fat, c)
  }

  ghost predicate Apart(c: seq<int>, d: seq<int>) {
    forall x :: x in c ==> x !in d
  }

  /** Every file's clusters form one finite chain, and different files have none in common. */
  ghost predicate Sound(s: Ledger) {
    && |s.fat| < FAT_ENT_EOF
    && (forall k :: k in s.chains ==> ChainOk(s.fat, s.chains[k]))
    && (forall k, l :: k in s.chains && l in s.chains && k != l ==> Apart(s.chains[k], s.chains[l]))
  }

  /** Cluster e belongs to some file. */
  ghost predicate Held(chains: map<nat, seq<int>>, e: int) {
    exists k: nat :: k in chains && e in chains[k]
  }

  /** Nothing is leaked either: an entry is free exactly when no file has it. */
  ghost predicate Accounted(s: Ledger) {
    forall e :: InRange(s.fat, e) ==> (s.fat[e] == FAT_ENT_FREE <==> !Held(s.chains, e))
  }

  // ----- what the operations do -----

  /** A free cluster becomes the last of file k. */
  ghost predicate Grown(s: Ledger, s': Ledger, k: nat, c: int) {
    && k in s.chains && InRange(s.fat, c) && s.fat[c] == FAT_ENT_FREE
    && s'.chains == s.chains[k := s.chains[k] + [c]]
    && s'.fat == Append(s.fat, s.chains[k], c)
  }

  ghost function Append(fat: seq<int>, chain: seq<int>, c: int): seq<int>
    requires InRange(fat, c)
  {
    var f := fat[c := FAT_ENT_EOF];
    if |chain| > 0 && InRange(fat, chain[|chain| - 1]) then f[chain[|chain| - 1] := c] else f
  }

  /** File k keeps its first n clusters; freed lists how much of the rest was actually released. */
  ghost predicate Shrunk(s: Ledger, s': Ledger, k: nat, n: nat, freed: seq<int>) {
    && k in s.chains && n <= |s.chains[k]|
    && s'.chains == s.chains[k := s.chains[k][..n]]
    && freed <= s.chains[k][n..]
    && (forall i :: 0 <= i < |freed| ==> InRange(s.fat, freed[i]))
    && s'.fat == FreeAll(Cut(s.fat, s.chains[k], n), freed)
  }

  ghost function Cut(fat: seq<int>, chain: seq<int>, n: nat): (r: seq<int>)
    ensures |r| == |fat|
  {
    if 0 < n < |chain| && InRange(fat, chain[n - 1]) then fat[chain[n - 1] := FAT_ENT_EOF] else fat
  }

  /** An operation that gave up: at most some entries that were free have been lost. */
  ghost predicate GaveUp(s: Ledger, s': Ledger) {
    s'.chains == s.chains && InUseKept(s.fat, s'.fat)
  }

  ghost predicate Step(s: Ledger, s': Ledger) {
    || (exists k: nat, c :: Grown(s, s', k, c))
    || (exists k: nat, n: nat, freed :: Shrunk(s, s', k, n, freed))
    || GaveUp(s, s')
  }

  // ----- preservation -----

  lemma ChainInUse(fat: seq<int>, c: seq<int>, x: int)
    requires IsChain(fat, c) && x in c
    ensures InRange(fat, x) && fat[x] != FAT_ENT_FREE
  {
    var i :| 0 <= i < |c| && c[i] == x;
    if i < |c| - 1 {
      assert fat[c[i]] == c[i + 1] && InRange(fat, c[i + 1]);
    }
  }

  /** A chain survives any change that leaves its own entries alone. */
  lemma ChainOkFrame(fat: seq<int>, fat': seq<int>, c: seq<int>)
    requires ChainOk(fat, c) && |fat'| == |fat|
    requires forall x :: x in c && InRange(fat, x) ==> fat'[x] == fat[x]
    ensures ChainOk(fat', c)
  {
    if c != [] {
      forall i | 0 <= i < |c|
        ensures fat'[c[i]] == fat[c[i]]
      {
        assert c[i] in c;
      }
      ChainFrame(fat, fat', c);
    }
  }

  lemma AppendChain(fat: seq<int>, c: seq<int>, x: int)
    requires |fat| < FAT_ENT_EOF && ChainOk(fat, c) && InRange(fat, x) && fat[x] == FAT_ENT_FREE
    ensures IsChain(Append(fat, c, x), c + [x])
    ensures x !in c
  {
    if x in c {
      ChainInUse(fat, c, x);
      assert false;
    }
    if c != [] {
      ChainDistinct(fat, c);
      var c', fat' := c + [x], Append(fat, c, x);
      var last := c[|c| - 1];
      assert last in c && InRange(fat, last);
      forall i | 0 <= i < |c'| - 1
        ensures fat'[c'[i]] == c'[i + 1]
      {
        if i < |c| - 1 {
          assert c[i] != last && c[i] in c && fat[c[i]] == c[i + 1];
        }
      }
    }
  }

  lemma CutChain(fat: seq<int>, c: seq<int>, n: nat)
    requires |fat| < FAT_ENT_EOF && ChainOk(fat, c) && n <= |c|
    ensures ChainOk(Cut(fat, c, n), c[..n])
    ensures n < |c| ==> IsChain(Cut(fat, c, n), c[n..])
    ensures Apart(c[n..], c[..n])
  {
    if c != [] {
      ChainDistinct(fat, c);
      var fat' := Cut(fat, c, n);
      if n < |c| {
        SuffixIsChain(fat, c, n);
        assert forall i :: 0 <= i < |c| - n ==> c[n..][i] == c[n + i];
        if n > 0 {
          assert InRange(fat, c[n - 1]);
          assert forall i :: 0 <= i < |c| && i != n - 1 ==> c[i] != c[n - 1];
          forall i | 0 <= i < n - 1
            ensures fat'[c[..n][i]] == c[..n][i + 1]
          {
            assert fat[c[i]] == c[i + 1];
          }
        }
      } else {
        assert c[..n] == c;
      }
    }
  }

  lemma GrownSound(s: Ledger, s': Ledger, k: nat, c: int)
    requires Sound(s) && Grown(s, s', k, c)
    ensures Sound(s')
  {
    AppendChain(s.fat, s.chains[k], c);
    forall l | l in s'.chains
      ensures ChainOk(s'.fat, s'.chains[l])
      ensures l != k ==> Apart(s'.chains[l], s'.chains[k]) && Apart(s'.chains[k], s'.chains[l])
    {
      if l != k {
        assert ChainOk(s.fat, s.chains[l]);
        assert Apart(s.chains[l], s.chains[k]) && Apart(s.chains[k], s.chains[l]);
        FreeNotIn(s.fat, s.chains[l], c);
        assert |s.chains[k]| > 0 ==> s.chains[k][|s.chains[k]| - 1] in s.chains[k];
        ChainOkFrame(s.fat, s'.fat, s.chains[l]);
      }
    }
  }

  lemma FreeNotIn(fat: seq<int>, c: seq<int>, x: int)
    requires ChainOk(fat, c) && InRange(fat, x) && fat[x] == FAT_ENT_FREE
    ensures x !in c
  {
    if x in c {
      ChainInUse(fat, c, x);
      assert false;
    }
  }

  lemma ShrunkSound(s: Ledger, s': Ledger, k: nat, n: nat, freed: seq<int>)
    requires Sound(s) && Shrunk(s, s', k, n, freed)
    ensures Sound(s')
  {
    var c := s.chains[k];
    var cut := Cut(s.fat, c, n);
    CutChain(s.fat, c, n);
    assert forall x :: x in freed ==> x in c[n..] && x in c;
    assert 0 < n < |c| ==> c[n - 1] in c;
    forall l | l in s'.chains
      ensures ChainOk(s'.fat, s'.chains[l])
      ensures l != k ==> Apart(s'.chains[l], s'.chains[k]) && Apart(s'.chains[k], s'.chains[l])
    {
      if l == k {
        ChainOkFrame(cut, s'.fat, c[..n]);
      } else {
        assert ChainOk(s.fat, s.chains[l]);
        assert Apart(s.chains[l], c) && Apart(c, s.chains[l]);
        ChainOkFrame(s.fat, s'.fat, s.chains[l]);
      }
    }
  }

  lemma GaveUpSound(s: Ledger, s': Ledger)
    requires Sound(s) && GaveUp(s, s')
    ensures Sound(s')
  {
    UseKeptChains(s, s'.fat);
    ChainsKeptSound(s, s'.fat);
  }

  lemma StepSound(s: Ledger, s': Ledger)
    requires Sound(s) && Step(s, s')
    ensures Sound(s')
  {
    if k: nat, c :| Grown(s, s', k, c) {
      GrownSound(s, s', k, c);
    } else if k: nat, n: nat, freed :| Shrunk(s, s', k, n, freed) {
      ShrunkSound(s, s', k, n, freed);
    } else {
      GaveUpSound(s, s');
    }
  }

  /** Safety over whole runs: from a sound state, every state any sequence of operations reaches is sound. */
  lemma {:induction false} RunSound(run: seq<Ledger>, i: nat)
    requires i < |run| && Sound(run[0])
    requires forall j :: 0 <= j < |run| - 1 ==> Step(run[j], run[j + 1])
    ensures Sound(run[i])
  {
    if i > 0 {
      RunSound(run, i - 1);
      assert Step(run[i - 1], run[i - 1 + 1]);
      StepSound(run[i - 1], run[i]);
    }
  }

  // ----- no leaks without device failures -----

  /** Growing by a free cluster leaks nothing. */
  lemma GrownAccounted(s: Ledger, s': Ledger, k: nat, c: int)
    requires Sound(s) && Accounted(s) && Grown(s, s', k, c)
    ensures Accounted(s')
  {
    AppendChain(s.fat, s.chains[k], c);
    var chain := s.chains[k];
    assert chain != [] ==> chain[|chain| - 1] in chain && InRange(s.fat, chain[|chain| - 1]);
    forall e | InRange(s'.fat, e)
      ensures s'.fat[e] == FAT_ENT_FREE <==> !Held(s'.chains, e)
    {
      if e == c || (chain != [] && e == chain[|chain| - 1]) {
        assert k in s'.chains && e in s'.chains[k];
      } else {
        assert s'.fat[e] == s.fat[e];
        assert forall l :: l in s.chains ==> (e in s'.chains[l] <==> e in s.chains[l]);
      }
    }
  }

  lemma SoundFiles(s: Ledger, k: nat, l: nat, e: int)
    requires Sound(s) && k in s.chains && l in s.chains && k != l && e in s.chains[l]
    ensures e !in s.chains[k]
  {
    assert Apart(s.chains[k], s.chains[l]);
  }

  lemma TailApart(s: Ledger, k: nat, n: nat, e: int)
    requires Sound(s) && k in s.chains && n <= |s.chains[k]|
    ensures e in s.chains[k] <==> e in s.chains[k][..n] || e in s.chains[k][n..]
    ensures e in s.chains[k][..n] ==> e !in s.chains[k][n..]
  {
    hide Cut, ChainOk, IsChain;
    var c := s.chains[k];
    assert ChainOk(s.fat, c);
    CutChain(s.fat, c, n);
    assert c == c[..n] + c[n..];
  }

  /** The files' clusters after file k lost its tail: a cluster stays held exactly when it is not in the tail. */
  lemma ShrunkHeld(s: Ledger, k: nat, n: nat, e: int)
    requires Sound(s) && k in s.chains && n <= |s.chains[k]|
    ensures Held(s.chains[k := s.chains[k][..n]], e) <==> Held(s.chains, e) && e !in s.chains[k][n..]
  {
    hide Sound;
    var c := s.chains[k];
    var chains' := s.chains[k := c[..n]];
    TailApart(s, k, n, e);
    if Held(chains', e) {
      var l: nat :| l in chains' && e in chains'[l];
      assert e in s.chains[l];
      if l != k {
        SoundFiles(s, k, l, e);
      }
    }
    if Held(s.chains, e) && e !in c[n..] {
      var l: nat :| l in s.chains && e in s.chains[l];
      assert l in chains' && e in chains'[l];
    }
  }

  /** A shrink that released everything it cut off leaks nothing. */
  lemma ShrunkAccounted(s: Ledger, s': Ledger, k: nat, n: nat, freed: seq<int>)
    requires Sound(s) && Accounted(s) && Shrunk(s, s', k, n, freed)
    requires freed == s.chains[k][n..]
    ensures Accounted(s')
  {
    forall e | InRange(s'.fat, e)
      ensures s'.fat[e] == FAT_ENT_FREE <==> !Held(s'.chains, e)
    {
      ShrunkHeld(s, k, n, e);
      assert 0 < n < |s.chains[k]| && e == s.chains[k][n - 1] ==> k in s.chains && e in s.chains[k];
    }
  }

  /** File k is cut down to n clusters and the rest is free again; a file no longer than that stays as it is. */
  ghost predicate CutTo(s: Ledger, s': Ledger, k: nat, n: nat) {
    k in s.chains && if n < |s.chains[k]| then Shrunk(s, s', k, n, s.chains[k][n..]) else s' == s
  }

  /** What an operation without device failures does: one cluster more, a whole tail given back, or nothing. */
  ghost predicate CleanStep(s: Ledger, s': Ledger) {
    || s' == s
    || (exists k: nat, c :: Grown(s, s', k, c))
    || (exists k: nat, n: nat :: CutTo(s, s', k, n))
  }

  lemma CutToClean(s: Ledger, s': Ledger, k: nat, n: nat)
    requires CutTo(s, s', k, n)
    ensures CleanStep(s, s')
  {
  }

  /** No leaks over whole runs: while the device does not fail, an entry is free exactly when no file has it. */
  lemma {:induction false} RunAccounted(run: seq<Ledger>, i: nat)
    requires i < |run| && Sound(run[0]) && Accounted(run[0])
    requires forall j :: 0 <= j < |run| - 1 ==> CleanStep(run[j], run[j + 1])
    ensures Sound(run[i]) && Accounted(run[i])
  {
    if i > 0 {
      RunAccounted(run, i - 1);
      assert CleanStep(run[i - 1], run[i - 1 + 1]);
      CleanStepAccounted(run[i - 1], run[i]);
    }
  }

  lemma CleanStepAccounted(s: Ledger, s': Ledger)
    requires Sound(s) && Accounted(s) && CleanStep(s, s')
    ensures Sound(s') && Accounted(s')
  {
    hide Sound, Accounted, Grown, Shrunk;
    if k: nat, c :| Grown(s, s', k, c) {
      GrownSound(s, s', k, c);
      GrownAccounted(s, s', k, c);
    } else if k: nat, n: nat :| CutTo(s, s', k, n) {
      if n < |s.chains[k]| {
        ShrunkSound(s, s', k, n, s.chains[k][n..]);
        ShrunkAccounted(s, s', k, n, s.chains[k][n..]);
      }
    }
  }

  // ----- hanging an allocated run of clusters on a file -----

  /** File k goes on with the clusters of cs, a chain of their own so far. */
  ghost predicate Joined(s: Ledger, s': Ledger, k: nat, cs: seq<int>) {
    && k in s.chains && IsChain(s.fat, cs)
    && s'.chains == s.chains[k := s.chains[k] + cs]
    && s'.fat == Join(s.fat, s.chains[k], cs[0])
  }

  ghost function Join(fat: seq<int>, chain: seq<int>, x: int): (r: seq<int>)
    ensures |r| == |fat|
  {
    if |chain| > 0 && InRange(fat, chain[|chain| - 1]) then fat[chain[|chain| - 1] := x] else fat
  }

  /** No file has any of these clusters. */
  ghost predicate Orphan(s: Ledger, cs: seq<int>) {
    forall k :: k in s.chains ==> Apart(s.chains[k], cs)
  }

  lemma JoinChain(fat: seq<int>, c: seq<int>, cs: seq<int>)
    requires |fat| < FAT_ENT_EOF && ChainOk(fat, c) && IsChain(fat, cs) && Apart(c, cs)
    ensures IsChain(Join(fat, c, cs[0]), c + cs)
  {
    if c == [] {
      assert c + cs == cs;
    } else {
      ChainDistinct(fat, c);
      var d, fat', last := c + cs, Join(fat, c, cs[0]), c[|c| - 1];
      assert last in c && InRange(fat, last);
      forall i | 0 <= i < |d| - 1
        ensures fat'[d[i]] == d[i + 1]
      {
        if i < |c| - 1 {
          assert c[i] != last && fat[c[i]] == c[i + 1];
        } else if i >= |c| {
          assert cs[i - |c|] in cs && cs[i - |c|] != last;
          assert fat[cs[i - |c|]] == cs[i - |c| + 1];
        }
      }
      assert cs[|cs| - 1] in cs && cs[|cs| - 1] != last;
    }
  }

  lemma JoinedSound(s: Ledger, s': Ledger, k: nat, cs: seq<int>)
    requires Sound(s) && Orphan(s, cs) && Joined(s, s', k, cs)
    ensures Sound(s')
  {
    JoinChain(s.fat, s.chains[k], cs);
    forall l | l in s'.chains
      ensures ChainOk(s'.fat, s'.chains[l])
      ensures l != k ==> Apart(s'.chains[l], s'.chains[k]) && Apart(s'.chains[k], s'.chains[l])
    {
      if l != k {
        assert ChainOk(s.fat, s.chains[l]);
        assert Apart(s.chains[l], s.chains[k]) && Apart(s.chains[k], s.chains[l]);
        assert Apart(s.chains[l], cs);
        assert |s.chains[k]| > 0 ==> s.chains[k][|s.chains[k]| - 1] in s.chains[k];
        ChainOkFrame(s.fat, s'.fat, s.chains[l]);
      }
    }
  }

  // ----- tables that agree on every file's entries -----

  ghost predicate ChainsKept(s: Ledger, fat': seq<int>) {
    && |fat'| == |s.fat|
    && forall l, x :: l in s.chains && x in s.chains[l] && InRange(s.fat, x) ==> fat'[x] == s.fat[x]
  }

  lemma ChainsKeptSound(s: Ledger, fat': seq<int>)
    requires Sound(s) && ChainsKept(s, fat')
    ensures Sound(Ledger(fat', s.chains))
  {
    forall l | l in s.chains
      ensures ChainOk(fat', s.chains[l])
    {
      assert ChainOk(s.fat, s.chains[l]);
      ChainOkFrame(s.fat, fat', s.chains[l]);
    }
  }

  lemma UseKeptChains(s: Ledger, fat': seq<int>)
    requires Sound(s) && InUseKept(s.fat, fat')
    ensures ChainsKept(s, fat')
  {
    forall l, x | l in s.chains && x in s.chains[l] && InRange(s.fat, x)
      ensures fat'[x] == s.fat[x]
    {
      assert ChainOk(s.fat, s.chains[l]);
      ChainInUse(s.fat, s.chains[l], x);
    }
  }

  /** A free entry is in no file, so marking it end-of-chain disturbs none and makes a chain of its own. */
  lemma TakenOne(s: Ledger, x: int)
    requires Sound(s) && InRange(s.fat, x) && s.fat[x] == FAT_ENT_FREE
    ensures var fat' := s.fat[x := FAT_ENT_EOF];
            && ChainsKept(s, fat') && Orphan(s, [x]) && Orphan(Ledger(fat', s.chains), [x])
            && IsChain(fat', [x]) && Link(s.fat, [x]) == fat'
  {
    forall l | l in s.chains
      ensures x !in s.chains[l]
    {
      assert ChainOk(s.fat, s.chains[l]);
      FreeNotIn(s.fat, s.chains[l], x);
    }
    assert [x][..0] == [];
  }

  /** Linking redirects an entry in use, so it frees and takes nothing. */
  lemma JoinedCount(s: Ledger, s': Ledger, k: nat, cs: seq<int>)
    requires Sound(s) && Joined(s, s', k, cs)
    ensures FreeCount(s'.fat) == FreeCount(s.fat)
  {
    var c := s.chains[k];
    assert ChainOk(s.fat, c);
    if c != [] {
      var last := c[|c| - 1];
      assert last in c && InRange(s.fat, last) && InRange(s.fat, cs[0]);
      FreeCountUpdate(s.fat, last, cs[0]);
    }
  }

  /** Taking a free cluster and linking it is growing by that cluster. */
  lemma JoinedIsGrown(s: Ledger, s': Ledger, k: nat, x: int)
    requires Sound(s) && InRange(s.fat, x) && s.fat[x] == FAT_ENT_FREE
    requires Joined(Ledger(s.fat[x := FAT_ENT_EOF], s.chains), s', k, [x])
    ensures Grown(s, s', k, x) && Step(s, s')
  {
    assert ChainOk(s.fat, s.chains[k]);
    FreeNotIn(s.fat, s.chains[k], x);
    assert Grown(s, s', k, x);
  }

  lemma {:induction false} SameWay(fat: seq<int>, d: seq<int>, fat': seq<int>, ch: seq<int>, i: nat)
    requires |fat| < FAT_ENT_EOF && |fat'| == |fat| && IsChain(fat, d) && IsChain(fat', ch) && ch[0] == d[0]
    requires forall j :: 0 <= j < |d| - 1 ==> fat'[d[j]] == fat[d[j]]
    requires i < |d|
    ensures i < |ch| && ch[i] == d[i]
  {
    if i > 0 {
      SameWay(fat, d, fat', ch, i - 1);
      assert fat[d[i - 1]] == d[i - 1 + 1] && InRange(fat, d[i]);
      assert i < |ch| ==> fat'[ch[i - 1]] == ch[i - 1 + 1];
    }
  }

  /** Releasing a file's last cluster under it leaves no way to read the file: its links run into a free entry. */
  lemma LastReleased(fat: seq<int>, d: seq<int>, ch: seq<int>)
    requires |fat| < FAT_ENT_EOF && IsChain(fat, d)
    ensures !(IsChain(fat[d[|d| - 1] := FAT_ENT_FREE], ch) && ch[0] == d[0])
  {
    var x := d[|d| - 1];
    var fat' := fat[x := FAT_ENT_FREE];
    if IsChain(fat', ch) && ch[0] == d[0] {
      ChainDistinct(fat, d);
      assert forall j :: 0 <= j < |d| - 1 ==> d[j] != x;
      SameWay(fat, d, fat', ch, |d| - 1);
      assert ch[|d| - 1] == x && x in ch;
      ChainInUse(fat', ch, x);
      assert false;
    }
  }

  /** File k got the free cluster x as its last, and then x was freed under it. */
  ghost predicate Snatched(s: Ledger, s': Ledger, k: nat, x: int) {
    && InRange(s'.fat, x) && s'.fat[x] == FAT_ENT_FREE
    && Grown(s, Ledger(s'.fat[x := FAT_ENT_EOF], s'.chains), k, x)
  }

  lemma CutCount(fat: seq<int>, chain: seq<int>, n: nat)
    requires ChainOk(fat, chain)
    ensures FreeCount(Cut(fat, chain, n)) == FreeCount(fat)
  {
    if 0 < n < |chain| {
      assert InRange(fat, chain[n - 1]) && fat[chain[n - 1]] == chain[n - 1 + 1] && InRange(fat, chain[n]);
      FreeCountUpdate(fat, chain[n - 1], FAT_ENT_EOF);
    }
  }

  /** The table and chains right after file k lost its tail, before any of the tail is released. */
  ghost function CutLedger(s: Ledger, k: nat, n: nat): Ledger
    requires k in s.chains && n <= |s.chains[k]|
  {
    Ledger(Cut(s.fat, s.chains[k], n), s.chains[k := s.chains[k][..n]])
  }

  /** The cut-off tail is a chain no file has. */
  lemma TailOrphan(s: Ledger, k: nat, n: nat)
    requires Sound(s) && k in s.chains && n < |s.chains[k]|
    ensures Sound(CutLedger(s, k, n))
    ensures Orphan(CutLedger(s, k, n), s.chains[k][n..])
    ensures IsChain(CutLedger(s, k, n).fat, s.chains[k][n..])
  {
    var c := s.chains[k];
    assert ChainOk(s.fat, c);
    CutChain(s.fat, c, n);
    assert Shrunk(s, CutLedger(s, k, n), k, n, []);
    ShrunkSound(s, CutLedger(s, k, n), k, n, []);
    forall l | l in s.chains
      ensures Apart(CutLedger(s, k, n).chains[l], c[n..])
    {
      if l != k {
        assert Apart(s.chains[l], c);
        assert forall x :: x in c[n..] ==> x in c;
      }
    }
  }

  lemma CutThenFreed(s: Ledger, s': Ledger, k: nat, n: nat, freed: seq<int>)
    requires Sound(s) && k in s.chains && n < |s.chains[k]|
    requires s'.chains == CutLedger(s, k, n).chains
    requires freed <= s.chains[k][n..]
    requires forall i :: 0 <= i < |freed| ==> InRange(s.fat, freed[i])
    requires s'.fat == FreeAll(CutLedger(s, k, n).fat, freed)
    ensures Shrunk(s, s', k, n, freed) && Step(s, s')
  {
    assert Shrunk(s, s', k, n, freed);
  }
}
