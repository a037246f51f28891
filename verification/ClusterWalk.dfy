/** Walking a cluster chain by position, the plain way: the reference the extent cache must agree with. */
module ClusterWalk {
  import opened FatDefs
  import opened FatChains

  datatype Spot = Nowhere | On(d: int)

  /** The cluster at position k of the chain that begins at start, if the links lead that far. */
  ghost function At(fat: seq<int>, start: int, k: nat): Spot {
    if k == 0 then On(start) else
    match At(fat, start, k - 1)
    case Nowhere => Nowhere
    case On(d) =>
      if InRange(fat, d) && fat[d] != FAT_ENT_FREE && fat[d] != FAT_ENT_EOF then On(fat[d]) else Nowhere
  }

  datatype WalkEnd = Reached | AtEof | Broken

  /** How a walk ended and where: file position and disk cluster. */
  datatype Walked = Walked(end: WalkEnd, fclus: int, dclus: int)

  /** fat_get_cluster without a cache, from position fclus on cluster dclus. */
  ghost function Walk(fat: seq<int>, limit: nat, target: int, fclus: nat, dclus: int): Walked
    decreases target - fclus
  {
    if fclus >= target then Walked(Reached, fclus, dclus)
    else if fclus > limit then Walked(Broken, fclus, dclus)
    else if !InRange(fat, dclus) || fat[dclus] == FAT_ENT_FREE then Walked(Broken, fclus, dclus)
    else if fat[dclus] == FAT_ENT_EOF then Walked(AtEof, fclus, dclus)
    else Walk(fat, limit, target, fclus + 1, fat[dclus])
  }

  /** Starting anywhere along the way makes no difference. */
  lemma {:induction false} WalkFromMiddle(fat: seq<int>, limit: nat, target: int, start: int, f: nat, d: int)
    requires At(fat, start, f) == On(d)
    requires f <= target && f <= limit + 1
    ensures Walk(fat, limit, target, 0, start) == Walk(fat, limit, target, f, d)
  {
    if f > 0 {
      var p := At(fat, start, f - 1).d;
      WalkFromMiddle(fat, limit, target, start, f - 1, p);
    }
  }

  /** On a proper chain, the walk to position k finds its k-th cluster; past the end it stops on the last one;
      positions beyond the file-size limit are refused. */
  lemma {:induction false} WalkAlongChain(fat: seq<int>, c: seq<int>, limit: nat, target: nat, f: nat)
    requires |fat| < FAT_ENT_EOF && IsChain(fat, c)
    requires f < |c| && f <= target && f <= limit + 1
    ensures Walk(fat, limit, target, f, c[f]) ==
            if target < |c| && target <= limit + 1 then Walked(Reached, target, c[target])
            else if |c| <= limit + 1 then Walked(AtEof, |c| - 1, c[|c| - 1])
            else Walked(Broken, limit + 1, c[limit + 1])
    decreases |c| - f
  {
    assert InRange(fat, c[f]);
    if f < |c| - 1 && f < target && f <= limit {
      assert fat[c[f]] == c[f + 1] && InRange(fat, c[f + 1]);
      WalkAlongChain(fat, c, limit, target, f + 1);
    }
  }

  lemma {:induction false} ChainAt(fat: seq<int>, c: seq<int>, k: nat)
    requires |fat| < FAT_ENT_EOF && IsChain(fat, c) && k < |c|
    ensures At(fat, c[0], k) == On(c[k])
  {
    if k > 0 {
      ChainAt(fat, c, k - 1);
      assert fat[c[k - 1]] == c[k - 1 + 1] && InRange(fat, c[k - 1]) && InRange(fat, c[k]);
    }
  }

  /** Past a chain's end there is nowhere to go. */
  lemma {:induction false} ChainEndsAt(fat: seq<int>, c: seq<int>, k: nat)
    requires |fat| < FAT_ENT_EOF && IsChain(fat, c) && k >= |c|
    ensures At(fat, c[0], k) == Nowhere
  {
    if k == |c| {
      ChainAt(fat, c, k - 1);
    } else {
      ChainEndsAt(fat, c, k - 1);
    }
  }

  /** Positions below n only depend on the first n - 1 links. */
  lemma {:induction false} AtFrame(fat: seq<int>, fat': seq<int>, c: seq<int>, n: nat, k: nat)
    requires |fat'| == |fat| < FAT_ENT_EOF && IsChain(fat, c) && k < n <= |c|
    requires forall i :: 0 <= i < n - 1 ==> fat'[c[i]] == fat[c[i]]
    ensures At(fat', c[0], k) == At(fat, c[0], k)
  {
    if k > 0 {
      AtFrame(fat, fat', c, n, k - 1);
      ChainAt(fat, c, k - 1);
      assert InRange(fat, c[k - 1]);
    }
  }
}
