/** A chain under construction: clusters that were free, linked one behind the other. */
module FatNewChain {
  import opened FatChains
  import opened FatVolume
  import opened FatUpdates

  /** Every cluster in use in `v` is untouched in `w`. */
  ghost predicate UsedKept(v: Vol, w: Vol) {
    && |w.fat| == |v.fat| == |v.clus| == |w.clus|
    && forall c: nat :: c < |v.fat| && v.fat[c] != 0 ==> w.fat[c] == v.fat[c] && w.clus[c] == v.clus[c]
  }

  lemma {:induction false} UsedKeptKeeps(g: Geo, v: Vol, w: Vol, t: Layout)
    requires Consistent(g, v, t) && UsedKept(v, w)
    ensures Keeps(v, w, t)
  {
    forall c: nat | Owned(t, c) && c < |v.fat| ensures v.fat[c] != 0 {
      var o :| o in t.chains && c in t.chains[o];
      OwnedInRange(g, v, t, o);
    }
  }

  /** Writes to free clusters leave the volume consistent and the tree the same. */
  lemma {:induction false} UsedKeptSameTree(g: Geo, v: Vol, w: Vol, t: Layout)
    requires Consistent(g, v, t) && UsedKept(v, w) && Shape(g, w)
    ensures Consistent(g, w, t) && SameSteps(v, w, t) && SameTree(g, v, w)
  {
    UsedKeptKeeps(g, v, w, t);
    KeepConsistent(g, v, w, t);
    SameStepsSameTree(g, v, w, t);
  }

  /** Clusters a file of `n` bytes takes, at `spc` sectors a cluster. */
  function Need(spc: nat, n: nat): (r: nat)
    requires spc >= 1
  {
    if n <= 512 * spc then (if n == 0 then 0 else 1) else 1 + Need(spc, n - 512 * spc)
  }

  /** The number of clusters is the length divided by the cluster size, rounded up. */
  lemma {:induction false} NeedIsCeiling(spc: nat, n: nat)
    requires spc >= 1
    ensures Need(spc, n) * (512 * spc) >= n
    ensures n > 0 ==> (Need(spc, n) - 1) * (512 * spc) < n
    decreases n
  {
    if n > 512 * spc {
      NeedIsCeiling(spc, n - 512 * spc);
      var k, b := Need(spc, n - 512 * spc), 512 * spc;
      assert (1 + k) * b == b + k * b;
      assert (k - 1) * b == k * b - b;
    }
  }

  /** `v` is `v0` with the chain `ch` built from clusters that were free. */
  ghost predicate FreshChain(v0: Vol, v: Vol, ch: seq<nat>) {
    && |v.fat| == |v0.fat| == |v0.clus| == |v.clus|
    && (forall i :: 0 <= i < |ch| ==> 2 <= ch[i] < |v0.fat| && v0.fat[ch[i]] == 0)
    && forall x: nat :: x < |v0.fat| && x !in ch ==> v.fat[x] == v0.fat[x] && v.clus[x] == v0.clus[x]
  }

  lemma {:induction false} FreshKept(v0: Vol, v: Vol, ch: seq<nat>)
    requires FreshChain(v0, v, ch)
    ensures UsedKept(v0, v)
  {
  }

  ghost predicate ChainSoFar(fat: seq<nat>, head: nat, tail: nat, ch: seq<nat>) {
    if ch == [] then head == 0 else IsChain(fat, head, ch) && head == ch[0] && tail == ch[|ch| - 1]
  }

  /** The table after claiming `c` and linking it behind the chain. */
  ghost function LinkedFat(fat: seq<nat>, ch: seq<nat>, c: nat): (r: seq<nat>)
    requires c < |fat| && (ch != [] ==> ch[|ch| - 1] < |fat|)
  {
    var f := fat[c := LAST];
    if ch == [] then f else f[ch[|ch| - 1] := c]
  }

  lemma {:induction false} LinkedChain(g: Geo, v0: Vol, v: Vol, w: Vol, head: nat, tail: nat, ch: seq<nat>, c: nat)
    requires Shape(g, v) && FreshChain(v0, v, ch) && ChainSoFar(v.fat, head, tail, ch)
    requires 2 <= c < |v.fat| && v.fat[c] == 0 && |w.fat| == |v.fat| == |w.clus|
    requires ch != [] ==> ch[|ch| - 1] < |v.fat|
    requires w.fat == LinkedFat(v.fat, ch, c)
    requires forall x: nat :: x < |v.clus| && x != c ==> w.clus[x] == v.clus[x]
    ensures c !in ch && FreshChain(v0, w, ch + [c])
    ensures ChainSoFar(w.fat, if ch == [] then c else head, c, ch + [c])
    ensures Content(w, ch + [c]) == Content(v, ch) + w.clus[c]
    ensures FreeCount(w.fat) + 1 == FreeCount(v.fat)
  {
    hide FreeCount;
    if ch != [] {
      ChainInRange(v.fat, head, ch);
      ChainNoRepeat(v.fat, head, ch);
      assert ch[|ch| - 1] in ch;
      ChainAppend(v.fat, w.fat, head, ch, c);
      FreeCountUpdate(v.fat[c := LAST], ch[|ch| - 1], c);
    } else {
      SingleChain(w.fat, c);
    }
    FreeCountUpdate(v.fat, c, LAST);
    ContentConcat(w, ch, [c]);
    ContentFrame(v, w, ch);
    assert Content(w, [c]) == w.clus[c] + Content(w, []);
  }

  lemma {:induction false} SingleChain(fat: seq<nat>, c: nat)
    requires 2 <= c < |fat| && c < EOC && fat[c] == LAST
    ensures IsChain(fat, c, [c])
  {
    assert Link(fat, c) == LAST;
    assert IsChain(fat, LAST, []);
    var ch := [c];
    assert ch[1..] == [];
  }

  /** Freeing a chain of clusters that were free restores the table entry for entry. */
  lemma {:induction false} FreshRestored(v0: Vol, v: Vol, head: nat, tail: nat, ch: seq<nat>)
    requires FreshChain(v0, v, ch) && ChainSoFar(v.fat, head, tail, ch) && 2 <= |v.fat|
    ensures StaysInRange(v.fat, head) && Freed(v.fat, head) == v0.fat
  {
    if ch != [] {
      FreedChain(v.fat, head, ch);
      forall x | 0 <= x < |v.fat| ensures Freed(v.fat, head)[x] == v0.fat[x] { }
    }
  }

  lemma {:induction false} HeadOfChain(fat: seq<nat>, head: nat, tail: nat, ch: seq<nat>)
    requires ChainSoFar(fat, head, tail, ch)
    ensures head == 0 <==> ch == []
    ensures head != 0 ==> 2 <= tail < |fat| && ch[|ch| - 1] == tail
  {
    if ch != [] {
      ChainInRange(fat, head, ch);
      assert ch[|ch| - 1] in ch && ch[0] in ch;
    }
  }

  lemma {:induction false} StartChain(v: Vol, spc: nat, n: nat)
    requires |v.fat| == |v.clus|
    ensures FreshChain(v, v, []) && Content(v, []) == [] && Flat([]) == []
  {
  }

  lemma {:induction false} NeedStep(spc: nat, n: nat)
    requires spc >= 1 && n > 0
    ensures Need(spc, n) == 1 + Need(spc, if n <= 512 * spc then 0 else n - 512 * spc)
  {
  }

  /** The cluster just claimed was free when the chain was begun. */
  lemma {:induction false} FreshWasFree(v0: Vol, v: Vol, head: nat, tail: nat, ch: seq<nat>, c: nat)
    requires FreshChain(v0, v, ch) && ChainSoFar(v.fat, head, tail, ch)
    requires c < |v.fat| && v.fat[c] == 0
    ensures c !in ch && v0.fat[c] == 0
  {
    if ch != [] { ChainInRange(v.fat, head, ch); }
  }

  /** Only cluster `c` differs. */
  ghost predicate OnlyCluster(v: Vol, w: Vol, c: nat) {
    && w.fat == v.fat && |w.clus| == |v.clus|
    && forall x: nat :: x < |v.clus| && x != c ==> w.clus[x] == v.clus[x]
  }

  lemma {:induction false} FilledFresh(v0: Vol, v: Vol, w: Vol, ch: seq<nat>, c: nat)
    requires FreshChain(v0, v, ch) && OnlyCluster(v, w, c) && c in ch
    ensures FreshChain(v0, w, ch)
  {
  }

  /** Claiming one more free cluster; what stood before it was claimed still does. */
  lemma {:induction false} FreshMore(v0: Vol, x: Vol, ch: seq<nat>, c: nat)
    requires FreshChain(v0, x, ch) && 2 <= c < |v0.fat| && v0.fat[c] == 0
    ensures FreshChain(v0, x, ch + [c])
  {
  }

  /** Stepwise: the cluster is marked, then linked behind the last one. */
  lemma {:induction false} FreshLinked(v0: Vol, v: Vol, x: Vol, ch: seq<nat>, c: nat)
    requires FreshChain(v0, v, ch) && 2 <= c < |v0.fat| && v0.fat[c] == 0 && x.clus == v.clus
    requires |x.fat| == |v.fat| && forall i :: 0 <= i < |v.fat| && i != c && i !in ch ==> x.fat[i] == v.fat[i]
    ensures FreshChain(v0, x, ch + [c])
  {
  }

  /** Each entry is as before or as after. */
  ghost predicate Between(f: seq<nat>, m: seq<nat>, h: seq<nat>) {
    |f| == |m| == |h| && forall x :: 0 <= x < |m| ==> m[x] == f[x] || m[x] == h[x]
  }

  lemma {:induction false} BetweenFresh(v0: Vol, v: Vol, w: Vol, ch: seq<nat>)
    requires FreshChain(v0, v, ch) && w.clus == v.clus && Between(v.fat, w.fat, v0.fat)
    ensures FreshChain(v0, w, ch)
  {
  }
}
