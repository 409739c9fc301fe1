/** Clusters that are marked used and that nothing below the root holds, and that no layout can hide one. */
module FatLeaks {
  import opened Bytes
  import opened FatNames
  import opened FatChains
  import opened FatVolume
  import opened FatUpdates
  import opened FatCommit

  ghost predicate InChain(v: Vol, start: nat, c: nat) {
    match ChainOf(v.fat, start) case Some(ch) => c in ch case None => false
  }

  /** Cluster `c` belongs to directory `d` or to the file in one of its slots. */
  ghost predicate HeldIn(v: Vol, d: nat, c: nat) {
    InChain(v, d, c)
    || exists i :: 0 <= i < |DirEnts(v, d)| && HeldBySlot(v, DirEnts(v, d)[i], c)
  }

  ghost predicate HeldBySlot(v: Vol, e: Entry, c: nat) {
    Visible(e) && !IsDir(e) && InChain(v, ClusOf(e), c)
  }

  /** A directory reached from the root holds cluster `c`. */
  ghost predicate Held(g: Geo, v: Vol, c: nat) {
    exists d :: ReachedDir(g, v, d) && HeldIn(v, d, c)
  }

  /** Cluster `c` is marked used, and nothing below the root holds it. */
  ghost predicate Leaked(g: Geo, v: Vol, c: nat) {
    2 <= c < |v.fat| && v.fat[c] != 0 && !Held(g, v, c)
  }

  /** Nothing is leaked in `x` but what was leaked in `v` and clusters of `extra`. */
  ghost predicate LeaksOnly(g: Geo, v: Vol, x: Vol, extra: seq<nat>) {
    forall c: nat :: Leaked(g, x, c) ==> Leaked(g, v, c) || c in extra
  }

  ghost predicate SameLeaks(g: Geo, v: Vol, w: Vol) {
    forall c: nat :: Leaked(g, w, c) <==> Leaked(g, v, c)
  }

  // ----- lost and leaked

  /** What the slots lead to from a directory of the layout is in the layout. */
  lemma {:induction false} ViaInside(g: Geo, v: Vol, t: Layout, d: nat, slots: seq<nat>)
    requires Consistent(g, v, t) && HasDir(t, d) && Via(v, d, slots).Some?
    ensures HasDir(t, Via(v, d, slots).value)
    decreases |slots|
  {
    hide SubOf, Consistent;
    if slots != [] {
      SubInside(g, v, t, d, slots[0]);
      ViaInside(g, v, t, SubOf(v, d, slots[0]).value, slots[1..]);
    }
  }

  lemma {:induction false} ReachedInside(g: Geo, v: Vol, t: Layout, d: nat)
    requires Consistent(g, v, t) && ReachedDir(g, v, d)
    ensures HasDir(t, d)
  {
    hide Consistent, Via;
    var slots :| Via(v, g.root, slots) == Some(d);
    RootIs(g, v, t);
    ViaInside(g, v, t, g.root, slots);
  }

  /** The chain a directory of the layout begins is the one the layout gives it. */
  lemma {:induction false} DirHolds(g: Geo, v: Vol, t: Layout, d: nat, c: nat)
    requires Consistent(g, v, t) && HasDir(t, d)
    ensures InChain(v, d, c) <==> c in t.chains[DirO(d)]
  {
    assert DirChainOk(v, t, d);
    ChainOfIs(v.fat, d, t.chains[DirO(d)]);
  }

  lemma {:induction false} FileHolds(g: Geo, v: Vol, t: Layout, d: nat, i: nat, c: nat)
    requires Consistent(g, v, t) && HasDir(t, d) && i < |DirEnts(v, d)|
    requires Visible(DirEnts(v, d)[i]) && !IsDir(DirEnts(v, d)[i])
    ensures FileO(d, i) in t.chains
    ensures HeldBySlot(v, DirEnts(v, d)[i], c) <==> c in t.chains[FileO(d, i)]
  {
    hide Consistent, DirEnts;
    FileSlotChain(g, v, t, d, i);
    var e, ch := DirEnts(v, d)[i], t.chains[FileO(d, i)];
    if IsChain(v.fat, ClusOf(e), ch) {
      ChainOfIs(v.fat, ClusOf(e), ch);
    } else {
      NoChainFromZero(v.fat);
    }
  }

  lemma {:induction false} HeldIsOwned(g: Geo, v: Vol, t: Layout, c: nat)
    requires Consistent(g, v, t) && Held(g, v, c)
    ensures Owned(t, c)
  {
    hide Consistent, DirEnts, ReachedDir, InChain, HeldBySlot;
    var d :| ReachedDir(g, v, d) && HeldIn(v, d, c);
    ReachedInside(g, v, t, d);
    DirHolds(g, v, t, d, c);
    if !InChain(v, d, c) {
      var i :| 0 <= i < |DirEnts(v, d)| && HeldBySlot(v, DirEnts(v, d)[i], c);
      assert Visible(DirEnts(v, d)[i]) && !IsDir(DirEnts(v, d)[i]) by { SlotIsFile(v, DirEnts(v, d)[i], c); }
      FileHolds(g, v, t, d, i, c);
    }
  }

  lemma {:induction false} SlotIsFile(v: Vol, e: Entry, c: nat)
    requires HeldBySlot(v, e, c)
    ensures Visible(e) && !IsDir(e)
  {
  }

  lemma {:induction false} OwnedIsHeld(g: Geo, v: Vol, t: Layout, c: nat)
    requires Consistent(g, v, t) && Reached(g, v, t) && Owned(t, c)
    ensures Held(g, v, c)
  {
    hide Consistent, DirEnts, ReachedDir, InChain, HeldBySlot;
    var o :| o in t.chains && c in t.chains[o];
    match o
    case DirO(d) =>
      assert HasDir(t, d);
      DirHolds(g, v, t, d, c);
      assert HeldIn(v, d, c);
    case FileO(d, i) =>
      FileOwner(g, v, t, d, i);
      FileHolds(g, v, t, d, i, c);
      assert HeldIn(v, d, c);
  }

  lemma {:induction false} FileOwner(g: Geo, v: Vol, t: Layout, d: nat, i: nat)
    requires Consistent(g, v, t) && FileO(d, i) in t.chains
    ensures HasDir(t, d) && i < |DirEnts(v, d)| && Visible(DirEnts(v, d)[i]) && !IsDir(DirEnts(v, d)[i])
  {
    assert FileSlotOk(v, t, d, i);
  }

  /** A layout with reached directories only gives away every leak, and nothing else. */
  lemma {:induction false} LostIsLeaked(g: Geo, v: Vol, t: Layout)
    requires Consistent(g, v, t) && Reached(g, v, t)
    ensures forall c: nat :: Lost(v, t, c) <==> Leaked(g, v, c)
  {
    hide Consistent, Held, Owned, Reached;
    forall c: nat ensures Lost(v, t, c) <==> Leaked(g, v, c) {
      if Held(g, v, c) { HeldIsOwned(g, v, t, c); }
      if Owned(t, c) { OwnedIsHeld(g, v, t, c); }
    }
  }

  /** Of any layout, what is lost is leaked. */
  lemma {:induction false} LostIsAlwaysLeaked(g: Geo, v: Vol, t: Layout, c: nat)
    requires Consistent(g, v, t) && Lost(v, t, c)
    ensures Leaked(g, v, c)
  {
    hide Consistent, Held, Owned;
    if Held(g, v, c) { HeldIsOwned(g, v, t, c); }
  }

  // ----- every consistent volume has such a layout

  function DirOf(o: Owner): (d: nat) { match o case DirO(d) => d case FileO(d, _) => d }

  /** The part of a layout that is reached from the root. */
  ghost function Trimmed(g: Geo, v: Vol, t: Layout): (r: Layout) {
    t.(chains := map o | o in t.chains && ReachedDir(g, v, DirOf(o)) :: t.chains[o])
  }

  lemma {:induction false} ViaSnoc(v: Vol, d: nat, slots: seq<nat>, i: nat)
    requires Via(v, d, slots).Some?
    ensures Via(v, d, slots + [i]) == SubOf(v, Via(v, d, slots).value, i)
    decreases |slots|
  {
    hide SubOf;
    if slots == [] {
      assert slots + [i] == [i] && [i][1..] == [];
    } else {
      assert (slots + [i])[0] == slots[0] && (slots + [i])[1..] == slots[1..] + [i];
      ViaSnoc(v, SubOf(v, d, slots[0]).value, slots[1..], i);
    }
  }

  lemma {:induction false} SubReached(g: Geo, v: Vol, d: nat, i: nat)
    requires ReachedDir(g, v, d) && SubOf(v, d, i).Some?
    ensures ReachedDir(g, v, SubOf(v, d, i).value)
  {
    hide SubOf, Via;
    var slots :| Via(v, g.root, slots) == Some(d);
    ViaSnoc(v, g.root, slots, i);
  }

  lemma {:induction false} TrimmedDirOk(g: Geo, v: Vol, t: Layout, d: nat)
    requires Consistent(g, v, t) && HasDir(Trimmed(g, v, t), d)
    ensures DirOk(v, Trimmed(g, v, t), d) && DirChainOk(v, Trimmed(g, v, t), d)
  {
    hide DirEnts, ReachedDir, FileChain, NameOk, ZeroTail;
    var t', es := Trimmed(g, v, t), DirEnts(v, d);
    assert HasDir(t, d) && DirChainOk(v, t, d) && DirOk(v, t, d);
    forall i | 0 <= i < |es| ensures EntryOk(v.fat, t', d, i, es[i]) {
      assert EntryOk(v.fat, t, d, i, es[i]);
      if Visible(es[i]) && IsDir(es[i]) { SubReached(g, v, d, i); }
    }
  }

  /** The reached part of a layout is a layout, and loses what is leaked. */
  lemma {:induction false} TrimmedIsLayout(g: Geo, v: Vol, t: Layout)
    requires Consistent(g, v, t)
    ensures Consistent(g, v, Trimmed(g, v, t)) && Reached(g, v, Trimmed(g, v, t))
  {
    hide DirEnts, DirOk, DirChainOk;
    var t' := Trimmed(g, v, t);
    assert Via(v, g.root, []) == Some(g.root);
    assert ReachedDir(g, v, g.root);
    forall d: nat | HasDir(t', d) ensures DirOk(v, t', d) && DirChainOk(v, t', d) {
      TrimmedDirOk(g, v, t, d);
    }
    forall d: nat, i: nat | FileO(d, i) in t'.chains ensures FileSlotOk(v, t', d, i) {
      assert FileSlotOk(v, t, d, i);
    }
  }

  // ----- what a crash can leak

  /** A volume met on the way leaks nothing but what was leaked before and clusters of `extra`. */
  lemma {:induction false} SoundLeaks(g: Geo, v: Vol, t: Layout, x: Vol, extra: seq<nat>)
    requires Consistent(g, v, t) && Reached(g, v, t) && Sound(g, v, t, x, extra)
    ensures LeaksOnly(g, v, x, extra)
  {
    hide Consistent, Leaked, Lost, Reached, NamesKept;
    var tx :| Consistent(g, x, tx) && LostWithin(x, tx, MayLose(v, t, extra)) && LayoutKept(g, v, t, x, tx);
    LostIsLeaked(g, v, t);
    LostIsLeaked(g, x, tx);
    assert forall c: nat :: Lost(x, tx, c) ==> c in MayLose(v, t, extra);
  }

  lemma {:induction false} SameLostLeaks(g: Geo, v: Vol, t: Layout, w: Vol, t': Layout)
    requires Consistent(g, v, t) && Reached(g, v, t) && Consistent(g, w, t') && LayoutKept(g, v, t, w, t')
    requires SameLost(v, t, w, t')
    ensures SameLeaks(g, v, w)
  {
    hide Consistent, Leaked, Lost, Reached, NamesKept;
    LostIsLeaked(g, v, t);
    LostIsLeaked(g, w, t');
  }

  /**
   * Of a write that left the volumes `xs` on its way from `v` to `w`: in the end nothing more and nothing less
   * is leaked, and on the way only clusters of `extra` besides.
   */
  ghost predicate LeaksKept(g: Geo, v: Vol, t: Layout, w: Vol, xs: seq<Vol>, extra: seq<nat>) {
    Reached(g, v, t) ==> SameLeaks(g, v, w) && forall i :: 0 <= i < |xs| ==> LeaksOnly(g, v, xs[i], extra)
  }

  lemma {:induction false} CrashLeaks(g: Geo, v: Vol, t: Layout, w: Vol, t': Layout, trace: seq<Vol>, n: nat,
                                      extra: seq<nat>)
    requires Consistent(g, v, t) && Consistent(g, w, t') && LayoutKept(g, v, t, w, t') && SameLost(v, t, w, t')
    requires n <= |trace| && forall i :: n <= i < |trace| ==> CrashSafe(g, v, t, w, trace[i], extra)
    ensures LeaksKept(g, v, t, w, trace[n..], extra)
  {
    hide Consistent, LayoutKept, SameLost, Sound, SameTree, Reached, SameLeaks, LeaksOnly;
    if Reached(g, v, t) {
      SameLostLeaks(g, v, t, w, t');
      forall i | 0 <= i < |trace[n..]| ensures LeaksOnly(g, v, trace[n..][i], extra) {
        assert CrashSafe(g, v, t, w, trace[n + i], extra);
        SoundLeaks(g, v, t, trace[n + i], extra);
      }
    }
  }
}
