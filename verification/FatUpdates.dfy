/**
 * The four kinds of step a write is made of, and what each does to the volume and to the tree:
 * touching clusters nobody owns, growing a directory, storing one entry, letting go of a chain.
 */
module FatUpdates {
  import opened Bytes
  import opened FatNames
  import opened FatChains
  import opened FatVolume

  // ----- clusters nobody owns

  ghost predicate Keeps(v: Vol, w: Vol, t: Layout) {
    && |w.fat| == |v.fat| && |w.clus| == |v.clus|
    && (forall c: nat :: Owned(t, c) && c < |v.fat| ==> w.fat[c] == v.fat[c])
    && (forall c: nat :: Owned(t, c) && c < |v.clus| ==> w.clus[c] == v.clus[c])
  }

  lemma {:induction false} KeepChain(g: Geo, v: Vol, w: Vol, t: Layout, o: Owner, c: nat)
    requires Consistent(g, v, t) && Keeps(v, w, t) && o in t.chains && IsChain(v.fat, c, t.chains[o])
    ensures IsChain(w.fat, c, t.chains[o]) && Content(w, t.chains[o]) == Content(v, t.chains[o])
  {
    OwnedInRange(g, v, t, o);
    ChainFrame(v.fat, w.fat, c, t.chains[o]);
    ContentFrame(v, w, t.chains[o]);
  }

  lemma {:induction false} KeepDir(g: Geo, v: Vol, w: Vol, t: Layout, d: nat)
    requires Consistent(g, v, t) && Keeps(v, w, t) && HasDir(t, d)
    ensures DirChainOk(w, t, d) && DirEnts(w, d) == DirEnts(v, d)
  {
    assert DirChainOk(v, t, d);
    KeepChain(g, v, w, t, DirO(d), d);
    ChainOfIs(v.fat, d, t.chains[DirO(d)]);
    ChainOfIs(w.fat, d, t.chains[DirO(d)]);
  }

  /** A file whose chain is `ch`, known from its slot. */
  lemma {:induction false} FileSlotChain(g: Geo, v: Vol, t: Layout, d: nat, i: nat)
    requires Consistent(g, v, t) && HasDir(t, d) && i < |DirEnts(v, d)|
    requires Visible(DirEnts(v, d)[i]) && !IsDir(DirEnts(v, d)[i])
    ensures FileO(d, i) in t.chains && FileChain(v.fat, DirEnts(v, d)[i], t.chains[FileO(d, i)])
  {
    assert DirOk(v, t, d);
    assert EntryOk(v.fat, t, d, i, DirEnts(v, d)[i]);
  }

  /** An entry with no cluster and no bytes reads as the empty file. */
  lemma {:induction false} BytesOfChain(v: Vol, e: Entry, ch: seq<nat>)
    requires FileChain(v.fat, e, ch)
    ensures FileBytes(v, e) == Take(Flat(Content(v, ch)), SizeOf(e))
  {
    if IsChain(v.fat, ClusOf(e), ch) {
      ChainOfIs(v.fat, ClusOf(e), ch);
    } else {
      NoChainFromZero(v.fat);
    }
  }

  lemma {:induction false} NoChainFromZero(fat: seq<nat>)
    ensures ChainOf(fat, 0).None?
  {
    forall ch ensures !IsChain(fat, 0, ch) { }
  }

  lemma {:induction false} KeepFile(g: Geo, v: Vol, w: Vol, t: Layout, d: nat, i: nat)
    requires Consistent(g, v, t) && Keeps(v, w, t) && HasDir(t, d) && i < |DirEnts(v, d)|
    requires Visible(DirEnts(v, d)[i]) && !IsDir(DirEnts(v, d)[i])
    ensures FileO(d, i) in t.chains && FileChain(w.fat, DirEnts(v, d)[i], t.chains[FileO(d, i)])
    ensures FileBytes(w, DirEnts(v, d)[i]) == FileBytes(v, DirEnts(v, d)[i])
  {
    var e := DirEnts(v, d)[i];
    FileSlotChain(g, v, t, d, i);
    var ch := t.chains[FileO(d, i)];
    if IsChain(v.fat, ClusOf(e), ch) {
      KeepChain(g, v, w, t, FileO(d, i), ClusOf(e));
    }
    BytesOfChain(v, e, ch);
    BytesOfChain(w, e, ch);
  }

  /** An entry stays well formed when the chains its slot needs do. */
  lemma {:induction false} KeepDirOk(g: Geo, v: Vol, w: Vol, t: Layout, d: nat)
    requires Consistent(g, v, t) && Keeps(v, w, t) && HasDir(t, d)
    ensures DirOk(w, t, d)
  {
    KeepDir(g, v, w, t, d);
    assert DirOk(v, t, d);
    var es := DirEnts(v, d);
    forall i | 0 <= i < |es| ensures EntryOk(w.fat, t, d, i, es[i]) {
      assert EntryOk(v.fat, t, d, i, es[i]);
      if Visible(es[i]) && !IsDir(es[i]) {
        KeepFile(g, v, w, t, d, i);
      }
    }
  }

  /** Same steps from every directory of the layout. */
  ghost predicate SameSteps(v: Vol, w: Vol, t: Layout) {
    forall d, s :: HasDir(t, d) ==> Step(w, d, s) == Step(v, d, s)
  }

  /** Writing to clusters that no chain holds changes nothing a reader sees. */
  lemma {:induction false} KeepConsistent(g: Geo, v: Vol, w: Vol, t: Layout)
    requires Consistent(g, v, t) && Keeps(v, w, t) && Shape(g, w)
    ensures Consistent(g, w, t) && SameSteps(v, w, t)
  {
    forall d | HasDir(t, d) ensures DirChainOk(w, t, d) && DirOk(w, t, d) {
      KeepDir(g, v, w, t, d);
      KeepDirOk(g, v, w, t, d);
    }
    forall d: nat, i: nat | FileO(d, i) in t.chains ensures FileSlotOk(w, t, d, i) {
      assert FileSlotOk(v, t, d, i);
      KeepDir(g, v, w, t, d);
    }
    forall d, s | HasDir(t, d) ensures Step(w, d, s) == Step(v, d, s) {
      KeepDir(g, v, w, t, d);
      if NameSlot(v, d, s).Some? {
        var i := NameSlot(v, d, s).value;
        if !IsDir(DirEnts(v, d)[i]) {
          KeepFile(g, v, w, t, d, i);
        }
      }
    }
  }

  /** From one volume to the next, names that differed in every directory still do. */
  ghost predicate NamesKept(v: Vol, t: Layout, w: Vol, t': Layout) {
    NamesDiffer(v, t) ==> NamesDiffer(w, t')
  }

  lemma {:induction false} KeepNames(g: Geo, v: Vol, w: Vol, t: Layout)
    requires Consistent(g, v, t) && Keeps(v, w, t)
    ensures NamesKept(v, t, w, t)
  {
    hide Consistent, Keeps, DirEnts, Distinct;
    forall d | HasDir(t, d)
      ensures DirEnts(w, d) == DirEnts(v, d)
    {
      KeepDir(g, v, w, t, d);
    }
  }

  /** Slots that name a directory still name it. */
  ghost predicate SubsKept(v: Vol, w: Vol, t: Layout) {
    forall d, i: nat :: HasDir(t, d) && SubOf(v, d, i).Some? ==> SubOf(w, d, i) == SubOf(v, d, i)
  }

  /** From one volume to the next, a layout that has only reached directories stays one. */
  ghost predicate ReachKept(g: Geo, v: Vol, t: Layout, w: Vol, t': Layout) {
    Reached(g, v, t) ==> Reached(g, w, t')
  }

  /** What one volume's layout hands on to the next: different names, and no directory out of reach. */
  ghost predicate LayoutKept(g: Geo, v: Vol, t: Layout, w: Vol, t': Layout) {
    NamesKept(v, t, w, t') && ReachKept(g, v, t, w, t')
  }

  lemma {:induction false} SubInside(g: Geo, v: Vol, t: Layout, d: nat, i: nat)
    requires Consistent(g, v, t) && HasDir(t, d) && SubOf(v, d, i).Some?
    ensures HasDir(t, SubOf(v, d, i).value)
  {
    assert DirOk(v, t, d);
    assert EntryOk(v.fat, t, d, i, DirEnts(v, d)[i]);
  }

  lemma {:induction false} ViaKept(g: Geo, v: Vol, w: Vol, t: Layout, d: nat, slots: seq<nat>)
    requires Consistent(g, v, t) && SubsKept(v, w, t) && HasDir(t, d) && Via(v, d, slots).Some?
    ensures Via(w, d, slots) == Via(v, d, slots)
    decreases |slots|
  {
    hide SubOf, Consistent;
    if slots != [] {
      SubInside(g, v, t, d, slots[0]);
      assert SubOf(w, d, slots[0]) == SubOf(v, d, slots[0]);
      ViaKept(g, v, w, t, SubOf(v, d, slots[0]).value, slots[1..]);
    }
  }

  lemma {:induction false} SubsReach(g: Geo, v: Vol, w: Vol, t: Layout, t': Layout)
    requires Consistent(g, v, t) && SubsKept(v, w, t) && forall d :: HasDir(t', d) ==> HasDir(t, d)
    ensures ReachKept(g, v, t, w, t')
  {
    hide Consistent, SubOf, Via, SubsKept;
    if Reached(g, v, t) {
      forall d: nat | HasDir(t', d) ensures ReachedDir(g, w, d) {
        assert ReachedDir(g, v, d);
        var slots :| Via(v, g.root, slots) == Some(d);
        RootIs(g, v, t);
        ViaKept(g, v, w, t, g.root, slots);
      }
    }
  }

  lemma {:induction false} KeepReached(g: Geo, v: Vol, w: Vol, t: Layout)
    requires Consistent(g, v, t) && Keeps(v, w, t)
    ensures LayoutKept(g, v, t, w, t)
  {
    hide Consistent, Keeps, DirEnts, ReachKept, NamesKept;
    KeepNames(g, v, w, t);
    forall d, i: nat | HasDir(t, d) && SubOf(v, d, i).Some? ensures SubOf(w, d, i) == SubOf(v, d, i) {
      KeepDir(g, v, w, t, d);
    }
    SubsReach(g, v, w, t, t);
  }

  lemma {:induction false} LayoutThrough(g: Geo, a: Vol, ta: Layout, b: Vol, tb: Layout, c: Vol, tc: Layout)
    requires LayoutKept(g, a, ta, b, tb) && LayoutKept(g, b, tb, c, tc)
    ensures LayoutKept(g, a, ta, c, tc)
  {
  }

  lemma {:induction false} RootIs(g: Geo, v: Vol, t: Layout)
    requires Consistent(g, v, t)
    ensures HasDir(t, g.root)
  {
  }

  lemma {:induction false} SubdirInside(g: Geo, v: Vol, t: Layout, d: nat, i: nat)
    requires Consistent(g, v, t) && HasDir(t, d) && i < |DirEnts(v, d)|
    requires Visible(DirEnts(v, d)[i]) && IsDir(DirEnts(v, d)[i])
    ensures HasDir(t, ClusOf(DirEnts(v, d)[i]))
  {
    assert DirOk(v, t, d);
    assert EntryOk(v.fat, t, d, i, DirEnts(v, d)[i]);
  }

  lemma {:induction false} StepStaysInside(g: Geo, v: Vol, t: Layout, d: nat, s: Str)
    requires Consistent(g, v, t) && HasDir(t, d)
    ensures Step(v, d, s).Some? && Step(v, d, s).value.Sub? ==> HasDir(t, Step(v, d, s).value.d)
  {
    if Step(v, d, s).Some? && Step(v, d, s).value.Sub? {
      SubdirInside(g, v, t, d, NameSlot(v, d, s).value);
    }
  }

  /** The tree is a function of the steps. */
  lemma {:induction false} SameStepsSameStat(g: Geo, v: Vol, w: Vol, t: Layout, d: nat, p: seq<Str>)
    requires Consistent(g, v, t) && SameSteps(v, w, t) && HasDir(t, d)
    ensures Stat(w, d, p) == Stat(v, d, p) && DirAt(w, d, p) == DirAt(v, d, p)
    decreases |p|
  {
    hide Consistent, ChildOf, NameSlot;
    if p != [] {
      StepStaysInside(g, v, t, d, p[0]);
      assert Step(w, d, p[0]) == Step(v, d, p[0]);
      match Step(v, d, p[0])
      case Some(Sub(c)) => SameStepsSameStat(g, v, w, t, c, p[1..]);
      case _ =>
    }
  }

  lemma {:induction false} SameStepsSameTree(g: Geo, v: Vol, w: Vol, t: Layout)
    requires Consistent(g, v, t) && SameSteps(v, w, t)
    ensures SameTree(g, v, w)
  {
    forall p ensures Stat(v, g.root, p) == Stat(w, g.root, p) && DirAt(v, g.root, p) == DirAt(w, g.root, p) {
      SameStepsSameStat(g, v, w, t, g.root, p);
    }
  }

  // ----- growing a directory

  ghost function Grown(t: Layout, d: nat, n: nat): Layout
    requires HasDir(t, d)
  {
    t.(chains := t.chains[DirO(d) := t.chains[DirO(d)] + [n]])
  }

  ghost predicate Blank(es: seq<Entry>) {
    forall i :: 0 <= i < |es| ==> es[i][0] == 0
  }

  /** The directory `d` of `v` gained the end-marked, blank cluster `n` at its end. */
  ghost predicate GrownBy(g: Geo, v: Vol, w: Vol, t: Layout, d: nat, n: nat) {
    && HasDir(t, d) && Shape(g, w) && t.chains[DirO(d)] != []
    && 2 <= n < |v.fat| && |w.fat| == |v.fat| && !Owned(t, n)
    && v.fat[n] == LAST && w.clus == v.clus && Blank(Ents(v.clus[n]))
    && var prev := t.chains[DirO(d)][|t.chains[DirO(d)]| - 1];
       prev < |v.fat| && w.fat == v.fat[prev := n]
  }

  lemma {:induction false} GrownDir(g: Geo, v: Vol, w: Vol, t: Layout, d: nat, n: nat)
    requires Consistent(g, v, t) && GrownBy(g, v, w, t, d, n)
    ensures DirChainOk(w, Grown(t, d, n), d)
    ensures DirEnts(w, d) == DirEnts(v, d) + Ents(v.clus[n])
  {
    var ch := t.chains[DirO(d)];
    assert DirChainOk(v, t, d);
    OwnedInRange(g, v, t, DirO(d));
    ChainNoRepeat(v.fat, d, ch);
    assert n !in ch;
    ChainAppend(v.fat, w.fat, d, ch, n);
    ChainOfIs(v.fat, d, ch);
    ChainOfIs(w.fat, d, ch + [n]);
    ContentConcat(w, ch, [n]);
    ContentFrame(v, w, ch);
    assert Content(w, [n]) == v.clus[n] by { assert [n][1..] == []; }
    EntsConcat(Content(v, ch), v.clus[n]);
  }

  lemma {:induction false} GrownOther(g: Geo, v: Vol, w: Vol, t: Layout, d: nat, n: nat, o: Owner, c: nat)
    requires Consistent(g, v, t) && GrownBy(g, v, w, t, d, n)
    requires o in t.chains && o != DirO(d) && IsChain(v.fat, c, t.chains[o])
    ensures IsChain(w.fat, c, t.chains[o]) && Content(w, t.chains[o]) == Content(v, t.chains[o])
  {
    assert Disjoint(t.chains[DirO(d)], t.chains[o]);
    ChainFrame(v.fat, w.fat, c, t.chains[o]);
    ContentFrame(v, w, t.chains[o]);
  }

  lemma {:induction false} GrownOtherDir(g: Geo, v: Vol, w: Vol, t: Layout, d: nat, n: nat, d': nat)
    requires Consistent(g, v, t) && GrownBy(g, v, w, t, d, n) && HasDir(t, d') && d' != d
    ensures DirChainOk(w, Grown(t, d, n), d') && DirEnts(w, d') == DirEnts(v, d')
  {
    assert DirChainOk(v, t, d');
    GrownOther(g, v, w, t, d, n, DirO(d'), d');
    ChainOfIs(v.fat, d', t.chains[DirO(d')]);
    ChainOfIs(w.fat, d', t.chains[DirO(d')]);
  }

  lemma {:induction false} GrownFile(g: Geo, v: Vol, w: Vol, t: Layout, d: nat, n: nat, d': nat, i: nat)
    requires Consistent(g, v, t) && GrownBy(g, v, w, t, d, n) && HasDir(t, d') && i < |DirEnts(v, d')|
    requires Visible(DirEnts(v, d')[i]) && !IsDir(DirEnts(v, d')[i])
    ensures FileO(d', i) in t.chains && FileChain(w.fat, DirEnts(v, d')[i], t.chains[FileO(d', i)])
    ensures FileBytes(w, DirEnts(v, d')[i]) == FileBytes(v, DirEnts(v, d')[i])
  {
    var e := DirEnts(v, d')[i];
    FileSlotChain(g, v, t, d', i);
    var ch := t.chains[FileO(d', i)];
    if IsChain(v.fat, ClusOf(e), ch) {
      GrownOther(g, v, w, t, d, n, FileO(d', i), ClusOf(e));
    }
    BytesOfChain(v, e, ch);
    BytesOfChain(w, e, ch);
  }

  lemma {:induction false} GrownDirOk(g: Geo, v: Vol, w: Vol, t: Layout, d: nat, n: nat, d': nat)
    requires Consistent(g, v, t) && GrownBy(g, v, w, t, d, n) && HasDir(t, d')
    ensures DirOk(w, Grown(t, d, n), d')
    ensures DirEnts(v, d') <= DirEnts(w, d')
    ensures forall i :: |DirEnts(v, d')| <= i < |DirEnts(w, d')| ==> DirEnts(w, d')[i][0] == 0
  {
    hide Content, Ents, ChainOf, FileChain, NameOk, WellNamed, NameOf;
    var t' := Grown(t, d, n);
    if d' == d { GrownDir(g, v, w, t, d, n); } else { GrownOtherDir(g, v, w, t, d, n, d'); }
    assert DirOk(v, t, d');
    var es, fs := DirEnts(v, d'), DirEnts(w, d');
    forall i | 0 <= i < |fs| ensures EntryOk(w.fat, t', d', i, fs[i]) {
      if i < |es| {
        assert fs[i] == es[i];
        assert EntryOk(v.fat, t, d', i, es[i]);
        if Visible(es[i]) && !IsDir(es[i]) {
          GrownFile(g, v, w, t, d, n, d', i);
        }
      } else {
        assert fs[i][0] == 0;
      }
    }
    assert ZeroTail(es);
  }

  lemma {:induction false} GrownDisjoint(g: Geo, v: Vol, t: Layout, d: nat, n: nat)
    requires Consistent(g, v, t) && HasDir(t, d) && !Owned(t, n)
    ensures AllDisjoint(Grown(t, d, n))
  {
    var t' := Grown(t, d, n);
    forall o, o' | o in t'.chains && o' in t'.chains && o != o' ensures Disjoint(t'.chains[o], t'.chains[o']) {
      assert Disjoint(t.chains[o], t.chains[o']);
      assert forall p :: p in t.chains ==> n !in t.chains[p];
    }
  }

  lemma {:induction false} FindInPrefix(es: seq<Entry>, fs: seq<Entry>, q: Query)
    requires es <= fs && ZeroTail(es) && ZeroTail(fs)
    requires forall i :: |es| <= i < |fs| ==> fs[i][0] == 0
    ensures Find(fs, q, 0) == Find(es, q, 0)
  {
    var r := Find(es, q, 0);
    if r.None? {
      FindNone(es, q);
    }
    assert forall i :: 0 <= i < |es| ==> fs[i] == es[i];
    FindIs(fs, q, r);
  }

  /** A directory that gained a blank cluster still lists the same names. */
  lemma {:induction false} GrownConsistent(g: Geo, v: Vol, w: Vol, t: Layout, d: nat, n: nat)
    requires Consistent(g, v, t) && GrownBy(g, v, w, t, d, n)
    ensures Consistent(g, w, Grown(t, d, n)) && SameSteps(v, w, t)
  {
    var t' := Grown(t, d, n);
    GrownDisjoint(g, v, t, d, n);
    forall d' | HasDir(t', d') ensures DirChainOk(w, t', d') && DirOk(w, t', d') {
      if d' == d { GrownDir(g, v, w, t, d, n); } else { GrownOtherDir(g, v, w, t, d, n, d'); }
      GrownDirOk(g, v, w, t, d, n, d');
    }
    forall d': nat, i: nat | FileO(d', i) in t'.chains ensures FileSlotOk(w, t', d', i) {
      assert FileSlotOk(v, t, d', i);
      GrownDirOk(g, v, w, t, d, n, d');
    }
    forall d', s | HasDir(t, d') ensures Step(w, d', s) == Step(v, d', s) {
      GrownDirOk(g, v, w, t, d, n, d');
      assert DirOk(v, t, d');
      FindInPrefix(DirEnts(v, d'), DirEnts(w, d'), ByName(s));
      if NameSlot(v, d', s).Some? {
        var i := NameSlot(v, d', s).value;
        if !IsDir(DirEnts(v, d')[i]) {
          GrownFile(g, v, w, t, d, n, d', i);
        }
      }
    }
  }

  /** Blank slots have no names. */
  lemma {:induction false} GrownNames(g: Geo, v: Vol, w: Vol, t: Layout, d: nat, n: nat)
    requires Consistent(g, v, t) && GrownBy(g, v, w, t, d, n)
    ensures NamesKept(v, t, w, Grown(t, d, n))
  {
    hide Consistent, DirEnts;
    if NamesDiffer(v, t) {
      forall d' | HasDir(Grown(t, d, n), d')
        ensures Distinct(DirEnts(w, d'))
      {
        GrownDirOk(g, v, w, t, d, n, d');
        assert Distinct(DirEnts(v, d'));
      }
    }
  }

  lemma {:induction false} GrownReached(g: Geo, v: Vol, w: Vol, t: Layout, d: nat, n: nat)
    requires Consistent(g, v, t) && GrownBy(g, v, w, t, d, n)
    ensures LayoutKept(g, v, t, w, Grown(t, d, n))
  {
    hide Consistent, DirEnts, ReachKept, NamesKept, GrownBy;
    GrownNames(g, v, w, t, d, n);
    forall d', i: nat | HasDir(t, d') && SubOf(v, d', i).Some? ensures SubOf(w, d', i) == SubOf(v, d', i) {
      GrownDirOk(g, v, w, t, d, n, d');
    }
    GrownDirs(g, v, w, t, d, n);
    SubsReach(g, v, w, t, Grown(t, d, n));
  }

  lemma {:induction false} GrownDirs(g: Geo, v: Vol, w: Vol, t: Layout, d: nat, n: nat)
    requires GrownBy(g, v, w, t, d, n)
    ensures HasDir(t, d) && forall d' :: HasDir(Grown(t, d, n), d') ==> HasDir(t, d')
  {
  }

  // ----- storing one entry

  predicate FreeSlot(e: Entry) { e[0] == 0 || e[0] == 0xE5 }

  /** The first free slot from `i` on. */
  function FirstFree(es: seq<Entry>, i: nat): (r: Option<nat>)
    ensures r.Some? ==>
              i <= r.value < |es| && FreeSlot(es[r.value]) && forall j :: i <= j < r.value ==> !FreeSlot(es[j])
    ensures r.None? ==> forall j :: i <= j < |es| ==> !FreeSlot(es[j])
    decreases |es| - i
  {
    if i >= |es| then None else if FreeSlot(es[i]) then Some(i) else FirstFree(es, i + 1)
  }

  /** Slot `p` is where an entry named `n` goes: over the one that has the name, else the first free one. */
  ghost predicate SlotFor(es: seq<Entry>, n: Name83, p: nat) {
    && p < |es|
    && match Find(es, By83(n), 0)
       case Some(i) => i == p && !IsDir(es[p])
       case None => FreeSlot(es[p]) && forall j :: 0 <= j < p ==> !FreeSlot(es[j])
  }

  /** A plain-file entry named `n`. */
  predicate FileEntry(e: Entry, n: Name83) { e[..11] == n && e[11] == 0x20 }

  /** Entry `e` was stored in slot `p` of directory `d`; its chain `ch` belonged to nobody before. */
  ghost predicate Stored(g: Geo, v: Vol, w: Vol, t: Layout, d: nat, p: nat, e: Entry, ch: seq<nat>) {
    && Shape(g, w) && w.fat == v.fat && |w.clus| == |v.clus|
    && HasDir(t, d) && p < |DirEnts(v, d)| && DirEnts(w, d) == DirEnts(v, d)[p := e]
    && FileChain(v.fat, e, ch) && (forall x :: x in ch ==> !Owned(t, x))
    && (forall c: nat :: c < |v.clus| && c !in t.chains[DirO(d)] ==> w.clus[c] == v.clus[c])
  }

  ghost function WithFile(t: Layout, d: nat, p: nat, ch: seq<nat>): Layout {
    t.(chains := t.chains[FileO(d, p) := ch])
  }

  /** A well-formed entry that reads like an encoded name is that entry, byte for byte. */
  lemma {:induction false} SameTextSameBytes(e: Entry, leaf: Str)
    requires Encode83(leaf).Some? && Listed(e) && NameOk(e)
    ensures NameOf(e) == NameOf(Encode83(leaf).value) <==> e[..11] == Encode83(leaf).value
    ensures e[..11] == Encode83(leaf).value ==> Visible(e)
  {
    hide Encode83, Index, Padded, Upper;
    var n := Encode83(leaf).value;
    EncodedFields(leaf);
    TextEndsPlain(n);
    NameOfPrefix(e);
    assert n[..11] == n;
    if NameOf(e) == NameOf(n) {
      NameOfInjective(e, n);
    }
  }

  /** How the scan for a name sees the directory after the store. */
  lemma {:induction false} StoredFind(fat: seq<nat>, t: Layout, d: nat, es: seq<Entry>, leaf: Str, p: nat, e: Entry,
                                      s: Str)
    requires Encode83(leaf).Some? && SlotFor(es, Encode83(leaf).value, p) && FileEntry(e, Encode83(leaf).value)
    requires ZeroTail(es) && forall i :: 0 <= i < |es| ==> EntryOk(fat, t, d, i, es[i])
    ensures ZeroTail(es[p := e]) && Listed(e) && Visible(e) && NameOk(e)
    ensures Find(es[p := e], ByName(s), 0) ==
            if Upper(s) == NameOf(Encode83(leaf).value) then Some(p) else Find(es, ByName(s), 0)
    ensures Upper(s) == NameOf(Encode83(leaf).value) ==>
              Find(es, ByName(s), 0) == Find(es, By83(Encode83(leaf).value), 0)
  {
    hide Encode83, NameOf, Upper, EntryOk;
    var n := Encode83(leaf).value;
    var fs := es[p := e];
    NewEntryOk(e, leaf);
    assert ZeroTail(fs);
    StoredHits(fat, t, d, es, leaf, p, e, s);
    var old83 := Find(es, By83(n), 0);
    if old83.None? { FindNone(es, By83(n)); }
    if Upper(s) == NameOf(n) {
      FindIs(es, ByName(s), old83);
      FindIs(fs, ByName(s), Some(p));
    } else {
      var r := Find(es, ByName(s), 0);
      if r.None? { FindNone(es, ByName(s)); }
      FindIs(fs, ByName(s), r);
    }
  }

  lemma {:induction false} NewEntryOk(e: Entry, leaf: Str)
    requires Encode83(leaf).Some? && FileEntry(e, Encode83(leaf).value)
    ensures Listed(e) && Visible(e) && NameOk(e) && !IsDir(e) && NameOf(e) == NameOf(Encode83(leaf).value)
  {
    var n := Encode83(leaf).value;
    EncodedFields(leaf);
    assert forall i :: 0 <= i < 11 ==> e[i] == e[..11][i];
    assert e[..8] == e[..11][..8] && e[8..11] == e[..11][8..11];
    assert n[0] != 0 && n[0] != 0xE5;
    assert WellNamed(e);
    SameTextSameBytes(e, leaf);
  }

  /** Which slots the scan for `s` hits, before and after. */
  lemma {:induction false} StoredHits(fat: seq<nat>, t: Layout, d: nat, es: seq<Entry>, leaf: Str, p: nat, e: Entry,
                                      s: Str)
    requires Encode83(leaf).Some? && SlotFor(es, Encode83(leaf).value, p) && FileEntry(e, Encode83(leaf).value)
    requires forall i :: 0 <= i < |es| ==> EntryOk(fat, t, d, i, es[i])
    ensures Hit(ByName(s), e) <==> Upper(s) == NameOf(Encode83(leaf).value)
    ensures Upper(s) == NameOf(Encode83(leaf).value) ==>
              forall i :: 0 <= i < |es| ==> (Hit(ByName(s), es[i]) <==> Hit(By83(Encode83(leaf).value), es[i]))
    ensures Upper(s) != NameOf(Encode83(leaf).value) ==> !Hit(ByName(s), es[p])
  {
    NewEntryOk(e, leaf);
    forall i | 0 <= i < |es| && Upper(s) == NameOf(Encode83(leaf).value)
      ensures Hit(ByName(s), es[i]) <==> Hit(By83(Encode83(leaf).value), es[i])
    {
      assert EntryOk(fat, t, d, i, es[i]);
      if Listed(es[i]) { SameTextSameBytes(es[i], leaf); }
    }
    assert EntryOk(fat, t, d, p, es[p]);
    if Listed(es[p]) { SameTextSameBytes(es[p], leaf); }
  }

  lemma {:induction false} StoredOther(g: Geo, v: Vol, w: Vol, t: Layout, d: nat, p: nat, e: Entry, ch: seq<nat>,
                                       o: Owner)
    requires Consistent(g, v, t) && Stored(g, v, w, t, d, p, e, ch)
    requires o in t.chains && o != DirO(d)
    ensures Content(w, t.chains[o]) == Content(v, t.chains[o])
  {
    assert Disjoint(t.chains[o], t.chains[DirO(d)]);
    ContentFrame(v, w, t.chains[o]);
  }

  lemma {:induction false} StoredDirEnts(g: Geo, v: Vol, w: Vol, t: Layout, d: nat, p: nat, e: Entry, ch: seq<nat>,
                                         d': nat)
    requires Consistent(g, v, t) && Stored(g, v, w, t, d, p, e, ch) && HasDir(t, d')
    ensures DirChainOk(w, WithFile(t, d, p, ch), d')
    ensures DirEnts(w, d') == if d' == d then DirEnts(v, d)[p := e] else DirEnts(v, d')
  {
    assert DirChainOk(v, t, d');
    ChainOfIs(v.fat, d', t.chains[DirO(d')]);
    if d' != d {
      StoredOther(g, v, w, t, d, p, e, ch, DirO(d'));
    }
  }

  /** Files in other slots keep their bytes. */
  lemma {:induction false} StoredFile(g: Geo, v: Vol, w: Vol, t: Layout, d: nat, p: nat, e: Entry, ch: seq<nat>,
                                      d': nat, i: nat)
    requires Consistent(g, v, t) && Stored(g, v, w, t, d, p, e, ch) && HasDir(t, d')
    requires i < |DirEnts(v, d')| && Visible(DirEnts(v, d')[i]) && !IsDir(DirEnts(v, d')[i])
    ensures FileBytes(w, DirEnts(v, d')[i]) == FileBytes(v, DirEnts(v, d')[i])
  {
    FileSlotChain(g, v, t, d', i);
    var ch' := t.chains[FileO(d', i)];
    StoredOther(g, v, w, t, d, p, e, ch, FileO(d', i));
    BytesOfChain(v, DirEnts(v, d')[i], ch');
    BytesOfChain(w, DirEnts(v, d')[i], ch');
  }

  lemma {:induction false} StoredDirOk(g: Geo, v: Vol, w: Vol, t: Layout, d: nat, p: nat, e: Entry, ch: seq<nat>,
                                       leaf: Str, d': nat)
    requires Consistent(g, v, t) && Stored(g, v, w, t, d, p, e, ch) && HasDir(t, d')
    requires Encode83(leaf).Some? && SlotFor(DirEnts(v, d), Encode83(leaf).value, p)
             && FileEntry(e, Encode83(leaf).value)
    ensures DirOk(w, WithFile(t, d, p, ch), d')
  {
    hide Encode83, Hit, Find, NameOf, Content, Ents, IsChain, SlotFor, FileEntry, DirEnts, Shape, ChainOf;
    var t' := WithFile(t, d, p, ch);
    StoredDirEnts(g, v, w, t, d, p, e, ch, d');
    assert DirOk(v, t, d');
    var es, fs := DirEnts(v, d'), DirEnts(w, d');
    NewEntryOk(e, leaf);
    if d' == d { StoredFind(v.fat, t, d, es, leaf, p, e, leaf); }
    forall i | 0 <= i < |fs| ensures EntryOk(w.fat, t', d', i, fs[i]) {
      assert EntryOk(v.fat, t, d', i, es[i]);
    }
  }

  lemma {:induction false} StoredDisjoint(g: Geo, v: Vol, w: Vol, t: Layout, d: nat, p: nat, e: Entry, ch: seq<nat>)
    requires Consistent(g, v, t) && Stored(g, v, w, t, d, p, e, ch)
    ensures AllDisjoint(WithFile(t, d, p, ch))
  {
    var t' := WithFile(t, d, p, ch);
    forall o, o' | o in t'.chains && o' in t'.chains && o != o' ensures Disjoint(t'.chains[o], t'.chains[o']) {
      if o != FileO(d, p) && o' != FileO(d, p) {
        assert Disjoint(t.chains[o], t.chains[o']);
      } else {
        var other := if o == FileO(d, p) then o' else o;
        assert forall x :: x in t.chains[other] ==> Owned(t, x);
      }
    }
  }

  lemma {:induction false} StoredConsistent(g: Geo, v: Vol, w: Vol, t: Layout, d: nat, p: nat, e: Entry, ch: seq<nat>,
                                            leaf: Str)
    requires Consistent(g, v, t) && Stored(g, v, w, t, d, p, e, ch)
    requires Encode83(leaf).Some? && SlotFor(DirEnts(v, d), Encode83(leaf).value, p)
             && FileEntry(e, Encode83(leaf).value)
    ensures Consistent(g, w, WithFile(t, d, p, ch))
  {
    var t' := WithFile(t, d, p, ch);
    StoredDisjoint(g, v, w, t, d, p, e, ch);
    forall d' | HasDir(t', d') ensures DirChainOk(w, t', d') && DirOk(w, t', d') {
      StoredDirEnts(g, v, w, t, d, p, e, ch, d');
      StoredDirOk(g, v, w, t, d, p, e, ch, leaf, d');
    }
    forall d': nat, i: nat | FileO(d', i) in t'.chains ensures FileSlotOk(w, t', d', i) {
      StoredDirEnts(g, v, w, t, d, p, e, ch, d');
      if FileO(d', i) == FileO(d, p) {
        NewEntryOk(e, leaf);
      } else {
        assert FileSlotOk(v, t, d', i);
      }
    }
  }

  /** The slot of a new name is the one that had the name, or the name was not there. */
  lemma {:induction false} StoredDistinct(es: seq<Entry>, n: Name83, p: nat, e: Entry)
    requires ZeroTail(es) && SlotFor(es, n, p) && e[..11] == n && Distinct(es)
    ensures Distinct(es[p := e])
  {
    var fs, r := es[p := e], Find(es, By83(n), 0);
    if r.None? { FindNone(es, By83(n)); }
    forall i | 0 <= i < |es| && i != p && Listed(es[i])
      ensures es[i][..11] != n
    {
      if r.None? {
        assert !Hit(By83(n), es[i]);
      } else {
        assert Hit(By83(n), es[p]);
      }
    }
  }

  lemma {:induction false} StoredNames(g: Geo, v: Vol, w: Vol, t: Layout, d: nat, p: nat, e: Entry, ch: seq<nat>,
                                       n: Name83)
    requires Consistent(g, v, t) && Stored(g, v, w, t, d, p, e, ch) && SlotFor(DirEnts(v, d), n, p) && e[..11] == n
    ensures NamesKept(v, t, w, WithFile(t, d, p, ch))
  {
    hide DirEnts, SlotFor, Distinct;
    if NamesDiffer(v, t) {
      forall d' | HasDir(t, d')
        ensures Distinct(DirEnts(w, d'))
      {
        StoredDirEnts(g, v, w, t, d, p, e, ch, d');
        assert DirOk(v, t, d') && Distinct(DirEnts(v, d'));
        if d' == d { StoredDistinct(DirEnts(v, d), n, p, e); }
      }
      assert forall d' :: HasDir(WithFile(t, d, p, ch), d') ==> HasDir(t, d');
    }
  }

  lemma {:induction false} StoredReached(g: Geo, v: Vol, w: Vol, t: Layout, d: nat, p: nat, e: Entry, ch: seq<nat>,
                                         n: Name83)
    requires Consistent(g, v, t) && Stored(g, v, w, t, d, p, e, ch) && SlotFor(DirEnts(v, d), n, p) && e[..11] == n
    ensures LayoutKept(g, v, t, w, WithFile(t, d, p, ch))
  {
    hide Consistent, DirEnts, ReachKept, NamesKept, SlotFor, Stored;
    StoredNames(g, v, w, t, d, p, e, ch, n);
    NotASub(g, v, t, d, n, p);
    forall d', i: nat | HasDir(t, d') && SubOf(v, d', i).Some? ensures SubOf(w, d', i) == SubOf(v, d', i) {
      StoredDirEnts(g, v, w, t, d, p, e, ch, d');
    }
    assert forall d' :: HasDir(WithFile(t, d, p, ch), d') ==> HasDir(t, d');
    SubsReach(g, v, w, t, WithFile(t, d, p, ch));
  }

  /** The slot an entry goes over names no directory. */
  lemma {:induction false} NotASub(g: Geo, v: Vol, t: Layout, d: nat, n: Name83, p: nat)
    requires SlotFor(DirEnts(v, d), n, p)
    ensures SubOf(v, d, p) == None && p < |DirEnts(v, d)|
  {
  }

  /** The step relation changes at one point: the stored name in its directory. */
  ghost predicate OnePoint(v: Vol, w: Vol, t: Layout, d: nat, name: Str, bytes: seq<byte>) {
    forall d', s :: HasDir(t, d') ==>
      Step(w, d', s) == if d' == d && Upper(s) == name then Some(File(bytes)) else Step(v, d', s)
  }

  lemma {:induction false} StoredStep(g: Geo, v: Vol, w: Vol, t: Layout, d: nat, p: nat, e: Entry, ch: seq<nat>,
                                      leaf: Str, d': nat, s: Str)
    requires Consistent(g, v, t) && Stored(g, v, w, t, d, p, e, ch) && HasDir(t, d')
    requires Encode83(leaf).Some? && SlotFor(DirEnts(v, d), Encode83(leaf).value, p)
             && FileEntry(e, Encode83(leaf).value)
    ensures Step(w, d', s) ==
            if d' == d && Upper(s) == NameOf(Encode83(leaf).value) then Some(File(FileBytes(w, e))) else Step(v, d', s)
    ensures d' == d && Upper(s) == NameOf(Encode83(leaf).value) ==> Step(v, d', s) == None || Step(v, d', s).value.File?
  {
    hide Encode83, NameOf, Content, Ents, IsChain, FileEntry, DirEnts, Shape, ChainOf, EntryOk;
    StoredDirEnts(g, v, w, t, d, p, e, ch, d');
    assert DirOk(v, t, d');
    NewEntryOk(e, leaf);
    if d' == d { StoredFind(v.fat, t, d, DirEnts(v, d), leaf, p, e, s); }
    if NameSlot(v, d', s).Some? {
      var i := NameSlot(v, d', s).value;
      if !IsDir(DirEnts(v, d')[i]) {
        StoredFile(g, v, w, t, d, p, e, ch, d', i);
      }
      if d' == d && Upper(s) != NameOf(Encode83(leaf).value) {
        StoredHits(v.fat, t, d, DirEnts(v, d), leaf, p, e, s);
      }
    }
  }

  lemma {:induction false} StoredOnePoint(g: Geo, v: Vol, w: Vol, t: Layout, d: nat, p: nat, e: Entry, ch: seq<nat>,
                                          leaf: Str)
    requires Consistent(g, v, t) && Stored(g, v, w, t, d, p, e, ch)
    requires Encode83(leaf).Some? && SlotFor(DirEnts(v, d), Encode83(leaf).value, p)
             && FileEntry(e, Encode83(leaf).value)
    ensures OnePoint(v, w, t, d, NameOf(Encode83(leaf).value), FileBytes(w, e))
  {
    forall d', s | HasDir(t, d')
      ensures Step(w, d', s) ==
              if d' == d && Upper(s) == NameOf(Encode83(leaf).value) then Some(File(FileBytes(w, e)))
              else Step(v, d', s)
    {
      StoredStep(g, v, w, t, d, p, e, ch, leaf, d', s);
    }
  }
}
