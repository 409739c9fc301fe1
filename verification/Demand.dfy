/** How many frames it takes to map pages below 1 GB: one a page, and one for every table that is missing. */
module Demand {
  import opened Arith
  import opened PageTables
  import opened LargePages

  /** Stretch `s` of 2 MB has a table of small pages. */
  ghost predicate HasLeaf(m: Mem, root: nat, s: nat) { LeafTable(m, root, 3, s * LARGE).Some? }

  /** The first gigabyte has a table of stretches. */
  ghost predicate HasDir(m: Mem, root: nat) { TableAt(m, root, 3, 0, 1).Some? }

  ghost function Bare(m: Mem, root: nat, x: set<nat>): set<nat> { set s | s in x && !HasLeaf(m, root, s) }

  /** Tables to be made, or split off, before all of the stretches `x` have one. */
  ghost function NewTables(m: Mem, root: nat, x: set<nat>): (n: nat) {
    |Bare(m, root, x)| + if x != {} && !HasDir(m, root) then 1 else 0
  }

  /** Stretch `s` holds one of the pages `a` to `z`. */
  predicate Meets(s: nat, a: nat, z: nat) { a < z && a / 512 <= s < (z + 511) / 512 }

  ghost function Stretches(a: nat, z: nat): (x: set<nat>) {
    set s: nat | s < (z + 511) / 512 && Meets(s, a, z)
  }

  /** Frames it takes to map pages `a` to `z`. */
  ghost function PageDemand(m: Mem, root: nat, a: nat, z: nat): (n: nat)
    requires a <= z
  {
    z - a + NewTables(m, root, Stretches(a, z))
  }

  predicate Low(x: set<nat>) { forall s :: s in x ==> s < 512 }

  /** Exactly the stretches `x` have got a table, if they had none. */
  ghost predicate Gained(m: Mem, m': Mem, root: nat, x: set<nat>) {
    && (forall s: nat :: s < 512 ==> (HasLeaf(m', root, s) <==> HasLeaf(m, root, s) || s in x))
    && (HasDir(m', root) <==> HasDir(m, root) || x != {})
  }

  lemma {:induction false} GainedNone(m: Mem, root: nat)
    ensures Gained(m, m, root, {}) && NewTables(m, root, {}) == 0
  {
    assert Bare(m, root, {}) == {};
  }

  lemma {:induction false} GainedTrans(m: Mem, m1: Mem, m2: Mem, root: nat, x: set<nat>, y: set<nat>)
    requires Gained(m, m1, root, x) && Gained(m1, m2, root, y)
    ensures Gained(m, m2, root, x + y)
  {
    hide HasLeaf, HasDir;
  }

  /** What was made for the stretches `x` need not be made again for `y`. */
  lemma {:induction false} DemandAdds(m: Mem, m1: Mem, root: nat, x: set<nat>, y: set<nat>)
    requires Gained(m, m1, root, x) && Low(x) && Low(y)
    ensures NewTables(m, root, x + y) == NewTables(m, root, x) + NewTables(m1, root, y)
  {
    hide HasLeaf, HasDir;
    assert Bare(m, root, x + y) == Bare(m, root, x) + Bare(m1, root, y);
    assert Bare(m, root, x) !! Bare(m1, root, y);
  }

  lemma {:induction false} DemandGrows(m: Mem, root: nat, x: set<nat>, y: set<nat>)
    requires x <= y
    ensures NewTables(m, root, x) <= NewTables(m, root, y)
  {
    hide HasLeaf, HasDir;
    assert Bare(m, root, y) == Bare(m, root, x) + (Bare(m, root, y) - Bare(m, root, x));
  }

  lemma {:induction false} OneMoreStretch(a: nat, b: nat)
    requires a <= b
    ensures Stretches(a, b + 1) == Stretches(a, b) + {b / 512}
    ensures b < 0x4_0000 ==> Low(Stretches(a, b + 1))
  {
  }

  lemma {:induction false} SubStretches(a: nat, b: nat, z: nat)
    requires a <= b <= z
    ensures Stretches(a, b) <= Stretches(a, z)
  {
  }

  /** The addresses of a stretch have one level-0 table. */
  lemma {:induction false} SameLeaf(m: Mem, t: nat, l: nat, v: nat, w: nat)
    requires l <= 3 && v / LARGE == w / LARGE
    ensures LeafTable(m, t, l, v) == LeafTable(m, t, l, w)
    decreases l
  {
    if l > 0 {
      SameStretchSpans(v, w, l);
      SameLeaf(m, FrameOf(Entry(m, t, Idx(v, l))), l - 1, v, w);
    }
  }

  lemma {:induction false} LeafOf(m: Mem, root: nat, v: nat)
    ensures HasLeaf(m, root, StretchOf(v)) <==> LeafTable(m, root, 3, v).Some?
  {
    hide LeafTable;
    StretchStart(v);
    SameLeaf(m, root, 3, StretchOf(v) * LARGE, v);
  }

  lemma {:induction false} StretchStart(v: nat)
    ensures StretchOf(v) * LARGE / LARGE == v / LARGE
  {
    QuotientUnique(StretchOf(v), 0, LARGE);
  }

  /** The tables missing for one page are those of its stretch. */
  lemma {:induction false} OnePageNeed(m: Mem, own: Tables, root: nat, v: nat)
    requires Tree(m, own, root) && Present(Entry(m, root, 0)) && v < 0x4000_0000
    ensures Missing(m, root, 3, v) == NewTables(m, root, {StretchOf(v)})
    ensures LeafTable(m, root, 3, v).Some? ==> HasDir(m, root)
  {
    hide Entry, LeafTable, Tree, LargeAt, Missing, LargeBit, FrameOf, HasLeaf;
    var s := StretchOf(v);
    LeafOf(m, root, v);
    UpperTables(m, own, root, v);
    DirEntry(m, own, root, v);
    LeafEntry(m, own, root, v);
    assert Bare(m, root, {s}) == if HasLeaf(m, root, s) then {} else {s};
  }

  /** The table of stretches is what entry 0 of the second table names. */
  lemma {:induction false} DirEntry(m: Mem, own: Tables, root: nat, v: nat)
    requires Tree(m, own, root) && Present(Entry(m, root, 0)) && v < 0x4000_0000
    ensures Idx(v, 2) == 0 && (HasDir(m, root) <==> Present(Entry(m, FrameOf(Entry(m, root, 0)), 0)))
  {
    hide Entry, Tree;
    var pdpt := FrameOf(Entry(m, root, 0));
    assert TableAt(m, root, 3, 0, 1) == TableAt(m, pdpt, 2, 0, 1);
  }

  lemma {:induction false} LeafEntry(m: Mem, own: Tables, root: nat, v: nat)
    requires Tree(m, own, root) && Present(Entry(m, root, 0)) && v < 0x4000_0000
    ensures LeafTable(m, root, 3, v).Some? <==> Missing(m, root, 3, v) == 0
    ensures LeafTable(m, root, 3, v).Some? ==> Present(Entry(m, FrameOf(Entry(m, root, 0)), Idx(v, 2)))
  {
    hide Entry, Tree, LargeBit;
    UpperTables(m, own, root, v);
    var pdpt := FrameOf(Entry(m, root, 0));
    assert LeafTable(m, root, 3, v) == LeafTable(m, pdpt, 2, v);
  }

  /** A page that was mapped has given its stretch a table, and no other. */
  lemma {:induction false} OnePageGained(m: Mem, m': Mem, own': Tables, root: nat, v: nat)
    requires Tree(m', own', root) && Present(Entry(m', root, 0)) && v < 0x4000_0000
    requires LeavesBut(m, m', root, v) && LeafTable(m', root, 3, v).Some?
    ensures Gained(m, m', root, {StretchOf(v)})
  {
    hide Entry, LeafTable, Tree;
    OnePageNeed(m', own', root, v);
    LeafOf(m', root, v);
    forall s: nat | s < 512 ensures HasLeaf(m', root, s) <==> HasLeaf(m, root, s) || s == StretchOf(v) {
      if s != StretchOf(v) { OtherStretch(s, v); }
    }
  }

  lemma {:induction false} OtherStretch(s: nat, v: nat)
    requires s < 512 && s != StretchOf(v)
    ensures s * LARGE < Span(4) && s * LARGE / Span(1) != v / Span(1)
  {
    QuotientUnique(s, 0, LARGE);
  }

  /** The walk reads nothing but the tables. */
  lemma {:induction false} SameWalk(m: Mem, m': Mem, own: Tables, root: nat, t: nat, l: nat, v: nat)
    requires Tree(m, own, root) && SameEntries(m, m', own) && 1 <= l <= 3 && IsTable(own, t, l, v / Span(l + 1))
    ensures TableAt(m', t, l, v, 1) == TableAt(m, t, l, v, 1)
    decreases l
  {
    hide Entry, Span, LinkOk, FrameOf, LargeBit;
    if l > 1 {
      var e := Entry(m, t, Idx(v, l));
      assert Entry(m', t, Idx(v, l)) == e;
      if Present(e) && !Large(l, e) {
        WalkDown(m, own, root, t, l, v);
        SameWalk(m, m', own, root, FrameOf(e), l - 1, v);
      }
    }
  }

  /** Bytes stored outside the tables change none of this. */
  lemma {:induction false} GainedSame(m: Mem, m1: Mem, m2: Mem, own: Tables, root: nat, x: set<nat>)
    requires Gained(m, m1, root, x) && Tree(m1, own, root) && SameEntries(m1, m2, own)
    ensures Gained(m, m2, root, x)
  {
    hide LeafTable, TableAt, Tree, SameEntries, LinkOk;
    TableRoot(m1, own, root);
    forall v: nat | v < Span(4)
      ensures LeafTable(m2, root, 3, v) == LeafTable(m1, root, 3, v)
      ensures TableAt(m2, root, 3, v, 1) == TableAt(m1, root, 3, v, 1)
    {
      RootServes(own, root, v);
      SameEntriesPhys(m1, m2, own, root, root, 3, v);
      SameWalk(m1, m2, own, root, root, 3, v);
    }
    assert forall s: nat :: s < 512 ==> s * LARGE < Span(4);
    assert forall s: nat :: s < 512 ==> HasLeaf(m2, root, s) == HasLeaf(m1, root, s);
  }
}
