/** Where the map still has large pages, and how many of them a range meets. */
module LargePages {
  import opened Arith
  import opened PageTables

  /** `m'` has no large page where `m` had none. */
  ghost predicate NoNewLarge(m: Mem, m': Mem, root: nat) {
    forall v: nat :: v < Span(4) && LargeAt(m', root, 3, v) ==> LargeAt(m, root, 3, v)
  }

  lemma {:induction false} NoNewLargeRefl(m: Mem, root: nat)
    ensures NoNewLarge(m, m, root)
  {
  }

  /** Hanging a table of small pages makes no large page. */
  lemma {:induction false} HungLarge(m: Mem, m': Mem, own: Tables, root: nat, f: nat, i: nat, t: nat, g: nat, l: nat,
                                     v: nat)
    requires Tree(m, own, root) && Hung(m, m', own, f, i, t) && own[f].level == 1
    requires l <= 3 && IsTable(own, g, l, v / Span(l + 1))
    ensures LargeAt(m', g, l, v) ==> LargeAt(m, g, l, v)
    decreases l
  {
    hide Entry, Span, LinkOk, FrameOf, LargeBit;
    if l > 0 && !(g == f && Idx(v, l) == i) {
      var e := Entry(m, g, Idx(v, l));
      assert Entry(m', g, Idx(v, l)) == e;
      if Present(e) && !Large(l, e) {
        WalkDown(m, own, root, g, l, v);
        HungLarge(m, m', own, root, f, i, t, FrameOf(e), l - 1, v);
      }
    }
  }

  /** Level-0 entries do not make large pages. */
  lemma {:induction false} LeafLarge(m: Mem, m': Mem, own: Tables, root: nat, f: nat, i: nat, g: nat, l: nat, v: nat)
    requires Tree(m, own, root) && f in own && own[f].level == 0 && i < 512 && SameEntriesBut(m, m', own, f, i)
    requires l <= 3 && IsTable(own, g, l, v / Span(l + 1))
    ensures LargeAt(m', g, l, v) == LargeAt(m, g, l, v)
    decreases l
  {
    hide Entry, Span, LinkOk, FrameOf, LargeBit;
    if l > 0 {
      var e := Entry(m, g, Idx(v, l));
      assert Entry(m', g, Idx(v, l)) == e;
      if Present(e) && !Large(l, e) {
        WalkDown(m, own, root, g, l, v);
        LeafLarge(m, m', own, root, f, i, FrameOf(e), l - 1, v);
      }
    }
  }

  lemma {:induction false} SplitNoNew(m: Mem, m': Mem, own: Tables, root: nat, f: nat, i: nat, t: nat)
    requires Tree(m, own, root) && Hung(m, m', own, f, i, t) && own[f].level == 1
    ensures NoNewLarge(m, m', root)
  {
    hide Entry, LinkOk, Hung, LargeAt, Tree;
    forall v: nat | v < Span(4) && LargeAt(m', root, 3, v)
      ensures LargeAt(m, root, 3, v)
    {
      TableRoot(m, own, root);
      RootServes(own, root, v);
      HungLarge(m, m', own, root, f, i, t, root, 3, v);
    }
  }

  lemma {:induction false} LeafNoNew(m: Mem, m': Mem, own: Tables, root: nat, f: nat, i: nat)
    requires Tree(m, own, root) && f in own && own[f].level == 0 && i < 512 && SameEntriesBut(m, m', own, f, i)
    ensures forall v: nat :: v < Span(4) ==> LargeAt(m', root, 3, v) == LargeAt(m, root, 3, v)
  {
    hide Entry, LinkOk, SameEntriesBut, LargeAt, Tree;
    forall v: nat | v < Span(4)
      ensures LargeAt(m', root, 3, v) == LargeAt(m, root, 3, v)
    {
      TableRoot(m, own, root);
      RootServes(own, root, v);
      LeafLarge(m, m', own, root, f, i, root, 3, v);
    }
  }

  lemma {:induction false} LeafLargeSame(m: Mem, m1: Mem, m2: Mem, own: Tables, root: nat, f: nat, i: nat, v: nat)
    requires Tree(m1, own, root) && f in own && own[f].level == 0 && i < 512 && SameEntriesBut(m1, m2, own, f, i)
    requires NoNewLarge(m, m1, root) && v < Span(4) && !LargeAt(m1, root, 3, v)
    ensures NoNewLarge(m, m2, root) && !LargeAt(m2, root, 3, v)
  {
    hide LargeAt, Tree, SameEntriesBut;
    LeafNoNew(m1, m2, own, root, f, i);
  }

  // ----- counting them

  const LARGE: nat := 0x20_0000

  lemma {:induction false} SameStretchSpans(v: nat, w: nat, l: nat)
    requires 1 <= l <= 3 && v / LARGE == w / LARGE
    ensures v / Span(l) == w / Span(l) && Idx(v, l) == Idx(w, l)
    decreases l
  {
    if l > 1 {
      SameStretchSpans(v, w, l - 1);
      IdxPosition(v, l - 1);
      IdxPosition(w, l - 1);
    }
  }

  lemma {:induction false} SameStretch(m: Mem, t: nat, l: nat, v: nat, w: nat)
    requires l <= 3 && v / LARGE == w / LARGE
    ensures LargeAt(m, t, l, v) == LargeAt(m, t, l, w)
    decreases l
  {
    if l > 0 {
      SameStretchSpans(v, w, l);
      SameStretch(m, FrameOf(Entry(m, t, Idx(v, l))), l - 1, v, w);
    }
  }

  /** Large pages among the 2 MB stretches `a` to `z`. */
  ghost function Larges(m: Mem, root: nat, a: nat, z: nat): (n: nat)
    decreases z - a
  {
    if a >= z then 0 else (if LargeAt(m, root, 3, a * LARGE) then 1 else 0) + Larges(m, root, a + 1, z)
  }

  lemma {:induction false} FewerLarges(m: Mem, m': Mem, root: nat, a: nat, z: nat)
    requires NoNewLarge(m, m', root) && z * LARGE <= Span(4)
    ensures Larges(m', root, a, z) <= Larges(m, root, a, z)
    decreases z - a
  {
    hide LargeAt;
    if a < z {
      assert a * LARGE < Span(4);
      FewerLarges(m, m', root, a + 1, z);
    }
  }

  /** A large page at `v` is one of those counted from `v` on. */
  lemma {:induction false} LargeIsCounted(m: Mem, root: nat, v: nat, z: nat)
    requires StretchOf(v) < z
    ensures Larges(m, root, StretchOf(v), z) ==
            (if LargeAt(m, root, 3, v) then 1 else 0) + Larges(m, root, StretchOf(v) + 1, z)
  {
    hide LargeAt;
    SameStretch(m, root, 3, v, StretchOf(v) * LARGE);
  }

  /** The 2 MB stretch an address lies in. */
  function StretchOf(v: nat): (n: nat) { v / LARGE }

  /** Stretches that end at `end` or behind it. */
  function EndStretch(end: nat): (z: nat) { (end + LARGE - 1) / LARGE }

  lemma {:induction false} StretchInRange(v: nat, end: nat)
    requires v < end <= Span(3)
    ensures StretchOf(v) < EndStretch(end) && EndStretch(end) * LARGE <= Span(4)
  {
  }

  /** Going on by a page: the page's stretch is large no more, and the frame that took is paid for. */
  lemma {:induction false} LargesStep(m: Mem, m': Mem, root: nat, v: nat, z: nat)
    requires NoNewLarge(m, m', root) && z * LARGE <= Span(4) && StretchOf(v) < z
    requires !LargeAt(m', root, 3, v)
    ensures Larges(m', root, StretchOf(v + 0x1000), z) + (if LargeAt(m, root, 3, v) then 1 else 0)
            <= Larges(m, root, StretchOf(v), z)
  {
    hide LargeAt, Larges;
    LargeIsCounted(m, root, v, z);
    LargeIsCounted(m', root, v, z);
    FewerLarges(m, m', root, StretchOf(v) + 1, z);
  }

  /** A page begins in the stretch of each of its addresses. */
  lemma {:induction false} SameStretchStart(v: nat)
    ensures StretchOf(v / 0x1000 * 0x1000) == StretchOf(v)
  {
    var q := v / 0x1000;
    var k, x := q / 512, q % 512 * 0x1000;
    assert q * 0x1000 == k * LARGE + x;
    QuotientUnique(k, x, LARGE);
    QuotientUnique(k, x + v % 0x1000, LARGE);
  }
}
