/** The ELF loader: a program image in memory becomes pages of user memory. */
module Elf {
  import opened Arith
  import opened Bytes
  import opened Frames
  import opened PageTables
  import opened LargePages
  import opened Demand
  import opened Kernel

  const USER_MIN: nat := 0x40_0000
  const USER_MAX: nat := 0x4000_0000
  const PT_LOAD: nat := 1
  const EHDR: nat := 64
  const PHDR: nat := 56

  // ----- the file format

  datatype Segment = Segment(kind: nat, flags: nat, off: nat, vaddr: nat, filesz: nat, memsz: nat)

  function Phoff(f: seq<byte>): nat requires |f| >= EHDR { Rd64(f, 32) }
  function EntryPoint(f: seq<byte>): nat requires |f| >= EHDR { Rd64(f, 24) }
  function Phentsize(f: seq<byte>): nat requires |f| >= EHDR { Rd16(f, 54) }
  function Phnum(f: seq<byte>): nat requires |f| >= EHDR { Rd16(f, 56) }

  predicate HeaderOk(f: seq<byte>) {
    && |f| >= EHDR
    && f[0] == 0x7F && f[1] == 69 && f[2] == 76 && f[3] == 70
    && f[4] == 2 && f[5] == 1 && Rd16(f, 18) == 0x3E
    && (Phnum(f) == 0 || Phentsize(f) >= PHDR)
    && Phoff(f) + Phnum(f) * Phentsize(f) <= |f|
  }

  lemma {:induction false} PhdrInside(f: seq<byte>, i: nat)
    requires HeaderOk(f) && i < Phnum(f)
    ensures Phoff(f) + i * Phentsize(f) + PHDR <= |f|
  {
    hide Rd16, Rd64, Phnum, Phentsize, Phoff;
    MulOrder(i, Phnum(f), Phentsize(f));
  }

  /** Program header `i`. */
  function SegmentAt(f: seq<byte>, i: nat): (s: Segment)
    requires HeaderOk(f) && i < Phnum(f)
  {
    PhdrInside(f, i);
    var o := Phoff(f) + i * Phentsize(f);
    Segment(Rd32(f, o), Rd32(f, o + 4), Rd64(f, o + 8), Rd64(f, o + 16), Rd64(f, o + 32), Rd64(f, o + 40))
  }

  predicate Loadable(s: Segment) { s.kind == PT_LOAD && s.memsz != 0 }

  predicate SegmentOk(f: seq<byte>, s: Segment) {
    s.off + s.filesz <= |f| && s.filesz <= s.memsz && USER_MIN <= s.vaddr && s.vaddr + s.memsz <= USER_MAX
  }

  function FirstPage(s: Segment): nat { s.vaddr / 0x1000 }
  function EndPage(s: Segment): nat { (s.vaddr + s.memsz + 0xFFF) / 0x1000 }

  predicate Mapped(f: seq<byte>, i: nat)
    requires HeaderOk(f) && i < Phnum(f)
  {
    Loadable(SegmentAt(f, i)) && SegmentOk(f, SegmentAt(f, i))
  }

  /** Pages the loadable, well-formed segments before number `n` take, one frame each. */
  function PagesUpTo(f: seq<byte>, n: nat): (r: nat)
    requires HeaderOk(f) && n <= Phnum(f)
  {
    if n == 0 then 0 else
      var s := SegmentAt(f, n - 1);
      PagesUpTo(f, n - 1) + if Mapped(f, n - 1) then EndPage(s) - FirstPage(s) else 0
  }

  /** The 2 MB stretches those pages lie in. */
  ghost function StretchesUpTo(f: seq<byte>, n: nat): (x: set<nat>)
    requires HeaderOk(f) && n <= Phnum(f)
  {
    if n == 0 then {} else
      var s := SegmentAt(f, n - 1);
      StretchesUpTo(f, n - 1) + if Mapped(f, n - 1) then Stretches(FirstPage(s), EndPage(s)) else {}
  }

  ghost function DemandUpTo(f: seq<byte>, m: Mem, root: nat, n: nat): (r: nat)
    requires HeaderOk(f) && n <= Phnum(f)
  {
    PagesUpTo(f, n) + NewTables(m, root, StretchesUpTo(f, n))
  }

  /** The frames a program takes: one for every page of every segment, one for every table that is missing. */
  ghost function FileDemand(f: seq<byte>, m: Mem, root: nat): (r: nat)
    requires HeaderOk(f)
  {
    DemandUpTo(f, m, root, Phnum(f))
  }

  function PageFlags(s: Segment): (r: nat) {
    PTE_P + PTE_U + if s.flags / 2 % 2 == 1 then PTE_W else 0
  }

  // ----- what loading means

  /** The byte a program finds at offset `o` of segment `s`. */
  function ImageByte(f: seq<byte>, s: Segment, o: nat): (b: byte)
    requires SegmentOk(f, s)
  {
    if o < s.filesz then f[s.off + o] else 0
  }

  /** What stands at address `v` of the segment's pages: its bytes, and around them what the frame held before. */
  function PageByte(m0: Mem, f: seq<byte>, s: Segment, v: nat, p: nat): (b: byte)
    requires SegmentOk(f, s) && p < |m0|
  {
    if s.vaddr <= v < s.vaddr + s.memsz then ImageByte(f, s, v - s.vaddr) else m0[p]
  }

  /**
   * Address `v` of the segment's pages leads, with the segment's flags, to a frame that was free before, is
   * in use now and holds no table, and finds there what it should.
   */
  ghost predicate PageHeld(m0: Mem, bm0: seq<bv8>, m: Mem, bm: seq<bv8>, own: Tables, root: nat, f: seq<byte>,
                           s: Segment, v: nat)
    requires SegmentOk(f, s) && |m| == |m0|
  {
    var r := Lookup(m, root, 3, v);
    && r.Some? && r.value.flags == PageFlags(s) && 0 < r.value.phys < |m| && r.value.phys % 0x1000 == v % 0x1000
    && m[r.value.phys] == PageByte(m0, f, s, v, r.value.phys)
    && var g := r.value.phys / 0x1000; g < TOTAL && !Used(bm0, g) && Used(bm, g) && g !in own
  }

  /** Address `v` lies on a page of the segment. */
  predicate OnPages(s: Segment, v: nat) { InPages(v, FirstPage(s), EndPage(s)) }

  /** User memory holds the segment: file bytes, then zeros, on pages with the segment's flags. */
  ghost predicate Holds(m0: Mem, bm0: seq<bv8>, m: Mem, bm: seq<bv8>, own: Tables, root: nat, f: seq<byte>, s: Segment)
    requires SegmentOk(f, s) && |m| == |m0|
  {
    forall v: nat :: OnPages(s, v) ==> PageHeld(m0, bm0, m, bm, own, root, f, s, v)
  }

  /** No two loadable segments touch the same page. */
  ghost predicate PagesDisjoint(f: seq<byte>)
    requires HeaderOk(f)
  {
    forall i, j :: 0 <= i < j < Phnum(f) && Loadable(SegmentAt(f, i)) && Loadable(SegmentAt(f, j)) ==>
      EndPage(SegmentAt(f, i)) <= FirstPage(SegmentAt(f, j)) || EndPage(SegmentAt(f, j)) <= FirstPage(SegmentAt(f, i))
  }

  // ----- pages under construction

  /** Pages `a` on lead to the frames of `fr`, 0 standing for a page that could not be mapped. */
  function NewPage(fr: seq<nat>, a: nat, flags: nat, v: nat): (r: Option<Page>)
    requires a <= v / 0x1000 < a + |fr|
  {
    var g := fr[v / 0x1000 - a];
    if g == 0 then None else Some(Page(g * 0x1000 + v % 0x1000, flags))
  }

  ghost predicate PagesMapped(m0: Mem, m: Mem, root: nat, a: nat, fr: seq<nat>, flags: nat) {
    forall v: nat :: v < Span(4) ==>
      Lookup(m, root, 3, v) ==
      if a <= v / 0x1000 < a + |fr| then NewPage(fr, a, flags, v) else Lookup(m0, root, 3, v)
  }

  /** The frames of the new pages: distinct, never the first, free before, and no tables. */
  ghost predicate FreshFrames(bm0: seq<bv8>, own: Tables, fr: seq<nat>) {
    && (forall i :: 0 <= i < |fr| && fr[i] != 0 ==> fr[i] < TOTAL && !Used(bm0, fr[i]) && fr[i] !in own)
    && (forall i, j :: 0 <= i < j < |fr| && fr[i] != 0 ==> fr[i] != fr[j])
  }

  /** Bytes outside the tables are as before in frames that were in use before or are still free. */
  ghost predicate Untouched(m0: Mem, bm0: seq<bv8>, m: Mem, bm: seq<bv8>, own: Tables) {
    && |m| == |m0|
    && forall a :: 0 <= a < |m0| && a / 0x1000 !in own && (Used(bm0, a / 0x1000) || !Used(bm, a / 0x1000)) ==>
         m[a] == m0[a]
  }

  /** Memory, bitmap and tables after some pages were added. */
  ghost predicate Loading(m0: Mem, bm0: seq<bv8>, own0: Tables, m: Mem, bm: seq<bv8>, own: Tables, fr: seq<nat>) {
    && Untouched(m0, bm0, m, bm, own) && |bm0| == |bm| == TOTAL / 8
    && (forall f :: f in own0 ==> f in own && own[f] == own0[f])
    && (forall f :: f in own && f !in own0 ==> f < TOTAL && !Used(bm0, f))
    && FreshFrames(bm0, own, fr)
    && (forall f: nat :: f < TOTAL && Used(bm0, f) ==> Used(bm, f))
    && (forall i :: 0 <= i < |fr| && fr[i] != 0 ==> Used(bm, fr[i]))
    && (forall f :: f in own ==> f in own0 || Used(bm, f))
  }

  lemma {:induction false} LoadingStart(m: Mem, bm: seq<bv8>, own: Tables, root: nat, a: nat, flags: nat)
    requires |bm| == TOTAL / 8
    ensures Loading(m, bm, own, m, bm, own, []) && PagesMapped(m, m, root, a, [], flags)
  {
  }

  /** One more page: a fresh frame was taken, then mapped (or not, when tables ran out). */
  lemma {:induction false} LoadingStep(m0: Mem, bm0: seq<bv8>, own0: Tables, m1: Mem, bm1: seq<bv8>, own1: Tables,
                                       fr: seq<nat>, g: nat, bm2: seq<bv8>, m3: Mem, bm3: seq<bv8>, own3: Tables,
                                       kept: nat)
    requires Loading(m0, bm0, own0, m1, bm1, own1, fr)
    requires forall f :: f in own1 ==> f < TOTAL && Used(bm1, f)
    requires 0 < g < TOTAL && !Used(bm1, g) && |bm2| == TOTAL / 8
    requires forall f: nat :: f < TOTAL ==> (Used(bm2, f) <==> f == g || Used(bm1, f))
    requires Grew(m1, bm2, own1, m3, bm3, own3) && (kept == g || kept == 0)
    ensures Loading(m0, bm0, own0, m3, bm3, own3, fr + [kept])
  {
    hide Bit;
    BeyondFree(bm1, bm3);
    forall a | 0 <= a < |m0| && a / 0x1000 !in own3 && (Used(bm0, a / 0x1000) || !Used(bm3, a / 0x1000))
      ensures m3[a] == m0[a]
    {
      assert a / 0x1000 !in own1;
      assert Used(bm0, a / 0x1000) || !Used(bm1, a / 0x1000);
    }
  }

  /** Frames the bitmap does not reach are never in use. */
  lemma {:induction false} BeyondFree(bm: seq<bv8>, bm': seq<bv8>)
    requires |bm| == |bm'| == TOTAL / 8
    ensures forall f: nat :: f >= TOTAL ==> !Used(bm, f) && !Used(bm', f)
  {
  }

  lemma {:induction false} PagesStep(m0: Mem, m1: Mem, m3: Mem, root: nat, a: nat, fr: seq<nat>, flags: nat, g: nat,
                                     e: nat)
    requires PagesMapped(m0, m1, root, a, fr, flags) && OnePage(m1, m3, root, (a + |fr|) * 0x1000, e)
    requires g != 0 && forall v: nat :: LeafPage(e, v) == Some(Page(g * 0x1000 + v % 0x1000, flags))
    ensures PagesMapped(m0, m3, root, a, fr + [g], flags)
  {
    hide Lookup, Span;
    var virt := (a + |fr|) * 0x1000;
    assert virt / 0x1000 == a + |fr|;
    forall v: nat | v < Span(4)
      ensures Lookup(m3, root, 3, v) ==
              if a <= v / 0x1000 < a + |fr| + 1 then NewPage(fr + [g], a, flags, v) else Lookup(m0, root, 3, v)
    {
      assert Lookup(m1, root, 3, v) ==
             if a <= v / 0x1000 < a + |fr| then NewPage(fr, a, flags, v) else Lookup(m0, root, 3, v);
    }
  }

  /** Without the tables it needs the page was not mapped before and is not mapped now. */
  lemma {:induction false} PagesHole(m0: Mem, m1: Mem, m3: Mem, root: nat, a: nat, fr: seq<nat>, flags: nat)
    requires PagesMapped(m0, m1, root, a, fr, flags) && SameMap(m1, m3, root)
    requires var virt := (a + |fr|) * 0x1000; !LargeAt(m1, root, 3, virt) && Missing(m1, root, 3, virt) > 0
    ensures PagesMapped(m0, m3, root, a, fr + [0], flags)
  {
    var virt := (a + |fr|) * 0x1000;
    assert virt / 0x1000 == a + |fr|;
    PageMissing(m1, root, virt);
    hide Lookup, Span, LargeAt, Missing;
    forall v: nat | v < Span(4)
      ensures Lookup(m3, root, 3, v) ==
              if a <= v / 0x1000 < a + |fr| + 1 then NewPage(fr + [0], a, flags, v) else Lookup(m0, root, 3, v)
    {
      assert Lookup(m1, root, 3, v) ==
             if a <= v / 0x1000 < a + |fr| then NewPage(fr, a, flags, v) else Lookup(m0, root, 3, v);
      assert Lookup(m3, root, 3, v) == Lookup(m1, root, 3, v);
    }
  }

  /** Large pages never meet an empty frame pool. */
  ghost predicate SplitsCovered(k: Machine, own: Tables, need: nat)
    reads k, k.mem
  {
    NoLargeUser(k.mem[..], own) || k.freeFrames >= need
  }

  /** Every page got a frame. */
  predicate NoHoles(fr: seq<nat>) { forall i :: 0 <= i < |fr| ==> fr[i] != 0 }

  /** Give every page of `[a, z)` a frame of its own; that works exactly when the frames it takes are there. */
  method MapPages(k: Machine, a: nat, z: nat, flags: nat, ghost own: Tables)
    returns (ok: bool, ghost own': Tables, ghost fr: seq<nat>)
    requires k.Ready() && k.TablesOk(own) && Present(Entry(k.mem[..], k.pml4, 0))
    requires USER_MIN / 0x1000 <= a < z <= USER_MAX / 0x1000 && flags < 0x1000 && Present(flags)
    requires SplitsCovered(k, own, PageDemand(k.mem[..], k.pml4, a, z))
    modifies k`freeFrames, k`cursor, k.bitmap, k.mem
    ensures k.Ready() && k.TablesOk(own') && Present(Entry(k.mem[..], k.pml4, 0))
    ensures Loading(old(k.mem[..]), old(k.bitmap[..]), own, k.mem[..], k.bitmap[..], own', fr)
    ensures OutsideSame(old(k.mem[..]), k.mem[..], own')
    ensures PagesMapped(old(k.mem[..]), k.mem[..], k.pml4, a, fr, flags) && a + |fr| <= z && (ok ==> a + |fr| == z)
    ensures NoLargeUser(old(k.mem[..]), own) ==> NoLargeUser(k.mem[..], own')
    ensures ok && NoHoles(fr) <==> old(k.freeFrames) >= PageDemand(old(k.mem[..]), k.pml4, a, z)
    ensures ok && NoHoles(fr) ==>
              && k.freeFrames == old(k.freeFrames) - PageDemand(old(k.mem[..]), k.pml4, a, z)
              && Gained(old(k.mem[..]), k.mem[..], k.pml4, Stretches(a, z))
  {
    hide Entry, Used, FreeBits, Span, Tree, Grew, Loading, PagesMapped, LargeAt, Missing, Lookup, NoLargeUser, LeafWord,
         OnePage, LeavesBut, Gained, NewTables, Stretches, LeafTable;
    ghost var m0, bm0, free0 := k.mem[..], k.bitmap[..], k.freeFrames;
    own', fr := own, [];
    LoadingStart(m0, bm0, own, k.pml4, a, flags);
    NoDemand(m0, k.pml4, a);
    var va := a * 0x1000;
    while va < z * 0x1000
      invariant va == (a + |fr|) * 0x1000 && a + |fr| <= z
      invariant k.Ready() && k.TablesOk(own') && Present(Entry(k.mem[..], k.pml4, 0))
      invariant Loading(m0, bm0, own, k.mem[..], k.bitmap[..], own', fr) && OutsideSame(m0, k.mem[..], own')
      invariant PagesMapped(m0, k.mem[..], k.pml4, a, fr, flags)
      invariant NoLargeUser(m0, own) ==> NoLargeUser(k.mem[..], own')
      invariant NoHoles(fr) ==>
                  && k.freeFrames + PageDemand(m0, k.pml4, a, a + |fr|) == free0
                  && Gained(m0, k.mem[..], k.pml4, Stretches(a, a + |fr|))
      invariant !NoHoles(fr) ==> free0 < PageDemand(m0, k.pml4, a, z)
    {
      ghost var m1, bm1, own1 := k.mem[..], k.bitmap[..], own';
      ghost var b := a + |fr|;
      if NoHoles(fr) { NextDemand(m0, m1, own1, k.pml4, a, b, z); }
      var f := k.AllocFrame();
      if f == 0 {
        return false, own', fr;
      }
      ghost var bm2, free := k.bitmap[..], k.freeFrames;
      if NoLargeUser(m1, own1) { NoLargeUserAt(m1, own1, k.pml4, va); }
      LowPage(va);
      if LargeAt(m1, k.pml4, 3, va) { LargeMissing(m1, own1, k.pml4, va); }
      own' := k.VmmMap(va, f, flags, own1);
      ghost var g := if Missing(m1, k.pml4, 3, va) <= free then f / FRAME else 0;
      if Missing(m1, k.pml4, 3, va) <= free {
        LeafWordPage(f, flags);
        PagesStep(m0, m1, k.mem[..], k.pml4, a, fr, flags, f / FRAME, LeafWord(f, flags));
        if NoHoles(fr) { MappedOne(m0, m1, k.mem[..], own', k.pml4, a, b); }
      } else {
        LargeNeedsOne(m1, own1, k.pml4, va, free);
        PagesHole(m0, m1, k.mem[..], k.pml4, a, fr, flags);
      }
      LoadingStep(m0, bm0, own, m1, bm1, own1, fr, f / FRAME, bm2, k.mem[..], k.bitmap[..], own', g);
      GrewOutside(m0, m1, bm2, own1, k.mem[..], k.bitmap[..], own');
      MoreHoles(fr, g);
      fr := fr + [g];
      va := va + 0x1000;
    }
    ok := true;
  }

  lemma {:induction false} NoDemand(m: Mem, root: nat, a: nat)
    ensures PageDemand(m, root, a, a) == 0 && Gained(m, m, root, Stretches(a, a))
  {
    assert Stretches(a, a) == {};
    GainedNone(m, root);
  }

  lemma {:induction false} MoreHoles(fr: seq<nat>, g: nat)
    ensures NoHoles(fr + [g]) <==> NoHoles(fr) && g != 0
  {
    if NoHoles(fr + [g]) {
      assert (fr + [g])[|fr|] == g;
      assert forall i :: 0 <= i < |fr| ==> fr[i] == (fr + [g])[i];
    }
  }

  lemma {:induction false} GrewOutside(m0: Mem, m1: Mem, bm: seq<bv8>, own1: Tables, m2: Mem, bm': seq<bv8>,
                                       own2: Tables)
    requires OutsideSame(m0, m1, own1) && Grew(m1, bm, own1, m2, bm', own2)
    ensures OutsideSame(m0, m2, own2)
  {
    hide Used;
    forall a | 0 <= a < |m0| && a / 0x1000 !in own2 ensures m2[a] == m0[a] {
      assert a / 0x1000 !in own1;
    }
  }

  /** What one more page takes: its frame and the tables missing for it. */
  lemma {:induction false} NextDemand(m0: Mem, m1: Mem, own1: Tables, root: nat, a: nat, b: nat, z: nat)
    requires a <= b < z <= 0x4_0000 && Gained(m0, m1, root, Stretches(a, b))
    requires Tree(m1, own1, root) && Present(Entry(m1, root, 0))
    ensures PageDemand(m0, root, a, b + 1) ==
            PageDemand(m0, root, a, b) + 1 + Missing(m1, root, 3, b * 0x1000)
    ensures PageDemand(m0, root, a, b + 1) <= PageDemand(m0, root, a, z)
  {
    hide Tree, Entry, Missing, NewTables, Stretches, Gained;
    OneMoreStretch(a, b);
    StretchOfPage(b);
    OnePageNeed(m1, own1, root, b * 0x1000);
    DemandAdds(m0, m1, root, Stretches(a, b), {b / 512});
    SubStretches(a, b + 1, z);
    DemandGrows(m0, root, Stretches(a, b + 1), Stretches(a, z));
  }

  lemma {:induction false} MappedOne(m0: Mem, m1: Mem, m2: Mem, own2: Tables, root: nat, a: nat, b: nat)
    requires a <= b < 0x4_0000 && Gained(m0, m1, root, Stretches(a, b))
    requires Tree(m2, own2, root) && Present(Entry(m2, root, 0))
    requires LeavesBut(m1, m2, root, b * 0x1000) && LeafTable(m2, root, 3, b * 0x1000).Some?
    ensures Gained(m0, m2, root, Stretches(a, b + 1))
  {
    hide Tree, Entry, LeavesBut, LeafTable, Stretches, Gained;
    OneMoreStretch(a, b);
    StretchOfPage(b);
    OnePageGained(m1, m2, own2, root, b * 0x1000);
    GainedTrans(m0, m1, m2, root, Stretches(a, b), {b / 512});
  }

  lemma {:induction false} StretchOfPage(b: nat)
    ensures StretchOf(b * 0x1000) == b / 512
  {
    assert b * 0x1000 == b / 512 * LARGE + b % 512 * 0x1000;
    QuotientUnique(b / 512, b % 512 * 0x1000, LARGE);
  }

  lemma {:induction false} LargeMissing(m: Mem, own: Tables, root: nat, v: nat)
    requires Tree(m, own, root) && v < Span(3) && Present(Entry(m, root, 0)) && LargeAt(m, root, 3, v)
    ensures Missing(m, root, 3, v) == 1
  {
    UpperTables(m, own, root, v);
  }

  lemma {:induction false} LowPage(v: nat)
    requires v < USER_MAX
    ensures v < Span(3) && v < Span(4)
  {
  }

  lemma {:induction false} LeafWordPage(f: nat, flags: nat)
    requires flags < 0x1000 && Present(flags) && f % FRAME == 0
    ensures forall v: nat :: LeafPage(LeafWord(f, flags), v) == Some(Page(f / FRAME * 0x1000 + v % 0x1000, flags))
  {
    assert flags % 0x1000 == flags;
    PackedWord(f / FRAME, flags);
  }

  /** A large page with a frame left to split it is never short of tables. */
  lemma {:induction false} LargeNeedsOne(m: Mem, own: Tables, root: nat, v: nat, free: nat)
    requires Tree(m, own, root) && v < Span(3) && Present(Entry(m, root, 0))
    requires (LargeAt(m, root, 3, v) ==> free > 0) && Missing(m, root, 3, v) > free
    ensures !LargeAt(m, root, 3, v)
  {
    UpperTables(m, own, root, v);
  }

  // ----- bytes through the new pages

  function AddrOf(fr: seq<nat>, a: nat, v: nat): (p: nat)
    requires a <= v / 0x1000 < a + |fr|
  {
    fr[v / 0x1000 - a] * 0x1000 + v % 0x1000
  }

  /** Different addresses on new pages lead to different bytes. */
  lemma {:induction false} AddrInjective(bm0: seq<bv8>, own: Tables, fr: seq<nat>, a: nat, v: nat, w: nat)
    requires FreshFrames(bm0, own, fr) && v != w
    requires a <= v / 0x1000 < a + |fr| && a <= w / 0x1000 < a + |fr|
    requires fr[v / 0x1000 - a] != 0 && fr[w / 0x1000 - a] != 0
    ensures AddrOf(fr, a, v) != AddrOf(fr, a, w)
  {
    var i, j := v / 0x1000 - a, w / 0x1000 - a;
    if i < j { assert fr[i] != fr[j]; } else if j < i { assert fr[j] != fr[i]; }
  }

  /** A byte stored outside the tables leaves the translation alone. */
  lemma {:induction false} ByteStored(m: Mem, m': Mem, own: Tables, root: nat, p: nat)
    requires Tree(m, own, root) && p < |m| && |m'| == |m| && p / 0x1000 !in own
    requires forall x :: 0 <= x < |m| && x != p ==> m'[x] == m[x]
    ensures Tree(m', own, root) && SameMap(m, m', root) && SameEntries(m, m', own)
  {
    OutsideBytes(m, m', own);
    SameEntriesTree(m, m', own, root);
  }

  lemma {:induction false} NoLargeSame(m: Mem, m': Mem, own: Tables)
    requires SameEntries(m, m', own) && NoLargeUser(m, own)
    ensures NoLargeUser(m', own)
  {
    hide Entry;
    forall g, j | IsTable(own, g, 1, 0) && 2 <= j < 512
      ensures !(Present(Entry(m', g, j)) && LargeBit(Entry(m', g, j)))
    {
      assert Entry(m', g, j) == Entry(m, g, j);
    }
  }

  lemma {:induction false} PagesAfter(m0: Mem, m: Mem, m': Mem, root: nat, a: nat, fr: seq<nat>, flags: nat)
    requires PagesMapped(m0, m, root, a, fr, flags) && SameMap(m, m', root)
    ensures PagesMapped(m0, m', root, a, fr, flags)
  {
    forall v: nat | v < Span(4)
      ensures Lookup(m', root, 3, v) ==
              if a <= v / 0x1000 < a + |fr| then NewPage(fr, a, flags, v) else Lookup(m0, root, 3, v)
    {
      assert Lookup(m', root, 3, v) == Lookup(m, root, 3, v);
    }
  }

  lemma {:induction false} LoadingByte(m0: Mem, bm0: seq<bv8>, own0: Tables, m: Mem, bm: seq<bv8>, own: Tables,
                                       fr: seq<nat>, m': Mem, i: nat, p: nat)
    requires Loading(m0, bm0, own0, m, bm, own, fr) && |m'| == |m| && i < |fr| && fr[i] != 0 && p / 0x1000 == fr[i]
    requires forall x :: 0 <= x < |m| && x != p ==> m'[x] == m[x]
    ensures Loading(m0, bm0, own0, m', bm, own, fr) && p / 0x1000 !in own
  {
  }

  /** The image lies in frames that are in use and hold no tables. */
  ghost predicate ImageSafe(bm: seq<bv8>, own: Tables, img: nat, len: nat) {
    forall x :: img <= x < img + len ==> Used(bm, x / 0x1000) && x / 0x1000 !in own
  }

  lemma {:induction false} ImageKept(m0: Mem, bm0: seq<bv8>, own0: Tables, m: Mem, bm: seq<bv8>, own: Tables,
                                     fr: seq<nat>, img: nat, len: nat)
    requires Loading(m0, bm0, own0, m, bm, own, fr) && ImageSafe(bm0, own0, img, len) && img + len <= |m0|
    ensures m[img..img + len] == m0[img..img + len] && ImageSafe(bm, own, img, len)
  {
  }

  /** Address `v` of the new pages, where they have a frame, holds what it should after the first `n` bytes. */
  ghost predicate ByteFilled(m0: Mem, m: Mem, f: seq<byte>, s: Segment, fr: seq<nat>, n: nat, v: nat)
    requires SegmentOk(f, s) && FirstPage(s) + |fr| == EndPage(s) && OnPages(s, v) && n <= s.memsz && |m| == |m0|
  {
    var p := AddrOf(fr, FirstPage(s), v);
    fr[v / 0x1000 - FirstPage(s)] != 0 ==>
      p < |m| && m[p] == if s.vaddr <= v < s.vaddr + n then ImageByte(f, s, v - s.vaddr) else m0[p]
  }

  /** The first `n` bytes of the segment are in place on its new pages, and nothing else is. */
  ghost predicate Filled(m0: Mem, m: Mem, f: seq<byte>, s: Segment, fr: seq<nat>, n: nat) {
    && SegmentOk(f, s) && FirstPage(s) + |fr| == EndPage(s) && n <= s.memsz && |m| == |m0|
    && (forall v: nat :: OnPages(s, v) ==> ByteFilled(m0, m, f, s, fr, n, v))
    && (forall v: nat :: s.vaddr <= v < s.vaddr + n ==> HasFrame(s, fr, v))
  }

  ghost predicate HasFrame(s: Segment, fr: seq<nat>, v: nat) {
    FirstPage(s) <= v / 0x1000 < FirstPage(s) + |fr| && fr[v / 0x1000 - FirstPage(s)] != 0
  }

  lemma {:induction false} InSegment(s: Segment, o: nat)
    requires o < s.memsz
    ensures OnPages(s, s.vaddr + o)
  {
  }

  lemma {:induction false} FilledStep(bm0: seq<bv8>, own: Tables, m0: Mem, m: Mem, m': Mem, f: seq<byte>, s: Segment,
                                      fr: seq<nat>, n: nat)
    requires Filled(m0, m, f, s, fr, n) && n < s.memsz && FreshFrames(bm0, own, fr)
    requires |m'| == |m| && HasFrame(s, fr, s.vaddr + n)
    requires var p := AddrOf(fr, FirstPage(s), s.vaddr + n);
             && p < |m| && m'[p] == ImageByte(f, s, n) && forall x :: 0 <= x < |m| && x != p ==> m'[x] == m[x]
    ensures Filled(m0, m', f, s, fr, n + 1)
  {
    hide FreshFrames, ImageByte, SegmentOk, FirstPage, EndPage, AddrOf;
    var w := s.vaddr + n;
    forall v: nat | OnPages(s, v) ensures ByteFilled(m0, m', f, s, fr, n + 1, v) {
      assert ByteFilled(m0, m, f, s, fr, n, v);
      if v != w && fr[v / 0x1000 - FirstPage(s)] != 0 {
        AddrInjective(bm0, own, fr, FirstPage(s), v, w);
      }
    }
  }

  /** When every byte has found a frame, every page has one. */
  lemma {:induction false} FilledNoHoles(m0: Mem, m: Mem, f: seq<byte>, s: Segment, fr: seq<nat>)
    requires Filled(m0, m, f, s, fr, s.memsz) && s.memsz > 0
    ensures NoHoles(fr)
  {
    hide SegmentOk;
    forall i | 0 <= i < |fr| ensures fr[i] != 0 {
      var v := if i == 0 then s.vaddr else (FirstPage(s) + i) * 0x1000;
      assert v / 0x1000 == FirstPage(s) + i;
      assert HasFrame(s, fr, v);
    }
  }

  /** A segment all of whose bytes are in place is held by user memory, in frames nobody else has. */
  lemma {:induction false} FilledHolds(m0: Mem, bm0: seq<bv8>, own0: Tables, m: Mem, bm: seq<bv8>, own: Tables,
                                       root: nat, f: seq<byte>, s: Segment, fr: seq<nat>)
    requires Filled(m0, m, f, s, fr, s.memsz) && s.memsz > 0
    requires Loading(m0, bm0, own0, m, bm, own, fr) && PagesMapped(m0, m, root, FirstPage(s), fr, PageFlags(s))
    ensures Holds(m0, bm0, m, bm, own, root, f, s) && NoHoles(fr)
  {
    hide ImageByte, Lookup, Used, PagesMapped, PageFlags;
    FilledNoHoles(m0, m, f, s, fr);
    forall v: nat | OnPages(s, v) ensures PageHeld(m0, bm0, m, bm, own, root, f, s, v) {
      assert ByteFilled(m0, m, f, s, fr, s.memsz, v);
      PageBelow(s, v);
      LookupNew(m0, m, root, FirstPage(s), fr, PageFlags(s), v);
      var i := v / 0x1000 - FirstPage(s);
      AddrParts(fr[i], v);
    }
  }

  lemma {:induction false} AddrParts(g: nat, v: nat)
    ensures var p := g * 0x1000 + v % 0x1000; p / 0x1000 == g && p % 0x1000 == v % 0x1000
  {
  }

  lemma {:induction false} PageBelow(s: Segment, v: nat)
    requires s.vaddr + s.memsz <= USER_MAX && OnPages(s, v)
    ensures v < USER_MAX && v < Span(4)
  {
  }

  /** Store one byte through the page tables; false when the address is not mapped. */
  method StoreUser(k: Machine, v: nat, b: byte, ghost own: Tables, ghost own0: Tables, ghost m0: Mem,
                   ghost bm0: seq<bv8>, ghost a: nat, ghost fr: seq<nat>, ghost flags: nat) returns (ok: bool)
    requires k.Ready() && k.TablesOk(own) && Present(Entry(k.mem[..], k.pml4, 0))
    requires Loading(m0, bm0, own0, k.mem[..], k.bitmap[..], own, fr)
    requires PagesMapped(m0, k.mem[..], k.pml4, a, fr, flags) && a <= v / 0x1000 < a + |fr| && v < USER_MAX
    modifies k.mem
    ensures k.Ready() && k.TablesOk(own) && Present(Entry(k.mem[..], k.pml4, 0))
    ensures Loading(m0, bm0, own0, k.mem[..], k.bitmap[..], own, fr)
    ensures PagesMapped(m0, k.mem[..], k.pml4, a, fr, flags) && k.mem.Length == |old(k.mem[..])|
    ensures SameEntries(old(k.mem[..]), k.mem[..], own)
    ensures ok <==> fr[v / 0x1000 - a] != 0
    ensures ok ==> AddrOf(fr, a, v) < k.mem.Length && k.mem[AddrOf(fr, a, v)] == b
    ensures forall x :: 0 <= x < k.mem.Length && (!ok || x != AddrOf(fr, a, v)) ==> k.mem[x] == old(k.mem[x])
  {
    hide Entry, Used, FreeBits, Span, Tree, Loading, PagesMapped, Lookup, SameMap;
    ghost var m := k.mem[..];
    LowPage(v);
    LookupNew(m0, m, k.pml4, a, fr, flags, v);
    var p := k.VmmPhys(v, own);
    FrameInRam(m0, bm0, own0, m, k.bitmap[..], own, fr, v / 0x1000 - a);
    if p == 0 {
      return false;
    }
    k.mem[p] := b;
    LoadingByte(m0, bm0, own0, m, k.bitmap[..], own, fr, k.mem[..], v / 0x1000 - a, p);
    ByteStored(m, k.mem[..], own, k.pml4, p);
    PagesAfter(m0, m, k.mem[..], k.pml4, a, fr, flags);
    TableRoot(m, own, k.pml4);
    ok := true;
  }

  lemma {:induction false} LookupNew(m0: Mem, m: Mem, root: nat, a: nat, fr: seq<nat>, flags: nat, v: nat)
    requires PagesMapped(m0, m, root, a, fr, flags) && v < Span(4) && a <= v / 0x1000 < a + |fr|
    ensures Lookup(m, root, 3, v) == NewPage(fr, a, flags, v)
  {
  }

  lemma {:induction false} FrameInRam(m0: Mem, bm0: seq<bv8>, own0: Tables, m: Mem, bm: seq<bv8>, own: Tables,
                                      fr: seq<nat>, i: nat)
    requires Loading(m0, bm0, own0, m, bm, own, fr) && i < |fr|
    ensures fr[i] < TOTAL || fr[i] == 0
  {
  }

  /** Everything the copy loops keep while a segment's pages are filled. */
  ghost predicate Filling(k: Machine, m0: Mem, bm0: seq<bv8>, own0: Tables, own: Tables, f: seq<byte>, img: nat,
                          s: Segment, fr: seq<nat>)
    requires SegmentOk(f, s)
    reads k, k.mem, k.bitmap
  {
    && k.Ready() && k.TablesOk(own) && Present(Entry(k.mem[..], k.pml4, 0))
    && Loading(m0, bm0, own0, k.mem[..], k.bitmap[..], own, fr)
    && PagesMapped(m0, k.mem[..], k.pml4, FirstPage(s), fr, PageFlags(s)) && FirstPage(s) + |fr| == EndPage(s)
    && img + |f| <= |m0| && m0[img..img + |f|] == f && ImageSafe(bm0, own0, img, |f|)
  }

  /** Put byte `o` of the segment in place: the source byte `b` has just been read. */
  method PlaceByte(k: Machine, s: Segment, o: nat, b: byte, ghost m0: Mem, ghost bm0: seq<bv8>, ghost own0: Tables,
                   ghost own: Tables, ghost f: seq<byte>, ghost img: nat, ghost fr: seq<nat>) returns (ok: bool)
    requires SegmentOk(f, s) && o < s.memsz && b == ImageByte(f, s, o)
    requires Filling(k, m0, bm0, own0, own, f, img, s, fr) && Filled(m0, k.mem[..], f, s, fr, o)
    modifies k.mem
    ensures Filling(k, m0, bm0, own0, own, f, img, s, fr)
    ensures ok ==> Filled(m0, k.mem[..], f, s, fr, o + 1)
    ensures NoHoles(fr) ==> ok
    ensures SameEntries(old(k.mem[..]), k.mem[..], own)
  {
    hide Entry, Used, FreeBits, Span, Tree, Loading, PagesMapped, Lookup, SameEntries, ImageByte, ImageSafe, ByteFilled;
    ghost var m := k.mem[..];
    InSegment(s, o);
    ok := StoreUser(k, s.vaddr + o, b, own, own0, m0, bm0, FirstPage(s), fr, PageFlags(s));
    if ok {
      LoadingFresh(m0, bm0, own0, k.mem[..], k.bitmap[..], own, fr);
      FilledStep(bm0, own, m0, m, k.mem[..], f, s, fr, o);
    }
  }

  lemma {:induction false} LoadingFresh(m0: Mem, bm0: seq<bv8>, own0: Tables, m: Mem, bm: seq<bv8>, own: Tables,
                                        fr: seq<nat>)
    requires Loading(m0, bm0, own0, m, bm, own, fr)
    ensures FreshFrames(bm0, own, fr)
  {
  }

  lemma {:induction false} NothingFilled(m0: Mem, bm0: seq<bv8>, m: Mem, own: Tables, f: seq<byte>, s: Segment,
                                         fr: seq<nat>)
    requires SegmentOk(f, s) && FirstPage(s) + |fr| == EndPage(s)
    requires OutsideSame(m0, m, own) && FreshFrames(bm0, own, fr) && |m| >= MAX_PHYS
    ensures Filled(m0, m, f, s, fr, 0)
  {
    hide ImageByte, Used, SegmentOk;
    forall v: nat | OnPages(s, v) ensures ByteFilled(m0, m, f, s, fr, 0, v) {
      var g := fr[v / 0x1000 - FirstPage(s)];
      AddrParts(g, v);
    }
  }

  lemma {:induction false} FlagsOf(s: Segment)
    ensures PageFlags(s) < 0x1000 && Present(PageFlags(s))
  {
  }

  /** Map a segment's pages, copy its file bytes through the page tables, zero the rest. */
  method LoadSegment(k: Machine, img: nat, s: Segment, ghost own: Tables, ghost f: seq<byte>)
    returns (ok: bool, ghost own': Tables, ghost fr: seq<nat>)
    requires k.Ready() && k.TablesOk(own) && Present(Entry(k.mem[..], k.pml4, 0))
    requires img + |f| <= k.mem.Length && k.mem[img..img + |f|] == f && ImageSafe(k.bitmap[..], own, img, |f|)
    requires Loadable(s) && SegmentOk(f, s)
    requires SplitsCovered(k, own, PageDemand(k.mem[..], k.pml4, FirstPage(s), EndPage(s)))
    modifies k`freeFrames, k`cursor, k.bitmap, k.mem
    ensures k.Ready() && k.TablesOk(own') && Present(Entry(k.mem[..], k.pml4, 0))
    ensures Loading(old(k.mem[..]), old(k.bitmap[..]), own, k.mem[..], k.bitmap[..], own', fr)
    ensures ok <==> old(k.freeFrames) >= PageDemand(old(k.mem[..]), k.pml4, FirstPage(s), EndPage(s))
    ensures ok ==>
              && FirstPage(s) + |fr| == EndPage(s)
              && Holds(old(k.mem[..]), old(k.bitmap[..]), k.mem[..], k.bitmap[..], own', k.pml4, f, s)
              && PagesMapped(old(k.mem[..]), k.mem[..], k.pml4, FirstPage(s), fr, PageFlags(s))
              && k.freeFrames == old(k.freeFrames) - PageDemand(old(k.mem[..]), k.pml4, FirstPage(s), EndPage(s))
              && Gained(old(k.mem[..]), k.mem[..], k.pml4, Stretches(FirstPage(s), EndPage(s)))
    ensures NoLargeUser(old(k.mem[..]), own) ==> NoLargeUser(k.mem[..], own')
  {
    hide Entry, Used, FreeBits, Span, Tree, Loading, PagesMapped, Lookup, NoLargeUser, Filled, ImageSafe, Holds,
         SplitsCovered, SameEntries, Gained, PageDemand, OutsideSame, NoHoles;
    ghost var m0, bm0 := k.mem[..], k.bitmap[..];
    FlagsOf(s);
    var w := if s.flags / 2 % 2 == 1 then PTE_W else 0;
    ok, own', fr := MapPages(k, s.vaddr / 0x1000, (s.vaddr + s.memsz + 0xFFF) / 0x1000, PTE_P + PTE_U + w, own);
    if !ok {
      return;
    }
    ghost var m1 := k.mem[..];
    LoadingFresh(m0, bm0, own, m1, k.bitmap[..], own', fr);
    NothingFilled(m0, bm0, m1, own', f, s, fr);
    SameEntriesRefl(m1, own');
    var o := 0;
    while o < s.filesz
      invariant o <= s.filesz && Filling(k, m0, bm0, own, own', f, img, s, fr) && Filled(m0, k.mem[..], f, s, fr, o)
      invariant SameEntries(m1, k.mem[..], own')
      modifies k.mem
    {
      ImageKept(m0, bm0, own, k.mem[..], k.bitmap[..], own', fr, img, |f|);
      var b := k.mem[img + s.off + o];
      assert b == k.mem[img..img + |f|][s.off + o];
      ghost var m := k.mem[..];
      ok := PlaceByte(k, s, o, b, m0, bm0, own, own', f, img, fr);
      SameEntriesTrans(m1, m, k.mem[..], own');
      if !ok {
        KeptByBytes(m1, k.mem[..], own');
        return;
      }
      o := o + 1;
    }
    while o < s.memsz
      invariant s.filesz <= o <= s.memsz && SameEntries(m1, k.mem[..], own')
      invariant Filling(k, m0, bm0, own, own', f, img, s, fr) && Filled(m0, k.mem[..], f, s, fr, o)
      modifies k.mem
    {
      ghost var m := k.mem[..];
      ok := PlaceByte(k, s, o, 0, m0, bm0, own, own', f, img, fr);
      SameEntriesTrans(m1, m, k.mem[..], own');
      if !ok {
        KeptByBytes(m1, k.mem[..], own');
        return;
      }
      o := o + 1;
    }
    KeptByBytes(m1, k.mem[..], own');
    FilledHolds(m0, bm0, own, k.mem[..], k.bitmap[..], own', k.pml4, f, s, fr);
    GainedSame(m0, m1, k.mem[..], own', k.pml4, Stretches(FirstPage(s), EndPage(s)));
    ok := true;
  }

  lemma {:induction false} SameEntriesRefl(m: Mem, own: Tables)
    ensures SameEntries(m, m, own)
  {
  }

  lemma {:induction false} SameEntriesTrans(m: Mem, m1: Mem, m2: Mem, own: Tables)
    requires SameEntries(m, m1, own) && SameEntries(m1, m2, own)
    ensures SameEntries(m, m2, own)
  {
    hide Entry;
    forall g, j | g in own && 0 <= j < 512 ensures Entry(m2, g, j) == Entry(m, g, j) {
      assert Entry(m1, g, j) == Entry(m, g, j);
    }
  }

  /** Bytes stored outside the tables make no large page. */
  lemma {:induction false} KeptByBytes(m: Mem, m': Mem, own: Tables)
    requires SameEntries(m, m', own)
    ensures NoLargeUser(m, own) ==> NoLargeUser(m', own)
  {
    if NoLargeUser(m, own) { NoLargeSame(m, m', own); }
  }

  // ----- the whole file

  /** Page of `v` belongs to a loadable segment before number `n`. */
  predicate InSegments(f: seq<byte>, n: nat, v: nat)
    requires HeaderOk(f) && n <= Phnum(f)
  {
    exists i :: 0 <= i < n && Loadable(SegmentAt(f, i))
      && InPages(v, FirstPage(SegmentAt(f, i)), EndPage(SegmentAt(f, i)))
  }

  /** A loadable segment after number `i` and before number `n` takes the page of `v` for itself. */
  predicate Retaken(f: seq<byte>, i: nat, n: nat, v: nat)
    requires HeaderOk(f) && n <= Phnum(f)
  {
    exists j :: i < j < n && Loadable(SegmentAt(f, j))
      && InPages(v, FirstPage(SegmentAt(f, j)), EndPage(SegmentAt(f, j)))
  }

  /** Segment `i` is in place, but for the pages a later one has taken. */
  ghost predicate Placed(m0: Mem, bm0: seq<bv8>, m: Mem, bm: seq<bv8>, own: Tables, root: nat, f: seq<byte>, i: nat,
                         n: nat)
    requires HeaderOk(f) && i < n <= Phnum(f) && SegmentOk(f, SegmentAt(f, i)) && |m| == |m0|
  {
    var s := SegmentAt(f, i);
    forall v: nat :: OnPages(s, v) && !Retaken(f, i, n, v) ==> PageHeld(m0, bm0, m, bm, own, root, f, s, v)
  }

  /**
   * Of the segments before number `n`, every page that no later one takes is in place, and pages of none of
   * them are as they were.
   */
  ghost predicate LoadedUpTo(m0: Mem, bm0: seq<bv8>, m: Mem, bm: seq<bv8>, own: Tables, root: nat, f: seq<byte>, n: nat)
    requires HeaderOk(f) && n <= Phnum(f)
  {
    && |m| == |m0|
    && (forall v: nat :: v < Span(4) && !InSegments(f, n, v) ==> Lookup(m, root, 3, v) == Lookup(m0, root, 3, v))
    && (forall i: nat :: i < n && Loadable(SegmentAt(f, i)) ==>
          SegmentOk(f, SegmentAt(f, i)) && Placed(m0, bm0, m, bm, own, root, f, i, n))
  }

  /** When no two segments share a page, every segment is held whole. */
  lemma {:induction false} DisjointHeld(m0: Mem, bm0: seq<bv8>, m: Mem, bm: seq<bv8>, own: Tables, root: nat,
                                        f: seq<byte>, i: nat)
    requires HeaderOk(f) && PagesDisjoint(f) && LoadedUpTo(m0, bm0, m, bm, own, root, f, Phnum(f))
    requires i < Phnum(f) && Loadable(SegmentAt(f, i))
    ensures SegmentOk(f, SegmentAt(f, i)) && Holds(m0, bm0, m, bm, own, root, f, SegmentAt(f, i))
  {
    hide PageHeld, Phnum, Rd16, Rd64, SegmentAt, Span, Lookup;
    var s := SegmentAt(f, i);
    assert SegmentOk(f, s);
    assert Placed(m0, bm0, m, bm, own, root, f, i, Phnum(f));
    forall v: nat | OnPages(s, v) ensures PageHeld(m0, bm0, m, bm, own, root, f, s, v) {
      assert !Retaken(f, i, Phnum(f), v);
    }
  }

  /**
   * A page two segments share holds, around the later one's bytes, what its frame held before: the earlier
   * one's are lost.
   */
  lemma {:induction false} SharedPageLost(m0: Mem, bm0: seq<bv8>, m: Mem, bm: seq<bv8>, own: Tables, root: nat,
                                          f: seq<byte>, j: nat, v: nat)
    requires HeaderOk(f) && LoadedUpTo(m0, bm0, m, bm, own, root, f, Phnum(f))
    requires j < Phnum(f) && Loadable(SegmentAt(f, j)) && OnPages(SegmentAt(f, j), v) && !Retaken(f, j, Phnum(f), v)
    ensures var s, r := SegmentAt(f, j), Lookup(m, root, 3, v);
            && r.Some? && r.value.flags == PageFlags(s) && r.value.phys < |m| == |m0|
            && !Used(bm0, r.value.phys / 0x1000)
            && (!(s.vaddr <= v < s.vaddr + s.memsz) ==> m[r.value.phys] == m0[r.value.phys])
  {
    hide Phnum, Rd16, Rd64, SegmentAt, Span, Lookup, OnPages;
    assert SegmentOk(f, SegmentAt(f, j));
    assert Placed(m0, bm0, m, bm, own, root, f, j, Phnum(f));
    assert PageHeld(m0, bm0, m, bm, own, root, f, SegmentAt(f, j), v);
  }

  /** A page in place survives the loading of a segment on other pages. */
  lemma {:induction false} PageKept(m0: Mem, bm0: seq<bv8>, m: Mem, bm: seq<bv8>, own: Tables, m': Mem, bm': seq<bv8>,
                                    own': Tables, fr: seq<nat>, root: nat, f: seq<byte>, s: Segment, a: nat, flags: nat,
                                    v: nat)
    requires |m0| == |m| && SegmentOk(f, s) && OnPages(s, v) && PageHeld(m0, bm0, m, bm, own, root, f, s, v)
    requires Loading(m, bm, own, m', bm', own', fr) && PagesMapped(m, m', root, a, fr, flags)
    requires !InPages(v, a, a + |fr|)
    ensures |m'| == |m0| && PageHeld(m0, bm0, m', bm', own', root, f, s, v)
  {
    hide PageByte, Lookup, Span;
    PageBelow(s, v);
    LookupOld(m, m', root, a, fr, flags, v);
  }

  /** A page taken late in the load was free, and its frame untouched, from the start. */
  lemma {:induction false} HeldSince(m0: Mem, bm0: seq<bv8>, own0: Tables, m1: Mem, bm1: seq<bv8>, own1: Tables, m: Mem,
                                     bm: seq<bv8>, own: Tables, fr: seq<nat>, root: nat, f: seq<byte>, s: Segment,
                                     v: nat)
    requires Loading(m0, bm0, own0, m1, bm1, own1, []) && Loading(m1, bm1, own1, m, bm, own, fr)
    requires SegmentOk(f, s) && PageHeld(m1, bm1, m, bm, own, root, f, s, v)
    ensures |m| == |m0| && PageHeld(m0, bm0, m, bm, own, root, f, s, v)
  {
    hide ImageByte, Lookup, SegmentOk, PageFlags;
  }

  lemma {:induction false} LookupOld(m0: Mem, m: Mem, root: nat, a: nat, fr: seq<nat>, flags: nat, v: nat)
    requires PagesMapped(m0, m, root, a, fr, flags) && v < Span(4) && !(a <= v / 0x1000 < a + |fr|)
    ensures Lookup(m, root, 3, v) == Lookup(m0, root, 3, v)
  {
  }

  lemma {:induction false} LoadingTrans(m0: Mem, bm0: seq<bv8>, own0: Tables, m1: Mem, bm1: seq<bv8>, own1: Tables,
                                        m2: Mem, bm2: seq<bv8>, own2: Tables, fr: seq<nat>)
    requires Loading(m0, bm0, own0, m1, bm1, own1, []) && Loading(m1, bm1, own1, m2, bm2, own2, fr)
    requires forall f :: f in own1 ==> f < TOTAL
    ensures Loading(m0, bm0, own0, m2, bm2, own2, [])
  {
    hide Bit;
    BeyondFree(bm1, bm2);
    forall a | 0 <= a < |m0| && a / 0x1000 !in own2 && (Used(bm0, a / 0x1000) || !Used(bm2, a / 0x1000))
      ensures m2[a] == m0[a]
    {
      assert a / 0x1000 !in own1;
      assert Used(bm0, a / 0x1000) || !Used(bm1, a / 0x1000);
    }
  }

  lemma {:induction false} InSegmentsStep(f: seq<byte>, n: nat)
    requires HeaderOk(f) && n < Phnum(f)
    ensures forall v: nat :: InSegments(f, n + 1, v) <==>
              InSegments(f, n, v)
              || (Loadable(SegmentAt(f, n)) && InPages(v, FirstPage(SegmentAt(f, n)), EndPage(SegmentAt(f, n))))
  {
    hide SegmentAt, HeaderOk, Phnum, InPages, FirstPage, EndPage, Loadable;
    forall v: nat
      ensures InSegments(f, n + 1, v) <==>
              InSegments(f, n, v)
              || (Loadable(SegmentAt(f, n)) && InPages(v, FirstPage(SegmentAt(f, n)), EndPage(SegmentAt(f, n))))
    {
      if InSegments(f, n, v) {
        var i :| 0 <= i < n && Loadable(SegmentAt(f, i))
            && InPages(v, FirstPage(SegmentAt(f, i)), EndPage(SegmentAt(f, i)));
        assert 0 <= i < n + 1;
      }
    }
  }

  lemma {:induction false} LoadedNone(m: Mem, bm: seq<bv8>, own: Tables, root: nat, f: seq<byte>)
    requires HeaderOk(f)
    ensures LoadedUpTo(m, bm, m, bm, own, root, f, 0)
  {
  }

  lemma {:induction false} LoadedSkip(m0: Mem, bm0: seq<bv8>, m: Mem, bm: seq<bv8>, own: Tables, root: nat,
                                      f: seq<byte>, n: nat)
    requires HeaderOk(f) && n < Phnum(f) && LoadedUpTo(m0, bm0, m, bm, own, root, f, n) && !Loadable(SegmentAt(f, n))
    ensures LoadedUpTo(m0, bm0, m, bm, own, root, f, n + 1)
  {
    hide SegmentAt, HeaderOk, Phnum, InSegments, Loadable, SegmentOk, PageHeld, Lookup;
    InSegmentsStep(f, n);
    forall i: nat | i < n && Loadable(SegmentAt(f, i))
      ensures SegmentOk(f, SegmentAt(f, i)) && Placed(m0, bm0, m, bm, own, root, f, i, n + 1)
    {
      assert Placed(m0, bm0, m, bm, own, root, f, i, n);
      forall v: nat ensures Retaken(f, i, n, v) ==> Retaken(f, i, n + 1, v) { }
    }
  }

  lemma {:induction false} LoadedStep(m0: Mem, bm0: seq<bv8>, own0: Tables, m1: Mem, bm1: seq<bv8>, own1: Tables,
                                      m2: Mem, bm2: seq<bv8>, own2: Tables, fr: seq<nat>, root: nat, f: seq<byte>,
                                      n: nat)
    requires HeaderOk(f) && n < Phnum(f) && LoadedUpTo(m0, bm0, m1, bm1, own1, root, f, n)
    requires Loading(m0, bm0, own0, m1, bm1, own1, [])
    requires var s := SegmentAt(f, n);
             && Loadable(s) && SegmentOk(f, s) && FirstPage(s) + |fr| == EndPage(s)
             && Loading(m1, bm1, own1, m2, bm2, own2, fr)
             && PagesMapped(m1, m2, root, FirstPage(s), fr, PageFlags(s))
             && |m2| == |m1| && Holds(m1, bm1, m2, bm2, own2, root, f, s)
    ensures LoadedUpTo(m0, bm0, m2, bm2, own2, root, f, n + 1)
  {
    hide SegmentAt, HeaderOk, Phnum, InSegments, Loadable, SegmentOk, PageHeld, Lookup, PagesMapped, Loading, FirstPage,
         EndPage, PageFlags, Span, Retaken;
    var s := SegmentAt(f, n);
    InSegmentsStep(f, n);
    forall v: nat | v < Span(4) && !InSegments(f, n + 1, v) ensures Lookup(m2, root, 3, v) == Lookup(m0, root, 3, v) {
      assert !InPages(v, FirstPage(s), EndPage(s));
      LookupOld(m1, m2, root, FirstPage(s), fr, PageFlags(s), v);
    }
    forall i: nat | i <= n && Loadable(SegmentAt(f, i))
      ensures SegmentOk(f, SegmentAt(f, i)) && Placed(m0, bm0, m2, bm2, own2, root, f, i, n + 1)
    {
      if i < n {
        PlacedStep(m0, bm0, m1, bm1, own1, m2, bm2, own2, fr, root, f, i, n);
      } else {
        forall v: nat | OnPages(s, v) ensures PageHeld(m0, bm0, m2, bm2, own2, root, f, s, v) {
          HeldSince(m0, bm0, own0, m1, bm1, own1, m2, bm2, own2, fr, root, f, s, v);
        }
      }
    }
  }

  /** Loading segment `n` keeps what is in place of segment `i`, but for the pages it takes. */
  lemma {:induction false} PlacedStep(m0: Mem, bm0: seq<bv8>, m1: Mem, bm1: seq<bv8>, own1: Tables, m2: Mem,
                                      bm2: seq<bv8>, own2: Tables, fr: seq<nat>, root: nat, f: seq<byte>, i: nat,
                                      n: nat)
    requires HeaderOk(f) && i < n < Phnum(f) && SegmentOk(f, SegmentAt(f, i)) && Loadable(SegmentAt(f, n))
    requires |m1| == |m0| && Placed(m0, bm0, m1, bm1, own1, root, f, i, n)
    requires var s := SegmentAt(f, n);
             && FirstPage(s) + |fr| == EndPage(s)
             && Loading(m1, bm1, own1, m2, bm2, own2, fr) && PagesMapped(m1, m2, root, FirstPage(s), fr, PageFlags(s))
    ensures |m2| == |m0| && Placed(m0, bm0, m2, bm2, own2, root, f, i, n + 1)
  {
    hide SegmentAt, HeaderOk, Phnum, Loadable, SegmentOk, PageHeld, PagesMapped, PageFlags, FreshFrames;
    var s, t := SegmentAt(f, n), SegmentAt(f, i);
    forall v: nat | OnPages(t, v) && !Retaken(f, i, n + 1, v)
      ensures PageHeld(m0, bm0, m2, bm2, own2, root, f, t, v)
    {
      assert !Retaken(f, i, n, v) && !InPages(v, FirstPage(s), EndPage(s));
      PageKept(m0, bm0, m1, bm1, own1, m2, bm2, own2, fr, root, f, t, FirstPage(s), PageFlags(s), v);
    }
  }

  // ----- the frames a file takes

  lemma {:induction false} StretchesLow(f: seq<byte>, n: nat)
    requires HeaderOk(f) && n <= Phnum(f)
    ensures Low(StretchesUpTo(f, n))
    decreases n
  {
    hide HeaderOk, Phnum, SegmentAt, Stretches, FirstPage, EndPage;
    if n > 0 {
      StretchesLow(f, n - 1);
      if Mapped(f, n - 1) { SegmentLow(f, SegmentAt(f, n - 1)); }
    }
  }

  lemma {:induction false} SegmentLow(f: seq<byte>, s: Segment)
    requires SegmentOk(f, s)
    ensures Low(Stretches(FirstPage(s), EndPage(s)))
  {
  }

  lemma {:induction false} DemandMonotone(f: seq<byte>, m: Mem, root: nat, i: nat, n: nat)
    requires HeaderOk(f) && i <= n <= Phnum(f)
    ensures PagesUpTo(f, i) <= PagesUpTo(f, n) && StretchesUpTo(f, i) <= StretchesUpTo(f, n)
    ensures DemandUpTo(f, m, root, i) <= DemandUpTo(f, m, root, n)
    decreases n
  {
    hide HeaderOk, Phnum, SegmentAt, Stretches, NewTables, FirstPage, EndPage, Mapped;
    if i < n {
      DemandMonotone(f, m, root, i, n - 1);
      PagesOrder(SegmentAt(f, n - 1));
    }
    DemandGrows(m, root, StretchesUpTo(f, i), StretchesUpTo(f, n));
  }

  lemma {:induction false} PagesOrder(s: Segment)
    ensures FirstPage(s) <= EndPage(s)
  {
  }

  /** After the segments before number `i`, segment `i` takes what the whole file takes up to it and not before it. */
  lemma {:induction false} SegmentDemand(f: seq<byte>, m0: Mem, m1: Mem, root: nat, i: nat)
    requires HeaderOk(f) && i < Phnum(f) && Mapped(f, i) && Gained(m0, m1, root, StretchesUpTo(f, i))
    ensures var s := SegmentAt(f, i);
            && DemandUpTo(f, m0, root, i) + PageDemand(m1, root, FirstPage(s), EndPage(s))
               == DemandUpTo(f, m0, root, i + 1) <= FileDemand(f, m0, root)
            && StretchesUpTo(f, i + 1) == StretchesUpTo(f, i) + Stretches(FirstPage(s), EndPage(s))
  {
    hide Rd16, Rd64, Phnum, SegmentAt, Stretches, NewTables, FirstPage, EndPage, Gained, Loadable, SegmentOk;
    var s := SegmentAt(f, i);
    StretchesLow(f, i);
    SegmentLow(f, s);
    DemandAdds(m0, m1, root, StretchesUpTo(f, i), Stretches(FirstPage(s), EndPage(s)));
    DemandMonotone(f, m0, root, i + 1, Phnum(f));
  }

  /** An accepted program: sound header, every loadable segment sound, entry point in user memory. */
  ghost predicate Accepted(f: seq<byte>) {
    && HeaderOk(f)
    && (forall i :: 0 <= i < Phnum(f) && Loadable(SegmentAt(f, i)) ==> SegmentOk(f, SegmentAt(f, i)))
    && USER_MIN <= EntryPoint(f) < USER_MAX
  }

  /**
   * Load the program image at `[img, img + len)`.  A program is loaded exactly when it is accepted and the
   * frames it takes are free.  On success user memory holds every segment, but for the pages that a later
   * one takes; whatever happens, bytes in use before, tables apart, are untouched.
   */
  method ElfLoad(k: Machine, img: nat, len: nat, ghost own: Tables) returns (rc: int, entry: nat, ghost own': Tables)
    requires k.Ready() && k.TablesOk(own) && Present(Entry(k.mem[..], k.pml4, 0))
    requires img + len <= k.mem.Length && ImageSafe(k.bitmap[..], own, img, len)
    requires var f := k.mem[img..img + len];
             HeaderOk(f) ==> SplitsCovered(k, own, FileDemand(f, k.mem[..], k.pml4))
    modifies k`freeFrames, k`cursor, k.bitmap, k.mem
    ensures k.Ready() && k.TablesOk(own') && Present(Entry(k.mem[..], k.pml4, 0))
    ensures Loading(old(k.mem[..]), old(k.bitmap[..]), own, k.mem[..], k.bitmap[..], own', [])
    ensures rc == 0 || rc == -1
    ensures k.mem[img..img + len] == old(k.mem[img..img + len])
    ensures var f := old(k.mem[img..img + len]);
            rc == 0 <==> Accepted(f) && old(k.freeFrames) >= FileDemand(f, old(k.mem[..]), k.pml4)
    ensures rc == 0 ==>
              var f := old(k.mem[img..img + len]);
              && entry == EntryPoint(f)
              && k.freeFrames == old(k.freeFrames) - FileDemand(f, old(k.mem[..]), k.pml4)
              && LoadedUpTo(old(k.mem[..]), old(k.bitmap[..]), k.mem[..], k.bitmap[..], own', k.pml4, f, Phnum(f))
  {
    hide Entry, Used, FreeBits, Span, Tree, Loading, LoadedUpTo, NoLargeUser, ImageSafe, Lookup, SegmentAt, PagesMapped,
         Holds, Rd64, Rd32, Rd16, Gained, DemandUpTo, StretchesUpTo, Stretches, PageDemand;
    ghost var m0, bm0, free0 := k.mem[..], k.bitmap[..], k.freeFrames;
    ghost var f := k.mem[img..img + len];
    var file := k.mem[img..img + len];
    own', entry := own, 0;
    LoadingStart(m0, bm0, own, k.pml4, 0, 0);
    if len < EHDR
       || file[0] != 0x7F || file[1] != 69 || file[2] != 76 || file[3] != 70
       || file[4] != 2 || file[5] != 1 || Rd16(file, 18) != 0x3E
       || (Phnum(file) != 0 && Phentsize(file) < PHDR)
       || Phoff(file) + Phnum(file) * Phentsize(file) > len {
      return -1, 0, own;
    }
    assert HeaderOk(f);
    LoadedNone(m0, bm0, own, k.pml4, f);
    FirstDemand(f, m0, k.pml4);
    hide HeaderOk;
    var i := 0;
    while i < Phnum(file)
      invariant i <= Phnum(f) && HeaderOk(f)
      invariant k.Ready() && k.TablesOk(own') && Present(Entry(k.mem[..], k.pml4, 0))
      invariant Loading(m0, bm0, own, k.mem[..], k.bitmap[..], own', [])
      invariant NoLargeUser(m0, own) ==> NoLargeUser(k.mem[..], own')
      invariant k.freeFrames + DemandUpTo(f, m0, k.pml4, i) == free0
      invariant Gained(m0, k.mem[..], k.pml4, StretchesUpTo(f, i))
      invariant LoadedUpTo(m0, bm0, k.mem[..], k.bitmap[..], own', k.pml4, f, i)
    {
      ghost var m1, bm1, own1 := k.mem[..], k.bitmap[..], own';
      ImageKept(m0, bm0, own, m1, bm1, own1, [], img, len);
      var s := SegmentAt(k.mem[img..img + len], i);
      if Loadable(s) {
        if s.off + s.filesz > len || s.memsz < s.filesz || s.vaddr < USER_MIN || s.vaddr + s.memsz > USER_MAX {
          return -1, 0, own';
        }
        SegmentDemand(f, m0, m1, k.pml4, i);
        ghost var fr;
        var ok;
        ok, own', fr := LoadSegment(k, img, s, own1, f);
        LoadingTrans(m0, bm0, own, m1, bm1, own1, k.mem[..], k.bitmap[..], own', fr);
        if !ok {
          ImageKept(m0, bm0, own, k.mem[..], k.bitmap[..], own', [], img, len);
          return -1, 0, own';
        }
        GainedTrans(m0, m1, k.mem[..], k.pml4, StretchesUpTo(f, i), Stretches(FirstPage(s), EndPage(s)));
        LoadedStep(m0, bm0, own, m1, bm1, own1, k.mem[..], k.bitmap[..], own', fr, k.pml4, f, i);
      } else {
        LoadedSkip(m0, bm0, m1, bm1, own1, k.pml4, f, i);
        SkipDemand(f, m0, k.pml4, i);
      }
      i := i + 1;
    }
    ImageKept(m0, bm0, own, k.mem[..], k.bitmap[..], own', [], img, len);
    AllSound(m0, bm0, k.mem[..], k.bitmap[..], own', k.pml4, f);
    if EntryPoint(file) < USER_MIN || EntryPoint(file) >= USER_MAX {
      return -1, 0, own';
    }
    rc, entry := 0, EntryPoint(file);
  }

  lemma {:induction false} FirstDemand(f: seq<byte>, m: Mem, root: nat)
    requires HeaderOk(f)
    ensures DemandUpTo(f, m, root, 0) == 0 && Gained(m, m, root, StretchesUpTo(f, 0))
  {
    GainedNone(m, root);
  }

  lemma {:induction false} SkipDemand(f: seq<byte>, m: Mem, root: nat, i: nat)
    requires HeaderOk(f) && i < Phnum(f) && !Mapped(f, i)
    ensures DemandUpTo(f, m, root, i + 1) == DemandUpTo(f, m, root, i) && StretchesUpTo(f, i + 1) == StretchesUpTo(f, i)
  {
  }

  lemma {:induction false} AllSound(m0: Mem, bm0: seq<bv8>, m: Mem, bm: seq<bv8>, own: Tables, root: nat, f: seq<byte>)
    requires HeaderOk(f) && LoadedUpTo(m0, bm0, m, bm, own, root, f, Phnum(f))
    ensures forall i :: 0 <= i < Phnum(f) && Loadable(SegmentAt(f, i)) ==> SegmentOk(f, SegmentAt(f, i))
  {
  }

  // ----- frames under their own address

  /** Every byte of frame `g` is found at its own physical address. */
  ghost predicate OwnAddress(m: Mem, root: nat, g: nat) {
    forall v: nat :: InPages(v, g, g + 1) ==> PhysOf(Lookup(m, root, 3, v)) == v
  }

  /** Frame `g` is found at its own address, which is no page of the program. */
  ghost predicate OutOfTheWay(m: Mem, root: nat, f: seq<byte>, g: nat)
    requires HeaderOk(f)
  {
    g < TOTAL && OwnAddress(m, root, g) && forall v: nat :: InPages(v, g, g + 1) ==> !InSegments(f, Phnum(f), v)
  }

  /** Such a frame is found there still when any number of segments are in place. */
  lemma {:induction false} OwnAddressStays(m0: Mem, bm0: seq<bv8>, m: Mem, bm: seq<bv8>, own: Tables, root: nat,
                                           f: seq<byte>, n: nat, g: nat)
    requires HeaderOk(f) && n <= Phnum(f) && LoadedUpTo(m0, bm0, m, bm, own, root, f, n)
    requires OutOfTheWay(m0, root, f, g)
    ensures OwnAddress(m, root, g)
  {
    hide Rd16, Rd64, Phnum, SegmentAt, Placed, Lookup, Loadable, SegmentOk;
    forall v: nat | InPages(v, g, g + 1) ensures PhysOf(Lookup(m, root, 3, v)) == v {
      assert v < Span(4);
      InNoneBefore(f, n, v);
    }
  }

  lemma {:induction false} InNoneBefore(f: seq<byte>, n: nat, v: nat)
    requires HeaderOk(f) && n <= Phnum(f) && !InSegments(f, Phnum(f), v)
    ensures !InSegments(f, n, v)
  {
  }

  /** And while the pages of a segment are being mapped and filled. */
  lemma {:induction false} OwnAddressMeanwhile(m0: Mem, m: Mem, root: nat, a: nat, fr: seq<nat>, flags: nat, g: nat)
    requires PagesMapped(m0, m, root, a, fr, flags) && OwnAddress(m0, root, g) && g < TOTAL && !(a <= g < a + |fr|)
    ensures OwnAddress(m, root, g)
  {
    hide Lookup;
    forall v: nat | InPages(v, g, g + 1) ensures PhysOf(Lookup(m, root, 3, v)) == v {
      assert v < Span(4);
    }
  }

  /**
   * When the tables and the free frames are out of the program's way at the start, every table and every
   * frame the load takes is found at its own address throughout, which is how the loader's stores reach them.
   */
  lemma {:induction false} StoresReach(m0: Mem, bm0: seq<bv8>, own0: Tables, m: Mem, bm: seq<bv8>, own: Tables,
                                       root: nat, f: seq<byte>, n: nat)
    requires HeaderOk(f) && n <= Phnum(f) && LoadedUpTo(m0, bm0, m, bm, own, root, f, n)
    requires Loading(m0, bm0, own0, m, bm, own, [])
    requires forall g: nat :: g in own0 || (g < TOTAL && !Used(bm0, g)) ==> OutOfTheWay(m0, root, f, g)
    ensures forall g: nat :: g in own || (g < TOTAL && !Used(bm0, g)) ==> OwnAddress(m, root, g)
  {
    hide Rd16, Rd64, Phnum, LoadedUpTo, OutOfTheWay, OwnAddress, Used;
    forall g: nat | g in own || (g < TOTAL && !Used(bm0, g)) ensures OwnAddress(m, root, g) {
      assert OutOfTheWay(m0, root, f, g);
      OwnAddressStays(m0, bm0, m, bm, own, root, f, n, g);
    }
  }
}
