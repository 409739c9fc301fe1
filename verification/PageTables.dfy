/** Four-level page tables in memory, and the map from virtual to physical addresses they stand for. */
module PageTables {
  import opened Arith
  import opened Bytes

  type Mem = seq<byte>

  /** Bytes one entry of a level-`l` table covers. */
  function Span(l: nat): (r: nat)
    requires l <= 4
    ensures r > 0
  {
    if l == 0 then 0x1000 else if l == 1 then 0x20_0000 else if l == 2 then 0x4000_0000
    else if l == 3 then 0x80_0000_0000 else 0x1_0000_0000_0000
  }

  function Idx(v: nat, l: nat): (r: nat)
    requires l <= 3
    ensures r < 512
  {
    v / Span(l) % 512
  }

  lemma {:induction false} IdxPosition(v: nat, l: nat)
    requires l <= 3
    ensures v / Span(l) == v / Span(l + 1) * 512 + Idx(v, l)
  {
    if l == 0 { assert v / 0x20_0000 == v / 0x1000 / 512; }
    else if l == 1 { assert v / 0x4000_0000 == v / 0x20_0000 / 512; }
    else if l == 2 { assert v / 0x80_0000_0000 == v / 0x4000_0000 / 512; }
    else { assert v / 0x1_0000_0000_0000 == v / 0x80_0000_0000 / 512; }
  }

  // ----- entries

  predicate InRam(m: Mem, f: nat) { 0x1000 * (f + 1) <= |m| }

  /** Entry `i` of the table in frame `f`. */
  function Entry(m: Mem, f: nat, i: nat): (e: nat)
    requires i < 512
  {
    if InRam(m, f) then Rd64(m, 0x1000 * f + 8 * i) else 0
  }

  /** Entry `i` is the eight bytes at `8 * i`, the lowest first. */
  lemma {:induction false} EntryBytes(m: Mem, f: nat, i: nat)
    requires InRam(m, f) && i < 512
    ensures Entry(m, f, i) == Little(m, 0x1000 * f + 8 * i, 8)
  {
    WordsAreLittle(m, 0x1000 * f + 8 * i);
  }

  predicate Present(e: nat) { e % 2 == 1 }
  predicate LargeBit(e: nat) { e / 0x80 % 2 == 1 }
  function FrameOf(e: nat): (f: nat) { e / 0x1000 }

  /** An entry of a level-`l` table that maps memory itself instead of naming a table. */
  predicate Large(l: nat, e: nat) { l == 1 && LargeBit(e) }

  /** Where an address leads and with which flags. */
  datatype Page = Page(phys: nat, flags: nat)

  /** What the tables say about `v`, from the table in frame `t` at level `l`. */
  function Lookup(m: Mem, t: nat, l: nat, v: nat): (r: Option<Page>)
    requires l <= 3
    decreases l
  {
    var e := Entry(m, t, Idx(v, l));
    if !Present(e) then None
    else if l == 0 then Some(SmallPage(e, v))
    else if Large(l, e) then Some(LargePage(e, v))
    else Lookup(m, FrameOf(e), l - 1, v)
  }

  function LargePage(e: nat, v: nat): (p: Page)
    requires Present(e) && LargeBit(e)
  {
    LowBits(e);
    Page(e / 0x20_0000 * 0x20_0000 + v % 0x20_0000, e % 0x1000 - 0x80)
  }

  function SmallPage(e: nat, v: nat): (p: Page) {
    Page(e / 0x1000 * 0x1000 + v % 0x1000, e % 0x1000)
  }

  /**
   * The walk written out: nine bits of the address choose an entry at each level, an even entry ends the walk,
   * bit 7 of a third-level entry makes it a page of 2 MB.
   */
  lemma {:induction false} FourLevels(m: Mem, root: nat, v: nat)
    ensures Lookup(m, root, 3, v) ==
            var e3 := Entry(m, root, v / 0x80_0000_0000 % 512);
            if e3 % 2 == 0 then None else
            var e2 := Entry(m, e3 / 0x1000, v / 0x4000_0000 % 512);
            if e2 % 2 == 0 then None else
            var e1 := Entry(m, e2 / 0x1000, v / 0x20_0000 % 512);
            if e1 % 2 == 0 then None else
            if e1 / 0x80 % 2 == 1 then Some(LargePage(e1, v)) else
            var e0 := Entry(m, e1 / 0x1000, v / 0x1000 % 512);
            if e0 % 2 == 0 then None else Some(Page(e0 / 0x1000 * 0x1000 + v % 0x1000, e0 % 0x1000))
    ensures forall e: nat :: e % 2 == 1 && e / 0x80 % 2 == 1 ==>
              LargePage(e, v).phys == e / 0x20_0000 * 0x20_0000 + v % 0x20_0000
              && LargePage(e, v).flags + 0x80 == e % 0x1000
  {
    hide Entry;
    var e3 := Entry(m, root, Idx(v, 3));
    var e2 := Entry(m, FrameOf(e3), Idx(v, 2));
    if Present(e3) {
      assert Lookup(m, root, 3, v) == Lookup(m, FrameOf(e3), 2, v);
      if Present(e2) { assert Lookup(m, FrameOf(e3), 2, v) == Lookup(m, FrameOf(e2), 1, v); }
    }
    forall e: nat | e % 2 == 1 && e / 0x80 % 2 == 1 ensures e % 0x1000 >= 0x80 { LowBits(e); }
  }

  /** The physical address of a lookup, 0 for none. */
  function PhysOf(r: Option<Page>): (p: nat) {
    if r.Some? then r.value.phys else 0
  }

  /** The level-0 table that serves `v`, when tables lead all the way down. */
  function LeafTable(m: Mem, t: nat, l: nat, v: nat): (r: Option<nat>)
    requires l <= 3
    decreases l
  {
    if l == 0 then Some(t)
    else
      var e := Entry(m, t, Idx(v, l));
      if !Present(e) || Large(l, e) then None else LeafTable(m, FrameOf(e), l - 1, v)
  }

  /** Tables missing on the way to `v`. */
  function Missing(m: Mem, t: nat, l: nat, v: nat): (n: nat)
    requires l <= 3
    ensures n <= l
    decreases l
  {
    if l == 0 then 0
    else
      var e := Entry(m, t, Idx(v, l));
      if !Present(e) then l else if Large(l, e) then 1 else Missing(m, FrameOf(e), l - 1, v)
  }

  /** `v` is served by a large page. */
  function LargeAt(m: Mem, t: nat, l: nat, v: nat): (r: bool)
    requires l <= 3
    decreases l
  {
    l > 0 &&
    var e := Entry(m, t, Idx(v, l));
    Present(e) && (Large(l, e) || LargeAt(m, FrameOf(e), l - 1, v))
  }

  // ----- the tree of tables

  /** A table's level and which stretch of addresses it serves: those with `v / Span(level + 1) == pos`. */
  datatype Role = Role(level: nat, pos: nat)

  type Tables = map<nat, Role>

  ghost predicate IsTable(own: Tables, f: nat, l: nat, pos: nat) {
    f in own && own[f] == Role(l, pos)
  }

  /** Entry `i` of table `f`, where it names a table, names one of the right role, writable and open to user mode. */
  ghost predicate LinkOk(m: Mem, own: Tables, f: nat, i: nat)
    requires f in own && i < 512
  {
    var e := Entry(m, f, i);
    own[f].level > 0 && Present(e) && !Large(own[f].level, e) ==>
      IsTable(own, FrameOf(e), own[f].level - 1, own[f].pos * 512 + i) && e % 8 == 7
  }

  ghost predicate Tree(m: Mem, own: Tables, root: nat) {
    && IsTable(own, root, 3, 0)
    && (forall f :: f in own ==> InRam(m, f) && own[f].level <= 3)
    && (forall f, i :: f in own && 0 <= i < 512 ==> LinkOk(m, own, f, i))
  }

  /** The same entries in every table, except entry `i` of table `f`. */
  ghost predicate SameEntriesBut(m: Mem, m': Mem, own: Tables, f: nat, i: nat) {
    && |m'| == |m|
    && forall g, j :: g in own && 0 <= j < 512 && !(g == f && j == i) ==> Entry(m', g, j) == Entry(m, g, j)
  }

  ghost predicate SameEntries(m: Mem, m': Mem, own: Tables) {
    |m'| == |m| && forall g, j :: g in own && 0 <= j < 512 ==> Entry(m', g, j) == Entry(m, g, j)
  }

  /** The step a walk makes inside the tree. */
  lemma {:induction false} WalkDown(m: Mem, own: Tables, root: nat, t: nat, l: nat, v: nat)
    requires Tree(m, own, root) && 1 <= l <= 3 && IsTable(own, t, l, v / Span(l + 1))
    ensures var e := Entry(m, t, Idx(v, l));
            Present(e) && !Large(l, e) ==> IsTable(own, FrameOf(e), l - 1, v / Span(l))
  {
    IdxPosition(v, l);
    assert LinkOk(m, own, t, Idx(v, l));
  }

  lemma {:induction false} RootServes(own: Tables, root: nat, v: nat)
    requires IsTable(own, root, 3, 0) && v < Span(4)
    ensures IsTable(own, root, 3, v / Span(4))
  {
  }

  /** Addresses whose walk does not use the changed entry are translated as before. */
  lemma {:induction false} PhysFrame(m: Mem, m': Mem, own: Tables, root: nat, f: nat, i: nat, t: nat, l: nat, v: nat)
    requires Tree(m, own, root) && f in own && i < 512 && SameEntriesBut(m, m', own, f, i)
    requires l <= 3 && IsTable(own, t, l, v / Span(l + 1))
    requires v / Span(own[f].level) != own[f].pos * 512 + i
    ensures Lookup(m', t, l, v) == Lookup(m, t, l, v) && LeafTable(m', t, l, v) == LeafTable(m, t, l, v)
    decreases l
  {
    hide Entry, SmallPage, Span, LinkOk, FrameOf, LargeBit;
    IdxPosition(v, l);
    var e := Entry(m, t, Idx(v, l));
    assert Entry(m', t, Idx(v, l)) == e;
    if l > 0 && Present(e) && !Large(l, e) {
      WalkDown(m, own, root, t, l, v);
      PhysFrame(m, m', own, root, f, i, FrameOf(e), l - 1, v);
    }
  }

  /** The table behind an address that walks through tables. */
  lemma {:induction false} LeafTableRole(m: Mem, own: Tables, root: nat, t: nat, l: nat, v: nat)
    requires Tree(m, own, root) && l <= 3 && IsTable(own, t, l, v / Span(l + 1))
    ensures LeafTable(m, t, l, v).Some? ==>
              IsTable(own, LeafTable(m, t, l, v).value, 0, v / Span(1))
              && Lookup(m, t, l, v) == Lookup(m, LeafTable(m, t, l, v).value, 0, v)
    decreases l
  {
    if l > 0 {
      WalkDown(m, own, root, t, l, v);
      var e := Entry(m, t, Idx(v, l));
      if Present(e) && !Large(l, e) {
        LeafTableRole(m, own, root, FrameOf(e), l - 1, v);
      }
    }
  }

  /** Storing a level-0 entry moves the addresses of one page and no others. */
  lemma {:induction false} LeafStored(m: Mem, m': Mem, own: Tables, root: nat, f: nat, i: nat)
    requires Tree(m, own, root) && f in own && own[f].level == 0 && i < 512 && SameEntriesBut(m, m', own, f, i)
    ensures Tree(m', own, root)
    ensures forall v: nat :: v < Span(4) && v / Span(0) != own[f].pos * 512 + i ==>
              Lookup(m', root, 3, v) == Lookup(m, root, 3, v) && LeafTable(m', root, 3, v) == LeafTable(m, root, 3, v)
  {
    forall g, j | g in own && 0 <= j < 512 ensures LinkOk(m', own, g, j) {
      assert LinkOk(m, own, g, j);
    }
    forall v: nat | v < Span(4) && v / Span(0) != own[f].pos * 512 + i
      ensures Lookup(m', root, 3, v) == Lookup(m, root, 3, v) && LeafTable(m', root, 3, v) == LeafTable(m, root, 3, v)
    {
      RootServes(own, root, v);
      PhysFrame(m, m', own, root, f, i, root, 3, v);
    }
  }

  /** The walk down to a level-0 table does not read level-0 entries. */
  lemma {:induction false} LeafTableKept(m: Mem, m': Mem, own: Tables, root: nat, f: nat, i: nat, t: nat, l: nat,
                                         v: nat)
    requires Tree(m, own, root) && f in own && own[f].level == 0 && i < 512 && SameEntriesBut(m, m', own, f, i)
    requires l <= 3 && IsTable(own, t, l, v / Span(l + 1))
    ensures LeafTable(m', t, l, v) == LeafTable(m, t, l, v)
    decreases l
  {
    if l > 0 {
      WalkDown(m, own, root, t, l, v);
      var e := Entry(m, t, Idx(v, l));
      if Present(e) && !Large(l, e) {
        LeafTableKept(m, m', own, root, f, i, FrameOf(e), l - 1, v);
      }
    }
  }

  // ----- hanging a new table into the tree

  ghost function WithTable(own: Tables, f: nat, i: nat, t: nat): Tables
    requires f in own && own[f].level > 0
  {
    own[t := Role(own[f].level - 1, own[f].pos * 512 + i)]
  }

  /** Entry `i` of table `f` now names the table in frame `t`, which no table was in before. */
  ghost predicate Hung(m: Mem, m': Mem, own: Tables, f: nat, i: nat, t: nat) {
    && f in own && own[f].level > 0 && i < 512 && t !in own && InRam(m, t)
    && SameEntriesBut(m, m', own, f, i)
    && Present(Entry(m', f, i)) && !Large(own[f].level, Entry(m', f, i)) && FrameOf(Entry(m', f, i)) == t
    && Entry(m', f, i) % 8 == 7
    && forall j :: 0 <= j < 512 ==> LinkOk(m', WithTable(own, f, i, t), t, j)
  }

  lemma {:induction false} HungTree(m: Mem, m': Mem, own: Tables, root: nat, f: nat, i: nat, t: nat)
    requires Tree(m, own, root) && Hung(m, m', own, f, i, t)
    ensures Tree(m', WithTable(own, f, i, t), root)
  {
    var own' := WithTable(own, f, i, t);
    forall g, j | g in own' && 0 <= j < 512 ensures LinkOk(m', own', g, j) {
      if g != t { assert LinkOk(m, own, g, j); }
    }
  }

  /** When the new table translates its stretch as the entry did before, nothing moves. */
  lemma {:induction false} HungPhys(m: Mem, m': Mem, own: Tables, root: nat, f: nat, i: nat, t: nat, g: nat, l: nat,
                                    v: nat)
    requires Tree(m, own, root) && Hung(m, m', own, f, i, t)
    requires l <= 3 && IsTable(own, g, l, v / Span(l + 1))
    requires v / Span(own[f].level) == own[f].pos * 512 + i ==>
               Lookup(m', t, own[f].level - 1, v) == Lookup(m, f, own[f].level, v)
    ensures Lookup(m', g, l, v) == Lookup(m, g, l, v)
    decreases l
  {
    hide Entry, SmallPage, Span, LinkOk, FrameOf, LargeBit;
    IdxPosition(v, l);
    if g != f || Idx(v, l) != i {
      var e := Entry(m, g, Idx(v, l));
      assert Entry(m', g, Idx(v, l)) == e;
      if l > 0 && Present(e) && !Large(l, e) {
        WalkDown(m, own, root, g, l, v);
        HungPhys(m, m', own, root, f, i, t, FrameOf(e), l - 1, v);
      }
    }
  }

  /** A table of zeros maps nothing. */
  lemma {:induction false} BlankTable(m: Mem, t: nat, l: nat, v: nat)
    requires l <= 3 && forall j :: 0 <= j < 512 ==> Entry(m, t, j) == 0
    ensures Lookup(m, t, l, v) == None && (l > 0 ==> LeafTable(m, t, l, v) == None)
  {
  }

  /** The level-0 table a large page is split into: the same addresses, page by page. */
  lemma {:induction false} SplitTable(m: Mem, t: nat, e: nat, v: nat, m0: Mem, f: nat)
    requires Entry(m0, f, Idx(v, 1)) == e && Present(e) && Large(1, e)
    requires forall j :: 0 <= j < 512 ==> Entry(m, t, j) == e / 0x20_0000 * 0x20_0000 + j * 0x1000 + (e % 0x1000 - 0x80)
    ensures Lookup(m, t, 0, v) == Lookup(m0, f, 1, v)
  {
    hide Entry;
    var j := Idx(v, 0);
    LowBits(e);
    SplitWord(e / 0x20_0000, j, e % 0x1000 - 0x80);
    PageInLarge(v);
  }

  /** A word made of a frame number and twelve low bits. */
  lemma {:induction false} PackedWord(q: nat, low: nat)
    requires low < 0x1000
    ensures var e := q * 0x1000 + low; e / 0x1000 == q && e % 0x1000 == low && e % 2 == low % 2
  {
  }

  lemma {:induction false} UnpackedWord(e: nat)
    ensures e == e / 0x1000 * 0x1000 + e % 0x1000 && e % 0x1000 < 0x1000
  {
  }

  lemma {:induction false} Bit7OfWord(q: nat, low: nat)
    ensures (q * 0x1000 + low) / 0x80 % 2 == low / 0x80 % 2
  {
    QuotientShift(32 * q, low, 0x80);
    EvenShift(16 * q, low / 0x80);
  }

  lemma {:induction false} Bit2OfWord(q: nat, low: nat)
    ensures (q * 0x1000 + low) / 4 % 2 == low / 4 % 2
  {
    QuotientShift(1024 * q, low, 4);
    EvenShift(512 * q, low / 4);
  }

  lemma {:induction false} LowBits(e: nat)
    requires Present(e) && LargeBit(e)
    ensures 0 <= e % 0x1000 - 0x80 < 0x1000 && (e % 0x1000 - 0x80) % 2 == 1
  {
    var q, low := e / 0x1000, e % 0x1000;
    UnpackedWord(e);
    PackedWord(q, low);
    Bit7OfWord(q, low);
    assert low / 0x80 % 2 == 1 && low % 2 == 1;
  }

  lemma {:induction false} SplitWord(q: nat, j: nat, low: nat)
    requires low < 0x1000
    ensures var x := q * 0x20_0000 + j * 0x1000 + low;
            x / 0x1000 == q * 512 + j && x % 0x1000 == low && x % 2 == low % 2
  {
    var x := q * 0x20_0000 + j * 0x1000 + low;
    assert x == 0x1000 * (q * 512 + j) + low;
  }

  lemma {:induction false} PageInLarge(v: nat)
    ensures v % 0x20_0000 == v / 0x1000 % 512 * 0x1000 + v % 0x1000
  {
    var a := v / 0x1000;
    assert v == 0x1000 * a + v % 0x1000;
    assert a == 512 * (a / 512) + a % 512;
  }

  // ----- which bytes matter

  lemma {:induction false} EntryFrame(m: Mem, m': Mem, f: nat, i: nat)
    requires |m'| == |m| && i < 512
    requires InRam(m, f) ==> forall a :: 0x1000 * f <= a < 0x1000 * (f + 1) ==> m'[a] == m[a]
    ensures Entry(m', f, i) == Entry(m, f, i)
  {
    if InRam(m, f) {
      QuadFrame(m, m', 0x1000 * f + 8 * i);
    }
  }

  /** Storing one entry changes that entry and no byte outside its table. */
  lemma {:induction false} EntryStored(m: Mem, f: nat, i: nat, e: nat)
    requires InRam(m, f) && i < 512 && e < 0x1_0000_0000_0000_0000
    ensures var m' := Patch(m, 0x1000 * f + 8 * i, Le64(e));
            && (forall g: nat, j: nat :: j < 512 ==> Entry(m', g, j) == if g == f && j == i then e else Entry(m, g, j))
            && (forall a :: 0 <= a < |m| && a / 0x1000 != f ==> m'[a] == m[a])
  {
    var m' := Patch(m, 0x1000 * f + 8 * i, Le64(e));
    forall g: nat, j: nat | j < 512 ensures Entry(m', g, j) == if g == f && j == i then e else Entry(m, g, j) {
      if InRam(m, g) {
        PatchedQuad(m, 0x1000 * f + 8 * i, e, 0x1000 * g + 8 * j);
      }
    }
  }

  /** Bytes outside the tables do not matter to them. */
  lemma {:induction false} OutsideBytes(m: Mem, m': Mem, own: Tables)
    requires |m'| == |m| && forall a :: 0 <= a < |m| && a / 0x1000 in own ==> m'[a] == m[a]
    ensures SameEntries(m, m', own)
  {
    forall g, j | g in own && 0 <= j < 512 ensures Entry(m', g, j) == Entry(m, g, j) {
      EntryFrame(m, m', g, j);
    }
  }

  lemma {:induction false} SameEntriesTree(m: Mem, m': Mem, own: Tables, root: nat)
    requires Tree(m, own, root) && SameEntries(m, m', own)
    ensures Tree(m', own, root)
    ensures forall v: nat :: v < Span(4) ==> Lookup(m', root, 3, v) == Lookup(m, root, 3, v)
  {
    forall f, i | f in own && 0 <= i < 512 ensures LinkOk(m', own, f, i) {
      assert LinkOk(m, own, f, i);
    }
    forall v: nat | v < Span(4) ensures Lookup(m', root, 3, v) == Lookup(m, root, 3, v) {
      RootServes(own, root, v);
      SameEntriesPhys(m, m', own, root, root, 3, v);
    }
  }

  lemma {:induction false} SameEntriesPhys(m: Mem, m': Mem, own: Tables, root: nat, t: nat, l: nat, v: nat)
    requires Tree(m, own, root) && SameEntries(m, m', own) && l <= 3 && IsTable(own, t, l, v / Span(l + 1))
    ensures Lookup(m', t, l, v) == Lookup(m, t, l, v) && LeafTable(m', t, l, v) == LeafTable(m, t, l, v)
    decreases l
  {
    if l > 0 {
      WalkDown(m, own, root, t, l, v);
      var e := Entry(m, t, Idx(v, l));
      if Present(e) && !Large(l, e) {
        SameEntriesPhys(m, m', own, root, FrameOf(e), l - 1, v);
      }
    }
  }

  // ----- the upper tables of a low address

  lemma {:induction false} EntryBound(m: Mem, f: nat, i: nat)
    requires i < 512
    ensures Entry(m, f, i) < 0x1_0000_0000_0000_0000
  {
  }

  /** Below 2^39 the walk goes through entry 0 of the root; what it finds at levels 2 and 1. */
  lemma {:induction false} UpperTables(m: Mem, own: Tables, root: nat, v: nat)
    requires Tree(m, own, root) && v < Span(3) && Present(Entry(m, root, 0))
    ensures v < Span(4) && Idx(v, 3) == 0
    ensures IsTable(own, FrameOf(Entry(m, root, 0)), 2, v / Span(3))
    ensures LargeAt(m, root, 3, v) ==> Missing(m, root, 3, v) == 1
    ensures var e2 := Entry(m, FrameOf(Entry(m, root, 0)), Idx(v, 2));
            if !Present(e2) then !LargeAt(m, root, 3, v) && Missing(m, root, 3, v) == 2
            else
              && IsTable(own, FrameOf(e2), 1, v / Span(2))
              && var e := Entry(m, FrameOf(e2), Idx(v, 1));
                 && (LargeAt(m, root, 3, v) <==> Present(e) && LargeBit(e))
                 && LeafTable(m, root, 3, v) == LeafTable(m, FrameOf(e2), 1, v)
                 && (!LargeAt(m, root, 3, v) ==> Missing(m, root, 3, v) == if Present(e) then 0 else 1)
  {
    RootServes(own, root, v);
    WalkDown(m, own, root, root, 3, v);
    var pdpt := FrameOf(Entry(m, root, 0));
    WalkDown(m, own, root, pdpt, 2, v);
    assert LargeAt(m, root, 3, v) == LargeAt(m, pdpt, 2, v);
    assert LeafTable(m, root, 3, v) == LeafTable(m, pdpt, 2, v);
    assert Missing(m, root, 3, v) == Missing(m, pdpt, 2, v);
  }

  /** Every address leads to the same place with the same flags. */
  ghost predicate SameMap(m: Mem, m': Mem, root: nat) {
    forall v: nat :: v < Span(4) ==> Lookup(m', root, 3, v) == Lookup(m, root, 3, v)
  }

  lemma {:induction false} SameMapTrans(m: Mem, m': Mem, m'': Mem, root: nat)
    requires SameMap(m, m', root) && SameMap(m', m'', root)
    ensures SameMap(m, m'', root)
  {
    forall v: nat | v < Span(4) ensures Lookup(m'', root, 3, v) == Lookup(m, root, 3, v) {
      assert Lookup(m', root, 3, v) == Lookup(m, root, 3, v);
    }
  }

  /** Hanging the table of small pages where the large page was moves no address. */
  lemma {:induction false} SplitKeeps(m: Mem, m': Mem, own: Tables, root: nat, pd: nat, i: nat, t: nat)
    requires Tree(m, own, root) && Hung(m, m', own, pd, i, t) && own[pd].level == 1
    requires var e := Entry(m, pd, i);
             && Present(e) && LargeBit(e)
             && forall j :: 0 <= j < 512 ==>
                  Entry(m', t, j) == e / 0x20_0000 * 0x20_0000 + j * 0x1000 + (e % 0x1000 - 0x80)
    ensures Tree(m', WithTable(own, pd, i, t), root) && SameMap(m, m', root)
  {
    hide Span, Entry, LinkOk, SmallPage, FrameOf, LargeBit;
    HungTree(m, m', own, root, pd, i, t);
    forall v: nat | v < Span(4) ensures Lookup(m', root, 3, v) == Lookup(m, root, 3, v) {
      RootServes(own, root, v);
      if v / Span(1) == own[pd].pos * 512 + i {
        IdxPosition(v, 1);
        assert Idx(v, 1) == i;
        SplitTable(m', t, Entry(m, pd, i), v, m, pd);
      }
      HungPhys(m, m', own, root, pd, i, t, root, 3, v);
    }
  }

  /** Hanging a table of zeros where nothing was moves no address. */
  lemma {:induction false} CreateKeeps(m: Mem, m': Mem, own: Tables, root: nat, f: nat, i: nat, t: nat)
    requires Tree(m, own, root) && Hung(m, m', own, f, i, t)
    requires !Present(Entry(m, f, i)) && forall j :: 0 <= j < 512 ==> Entry(m', t, j) == 0
    ensures Tree(m', WithTable(own, f, i, t), root) && SameMap(m, m', root)
  {
    hide Span, Entry, LinkOk, SmallPage, FrameOf;
    HungTree(m, m', own, root, f, i, t);
    forall v: nat | v < Span(4) ensures Lookup(m', root, 3, v) == Lookup(m, root, 3, v) {
      RootServes(own, root, v);
      if v / Span(own[f].level) == own[f].pos * 512 + i {
        IdxPosition(v, own[f].level);
        BlankTable(m', t, own[f].level - 1, v);
        assert Idx(v, own[f].level) == i;
      }
      HungPhys(m, m', own, root, f, i, t, root, 3, v);
    }
  }

  // ----- how far a walk has come

  /** The table the walk to `v` stands on when it has come down to level `k`. */
  function TableAt(m: Mem, t: nat, l: nat, v: nat, k: nat): (r: Option<nat>)
    requires k <= l <= 3
    decreases l
  {
    if l == k then Some(t)
    else
      var e := Entry(m, t, Idx(v, l));
      if !Present(e) || Large(l, e) then None else TableAt(m, FrameOf(e), l - 1, v, k)
  }

  lemma {:induction false} TableAtStep(m: Mem, t: nat, l: nat, v: nat, k: nat)
    requires 1 <= k <= l <= 3 && TableAt(m, t, l, v, k).Some?
    ensures var e := Entry(m, TableAt(m, t, l, v, k).value, Idx(v, k));
            TableAt(m, t, l, v, k - 1) == if !Present(e) || Large(k, e) then None else Some(FrameOf(e))
    decreases l
  {
    if l > k {
      TableAtStep(m, FrameOf(Entry(m, t, Idx(v, l))), l - 1, v, k);
    }
  }

  /** From there on the rest of the walk is all that counts. */
  lemma {:induction false} TableAtRest(m: Mem, t: nat, l: nat, v: nat, k: nat)
    requires k <= l <= 3 && TableAt(m, t, l, v, k).Some?
    ensures var t' := TableAt(m, t, l, v, k).value;
            && LeafTable(m, t, l, v) == LeafTable(m, t', k, v) && LargeAt(m, t, l, v) == LargeAt(m, t', k, v)
            && Missing(m, t, l, v) == Missing(m, t', k, v) && Lookup(m, t, l, v) == Lookup(m, t', k, v)
    decreases l
  {
    if l > k {
      TableAtRest(m, FrameOf(Entry(m, t, Idx(v, l))), l - 1, v, k);
    }
  }

  /** Entries at level `k` are not read on the way to level `k`. */
  lemma {:induction false} TableAtKept(m: Mem, m': Mem, own: Tables, root: nat, f: nat, i: nat, t: nat, l: nat, v: nat,
                                       k: nat)
    requires Tree(m, own, root) && f in own && own[f].level == k && i < 512 && SameEntriesBut(m, m', own, f, i)
    requires k <= l <= 3 && IsTable(own, t, l, v / Span(l + 1))
    ensures TableAt(m', t, l, v, k) == TableAt(m, t, l, v, k)
    decreases l
  {
    if l > k {
      WalkDown(m, own, root, t, l, v);
      var e := Entry(m, t, Idx(v, l));
      if Present(e) && !Large(l, e) {
        TableAtKept(m, m', own, root, f, i, FrameOf(e), l - 1, v, k);
      }
    }
  }

  /** One round of a creating walk: a table of zeros was hung where the walk stood. */
  lemma {:induction false} CreateStep(m: Mem, m': Mem, own: Tables, root: nat, f: nat, l: nat, t: nat, v: nat)
    requires Tree(m, own, root) && v < Span(4) && 1 <= l <= 3 && IsTable(own, f, l, v / Span(l + 1))
    requires Hung(m, m', own, f, Idx(v, l), t) && TableAt(m, root, 3, v, l) == Some(f)
    requires !Present(Entry(m, f, Idx(v, l))) && forall j :: 0 <= j < 512 ==> Entry(m', t, j) == 0
    ensures Tree(m', WithTable(own, f, Idx(v, l), t), root) && SameMap(m, m', root)
    ensures TableAt(m', root, 3, v, l - 1) == Some(t) && IsTable(WithTable(own, f, Idx(v, l), t), t, l - 1, v / Span(l))
    ensures !LargeAt(m', t, l - 1, v) && Missing(m', t, l - 1, v) == l - 1 && Missing(m, f, l, v) == l
  {
    CreateKeeps(m, m', own, root, f, Idx(v, l), t);
    RootServes(own, root, v);
    TableAtKept(m, m', own, root, f, Idx(v, l), root, 3, v, l);
    TableAtStep(m', root, 3, v, l);
    IdxPosition(v, l);
  }

  // ----- which stretches have a level-0 table

  /** Outside the 2 MB stretch of `virt` the same addresses have the same level-0 table, or none. */
  ghost predicate LeavesBut(m: Mem, m': Mem, root: nat, virt: nat) {
    forall v: nat :: v < Span(4) && v / Span(1) != virt / Span(1) ==>
      LeafTable(m', root, 3, v) == LeafTable(m, root, 3, v)
  }

  lemma {:induction false} LeavesRefl(m: Mem, root: nat, virt: nat)
    ensures LeavesBut(m, m, root, virt)
  {
  }

  lemma {:induction false} LeavesTrans(m: Mem, m': Mem, m'': Mem, root: nat, virt: nat)
    requires LeavesBut(m, m', root, virt) && LeavesBut(m', m'', root, virt)
    ensures LeavesBut(m, m'', root, virt)
  {
    hide LeafTable, Span;
    forall v: nat | v < Span(4) && v / Span(1) != virt / Span(1)
      ensures LeafTable(m'', root, 3, v) == LeafTable(m, root, 3, v)
    {
      assert LeafTable(m', root, 3, v) == LeafTable(m, root, 3, v);
    }
  }

  lemma {:induction false} LeavesLater(m: Mem, m': Mem, m'': Mem, root: nat, virt: nat)
    requires LeavesBut(m, m', root, virt)
    requires forall v: nat :: v < Span(4) ==> LeafTable(m'', root, 3, v) == LeafTable(m', root, 3, v)
    ensures LeavesBut(m, m'', root, virt)
  {
    hide LeafTable, Span;
  }

  lemma {:induction false} HungLeaf(m: Mem, m': Mem, own: Tables, root: nat, f: nat, i: nat, t: nat, g: nat, l: nat,
                                    v: nat)
    requires Tree(m, own, root) && Hung(m, m', own, f, i, t)
    requires l <= 3 && IsTable(own, g, l, v / Span(l + 1))
    requires v / Span(own[f].level) == own[f].pos * 512 + i ==>
               LeafTable(m', t, own[f].level - 1, v) == LeafTable(m, f, own[f].level, v)
    ensures LeafTable(m', g, l, v) == LeafTable(m, g, l, v)
    decreases l
  {
    hide Entry, Span, LinkOk, FrameOf, LargeBit;
    IdxPosition(v, l);
    if l > 0 && (g != f || Idx(v, l) != i) {
      var e := Entry(m, g, Idx(v, l));
      assert Entry(m', g, Idx(v, l)) == e;
      if Present(e) && !Large(l, e) {
        WalkDown(m, own, root, g, l, v);
        HungLeaf(m, m', own, root, f, i, t, FrameOf(e), l - 1, v);
      }
    }
  }

  /** A new table gives level-0 tables to no stretch but the one it was hung for. */
  lemma {:induction false} HungLeaves(m: Mem, m': Mem, own: Tables, root: nat, f: nat, i: nat, t: nat, virt: nat)
    requires Tree(m, own, root) && Hung(m, m', own, f, i, t) && virt / Span(own[f].level) == own[f].pos * 512 + i
    requires own[f].level == 1
             || (!Present(Entry(m, f, i)) && forall j :: 0 <= j < 512 ==> Entry(m', t, j) == 0)
    ensures LeavesBut(m, m', root, virt)
  {
    hide Span, Entry, LinkOk, FrameOf, Hung, Tree, LeafTable;
    HungPlace(m, m', own, f, i, t);
    TableRoot(m, own, root);
    forall v: nat | v < Span(4) && v / Span(1) != virt / Span(1)
      ensures LeafTable(m', root, 3, v) == LeafTable(m, root, 3, v)
    {
      RootServes(own, root, v);
      if v / Span(own[f].level) == own[f].pos * 512 + i && own[f].level > 1 {
        BlankHung(m, m', own, f, i, t, v);
      }
      HungLeaf(m, m', own, root, f, i, t, root, 3, v);
    }
  }

  lemma {:induction false} TableRoot(m: Mem, own: Tables, root: nat)
    requires Tree(m, own, root)
    ensures IsTable(own, root, 3, 0) && forall f :: f in own ==> own[f].level <= 3
  {
  }

  lemma {:induction false} HungPlace(m: Mem, m': Mem, own: Tables, f: nat, i: nat, t: nat)
    requires Hung(m, m', own, f, i, t)
    ensures f in own && own[f].level > 0 && i < 512
  {
  }

  /** Where nothing was, a table of zeros leads to no level-0 table. */
  lemma {:induction false} BlankHung(m: Mem, m': Mem, own: Tables, f: nat, i: nat, t: nat, v: nat)
    requires f in own && 1 < own[f].level <= 3 && i < 512 && v / Span(own[f].level) == own[f].pos * 512 + i
    requires !Present(Entry(m, f, i)) && forall j :: 0 <= j < 512 ==> Entry(m', t, j) == 0
    ensures LeafTable(m', t, own[f].level - 1, v) == LeafTable(m, f, own[f].level, v)
  {
    hide Span, Entry, FrameOf;
    BlankTable(m', t, own[f].level - 1, v);
    assert Idx(v, own[f].level) == i;
  }

  // ----- one page

  lemma {:induction false} SamePageSpans(v: nat, w: nat, l: nat)
    requires l <= 3 && v / Span(0) == w / Span(0)
    ensures v / Span(l) == w / Span(l) && Idx(v, l) == Idx(w, l)
    decreases l
  {
    if l > 0 {
      SamePageSpans(v, w, l - 1);
      IdxPosition(v, l - 1);
      IdxPosition(w, l - 1);
    }
  }

  lemma {:induction false} SamePageWalk(m: Mem, t: nat, l: nat, v: nat, w: nat)
    requires l <= 3 && v / Span(0) == w / Span(0)
    ensures LeafTable(m, t, l, v) == LeafTable(m, t, l, w)
    decreases l
  {
    SamePageSpans(v, w, l);
    if l > 0 {
      SamePageWalk(m, FrameOf(Entry(m, t, Idx(v, l))), l - 1, v, w);
    }
  }

  /** What a level-0 entry says about an address of its page. */
  function LeafPage(e: nat, v: nat): (r: Option<Page>) {
    if Present(e) then Some(SmallPage(e, v)) else None
  }

  /** `m'` differs from `m` in what it says about the page of `virt`, which now follows from `e`. */
  ghost predicate OnePage(m: Mem, m': Mem, root: nat, virt: nat, e: nat) {
    forall v: nat :: v < Span(4) ==>
      Lookup(m', root, 3, v) == if v / 0x1000 == virt / 0x1000 then LeafPage(e, v) else Lookup(m, root, 3, v)
  }

  /** Storing a leaf entry changes one page of the map and nothing else. */
  lemma {:induction false} LeafMapped(m: Mem, m': Mem, own: Tables, root: nat, f: nat, virt: nat, e: nat)
    requires Tree(m, own, root) && virt < Span(4) && LeafTable(m, root, 3, virt) == Some(f)
    requires SameEntriesBut(m, m', own, f, Idx(virt, 0)) && Entry(m', f, Idx(virt, 0)) == e
    ensures Tree(m', own, root) && OnePage(m, m', root, virt, e) && LeafTable(m', root, 3, virt) == Some(f)
    ensures forall v: nat :: v < Span(4) ==> LeafTable(m', root, 3, v) == LeafTable(m, root, 3, v)
  {
    hide Entry, LinkOk;
    RootServes(own, root, virt);
    LeafTableRole(m, own, root, root, 3, virt);
    IdxPosition(virt, 0);
    LeafStored(m, m', own, root, f, Idx(virt, 0));
    forall v: nat | v < Span(4) ensures LeafTable(m', root, 3, v) == LeafTable(m, root, 3, v) {
      RootServes(own, root, v);
      LeafTableKept(m, m', own, root, f, Idx(virt, 0), root, 3, v);
    }
    forall v: nat | v < Span(4) && v / 0x1000 == virt / 0x1000 ensures Lookup(m', root, 3, v) == LeafPage(e, v) {
      SamePageWalk(m', root, 3, v, virt);
      SamePageSpans(v, virt, 0);
      RootServes(own, root, v);
      LeafTableRole(m', own, root, root, 3, v);
    }
  }

  /** What the level-0 table says now is what the lookup says. */
  lemma {:induction false} LeafLookup(m: Mem, own: Tables, root: nat, v: nat)
    requires Tree(m, own, root) && v < Span(4) && LeafTable(m, root, 3, v).Some?
    ensures Lookup(m, root, 3, v) == LeafPage(Entry(m, LeafTable(m, root, 3, v).value, Idx(v, 0)), v)
  {
    RootServes(own, root, v);
    LeafTableRole(m, own, root, root, 3, v);
  }

  lemma {:induction false} NoneMissing(m: Mem, t: nat, l: nat, v: nat)
    requires l <= 3 && LeafTable(m, t, l, v).Some?
    ensures Missing(m, t, l, v) == 0 && !LargeAt(m, t, l, v)
    decreases l
  {
    if l > 0 { NoneMissing(m, FrameOf(Entry(m, t, Idx(v, l))), l - 1, v); }
  }

  lemma {:induction false} InTree(m: Mem, own: Tables, root: nat, f: nat)
    requires Tree(m, own, root) && f in own
    ensures InRam(m, f) && (own[f].level != 3 ==> f != root)
  {
  }

  lemma {:induction false} OnePageAfter(m: Mem, m': Mem, m'': Mem, root: nat, virt: nat, e: nat)
    requires SameMap(m, m', root) && OnePage(m', m'', root, virt, e)
    ensures OnePage(m, m'', root, virt, e)
  {
    forall v: nat | v < Span(4)
      ensures Lookup(m'', root, 3, v) == if v / 0x1000 == virt / 0x1000 then LeafPage(e, v) else Lookup(m, root, 3, v)
    {
      assert Lookup(m', root, 3, v) == Lookup(m, root, 3, v);
    }
  }

  // ----- ranges of pages

  /** Page `v / 0x1000` lies in pages `a` to `b`. */
  predicate InPages(v: nat, a: nat, b: nat) { a <= v / 0x1000 < b }

  /** The frame a small page leads to. */
  function SmallFrame(m: Mem, root: nat, page: nat): (r: Option<nat>) {
    match LeafTable(m, root, 3, page * 0x1000)
    case None => None
    case Some(t) =>
      var e := Entry(m, t, Idx(page * 0x1000, 0));
      if Present(e) then Some(FrameOf(e)) else None
  }

  /** Some small page among `a` to `b` leads to frame `f`. */
  ghost predicate ReachedFrom(m: Mem, root: nat, a: nat, b: nat, f: nat) {
    exists page: nat :: a <= page < b && SmallFrame(m, root, page) == Some(f)
  }

  lemma {:induction false} ReachedStep(m: Mem, root: nat, a: nat, b: nat, f: nat)
    requires a <= b
    ensures ReachedFrom(m, root, a, b + 1, f) <==> ReachedFrom(m, root, a, b, f) || SmallFrame(m, root, b) == Some(f)
  {
    if ReachedFrom(m, root, a, b, f) {
      var page: nat :| a <= page < b && SmallFrame(m, root, page) == Some(f);
      assert a <= page < b + 1;
    }
    if SmallFrame(m, root, b) == Some(f) {
      assert a <= b < b + 1;
    }
  }

  /** The small pages among `a` to `b` are gone; everything else is as it was. */
  ghost predicate Unmapped(m: Mem, m': Mem, root: nat, a: nat, b: nat) {
    forall v: nat :: v < Span(4) ==>
      && LeafTable(m', root, 3, v) == LeafTable(m, root, 3, v)
      && Lookup(m', root, 3, v) ==
         if InPages(v, a, b) && LeafTable(m, root, 3, v).Some? then None else Lookup(m, root, 3, v)
  }

  /** An address of a mapped page has a level-0 table unless the page is large. */
  lemma {:induction false} SmallOrLarge(m: Mem, t: nat, l: nat, v: nat)
    requires l <= 3 && Lookup(m, t, l, v).Some?
    ensures LeafTable(m, t, l, v).Some? <==> !LargeAt(m, t, l, v)
    decreases l
  {
    if l > 0 {
      var e := Entry(m, t, Idx(v, l));
      if !Large(l, e) { SmallOrLarge(m, FrameOf(e), l - 1, v); }
    }
  }

  lemma {:induction false} LeafSays(m: Mem, t: nat, l: nat, v: nat)
    requires l <= 3 && LeafTable(m, t, l, v).Some?
    ensures Lookup(m, t, l, v) == LeafPage(Entry(m, LeafTable(m, t, l, v).value, Idx(v, 0)), v)
    decreases l
  {
    if l > 0 { LeafSays(m, FrameOf(Entry(m, t, Idx(v, l))), l - 1, v); }
  }

  /** The frame that unmapping a page gives back is the one its addresses lead into. */
  lemma {:induction false} SmallFrameMeans(m: Mem, root: nat, page: nat)
    ensures var r := Lookup(m, root, 3, page * 0x1000);
            SmallFrame(m, root, page) ==
            if r.Some? && !LargeAt(m, root, 3, page * 0x1000) then Some(r.value.phys / 0x1000) else None
  {
    hide Lookup, LeafTable, LargeAt, Entry;
    var v := page * 0x1000;
    if LeafTable(m, root, 3, v).Some? { LeafSays(m, root, 3, v); }
    if Lookup(m, root, 3, v).Some? { SmallOrLarge(m, root, 3, v); }
  }

  /** After an unmapping nothing in the range is mapped but by large pages; all the rest leads where it led. */
  lemma {:induction false} UnmappedMeans(m: Mem, m': Mem, root: nat, a: nat, b: nat, v: nat)
    requires Unmapped(m, m', root, a, b) && v < 0x1_0000_0000_0000
    ensures a <= v / 0x1000 < b && !LargeAt(m, root, 3, v) ==> Lookup(m', root, 3, v) == None
    ensures !(a <= v / 0x1000 < b) || LargeAt(m, root, 3, v) ==> Lookup(m', root, 3, v) == Lookup(m, root, 3, v)
  {
    hide Lookup, LeafTable, LargeAt;
    assert v < Span(4);
    if Lookup(m, root, 3, v).Some? { SmallOrLarge(m, root, 3, v); }
    if LargeAt(m, root, 3, v) { LargeIsMapped(m, root, 3, v); }
  }

  lemma {:induction false} LargeIsMapped(m: Mem, t: nat, l: nat, v: nat)
    requires l <= 3 && LargeAt(m, t, l, v)
    ensures Lookup(m, t, l, v).Some?
    decreases l
  {
    var e := Entry(m, t, Idx(v, l));
    if !Large(l, e) { LargeIsMapped(m, FrameOf(e), l - 1, v); }
  }

  /** Clearing the leaf of the next page. */
  lemma {:induction false} UnmapStep(m: Mem, m1: Mem, m2: Mem, own: Tables, root: nat, a: nat, b: nat, t: nat)
    requires Unmapped(m, m1, root, a, b) && a <= b && Tree(m1, own, root) && b * 0x1000 < Span(4)
    requires LeafTable(m1, root, 3, b * 0x1000) == Some(t)
    requires SameEntriesBut(m1, m2, own, t, Idx(b * 0x1000, 0)) && !Present(Entry(m2, t, Idx(b * 0x1000, 0)))
    ensures Unmapped(m, m2, root, a, b + 1) && Tree(m2, own, root)
  {
    hide Entry, Span, SmallPage;
    var virt := b * 0x1000;
    LeafMapped(m1, m2, own, root, t, virt, Entry(m2, t, Idx(virt, 0)));
    assert virt / 0x1000 == b;
    forall v: nat | v < Span(4)
      ensures LeafTable(m2, root, 3, v) == LeafTable(m, root, 3, v)
      ensures Lookup(m2, root, 3, v) ==
              if InPages(v, a, b + 1) && LeafTable(m, root, 3, v).Some? then None else Lookup(m, root, 3, v)
    {
      assert LeafTable(m1, root, 3, v) == LeafTable(m, root, 3, v);
      if v / 0x1000 == b { PageServed(m1, root, v, virt); }
    }
  }

  lemma {:induction false} PageServed(m: Mem, root: nat, v: nat, w: nat)
    requires v / 0x1000 == w / 0x1000
    ensures LeafTable(m, root, 3, v) == LeafTable(m, root, 3, w) && Idx(v, 0) == Idx(w, 0)
  {
    SamePageWalk(m, root, 3, v, w);
    SamePageSpans(v, w, 0);
  }

  /** A page with no level-0 table, or with an empty entry there, needs no clearing. */
  lemma {:induction false} UnmapNothing(m: Mem, m1: Mem, own: Tables, root: nat, a: nat, b: nat)
    requires Unmapped(m, m1, root, a, b) && a <= b && Tree(m1, own, root) && b * 0x1000 < Span(4)
    requires match LeafTable(m1, root, 3, b * 0x1000)
             case None => true
             case Some(t) => !Present(Entry(m1, t, Idx(b * 0x1000, 0)))
    ensures Unmapped(m, m1, root, a, b + 1)
  {
    hide Entry, Span, SmallPage;
    var virt := b * 0x1000;
    assert virt / 0x1000 == b;
    forall v: nat | v < Span(4)
      ensures LeafTable(m1, root, 3, v) == LeafTable(m, root, 3, v)
      ensures Lookup(m1, root, 3, v) ==
              if InPages(v, a, b + 1) && LeafTable(m, root, 3, v).Some? then None else Lookup(m, root, 3, v)
    {
      assert LeafTable(m1, root, 3, v) == LeafTable(m, root, 3, v);
      if v / 0x1000 == b {
        PageServed(m1, root, v, virt);
        if LeafTable(m1, root, 3, v).Some? { LeafLookup(m1, own, root, v); }
      }
    }
  }

  /** Entries the loop has not come to yet say what they said at the start. */
  lemma {:induction false} UnmapAhead(m: Mem, m1: Mem, own: Tables, own0: Tables, root: nat, a: nat, b: nat)
    requires Unmapped(m, m1, root, a, b) && Tree(m1, own, root) && Tree(m, own0, root) && a <= b && b * 0x1000 < Span(4)
    ensures SmallFrame(m1, root, b) == SmallFrame(m, root, b)
  {
    hide Entry, Span;
    var virt := b * 0x1000;
    assert virt / 0x1000 == b;
    assert Lookup(m1, root, 3, virt) == Lookup(m, root, 3, virt)
           && LeafTable(m1, root, 3, virt) == LeafTable(m, root, 3, virt);
    if LeafTable(m, root, 3, virt).Some? {
      LeafLookup(m, own0, root, virt);
      LeafLookup(m1, own, root, virt);
    }
  }

  // ----- the user bit

  function WithUser(flags: nat): (r: nat) { if flags / 4 % 2 == 1 then flags else flags + 4 }

  function UserPage(r: Option<Page>): (p: Option<Page>) {
    match r
    case None => None
    case Some(p) => Some(Page(p.phys, WithUser(p.flags)))
  }

  /** The pages `a` to `b` carry the user bit, and nothing else has changed. */
  ghost predicate UserSet(m: Mem, m': Mem, root: nat, a: nat, b: nat) {
    forall v: nat :: v < Span(4) ==>
      Lookup(m', root, 3, v) == if InPages(v, a, b) then UserPage(Lookup(m, root, 3, v)) else Lookup(m, root, 3, v)
  }

  /** In pages `a` to `b` bit 2 of the flags is set; every other flag, every other page and every address stays. */
  ghost predicate OpenToUser(m: Mem, m': Mem, root: nat, a: nat, b: nat) {
    forall v: nat :: v < Span(4) ==>
      match Lookup(m, root, 3, v)
      case None => Lookup(m', root, 3, v) == None
      case Some(p) =>
        var r := Lookup(m', root, 3, v);
        && r.Some? && r.value.phys == p.phys
        && r.value.flags % 4 == p.flags % 4 && r.value.flags / 8 == p.flags / 8
        && r.value.flags / 4 % 2 == if a <= v / 0x1000 < b then 1 else p.flags / 4 % 2
  }

  lemma {:induction false} UserSetOpens(m: Mem, m': Mem, root: nat, a: nat, b: nat)
    requires UserSet(m, m', root, a, b)
    ensures OpenToUser(m, m', root, a, b)
  {
    hide Lookup, Span;
    forall v: nat | v < Span(4) && Lookup(m, root, 3, v).Some?
      ensures var p, r := Lookup(m, root, 3, v).value, Lookup(m', root, 3, v);
              && r.Some? && r.value.phys == p.phys
              && r.value.flags % 4 == p.flags % 4 && r.value.flags / 8 == p.flags / 8
              && r.value.flags / 4 % 2 == if a <= v / 0x1000 < b then 1 else p.flags / 4 % 2
    {
      assert Lookup(m', root, 3, v) ==
             if InPages(v, a, b) then UserPage(Lookup(m, root, 3, v)) else Lookup(m, root, 3, v);
      BitTwo(Lookup(m, root, 3, v).value.flags);
    }
  }

  lemma {:induction false} BitTwo(x: nat)
    ensures var y := WithUser(x); y % 4 == x % 4 && y / 8 == x / 8 && y / 4 % 2 == 1
  {
    if x / 4 % 2 == 0 {
      var q, r := x / 8, x % 4;
      assert x / 4 == 2 * q && x == 8 * q + r && x + 4 == 8 * q + (4 + r);
    }
  }

  lemma {:induction false} UserLow(low: nat)
    requires low < 0x1000
    ensures WithUser(low) < 0x1000 && WithUser(low) % 2 == low % 2
  {
    if low / 4 % 2 == 0 { assert low / 4 <= 1022; }
  }

  /** Setting the bit in a leaf word keeps its frame. */
  lemma {:induction false} UserWord(e: nat, v: nat)
    requires Present(e)
    ensures LeafPage(WithUser(e), v) == UserPage(LeafPage(e, v))
    ensures e < 0x1_0000_0000_0000_0000 ==> WithUser(e) < 0x1_0000_0000_0000_0000
  {
    hide Idx;
    var x, low := e / 0x1000, e % 0x1000;
    UnpackedWord(e);
    PackedWord(x, low);
    Bit2OfWord(x, low);
    UserLow(low);
    assert WithUser(e) == x * 0x1000 + WithUser(low);
    PackedWord(x, WithUser(low));
  }

  lemma {:induction false} UserStep(m: Mem, m1: Mem, m2: Mem, root: nat, a: nat, b: nat, e: nat)
    requires UserSet(m, m1, root, a, b) && a <= b && b * 0x1000 < Span(4) && Present(e)
    requires OnePage(m1, m2, root, b * 0x1000, WithUser(e))
    requires forall v: nat :: v < Span(4) && v / 0x1000 == b ==> Lookup(m1, root, 3, v) == LeafPage(e, v)
    ensures UserSet(m, m2, root, a, b + 1)
  {
    hide Span, Lookup, LeafPage, UserPage, WithUser, Present;
    assert b * 0x1000 / 0x1000 == b;
    forall v: nat | v < Span(4)
      ensures Lookup(m2, root, 3, v) ==
              if InPages(v, a, b + 1) then UserPage(Lookup(m, root, 3, v)) else Lookup(m, root, 3, v)
    {
      assert Lookup(m1, root, 3, v) ==
             if InPages(v, a, b) then UserPage(Lookup(m, root, 3, v)) else Lookup(m, root, 3, v);
      if v / 0x1000 == b { UserWord(e, v); }
    }
  }

  lemma {:induction false} UserNothing(m: Mem, m1: Mem, root: nat, a: nat, b: nat)
    requires UserSet(m, m1, root, a, b) && a <= b
    requires forall v: nat :: v < Span(4) && v / 0x1000 == b ==> Lookup(m1, root, 3, v) == None
    ensures UserSet(m, m1, root, a, b + 1)
  {
    hide Span, Lookup;
    forall v: nat | v < Span(4)
      ensures Lookup(m1, root, 3, v) ==
              if InPages(v, a, b + 1) then UserPage(Lookup(m, root, 3, v)) else Lookup(m, root, 3, v)
    {
      assert Lookup(m1, root, 3, v) ==
             if InPages(v, a, b) then UserPage(Lookup(m, root, 3, v)) else Lookup(m, root, 3, v);
    }
  }

  /** Where tables are missing and no large page is in the way, nothing is mapped. */
  lemma {:induction false} MissingMapsNothing(m: Mem, t: nat, l: nat, v: nat)
    requires l <= 3 && !LargeAt(m, t, l, v) && Missing(m, t, l, v) > 0
    ensures Lookup(m, t, l, v) == None
    decreases l
  {
    var e := Entry(m, t, Idx(v, l));
    if Present(e) { MissingMapsNothing(m, FrameOf(e), l - 1, v); }
  }

  lemma {:induction false} SamePageLookup(m: Mem, t: nat, l: nat, v: nat, w: nat)
    requires l <= 3 && v / Span(0) == w / Span(0)
    ensures LargeAt(m, t, l, v) == LargeAt(m, t, l, w) && Missing(m, t, l, v) == Missing(m, t, l, w)
    decreases l
  {
    SamePageSpans(v, w, l);
    if l > 0 { SamePageLookup(m, FrameOf(Entry(m, t, Idx(v, l))), l - 1, v, w); }
  }

  lemma {:induction false} UserSetAfter(m: Mem, m1: Mem, m2: Mem, root: nat, a: nat, b: nat)
    requires UserSet(m, m1, root, a, b) && SameMap(m1, m2, root)
    ensures UserSet(m, m2, root, a, b)
  {
    forall v: nat | v < Span(4)
      ensures Lookup(m2, root, 3, v) ==
              if InPages(v, a, b) then UserPage(Lookup(m, root, 3, v)) else Lookup(m, root, 3, v)
    {
      assert Lookup(m2, root, 3, v) == Lookup(m1, root, 3, v);
    }
  }

  /** Every address of a page is served by the entry that serves its first one. */
  lemma {:induction false} PageEntry(m: Mem, own: Tables, root: nat, t: nat, virt: nat)
    requires Tree(m, own, root) && virt < Span(4) && LeafTable(m, root, 3, virt) == Some(t)
    ensures forall v: nat :: v < Span(4) && v / 0x1000 == virt / 0x1000 ==>
              Lookup(m, root, 3, v) == LeafPage(Entry(m, t, Idx(virt, 0)), v)
  {
    forall v: nat | v < Span(4) && v / 0x1000 == virt / 0x1000
      ensures Lookup(m, root, 3, v) == LeafPage(Entry(m, t, Idx(virt, 0)), v)
    {
      PageServed(m, root, v, virt);
      LeafLookup(m, own, root, v);
    }
  }

  lemma {:induction false} PageMissing(m: Mem, root: nat, virt: nat)
    requires !LargeAt(m, root, 3, virt) && Missing(m, root, 3, virt) > 0
    ensures forall v: nat :: v < Span(4) && v / 0x1000 == virt / 0x1000 ==> Lookup(m, root, 3, v) == None
  {
    forall v: nat | v < Span(4) && v / 0x1000 == virt / 0x1000 ensures Lookup(m, root, 3, v) == None {
      SamePageLookup(m, root, 3, v, virt);
      MissingMapsNothing(m, root, 3, v);
    }
  }

  lemma {:induction false} PageEmpty(m: Mem, e: nat, root: nat, virt: nat)
    requires !Present(e)
    requires forall v: nat :: v < Span(4) && v / 0x1000 == virt / 0x1000 ==> Lookup(m, root, 3, v) == LeafPage(e, v)
    ensures forall v: nat :: v < Span(4) && v / 0x1000 == virt / 0x1000 ==> Lookup(m, root, 3, v) == None
  {
  }

  // ----- the user range without large pages

  /** No large page serves the addresses from 4 MB to 1 GB. */
  ghost predicate NoLargeUser(m: Mem, own: Tables) {
    forall f, i :: IsTable(own, f, 1, 0) && 2 <= i < 512 ==> !(Present(Entry(m, f, i)) && LargeBit(Entry(m, f, i)))
  }

  lemma {:induction false} NoLargeUserAt(m: Mem, own: Tables, root: nat, v: nat)
    requires Tree(m, own, root) && NoLargeUser(m, own) && 0x40_0000 <= v < 0x4000_0000
    ensures !LargeAt(m, root, 3, v)
  {
    hide Entry, LinkOk, LargeBit;
    RootServes(own, root, v);
    WalkDown(m, own, root, root, 3, v);
    var e3 := Entry(m, root, Idx(v, 3));
    if Present(e3) {
      WalkDown(m, own, root, FrameOf(e3), 2, v);
    }
  }

  lemma {:induction false} NoLargeHung(m: Mem, m': Mem, own: Tables, root: nat, f: nat, i: nat, t: nat)
    requires Tree(m, own, root) && Hung(m, m', own, f, i, t) && NoLargeUser(m, own)
    requires own[f].level == 1 || forall j :: 0 <= j < 512 ==> Entry(m', t, j) == 0
    ensures NoLargeUser(m', WithTable(own, f, i, t))
  {
    hide Entry, LargeBit, LinkOk;
    var own' := WithTable(own, f, i, t);
    forall g, j | IsTable(own', g, 1, 0) && 2 <= j < 512
      ensures !(Present(Entry(m', g, j)) && LargeBit(Entry(m', g, j)))
    {
      if g != t && !(g == f && j == i) {
        assert Entry(m', g, j) == Entry(m, g, j);
        assert IsTable(own, g, 1, 0);
      }
    }
  }

  lemma {:induction false} NoLargeLeaf(m: Mem, m': Mem, own: Tables, f: nat, i: nat)
    requires f in own && own[f].level == 0 && SameEntriesBut(m, m', own, f, i) && NoLargeUser(m, own)
    ensures NoLargeUser(m', own)
  {
    hide Entry;
    forall g, j | IsTable(own, g, 1, 0) && 2 <= j < 512
      ensures !(Present(Entry(m', g, j)) && LargeBit(Entry(m', g, j)))
    {
      assert Entry(m', g, j) == Entry(m, g, j);
    }
  }
}
