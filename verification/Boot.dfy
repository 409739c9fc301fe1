/** The tables the boot code lays down: the first four gigabytes, each address to itself. */
module Boot {
  import opened Arith
  import opened Bytes
  import opened PageTables

  /** One root, one table of four, and four tables of large pages in a row. */
  ghost predicate BootWords(m: Mem, root: nat, pdpt: nat, pd: nat) {
    && (forall i :: 0 <= i < 512 ==> Entry(m, root, i) == if i == 0 then pdpt * 0x1000 + 7 else 0)
    && (forall i :: 0 <= i < 512 ==> Entry(m, pdpt, i) == if i < 4 then (pd + i) * 0x1000 + 7 else 0)
    && (forall f, i :: pd <= f < pd + 4 && 0 <= i < 512 ==> Entry(m, f, i) == ((f - pd) * 512 + i) * 0x20_0000 + 0x83)
  }

  ghost function BootTables(root: nat, pdpt: nat, pd: nat): Tables {
    map[root := Role(3, 0), pdpt := Role(2, 0),
        pd := Role(1, 0), pd + 1 := Role(1, 1), pd + 2 := Role(1, 2), pd + 3 := Role(1, 3)]
  }

  lemma {:induction false} TableEntry(t: nat)
    ensures var e := t * 0x1000 + 7; Present(e) && !LargeBit(e) && FrameOf(e) == t && e % 8 == 7
  {
    PackedWord(t, 7);
    Bit7OfWord(t, 7);
  }

  lemma {:induction false} LargeEntry(q: nat)
    ensures var e := q * 0x20_0000 + 0x83;
            Present(e) && LargeBit(e) && e / 0x20_0000 * 0x20_0000 == q * 0x20_0000 && e % 0x1000 == 0x83
  {
    PackedWord(512 * q, 0x83);
    Bit7OfWord(512 * q, 0x83);
    QuotientUnique(q, 0x83, 0x20_0000);
  }

  /** What the boot code leaves is a tree of tables, and it maps every address below 4 GB to itself. */
  lemma {:induction false} BootIsIdentity(m: Mem, root: nat, pdpt: nat, pd: nat)
    requires BootWords(m, root, pdpt, pd) && InRam(m, root) && InRam(m, pdpt) && InRam(m, pd + 3)
    requires root != pdpt && !(pd <= root < pd + 4) && !(pd <= pdpt < pd + 4)
    ensures Tree(m, BootTables(root, pdpt, pd), root)
    ensures forall v: nat :: v < Span(4) ==>
              Lookup(m, root, 3, v) == if v < 0x1_0000_0000 then Some(Page(v, 3)) else None
  {
    var own := BootTables(root, pdpt, pd);
    forall f, i | f in own && 0 <= i < 512 ensures LinkOk(m, own, f, i) {
      BootLink(m, root, pdpt, pd, f, i);
    }
    forall v: nat | v < Span(4)
      ensures Lookup(m, root, 3, v) == if v < 0x1_0000_0000 then Some(Page(v, 3)) else None
    {
      BootLookup(m, root, pdpt, pd, v);
    }
  }

  lemma {:induction false} BootRoot(m: Mem, root: nat, pdpt: nat, pd: nat)
    requires BootWords(m, root, pdpt, pd)
    ensures Present(Entry(m, root, 0))
  {
    TableEntry(pdpt);
  }

  lemma {:induction false} BootLink(m: Mem, root: nat, pdpt: nat, pd: nat, f: nat, i: nat)
    requires BootWords(m, root, pdpt, pd) && i < 512 && f in BootTables(root, pdpt, pd)
    requires root != pdpt && !(pd <= root < pd + 4) && !(pd <= pdpt < pd + 4)
    ensures LinkOk(m, BootTables(root, pdpt, pd), f, i)
  {
    hide Entry, LargeBit, FrameOf;
    if f == root {
      if i == 0 { TableEntry(pdpt); }
    } else if f == pdpt {
      if i < 4 { TableEntry(pd + i); }
    } else {
      var k := f - pd;
      LargeEntry(k * 512 + i);
    }
  }

  lemma {:induction false} BootLookup(m: Mem, root: nat, pdpt: nat, pd: nat, v: nat)
    requires BootWords(m, root, pdpt, pd) && v < Span(4)
    ensures Lookup(m, root, 3, v) == if v < 0x1_0000_0000 then Some(Page(v, 3)) else None
  {
    hide Entry, Span, Idx, LargeBit, FrameOf, Present, Lookup;
    BootIndex(v);
    var k, i := Idx(v, 2), Idx(v, 1);
    TableEntry(pdpt);
    WordLookup(m, root, 3, v);
    if Idx(v, 3) == 0 {
      WordLookup(m, pdpt, 2, v);
      if k < 4 {
        TableEntry(pd + k);
        WordLookup(m, pd + k, 1, v);
        LargeEntry(k * 512 + i);
      }
    }
  }

  /** What one word makes of the lookup. */
  lemma {:induction false} WordLookup(m: Mem, t: nat, l: nat, v: nat)
    requires 1 <= l <= 3
    ensures var e := Entry(m, t, Idx(v, l));
            && (e == 0 ==> Lookup(m, t, l, v) == None)
            && (Present(e) && !LargeBit(e) ==> Lookup(m, t, l, v) == Lookup(m, FrameOf(e), l - 1, v))
            && (l == 1 && Present(e) && LargeBit(e) && e % 0x1000 >= 0x80 ==>
                  Lookup(m, t, l, v) == Some(Page(e / 0x20_0000 * 0x20_0000 + v % 0x20_0000, e % 0x1000 - 0x80)))
  {
    hide Entry, Idx, LargeBit, FrameOf;
  }

  /** The indices of the addresses below 4 GB. */
  lemma {:induction false} BootIndex(v: nat)
    requires v < Span(4)
    ensures v < 0x1_0000_0000 <==> Idx(v, 3) == 0 && Idx(v, 2) < 4
    ensures v < 0x1_0000_0000 ==> v / 0x20_0000 == Idx(v, 2) * 512 + Idx(v, 1)
    ensures v == v / 0x20_0000 * 0x20_0000 + v % 0x20_0000
  {
    IdxPosition(v, 1);
    IdxPosition(v, 2);
    IdxPosition(v, 3);
    assert v / Span(2) == Idx(v, 3) * 512 + Idx(v, 2);
  }
}
