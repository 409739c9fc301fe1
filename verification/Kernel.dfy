/** Physical memory with its frame allocator, page tables and program loader. */
module Kernel {
  import opened Boot
  import opened Bytes
  import opened Frames
  import opened PageTables
  import opened LargePages

  const PTE_P: nat := 1
  const PTE_W: nat := 2
  const PTE_U: nat := 4

  class Machine {
    /** All of physical memory, by physical address. */
    const mem: array<byte>
    /** One bit a frame. */
    const bitmap: array<bv8>
    /** Frame of the top-level table. */
    const pml4: nat
    var freeFrames: nat
    var cursor: nat

    /** The count is the number of clear bits. */
    ghost predicate Counted()
      reads this, bitmap
    {
      && mem.Length >= MAX_PHYS && bitmap.Length == TOTAL / 8 && cursor < TOTAL
      && freeFrames == FreeBits(bitmap[..], TOTAL)
    }

    /** Frame 0, whose address the allocator uses for "none", is never handed out. */
    ghost predicate Ready()
      reads this, bitmap
    {
      Counted() && Used(bitmap[..], 0)
    }

    /** The tables form a tree and all of them sit in frames marked used. */
    ghost predicate TablesOk(own: Tables)
      reads this, mem, bitmap
    {
      Tree(mem[..], own, pml4) && forall f :: f in own ==> f < TOTAL && Used(bitmap[..], f)
    }

    /** What the page tables say about an address. */
    ghost function Map(v: nat): (r: Option<Page>)
      reads this, mem
    {
      Lookup(mem[..], pml4, 3, v)
    }

    // ----- start-up

    /**
     * The machine as it leaves start-up: the boot code's tables, which lie in the kernel's frames, map
     * the first four gigabytes to themselves and are safe from the allocator, which is ready for use
     * exactly when the memory map lists no frame twice.
     */
    constructor (memory: array<byte>, bits: array<bv8>, root: nat, map_: seq<Region>, kernelStart: nat, kernelEnd: nat,
                 ghost pdpt: nat, ghost pd: nat)
      requires memory.Length >= MAX_PHYS && bits.Length == TOTAL / 8 && kernelEnd <= MAX_PHYS
      requires BootWords(memory[..], root, pdpt, pd) && root != pdpt && !(pd <= root < pd + 4) && !(pd <= pdpt < pd + 4)
      requires Touches(kernelStart, kernelEnd, root) && Touches(kernelStart, kernelEnd, pdpt)
      requires Touches(kernelStart, kernelEnd, pd) && Touches(kernelStart, kernelEnd, pd + 3)
      modifies bits
      ensures mem == memory && bitmap == bits && pml4 == root && mem[..] == old(memory[..])
      ensures TablesOk(BootTables(root, pdpt, pd)) && Present(Entry(mem[..], pml4, 0))
      ensures forall v: nat :: v < Span(4) ==> Map(v) == if v < 0x1_0000_0000 then Some(Page(v, 3)) else None
      ensures Ready() <==> NoneShared(map_)
    {
      mem, bitmap, pml4, freeFrames, cursor := memory, bits, root, 0, 0;
      new;
      hide Entry, Used, FreeBits, Span, Lookup, Tree, BootTables, BootWords, Touches;
      PmmInit(map_, kernelStart, kernelEnd);
      KernelFrames(mem[..], root, pdpt, pd, kernelStart, kernelEnd);
      BootIsIdentity(mem[..], root, pdpt, pd);
      BootRoot(mem[..], root, pdpt, pd);
    }

    // ----- frames

    method MarkFrame(f: nat, used: bool)
      requires bitmap.Length == TOTAL / 8 && f < TOTAL
      modifies bitmap
      ensures bitmap[..] == Marked(old(bitmap[..]), f, used)
      ensures forall g: nat :: g < TOTAL ==>
                (Used(bitmap[..], g) <==> if g == f then used else old(Used(bitmap[..], g)))
      ensures FreeBits(bitmap[..], TOTAL) ==
              FreeBits(old(bitmap[..]), TOTAL)
              + if Used(old(bitmap[..]), f) == used then 0 else if used then -1 else 1
    {
      hide Used, FreeBits, Mask;
      MarkedUsed(bitmap[..], f, used);
      FreeBitsMarked(bitmap[..], f, used, TOTAL);
      var m := Mask(f % 8);
      bitmap[f / 8] := if used then bitmap[f / 8] | m else bitmap[f / 8] & !m;
      assert bitmap[..] == Marked(old(bitmap[..]), f, used);
    }

    method SetUsed(f: nat)
      requires bitmap.Length == TOTAL / 8 && f < TOTAL && freeFrames >= FreeBits(bitmap[..], TOTAL)
      modifies this`freeFrames, bitmap
      ensures freeFrames - FreeBits(bitmap[..], TOTAL) == old(freeFrames - FreeBits(bitmap[..], TOTAL))
      ensures forall g: nat :: g < TOTAL ==> (Used(bitmap[..], g) <==> g == f || old(Used(bitmap[..], g)))
    {
      hide Used, FreeBits, Mask;
      TestBit(bitmap[..], f);
      if bitmap[f / 8] & Mask(f % 8) == 0 {
        UsedOrFree(bitmap[..], f);
        MarkFrame(f, true);
        freeFrames := freeFrames - 1;
      }
    }

    /** Mark the frames of `[f0, f1)` used. */
    method SetRange(f0: nat, f1: nat)
      requires bitmap.Length == TOTAL / 8 && f1 <= TOTAL && freeFrames >= FreeBits(bitmap[..], TOTAL)
      modifies this`freeFrames, bitmap
      ensures freeFrames - FreeBits(bitmap[..], TOTAL) == old(freeFrames - FreeBits(bitmap[..], TOTAL))
      ensures forall g: nat :: g < TOTAL ==> (Used(bitmap[..], g) <==> f0 <= g < f1 || old(Used(bitmap[..], g)))
    {
      hide Used, FreeBits;
      var f := f0;
      while f < f1
        invariant f0 <= f && (f <= f1 || f == f0)
        invariant freeFrames - FreeBits(bitmap[..], TOTAL) == old(freeFrames - FreeBits(bitmap[..], TOTAL))
        invariant forall g: nat :: g < TOTAL ==> (Used(bitmap[..], g) <==> f0 <= g < f || old(Used(bitmap[..], g)))
      {
        SetUsed(f);
        f := f + 1;
      }
    }

    /**
     * Free the frames of one memory-map entry, trimmed to the managed memory.  Every one of them is
     * counted, so the count gets ahead of the clear bits by the frames that were free already.
     */
    method FreeRegion(r: Region)
      requires bitmap.Length == TOTAL / 8
      modifies this`freeFrames, bitmap
      ensures forall g: nat :: g < TOTAL ==> (Used(bitmap[..], g) <==> old(Used(bitmap[..], g)) && !Usable(r, g))
      ensures freeFrames - FreeBits(bitmap[..], TOTAL) ==
              old(freeFrames - FreeBits(bitmap[..], TOTAL)) + |FreeAlready(old(bitmap[..]), r)|
    {
      hide Used, FreeBits, Usable;
      ghost var bm := bitmap[..];
      if r.kind != 1 {
        NotUsable(r);
        assert FreeAlready(bm, r) == {};
        return;
      }
      var s, l := r.addr, r.len;
      if s < LOW {
        var cut := LOW - s;
        if cut >= l {
          l := 0;
        } else {
          s, l := s + cut, l - cut;
        }
      }
      ghost var l0 := l;
      if s + l > MAX_PHYS {
        l := if s >= MAX_PHYS then 0 else MAX_PHYS - s;
      }
      var f0, f1 := (s + FRAME - 1) / FRAME, (s + l) / FRAME;
      forall g: nat ensures Usable(r, g) <==> f0 <= g < f1 { TrimmedRegion(r, s, l0, s, l, g); }
      TrimmedRegion(r, s, l0, s, l, 0);
      FreeNone(bm, f0);
      var f := f0;
      while f < f1
        invariant f0 <= f && (f <= f1 || f == f0)
        invariant forall g: nat :: g < TOTAL ==> (Used(bitmap[..], g) <==> old(Used(bitmap[..], g)) && !(f0 <= g < f))
        invariant freeFrames - FreeBits(bitmap[..], TOTAL) ==
                  old(freeFrames - FreeBits(bitmap[..], TOTAL)) + |FreeBetween(bm, f0, f)|
      {
        assert Usable(r, f);
        FreeOneMore(bm, f0, f);
        MarkFrame(f, false);
        freeFrames := freeFrames + 1;
        f := f + 1;
      }
      assert FreeBetween(bm, f0, f) == FreeAlready(bm, r);
    }

    /**
     * Set the allocator up from a memory map, with the kernel at `[kernelStart, kernelEnd)`.  The bits
     * are right for every map; the count is too high by the frames the map lists more than once.
     */
    method PmmInit(map_: seq<Region>, kernelStart: nat, kernelEnd: nat)
      requires mem.Length >= MAX_PHYS && bitmap.Length == TOTAL / 8 && kernelEnd <= MAX_PHYS
      modifies this`freeFrames, this`cursor, bitmap
      ensures forall f: nat :: f < TOTAL ==>
                (!Used(bitmap[..], f) <==>
                   UsableIn(map_, f) && !Touches(kernelStart, kernelEnd, f))
      ensures freeFrames == FreeBits(bitmap[..], TOTAL) + ListedTwice(map_, |map_|)
      ensures Ready() <==> NoneShared(map_)
    {
      hide Used, FreeBits;
      freeFrames, cursor := 0, 0;
      FillUsed();
      var i := 0;
      while i < |map_|
        invariant 0 <= i <= |map_| && cursor == 0 && freeFrames == FreeBits(bitmap[..], TOTAL) + ListedTwice(map_, i)
        invariant forall f: nat :: f < TOTAL ==> (!Used(bitmap[..], f) <==> UsableIn(map_[..i], f))
      {
        NextRegion(map_, i);
        assert FreeAlready(bitmap[..], map_[i]) == Shared(map_, i);
        FreeRegion(map_[i]);
        i := i + 1;
      }
      assert map_[..i] == map_;
      SetRange(kernelStart / FRAME, (kernelEnd + FRAME - 1) / FRAME);
      assert !UsableIn(map_, 0);
      NothingTwice(map_, |map_|);
    }

    method FillUsed()
      requires bitmap.Length == TOTAL / 8
      modifies bitmap
      ensures FreeBits(bitmap[..], TOTAL) == 0 && forall f: nat :: f < TOTAL ==> Used(bitmap[..], f)
    {
      var i := 0;
      while i < bitmap.Length
        invariant 0 <= i <= bitmap.Length && forall j :: 0 <= j < i ==> bitmap[j] == 0xFF
      {
        bitmap[i] := 0xFF;
        i := i + 1;
      }
      forall f: nat | f < TOTAL ensures Used(bitmap[..], f) {
        assert bitmap[..][f / 8] == 0xFF;
      }
      FreeBitsAll(bitmap[..], TOTAL);
    }

    /** Take the frames of `[start, end)` out of the pool. */
    method PmmReserve(start: nat, end: nat)
      requires Ready()
      modifies this`freeFrames, bitmap
      ensures Ready()
      ensures forall g: nat :: g < TOTAL ==>
                (Used(bitmap[..], g) <==> Touches(start, end, g) || old(Used(bitmap[..], g)))
    {
      var f0, f1 := start / FRAME, (end + FRAME - 1) / FRAME;
      if f0 >= TOTAL {
        return;
      }
      if f1 > TOTAL {
        f1 := TOTAL;
      }
      SetRange(f0, f1);
    }

    /** Take the next free frame after the last one taken, round the end; 0 exactly when none is free. */
    method AllocFrame() returns (p: nat)
      requires Ready()
      modifies this`freeFrames, this`cursor, bitmap
      ensures Ready()
      ensures p == 0 <==> old(freeFrames) == 0
      ensures p == 0 ==> bitmap[..] == old(bitmap[..]) && freeFrames == old(freeFrames)
      ensures p != 0 ==>
                && p % FRAME == 0 && 0 < p / FRAME < TOTAL && !Used(old(bitmap[..]), p / FRAME)
                && freeFrames == old(freeFrames) - 1
                && forall g: nat :: g < TOTAL ==> (Used(bitmap[..], g) <==> g == p / FRAME || old(Used(bitmap[..], g)))
      ensures p != 0 ==>
                && cursor == (p / FRAME + 1) % TOTAL
                && exists i :: 0 <= i < TOTAL && p / FRAME == Round(old(cursor), i)
                               && forall j :: 0 <= j < i ==> Used(old(bitmap[..]), Round(old(cursor), j))
    {
      hide Used, FreeBits, Round, Mask;
      var i := 0;
      while i < TOTAL
        invariant i <= TOTAL && bitmap[..] == old(bitmap[..]) && freeFrames == old(freeFrames) && cursor == old(cursor)
        invariant forall j :: 0 <= j < i ==> Used(bitmap[..], Round(cursor, j))
      {
        var f := Round(cursor, i);
        TestBit(bitmap[..], f);
        if bitmap[f / 8] & Mask(f % 8) == 0 {
          UsedOrFree(bitmap[..], f);
          MarkFrame(f, true);
          freeFrames := freeFrames - 1;
          cursor := (f + 1) % TOTAL;
          return f * FRAME;
        }
        i := i + 1;
      }
      AllRoundsUsed(bitmap[..], cursor);
      p := 0;
    }

    /** Give one frame back.  Nothing stops frame 0, whose address the allocator uses for "none". */
    method FreeFrame(phys: nat)
      requires Counted()
      modifies this`freeFrames, bitmap
      ensures Counted()
      ensures forall g: nat :: g < TOTAL ==> (Used(bitmap[..], g) <==> g != phys / FRAME && old(Used(bitmap[..], g)))
      ensures freeFrames == old(freeFrames) +
              if phys / FRAME < TOTAL && Used(old(bitmap[..]), phys / FRAME) then 1 else 0
    {
      hide Used, FreeBits, Mask, Marked;
      var f := phys / FRAME;
      ghost var bm := bitmap[..];
      if f >= TOTAL {
        assert bitmap[..] == bm;
        return;
      }
      TestBit(bm, f);
      if bitmap[f / 8] & Mask(f % 8) != 0 {
        MarkFrame(f, false);
        freeFrames := freeFrames + 1;
      }
    }

    // ----- words of memory

    method LoadEntry(f: nat, i: nat) returns (e: nat)
      requires InRam(mem[..], f) && i < 512
      ensures e == Entry(mem[..], f, i)
    {
      e := Rd64(mem[..], 0x1000 * f + 8 * i);
    }

    method StoreEntry(f: nat, i: nat, e: nat)
      requires InRam(mem[..], f) && i < 512 && e < 0x1_0000_0000_0000_0000
      modifies mem
      ensures |mem[..]| == |old(mem[..])|
      ensures forall g: nat, j: nat :: j < 512 ==>
                Entry(mem[..], g, j) == if g == f && j == i then e else Entry(old(mem[..]), g, j)
      ensures forall a :: 0 <= a < mem.Length && a / 0x1000 != f ==> mem[a] == old(mem[a])
    {
      hide Entry, Le64;
      EntryStored(mem[..], f, i, e);
      ghost var was := mem[..];
      var o, b := 0x1000 * f + 8 * i, Le64(e);
      mem[o], mem[o + 1], mem[o + 2], mem[o + 3] := b[0], b[1], b[2], b[3];
      mem[o + 4], mem[o + 5], mem[o + 6], mem[o + 7] := b[4], b[5], b[6], b[7];
      assert mem[..] == Patch(was, o, b);
    }

    /** A fresh frame, filled with zeros. */
    method TableAlloc() returns (p: nat)
      requires Ready()
      modifies this`freeFrames, this`cursor, bitmap, mem
      ensures Ready() && |mem[..]| == |old(mem[..])|
      ensures p == 0 <==> old(freeFrames) == 0
      ensures p == 0 ==> bitmap[..] == old(bitmap[..]) && mem[..] == old(mem[..]) && freeFrames == old(freeFrames)
      ensures p != 0 ==>
                && p % FRAME == 0 && 0 < p / FRAME < TOTAL && !Used(old(bitmap[..]), p / FRAME)
                && freeFrames == old(freeFrames) - 1
                && (forall g: nat :: g < TOTAL ==>
                     (Used(bitmap[..], g) <==> g == p / FRAME || old(Used(bitmap[..], g))))
                && (forall j :: 0 <= j < 512 ==> Entry(mem[..], p / FRAME, j) == 0)
                && (forall g: nat, j :: g != p / FRAME && 0 <= j < 512 ==>
                     Entry(mem[..], g, j) == Entry(old(mem[..]), g, j))
                && (forall a :: 0 <= a < mem.Length && a / 0x1000 != p / FRAME ==> mem[a] == old(mem[a]))
    {
      hide Entry, Used, FreeBits;
      p := AllocFrame();
      if p == 0 {
        return;
      }
      ghost var bm := bitmap[..];
      var f, i := p / FRAME, 0;
      while i < 512
        invariant 0 <= i <= 512 && |mem[..]| == |old(mem[..])|
        invariant forall j :: 0 <= j < i ==> Entry(mem[..], f, j) == 0
        invariant forall g: nat, j :: g != f && 0 <= j < 512 ==> Entry(mem[..], g, j) == Entry(old(mem[..]), g, j)
        invariant forall a :: 0 <= a < mem.Length && a / 0x1000 != f ==> mem[a] == old(mem[a])
        modifies mem
      {
        StoreEntry(f, i, 0);
        i := i + 1;
      }
      assert bitmap[..] == bm;
    }

    // ----- translation

    method VmmPhys(virt: nat, ghost own: Tables) returns (p: nat)
      requires mem.Length >= MAX_PHYS && TablesOk(own) && virt < Span(4)
      ensures p == PhysOf(Map(virt))
    {
      var t, level := pml4, 3;
      RootServes(own, pml4, virt);
      while level > 0
        invariant 0 <= level <= 3 && IsTable(own, t, level, virt / Span(level + 1))
        invariant Map(virt) == Lookup(mem[..], t, level, virt)
      {
        WalkDown(mem[..], own, pml4, t, level, virt);
        var e := LoadEntry(t, Idx(virt, level));
        if !Present(e) {
          return 0;
        }
        if level == 1 && LargeBit(e) {
          return e / 0x20_0000 * 0x20_0000 + virt % 0x20_0000;
        }
        t, level := FrameOf(e), level - 1;
      }
      var e := LoadEntry(t, Idx(virt, 0));
      if !Present(e) {
        return 0;
      }
      p := e / 0x1000 * 0x1000 + virt % 0x1000;
    }

    // ----- splitting and mapping

    /**
     * Replace the large page behind `virt` by a table of small ones.  Returns -1 when the upper
     * table is missing or no frame is left; in every case each address keeps its translation.
     */
    method SplitLarge(virt: nat, ghost own: Tables) returns (rc: int, ghost own': Tables)
      requires Ready() && TablesOk(own) && virt < Span(3) && Present(Entry(mem[..], pml4, 0))
      modifies this`freeFrames, this`cursor, bitmap, mem
      ensures Ready() && TablesOk(own') && SameMap(old(mem[..]), mem[..], pml4)
      ensures Grew(old(mem[..]), old(bitmap[..]), own, mem[..], bitmap[..], own') && Present(Entry(mem[..], pml4, 0))
      ensures NoLargeUser(old(mem[..]), own) ==> NoLargeUser(mem[..], own')
      ensures NoNewLarge(old(mem[..]), mem[..], pml4) && LeavesBut(old(mem[..]), mem[..], pml4, virt)
      ensures !LargeAt(old(mem[..]), pml4, 3, virt) ==>
                own' == own && mem[..] == old(mem[..]) && bitmap[..] == old(bitmap[..]) && freeFrames == old(freeFrames)
      ensures LargeAt(old(mem[..]), pml4, 3, virt) ==> (rc == 0 <==> old(freeFrames) > 0)
      ensures LargeAt(old(mem[..]), pml4, 3, virt) && old(freeFrames) > 0 ==>
                freeFrames == old(freeFrames) - 1 && LeafTable(mem[..], pml4, 3, virt).Some?
      ensures LargeAt(old(mem[..]), pml4, 3, virt) && old(freeFrames) == 0 ==>
                own' == own && mem[..] == old(mem[..]) && bitmap[..] == old(bitmap[..]) && freeFrames == 0
    {
      hide Entry, Used, FreeBits, Span, SameMap, Lookup, LeafTable, NoLargeUser, NoNewLarge, LeavesBut;
      own' := own;
      ghost var m0 := mem[..];
      SameMapRefl(m0, pml4);
      NoNewLargeRefl(m0, pml4);
      LeavesRefl(m0, pml4, virt);
      UpperTables(m0, own, pml4, virt);
      IndexShifts(virt);
      var pdptIdx, pdIdx := virt / 0x4000_0000 % 512, virt / 0x20_0000 % 512;
      var e3 := LoadEntry(pml4, 0);
      var pdpt := FrameOf(e3);
      var e2 := LoadEntry(pdpt, pdptIdx);
      if !Present(e2) {
        return -1, own;
      }
      var pd := FrameOf(e2);
      var e := LoadEntry(pd, pdIdx);
      if !Present(e) || !LargeBit(e) {
        return 0, own;
      }
      var pt := TableAlloc();
      if pt == 0 {
        return -1, own;
      }
      var t := pt / FRAME;
      EntryBound(m0, pd, pdIdx);
      FillSplit(t, e);
      TableWord(t);
      StoreEntry(pd, pdIdx, pt + PTE_P + PTE_W + PTE_U);
      own' := WithTable(own, pd, pdIdx, t);
      SplitKeeps(m0, mem[..], own, pml4, pd, pdIdx, t);
      SplitLeaf(m0, mem[..], own, pml4, pd, pdIdx, t, virt);
      if NoLargeUser(m0, own) { NoLargeHung(m0, mem[..], own, pml4, pd, pdIdx, t); }
      SplitNoNew(m0, mem[..], own, pml4, pd, pdIdx, t);
      IdxPosition(virt, 1);
      HungLeaves(m0, mem[..], own, pml4, pd, pdIdx, t, virt);
      rc := 0;
    }

    /** The small entries of a split page, with the large bit dropped. */
    method FillSplit(t: nat, e: nat)
      requires InRam(mem[..], t) && Present(e) && LargeBit(e) && e < 0x1_0000_0000_0000_0000
      modifies mem
      ensures |mem[..]| == |old(mem[..])|
      ensures forall j :: 0 <= j < 512 ==>
                Entry(mem[..], t, j) == e / 0x20_0000 * 0x20_0000 + j * 0x1000 + (e % 0x1000 - 0x80)
      ensures forall g: nat, j :: g != t && 0 <= j < 512 ==> Entry(mem[..], g, j) == Entry(old(mem[..]), g, j)
      ensures forall a :: 0 <= a < mem.Length && a / 0x1000 != t ==> mem[a] == old(mem[a])
    {
      hide Entry;
      LowBits(e);
      var base, flags := e / 0x20_0000 * 0x20_0000, e % 0x1000 - 0x80;
      var i := 0;
      while i < 512
        invariant 0 <= i <= 512 && |mem[..]| == |old(mem[..])|
        invariant forall j :: 0 <= j < i ==> Entry(mem[..], t, j) == base + j * 0x1000 + flags
        invariant forall g: nat, j :: g != t && 0 <= j < 512 ==> Entry(mem[..], g, j) == Entry(old(mem[..]), g, j)
        invariant forall a :: 0 <= a < mem.Length && a / 0x1000 != t ==> mem[a] == old(mem[a])
      {
        SplitFits(e, i);
        StoreEntry(t, i, base + i * 0x1000 + flags);
        i := i + 1;
      }
    }

    /** Make the table missing below entry `Idx(virt, level)` of table `t`. */
    method HangTable(virt: nat, t: nat, level: nat, ghost own: Tables) returns (made: bool, ghost own': Tables)
      requires Ready() && TablesOk(own) && virt < Span(4) && 1 <= level <= 3
      requires IsTable(own, t, level, virt / Span(level + 1)) && TableAt(mem[..], pml4, 3, virt, level) == Some(t)
      requires !Present(Entry(mem[..], t, Idx(virt, level)))
      modifies this`freeFrames, this`cursor, bitmap, mem
      ensures Present(Entry(old(mem[..]), pml4, 0)) ==> Present(Entry(mem[..], pml4, 0))
      ensures NoLargeUser(old(mem[..]), own) ==> NoLargeUser(mem[..], own')
      ensures Ready() && TablesOk(own') && SameMap(old(mem[..]), mem[..], pml4)
      ensures Grew(old(mem[..]), old(bitmap[..]), own, mem[..], bitmap[..], own')
      ensures LeavesBut(old(mem[..]), mem[..], pml4, virt)
      ensures made <==> old(freeFrames) > 0
      ensures !made ==> own' == own && freeFrames == 0
      ensures made ==>
                && freeFrames == old(freeFrames) - 1
                && var e := Entry(mem[..], t, Idx(virt, level));
                   && Present(e) && !LargeBit(e) && IsTable(own', FrameOf(e), level - 1, virt / Span(level))
                   && TableAt(mem[..], pml4, 3, virt, level - 1) == Some(FrameOf(e))
                   && !LargeAt(mem[..], FrameOf(e), level - 1, virt)
                   && Missing(mem[..], FrameOf(e), level - 1, virt) == level - 1
    {
      hide Entry, Used, FreeBits, Span, NoLargeUser, SameMap, LeavesBut;
      ghost var m := mem[..];
      SameMapRefl(m, pml4);
      LeavesRefl(m, pml4, virt);
      var idx := Idx(virt, level);
      var nt := TableAlloc();
      if nt == 0 {
        return false, own;
      }
      TableWord(nt / FRAME);
      StoreEntry(t, idx, nt + PTE_P + PTE_W + PTE_U);
      CreateStep(m, mem[..], own, pml4, t, level, nt / FRAME, virt);
      IdxPosition(virt, level);
      HungLeaves(m, mem[..], own, pml4, t, idx, nt / FRAME, virt);
      if NoLargeUser(m, own) { NoLargeHung(m, mem[..], own, pml4, t, idx, nt / FRAME); }
      made, own' := true, WithTable(own, t, idx, nt / FRAME);
    }

    /** Follow the tables down to level 0, making the missing ones when `create` is set. */
    method WalkTables(virt: nat, create: bool, ghost own: Tables) returns (r: Option<nat>, ghost own': Tables)
      requires Ready() && TablesOk(own) && virt < Span(4) && !LargeAt(mem[..], pml4, 3, virt)
      modifies this`freeFrames, this`cursor, bitmap, mem
      ensures Present(Entry(old(mem[..]), pml4, 0)) ==> Present(Entry(mem[..], pml4, 0))
      ensures NoLargeUser(old(mem[..]), own) ==> NoLargeUser(mem[..], own')
      ensures Ready() && TablesOk(own') && SameMap(old(mem[..]), mem[..], pml4)
      ensures Grew(old(mem[..]), old(bitmap[..]), own, mem[..], bitmap[..], own')
      ensures LeavesBut(old(mem[..]), mem[..], pml4, virt)
      ensures !create ==>
                own' == own && mem[..] == old(mem[..]) && bitmap[..] == old(bitmap[..]) && freeFrames == old(freeFrames)
      ensures r.Some? <==> Missing(old(mem[..]), pml4, 3, virt) <= (if create then old(freeFrames) else 0)
      ensures r.Some? ==> LeafTable(mem[..], pml4, 3, virt) == r && IsTable(own', r.value, 0, virt / Span(1))
      ensures create ==> freeFrames == if r.Some? then old(freeFrames) - Missing(old(mem[..]), pml4, 3, virt) else 0
    {
      hide Entry, Used, FreeBits, Span, Grew, SameMap, NoLargeUser, LeavesBut;
      ghost var m0, bm0 := mem[..], bitmap[..];
      own' := own;
      GrewRefl(m0, bm0, own);
      var t, level := pml4, 3;
      RootServes(own, pml4, virt);
      SameMapRefl(m0, pml4);
      LeavesRefl(m0, pml4, virt);
      while level > 0
        invariant 0 <= level <= 3 && Ready() && TablesOk(own') && SameMap(m0, mem[..], pml4)
        invariant Grew(m0, bm0, own, mem[..], bitmap[..], own') && LeavesBut(m0, mem[..], pml4, virt)
        invariant Present(Entry(m0, pml4, 0)) ==> Present(Entry(mem[..], pml4, 0))
        invariant NoLargeUser(m0, own) ==> NoLargeUser(mem[..], own')
        invariant !create ==> own' == own && mem[..] == m0 && bitmap[..] == bm0 && freeFrames == old(freeFrames)
        invariant IsTable(own', t, level, virt / Span(level + 1)) && TableAt(mem[..], pml4, 3, virt, level) == Some(t)
        invariant !LargeAt(mem[..], t, level, virt)
        invariant old(freeFrames) - freeFrames + Missing(mem[..], t, level, virt) == Missing(m0, pml4, 3, virt)
      {
        ghost var m := mem[..];
        WalkDown(m, own', pml4, t, level, virt);
        TableAtStep(m, pml4, 3, virt, level);
        var idx := Idx(virt, level);
        var e := LoadEntry(t, idx);
        if !Present(e) {
          if !create {
            return None, own';
          }
          ghost var bm, was := bitmap[..], own';
          var made;
          made, own' := HangTable(virt, t, level, own');
          SameMapTrans(m0, m, mem[..], pml4);
          LeavesTrans(m0, m, mem[..], pml4, virt);
          GrewTrans(m0, bm0, own, m, bm, was, mem[..], bitmap[..], own');
          if !made {
            return None, own';
          }
          e := LoadEntry(t, idx);
        }
        t, level := FrameOf(e), level - 1;
      }
      TableAtRest(mem[..], pml4, 3, virt, 0);
      r := Some(t);
    }

    /** Split what is large and make what is missing, so that `virt` has a level-0 table. */
    method ReachLeaf(virt: nat, ghost own: Tables) returns (pt: Option<nat>, ghost own': Tables)
      requires Ready() && TablesOk(own) && virt < Span(3) && Present(Entry(mem[..], pml4, 0))
      requires LargeAt(mem[..], pml4, 3, virt) ==> freeFrames > 0
      modifies this`freeFrames, this`cursor, bitmap, mem
      ensures Ready() && TablesOk(own') && Present(Entry(mem[..], pml4, 0)) && SameMap(old(mem[..]), mem[..], pml4)
      ensures Grew(old(mem[..]), old(bitmap[..]), own, mem[..], bitmap[..], own')
      ensures NoLargeUser(old(mem[..]), own) ==> NoLargeUser(mem[..], own')
      ensures LeavesBut(old(mem[..]), mem[..], pml4, virt)
      ensures pt.Some? <==> Missing(old(mem[..]), pml4, 3, virt) <= old(freeFrames)
      ensures pt.Some? ==> LeafTable(mem[..], pml4, 3, virt) == pt && IsTable(own', pt.value, 0, virt / Span(1))
      ensures freeFrames == if pt.Some? then old(freeFrames) - Missing(old(mem[..]), pml4, 3, virt) else 0
    {
      hide Entry, Used, FreeBits, Span, Grew, SameMap, Tree, LeafTable, LargeAt, Missing, NoLargeUser, LeavesBut;
      ghost var m0, bm0 := mem[..], bitmap[..];
      UpperTables(m0, own, pml4, virt);
      var rc;
      rc, own' := SplitLarge(virt, own);
      ghost var m1, bm1, own1 := mem[..], bitmap[..], own';
      if LeafTable(m1, pml4, 3, virt).Some? { NoneMissing(m1, pml4, 3, virt); }
      pt, own' := WalkTables(virt, true, own1);
      GrewTrans(m0, bm0, own, m1, bm1, own1, mem[..], bitmap[..], own');
      SameMapTrans(m0, m1, mem[..], pml4);
      LeavesTrans(m0, m1, mem[..], pml4, virt);
    }

    /**
     * Map one page.  With frames enough for the tables it needs, the page of `virt` leads to the
     * frame of `phys` and no other address moves; without, no address moves at all.
     */
    method VmmMap(virt: nat, phys: nat, flags: nat, ghost own: Tables) returns (ghost own': Tables)
      requires Ready() && TablesOk(own) && virt < Span(3) && Present(Entry(mem[..], pml4, 0))
      requires phys < 0x1_0000_0000_0000_0000
      requires LargeAt(mem[..], pml4, 3, virt) ==> freeFrames > 0
      modifies this`freeFrames, this`cursor, bitmap, mem
      ensures Ready() && TablesOk(own') && Present(Entry(mem[..], pml4, 0))
      ensures Grew(old(mem[..]), old(bitmap[..]), own, mem[..], bitmap[..], own')
      ensures NoLargeUser(old(mem[..]), own) ==> NoLargeUser(mem[..], own')
      ensures LeavesBut(old(mem[..]), mem[..], pml4, virt)
      ensures Missing(old(mem[..]), pml4, 3, virt) <= old(freeFrames) ==>
                && LeafTable(mem[..], pml4, 3, virt).Some?
                && OnePage(old(mem[..]), mem[..], pml4, virt, LeafWord(phys, flags))
                && freeFrames == old(freeFrames) - Missing(old(mem[..]), pml4, 3, virt)
      ensures Missing(old(mem[..]), pml4, 3, virt) > old(freeFrames) ==>
                SameMap(old(mem[..]), mem[..], pml4) && freeFrames == 0
    {
      hide Entry, Used, FreeBits, Span, Grew, SameMap, Tree, LeafTable, LargeAt, Missing, OnePage, LeafWord, Present,
           NoLargeUser, LeavesBut;
      ghost var m0, bm0 := mem[..], bitmap[..];
      LowAddress(virt);
      var pt;
      pt, own' := ReachLeaf(virt, own);
      if pt.None? {
        return;
      }
      ghost var m1, bm1, e := mem[..], bitmap[..], LeafWord(phys, flags);
      InTree(m1, own', pml4, pt.value);
      IndexShifts(virt);
      StoreEntry(pt.value, virt / 0x1000 % 512, LeafWord(phys, flags));
      LeafMapped(m1, mem[..], own', pml4, pt.value, virt, e);
      LeavesLater(m0, m1, mem[..], pml4, virt);
      if NoLargeUser(m1, own') { NoLargeLeaf(m1, mem[..], own', pt.value, Idx(virt, 0)); }
      TableWritten(m0, bm0, own, m1, bm1, own', mem[..], pt.value);
      OnePageAfter(m0, m1, mem[..], pml4, virt, e);
    }

    // ----- unmapping and the user bit

    /** The level-0 table of `virt`, when only tables lie on the way. */
    method FindLeaf(virt: nat, ghost own: Tables) returns (r: Option<nat>)
      requires mem.Length >= MAX_PHYS && Tree(mem[..], own, pml4) && virt < Span(4)
      ensures r == LeafTable(mem[..], pml4, 3, virt)
      ensures r.Some? ==> IsTable(own, r.value, 0, virt / Span(1))
    {
      hide Entry, Span;
      var t, level := pml4, 3;
      RootServes(own, pml4, virt);
      while level > 0
        invariant 0 <= level <= 3 && IsTable(own, t, level, virt / Span(level + 1))
        invariant LeafTable(mem[..], pml4, 3, virt) == LeafTable(mem[..], t, level, virt)
      {
        WalkDown(mem[..], own, pml4, t, level, virt);
        var e := LoadEntry(t, Idx(virt, level));
        if !Present(e) || (level == 1 && LargeBit(e)) {
          return None;
        }
        t, level := FrameOf(e), level - 1;
      }
      r := Some(t);
    }

    /**
     * Clear the small pages of a range and give their frames back.  Large pages stay.  A frame is
     * given back whether or not the allocator ever handed it out, frame 0 like any other; the tables
     * stay in frames in use when no page of the range leads to one of them.
     */
    method VmmUnmapRange(start: nat, end: nat, ghost own: Tables)
      requires Counted() && TablesOk(own) && end <= Span(4)
      modifies this`freeFrames, bitmap, mem
      ensures Counted() && Tree(mem[..], own, pml4)
      ensures Ready() <==> old(Ready()) && !ReachedFrom(old(mem[..]), pml4, start / 0x1000, (end + 0xFFF) / 0x1000, 0)
      ensures Unmapped(old(mem[..]), mem[..], pml4, start / 0x1000, (end + 0xFFF) / 0x1000)
      ensures forall f: nat :: f < TOTAL ==>
                (Used(bitmap[..], f) <==>
                   old(Used(bitmap[..], f))
                   && !ReachedFrom(old(mem[..]), pml4, start / 0x1000, (end + 0xFFF) / 0x1000, f))
      ensures freeFrames == old(freeFrames) + |Gone(old(bitmap[..]), bitmap[..], TOTAL)|
      ensures (forall f :: f in own ==> !ReachedFrom(old(mem[..]), pml4, start / 0x1000, (end + 0xFFF) / 0x1000, f)) ==>
                TablesOk(own)
      ensures |mem[..]| == |old(mem[..])|
      ensures forall a :: 0 <= a < mem.Length && a / 0x1000 !in own ==> mem[a] == old(mem[a])
    {
      hide Entry, Used, FreeBits, Span, Tree, LeafTable, Unmapped, ReachedFrom, SmallFrame, Lookup;
      ghost var m0, bm0 := mem[..], bitmap[..];
      ghost var a, z := start / 0x1000, (end + 0xFFF) / 0x1000;
      UnmapStart(m0, bitmap[..], pml4, a);
      var v := start / 0x1000 * 0x1000;
      while v < end
        invariant v % 0x1000 == 0 && a <= v / 0x1000 && (v / 0x1000 <= z || v / 0x1000 == a)
        invariant Counted() && Tree(mem[..], own, pml4) && Unmapped(m0, mem[..], pml4, a, v / 0x1000)
        invariant forall f: nat :: f < TOTAL ==>
                    (Used(bitmap[..], f) <==> old(Used(bitmap[..], f)) && !ReachedFrom(m0, pml4, a, v / 0x1000, f))
        invariant |mem[..]| == |m0| && forall b :: 0 <= b < mem.Length && b / 0x1000 !in own ==> mem[b] == m0[b]
        decreases end - v
      {
        ReachedGrows(m0, pml4, a, v / 0x1000);
        UnmapOne(v, m0, a, own);
        v := v + 0x1000;
      }
      RangeDone(m0, mem[..], pml4, a, z, v / 0x1000);
      GivenBack(bm0, bitmap[..], TOTAL);
    }

    /** One page of the range. */
    method UnmapOne(v: nat, ghost m0: Mem, ghost a: nat, ghost own: Tables)
      requires Counted() && Tree(mem[..], own, pml4) && Tree(m0, own, pml4) && v < Span(4)
      requires v % 0x1000 == 0 && a <= v / 0x1000 && Unmapped(m0, mem[..], pml4, a, v / 0x1000)
      modifies this`freeFrames, bitmap, mem
      ensures Counted() && Tree(mem[..], own, pml4) && Unmapped(m0, mem[..], pml4, a, v / 0x1000 + 1)
      ensures forall f: nat :: f < TOTAL ==>
                (Used(bitmap[..], f) <==> old(Used(bitmap[..], f)) && SmallFrame(m0, pml4, v / 0x1000) != Some(f))
      ensures |mem[..]| == |old(mem[..])|
      ensures forall b :: 0 <= b < mem.Length && b / 0x1000 !in own ==> mem[b] == old(mem[b])
    {
      hide Entry, FreeBits, Span, LeafTable, Unmapped, ReachedFrom, Lookup;
      ghost var m := mem[..];
      ghost var page := v / 0x1000;
      assert page * 0x1000 == v;
      UnmapAhead(m0, m, own, own, pml4, a, page);
      var t := FindLeaf(v, own);
      if t.None? {
        UnmapNothing(m0, m, own, pml4, a, page);
        return;
      }
      InTree(m, own, pml4, t.value);
      var idx := Idx(v, 0);
      var e := LoadEntry(t.value, idx);
      if !Present(e) {
        UnmapNothing(m0, m, own, pml4, a, page);
        return;
      }
      FreeFrame(e / 0x1000 * 0x1000);
      StoreEntry(t.value, idx, 0);
      UnmapStep(m0, m, mem[..], own, pml4, a, page, t.value);
    }

    /** Open the pages of `[virt, virt + len)` to user mode, splitting large ones; no address moves. */
    method VmmSetUser(virt: nat, len: nat, ghost own: Tables) returns (ghost own': Tables)
      requires Ready() && TablesOk(own) && Present(Entry(mem[..], pml4, 0))
      requires (virt + len + 0xFFF) / 0x1000 * 0x1000 <= Span(3)
      requires freeFrames >= Larges(mem[..], pml4, StretchOf(virt), EndStretch((virt + len + 0xFFF) / 0x1000 * 0x1000))
      modifies this`freeFrames, this`cursor, bitmap, mem
      ensures Ready() && TablesOk(own') && Grew(old(mem[..]), old(bitmap[..]), own, mem[..], bitmap[..], own')
      ensures UserSet(old(mem[..]), mem[..], pml4, virt / 0x1000, (virt + len + 0xFFF) / 0x1000)
      ensures OpenToUser(old(mem[..]), mem[..], pml4, virt / 0x1000, (virt + len + 0xFFF) / 0x1000)
    {
      hide Entry, Used, FreeBits, Tree, Grew, UserSet, OpenToUser, LargeAt, Larges, NoNewLarge, EndStretch, Present,
           TablesOk, SameMap, Span;
      ghost var m0, bm0 := mem[..], bitmap[..];
      ghost var a, z := virt / 0x1000, EndStretch((virt + len + 0xFFF) / 0x1000 * 0x1000);
      own' := own;
      GrewRefl(m0, bm0, own);
      UserStart(m0, pml4, a);
      var v, end := virt / 0x1000 * 0x1000, (virt + len + 0xFFF) / 0x1000 * 0x1000;
      SameStretchStart(virt);
      hide Ready, Counted, StretchOf;
      while v < end
        invariant v % 0x1000 == 0 && a <= v / 0x1000 <= end / 0x1000
        invariant Ready() && TablesOk(own') && Grew(m0, bm0, own, mem[..], bitmap[..], own')
        invariant Present(Entry(mem[..], pml4, 0)) && UserSet(m0, mem[..], pml4, a, v / 0x1000)
        invariant freeFrames >= Larges(mem[..], pml4, StretchOf(v), z)
      {
        ghost var m, bm, was := mem[..], bitmap[..], own';
        StretchInRange(v, end);
        LargeIsCounted(m, pml4, v, z);
        own' := UserOne(v, m0, a, own');
        LargesStep(m, mem[..], pml4, v, z);
        GrewTrans(m0, bm0, own, m, bm, was, mem[..], bitmap[..], own');
        NextPageOf(v, end);
        v := v + 0x1000;
      }
      UserSetOpens(m0, mem[..], pml4, a, v / 0x1000);
    }

    /** One page of the range: split, find the entry, set its user bit if it is present. */
    method UserOne(v: nat, ghost m0: Mem, ghost a: nat, ghost own: Tables) returns (ghost own': Tables)
      requires Ready() && TablesOk(own) && Present(Entry(mem[..], pml4, 0)) && v < Span(3) && v % 0x1000 == 0
      requires a <= v / 0x1000 && UserSet(m0, mem[..], pml4, a, v / 0x1000)
      requires LargeAt(mem[..], pml4, 3, v) ==> freeFrames > 0
      modifies this`freeFrames, this`cursor, bitmap, mem
      ensures Ready() && TablesOk(own') && Present(Entry(mem[..], pml4, 0))
      ensures freeFrames == old(freeFrames) - if LargeAt(old(mem[..]), pml4, 3, v) then 1 else 0
      ensures NoNewLarge(old(mem[..]), mem[..], pml4) && !LargeAt(mem[..], pml4, 3, v)
      ensures Grew(old(mem[..]), old(bitmap[..]), own, mem[..], bitmap[..], own')
      ensures UserSet(m0, mem[..], pml4, a, v / 0x1000 + 1)
    {
      hide Entry, Used, FreeBits, Span, Tree, Grew, UserSet, LargeAt, Missing, LeafTable, SameMap, Lookup, LeafPage,
           WithUser, OnePage, Idx, NoLargeUser, NoNewLarge;
      ghost var m, bm := mem[..], bitmap[..];
      ghost var page := v / 0x1000;
      assert page * 0x1000 == v;
      LowAddress(v);
      var rc;
      rc, own' := SplitLarge(v, own);
      ghost var m1, bm1 := mem[..], bitmap[..];
      UserSetAfter(m0, m, m1, pml4, a, page);
      if LeafTable(m1, pml4, 3, v).Some? { NoneMissing(m1, pml4, 3, v); }
      var pt;
      ghost var own1 := own';
      pt, own' := WalkTables(v, false, own1);
      assert own' == own1;
      if pt.None? {
        PageMissing(m1, pml4, v);
        UserNothing(m0, m1, pml4, a, page);
        return;
      }
      InTree(m1, own1, pml4, pt.value);
      PageEntry(m1, own1, pml4, pt.value, v);
      IndexShifts(v);
      var idx := v / 0x1000 % 512;
      var e := LoadEntry(pt.value, idx);
      if !Present(e) {
        PageEmpty(m1, e, pml4, v);
        UserNothing(m0, m1, pml4, a, page);
        return;
      }
      EntryBound(m1, pt.value, idx);
      UserWord(e, v);
      StoreEntry(pt.value, idx, WithUser(e));
      LeafLargeSame(m, m1, mem[..], own1, pml4, pt.value, idx, v);
      LeafMapped(m1, mem[..], own1, pml4, pt.value, v, WithUser(e));
      TableWritten(m, bm, own, m1, bm1, own1, mem[..], pt.value);
      UserStep(m0, m1, mem[..], pml4, a, page, e);
    }
  }

  /**
   * The tables grew by frames that were free, exactly those are newly in use, and no byte outside the tables
   * changed.
   */
  ghost predicate Grew(m: Mem, bm: seq<bv8>, own: Tables, m': Mem, bm': seq<bv8>, own': Tables) {
    && OutsideSame(m, m', own') && |bm| == |bm'| == TOTAL / 8
    && (forall f :: f in own ==> f in own' && own'[f] == own[f])
    && (forall f :: f in own' && f !in own ==> f < TOTAL && !Used(bm, f))
    && (forall f: nat :: f < TOTAL ==> (Used(bm', f) <==> Used(bm, f) || (f in own' && f !in own)))
  }

  /** Bytes outside the tables are as before. */
  ghost predicate OutsideSame(m: Mem, m': Mem, own: Tables) {
    |m'| == |m| && forall a :: 0 <= a < |m| && a / 0x1000 !in own ==> m'[a] == m[a]
  }

  lemma {:induction false} GrewRefl(m: Mem, bm: seq<bv8>, own: Tables)
    requires |bm| == TOTAL / 8
    ensures Grew(m, bm, own, m, bm, own)
  {
  }

  lemma {:induction false} GrewTrans(m: Mem, bm: seq<bv8>, own: Tables, m1: Mem, bm1: seq<bv8>, own1: Tables, m2: Mem,
                                     bm2: seq<bv8>, own2: Tables)
    requires Grew(m, bm, own, m1, bm1, own1) && Grew(m1, bm1, own1, m2, bm2, own2)
    ensures Grew(m, bm, own, m2, bm2, own2)
  {
    forall a | 0 <= a < |m| && a / 0x1000 !in own2 ensures m2[a] == m[a] {
      assert a / 0x1000 !in own1;
    }
  }

  /** A write into one of the tables is part of their growth. */
  lemma {:induction false} TableWritten(m: Mem, bm: seq<bv8>, own: Tables, m1: Mem, bm1: seq<bv8>, own1: Tables,
                                        m2: Mem, f: nat)
    requires Grew(m, bm, own, m1, bm1, own1) && f in own1 && |m2| == |m1|
    requires forall a :: 0 <= a < |m1| && a / 0x1000 != f ==> m2[a] == m1[a]
    ensures Grew(m, bm, own, m2, bm1, own1)
  {
  }

  lemma {:induction false} UnmapStart(m: Mem, bm: seq<bv8>, root: nat, a: nat)
    ensures Unmapped(m, m, root, a, a) && forall f :: !ReachedFrom(m, root, a, a, f)
  {
  }

  lemma {:induction false} ReachedGrows(m: Mem, root: nat, a: nat, b: nat)
    requires a <= b
    ensures forall f: nat ::
              ReachedFrom(m, root, a, b + 1, f) <==> ReachedFrom(m, root, a, b, f) || SmallFrame(m, root, b) == Some(f)
  {
    forall f: nat
      ensures ReachedFrom(m, root, a, b + 1, f) <==> ReachedFrom(m, root, a, b, f) || SmallFrame(m, root, b) == Some(f)
    {
      ReachedStep(m, root, a, b, f);
    }
  }

  /** The loop ends on the last page, or never ran because the range is empty. */
  lemma {:induction false} RangeDone(m: Mem, m': Mem, root: nat, a: nat, z: nat, page: nat)
    requires z <= page && (page <= z || page == a)
    ensures Unmapped(m, m', root, a, page) <==> Unmapped(m, m', root, a, z)
    ensures forall f :: ReachedFrom(m, root, a, page, f) <==> ReachedFrom(m, root, a, z, f)
  {
    assert forall v: nat :: InPages(v, a, page) == InPages(v, a, z);
    forall f ensures ReachedFrom(m, root, a, page, f) <==> ReachedFrom(m, root, a, z, f) { }
  }

  /** Tables inside the kernel lie in managed memory. */
  lemma {:induction false} KernelFrames(m: Mem, root: nat, pdpt: nat, pd: nat, kernelStart: nat, kernelEnd: nat)
    requires kernelEnd <= MAX_PHYS <= |m|
    requires Touches(kernelStart, kernelEnd, root) && Touches(kernelStart, kernelEnd, pdpt)
    requires Touches(kernelStart, kernelEnd, pd) && Touches(kernelStart, kernelEnd, pd + 3)
    ensures InRam(m, root) && InRam(m, pdpt) && InRam(m, pd + 3)
    ensures forall f :: f in BootTables(root, pdpt, pd) ==> f < TOTAL && Touches(kernelStart, kernelEnd, f)
  {
  }

  lemma {:induction false} NotUsable(r: Region)
    requires r.kind != 1
    ensures forall f: nat :: !Usable(r, f)
  {
  }

  /** One more memory-map entry. */
  lemma {:induction false} NextRegion(rs: seq<Region>, i: nat)
    requires i < |rs|
    ensures forall f: nat :: UsableIn(rs[..i + 1], f) <==> UsableIn(rs[..i], f) || Usable(rs[i], f)
  {
    forall f: nat ensures UsableIn(rs[..i + 1], f) <==> UsableIn(rs[..i], f) || Usable(rs[i], f) {
      if UsableIn(rs[..i + 1], f) {
        var j :| 0 <= j < i + 1 && Usable(rs[..i + 1][j], f);
        assert j < i ==> Usable(rs[..i][j], f);
      }
      if UsableIn(rs[..i], f) {
        var j :| 0 <= j < i && Usable(rs[..i][j], f);
        assert Usable(rs[..i + 1][j], f);
      }
      if Usable(rs[i], f) { assert Usable(rs[..i + 1][i], f); }
    }
  }

  lemma {:induction false} NextPageOf(v: nat, end: nat)
    requires v % 0x1000 == 0 && end % 0x1000 == 0 && v < end
    ensures (v + 0x1000) % 0x1000 == 0 && (v + 0x1000) / 0x1000 == v / 0x1000 + 1 <= end / 0x1000
  {
  }

  lemma {:induction false} UserStart(m: Mem, root: nat, a: nat)
    ensures UserSet(m, m, root, a, a)
  {
  }

  function LeafFlags(flags: nat): (low: nat)
    ensures low < 0x1000 && low % 2 == 1
  {
    var x := flags % 0x1000;
    if x % 2 == 1 then x else x + PTE_P
  }

  /** The word of a leaf: frame address, the low flags, and always the present bit. */
  function LeafWord(phys: nat, flags: nat): (e: nat)
    ensures Present(e) && FrameOf(e) == phys / FRAME
    ensures phys < 0x1_0000_0000_0000_0000 ==> e < 0x1_0000_0000_0000_0000
  {
    var low := LeafFlags(flags);
    PackedWord(phys / FRAME, low);
    UnpackedWord(phys);
    phys / FRAME * FRAME + low
  }

  /** Bit 0 of a leaf is set whatever the flags say; their other low bits stand. */
  lemma {:induction false} LeafWordMeans(phys: nat, flags: nat, v: nat)
    ensures var r := LeafPage(LeafWord(phys, flags), v);
            && r.Some? && r.value.phys == phys / 0x1000 * 0x1000 + v % 0x1000
            && r.value.flags % 2 == 1 && r.value.flags / 2 == flags % 0x1000 / 2
  {
    PackedWord(phys / FRAME, LeafFlags(flags));
  }

  /** After a page was mapped its addresses lead into the given frame, and all others where they led. */
  lemma {:induction false} MappedMeans(m: Mem, m': Mem, root: nat, virt: nat, phys: nat, flags: nat)
    requires OnePage(m, m', root, virt, LeafWord(phys, flags))
    ensures forall v: nat | v < 0x1_0000_0000_0000 && v / 0x1000 == virt / 0x1000 ::
              var r := Lookup(m', root, 3, v);
              && r.Some? && r.value.phys == phys / 0x1000 * 0x1000 + v % 0x1000
              && r.value.flags % 2 == 1 && r.value.flags / 2 == flags % 0x1000 / 2
    ensures forall v: nat | v < 0x1_0000_0000_0000 && v / 0x1000 != virt / 0x1000 ::
              Lookup(m', root, 3, v) == Lookup(m, root, 3, v)
  {
    hide Lookup, LeafWord, LeafPage;
    forall v: nat | v < 0x1_0000_0000_0000 && v / 0x1000 == virt / 0x1000
      ensures Lookup(m', root, 3, v) == LeafPage(LeafWord(phys, flags), v)
    {
      assert v < Span(4);
    }
    forall v: nat { LeafWordMeans(phys, flags, v); }
  }

  lemma {:induction false} SameMapRefl(m: Mem, root: nat)
    ensures SameMap(m, m, root)
  {
  }

  lemma {:induction false} LowAddress(v: nat)
    requires v < Span(3)
    ensures v < Span(4)
  {
  }

  lemma {:induction false} IndexShifts(v: nat)
    ensures Idx(v, 2) == v / 0x4000_0000 % 512 && Idx(v, 1) == v / 0x20_0000 % 512 && Idx(v, 0) == v / 0x1000 % 512
  {
  }

  /** The word that names a table: its address with the three open flags. */
  lemma {:induction false} TableWord(t: nat)
    ensures var e := t * FRAME + PTE_P + PTE_W + PTE_U; Present(e) && !LargeBit(e) && FrameOf(e) == t && e % 8 == 7
  {
    PackedWord(t, 7);
    Bit7OfWord(t, 7);
  }

  /** After the split the walk reaches a level-0 table. */
  lemma {:induction false} SplitLeaf(m: Mem, m': Mem, own: Tables, root: nat, pd: nat, i: nat, t: nat, v: nat)
    requires Tree(m, own, root) && Hung(m, m', own, pd, i, t) && v < Span(3) && Present(Entry(m, root, 0))
    requires i == Idx(v, 1) && Present(Entry(m, FrameOf(Entry(m, root, 0)), Idx(v, 2)))
    requires pd == FrameOf(Entry(m, FrameOf(Entry(m, root, 0)), Idx(v, 2)))
    ensures LeafTable(m', root, 3, v) == Some(t) && Present(Entry(m', root, 0))
  {
    UpperTables(m, own, root, v);
    var pdpt := FrameOf(Entry(m, root, 0));
    assert Entry(m', root, 0) == Entry(m, root, 0) && Entry(m', pdpt, Idx(v, 2)) == Entry(m, pdpt, Idx(v, 2));
    assert LeafTable(m', root, 3, v) == LeafTable(m', pdpt, 2, v);
    assert LeafTable(m', pdpt, 2, v) == LeafTable(m', pd, 1, v);
  }

  /** The frame tried in round `i` of the search. */
  function Round(cursor: nat, i: nat): (f: nat)
    ensures f < TOTAL
  {
    (cursor + i) % TOTAL
  }

  /** A search that found every frame in use has seen them all. */
  lemma {:induction false} AllRoundsUsed(bm: seq<bv8>, cursor: nat)
    requires cursor < TOTAL && forall j :: 0 <= j < TOTAL ==> Used(bm, Round(cursor, j))
    ensures FreeBits(bm, TOTAL) == 0
  {
    hide Used;
    forall x: nat | x < TOTAL ensures Used(bm, x) {
      assert Round(cursor, if x >= cursor then x - cursor else x + TOTAL - cursor) == x;
    }
    FreeBitsNone(bm, TOTAL);
  }

  lemma {:induction false} TestBit(bm: seq<bv8>, f: nat)
    requires f / 8 < |bm|
    ensures Used(bm, f) <==> bm[f / 8] & Mask(f % 8) != 0
  {
  }

  lemma {:induction false} SplitFits(e: nat, i: nat)
    requires i < 512 && e < 0x1_0000_0000_0000_0000
    ensures e / 0x20_0000 * 0x20_0000 + i * 0x1000 + e % 0x1000 < 0x1_0000_0000_0000_0000
  {
  }

  lemma {:induction false} UsedOrFree(bm: seq<bv8>, f: nat)
    requires f < TOTAL && !Used(bm, f)
    ensures FreeBits(bm, TOTAL) > 0
  {
    FreeBitsNone(bm, TOTAL);
  }
}
