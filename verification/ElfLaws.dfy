/** What the loader makes of a program file, said of the headers as they are laid out in the file. */
module ElfLaws {
  import opened Bytes
  import opened Frames
  import opened PageTables
  import opened Kernel
  import opened Elf

  /** The file header, field by field. */
  datatype Ehdr = Ehdr(ident: seq<byte>, kind: nat, machine: nat, version: nat, entry: nat, phoff: nat, shoff: nat,
                       flags: nat, ehsize: nat, phentsize: nat, phnum: nat, shentsize: nat, shnum: nat, shstrndx: nat)

  /** A program header, field by field. */
  datatype Phdr = Phdr(kind: nat, flags: nat, off: nat, vaddr: nat, paddr: nat, filesz: nat, memsz: nat, align: nat)

  const HALF: nat := 0x1_0000
  const FULL: nat := 0x1_0000_0000
  const QUAD: nat := 0x1_0000_0000_0000_0000

  predicate EhdrFits(h: Ehdr) {
    && |h.ident| == 16 && h.kind < HALF && h.machine < HALF && h.version < FULL
    && h.entry < QUAD && h.phoff < QUAD && h.shoff < QUAD && h.flags < FULL
    && h.ehsize < HALF && h.phentsize < HALF && h.phnum < HALF && h.shentsize < HALF && h.shnum < HALF
    && h.shstrndx < HALF
  }

  predicate PhdrFits(p: Phdr) {
    && p.kind < FULL && p.flags < FULL && p.off < QUAD && p.vaddr < QUAD && p.paddr < QUAD
    && p.filesz < QUAD && p.memsz < QUAD && p.align < QUAD
  }

  /** The 64 bytes of the file header. */
  function EhdrBytes(h: Ehdr): (r: seq<byte>) {
    h.ident + (Word(h.kind, 2) + (Word(h.machine, 2) + (Word(h.version, 4) + (Word(h.entry, 8) + (Word(h.phoff, 8)
    + (Word(h.shoff, 8) + (Word(h.flags, 4) + (Word(h.ehsize, 2) + (Word(h.phentsize, 2) + (Word(h.phnum, 2)
    + (Word(h.shentsize, 2) + (Word(h.shnum, 2) + Word(h.shstrndx, 2)))))))))))))
  }

  /** The 56 bytes of a program header. */
  function PhdrBytes(p: Phdr): (r: seq<byte>) {
    Word(p.kind, 4) + (Word(p.flags, 4) + (Word(p.off, 8) + (Word(p.vaddr, 8) + (Word(p.paddr, 8)
    + (Word(p.filesz, 8) + (Word(p.memsz, 8) + Word(p.align, 8)))))))
  }

  predicate At(f: seq<byte>, o: nat, w: seq<byte>) { o + |w| <= |f| && f[o..o + |w|] == w }

  lemma {:induction false} Peel(f: seq<byte>, o: nat, a: seq<byte>, b: seq<byte>)
    requires At(f, o, a + b)
    ensures At(f, o, a) && At(f, o + |a|, b)
  {
    assert f[o..o + |a|] == f[o..o + |a + b|][..|a|];
    assert f[o + |a|..o + |a| + |b|] == f[o..o + |a + b|][|a|..];
  }

  /** The field of `n` bytes at the front, and what is behind it. */
  lemma {:induction false} Field(f: seq<byte>, o: nat, v: nat, n: nat, rest: seq<byte>)
    requires At(f, o, Word(v, n) + rest) && v < Shift(n)
    ensures o + n <= |f| && Little(f, o, n) == v && At(f, o + n, rest)
  {
    Peel(f, o, Word(v, n), rest);
    WordRead(f, o, v, n);
  }

  lemma {:induction false} Shifts()
    ensures Shift(2) == HALF && Shift(4) == FULL && Shift(8) == QUAD
  {
    assert Shift(1) == 0x100 && Shift(3) == 0x100_0000 && Shift(4) == FULL;
    assert Shift(5) == 0x100 * FULL && Shift(6) == 0x1_0000 * FULL && Shift(7) == 0x100_0000 * FULL;
  }

  /** The header's fields stand where the loader looks for them. */
  lemma {:induction false} EhdrRead(f: seq<byte>, h: Ehdr)
    requires EhdrFits(h) && At(f, 0, EhdrBytes(h))
    ensures |f| >= 64 && f[..16] == h.ident && Little(f, 18, 2) == h.machine && Little(f, 24, 8) == h.entry
    ensures Little(f, 32, 8) == h.phoff && Little(f, 54, 2) == h.phentsize && Little(f, 56, 2) == h.phnum
  {
    hide Little, Word;
    Shifts();
    hide Shift;
    var r13 := Word(h.shstrndx, 2);
    var r12 := Word(h.shnum, 2) + r13;
    var r11 := Word(h.shentsize, 2) + r12;
    var r10 := Word(h.phnum, 2) + r11;
    var r9 := Word(h.phentsize, 2) + r10;
    var r8 := Word(h.ehsize, 2) + r9;
    var r7 := Word(h.flags, 4) + r8;
    var r6 := Word(h.shoff, 8) + r7;
    var r5 := Word(h.phoff, 8) + r6;
    var r4 := Word(h.entry, 8) + r5;
    var r3 := Word(h.version, 4) + r4;
    var r2 := Word(h.machine, 2) + r3;
    var r1 := Word(h.kind, 2) + r2;
    Peel(f, 0, h.ident, r1);
    Field(f, 16, h.kind, 2, r2);
    Field(f, 18, h.machine, 2, r3);
    Field(f, 20, h.version, 4, r4);
    Field(f, 24, h.entry, 8, r5);
    Field(f, 32, h.phoff, 8, r6);
    Field(f, 40, h.shoff, 8, r7);
    Field(f, 48, h.flags, 4, r8);
    Field(f, 52, h.ehsize, 2, r9);
    Field(f, 54, h.phentsize, 2, r10);
    Field(f, 56, h.phnum, 2, r11);
    assert |f| >= 64;
  }

  lemma {:induction false} PhdrRead(f: seq<byte>, o: nat, p: Phdr)
    requires PhdrFits(p) && At(f, o, PhdrBytes(p))
    ensures o + 56 <= |f| && Little(f, o, 4) == p.kind && Little(f, o + 4, 4) == p.flags && Little(f, o + 8, 8) == p.off
    ensures Little(f, o + 16, 8) == p.vaddr && Little(f, o + 32, 8) == p.filesz && Little(f, o + 40, 8) == p.memsz
  {
    hide Little, Word;
    Shifts();
    hide Shift;
    var r7 := Word(p.align, 8);
    var r6 := Word(p.memsz, 8) + r7;
    var r5 := Word(p.filesz, 8) + r6;
    var r4 := Word(p.paddr, 8) + r5;
    var r3 := Word(p.vaddr, 8) + r4;
    var r2 := Word(p.off, 8) + r3;
    var r1 := Word(p.flags, 4) + r2;
    Field(f, o, p.kind, 4, r1);
    Field(f, o + 4, p.flags, 4, r2);
    Field(f, o + 8, p.off, 8, r3);
    Field(f, o + 16, p.vaddr, 8, r4);
    Field(f, o + 24, p.paddr, 8, r5);
    Field(f, o + 32, p.filesz, 8, r6);
    Field(f, o + 40, p.memsz, 8, r7);
  }

  /** The file begins with header `h`, and its table holds the program headers `ps`. */
  ghost predicate Describes(f: seq<byte>, h: Ehdr, ps: seq<Phdr>) {
    && EhdrFits(h) && At(f, 0, EhdrBytes(h)) && |ps| == h.phnum
    && forall i :: 0 <= i < |ps| ==> PhdrFits(ps[i]) && At(f, h.phoff + i * h.phentsize, PhdrBytes(ps[i]))
  }

  predicate Wanted(p: Phdr) { p.kind == 1 && p.memsz > 0 }

  /** The segment fits the file and lies between 4 MB and 1 GB. */
  predicate Placeable(f: seq<byte>, p: Phdr) {
    p.off + p.filesz <= |f| && p.filesz <= p.memsz && 0x40_0000 <= p.vaddr && p.vaddr + p.memsz <= 0x4000_0000
  }

  /** A 64-bit little-endian program for the machine, with a sound table, sound segments and an entry in user memory. */
  ghost predicate Loads(f: seq<byte>, h: Ehdr, ps: seq<Phdr>) {
    && |h.ident| == 16 && h.ident[..6] == [0x7F, 0x45, 0x4C, 0x46, 2, 1] && h.machine == 62
    && (h.phnum == 0 || h.phentsize >= 56) && h.phoff + h.phnum * h.phentsize <= |f|
    && (forall i :: 0 <= i < |ps| && Wanted(ps[i]) ==> Placeable(f, ps[i]))
    && 0x40_0000 <= h.entry < 0x4000_0000
  }

  lemma {:induction false} HeaderMeans(f: seq<byte>, h: Ehdr, ps: seq<Phdr>)
    requires Describes(f, h, ps)
    ensures |f| >= 64 && EntryPoint(f) == h.entry && Phnum(f) == h.phnum
    ensures HeaderOk(f) <==>
            && h.ident[..6] == [0x7F, 0x45, 0x4C, 0x46, 2, 1] && h.machine == 62
            && (h.phnum == 0 || h.phentsize >= 56) && h.phoff + h.phnum * h.phentsize <= |f|
  {
    hide Little, Rd16, Rd32, Rd64, EhdrBytes, PhdrBytes;
    EhdrRead(f, h);
    WordsAreLittle(f, 18);
    WordsAreLittle(f, 24);
    WordsAreLittle(f, 32);
    WordsAreLittle(f, 54);
    WordsAreLittle(f, 56);
    assert forall i :: 0 <= i < 6 ==> f[i] == f[..16][i] == h.ident[i];
    assert h.ident[..6] == [0x7F, 0x45, 0x4C, 0x46, 2, 1] <==>
           f[0] == 0x7F && f[1] == 0x45 && f[2] == 0x4C && f[3] == 0x46 && f[4] == 2 && f[5] == 1 by {
      assert forall i :: 0 <= i < 6 ==> h.ident[..6][i] == f[i];
    }
  }

  lemma {:induction false} SegmentMeans(f: seq<byte>, h: Ehdr, ps: seq<Phdr>, i: nat)
    requires Describes(f, h, ps) && HeaderOk(f) && i < |ps|
    ensures i < Phnum(f)
    ensures var p := ps[i]; SegmentAt(f, i) == Segment(p.kind, p.flags, p.off, p.vaddr, p.filesz, p.memsz)
  {
    hide Little, Rd16, Rd32, Rd64, EhdrBytes, PhdrBytes, HeaderOk;
    HeaderMeans(f, h, ps);
    EhdrRead(f, h);
    WordsAreLittle(f, 32);
    WordsAreLittle(f, 54);
    var o := h.phoff + i * h.phentsize;
    PhdrRead(f, o, ps[i]);
    WordsAreLittle(f, o);
    WordsAreLittle(f, o + 4);
    WordsAreLittle(f, o + 8);
    WordsAreLittle(f, o + 16);
    WordsAreLittle(f, o + 32);
    WordsAreLittle(f, o + 40);
  }

  /** Which files the loader accepts. */
  lemma {:induction false} AcceptedMeans(f: seq<byte>, h: Ehdr, ps: seq<Phdr>)
    requires Describes(f, h, ps)
    ensures Accepted(f) <==> Loads(f, h, ps)
  {
    hide Describes, SegmentAt, HeaderOk, Phnum, EntryPoint;
    HeaderMeans(f, h, ps);
    IdentLength(f, h, ps);
    if HeaderOk(f) {
      forall i: nat | i < |ps|
        ensures Loadable(SegmentAt(f, i)) == Wanted(ps[i]) && SegmentOk(f, SegmentAt(f, i)) == Placeable(f, ps[i])
      {
        SegmentMeans(f, h, ps, i);
      }
    }
  }

  lemma {:induction false} IdentLength(f: seq<byte>, h: Ehdr, ps: seq<Phdr>)
    requires Describes(f, h, ps)
    ensures |h.ident| == 16 && |ps| == h.phnum
  {
  }

  /** Byte `o` of `size` bytes at `vaddr` lies on the page of `v`. */
  predicate Covers(vaddr: nat, size: nat, o: nat, v: nat) { o < size && (vaddr + o) / 0x1000 == v / 0x1000 }

  /** Pages the segment takes are those it has a byte on. */
  lemma {:induction false} PagesTouched(s: Segment, v: nat)
    requires s.memsz > 0
    ensures InPages(v, FirstPage(s), EndPage(s)) <==> exists o :: Covers(s.vaddr, s.memsz, o, v)
  {
    if InPages(v, FirstPage(s), EndPage(s)) {
      var page := v / 0x1000;
      var o := if page * 0x1000 <= s.vaddr then 0 else page * 0x1000 - s.vaddr;
      assert Covers(s.vaddr, s.memsz, o, v);
    }
  }

  /** A later segment that is loaded has a byte on the page of `v`. */
  ghost predicate TakenLater(ps: seq<Phdr>, i: nat, v: nat) {
    exists j, o :: i < j < |ps| && ps[j].kind == 1 && Covers(ps[j].vaddr, ps[j].memsz, o, v)
  }

  /**
   * What a loaded program finds: at offset `o` of a segment the byte of the file, behind the file's bytes zero,
   * on a page open to it and writable exactly when bit 1 of the flags says so.
   */
  ghost predicate Finds(m: Mem, root: nat, f: seq<byte>, p: Phdr, o: nat)
    requires Placeable(f, p)
  {
    var r := Lookup(m, root, 3, p.vaddr + o);
    && r.Some? && r.value.phys < |m|
    && m[r.value.phys] == (if o < p.filesz then f[p.off + o] else 0)
    && r.value.flags == if p.flags / 2 % 2 == 1 then 7 else 5
  }

  lemma {:induction false} RetakenMeans(f: seq<byte>, h: Ehdr, ps: seq<Phdr>, i: nat, v: nat)
    requires Describes(f, h, ps) && HeaderOk(f) && i < |ps| && Retaken(f, i, Phnum(f), v)
    ensures TakenLater(ps, i, v)
  {
    hide Describes, SegmentAt, HeaderOk, FirstPage, EndPage, InPages;
    HeaderMeans(f, h, ps);
    IdentLength(f, h, ps);
    RetakenBy(f, h, ps, i, v);
  }

  lemma {:induction false} RetakenBy(f: seq<byte>, h: Ehdr, ps: seq<Phdr>, i: nat, v: nat)
    requires Describes(f, h, ps) && HeaderOk(f) && Phnum(f) == |ps| && i < |ps| && Retaken(f, i, Phnum(f), v)
    ensures TakenLater(ps, i, v)
  {
    hide Describes, SegmentAt, HeaderOk, FirstPage, EndPage, InPages, Phnum;
    var j :| i < j < |ps| && Loadable(SegmentAt(f, j))
             && InPages(v, FirstPage(SegmentAt(f, j)), EndPage(SegmentAt(f, j)));
    SegmentMeans(f, h, ps, j);
    PagesTouched(SegmentAt(f, j), v);
    var o :| Covers(SegmentAt(f, j).vaddr, SegmentAt(f, j).memsz, o, v);
    assert ps[j].kind == 1 && Covers(ps[j].vaddr, ps[j].memsz, o, v);
  }

  lemma {:induction false} LoadedMeans(m0: Mem, bm0: seq<bv8>, m: Mem, bm: seq<bv8>, own: Tables, root: nat,
                                       f: seq<byte>, h: Ehdr, ps: seq<Phdr>, i: nat, o: nat)
    requires Describes(f, h, ps) && Loads(f, h, ps) && HeaderOk(f) && LoadedUpTo(m0, bm0, m, bm, own, root, f, Phnum(f))
    requires i < |ps| && ps[i].kind == 1 && o < ps[i].memsz && !TakenLater(ps, i, ps[i].vaddr + o)
    ensures Placeable(f, ps[i]) && Finds(m, root, f, ps[i], o)
  {
    hide Describes, SegmentAt, HeaderOk, Lookup, TakenLater, Retaken;
    HeaderMeans(f, h, ps);
    SegmentMeans(f, h, ps, i);
    var s, v := SegmentAt(f, i), ps[i].vaddr + o;
    if Retaken(f, i, Phnum(f), v) { RetakenMeans(f, h, ps, i, v); }
    assert Wanted(ps[i]) && Loadable(s) && SegmentOk(f, s);
    InSegment(s, o);
    assert Placed(m0, bm0, m, bm, own, root, f, i, Phnum(f));
    assert PageHeld(m0, bm0, m, bm, own, root, f, s, v);
  }

  /**
   * Load a program whose headers are known: it is loaded exactly when they are sound and the frames it takes
   * are free; then the entry point is the header's, and every segment is found as its program header says.
   */
  method LoadDescribed(k: Machine, img: nat, len: nat, ghost own: Tables, ghost h: Ehdr, ghost ps: seq<Phdr>)
    returns (rc: int, entry: nat, ghost own': Tables)
    requires k.Ready() && k.TablesOk(own) && Present(Entry(k.mem[..], k.pml4, 0))
    requires img + len <= k.mem.Length && ImageSafe(k.bitmap[..], own, img, len)
    requires Describes(k.mem[img..img + len], h, ps)
    requires var f := k.mem[img..img + len];
             HeaderOk(f) ==> SplitsCovered(k, own, FileDemand(f, k.mem[..], k.pml4))
    modifies k`freeFrames, k`cursor, k.bitmap, k.mem
    ensures k.Ready() && k.TablesOk(own') && Present(Entry(k.mem[..], k.pml4, 0))
    ensures var f := old(k.mem[img..img + len]);
            rc == 0 <==> Loads(f, h, ps) && HeaderOk(f) && old(k.freeFrames) >= FileDemand(f, old(k.mem[..]), k.pml4)
    ensures rc == 0 ==>
              var f := old(k.mem[img..img + len]);
              && entry == h.entry
              && forall i, o: nat :: 0 <= i < |ps| && ps[i].kind == 1 && o < ps[i].memsz
                                     && !TakenLater(ps, i, ps[i].vaddr + o) ==>
                   Placeable(f, ps[i]) && Finds(k.mem[..], k.pml4, f, ps[i], o)
  {
    hide Describes, HeaderOk, LoadedUpTo, Loading, TakenLater, FileDemand, ImageSafe, Finds, Placeable;
    ghost var m0, bm0, f := k.mem[..], k.bitmap[..], k.mem[img..img + len];
    AcceptedMeans(f, h, ps);
    HeaderMeans(f, h, ps);
    rc, entry, own' := ElfLoad(k, img, len, own);
    if rc == 0 {
      forall i, o: nat | 0 <= i < |ps| && ps[i].kind == 1 && o < ps[i].memsz && !TakenLater(ps, i, ps[i].vaddr + o)
        ensures Placeable(f, ps[i]) && Finds(k.mem[..], k.pml4, f, ps[i], o)
      {
        LoadedMeans(m0, bm0, k.mem[..], k.bitmap[..], own', k.pml4, f, h, ps, i, o);
      }
    }
  }
}
