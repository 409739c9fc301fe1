/** The entry a write stores, and the accounting of clusters over a whole write. */
module FatCommit {
  import opened Bytes
  import opened FatNames
  import opened FatChains
  import opened FatVolume
  import opened FatUpdates
  import opened FatTree
  import opened FatDisk
  import opened FatPaths
  import opened FatNewChain

  /** The 32 bytes of a plain-file entry. */
  function NewEntry(n: Name83, clus: nat, size: nat): (e: Entry) {
    n + [0x20] + [0, 0, 0, 0, 0, 0, 0, 0] + Le16(clus / 0x1_0000) + Le16(0x21) + Le16(0x21)
    + Le16(clus % 0x1_0000) + Le32(size)
  }

  lemma {:induction false} NewEntryReads(n: Name83, clus: nat, size: nat)
    requires clus < 0x1_0000_0000 && size < 0x1_0000_0000
    ensures FileEntry(NewEntry(n, clus, size), n)
    ensures ClusOf(NewEntry(n, clus, size)) == clus && SizeOf(NewEntry(n, clus, size)) == size
  {
    var e := NewEntry(n, clus, size);
    assert e[..11] == n && e[20..22] == Le16(clus / 0x1_0000) && e[26..28] == Le16(clus % 0x1_0000)
           && e[28..32] == Le32(size);
    Le16Value(clus / 0x1_0000);
    Le16Value(clus % 0x1_0000);
    Le32Value(size);
    assert Rd16(e, 20) == Rd16(e[20..22], 0) && Rd16(e, 26) == Rd16(e[26..28], 0) && Rd32(e, 28) == Rd32(e[28..32], 0);
  }

  /** What a write of `buf` stores: the size field has 32 bits. */
  function Kept(buf: seq<byte>): (r: seq<byte>)
    ensures |buf| < 0x1_0000_0000 ==> r == buf
  {
    buf[..|buf| % 0x1_0000_0000]
  }

  // ----- what a write aims at

  /** The directory and the 8.3 name a path would be written to, when the path can name a plain file. */
  datatype Aim = Aim(par: seq<Str>, leaf: Str, d: nat, n: Name83)

  ghost function Target(g: Geo, v: Vol, path: Str): (r: Option<Aim>)
    ensures r.Some? ==> DirAt(v, g.root, r.value.par) == Some(r.value.d) && Encode83(r.value.leaf) == Some(r.value.n)
    ensures r.Some? ==> PathOf(path) == Some(r.value.par + [r.value.leaf])
  {
    match PathOf(path)
    case None => None
    case Some(p) =>
      if p == [] then None else
      var par, leaf := p[..|p| - 1], p[|p| - 1];
      assert p == par + [leaf];
      match (DirAt(v, g.root, par), Encode83(leaf))
      case (Some(d), Some(n)) =>
        (match Find(DirEnts(v, d), By83(n), 0)
         case Some(i) => if IsDir(DirEnts(v, d)[i]) then None else Some(Aim(par, leaf, d, n))
         case None => Some(Aim(par, leaf, d, n)))
      case _ => None
  }

  /** The slot that already holds the target. */
  ghost function Existing(v: Vol, a: Aim): (r: Option<nat>)
    ensures r.Some? ==> r.value < |DirEnts(v, a.d)|
  {
    Find(DirEnts(v, a.d), By83(a.n), 0)
  }

  /** Clusters a write claims: the data's, and one more when the directory has no free slot. */
  ghost function Claims(g: Geo, v: Vol, a: Aim, len: nat): (r: nat)
    requires g.spc >= 1
  {
    Need(g.spc, len) + if Existing(v, a).Some? || FirstFree(DirEnts(v, a.d), 0).Some? then 0 else 1
  }

  ghost predicate CanWrite(g: Geo, v: Vol, path: Str, len: nat)
    requires Shape(g, v)
  {
    Target(g, v, path).Some? && Claims(g, v, Target(g, v, path).value, len) <= FreeCount(v.fat)
  }

  /** The upper-case path a write changes. */
  ghost function WrittenPath(a: Aim): (r: seq<Str>) {
    UpperPath(a.par) + [NameOf(a.n)]
  }

  /** The chain of the file being replaced. */
  ghost function OldChain(v: Vol, t: Layout, a: Aim): (r: seq<nat>) {
    match Existing(v, a)
    case Some(i) => if FileO(a.d, i) in t.chains then t.chains[FileO(a.d, i)] else []
    case None => []
  }

  // ----- clusters in use that nobody owns, through the four stages

  ghost predicate SameLost(v: Vol, t: Layout, w: Vol, t': Layout) {
    forall c: nat :: Lost(w, t', c) <==> Lost(v, t, c)
  }

  lemma {:induction false} LostAfterChain(g: Geo, v: Vol, w: Vol, t: Layout, head: nat, ch: seq<nat>)
    requires Consistent(g, v, t) && FreshChain(v, w, ch) && (ch != [] ==> IsChain(w.fat, head, ch))
    ensures forall c: nat :: Lost(w, t, c) <==> Lost(v, t, c) || c in ch
    ensures forall c: nat :: c in ch ==> !Owned(t, c)
  {
    if ch != [] { ChainInRange(w.fat, head, ch); }
    forall c: nat | c in ch ensures !Owned(t, c) {
      if Owned(t, c) {
        var o :| o in t.chains && c in t.chains[o];
        OwnedInRange(g, v, t, o);
      }
    }
  }

  lemma {:induction false} OwnedGrown(t: Layout, d: nat, n: nat, c: nat)
    requires HasDir(t, d)
    ensures Owned(Grown(t, d, n), c) <==> Owned(t, c) || c == n
  {
    var t' := Grown(t, d, n);
    if Owned(t, c) {
      var o :| o in t.chains && c in t.chains[o];
      assert o in t'.chains && c in t'.chains[o];
    }
    if c == n {
      assert c in t'.chains[DirO(d)];
    }
    if Owned(t', c) && c != n {
      var o :| o in t'.chains && c in t'.chains[o];
      assert o in t.chains && c in t.chains[o];
    }
  }

  lemma {:induction false} OwnedWithFile(g: Geo, v: Vol, t: Layout, d: nat, p: nat, ch: seq<nat>, c: nat)
    requires Consistent(g, v, t)
    ensures var och := if FileO(d, p) in t.chains then t.chains[FileO(d, p)] else [];
            Owned(WithFile(t, d, p, ch), c) <==> c in ch || (Owned(t, c) && c !in och)
  {
    var t' := WithFile(t, d, p, ch);
    var och := if FileO(d, p) in t.chains then t.chains[FileO(d, p)] else [];
    if Owned(t, c) && c !in och {
      var o :| o in t.chains && c in t.chains[o];
      assert o != FileO(d, p);
      assert o in t'.chains && c in t'.chains[o];
    }
    if c in ch {
      assert FileO(d, p) in t'.chains && c in t'.chains[FileO(d, p)];
    }
    if Owned(t', c) && c !in ch {
      var o :| o in t'.chains && c in t'.chains[o];
      assert o in t.chains && c in t.chains[o];
      if FileO(d, p) in t.chains {
        assert Disjoint(t.chains[o], t.chains[FileO(d, p)]);
      }
    }
  }

  // ----- the write of the entry

  ghost predicate LocatesSlot(g: Geo, v: Vol, t: Layout, d: nat, p: nat, loc: Loc) {
    && HasDir(t, d) && p == 16 * loc.k + loc.i && loc.i < 16
    && Locates(g.spc, t.chains[DirO(d)], loc.k, loc.c, loc.s)
    && 2 <= loc.c < |v.fat| && loc.s < g.spc
  }

  /** The volume after entry `e` went over slot `loc.i` of its sector. */
  ghost predicate SlotWritten(g: Geo, v: Vol, w: Vol, loc: Loc, e: Entry)
    requires Shape(g, v) && 2 <= loc.c < |v.fat| && loc.s < g.spc && loc.i < 16
  {
    w == WithSector(v, loc.c, loc.s, Patch(v.clus[loc.c][loc.s], 32 * loc.i, e))
  }

  lemma {:induction false} SlotWrittenEnts(g: Geo, v: Vol, w: Vol, t: Layout, d: nat, p: nat, loc: Loc, e: Entry)
    requires Consistent(g, v, t) && LocatesSlot(g, v, t, d, p, loc) && SlotWritten(g, v, w, loc, e)
    ensures p < |DirEnts(v, d)| && DirEnts(w, d) == DirEnts(v, d)[p := e]
    ensures loc.c in t.chains[DirO(d)] && Shape(g, w)
  {
    var ch := t.chains[DirO(d)];
    var x: Sector := Patch(v.clus[loc.c][loc.s], 32 * loc.i, e);
    assert DirChainOk(v, t, d);
    ChainOfIs(v.fat, d, ch);
    ChainNoRepeat(v.fat, d, ch);
    OwnedInRange(g, v, t, DirO(d));
    forall i | 0 <= i < |ch| ensures 2 <= ch[i] < |v.fat| {
      assert ch[i] in ch;
    }
    LocatesMember(g.spc, ch, loc.k, loc.c, loc.s);
    LocateUpdate(g, v, w, ch, loc.k, loc.c, loc.s, x);
    LocatedSector(g, v, ch, loc.k, loc.c, loc.s);
    PatchEntry(v.clus[loc.c][loc.s], loc.i, e);
    EntsUpdate(Content(v, ch), loc.k, x, loc.i, e);
  }

  lemma {:induction false} LocatedSector(g: Geo, v: Vol, ch: seq<nat>, k: nat, c: nat, s: nat)
    requires Shape(g, v) && Locates(g.spc, ch, k, c, s) && InTable(ch, |v.fat|) && 2 <= c < |v.fat| && s < g.spc
    ensures k < |Content(v, ch)| && Content(v, ch)[k] == v.clus[c][s]
    decreases |ch|
  {
    if k >= g.spc { LocatedSector(g, v, ch[1..], k - g.spc, c, s); }
  }

  lemma {:induction false} SlotWrittenStored(g: Geo, v: Vol, w: Vol, t: Layout, d: nat, p: nat, loc: Loc, n: Name83,
                                             head: nat, size: nat, ch: seq<nat>)
    requires Consistent(g, v, t) && LocatesSlot(g, v, t, d, p, loc)
    requires head < 0x1_0000_0000 && size < 0x1_0000_0000
    requires SlotWritten(g, v, w, loc, NewEntry(n, head, size))
    requires if ch == [] then head == 0 && size == 0 else IsChain(v.fat, head, ch)
    requires forall x :: x in ch ==> !Owned(t, x)
    ensures Stored(g, v, w, t, d, p, NewEntry(n, head, size), ch)
    ensures Content(w, ch) == Content(v, ch)
            && FileBytes(w, NewEntry(n, head, size)) == Take(Flat(Content(w, ch)), size)
  {
    var e := NewEntry(n, head, size);
    NewEntryReads(n, head, size);
    SlotWrittenEnts(g, v, w, t, d, p, loc, e);
    assert FileChain(v.fat, e, ch);
    assert Owned(t, loc.c);
    ContentFrame(v, w, ch);
    BytesOfChain(w, e, ch);
  }

  /** Storing the entry rewrites one path of the tree and keeps the volume consistent. */
  lemma {:induction false} EntryStored(g: Geo, v: Vol, w: Vol, t: Layout, d: nat, p: nat, loc: Loc, leaf: Str,
                                       n: Name83, head: nat, size: nat, ch: seq<nat>)
    requires Consistent(g, v, t) && LocatesSlot(g, v, t, d, p, loc)
    requires head < 0x1_0000_0000 && size < 0x1_0000_0000
    requires SlotWritten(g, v, w, loc, NewEntry(n, head, size))
    requires if ch == [] then head == 0 && size == 0 else IsChain(v.fat, head, ch)
    requires forall x :: x in ch ==> !Owned(t, x)
    requires Encode83(leaf) == Some(n) && SlotFor(DirEnts(v, d), n, p)
    ensures Consistent(g, w, WithFile(t, d, p, ch)) && Content(w, ch) == Content(v, ch)
    ensures LayoutKept(g, v, t, w, WithFile(t, d, p, ch))
    ensures forall q :: DirAt(v, g.root, q) == Some(d) ==>
              Rewritten(g, v, w, UpperPath(q) + [NameOf(n)], Take(Flat(Content(w, ch)), size))
  {
    var e := NewEntry(n, head, size);
    NewEntryReads(n, head, size);
    SlotWrittenStored(g, v, w, t, d, p, loc, n, head, size, ch);
    StoredConsistent(g, v, w, t, d, p, e, ch, leaf);
    StoredReached(g, v, w, t, d, p, e, ch, n);
    StoredOnePoint(g, v, w, t, d, p, e, ch, leaf);
    forall s | Upper(s) == NameOf(n) ensures Step(v, d, s) == None || Step(v, d, s).value.File? {
      StoredStep(g, v, w, t, d, p, e, ch, leaf, d, s);
    }
    forall q | DirAt(v, g.root, q) == Some(d)
      ensures Rewritten(g, v, w, UpperPath(q) + [NameOf(n)], Take(Flat(Content(w, ch)), size))
    {
      OnePointRewrites(g, v, w, t, q, d, n, FileBytes(w, e));
    }
  }

  // ----- letting go of the old chain

  /** Clusters a crash may leave lost: those lost before, and `extra`. */
  ghost function MayLose(v: Vol, t: Layout, extra: seq<nat>): iset<nat> {
    iset c: nat | Lost(v, t, c) || c in extra
  }

  ghost predicate LostWithin(v: Vol, t: Layout, lim: iset<nat>) {
    forall c: nat :: Lost(v, t, c) ==> c in lim
  }

  /**
   * Volume `x`, met on the way from `v`: some layout makes it consistent, no cluster is lost in it
   * but those lost in `v` and those of `extra`, and the layout is kept: different names, and no directory
   * out of reach.
   */
  ghost predicate Sound(g: Geo, v: Vol, t: Layout, x: Vol, extra: seq<nat>) {
    exists tx :: Consistent(g, x, tx) && LostWithin(x, tx, MayLose(v, t, extra)) && LayoutKept(g, v, t, x, tx)
  }

  lemma {:induction false} SoundBy(g: Geo, v: Vol, t: Layout, x: Vol, tx: Layout, extra: seq<nat>)
    requires Consistent(g, x, tx) && LostWithin(x, tx, MayLose(v, t, extra)) && LayoutKept(g, v, t, x, tx)
    ensures Sound(g, v, t, x, extra)
  {
  }

  /** The same seen from an earlier volume. */
  lemma {:induction false} SoundFrom(g: Geo, v: Vol, t: Layout, v1: Vol, t1: Layout, x: Vol, extra: seq<nat>,
                                     extra1: seq<nat>)
    requires Sound(g, v1, t1, x, extra1) && MayLose(v1, t1, extra1) <= MayLose(v, t, extra)
             && LayoutKept(g, v, t, v1, t1)
    ensures Sound(g, v, t, x, extra)
  {
    var tx :| Consistent(g, x, tx) && LostWithin(x, tx, MayLose(v1, t1, extra1)) && LayoutKept(g, v1, t1, x, tx);
    assert LostWithin(x, tx, MayLose(v, t, extra)) && LayoutKept(g, v, t, x, tx);
  }

  lemma {:induction false} SoundMore(g: Geo, v: Vol, t: Layout, x: Vol, extra: seq<nat>, more: seq<nat>)
    requires Sound(g, v, t, x, extra) && forall c :: c in extra ==> c in more
    ensures Sound(g, v, t, x, more)
  {
    SoundFrom(g, v, t, v, t, x, more, extra);
  }

  /** A volume in which only free clusters were claimed. */
  lemma {:induction false} FreshSound(g: Geo, v: Vol, t: Layout, x: Vol, ch: seq<nat>)
    requires Consistent(g, v, t) && FreshChain(v, x, ch) && Shape(g, x)
    ensures Consistent(g, x, t) && SameTree(g, v, x) && Sound(g, v, t, x, ch) && LayoutKept(g, v, t, x, t)
  {
    FreshKept(v, x, ch);
    UsedKeptSameTree(g, v, x, t);
    UsedKeptKeeps(g, v, x, t);
    KeepReached(g, v, x, t);
    FreshLost(v, x, t, ch);
    SoundBy(g, v, t, x, t, ch);
  }

  lemma {:induction false} FreshLost(v: Vol, x: Vol, t: Layout, ch: seq<nat>)
    requires FreshChain(v, x, ch)
    ensures LostWithin(x, t, MayLose(v, t, ch))
  {
  }

  lemma {:induction false} SameTreeTrans(g: Geo, a: Vol, b: Vol, c: Vol)
    requires SameTree(g, a, b) && SameTree(g, b, c)
    ensures SameTree(g, a, c)
  {
    forall p ensures Stat(a, g.root, p) == Stat(c, g.root, p) && DirAt(a, g.root, p) == DirAt(c, g.root, p) {
      assert Stat(a, g.root, p) == Stat(b, g.root, p);
      assert Stat(b, g.root, p) == Stat(c, g.root, p);
    }
  }

  lemma {:induction false} RewrittenTrans(g: Geo, a: Vol, b: Vol, c: Vol, d: Vol, target: seq<Str>, bytes: seq<byte>)
    requires SameTree(g, a, b) && Rewritten(g, b, c, target, bytes) && SameTree(g, c, d)
    ensures Rewritten(g, a, d, target, bytes)
  {
    forall p: seq<Str>
      ensures Stat(d, g.root, p) == if UpperPath(p) == target then Some(FileObj(bytes)) else Stat(a, g.root, p)
    {
      assert Stat(a, g.root, p) == Stat(b, g.root, p);
      assert Stat(c, g.root, p) == Stat(d, g.root, p);
    }
  }

  /** Clearing entries of clusters nobody owns, in any number, keeps the tree. */
  lemma {:induction false} ClearedSameTree(g: Geo, v: Vol, w: Vol, h: seq<nat>, t: Layout, och: seq<nat>)
    requires Consistent(g, v, t) && (forall x :: x in och ==> !Owned(t, x)) && w.clus == v.clus
    requires Between(v.fat, w.fat, h) && forall x :: 0 <= x < |h| ==> h[x] == if x in och then 0 else v.fat[x]
    ensures Consistent(g, w, t) && SameTree(g, v, w) && Sound(g, v, t, w, []) && LayoutKept(g, v, t, w, t)
  {
    KeepConsistent(g, v, w, t);
    SameStepsSameTree(g, v, w, t);
    KeepReached(g, v, w, t);
    ClearedLost(v, w, h, t, och);
    SoundBy(g, v, t, w, t, []);
  }

  lemma {:induction false} ClearedLost(v: Vol, w: Vol, h: seq<nat>, t: Layout, och: seq<nat>)
    requires Between(v.fat, w.fat, h) && forall x :: 0 <= x < |h| ==> h[x] == if x in och then 0 else v.fat[x]
    ensures LostWithin(w, t, MayLose(v, t, []))
  {
  }

  /** The chain a found entry names, and what becomes of it when the entry is replaced. */
  lemma {:induction false} ReplacedChain(g: Geo, v: Vol, w: Vol, t: Layout, d: nat, p: nat, ch: seq<nat>)
    returns (och: seq<nat>)
    requires Consistent(g, v, t) && HasDir(t, d) && p < |DirEnts(v, d)|
    requires Visible(DirEnts(v, d)[p]) && !IsDir(DirEnts(v, d)[p])
    requires w.fat == v.fat && forall x :: x in ch ==> !Owned(t, x)
    ensures FileO(d, p) in t.chains && och == t.chains[FileO(d, p)]
    ensures FileChain(w.fat, DirEnts(v, d)[p], och)
    ensures forall x :: x in och ==> !Owned(WithFile(t, d, p, ch), x)
    ensures forall x :: x in och ==> 2 <= x < |v.fat| && v.fat[x] != 0
  {
    FileSlotChain(g, v, t, d, p);
    och := t.chains[FileO(d, p)];
    OwnedInRange(g, v, t, FileO(d, p));
    forall x | x in och ensures !Owned(WithFile(t, d, p, ch), x) {
      OwnedWithFile(g, v, t, d, p, ch, x);
      assert Owned(t, x);
    }
  }

  /** A chain that stays clear of the touched clusters is still there. */
  lemma {:induction false} ChainUntouched(v: Vol, w: Vol, head: nat, ch: seq<nat>, a: nat, b: nat)
    requires ch == [] || IsChain(v.fat, head, ch)
    requires |w.fat| == |v.fat| && |w.clus| == |v.clus| && a !in ch && b !in ch
    requires forall x: nat :: x < |v.fat| && x != a && x != b ==> w.fat[x] == v.fat[x]
    requires forall x: nat :: x < |v.clus| && x != a ==> w.clus[x] == v.clus[x]
    ensures ch == [] || IsChain(w.fat, head, ch)
    ensures Content(w, ch) == Content(v, ch)
  {
    if ch != [] {
      ChainInRange(v.fat, head, ch);
      ChainFrame(v.fat, w.fat, head, ch);
    }
    ContentFrame(v, w, ch);
  }

  lemma {:induction false} FreeSlotUnowned(g: Geo, v: Vol, t: Layout, d: nat, p: nat)
    requires Consistent(g, v, t) && p < |DirEnts(v, d)| && FreeSlot(DirEnts(v, d)[p])
    ensures FileO(d, p) !in t.chains
  {
    assert FileO(d, p) in t.chains ==> FileSlotOk(v, t, d, p);
  }

  ghost function SlotChain(t: Layout, d: nat, p: nat): (r: seq<nat>) {
    if FileO(d, p) in t.chains then t.chains[FileO(d, p)] else []
  }

  /** Storing the entry and clearing the old chain leaves exactly the new chain's clusters found again. */
  lemma {:induction false} LostAfterCommit(g: Geo, v: Vol, w: Vol, t: Layout, d: nat, p: nat, ch: seq<nat>)
    requires Consistent(g, v, t) && |w.fat| == |v.fat|
    requires forall x :: 0 <= x < |w.fat| ==> w.fat[x] == if x in SlotChain(t, d, p) then 0 else v.fat[x]
    ensures forall c: nat :: Lost(w, WithFile(t, d, p, ch), c) <==> Lost(v, t, c) && c !in ch
  {
    var och := SlotChain(t, d, p);
    forall c: nat ensures Lost(w, WithFile(t, d, p, ch), c) <==> Lost(v, t, c) && c !in ch {
      OwnedWithFile(g, v, t, d, p, ch, c);
      if c in och {
        assert FileO(d, p) in t.chains;
        assert Owned(t, c);
        assert 2 <= c < |v.fat| by { OwnedInRange(g, v, t, FileO(d, p)); }
      }
    }
  }

  /** After the new chain is written nobody can see it, and nothing else has moved. */
  lemma {:induction false} ChainHidden(g: Geo, v: Vol, w: Vol, t: Layout, a: Aim, head: nat, ch: seq<nat>)
    requires Consistent(g, v, t) && HasDir(t, a.d) && UsedKept(v, w) && Shape(g, w)
    requires DirAt(v, g.root, a.par) == Some(a.d)
    ensures Consistent(g, w, t) && SameTree(g, v, w) && DirEnts(w, a.d) == DirEnts(v, a.d)
    ensures DirAt(w, g.root, a.par) == Some(a.d)
  {
    UsedKeptSameTree(g, v, w, t);
    UsedKeptKeeps(g, v, w, t);
    KeepDir(g, v, w, t, a.d);
    SameStepsSameStat(g, v, w, t, g.root, a.par);
  }

  /** An existing target's slot holds a visible plain file. */
  lemma {:induction false} TargetSlot(g: Geo, v: Vol, t: Layout, a: Aim, p: nat)
    requires Consistent(g, v, t) && HasDir(t, a.d) && Encode83(a.leaf) == Some(a.n)
    requires Existing(v, a) == Some(p) && !IsDir(DirEnts(v, a.d)[p])
    ensures Visible(DirEnts(v, a.d)[p]) && SlotFor(DirEnts(v, a.d), a.n, p)
    ensures FileO(a.d, p) in t.chains && OldChain(v, t, a) == SlotChain(t, a.d, p)
  {
    assert DirOk(v, t, a.d);
    assert EntryOk(v.fat, t, a.d, p, DirEnts(v, a.d)[p]);
    SameTextSameBytes(DirEnts(v, a.d)[p], a.leaf);
  }

  /**
   * What a crash may leave: a consistent volume that reads as before the write or as after it, with
   * nothing lost that was not lost before but clusters of `extra`.
   */
  ghost predicate CrashSafe(g: Geo, v: Vol, t: Layout, w: Vol, x: Vol, extra: seq<nat>) {
    Sound(g, v, t, x, extra) && (SameTree(g, v, x) || SameTree(g, w, x))
  }

  /** The chain a write to `path` replaces. */
  ghost function Replaced(g: Geo, v: Vol, t: Layout, path: Str): seq<nat> {
    match Target(g, v, path) case Some(a) => OldChain(v, t, a) case None => []
  }

  /** Clusters a write claimed: all of them were free, and no more of them than it needs. */
  ghost predicate Claimed(g: Geo, v: Vol, path: Str, len: nat, cs: seq<nat>)
    requires Shape(g, v)
  {
    && (forall c :: c in cs ==> 2 <= c < |v.fat| && v.fat[c] == 0)
    && match Target(g, v, path)
       case Some(a) => |cs| <= Claims(g, v, a, len) && (CanWrite(g, v, path, len) ==> |cs| == Claims(g, v, a, len))
       case None => cs == []
  }

  /** Storing the entry loses at most the chain it replaces. */
  lemma {:induction false} StoredLost(g: Geo, v: Vol, w: Vol, t: Layout, d: nat, p: nat, ch: seq<nat>)
    requires Consistent(g, v, t) && w.fat == v.fat
    ensures LostWithin(w, WithFile(t, d, p, ch), MayLose(v, t, SlotChain(t, d, p)))
    ensures MayLose(w, WithFile(t, d, p, ch), []) <= MayLose(v, t, SlotChain(t, d, p))
  {
    forall c: nat | Lost(w, WithFile(t, d, p, ch), c)
      ensures c in MayLose(v, t, SlotChain(t, d, p))
    {
      OwnedWithFile(g, v, t, d, p, ch, c);
    }
  }

  /** What is lost of a volume with the new chain, seen from before that chain was begun. */
  lemma {:induction false} LostBefore(v: Vol, w: Vol, t: Layout, ch: seq<nat>, extra: seq<nat>)
    requires forall c: nat :: Lost(w, t, c) <==> Lost(v, t, c) || c in ch
    ensures MayLose(w, t, extra) <= MayLose(v, t, ch + extra)
  {
  }

  lemma {:induction false} Unchanged(g: Geo, v: Vol, w: Vol, t: Layout)
    requires w.fat == v.fat
    ensures SameTree(g, v, v) && SameLost(v, t, w, t)
  {
  }

  lemma {:induction false} TargetFacts(g: Geo, v: Vol, t: Layout, path: Str, a: Aim, p: nat)
    requires Consistent(g, v, t) && Target(g, v, path) == Some(a) && HasDir(t, a.d)
    ensures DirAt(v, g.root, a.par) == Some(a.d) && Encode83(a.leaf) == Some(a.n)
    ensures Existing(v, a) == Some(p) ==>
              && p < |DirEnts(v, a.d)| && !IsDir(DirEnts(v, a.d)[p]) && Visible(DirEnts(v, a.d)[p])
              && SlotFor(DirEnts(v, a.d), a.n, p) && OldChain(v, t, a) == SlotChain(t, a.d, p)
    ensures Existing(v, a).None? ==> OldChain(v, t, a) == []
  {
    if Existing(v, a) == Some(p) {
      TargetSlot(g, v, t, a, p);
    }
  }

  lemma {:induction false} TakeKept(flat: seq<byte>, buf: seq<byte>)
    requires |buf| <= |flat| && flat[..|buf|] == buf
    ensures Take(flat, |buf| % 0x1_0000_0000) == Kept(buf)
  {
    assert Kept(buf) == flat[..|buf|][..|buf| % 0x1_0000_0000];
  }

  /** Lost clusters over the whole write, from the three stages. */
  lemma {:induction false} LostSummary(g: Geo, v: Vol, t: Layout, v1: Vol, w: Vol, t': Layout, ch: seq<nat>)
    requires FreshChain(v, v1, ch)
    requires forall c: nat :: Lost(v1, t, c) <==> Lost(v, t, c) || c in ch
    requires forall c: nat :: Lost(w, t', c) <==> Lost(v1, t, c) && c !in ch
    ensures SameLost(v, t, w, t')
  {
    forall c: nat ensures Lost(w, t', c) <==> Lost(v, t, c) {
      if c in ch {
        var i :| 0 <= i < |ch| && ch[i] == c;
      }
    }
  }
}
