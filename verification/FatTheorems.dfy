/** What the driver's contracts mean for paths: round trip, frame, and a volume to start from. */
module FatTheorems {
  import opened Bytes
  import opened FatNames
  import opened FatChains
  import opened FatVolume
  import opened FatUpdates
  import opened FatTree
  import opened FatDisk
  import opened FatPaths
  import opened FatNewChain
  import opened FatCommit
  import opened FatLeaks
  import opened FatLaws
  import opened FatDriver

  lemma {:induction false} UpperPathAppend(p: seq<Str>, s: Str)
    ensures UpperPath(p + [s]) == UpperPath(p) + [Upper(s)]
  {
    UpperPathSnoc(p + [s]);
    assert (p + [s])[..|p|] == p;
  }

  /** No entry reads as a name that ends in a dot. */
  lemma {:induction false} NoDottedEntry(g: Geo, v: Vol, t: Layout, d: nat, s: Str)
    requires Consistent(g, v, t) && HasDir(t, d) && EndsWithDot(s)
    ensures Step(v, d, s) == None
  {
    if NameSlot(v, d, s).Some? {
      var i := NameSlot(v, d, s).value;
      var e := DirEnts(v, d)[i];
      assert DirOk(v, t, d);
      assert EntryOk(v.fat, t, d, i, e);
      TextEndsPlain(e);
      assert EndsWithDot(Upper(s));
    }
  }

  /** A path whose leaf ends in a dot names nothing, and is never the path that is written. */
  lemma {:induction false} DottedPath(g: Geo, v: Vol, t: Layout, path: Str)
    requires Consistent(g, v, t) && Target(g, v, path).Some? && EndsWithDot(Target(g, v, path).value.leaf)
    ensures var a := Target(g, v, path).value;
            Stat(v, g.root, a.par + [a.leaf]) == None && UpperPath(a.par + [a.leaf]) != WrittenPath(a)
  {
    hide Target, Consistent, PathOf, Encode83, DirAt, NameOf;
    var a := Target(g, v, path).value;
    UpperPathAppend(a.par, a.leaf);
    assert EndsWithDot(Upper(a.leaf));
    EncodedFields(a.leaf);
    TextEndsPlain(a.n);
    assert WrittenPath(a)[|a.par|] == NameOf(a.n);
    RootIs(g, v, t);
    DirAtInside(g, v, t, g.root, a.par);
    DirAtSnoc(v, g.root, a.par, a.leaf);
    NoDottedEntry(g, v, t, a.d, a.leaf);
  }

  /** A path without such a dot is the one that is written. */
  lemma {:induction false} PlainPathWritten(g: Geo, v: Vol, path: Str)
    requires Target(g, v, path).Some? && !EndsWithDot(Target(g, v, path).value.leaf)
    ensures var a := Target(g, v, path).value; UpperPath(a.par + [a.leaf]) == WrittenPath(a)
  {
    hide Target, PathOf, Encode83, DirAt, NameOf;
    var a := Target(g, v, path).value;
    UpperPathAppend(a.par, a.leaf);
    EncodedNameReads(a.leaf);
  }

  /**
   * A written file reads back exactly when its leaf does not end in a dot: the stored name loses
   * that dot, and the path walk compares the dotted text.
   */
  lemma {:induction false} ReadsBack(g: Geo, v: Vol, w: Vol, t: Layout, path: Str, buf: seq<byte>)
    requires Consistent(g, v, t) && Target(g, v, path).Some?
    requires Rewritten(g, v, w, WrittenPath(Target(g, v, path).value), Kept(buf))
    ensures Contents(g, w, path) == Some(Kept(buf)) <==> !EndsWithDot(Target(g, v, path).value.leaf)
    ensures EndsWithDot(Target(g, v, path).value.leaf) ==> Contents(g, w, path) == None
  {
    hide Target, Consistent, Encode83, DirAt, NameOf, Stat, Kept, WrittenPath, UpperPath, PathOf;
    var a := Target(g, v, path).value;
    var p := a.par + [a.leaf];
    assert Stat(w, g.root, p) ==
           if UpperPath(p) == WrittenPath(a) then Some(FileObj(Kept(buf))) else Stat(v, g.root, p);
    if EndsWithDot(a.leaf) {
      DottedPath(g, v, t, path);
    } else {
      PlainPathWritten(g, v, path);
    }
  }

  /** The bytes of the path `other` after a write to `path`. */
  ghost function AfterWrite(g: Geo, v: Vol, path: Str, buf: seq<byte>, other: Str): Option<seq<byte>>
    requires Shape(g, v)
  {
    if CanWrite(g, v, path, |buf|) && PathOf(other).Some?
       && UpperPath(PathOf(other).value) == WrittenPath(Target(g, v, path).value)
    then Some(Kept(buf))
    else Contents(g, v, other)
  }

  lemma {:induction false} AfterRewrite(g: Geo, v: Vol, w: Vol, path: Str, buf: seq<byte>, other: Str)
    requires Shape(g, v)
    requires if CanWrite(g, v, path, |buf|) then Rewritten(g, v, w, WrittenPath(Target(g, v, path).value), Kept(buf))
             else SameTree(g, v, w)
    ensures Contents(g, w, other) == AfterWrite(g, v, path, buf, other)
  {
    hide CanWrite, Target, WrittenPath, Kept, Stat, PathOf, DirAt, UpperPath;
    if PathOf(other).Some? {
      var q := PathOf(other).value;
      assert Stat(w, g.root, q) == Stat(w, g.root, q);
    }
  }

  /** The path that was written reads as what was written exactly when its leaf does not end in a dot. */
  lemma {:induction false} SamePathAfterWrite(g: Geo, v: Vol, t: Layout, path: Str, buf: seq<byte>)
    requires Consistent(g, v, t) && CanWrite(g, v, path, |buf|)
    ensures AfterWrite(g, v, path, buf, path) ==
            if EndsWithDot(Target(g, v, path).value.leaf) then None else Some(Kept(buf))
  {
    hide Encode83, DirAt, NameOf, Stat, Kept, WrittenPath, UpperPath, PathOf, Consistent, Claims;
    var a := Target(g, v, path).value;
    ShapeOf(g, v, t);
    if EndsWithDot(a.leaf) {
      DottedPath(g, v, t, path);
    } else {
      PlainPathWritten(g, v, path);
    }
  }

  lemma {:induction false} ShapeOf(g: Geo, v: Vol, t: Layout)
    requires Consistent(g, v, t)
    ensures Shape(g, v)
  {
  }

  /**
   * A write and then a read of any path: the path just written gives the new bytes, every other what it gave
   * before.
   */
  method WriteThenRead(fs: FatFs, path: Str, buf: seq<byte>, other: Str, out: array<byte>, capacity: nat,
                       ghost t: Layout)
    returns (r: int, n: int)
    requires fs.Ready() && Consistent(fs.geo, fs.View(), t)
    requires CwdOk(fs.cwd) && out != fs.sec && capacity <= out.Length
    modifies fs`disk, fs`trace, fs`history, fs`allocHint, fs.sec, out
    ensures r == if Writable(fs.geo, old(fs.View()), Full(fs.cwd, path), |buf|) then 0 else -1
    ensures match AfterWrite(fs.geo, old(fs.View()), Full(fs.cwd, path), buf, Full(fs.cwd, other))
            case None => n == -1 && out[..] == old(out[..])
            case Some(bytes) =>
              && n == (if capacity <= |bytes| then capacity else |bytes|)
              && out[..n] == bytes[..n] && out[n..] == old(out[n..])
  {
    hide Consistent, CanWrite, Target, Contents, AfterWrite, WrittenPath, Kept, CrashSafe, Claimed, Claims, OldChain,
         SameTree, Rewritten, Logged, GeoOk, VolOf, SameLost, LayoutKept, LeaksKept, CwdOk, Full, Writable;
    ghost var v := fs.View();
    ghost var t', claimed;
    r, t', claimed := fs.FatWrite(path, buf, t);
    AfterRewrite(fs.geo, v, fs.View(), Full(fs.cwd, path), buf, Full(fs.cwd, other));
    n := fs.FatRead(other, out, capacity, t');
  }

  /** A name with a trailing dot is encoded as the name without it. */
  lemma {:induction false} TrailingDotIsLost()
    ensures Encode83([65, DOT]).Some? && Encode83([65, DOT]) == Encode83([65])
            && NameOf(Encode83([65, DOT]).value) == [65]
    ensures EndsWithDot([65, DOT])
  {
    var s: Str := [65, DOT];
    IndexIs(s, DOT, 1);
    IndexIs([65], DOT, 1);
    assert Base(s) == [65] && Ext(s) == [];
    assert Base([65]) == [65];
    EncodedNameReads(s);
    assert Undotted(s) == [65];
  }

  /** The layout of a volume that holds nothing but an empty root directory. */
  ghost function EmptyLayout(g: Geo): Layout {
    Layout(map[DirO(g.root) := [g.root]], map[])
  }

  /** A freshly formatted volume is consistent, so everything proved of writes applies from there on. */
  lemma {:induction false} FormattedIsConsistent(g: Geo, v: Vol)
    requires Shape(g, v) && 2 <= g.root < |v.fat|
    requires v.fat[g.root] == LAST && Blank(Ents(v.clus[g.root]))
    ensures Consistent(g, v, EmptyLayout(g)) && Reached(g, v, EmptyLayout(g))
    ensures (forall c :: 2 <= c < |v.fat| && c != g.root ==> v.fat[c] == 0) ==>
              forall c: nat :: !Lost(v, EmptyLayout(g), c)
  {
    var t := EmptyLayout(g);
    SingleChain(v.fat, g.root);
    ChainOfIs(v.fat, g.root, [g.root]);
    ContentConcat(v, [], [g.root]);
    assert Content(v, []) == [] && Content(v, [g.root]) == v.clus[g.root];
    var es := DirEnts(v, g.root);
    assert es == Ents(v.clus[g.root]);
    assert DirOk(v, t, g.root) by {
      forall i | 0 <= i < |es| ensures EntryOk(v.fat, t, g.root, i, es[i]) {
        assert es[i][0] == 0;
      }
    }
    assert DirChainOk(v, t, g.root);
    assert DirO(g.root) in t.chains && g.root in t.chains[DirO(g.root)];
    assert Owned(t, g.root);
    assert Via(v, g.root, []) == Some(g.root);
    assert ReachedDir(g, v, g.root);
  }

  // ----- the trailing dot on a real volume

  const A_DOT: Str := [SLASH, 65, DOT]
  const A: Str := [SLASH, 65]

  lemma {:induction false} PathOfOne(s: Str)
    requires PlainComp(s)
    ensures PathOf([SLASH] + s) == Some([s])
  {
    NoComps();
    CompsOfOne(s);
    var e: Str := [];
    assert e + [SLASH] + s == [SLASH] + s;
    CompsSplit(e, s);
    assert s[|s| - 1] in s;
  }

  /** In a fresh root directory every name is free, and so is the first slot. */
  lemma {:induction false} FreshRoot(g: Geo, v: Vol, n: Name83)
    requires Shape(g, v) && 2 <= g.root < |v.fat| && v.fat[g.root] == LAST && Blank(Ents(v.clus[g.root]))
    ensures Find(DirEnts(v, g.root), By83(n), 0) == None && FirstFree(DirEnts(v, g.root), 0) == Some(0)
  {
    SingleChain(v.fat, g.root);
    ChainOfIs(v.fat, g.root, [g.root]);
    ContentConcat(v, [], [g.root]);
    assert Content(v, []) == [] && Content(v, [g.root]) == v.clus[g.root];
    assert DirEnts(v, g.root) == Ents(v.clus[g.root]) && DirEnts(v, g.root)[0][0] == 0;
  }

  /**
   * On every freshly formatted volume with room for the data the write of "/A." succeeds, and whatever
   * volume it leaves, "/A" holds the data and "/A." names nothing.
   */
  lemma {:induction false} DottedWriteIsLost(g: Geo, v: Vol, buf: seq<byte>)
    requires Shape(g, v) && 2 <= g.root < |v.fat| && v.fat[g.root] == LAST && Blank(Ents(v.clus[g.root]))
    requires Need(g.spc, |buf|) <= FreeCount(v.fat)
    ensures CanWrite(g, v, A_DOT, |buf|) && EndsWithDot(Target(g, v, A_DOT).value.leaf)
    ensures forall w :: Rewritten(g, v, w, WrittenPath(Target(g, v, A_DOT).value), Kept(buf)) ==>
              Contents(g, w, A_DOT) == None && Contents(g, w, A) == Some(Kept(buf))
  {
    hide FreeCount, Need, Encode83, NameOf, Blank, Ents;
    TrailingDotIsLost();
    var n := Encode83([65, DOT]).value;
    DottedPaths();
    FreshRoot(g, v, n);
    FormattedIsConsistent(g, v);
    var a := Aim([], [65, DOT], g.root, n);
    TargetIsA(g, v, n);
    hide Target, DirEnts, FirstFree, WrittenPath, PathOf, Kept, Consistent, Stat;
    WrittenIsA(a);
    forall w | Rewritten(g, v, w, WrittenPath(a), Kept(buf))
      ensures Contents(g, w, A_DOT) == None && Contents(g, w, A) == Some(Kept(buf))
    {
      ReadsBack(g, v, w, EmptyLayout(g), A_DOT, buf);
      assert Stat(w, g.root, [[65]]) == Some(FileObj(Kept(buf)));
    }
  }

  lemma {:induction false} TargetIsA(g: Geo, v: Vol, n: Name83)
    requires PathOf(A_DOT) == Some([[65, DOT]]) && Encode83([65, DOT]) == Some(n)
    requires Find(DirEnts(v, g.root), By83(n), 0) == None
    ensures Target(g, v, A_DOT) == Some(Aim([], [65, DOT], g.root, n))
  {
    hide PathOf, Encode83, DirEnts, Find, NameOf;
    assert [[65, DOT]][..0] == [];
  }

  lemma {:induction false} DottedPaths()
    ensures PathOf(A_DOT) == Some([[65, DOT]]) && PathOf(A) == Some([[65]])
  {
    PathOfOne([65, DOT]);
    PathOfOne([65]);
    assert A_DOT == [SLASH] + [65, DOT] && A == [SLASH] + [65];
  }

  lemma {:induction false} WrittenIsA(a: Aim)
    requires a.par == [] && NameOf(a.n) == [65]
    ensures WrittenPath(a) == UpperPath([[65]])
  {
    UpperPathAppend([], [65]);
    assert [] + [[65]] == [[65]];
    assert Upper([65]) == [65] by { assert Up(65) == 65; }
  }
}
