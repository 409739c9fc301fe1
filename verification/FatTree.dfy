/** Paths: a one-point change of the step relation is a one-path change of the tree. */
module FatTree {
  import opened Bytes
  import opened FatNames
  import opened FatVolume
  import opened FatUpdates

  function UpperPath(p: seq<Str>): (r: seq<Str>)
    ensures |r| == |p|
    ensures forall i :: 0 <= i < |p| ==> r[i] == Upper(p[i])
  {
    if p == [] then [] else [Upper(p[0])] + UpperPath(p[1..])
  }

  lemma {:induction false} DirAtSnoc(v: Vol, d: nat, p: seq<Str>, s: Str)
    ensures Stat(v, d, p + [s]) == (match DirAt(v, d, p) case Some(c) => Stat(v, c, [s]) case None => None)
    ensures DirAt(v, d, p + [s]) == (match DirAt(v, d, p) case Some(c) => DirAt(v, c, [s]) case None => None)
    decreases |p|
  {
    if p == [] {
      assert p + [s] == [s];
    } else {
      assert (p + [s])[0] == p[0] && (p + [s])[1..] == p[1..] + [s];
      match Step(v, d, p[0])
      case Some(Sub(c)) => DirAtSnoc(v, c, p[1..], s);
      case _ =>
    }
  }

  lemma {:induction false} DirAtInside(g: Geo, v: Vol, t: Layout, d: nat, p: seq<Str>)
    requires Consistent(g, v, t) && HasDir(t, d)
    ensures DirAt(v, d, p).Some? ==> HasDir(t, DirAt(v, d, p).value)
    decreases |p|
  {
    if p != [] {
      StepStaysInside(g, v, t, d, p[0]);
      match Step(v, d, p[0])
      case Some(Sub(c)) => DirAtInside(g, v, t, c, p[1..]);
      case _ =>
    }
  }

  lemma {:induction false} OnePointDirs(g: Geo, v: Vol, w: Vol, t: Layout, d: nat, name: Str, bytes: seq<byte>, c: nat,
                                        p: seq<Str>)
    requires Consistent(g, v, t) && OnePoint(v, w, t, d, name, bytes) && HasDir(t, c)
    requires forall s :: Upper(s) == name ==> Step(v, d, s) == None || Step(v, d, s).value.File?
    ensures DirAt(w, c, p) == DirAt(v, c, p)
    decreases |p|
  {
    hide Consistent, ChildOf, NameSlot, DirEnts;
    if p != [] {
      StepStaysInside(g, v, t, c, p[0]);
      assert Step(w, c, p[0]) == if c == d && Upper(p[0]) == name then Some(File(bytes)) else Step(v, c, p[0]);
      match Step(v, c, p[0])
      case Some(Sub(c')) => OnePointDirs(g, v, w, t, d, name, bytes, c', p[1..]);
      case _ =>
    }
  }

  /** Directories are reached by one path only, up to letter case. */
  lemma {:induction false} PathUnique(g: Geo, v: Vol, t: Layout, p: seq<Str>, q: seq<Str>)
    requires Consistent(g, v, t)
    requires DirAt(v, g.root, p).Some? && DirAt(v, g.root, p) == DirAt(v, g.root, q)
    ensures UpperPath(p) == UpperPath(q)
    decreases |p| + |q|
  {
    if p != [] { LastStep(g, v, t, p); }
    if q != [] { LastStep(g, v, t, q); }
    if p != [] && q != [] {
      PathUnique(g, v, t, p[..|p| - 1], q[..|q| - 1]);
      UpperPathSnoc(p);
      UpperPathSnoc(q);
    }
  }

  lemma {:induction false} UpperPathSnoc(p: seq<Str>)
    requires p != []
    ensures UpperPath(p) == UpperPath(p[..|p| - 1]) + [Upper(p[|p| - 1])]
  {
  }

  /** The slot through which one step enters a directory. */
  lemma {:induction false} SubdirSlot(g: Geo, v: Vol, t: Layout, d: nat, s: Str)
    requires Consistent(g, v, t) && HasDir(t, d) && DirAt(v, d, [s]).Some?
    ensures var c := DirAt(v, d, [s]).value;
            && c in t.parent && t.parent[c].0 == d && t.parent[c].1 < |DirEnts(v, d)|
            && Upper(s) == NameOf(DirEnts(v, d)[t.parent[c].1])
  {
    hide DirEnts, NameOf, Upper, FileChain;
    var one: seq<Str> := [s];
    assert one[1..] == [];
    var i := NameSlot(v, d, s).value;
    assert DirOk(v, t, d);
    assert EntryOk(v.fat, t, d, i, DirEnts(v, d)[i]);
    assert DirAt(v, d, one) == Some(ClusOf(DirEnts(v, d)[i]));
  }

  /** The slot through which a non-empty path enters its last directory. */
  lemma {:induction false} LastStep(g: Geo, v: Vol, t: Layout, p: seq<Str>)
    requires Consistent(g, v, t) && p != [] && DirAt(v, g.root, p).Some?
    ensures var c := DirAt(v, g.root, p).value;
            && c in t.parent && DirAt(v, g.root, p[..|p| - 1]) == Some(t.parent[c].0)
            && t.parent[c].1 < |DirEnts(v, t.parent[c].0)|
            && Upper(p[|p| - 1]) == NameOf(DirEnts(v, t.parent[c].0)[t.parent[c].1])
  {
    hide Consistent, DirEnts, NameOf, Upper, DirAt;
    var q, s := p[..|p| - 1], p[|p| - 1];
    assert p == q + [s];
    RootIs(g, v, t);
    DirAtSnoc(v, g.root, q, s);
    DirAtInside(g, v, t, g.root, q);
    SubdirSlot(g, v, t, DirAt(v, g.root, q).value, s);
  }

  lemma {:induction false} StatIgnoresCase(v: Vol, d: nat, p: seq<Str>, q: seq<Str>)
    requires UpperPath(p) == UpperPath(q)
    ensures Stat(v, d, p) == Stat(v, d, q) && DirAt(v, d, p) == DirAt(v, d, q)
    decreases |p|
  {
    hide NameOf, Find, DirEnts, Hit, ChildOf;
    assert |p| == |q|;
    if p != [] {
      assert Upper(p[0]) == UpperPath(p)[0] == UpperPath(q)[0] == Upper(q[0]);
      SameFind(DirEnts(v, d), p[0], q[0], 0);
      assert UpperPath(p)[1..] == UpperPath(p[1..]) && UpperPath(q)[1..] == UpperPath(q[1..]);
      match Step(v, d, p[0])
      case Some(Sub(c)) => StatIgnoresCase(v, c, p[1..], q[1..]);
      case _ =>
    }
  }

  lemma {:induction false} SameFind(es: seq<Entry>, s: Str, s': Str, i: nat)
    requires Upper(s) == Upper(s')
    ensures Find(es, ByName(s), i) == Find(es, ByName(s'), i)
    decreases |es| - i
  {
    if i < |es| { SameFind(es, s, s', i + 1); }
  }

  /** In `w` exactly the path `target` (in upper case) differs from `v`: it is a file with `bytes`. */
  ghost predicate Rewritten(g: Geo, v: Vol, w: Vol, target: seq<Str>, bytes: seq<byte>) {
    forall p: seq<Str> ::
      Stat(w, g.root, p) == if UpperPath(p) == target then Some(FileObj(bytes)) else Stat(v, g.root, p)
  }

  lemma {:induction false} NameLength(e: seq<byte>)
    requires |e| >= 11
    ensures |NameOf(e)| <= 12
  {
  }

  /** Storing one entry rewrites one path of the tree. */
  lemma {:induction false} OnePointRewrites(g: Geo, v: Vol, w: Vol, t: Layout, par: seq<Str>, d: nat, n: Name83,
                                            bytes: seq<byte>)
    requires Consistent(g, v, t) && DirAt(v, g.root, par) == Some(d)
    requires OnePoint(v, w, t, d, NameOf(n), bytes)
    requires forall s :: Upper(s) == NameOf(n) ==> Step(v, d, s) == None || Step(v, d, s).value.File?
    ensures Rewritten(g, v, w, UpperPath(par) + [NameOf(n)], bytes)
  {
    hide Consistent, DirAt, NameOf, UpperPath, ChildOf, NameSlot;
    var name := NameOf(n);
    NameLength(n);
    RootIs(g, v, t);
    forall p: seq<Str>
      ensures Stat(w, g.root, p) ==
              if UpperPath(p) == UpperPath(par) + [name] then Some(FileObj(bytes)) else Stat(v, g.root, p)
    {
      if p != [] {
        var q, s := p[..|p| - 1], p[|p| - 1];
        assert p == q + [s];
        DirAtSnoc(v, g.root, q, s);
        DirAtSnoc(w, g.root, q, s);
        OnePointDirs(g, v, w, t, d, name, bytes, g.root, q);
        UpperPathSnoc(p);
        DirAtInside(g, v, t, g.root, q);
        if DirAt(v, g.root, q) == Some(d) {
          PathUnique(g, v, t, q, par);
        }
        if UpperPath(q) == UpperPath(par) {
          StatIgnoresCase(v, g.root, q, par);
        }
        var same := UpperPath(p) == UpperPath(par) + [name];
        assert same <==> UpperPath(q) == UpperPath(par) && Upper(s) == name;
        StatOneStep(v, w, t, d, name, bytes, DirAt(v, g.root, q), s);
      }
    }
  }

  /** A path of one name is one step. */
  lemma {:induction false} StatOne(v: Vol, d: nat, s: Str)
    ensures Stat(v, d, [s]) ==
            if |s| > 12 then None else match Step(v, d, s)
              case None => None
              case Some(Sub(_)) => Some(DirObj)
              case Some(File(b)) => Some(FileObj(b))
  {
    hide Step;
    var one: seq<Str> := [s];
    assert one[1..] == [];
  }

  lemma {:induction false} StatOneStep(v: Vol, w: Vol, t: Layout, d: nat, name: Str, bytes: seq<byte>, c: Option<nat>,
                                       s: Str)
    requires OnePoint(v, w, t, d, name, bytes) && |name| <= 12
    requires c.Some? ==> HasDir(t, c.value)
    ensures c.Some? ==>
              Stat(w, c.value, [s]) ==
              if c.value == d && Upper(s) == name then Some(FileObj(bytes)) else Stat(v, c.value, [s])
  {
    hide Step, Stat, DirEnts;
    if c.Some? {
      StatOne(v, c.value, s);
      StatOne(w, c.value, s);
      assert |Upper(s)| == |s|;
      assert Step(w, c.value, s) == if c.value == d && Upper(s) == name then Some(File(bytes)) else Step(v, c.value, s);
    }
  }
}
