/** The tree stays a tree over every run, paths and nodes correspond one to one, and what is written is read. */
module RamLaws {
  import opened Bytes
  import opened RamTree

  // ----- the invariant over every run

  lemma {:induction false} InitIsValid(ns: seq<Node>)
    requires |ns| == 64 && forall i :: 0 <= i < |ns| ==> |ns[i].data| == FILE_MAX
    ensures Valid(Init(ns))
  {
  }

  lemma {:induction false} LeafFits(path: string)
    ensures var s := Leaf(path); |s| < NAME_MAX && '/' !in s && (ProperLeaf(s) ==> NameOk(s))
  {
  }

  lemma {:induction false} ParentIsDir(st: State, path: string)
    requires Valid(st) && Parent(st, path).Some?
    ensures IsDir(st.nodes, Parent(st, path).value)
  {
    if LastSlash(path) >= 0 {
      TargetIsUsed(st, CutDirText(path));
    }
  }

  lemma {:induction false} TargetIsUsed(st: State, path: string)
    requires Valid(st) && Target(st, path).Some?
    ensures Target(st, path).value < FS_MAX && st.nodes[Target(st, path).value].used
  {
    FollowIsUsed(st.nodes, Start(st, path), Pieces(path));
  }

  lemma {:induction false} FollowIsUsed(ns: seq<Node>, cur: nat, cs: seq<string>)
    requires Tree(ns) && cur < |ns| && ns[cur].used && Follow(ns, cur, cs).Some?
    ensures Follow(ns, cur, cs).value < |ns| && ns[Follow(ns, cur, cs).value].used
    decreases |cs|
  {
    if cs != [] {
      FollowIsUsed(ns, Step(ns, cur, cs[0]).value, cs[1..]);
    }
  }

  /** Adding a child of a used directory in the first free slot keeps the tree. */
  lemma {:induction false} AddedKeepsTree(ns: seq<Node>, k: nat, d: nat, n: Node)
    requires Tree(ns) && IsDir(ns, d) && FreeFrom(ns, 0) == Some(k) && Kid(ns, d, n.name) == None
    requires NameOk(n.name) && n.parent == d && n.used && n.len <= FILE_MAX && |n.data| == FILE_MAX
    ensures Tree(ns[k := n])
  {
    var m := ns[k := n];
    assert d < k;
    forall i | 0 < i < |m| && m[i].used
      ensures GoodNode(m, i)
    {
      if i != k { assert GoodNode(ns, i); }
    }
    forall i, j | 0 < i < j < |m| && m[i].used && m[j].used
      ensures !Twins(m[i], m[j])
    {
      if i == k || j == k {
        assert !IsKid(ns, i + j - k, d, n.name);
      } else {
        assert !Twins(ns[i], ns[j]);
      }
    }
  }

  lemma {:induction false} RefilledKeepsTree(ns: seq<Node>, k: nat, n: Node)
    requires Tree(ns) && 0 < k < |ns| && ns[k].used && |n.data| == FILE_MAX && n.len <= FILE_MAX
    requires n == ns[k].(data := n.data, len := n.len)
    ensures Tree(ns[k := n])
  {
    var m := ns[k := n];
    forall i | 0 < i < |m| && m[i].used
      ensures GoodNode(m, i)
    {
      assert GoodNode(ns, i);
    }
    forall i, j | 0 < i < j < |m| && m[i].used && m[j].used
      ensures !Twins(m[i], m[j])
    {
      assert !Twins(ns[i], ns[j]);
    }
  }

  lemma {:induction false} MkdirKeeps(st: State, path: string)
    requires Valid(st)
    ensures Valid(Mkdir(st, path).0)
  {
    hide Leaf, Parent, Tree;
    if Mkdir(st, path).1 == FS_OK {
      var d, k := Parent(st, path).value, FreeFrom(st.nodes, 0).value;
      ParentIsDir(st, path);
      LeafFits(path);
      SlotData(st.nodes, k);
      AddedKeepsTree(st.nodes, k, d, NewDir(st.nodes[k], Leaf(path), d));
      assert k != st.cwd;
    }
  }

  lemma {:induction false} SlotData(ns: seq<Node>, k: nat)
    requires Tree(ns) && k < |ns|
    ensures |ns[k].data| == FILE_MAX && (0 < k && ns[k].used ==> GoodNode(ns, k))
    ensures ns[0].used && ns[0].isDir && |ns| == FS_MAX
  {
  }

  lemma {:induction false} FwriteKeeps(st: State, path: string, buf: seq<byte>)
    requires Valid(st)
    ensures Valid(Fwrite(st, path, buf).0)
  {
    hide Leaf, Parent, Tree, GoodNode, NameOk;
    assert forall i :: 0 <= i < |st.nodes| ==> |st.nodes[i].data| == FILE_MAX by { AllData(st.nodes); }
    if Fwrite(st, path, buf).1 == FS_OK {
      var ns, d, k := st.nodes, Parent(st, path).value, Place(st, path).value;
      SlotData(ns, k);
      ParentIsDir(st, path);
      LeafFits(path);
      if ns[k].used {
        RefilledKeepsTree(ns, k, Filled(ns[k], buf));
      } else {
        AddedKeepsTree(ns, k, d, Filled(NewFile(ns[k], Leaf(path), d), buf));
      }
      assert k != st.cwd;
    }
  }

  lemma {:induction false} AllData(ns: seq<Node>)
    requires Tree(ns)
    ensures forall i :: 0 <= i < |ns| ==> |ns[i].data| == FILE_MAX
  {
  }

  lemma {:induction false} ChdirKeeps(st: State, path: string)
    requires Valid(st)
    ensures Valid(Chdir(st, path).0)
  {
    if path != "" && Target(st, path).Some? {
      TargetIsUsed(st, path);
    }
  }

  datatype Op = Reset | MakeDir(path: string) | Write(path: string, buf: seq<byte>) | ChangeDir(path: string)

  ghost function Apply(st: State, op: Op): State
    requires Valid(st)
  {
    match op
    case Reset => Init(st.nodes)
    case MakeDir(path) => Mkdir(st, path).0
    case Write(path, buf) => AllData(st.nodes); Fwrite(st, path, buf).0
    case ChangeDir(path) => Chdir(st, path).0
  }

  /** The state after a whole run; every state on the way is a tree with a used current directory. */
  ghost function Run(st: State, ops: seq<Op>): (r: State)
    requires Valid(st)
    ensures Valid(r)
    decreases |ops|
  {
    if ops == [] then st else
      var before := Run(st, ops[..|ops| - 1]);
      ApplyKeeps(before, ops[|ops| - 1]);
      Apply(before, ops[|ops| - 1])
  }

  lemma {:induction false} ApplyKeeps(st: State, op: Op)
    requires Valid(st)
    ensures Valid(Apply(st, op))
  {
    hide Init, Mkdir, Fwrite, Chdir, Valid;
    match op
    case Reset =>
      ValidTree(st);
      AllData(st.nodes);
      InitIsValid(st.nodes);
    case MakeDir(path) => MkdirKeeps(st, path);
    case Write(path, buf) => FwriteKeeps(st, path, buf);
    case ChangeDir(path) => ChdirKeeps(st, path);
  }

  lemma {:induction false} ValidTree(st: State)
    requires Valid(st)
    ensures Tree(st.nodes) && |st.nodes| == FS_MAX && forall i :: 0 <= i < |st.nodes| ==> |st.nodes[i].data| == FILE_MAX
  {
  }

  // ----- pieces of a text put together with slashes

  lemma {:induction false} PieceIs(p: string, n: nat)
    requires n <= |p| && n < NAME_MAX && '/' !in p[..n] && (n == |p| || n == NAME_MAX - 1 || p[n] == '/')
    ensures PieceLength(p) == n
  {
    var m := PieceLength(p);
    forall i | 0 <= i < n
      ensures p[i] != '/'
    {
      assert p[i] == p[..n][i];
    }
    forall i | 0 <= i < m
      ensures p[i] != '/'
    {
      assert p[i] == p[..m][i];
    }
  }

  lemma {:induction false} PiecesOfSlash(p: string)
    ensures Pieces("/" + p) == Pieces(p)
  {
    assert ("/" + p)[1..] == p;
  }

  lemma {:induction false} NoPieces()
    ensures Pieces("") == [] && Pieces("/") == []
  {
    PiecesOfSlash("");
    assert "/" + "" == "/";
  }

  /** A slash separates: the names on its two sides are read apart. */
  lemma {:induction false} PiecesSplit(a: string, b: string)
    ensures Pieces(a + "/" + b) == Pieces(a) + Pieces(b)
    decreases |a|
  {
    hide Piece, Pieces, Skip;
    var t, q := "/" + b, Skip(a, '/');
    assert a + "/" + b == a + t;
    SkipFront(a, t, '/');
    PiecesSkip(a);
    PiecesSkip(a + t);
    if q == "" {
      NoPieces();
      PiecesSkip(t);
      PiecesOfSlash(b);
    } else {
      var n := |Piece(q)|;
      SamePiece(q, t);
      assert q + "/" + b == q + t;
      PiecesSplit(q[n..], b);
      FirstPiece(q, b, n);
    }
  }

  lemma {:induction false} FirstPiece(q: string, b: string, n: nat)
    requires q != "" && q[0] != '/' && n == |Piece(q)| <= |q| && Piece(q + "/" + b) == Piece(q)
    requires Pieces(q[n..] + "/" + b) == Pieces(q[n..]) + Pieces(b)
    ensures Pieces(q + ("/" + b)) == Pieces(q) + Pieces(b)
  {
    hide Piece, Pieces;
    var x := q + "/" + b;
    assert x == q + ("/" + b) && x[n..] == q[n..] + "/" + b;
    PiecesOf(q);
    PiecesOf(x);
    assert [Piece(q)] + Pieces(q[n..]) + Pieces(b) == [Piece(q)] + (Pieces(q[n..]) + Pieces(b));
  }

  lemma {:induction false} PiecesOf(q: string)
    requires q != "" && q[0] != '/'
    ensures 0 < |Piece(q)| <= |q| && Pieces(q) == [Piece(q)] + Pieces(q[|Piece(q)|..])
  {
  }

  lemma {:induction false} PiecesSkip(p: string)
    ensures Pieces(p) == Pieces(Skip(p, '/'))
  {
    var q := Skip(p, '/');
    assert Skip(q, '/') == q;
  }

  lemma {:induction false} SamePiece(q: string, t: string)
    requires q != "" && q[0] != '/' && t != "" && t[0] == '/'
    ensures Piece(q + t) == Piece(q) && 0 < |Piece(q)| <= |q|
  {
    var n := PieceLength(q);
    assert (q + t)[..n] == q[..n];
    PieceIs(q + t, n);
  }

  /** A name is one piece when it fits the buffer, and more than one when it does not. */
  lemma {:induction false} PiecesOfName(s: string)
    requires s != "" && '/' !in s
    ensures Pieces(s)[..1] == [s[..PieceLength(s)]] && Pieces(s) != []
    ensures |s| < NAME_MAX ==> Pieces(s) == [s]
    ensures |s| >= NAME_MAX ==> |Pieces(s)| >= 2
  {
    assert s[0] != '/';
    PieceIs(s, if |s| < NAME_MAX then |s| else NAME_MAX - 1);
    assert Skip(s, '/') == s;
    var n := PieceLength(s);
    if |s| >= NAME_MAX {
      assert s[n] != '/' by { assert s[n] in s; }
      assert Skip(s[n..], '/') == s[n..];
    } else {
      assert s[n..] == "" && s[..n] == s;
      assert Pieces("") == [];
    }
  }

  /** The names of a path are those of its directory part and then its last name. */
  lemma {:induction false} PathPieces(p: string)
    ensures Pieces(p) == Pieces(DirText(p)) + Pieces(RawLeaf(p))
    ensures LastSlash(p) >= 0 ==> DirText(p) != "" && (DirText(p)[0] == '/' <==> p[0] == '/')
  {
    hide Pieces, LastSlash;
    var l := LastSlash(p);
    NoPieces();
    if l < 0 {
      assert p[l + 1..] == p;
    } else {
      assert p == p[..l] + "/" + p[l + 1..] by { LastSlashFacts(p); }
      PiecesSplit(p[..l], p[l + 1..]);
    }
  }

  // ----- paths and nodes

  lemma {:induction false} FollowAppend(ns: seq<Node>, cur: nat, a: seq<string>, b: seq<string>)
    requires b != []
    ensures Follow(ns, cur, a + b) ==
            match Follow(ns, cur, a) case None => None case Some(d) => Follow(ns, d, b)
    decreases |a|
  {
    if a == [] {
      assert a + b == b;
    } else {
      assert (a + b)[1..] == a[1..] + b && (a + b)[0] == a[0];
      if cur < |ns| && ns[cur].isDir && Step(ns, cur, a[0]).Some? {
        FollowAppend(ns, Step(ns, cur, a[0]).value, a[1..], b);
      }
    }
  }

  /** A child is found by its name. */
  lemma {:induction false} KidIs(ns: seq<Node>, n: nat)
    requires Tree(ns) && 0 < n < |ns| && ns[n].used
    ensures ns[n].parent >= 0 && Kid(ns, ns[n].parent, ns[n].name) == Some(n)
  {
    assert GoodNode(ns, n);
    var k := Kid(ns, ns[n].parent, ns[n].name);
    assert IsKid(ns, n, ns[n].parent, ns[n].name);
    if k.value != n {
      assert k.value > 0;
      assert Twins(ns[k.value], ns[n]) && Twins(ns[n], ns[k.value]);
    }
  }

  predicate Plain(cs: seq<string>) { forall i :: 0 <= i < |cs| ==> NameOk(cs[i]) }

  lemma {:induction false} PathToLeads(ns: seq<Node>, n: nat)
    requires Tree(ns) && n < |ns| && ns[n].used
    ensures Plain(PathTo(ns, n)) && Follow(ns, 0, PathTo(ns, n)) == Some(n)
    decreases n
  {
    if n > 0 {
      assert GoodNode(ns, n);
      var d := ns[n].parent;
      PathToLeads(ns, d);
      KidIs(ns, n);
      FollowAppend(ns, 0, PathTo(ns, d), [ns[n].name]);
    }
  }

  /** A plain path leads to exactly the node whose path it is: no node has two, and every used node has one. */
  lemma {:induction false} OnePathPerNode(ns: seq<Node>, cs: seq<string>, n: nat)
    requires Tree(ns) && Plain(cs)
    ensures Follow(ns, 0, cs) == Some(n) <==> n < |ns| && ns[n].used && PathTo(ns, n) == cs
    decreases |cs|
  {
    if n < |ns| && ns[n].used && PathTo(ns, n) == cs {
      PathToLeads(ns, n);
    }
    if Follow(ns, 0, cs) == Some(n) {
      FollowIsUsed(ns, 0, cs);
      PlainPathBack(ns, cs, n);
    }
  }

  lemma {:induction false} PlainPathBack(ns: seq<Node>, cs: seq<string>, n: nat)
    requires Tree(ns) && Plain(cs) && Follow(ns, 0, cs) == Some(n) && n < |ns|
    ensures PathTo(ns, n) == cs
    decreases |cs|
  {
    if cs == [] {
      assert n == 0;
    } else {
      var a, c := cs[..|cs| - 1], cs[|cs| - 1];
      assert cs == a + [c];
      FollowAppend(ns, 0, a, [c]);
      var d := Follow(ns, 0, a).value;
      assert NameOk(c);
      assert [c][1..] == [];
      assert IsKid(ns, n, d, c);
      if n > 0 {
        assert GoodNode(ns, n);
      }
      PlainPathBack(ns, a, d);
    }
  }

  lemma {:induction false} JoinedPieces(cs: seq<string>)
    requires Plain(cs)
    ensures Pieces(Joined(cs)) == cs && (cs != [] ==> Joined(cs) != "" && Joined(cs)[0] == '/')
    decreases |cs|
  {
    if cs == [] {
      assert Pieces("") == [];
    } else {
      var a, c := cs[..|cs| - 1], cs[|cs| - 1];
      assert NameOk(c);
      JoinedPieces(a);
      PiecesSplit(Joined(a), c);
      PiecesOfName(c);
      assert a + [c] == cs;
      if a == [] {
        assert Joined(a) == "";
      }
    }
  }

  /** The path of a node, as printed, leads back to that node from whatever current directory. */
  lemma {:induction false} PathTextLeads(st: State, n: nat, from: nat)
    requires Tree(st.nodes) && n < |st.nodes| && st.nodes[n].used
    ensures Target(st.(cwd := from), PathText(st.nodes, n)) == Some(n)
  {
    PathToLeads(st.nodes, n);
    var cs := PathTo(st.nodes, n);
    JoinedPieces(cs);
    if n == 0 {
      NoPieces();
    } else {
      assert GoodNode(st.nodes, n);
    }
  }

  /** After every run, the printed current directory resolves to the current directory, from anywhere. */
  lemma {:induction false} CwdRoundTrip(st: State, ops: seq<Op>, from: nat)
    requires Valid(st)
    ensures var r := Run(st, ops); Target(r.(cwd := from), PathText(r.nodes, r.cwd)) == Some(r.cwd)
  {
    hide PathText, Target, Tree, Run;
    PathTextLeads(Run(st, ops), Run(st, ops).cwd, from);
  }

  // ----- changing the directory

  /**
   * The current directory changes exactly for a path that leads to a directory, and then every relative path
   * leads where it led behind the one given; a refusal changes nothing.
   */
  lemma {:induction false} ChdirLaw(st: State, path: string, rest: string)
    requires Valid(st) && (rest != "" ==> rest[0] != '/')
    ensures var (r, code) := Chdir(st, path);
            && r.nodes == st.nodes && (code == 0 || r == st)
            && (code == 0 <==> path == "" || (Target(st, path).Some? && IsDir(st.nodes, Target(st, path).value)))
            && (code == 0 ==> Target(r, rest) == Target(st, path + "/" + rest))
  {
    hide Pieces, Follow, Tree;
    var t := path + "/" + rest;
    if path == "" {
      assert t == "/" + rest;
      PiecesOfSlash(rest);
    } else {
      assert t[0] == path[0];
      PiecesSplit(path, rest);
      if Target(st, path).Some? {
        TargetIsUsed(st, path);
        var d, b := Target(st, path).value, Pieces(rest);
        if b == [] {
          assert Pieces(path) + b == Pieces(path);
          FollowNone(st.nodes, d);
        } else {
          FollowAppend(st.nodes, Start(st, path), Pieces(path), b);
        }
      }
    }
  }

  /** After a change, the printed current directory leads where the path given led. */
  lemma {:induction false} ChdirPrints(st: State, path: string, from: nat)
    requires Valid(st) && Chdir(st, path).1 == 0
    ensures var r := Chdir(st, path).0;
            && r.cwd < |r.nodes|
            && Target(r.(cwd := from), PathText(r.nodes, r.cwd)) == Target(st, if path == "" then "/" else path)
  {
    hide PathText, Tree, Follow, Pieces;
    ChdirKeeps(st, path);
    var r := Chdir(st, path).0;
    SlotData(r.nodes, 0);
    PathTextLeads(r, r.cwd, from);
    NoPieces();
    FollowNone(st.nodes, 0);
  }

  /** ".." leads to the node whose path is one name shorter, from the root to the root; "." leads nowhere else. */
  lemma {:induction false} DotSteps(ns: seq<Node>, n: nat)
    requires Tree(ns) && n < |ns| && ns[n].used
    ensures Step(ns, n, ".") == Some(n)
    ensures var up := Step(ns, n, "..");
            && up.Some? && up.value < |ns| && ns[up.value].used
            && PathTo(ns, up.value) == if n == 0 then [] else PathTo(ns, n)[..|PathTo(ns, n)| - 1]
    ensures n != 0 ==> |PathTo(ns, n)| > 0
  {
    if n > 0 { assert GoodNode(ns, n); }
  }

  // ----- what is written is read

  /** `m` is `ns` with slot `k` made a new child of `d`. */
  ghost predicate Grown(ns: seq<Node>, m: seq<Node>, k: nat, d: nat) {
    && Tree(ns) && IsDir(ns, d) && |m| == |ns| && k < |ns| && !ns[k].used
    && m == ns[k := m[k]] && m[k].used && m[k].parent == d && ProperLeaf(m[k].name)
    && Kid(ns, d, m[k].name) == None
  }

  lemma {:induction false} KidFromGrown(ns: seq<Node>, m: seq<Node>, k: nat, d: nat, cur: nat, c: string, i: nat)
    requires Grown(ns, m, k, d) && i <= |ns|
    ensures KidFrom(m, cur, c, i) ==
            if cur == d && c == m[k].name && i <= k then Some(k) else KidFrom(ns, cur, c, i)
    decreases |ns| - i
  {
    hide Tree, Kid;
    if i < |ns| {
      assert cur == d && c == m[k].name ==> !IsKid(ns, i, d, c);
      KidFromGrown(ns, m, k, d, cur, c, i + 1);
    }
  }

  /** Old paths lead where they led; if the new node is a file, a path that led nowhere leads there or nowhere. */
  lemma {:induction false} FollowGrown(ns: seq<Node>, m: seq<Node>, k: nat, d: nat, cur: nat, cs: seq<string>)
    requires Grown(ns, m, k, d) && cur < |ns| && ns[cur].used
    ensures Follow(ns, cur, cs).Some? ==> Follow(m, cur, cs) == Follow(ns, cur, cs)
    ensures Follow(ns, cur, cs).None? && !m[k].isDir ==> Follow(m, cur, cs) in {None, Some(k)}
    decreases |cs|
  {
    hide Kid, Tree;
    if cs != [] && ns[cur].isDir {
      KidFromGrown(ns, m, k, d, cur, cs[0], 0);
      KidsAre(ns, m, cur, cs[0]);
      match Step(ns, cur, cs[0])
      case Some(x) =>
        StepIsUsed(ns, cur, cs[0]);
        FollowGrown(ns, m, k, d, x, cs[1..]);
      case None =>
    }
  }

  lemma {:induction false} KidsAre(ns: seq<Node>, m: seq<Node>, cur: nat, c: string)
    ensures Kid(ns, cur, c) == KidFrom(ns, cur, c, 0) && Kid(m, cur, c) == KidFrom(m, cur, c, 0)
  {
  }

  lemma {:induction false} StepIsUsed(ns: seq<Node>, cur: nat, c: string)
    requires Tree(ns) && cur < |ns| && ns[cur].used && Step(ns, cur, c).Some?
    ensures Step(ns, cur, c).value < |ns| && ns[Step(ns, cur, c).value].used
  {
  }

  /** Refilling a file moves no path. */
  lemma {:induction false} FollowRefilled(ns: seq<Node>, m: seq<Node>, cur: nat, cs: seq<string>)
    requires |m| == |ns| && forall i :: 0 <= i < |ns| ==> m[i] == ns[i].(data := m[i].data, len := m[i].len)
    ensures Follow(m, cur, cs) == Follow(ns, cur, cs)
    decreases |cs|
  {
    hide Kid;
    if cs != [] && cur < |ns| && ns[cur].isDir {
      KidFromRefilled(ns, m, cur, cs[0], 0);
      KidsAre(ns, m, cur, cs[0]);
      if Step(ns, cur, cs[0]).Some? {
        FollowRefilled(ns, m, Step(ns, cur, cs[0]).value, cs[1..]);
      }
    }
  }

  lemma {:induction false} KidFromRefilled(ns: seq<Node>, m: seq<Node>, cur: nat, c: string, i: nat)
    requires |m| == |ns| && forall i :: 0 <= i < |ns| ==> m[i] == ns[i].(data := m[i].data, len := m[i].len)
    requires i <= |ns|
    ensures KidFrom(m, cur, c, i) == KidFrom(ns, cur, c, i)
    decreases |ns| - i
  {
    if i < |ns| {
      KidFromRefilled(ns, m, cur, c, i + 1);
    }
  }

  /** The write succeeds: `k` is where its file is. */
  ghost predicate Wrote(st: State, path: string, buf: seq<byte>, k: nat) {
    Valid(st) && (AllData(st.nodes); Fwrite(st, path, buf).1 == FS_OK) && Place(st, path) == Some(k)
  }

  ghost function After(st: State, path: string, buf: seq<byte>): State
    requires Valid(st)
  {
    AllData(st.nodes);
    Fwrite(st, path, buf).0
  }

  /** One node holds the new content, every other node is as it was, and so is the current directory. */
  lemma {:induction false} OneNodeWritten(st: State, path: string, buf: seq<byte>, k: nat)
    requires Wrote(st, path, buf, k)
    ensures var r := After(st, path, buf);
            && r.cwd == st.cwd && |r.nodes| == FS_MAX && 0 < k < FS_MAX
            && (st.nodes[k].used ==> !st.nodes[k].isDir)
            && (forall i :: 0 <= i < FS_MAX && i != k ==> r.nodes[i] == st.nodes[i])
            && r.nodes[k].used && !r.nodes[k].isDir && Content(r.nodes[k]) == buf
            && r.nodes[k].name == Leaf(path) && Parent(st, path) == Some(r.nodes[k].parent)
  {
    hide Leaf, Parent, Tree;
    SlotData(st.nodes, k);
  }

  /** Every path that led somewhere still leads there; no path but to the written file is new. */
  lemma {:induction false} WriteKeepsPaths(st: State, path: string, buf: seq<byte>, k: nat, cur: nat, cs: seq<string>)
    requires Wrote(st, path, buf, k) && cur < FS_MAX && st.nodes[cur].used
    ensures var m := After(st, path, buf).nodes;
            && (Follow(st.nodes, cur, cs).Some? ==> Follow(m, cur, cs) == Follow(st.nodes, cur, cs))
            && (Follow(st.nodes, cur, cs).None? ==> Follow(m, cur, cs) in {None, Some(k)})
  {
    hide Leaf, Parent, Tree, Follow;
    var ns, m := st.nodes, After(st, path, buf).nodes;
    SlotData(ns, k);
    ParentIsDir(st, path);
    if ns[k].used {
      FollowRefilled(ns, m, cur, cs);
    } else {
      FollowGrown(ns, m, k, Parent(st, path).value, cur, cs);
    }
  }

  /** The directory the whole text before the last slash names. */
  function NamedDir(st: State, path: string): (r: Option<nat>) {
    if LastSlash(path) < 0 then Some(st.cwd) else TargetDir(st, DirText(path))
  }

  /** Up to a last slash at 127 the directory written into is the directory the path names. */
  lemma {:induction false} ShortPathsAgree(st: State, path: string)
    requires LastSlash(path) <= 127
    ensures NamedDir(st, path) == Parent(st, path)
  {
  }

  /** The text an operation really acts on: the directory part and the last name, each as far as its buffer reaches. */
  function Stored(path: string): (r: string) {
    var l := LastSlash(path);
    (if l > PARENT_MAX then path[..PARENT_MAX] else if l >= 0 then path[..l] else "")
    + (if l >= 0 then "/" else "") + Leaf(path)
  }

  /** The stored text has the same directory and the same stored name, it fits both buffers, and short paths are it. */
  lemma {:induction false} StoredIs(path: string)
    ensures var q := Stored(path);
            && LastSlash(q) <= PARENT_MAX && RawLeaf(q) == Leaf(path) == Leaf(q) && |RawLeaf(q)| < NAME_MAX
            && (LastSlash(q) < 0 <==> LastSlash(path) < 0) && CutDirText(q) == CutDirText(path)
            && (q == "" <==> path == "")
    ensures LastSlash(path) <= PARENT_MAX && |RawLeaf(path)| < NAME_MAX ==> Stored(path) == path
  {
    hide LastSlash, RawLeaf, Leaf, Piece;
    var l, q := LastSlash(path), Stored(path);
    LeafFits(path);
    LeafBounds(path);
    if |RawLeaf(path)| < NAME_MAX {
      LeafIs(path);
    }
    if l >= 0 {
      var a := path[..if l > PARENT_MAX then PARENT_MAX else l];
      CutAtSlash(q, a, Leaf(path));
      assert q[..|a|] == a;
    } else {
      NoSlash(q);
    }
    LeafIs(q);
  }

  lemma {:induction false} NoSlash(q: string)
    requires '/' !in q
    ensures LastSlash(q) < 0 && RawLeaf(q) == q
  {
    hide LastSlash;
    LastSlashFacts(q);
    assert forall i :: 0 <= i < |q| ==> q[i] in q;
  }

  /** A path is its text before the last slash, that slash, and the rest; the stored name is not lost altogether. */
  lemma {:induction false} LeafBounds(path: string)
    ensures var l, s := LastSlash(path), RawLeaf(path);
            && path == (if l >= 0 then path[..l] + "/" + s else s) && (s == "" <==> Leaf(path) == "")
  {
    hide LastSlash, Leaf, RawLeaf, Piece;
    LeafPart(path);
    RawText(path);
  }

  lemma {:induction false} RawText(path: string)
    ensures var l, s := LastSlash(path), RawLeaf(path); path == if l >= 0 then path[..l] + "/" + s else s
  {
    hide LastSlash;
    LastSlashFacts(path);
    if LastSlash(path) >= 0 { CutText(path, LastSlash(path)); }
  }

  lemma {:induction false} CutText(p: string, l: nat)
    requires l < |p| && p[l] == '/'
    ensures p == p[..l] + "/" + p[l + 1..]
  {
  }

  /** Every path acts as its stored text does, and that text names the directory it acts in. */
  lemma {:induction false} ActsOnStored(st: State, path: string, buf: seq<byte>)
    requires Valid(st)
    ensures Parent(st, path) == Parent(st, Stored(path)) == NamedDir(st, Stored(path))
    ensures Mkdir(st, path) == Mkdir(st, Stored(path)) && Place(st, path) == Place(st, Stored(path))
    ensures (AllData(st.nodes); Fwrite(st, path, buf) == Fwrite(st, Stored(path), buf))
  {
    hide Leaf, RawLeaf, LastSlash, Stored, CutDirText, DirText, Valid, Tree, TargetDir;
    AllData(st.nodes) by { ValidTree(st); }
    StoredIs(path);
    ShortPathsAgree(st, Stored(path));
  }

  /** Following a path is following its directory part and then its last name. */
  lemma {:induction false} TargetInTwo(st: State, path: string)
    requires RawLeaf(path) != ""
    ensures Target(st, path) ==
            match Target(st, DirText(path)) case None => None case Some(x) => Follow(st.nodes, x, Pieces(RawLeaf(path)))
    ensures LastSlash(path) < 0 ==> Target(st, DirText(path)) == Some(st.cwd)
  {
    hide Pieces, Follow, LastSlash, DirText, RawLeaf, Start;
    PathPieces(path);
    PiecesOfName(RawLeaf(path));
    FollowAppend(st.nodes, Start(st, path), Pieces(DirText(path)), Pieces(RawLeaf(path)));
    SameStart(st, path);
    NoPieces();
    FollowNone(st.nodes, st.cwd);
  }

  lemma {:induction false} SameStart(st: State, path: string)
    ensures Start(st, DirText(path)) == Start(st, path)
    ensures LastSlash(path) < 0 ==> DirText(path) == "" && Start(st, path) == st.cwd
  {
    hide LastSlash, Pieces;
    PathPieces(path);
    if LastSlash(path) < 0 {
      LastSlashFacts(path);
    }
  }

  lemma {:induction false} FollowNone(ns: seq<Node>, cur: nat)
    ensures Follow(ns, cur, []) == Some(cur)
  {
  }

  lemma {:induction false} FollowOne(ns: seq<Node>, x: nat, s: string)
    requires ProperLeaf(s)
    ensures Follow(ns, x, [s]) == if x < |ns| && ns[x].isDir then Kid(ns, x, s) else None
  {
    assert [s][1..] == [];
  }

  lemma {:induction false} LeafIs(path: string)
    requires |RawLeaf(path)| < NAME_MAX
    ensures Leaf(path) == RawLeaf(path)
  {
    PieceIs(RawLeaf(path), |RawLeaf(path)|);
  }

  /**
   * The written file stands where its path leads exactly when the path names the directory written
   * into, for last names that fit; and, in that directory, exactly when the last name fits.
   */
  lemma {:induction false} StoreLaw(st: State, path: string, buf: seq<byte>, k: nat)
    requires Wrote(st, path, buf, k)
    ensures |RawLeaf(path)| < NAME_MAX ==>
              (Target(After(st, path, buf), path) == Some(k) <==> NamedDir(st, path) == Parent(st, path))
    ensures NamedDir(st, path) == Parent(st, path) ==>
              Target(After(st, path, buf), path) == if |RawLeaf(path)| < NAME_MAX then Some(k) else None
  {
    hide Follow, Tree, Kid, Leaf, LastSlash, TargetDir, Target, Valid, Fwrite, After, Wrote, RawLeaf, Pieces, NamedDir,
         DirText;
    ValidNow(st, path, buf, k);
    OneNodeWritten(st, path, buf, k);
    LeafFacts(st, path, buf, k);
    var r := After(st, path, buf);
    var d, s := Parent(st, path).value, RawLeaf(path);
    TargetInTwo(st, path);
    TargetInTwo(r, path);
    var x := Target(r, DirText(path));
    DirsAgree(st, path, buf, k);
    AfterIsTree(st, path, buf) by { ValidNow(st, path, buf, k); }
    if x.Some? {
      if |s| < NAME_MAX {
        LeafIs(path);
        FollowOne(r.nodes, x.value, s);
        FoundOnlyThere(r.nodes, k, x.value, s);
      } else {
        LongNameFails(r.nodes, d, k, Pieces(s));
      }
    }
  }

  lemma {:induction false} AfterIsTree(st: State, path: string, buf: seq<byte>)
    requires Valid(st)
    ensures Tree(After(st, path, buf).nodes)
  {
    hide Tree, Fwrite;
    FwriteKeeps(st, path, buf);
  }

  /** Of a written path: its last name is stored as far as it fits. */
  lemma {:induction false} LeafFacts(st: State, path: string, buf: seq<byte>, k: nat)
    requires Wrote(st, path, buf, k)
    ensures Parent(st, path).Some? && IsDir(st.nodes, Parent(st, path).value)
    ensures var s := RawLeaf(path);
            ProperLeaf(Leaf(path)) && s != "" && Pieces(s) != [] && Pieces(s)[0] == Leaf(path)
            && (|s| < NAME_MAX ==> Pieces(s) == [s]) && (|s| >= NAME_MAX ==> |Pieces(s)| >= 2)
  {
    hide Pieces, Tree, LastSlash, PieceLength;
    ParentIsDir(st, path);
    var s := RawLeaf(path);
    if s != "" {
      PiecesOfName(s);
      assert Pieces(s)[..1][0] == Pieces(s)[0];
    }
  }

  /** The directory a path names is found before the write exactly when it is found after it. */
  lemma {:induction false} DirsAgree(st: State, path: string, buf: seq<byte>, k: nat)
    requires Wrote(st, path, buf, k)
    ensures var r := After(st, path, buf);
            var x := Target(r, DirText(path));
            NamedDir(st, path) == if x.Some? && x.value < |r.nodes| && r.nodes[x.value].isDir then x else None
  {
    hide Follow, Tree, LastSlash, Fwrite, After, Wrote, Pieces;
    ValidNow(st, path, buf, k);
    var r, p := After(st, path, buf), DirText(path);
    SlotData(st.nodes, 0);
    OneNodeWritten(st, path, buf, k);
    if LastSlash(path) < 0 {
      LeafFacts(st, path, buf, k);
      TargetInTwo(r, path);
    } else {
      WriteKeepsPaths(st, path, buf, k, Start(st, p), Pieces(p));
      if Target(st, p).Some? {
        TargetIsUsed(st, p);
      }
    }
  }

  lemma {:induction false} ValidNow(st: State, path: string, buf: seq<byte>, k: nat)
    requires Wrote(st, path, buf, k)
    ensures Valid(st)
  {
  }

  lemma {:induction false} FoundOnlyThere(ns: seq<Node>, k: nat, x: nat, s: string)
    requires Tree(ns) && 0 < k < |ns| && ns[k].used && ns[k].name == s
    ensures Kid(ns, x, s) == Some(k) <==> ns[k].parent == x
  {
    KidIs(ns, k);
  }

  lemma {:induction false} LongNameFails(ns: seq<Node>, d: nat, k: nat, cs: seq<string>)
    requires Tree(ns) && 0 < k < |ns| && ns[k].used && !ns[k].isDir && ns[k].parent == d
    requires |cs| >= 2 && cs[0] == ns[k].name && ProperLeaf(cs[0])
    ensures Follow(ns, d, cs) == None
  {
    KidIs(ns, k);
    assert cs[1..] != [];
  }

  /** A successful write is read back under the same path exactly when the last name fits the buffer. */
  lemma {:induction false} ReadsBack(st: State, path: string, buf: seq<byte>, k: nat, cap: nat)
    requires Wrote(st, path, buf, k) && NamedDir(st, path) == Parent(st, path)
    ensures Fread(After(st, path, buf), path, cap) == Some(if |buf| > cap then buf[..cap] else buf)
            <==> |RawLeaf(path)| <= 31
  {
    hide Target, Tree, Leaf, RawLeaf, NamedDir, Parent, After, Wrote, Content;
    StoreLaw(st, path, buf, k);
    OneNodeWritten(st, path, buf, k);
  }

  /** Whatever the path, a successful write is read back under its stored text. */
  lemma {:induction false} StoredReadsBack(st: State, path: string, buf: seq<byte>, k: nat, cap: nat)
    requires Wrote(st, path, buf, k)
    ensures Fread(After(st, path, buf), Stored(path), cap) == Some(if |buf| > cap then buf[..cap] else buf)
  {
    hide Stored, Fread, NamedDir, Parent, Valid, Place, Fwrite, Leaf, RawLeaf;
    ActsOnStored(st, path, buf);
    StoredIs(path);
    ReadsBack(st, Stored(path), buf, k, cap);
  }

  /** Every other file reads as before. */
  lemma {:induction false} OthersReadTheSame(st: State, path: string, buf: seq<byte>, k: nat, other: string, cap: nat)
    requires Wrote(st, path, buf, k)
    requires Target(st, other).Some? && Target(st, other) != Some(k)
    ensures Fread(After(st, path, buf), other, cap) == Fread(st, other, cap)
  {
    hide Follow, Tree, Fwrite, After, Wrote, Pieces, Content;
    ValidNow(st, path, buf, k);
    SlotData(st.nodes, 0);
    OneNodeWritten(st, path, buf, k);
    WriteKeepsPaths(st, path, buf, k, Start(st, other), Pieces(other));
    TargetIsUsed(st, other);
  }

  // ----- new directories

  ghost predicate Made(st: State, path: string, k: nat) {
    Valid(st) && Mkdir(st, path).1 == FS_OK && FreeFrom(st.nodes, 0) == Some(k)
  }

  lemma {:induction false} MadeGrows(st: State, path: string, k: nat)
    requires Made(st, path, k)
    ensures var r := Mkdir(st, path).0;
            && Parent(st, path).Some? && Grown(st.nodes, r.nodes, k, Parent(st, path).value)
            && r.cwd == st.cwd && r.nodes[k].isDir && r.nodes[k].name == Leaf(path) && Tree(r.nodes)
            && r.nodes == st.nodes[k := r.nodes[k]]
  {
    hide Tree, Leaf, Parent;
    SlotData(st.nodes, 0);
    ParentIsDir(st, path);
    MkdirKeeps(st, path);
  }

  /** Every path that led somewhere still leads there. */
  lemma {:induction false} MkdirKeepsPaths(st: State, path: string, k: nat, other: string)
    requires Made(st, path, k) && Target(st, other).Some?
    ensures Target(Mkdir(st, path).0, other) == Target(st, other)
  {
    hide Tree, Follow, Pieces, Mkdir, Grown;
    MadeGrows(st, path, k);
    SlotData(st.nodes, 0);
    FollowGrown(st.nodes, Mkdir(st, path).0.nodes, k, Parent(st, path).value, Start(st, other), Pieces(other));
  }

  lemma {:induction false} NoKidsYet(ns: seq<Node>, m: seq<Node>, k: nat, d: nat, c: string)
    requires Grown(ns, m, k, d)
    ensures Kid(m, k, c) == None
  {
    forall i | 0 <= i < |m|
      ensures !IsKid(m, i, k, c)
    {
      if i > 0 && i != k && ns[i].used {
        assert GoodNode(ns, i);
      }
    }
  }

  /** The pieces behind a full one. */
  lemma {:induction false} LongPieces(s: string)
    requires '/' !in s && |s| >= NAME_MAX
    ensures Pieces(s) == [s[..NAME_MAX - 1]] + Pieces(s[NAME_MAX - 1..])
  {
    PieceIs(s, NAME_MAX - 1);
    assert s[0] != '/';
  }

  lemma {:induction false} FollowRest(ns: seq<Node>, m: seq<Node>, k: nat, d: nat, u: string)
    requires Grown(ns, m, k, d) && m[k].isDir && u != "" && '/' !in u && d != k
    ensures Follow(m, k, Pieces(u)) == Some(k) <==> u == "."
  {
    hide Pieces, Kid, Tree;
    PiecesOfName(u);
    var n, cs := PieceLength(u), Pieces(u);
    PieceIs(u, if |u| < NAME_MAX then |u| else NAME_MAX - 1);
    assert cs[0] == cs[..1][0] == u[..n];
    NoKidsYet(ns, m, k, d, cs[0]);
    if |u| < NAME_MAX {
      assert cs == [u] && cs[1..] == [];
    }
  }

  /**
   * A new directory with a last name that fits stands where its path leads exactly when the path names
   * the directory it was made in, once it is made; in that directory, exactly when the last name fits or
   * overflows by a single dot. A directory named before is named still.
   */
  lemma {:induction false} MkdirLaw(st: State, path: string, k: nat)
    requires Made(st, path, k)
    ensures var r, s := Mkdir(st, path).0, RawLeaf(path);
            && (|s| < NAME_MAX ==> (Target(r, path) == Some(k) <==> NamedDir(r, path) == Parent(st, path)))
            && (NamedDir(r, path) == Parent(st, path) ==>
                  (Target(r, path) == Some(k) <==> |s| < NAME_MAX || s[NAME_MAX - 1..] == "."))
            && (NamedDir(st, path).Some? ==> NamedDir(r, path) == NamedDir(st, path))
  {
    hide Tree, Follow, Kid, Pieces, Leaf, Mkdir, LastSlash, Target, Parent, RawLeaf, Grown, DirText, Made;
    MadeGrows(st, path, k);
    var r, d, s := Mkdir(st, path).0, Parent(st, path).value, RawLeaf(path);
    GrownFacts(st.nodes, r.nodes, k, d);
    LeafPart(path);
    TargetInTwo(r, path);
    if NamedDir(st, path).Some? { DirStays(st, path, k); }
    if Target(r, DirText(path)).Some? {
      var x := Target(r, DirText(path)).value;
      if |s| < NAME_MAX {
        LeafIs(path);
        PiecesOfName(s);
        FollowOne(r.nodes, x, s);
        FoundOnlyThere(r.nodes, k, x, s);
      } else if x == d {
        LongLeaf(st.nodes, r.nodes, k, d, s);
      }
    }
  }

  /** A directory named before a new one is made is named after it. */
  lemma {:induction false} DirStays(st: State, path: string, k: nat)
    requires Made(st, path, k) && NamedDir(st, path).Some?
    ensures NamedDir(Mkdir(st, path).0, path) == NamedDir(st, path)
  {
    hide Follow, Pieces, Leaf, Mkdir, LastSlash, RawLeaf, DirText, Parent;
    MadeGrows(st, path, k);
    if LastSlash(path) >= 0 {
      MkdirKeepsPaths(st, path, k, DirText(path));
      TargetIsUsed(st, DirText(path));
    }
  }

  lemma {:induction false} LongLeaf(ns: seq<Node>, m: seq<Node>, k: nat, d: nat, s: string)
    requires Grown(ns, m, k, d) && Tree(m) && m[k].isDir
    requires '/' !in s && |s| >= NAME_MAX && m[k].name == s[..NAME_MAX - 1]
    ensures Follow(m, d, Pieces(s)) == Some(k) <==> s[NAME_MAX - 1..] == "."
  {
    hide Tree, Follow, Kid, Pieces, Grown;
    GrownFacts(ns, m, k, d);
    var u, c := s[NAME_MAX - 1..], s[..NAME_MAX - 1];
    LongPieces(s);
    NamesAre(s);
    PiecesOfName(u);
    FollowAppend(m, d, [c], Pieces(u));
    FollowOne(m, d, c);
    FoundOnlyThere(m, k, d, c);
    FollowRest(ns, m, k, d, u);
  }

  lemma {:induction false} NamesAre(s: string)
    requires '/' !in s && |s| >= NAME_MAX
    ensures s[NAME_MAX - 1..] != "" && '/' !in s[NAME_MAX - 1..]
  {
  }

  lemma {:induction false} LeafPart(path: string)
    ensures var s := RawLeaf(path); Leaf(path) == if |s| < NAME_MAX then s else s[..NAME_MAX - 1]
    ensures '/' !in RawLeaf(path)
  {
    var s := RawLeaf(path);
    PieceIs(s, if |s| < NAME_MAX then |s| else NAME_MAX - 1);
  }

  lemma {:induction false} GrownFacts(ns: seq<Node>, m: seq<Node>, k: nat, d: nat)
    requires Grown(ns, m, k, d)
    ensures 0 < k < |m| && d != k && d < |m| && m[d].isDir && m[k].used && m[k].parent == d && ProperLeaf(m[k].name)
  {
  }

  // ----- what the codes mean

  ghost predicate AllUsed(ns: seq<Node>) { forall i :: 0 <= i < |ns| ==> ns[i].used }

  /** In the directory a path names, the path leads to the child of its last name. */
  lemma {:induction false} TargetIsKid(st: State, path: string)
    requires Valid(st) && NamedDir(st, path).Some?
    requires ProperLeaf(RawLeaf(path)) && |RawLeaf(path)| < NAME_MAX
    ensures Leaf(path) == RawLeaf(path) && Target(st, path) == Kid(st.nodes, NamedDir(st, path).value, Leaf(path))
  {
    hide Follow, Pieces, LastSlash, Tree, Kid, DirText, RawLeaf;
    TargetInTwo(st, path);
    LeafIs(path);
    LeafPart(path);
    PiecesOfName(RawLeaf(path));
    FollowOne(st.nodes, NamedDir(st, path).value, RawLeaf(path));
  }

  /** In the directory its stored text names, that text leads to the child of the stored name. */
  lemma {:induction false} StoredLeads(st: State, path: string)
    requires Valid(st)
    ensures ProperLeaf(RawLeaf(path)) <==> ProperLeaf(Leaf(path))
    ensures Parent(st, path).Some? && ProperLeaf(Leaf(path)) ==>
              Target(st, Stored(path)) == Kid(st.nodes, Parent(st, path).value, Leaf(path))
  {
    hide Stored, Kid, Target, Tree, Follow, Pieces, NamedDir, Parent, RawLeaf, Leaf, LastSlash, CutDirText;
    StoredIs(path);
    ActsOnStored(st, path, []);
    LeafPart(path);
    if Parent(st, path).Some? && ProperLeaf(Leaf(path)) {
      TargetIsKid(st, Stored(path));
    }
  }

  /**
   * Making a directory is refused for an empty path, a parent that is no directory, a bad name, a stored
   * text that leads somewhere, or a full table.
   */
  lemma {:induction false} MkdirCodes(st: State, path: string)
    requires Valid(st)
    ensures Mkdir(st, path).1 ==
            if path == "" then -4
            else if NamedDir(st, Stored(path)).None? then -1
            else if !ProperLeaf(RawLeaf(path)) then -5
            else if Target(st, Stored(path)).Some? then -2
            else if AllUsed(st.nodes) then -3
            else 0
  {
    hide Stored, Target, Tree, Kid, NamedDir, Parent, RawLeaf, Leaf;
    ActsOnStored(st, path, []);
    StoredLeads(st, path);
  }

  /**
   * A write is refused for an empty path, too much data, a parent that is no directory, a bad name, a
   * directory where the stored text leads, or a full table.
   */
  lemma {:induction false} FwriteCodes(st: State, path: string, buf: seq<byte>)
    requires Valid(st)
    ensures (AllData(st.nodes); Fwrite(st, path, buf).1) ==
            if path == "" then -1
            else if |buf| > 4096 then -3
            else if NamedDir(st, Stored(path)).None? then -1
            else if !ProperLeaf(RawLeaf(path)) then -5
            else if TargetDir(st, Stored(path)).Some? then -1
            else if Target(st, Stored(path)).None? && AllUsed(st.nodes) then -3
            else 0
  {
    hide Stored, Target, Tree, Kid, NamedDir, Parent, RawLeaf, Leaf;
    AllData(st.nodes);
    ActsOnStored(st, path, buf);
    StoredLeads(st, path);
  }

  // ----- what the limits cost

  function Slashes(n: nat): (r: string)
    ensures |r| == n && forall i :: 0 <= i < n ==> r[i] == '/'
  {
    if n == 0 then "" else "/" + Slashes(n - 1)
  }

  lemma {:induction false} SlashRun(n: nat, b: string)
    ensures Pieces(Slashes(n) + b) == Pieces(b)
    decreases n
  {
    hide Pieces;
    if n == 0 {
      assert "" + b == b;
    } else {
      assert Slashes(n) + b == "/" + (Slashes(n - 1) + b);
      PiecesOfSlash(Slashes(n - 1) + b);
      SlashRun(n - 1, b);
    }
  }

  lemma {:induction false} CutAtSlash(p: string, a: string, s: string)
    requires p == a + "/" + s && '/' !in s
    ensures LastSlash(p) == |a| && RawLeaf(p) == s
  {
    hide LastSlash;
    LastSlashFacts(p);
    assert p[|a|] == '/';
    forall i | |a| < i < |p|
      ensures p[i] != '/'
    {
      assert p[i] == s[i - |a| - 1];
    }
  }

  /** A path with `n` slashes in front of "d/f". */
  function Astray(n: nat): (r: string) { Slashes(n) + "d" + "/" + "f" }

  lemma {:induction false} NewTree(ns: seq<Node>, c: string)
    requires |ns| == FS_MAX
    ensures Kid(Init(ns).nodes, 0, c) == None && FreeFrom(Init(ns).nodes, 0) == Some(1)
  {
  }

  lemma {:induction false} AstrayText(n: nat)
    ensures LastSlash(Astray(n)) == n + 1 && RawLeaf(Astray(n)) == "f" && Leaf(Astray(n)) == "f"
    ensures Pieces(Slashes(n) + "d") == ["d"] && Astray(n)[..n + 1] == Slashes(n) + "d"
    ensures n > 0 ==> Astray(n)[0] == '/'
  {
    hide Pieces, LastSlash;
    CutAtSlash(Astray(n), Slashes(n) + "d", "f");
    LeafIs(Astray(n));
    SlashRun(n, "d");
    PiecesOfName("d");
  }

  lemma {:induction false} AstrayDirs(ns: seq<Node>, n: nat)
    requires |ns| == FS_MAX && n >= PARENT_MAX
    ensures Parent(Init(ns), Astray(n)) == Some(0) && NamedDir(Init(ns), Astray(n)) == None
    ensures Target(Init(ns), DirText(Astray(n))) == None
  {
    hide Pieces, LastSlash, Kid;
    var st, p := Init(ns), Astray(n);
    AstrayText(n);
    NewTree(ns, "d");
    assert p[..PARENT_MAX] == Slashes(PARENT_MAX) + "";
    SlashRun(PARENT_MAX, "");
    NoPieces();
    FollowNone(st.nodes, 0);
    assert DirText(p) == Slashes(n) + "d";
    assert DirText(p)[0] == '/';
    FollowOne(st.nodes, 0, "d");
  }

  /**
   * Beyond 127 characters a write goes astray: in a new file system, where there is no directory "d",
   * writing many slashes and then "d/f" is accepted, makes a file "f" in the root, and cannot be read.
   */
  lemma {:induction false} LongPathGoesAstray(ns: seq<Node>, n: nat, buf: seq<byte>, cap: nat)
    requires |ns| == FS_MAX && (forall i :: 0 <= i < |ns| ==> |ns[i].data| == FILE_MAX)
    requires n >= PARENT_MAX && |buf| <= FILE_MAX
    ensures var st := Init(ns);
            Wrote(st, Astray(n), buf, 1) && After(st, Astray(n), buf).nodes[1].parent == 0
            && Fread(After(st, Astray(n), buf), Astray(n), cap) == None
  {
    hide Tree, Follow, Kid, LastSlash, Pieces, Valid, Leaf, RawLeaf, DirText, Parent, NamedDir, Target, Init;
    var st, p := Init(ns), Astray(n);
    InitIsValid(ns);
    ValidTree(st);
    AstrayText(n);
    AstrayDirs(ns, n);
    NewTree(ns, "f");
    assert Wrote(st, p, buf, 1) by { InitSlot(ns); }
    OneNodeWritten(st, p, buf, 1);
    StoreLaw(st, p, buf, 1);
    AstrayMisses(st, p, buf);
  }

  lemma {:induction false} InitSlot(ns: seq<Node>)
    requires |ns| == FS_MAX
    ensures !Init(ns).nodes[1].used && Init(ns).cwd == 0
  {
  }

  lemma {:induction false} AstrayMisses(st: State, p: string, buf: seq<byte>)
    requires Wrote(st, p, buf, 1) && Target(st, DirText(p)) == None && RawLeaf(p) != ""
    ensures Target(After(st, p, buf), p) in {None, Some(1)}
  {
    hide Tree, Follow, Pieces, LastSlash, Fwrite;
    TargetInTwo(st, p);
    SlotData(st.nodes, 0);
    OneNodeWritten(st, p, buf, 1);
    WriteKeepsPaths(st, p, buf, 1, Start(st, p), Pieces(p));
  }

  /** A name of `n` letters "a". */
  function Letters(n: nat): (r: string)
    ensures |r| == n && forall i :: 0 <= i < n ==> r[i] == 'a'
  {
    if n == 0 then "" else "a" + Letters(n - 1)
  }

  /**
   * In a new file system a write to a name of 32 letters or more is accepted and cannot be read under
   * that name; it is read under the first 31 of them.
   */
  lemma {:induction false} LongNameIsLost(ns: seq<Node>, n: nat, buf: seq<byte>, cap: nat)
    requires |ns| == FS_MAX && (forall i :: 0 <= i < |ns| ==> |ns[i].data| == FILE_MAX)
    requires n >= NAME_MAX && |buf| <= FILE_MAX
    ensures var st, p := Init(ns), Letters(n);
            && Wrote(st, p, buf, 1) && Fread(After(st, p, buf), p, cap) == None
            && Fread(After(st, p, buf), p[..NAME_MAX - 1], cap) == Some(if |buf| > cap then buf[..cap] else buf)
  {
    hide Tree, Follow, Kid, LastSlash, Pieces, Valid, Leaf, RawLeaf, NamedDir, Target, Init;
    var st, p := Init(ns), Letters(n);
    InitIsValid(ns);
    ValidTree(st);
    LettersText(n);
    NewTree(ns, Leaf(p));
    assert st.cwd == 0 && !st.nodes[1].used by { InitSlot(ns); }
    ShortPathsAgree(st, p);
    assert Wrote(st, p, buf, 1);
    StoreLaw(st, p, buf, 1);
    StoredReadsBack(st, p, buf, 1, cap);
  }

  lemma {:induction false} LettersText(n: nat)
    requires n >= NAME_MAX
    ensures var p := Letters(n);
            && LastSlash(p) < 0 && RawLeaf(p) == p && p[0] == 'a' && Leaf(p) == Stored(p) == p[..NAME_MAX - 1]
            && ProperLeaf(Leaf(p))
  {
    hide LastSlash, RawLeaf, Leaf;
    var p := Letters(n);
    NoSlash(p);
    LeafPart(p);
  }
}
