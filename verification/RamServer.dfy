/** The in-memory file server: a table of nodes and a current directory, updated in place. */
module RamServer {
  import opened Bytes
  import opened RamTree
  import opened RamLaws

  class RamFs {
    const nodes: array<Node>
    var cwd: nat

    function Current(): (st: State)
      reads this, nodes
    {
      State(nodes[..], cwd)
    }

    ghost predicate Ready()
      reads this, nodes
    {
      nodes.Length == FS_MAX && Valid(Current())
    }

    constructor ()
      ensures Ready() && fresh(nodes)
    {
      var empty := Node("", 0, false, false, 0, seq(FILE_MAX, _ => 0), 0);
      nodes := new Node[FS_MAX](_ => empty);
      cwd := 0;
      new;
      FsInit();
    }

    method FsInit()
      requires nodes.Length == FS_MAX && forall i :: 0 <= i < FS_MAX ==> |nodes[i].data| == FILE_MAX
      modifies this, nodes
      ensures Ready() && Current() == Init(old(nodes[..]))
    {
      var i := 0;
      while i < FS_MAX
        invariant i <= FS_MAX
        invariant forall j :: 0 <= j < FS_MAX ==>
                    nodes[j] == if j < i then old(nodes[j]).(used := false) else old(nodes[j])
      {
        nodes[i] := nodes[i].(used := false);
        i := i + 1;
      }
      nodes[0] := nodes[0].(name := "", parent := -1, isDir := true, used := true, mode := 493);
      cwd := 0;
      assert nodes[..] == Init(old(nodes[..])).nodes;
      InitIsValid(old(nodes[..]));
    }

    /** The child of `dir` called `name`, or -1. */
    method FindKid(dir: nat, name: string) returns (k: int)
      ensures k == match Kid(nodes[..], dir, name) case Some(x) => x case None => -1
    {
      var i := 0;
      while i < nodes.Length
        invariant 0 <= i <= nodes.Length
        invariant Kid(nodes[..], dir, name) == KidFrom(nodes[..], dir, name, i)
      {
        if nodes[i].used && nodes[i].parent == dir {
          if nodes[i].name == name {
            return i;
          }
        }
        i := i + 1;
      }
      k := -1;
    }

    method FreeSlot() returns (k: int)
      ensures k == match FreeFrom(nodes[..], 0) case Some(x) => x case None => -1
    {
      var i := 0;
      while i < nodes.Length
        invariant 0 <= i <= nodes.Length
        invariant FreeFrom(nodes[..], 0) == FreeFrom(nodes[..], i)
      {
        if !nodes[i].used {
          return i;
        }
        i := i + 1;
      }
      k := -1;
    }

    /** The node a path leads to. */
    method Resolve(path: string) returns (r: Option<nat>)
      requires Ready()
      ensures r == Target(Current(), path)
    {
      hide Tree, Pieces, Follow, Skip, Kid;
      ghost var ns := nodes[..];
      RootIsDir(Current());
      var cur: nat := if path != "" && path[0] == '/' then 0 else cwd;
      if path == "" || path == "." {
        DotLeadsNowhere(ns, cur);
        return Some(cur);
      }
      var p := path;
      while p != ""
        invariant cur < FS_MAX == |ns| && ns[cur].used && (p != "" ==> ns[cur].isDir)
        invariant Follow(ns, cur, Pieces(p)) == Target(Current(), path)
        decreases |p|
      {
        PiecesSkip(p);
        p := SkipRun(p, '/');
        if p == "" {
          break;
        }
        var part := NextPart(p);
        ghost var whole := p;
        p := SkipRun(p[|part|..], '/');
        OnePiece(whole, part, p);
        OneStep(ns, cur, part, p);
        if part == "." {
          continue;
        }
        if part == ".." {
          if nodes[cur].parent >= 0 {
            cur := nodes[cur].parent;
          }
          continue;
        }
        var k := FindKid(cur, part);
        if k < 0 {
          return None;
        }
        if p != "" && !nodes[k].isDir {
          return None;
        }
        cur := k;
      }
      AtEnd(ns, cur);
      r := Some(cur);
    }

    method ResolveDir(path: string) returns (r: Option<nat>)
      requires Ready()
      ensures r == TargetDir(Current(), path)
    {
      r := Resolve(path);
      if r.Some? {
        TargetIsUsed(Current(), path);
        if !nodes[r.value].isDir {
          r := None;
        }
      }
    }

    /** Directory and name of a path; the text before the last slash is copied through a fixed buffer. */
    method SplitParent(arg: string) returns (pdir: Option<nat>, leaf: string)
      requires Ready()
      ensures pdir == Parent(Current(), arg) && leaf == Leaf(arg)
    {
      hide Parent, TargetDir, Leaf, Piece, LastSlash, Skip, Valid;
      var last := FindLast(arg);
      LeafHead(arg);
      SplitMeans(Current(), arg);
      leaf := NextPart(arg[last + 1..]);
      if last >= 0 {
        var pbuf := CopyFront(arg, last);
        pdir := ResolveDir(if pbuf != "" then pbuf else "/");
      } else {
        pdir := Some(cwd);
      }
    }

    /** Makes a directory; the code says why it did not. */
    method FsMkdir(arg: string) returns (code: int)
      requires Ready()
      modifies nodes
      ensures Ready() && (Current(), code) == Mkdir(old(Current()), arg)
    {
      hide Tree, Parent, Leaf;
      MkdirKeeps(Current(), arg);
      if arg == "" {
        return FS_USAGE;
      }
      var pdir, leaf := SplitParent(arg);
      if pdir.None? {
        return FS_BADPATH;
      }
      if leaf == "" || leaf == "." || leaf == ".." {
        return FS_BADNAME;
      }
      var k := FindKid(pdir.value, leaf);
      if k >= 0 {
        return FS_EXISTS;
      }
      var fr := FreeSlot();
      if fr < 0 {
        return FS_FULL;
      }
      nodes[fr] := nodes[fr].(name := leaf, parent := pdir.value, isDir := true, used := true, mode := 493, len := 0);
      code := FS_OK;
    }

    /** Makes or overwrites a file; the code says why it did not. */
    method FsFwrite(path: string, buf: seq<byte>) returns (code: int)
      requires Ready()
      modifies nodes
      ensures Ready() && (AllData(old(Current()).nodes); (Current(), code) == Fwrite(old(Current()), path, buf))
    {
      hide Tree, Parent, Leaf;
      AllData(Current().nodes);
      FwriteKeeps(Current(), path, buf);
      if path == "" {
        return FS_BADPATH;
      }
      if |buf| > FILE_MAX {
        return FS_FULL;
      }
      var pdir, leaf := SplitParent(path);
      if pdir.None? {
        return FS_BADPATH;
      }
      if leaf == "" || leaf == "." || leaf == ".." {
        return FS_BADNAME;
      }
      var k := FindKid(pdir.value, leaf);
      if k >= 0 {
        if nodes[k].isDir {
          return FS_BADPATH;
        }
      } else {
        k := FreeSlot();
        if k < 0 {
          return FS_FULL;
        }
        nodes[k] := nodes[k].(name := leaf, parent := pdir.value, isDir := false, used := true, mode := 420);
      }
      ghost var f := nodes[k];
      FillData(k, buf);
      assert nodes[..] == old(nodes[..])[k := Filled(f, buf)];
      code := FS_OK;
    }

    /** The copy loop of a write. */
    method FillData(k: nat, buf: seq<byte>)
      requires k < nodes.Length && |nodes[k].data| == FILE_MAX && |buf| <= FILE_MAX
      modifies nodes
      ensures nodes[..] == old(nodes[..])[k := Filled(old(nodes[k]), buf)]
    {
      ghost var ns, n := nodes[..], nodes[k];
      assert buf[..0] + n.data[0..] == n.data;
      var i := 0;
      while i < |buf|
        invariant 0 <= i <= |buf| && nodes[..] == ns[k := n.(data := buf[..i] + n.data[i..])]
      {
        OneByteMore(n.data, buf, i);
        nodes[k] := nodes[k].(data := nodes[k].data[i := buf[i]]);
        i := i + 1;
      }
      assert buf[..|buf|] == buf;
      nodes[k] := nodes[k].(len := |buf|);
    }

    /** Copies at most `cap` bytes of a file out; -1 for no file. */
    method FsFreadRam(path: string, out: array<byte>, cap: nat) returns (n: int)
      requires Ready() && cap <= out.Length
      modifies out
      ensures match Fread(Current(), path, cap)
              case None => n == -1 && out[..] == old(out[..])
              case Some(c) => n == |c| && out[..n] == c && out[n..] == old(out[n..])
    {
      hide Tree, Target;
      var idx := Resolve(path);
      if idx.None? {
        return -1;
      }
      TargetIsUsed(Current(), path);
      if nodes[idx.value].isDir {
        return -1;
      }
      SlotData(nodes[..], idx.value);
      var m := nodes[idx.value].len;
      if m > cap {
        m := cap;
      }
      var i := 0;
      while i < m
        invariant 0 <= i <= m <= out.Length
        invariant out[..i] == nodes[idx.value].data[..i] && out[i..] == old(out[i..])
      {
        out[i] := nodes[idx.value].data[i];
        i := i + 1;
      }
      n := m;
    }

    method FsChdir(path: string) returns (code: int)
      requires Ready()
      modifies `cwd
      ensures Ready() && (Current(), code) == Chdir(old(Current()), path)
    {
      hide Tree, Target;
      ChdirKeeps(Current(), path);
      if path == "" {
        cwd := 0;
        return FS_OK;
      }
      var dir := ResolveDir(path);
      if dir.None? {
        return FS_BADPATH;
      }
      cwd := dir.value;
      code := FS_OK;
    }

    /** The nodes from the current directory up to the root, the root itself left out. */
    method Ancestors(stack: array<nat>) returns (depth: nat)
      requires Ready() && stack.Length == FS_MAX && stack as object != nodes
      modifies stack
      ensures depth <= FS_MAX && Rising(nodes[..], stack[..depth], cwd)
    {
      hide Tree, Climbs;
      depth := 0;
      var cur: nat := cwd;
      ClimbStarts(nodes[..], cwd) by { RootIsDir(Current()); }
      assert stack[..0] == [];
      while cur != 0 && depth < FS_MAX
        invariant nodes.Length == FS_MAX == stack.Length && depth + cur < FS_MAX && nodes[cur].used
        invariant Climbs(nodes[..], stack[..depth], cwd, cur)
        decreases cur
      {
        ClimbOn(nodes[..], stack[..depth], cwd, cur);
        ghost var s := stack[..depth];
        stack[depth] := cur;
        depth := depth + 1;
        assert stack[..depth] == s + [cur];
        cur := nodes[cur].parent;
      }
    }

    /** Writes the path of the current directory and its terminator, if `cap` characters can hold them. */
    method FsGetcwd(out: array<char>, cap: nat) returns (n: int)
      requires Ready() && cap <= out.Length
      modifies out
      ensures var text := PathText(nodes[..], cwd);
              if |text| + 1 > cap then n == FS_BADPATH
              else n == |text| && out[..n] == text && out[n] == '\0'
    {
      hide Tree, PathTo, Joined;
      if cap < 2 {
        TextNotEmpty(Current());
        return FS_BADPATH;
      }
      if cwd == 0 {
        out[0] := '/';
        out[1] := '\0';
        return 1;
      }
      var stack := new nat[FS_MAX];
      var depth := Ancestors(stack);
      ghost var up := stack[..depth];
      var pos, i := 0, depth - 1;
      JoinedRoot(nodes[..]);
      while i >= 0
        invariant -1 <= i < depth && up == stack[..depth]
        invariant 0 <= pos < cap && out[..pos] == TextOf(nodes[..], Below(up, i + 1))
      {
        RisingAt(nodes[..], up, cwd, i);
        assert stack[i] == up[i];
        var name := nodes[stack[i]].name;
        TextGrows(nodes[..], up, cwd, i);
        if pos + |name| + 2 > cap {
          return FS_BADPATH;
        }
        out[pos] := '/';
        pos := pos + 1;
        pos := CopyName(out, pos, name);
        i := i - 1;
      }
      out[pos] := '\0';
      n := pos;
    }

    method CopyName(out: array<char>, at: nat, name: string) returns (pos: nat)
      requires at + |name| <= out.Length
      modifies out
      ensures pos == at + |name| && out[..pos] == old(out[..at]) + name
    {
      var j := 0;
      while j < |name|
        invariant 0 <= j <= |name| && out[..at + j] == old(out[..at]) + name[..j]
      {
        out[at + j] := name[j];
        j := j + 1;
      }
      pos := at + j;
    }
  }

  /** The index of the last slash, or -1. */
  method FindLast(arg: string) returns (last: int)
    ensures last == LastSlash(arg)
  {
    last := -1;
    var i := 0;
    while i < |arg|
      invariant 0 <= i <= |arg| && -1 <= last < i
      invariant (last >= 0 ==> arg[last] == '/') && forall j :: last < j < i ==> arg[j] != '/'
    {
      if arg[i] == '/' {
        last := i;
      }
      i := i + 1;
    }
    LastIs(arg, last);
  }

  /** The first `last` characters, as far as the buffer holds them. */
  method CopyFront(arg: string, last: nat) returns (pbuf: string)
    requires last <= |arg|
    ensures pbuf == arg[..if last > PARENT_MAX then PARENT_MAX else last]
  {
    pbuf := "";
    var j := 0;
    while j < last && j < PARENT_MAX
      invariant 0 <= j <= last && j <= PARENT_MAX && pbuf == arg[..j]
    {
      pbuf := pbuf + [arg[j]];
      j := j + 1;
    }
  }

  lemma {:induction false} SplitMeans(st: State, arg: string)
    ensures var l := LastSlash(arg);
            var pbuf := if l < 0 then "" else arg[..if l > PARENT_MAX then PARENT_MAX else l];
            Parent(st, arg) == if l < 0 then Some(st.cwd) else TargetDir(st, if pbuf != "" then pbuf else "/")
  {
    hide TargetDir;
  }

  lemma {:induction false} LeafHead(arg: string)
    ensures LastSlash(arg) < |arg| && Leaf(arg) == Piece(Skip(arg[LastSlash(arg) + 1..], '/'))
  {
    hide LastSlash, Piece;
    var s := RawLeaf(arg);
    assert s != "" ==> s[0] in s;
  }

  /** The name at the front, as far as the buffer holds it. */
  method NextPart(path: string) returns (out: string)
    ensures out == Piece(Skip(path, '/')) && |out| <= |path|
  {
    var p := SkipRun(path, '/');
    var i := 0;
    out := "";
    while i < |p| && p[i] != '/' && i < NAME_MAX - 1
      invariant 0 <= i <= |p| && i < NAME_MAX && out == p[..i] && '/' !in p[..i]
      invariant PieceFrom(p, i) == PieceLength(p)
    {
      out := out + [p[i]];
      assert p[..i + 1] == p[..i] + [p[i]];
      i := i + 1;
    }
  }

  // ----- steps of the resolver

  lemma {:induction false} RootIsDir(st: State)
    requires Valid(st)
    ensures |st.nodes| == FS_MAX && IsDir(st.nodes, 0) && IsDir(st.nodes, st.cwd)
  {
  }

  lemma {:induction false} DotLeadsNowhere(ns: seq<Node>, cur: nat)
    requires IsDir(ns, cur)
    ensures Follow(ns, cur, Pieces("")) == Some(cur) && Follow(ns, cur, Pieces(".")) == Some(cur)
  {
    NoPieces();
    PiecesOfName(".");
    assert ["."][1..] == [];
  }

  lemma {:induction false} OnePiece(p: string, part: string, rest: string)
    requires p != "" && p[0] != '/' && part == Piece(Skip(p, '/')) && |part| <= |p| && rest == Skip(p[|part|..], '/')
    ensures Pieces(p) == [part] + Pieces(rest) && |rest| < |p|
  {
    PiecesSkip(p[|part|..]);
    PieceNotEmpty(p);
  }

  lemma {:induction false} PieceNotEmpty(p: string)
    requires p != "" && p[0] != '/'
    ensures PieceLength(p) > 0
  {
  }

  /** What one name does to the search. */
  lemma {:induction false} OneStep(ns: seq<Node>, cur: nat, part: string, rest: string)
    requires Tree(ns) && IsDir(ns, cur) && (rest != "" ==> rest[0] != '/')
    ensures Follow(ns, cur, [part] + Pieces(rest)) ==
            match Step(ns, cur, part) case None => None case Some(k) => Follow(ns, k, Pieces(rest))
    ensures match Step(ns, cur, part)
            case None => true
            case Some(k) =>
              && k < |ns| && ns[k].used && (part in {".", ".."} ==> ns[k].isDir)
              && (rest != "" && !ns[k].isDir ==> Follow(ns, k, Pieces(rest)) == None)
  {
    assert ([part] + Pieces(rest))[1..] == Pieces(rest);
    if ns[cur].parent >= 0 && cur > 0 {
      assert GoodNode(ns, cur);
    }
    if rest != "" {
      PiecesNotEmpty(rest);
    }
  }

  lemma {:induction false} PiecesNotEmpty(p: string)
    requires p != "" && p[0] != '/'
    ensures Pieces(p) != []
  {
  }

  lemma {:induction false} AtEnd(ns: seq<Node>, cur: nat)
    ensures Follow(ns, cur, Pieces("")) == Some(cur)
  {
    NoPieces();
  }

  lemma {:induction false} LastIs(p: string, l: int)
    requires -1 <= l < |p| && (l >= 0 ==> p[l] == '/') && forall i :: l < i < |p| ==> p[i] != '/'
    ensures LastSlash(p) == l
  {
    hide LastSlash;
    LastSlashFacts(p);
  }

  // ----- steps of the path printer

  /** `s` climbs from node `a` by parents and stops below `cur`. */
  ghost predicate Climbs(ns: seq<Node>, s: seq<nat>, a: nat, cur: nat) {
    && (s == [] ==> cur == a) && (s != [] ==> s[0] == a)
    && forall j: nat :: j < |s| ==> Rung(ns, s, j, cur)
  }

  ghost predicate Rung(ns: seq<Node>, s: seq<nat>, j: nat, cur: nat)
    requires j < |s|
  {
    0 < s[j] < |ns| && ns[s[j]].used && ns[s[j]].parent == if j + 1 < |s| then s[j + 1] else cur
  }

  ghost predicate Rising(ns: seq<Node>, s: seq<nat>, a: nat) { Climbs(ns, s, a, 0) }

  lemma {:induction false} ClimbStarts(ns: seq<Node>, a: nat)
    ensures Climbs(ns, [], a, a)
  {
  }

  lemma {:induction false} ClimbOn(ns: seq<Node>, s: seq<nat>, a: nat, cur: nat)
    requires Tree(ns) && Climbs(ns, s, a, cur) && 0 < cur < |ns| && ns[cur].used
    ensures 0 <= ns[cur].parent < cur && ns[ns[cur].parent].used && Climbs(ns, s + [cur], a, ns[cur].parent)
  {
    assert GoodNode(ns, cur);
    var u, up := s + [cur], ns[cur].parent;
    forall j: nat | j < |u|
      ensures Rung(ns, u, j, up)
    {
      if j < |s| {
        assert Rung(ns, s, j, cur);
      }
    }
  }

  function Below(s: seq<nat>, i: nat): (n: nat) { if i < |s| then s[i] else 0 }

  function TextOf(ns: seq<Node>, n: nat): (t: string) { if n < |ns| then Joined(PathTo(ns, n)) else "" }

  lemma {:induction false} TextNotEmpty(st: State)
    requires Valid(st)
    ensures PathText(st.nodes, st.cwd) != ""
  {
    if st.cwd != 0 {
      assert GoodNode(st.nodes, st.cwd);
    }
  }

  lemma {:induction false} JoinedRoot(ns: seq<Node>)
    requires Tree(ns)
    ensures TextOf(ns, 0) == ""
  {
  }

  /** The text of a node is its parent's text, a slash, and its name. */
  lemma {:induction false} TextStep(ns: seq<Node>, n: nat)
    requires Tree(ns) && 0 < n < |ns| && ns[n].used
    ensures ns[n].parent >= 0 && TextOf(ns, n) == TextOf(ns, ns[n].parent) + "/" + ns[n].name
  {
    assert GoodNode(ns, n);
    var a := PathTo(ns, ns[n].parent);
    assert (a + [ns[n].name])[..|a|] == a;
  }

  lemma {:induction false} RisingAt(ns: seq<Node>, s: seq<nat>, a: nat, i: nat)
    requires Tree(ns) && Rising(ns, s, a) && i < |s|
    ensures s[i] < |ns| && TextOf(ns, s[i]) == TextOf(ns, Below(s, i + 1)) + "/" + ns[s[i]].name
  {
    assert Rung(ns, s, i, 0);
    TextStep(ns, s[i]);
  }

  /** Going down the climb the text only grows. */
  lemma {:induction false} TextGrows(ns: seq<Node>, s: seq<nat>, a: nat, i: nat)
    requires Tree(ns) && Rising(ns, s, a) && i < |s|
    ensures |TextOf(ns, s[i])| <= |TextOf(ns, a)|
    decreases i
  {
    hide Tree, TextOf, Rung;
    if i > 0 {
      RisingAt(ns, s, a, i - 1);
      TextGrows(ns, s, a, i - 1);
    }
  }

  lemma {:induction false} OneByteMore(data: seq<byte>, buf: seq<byte>, i: nat)
    requires i < |buf| <= |data|
    ensures (buf[..i] + data[i..])[i := buf[i]] == buf[..i + 1] + data[i + 1..]
  {
  }
}
