/** The in-memory file system as a state: a table of nodes with parent links, paths, and every operation. */
module RamTree {
  import opened Bytes

  const FS_MAX: nat := 64
  const NAME_MAX: nat := 32
  const FILE_MAX: nat := 4096
  const PARENT_MAX: nat := 127

  const FS_OK: int := 0
  const FS_BADPATH: int := -1
  const FS_EXISTS: int := -2
  const FS_FULL: int := -3
  const FS_USAGE: int := -4
  const FS_BADNAME: int := -5

  datatype Node = Node(name: string, parent: int, isDir: bool, used: bool, mode: nat, data: seq<byte>, len: nat)

  datatype State = State(nodes: seq<Node>, cwd: nat)

  // ----- paths as text

  /** Length of the name at the front: it ends at a slash, at the end, or when the buffer is full. */
  function PieceLength(p: string): (n: nat)
    ensures n <= |p| && n < NAME_MAX && '/' !in p[..n]
    ensures n == |p| || n == NAME_MAX - 1 || p[n] == '/'
  {
    PieceFrom(p, 0)
  }

  function PieceFrom(p: string, i: nat): (n: nat)
    requires i <= |p| && i < NAME_MAX && '/' !in p[..i]
    ensures i <= n <= |p| && n < NAME_MAX && '/' !in p[..n]
    ensures n == |p| || n == NAME_MAX - 1 || p[n] == '/'
    decreases |p| - i
  {
    if i < |p| && p[i] != '/' && i < NAME_MAX - 1 then
      assert p[..i + 1] == p[..i] + [p[i]];
      PieceFrom(p, i + 1)
    else i
  }

  /** The name at the front of a text that does not begin with a slash. */
  function Piece(p: string): (r: string) { p[..PieceLength(p)] }

  /** The names a path is read as: cut at slashes, and again wherever a name outgrows the buffer. */
  function Pieces(p: string): (r: seq<string>)
    ensures forall c :: c in r ==> c != "" && |c| < NAME_MAX && '/' !in c
    decreases |p|
  {
    var q := Skip(p, '/');
    if q == [] then [] else
      var n := PieceLength(q);
      [q[..n]] + Pieces(q[n..])
  }

  // ----- the table of nodes

  predicate IsKid(ns: seq<Node>, i: nat, d: nat, name: string) {
    i < |ns| && ns[i].used && ns[i].parent == d && ns[i].name == name
  }

  function KidFrom(ns: seq<Node>, d: nat, name: string, i: nat): (r: Option<nat>)
    requires i <= |ns|
    ensures r.Some? ==> i <= r.value && IsKid(ns, r.value, d, name)
    ensures forall j :: i <= j < (if r.Some? then r.value else |ns|) ==> !IsKid(ns, j, d, name)
    decreases |ns| - i
  {
    if i == |ns| then None else if IsKid(ns, i, d, name) then Some(i) else KidFrom(ns, d, name, i + 1)
  }

  /** The child of directory `d` with that name. */
  function Kid(ns: seq<Node>, d: nat, name: string): (r: Option<nat>)
    ensures r.Some? ==> IsKid(ns, r.value, d, name)
    ensures r.None? ==> forall j :: 0 <= j < |ns| ==> !IsKid(ns, j, d, name)
  {
    KidFrom(ns, d, name, 0)
  }

  function FreeFrom(ns: seq<Node>, i: nat): (r: Option<nat>)
    requires i <= |ns|
    ensures r.Some? ==> i <= r.value < |ns| && !ns[r.value].used
    ensures forall j :: i <= j < (if r.Some? then r.value else |ns|) ==> ns[j].used
    decreases |ns| - i
  {
    if i == |ns| then None else if !ns[i].used then Some(i) else FreeFrom(ns, i + 1)
  }

  predicate NameOk(s: string) {
    s != "" && |s| < NAME_MAX && '/' !in s && s != "." && s != ".."
  }

  predicate Twins(a: Node, b: Node) { a.parent == b.parent && a.name == b.name }

  predicate GoodNode(ns: seq<Node>, i: nat)
    requires i < |ns|
  {
    0 <= ns[i].parent < i && ns[ns[i].parent].isDir && NameOk(ns[i].name) && ns[i].len <= FILE_MAX
  }

  /**
   * The tree: the used slots are a prefix, the root is slot 0, every other node hangs below a smaller
   * used directory, and siblings have different proper names.
   */
  ghost predicate Tree(ns: seq<Node>) {
    && |ns| == FS_MAX
    && ns[0].used && ns[0].isDir && ns[0].parent == -1
    && (forall i, j :: 0 <= i < j < |ns| && ns[j].used ==> ns[i].used)
    && (forall i :: 0 < i < |ns| && ns[i].used ==> GoodNode(ns, i))
    && (forall i, j :: 0 < i < j < |ns| && ns[i].used && ns[j].used ==> !Twins(ns[i], ns[j]))
    && (forall i :: 0 <= i < |ns| ==> |ns[i].data| == FILE_MAX)
  }

  predicate IsDir(ns: seq<Node>, d: nat) { d < |ns| && ns[d].used && ns[d].isDir }

  ghost predicate Valid(st: State) { Tree(st.nodes) && IsDir(st.nodes, st.cwd) }

  // ----- resolving

  function Step(ns: seq<Node>, cur: nat, c: string): (r: Option<nat>)
    requires cur < |ns|
  {
    if c == "." then Some(cur)
    else if c == ".." then Some(if ns[cur].parent >= 0 then ns[cur].parent else cur)
    else Kid(ns, cur, c)
  }

  /** Follow names from `cur`; only the last may be a file. */
  function Follow(ns: seq<Node>, cur: nat, cs: seq<string>): (r: Option<nat>)
    decreases |cs|
  {
    if cs == [] then Some(cur)
    else if cur >= |ns| || !ns[cur].isDir then None
    else match Step(ns, cur, cs[0])
      case None => None
      case Some(k) => Follow(ns, k, cs[1..])
  }

  function Start(st: State, path: string): nat {
    if path != "" && path[0] == '/' then 0 else st.cwd
  }

  /** The node a path leads to. */
  function Target(st: State, path: string): (r: Option<nat>) {
    Follow(st.nodes, Start(st, path), Pieces(path))
  }

  function TargetDir(st: State, path: string): (r: Option<nat>) {
    match Target(st, path)
    case Some(d) => if d < |st.nodes| && st.nodes[d].isDir then Some(d) else None
    case None => None
  }

  // ----- cutting a path into directory and name

  function LastSlash(p: string): (l: int)
    ensures -1 <= l < |p|
  {
    if p == "" then -1 else if p[|p| - 1] == '/' then |p| - 1 else LastSlash(p[..|p| - 1])
  }

  lemma {:induction false} LastSlashFacts(p: string)
    ensures var l := LastSlash(p); (l >= 0 ==> p[l] == '/') && forall i :: l < i < |p| ==> p[i] != '/'
    decreases |p|
  {
    if p != "" && p[|p| - 1] != '/' {
      var q := p[..|p| - 1];
      LastSlashFacts(q);
      assert forall i :: 0 <= i < |q| ==> p[i] == q[i];
    }
  }

  /** Everything behind the last slash. */
  function RawLeaf(p: string): (r: string)
    ensures '/' !in r
  {
    LastSlashFacts(p);
    p[LastSlash(p) + 1..]
  }

  /** The name that is stored: the part behind the last slash, as far as it fits. */
  function Leaf(p: string): (r: string) { Piece(RawLeaf(p)) }

  /** The directory a path names, by everything before its last slash. */
  function DirText(p: string): (r: string) {
    var l := LastSlash(p);
    if l < 0 then "" else if l == 0 then "/" else p[..l]
  }

  /** The same, as far as the buffer for it reaches. */
  function CutDirText(p: string): (r: string) {
    var l := LastSlash(p);
    if l > PARENT_MAX then p[..PARENT_MAX] else DirText(p)
  }

  function Parent(st: State, path: string): (r: Option<nat>) {
    if LastSlash(path) < 0 then Some(st.cwd) else TargetDir(st, CutDirText(path))
  }

  // ----- operations

  predicate ProperLeaf(s: string) { s != "" && s != "." && s != ".." }

  function Init(ns: seq<Node>): (st: State)
    requires |ns| == FS_MAX
  {
    var clear := seq(|ns|, i requires 0 <= i < |ns| => ns[i].(used := false));
    State(clear[0 := clear[0].(name := "", parent := -1, isDir := true, used := true, mode := 493)], 0)
  }

  function NewDir(n: Node, name: string, parent: nat): Node {
    n.(name := name, parent := parent, isDir := true, used := true, mode := 493, len := 0)
  }

  function NewFile(n: Node, name: string, parent: nat): Node {
    n.(name := name, parent := parent, isDir := false, used := true, mode := 420)
  }

  function Filled(n: Node, buf: seq<byte>): (r: Node)
    requires |buf| <= |n.data|
  {
    n.(data := buf + n.data[|buf|..], len := |buf|)
  }

  function Content(n: Node): (r: seq<byte>) {
    if n.len <= |n.data| then n.data[..n.len] else []
  }

  function Mkdir(st: State, path: string): (r: (State, int)) {
    if path == "" then (st, FS_USAGE)
    else match Parent(st, path)
      case None => (st, FS_BADPATH)
      case Some(d) =>
        if !ProperLeaf(Leaf(path)) then (st, FS_BADNAME)
        else if Kid(st.nodes, d, Leaf(path)).Some? then (st, FS_EXISTS)
        else match FreeFrom(st.nodes, 0)
          case None => (st, FS_FULL)
          case Some(k) => (st.(nodes := st.nodes[k := NewDir(st.nodes[k], Leaf(path), d)]), FS_OK)
  }

  /** Where a write goes: the node of that name in its directory, else the first free slot. */
  function Place(st: State, path: string): (r: Option<nat>)
    ensures r.Some? ==> r.value < |st.nodes|
  {
    match Parent(st, path)
    case None => None
    case Some(d) =>
      var k := Kid(st.nodes, d, Leaf(path));
      if k.Some? then k else FreeFrom(st.nodes, 0)
  }

  function Fwrite(st: State, path: string, buf: seq<byte>): (r: (State, int))
    requires forall i :: 0 <= i < |st.nodes| ==> |st.nodes[i].data| == FILE_MAX
  {
    if path == "" then (st, FS_BADPATH)
    else if |buf| > FILE_MAX then (st, FS_FULL)
    else match Parent(st, path)
      case None => (st, FS_BADPATH)
      case Some(d) =>
        if !ProperLeaf(Leaf(path)) then (st, FS_BADNAME)
        else match Place(st, path)
          case None => (st, FS_FULL)
          case Some(k) =>
            var n := st.nodes[k];
            if n.used && n.isDir then (st, FS_BADPATH)
            else
              var f := if n.used then n else NewFile(n, Leaf(path), d);
              (st.(nodes := st.nodes[k := Filled(f, buf)]), FS_OK)
  }

  function Chdir(st: State, path: string): (r: (State, int)) {
    if path == "" then (st.(cwd := 0), FS_OK)
    else match TargetDir(st, path)
      case None => (st, FS_BADPATH)
      case Some(d) => (st.(cwd := d), FS_OK)
  }

  /** What a read of at most `cap` bytes returns; nothing for a missing path or a directory. */
  function Fread(st: State, path: string, cap: nat): (r: Option<seq<byte>>) {
    match Target(st, path)
    case None => None
    case Some(k) =>
      if k < |st.nodes| && !st.nodes[k].isDir then
        var c := Content(st.nodes[k]);
        Some(if |c| > cap then c[..cap] else c)
      else None
  }

  // ----- the path of a node

  function PathTo(ns: seq<Node>, n: nat): (r: seq<string>)
    requires n < |ns|
  {
    if 0 <= ns[n].parent < n then PathTo(ns, ns[n].parent) + [ns[n].name] else []
  }

  function Joined(cs: seq<string>): (r: string) {
    if cs == [] then "" else Joined(cs[..|cs| - 1]) + "/" + cs[|cs| - 1]
  }

  function PathText(ns: seq<Node>, n: nat): (r: string)
    requires n < |ns|
  {
    if n == 0 then "/" else Joined(PathTo(ns, n))
  }
}
