/**
 * What the bytes of a FAT32 volume mean: clusters, directories as entry lists, files as byte
 * strings, and the tree a reader sees.
 */
module FatVolume {
  import opened Bytes
  import opened FatNames
  import opened FatChains

  type Sector = s: seq<byte> | |s| == 512 witness seq(512, _ => 0)

  /** Where the parts of the volume lie, as the mount read them from the boot sector. */
  datatype Geo = Geo(fatStart: nat, dataStart: nat, spc: nat, nfats: nat, fatSz: nat, root: nat)

  /** The reader's view of a disk: FAT copy 0 and the sectors of each cluster. */
  datatype Vol = Vol(fat: seq<nat>, clus: seq<seq<Sector>>)

  ghost predicate Shape(g: Geo, v: Vol) {
    && 1 <= g.spc && 2 <= |v.fat| <= EOC && |v.clus| == |v.fat|
    && forall c :: 2 <= c < |v.clus| ==> |v.clus[c]| == g.spc
  }

  /** `v` with sector `s` of cluster `c` replaced. */
  ghost function WithSector(v: Vol, c: nat, s: nat, x: Sector): (w: Vol)
    requires c < |v.clus| && s < |v.clus[c]|
  {
    var row: seq<Sector> := v.clus[c][s := x];
    v.(clus := v.clus[c := row])
  }

  // ----- directory entries

  predicate IsLfn(e: Entry) { e[11] % 16 == 15 }
  predicate IsVol(e: Entry) { e[11] / 8 % 2 == 1 }
  predicate IsDir(e: Entry) { e[11] / 16 % 2 == 1 }

  function ClusOf(e: Entry): (r: nat) { 0x1_0000 * Rd16(e, 20) + Rd16(e, 26) }
  function SizeOf(e: Entry): (r: nat) { Rd32(e, 28) }

  /** A slot the writer compares: in use, and neither a long-name part nor a label. */
  predicate Listed(e: Entry) {
    e[0] != 0 && e[0] != 0xE5 && !IsLfn(e) && !IsVol(e)
  }

  predicate Dots(e: Entry) {
    NameOf(e) == [DOT] || NameOf(e) == [DOT, DOT]
  }

  /** A slot the path walk compares. */
  predicate Visible(e: Entry) {
    Listed(e) && !Dots(e)
  }

  /** What a directory scan looks for: a name by its text, or an entry by its 11 bytes. */
  datatype Query = ByName(s: Str) | By83(n: Name83)

  predicate Hit(q: Query, e: Entry) {
    match q
    case ByName(s) => Visible(e) && NameOf(e) == Upper(s)
    case By83(n) => Listed(e) && e[..11] == n
  }

  /** The first hit from slot `i` on, before the end mark. */
  function Find(es: seq<Entry>, q: Query, i: nat): (r: Option<nat>)
    ensures r.Some? ==> i <= r.value < |es| && Hit(q, es[r.value])
    ensures r.Some? ==> forall j :: i <= j < r.value ==> !Hit(q, es[j]) && es[j][0] != 0
    ensures r.None? ==> forall j :: i <= j < |es| && Hit(q, es[j]) ==> exists z :: i <= z < j && es[z][0] == 0
    decreases |es| - i
  {
    if i >= |es| || es[i][0] == 0 then None
    else if Hit(q, es[i]) then Some(i)
    else Find(es, q, i + 1)
  }

  /** After an end mark every slot is an end mark. */
  ghost predicate ZeroTail(es: seq<Entry>) {
    forall i, j :: 0 <= i < j < |es| && es[i][0] == 0 ==> es[j][0] == 0
  }

  lemma {:induction false} FindIs(es: seq<Entry>, q: Query, r: Option<nat>)
    requires ZeroTail(es)
    requires r.Some? ==> r.value < |es| && Hit(q, es[r.value]) && forall j :: 0 <= j < r.value ==> !Hit(q, es[j])
    requires r.None? ==> forall j :: 0 <= j < |es| ==> !Hit(q, es[j])
    ensures Find(es, q, 0) == r
  {
    var f := Find(es, q, 0);
    assert forall j :: 0 <= j < |es| && Hit(q, es[j]) ==> es[j][0] != 0;
  }

  lemma {:induction false} FindPast(es: seq<Entry>, q: Query)
    ensures Find(es, q, |es|) == None
  {
  }

  lemma {:induction false} FindNone(es: seq<Entry>, q: Query)
    requires ZeroTail(es) && Find(es, q, 0).None?
    ensures forall j :: 0 <= j < |es| ==> !Hit(q, es[j])
  {
  }

  function SecEnts(s: Sector): (r: seq<Entry>)
    ensures |r| == 16
    ensures forall i :: 0 <= i < 16 ==> r[i] == s[32 * i..32 * i + 32]
  {
    seq(16, i requires 0 <= i < 16 => s[32 * i..32 * i + 32])
  }

  function Ents(secs: seq<Sector>): (r: seq<Entry>)
    ensures |r| == 16 * |secs|
  {
    if secs == [] then [] else SecEnts(secs[0]) + Ents(secs[1..])
  }

  function Flat(secs: seq<Sector>): (r: seq<byte>)
    ensures |r| == 512 * |secs|
  {
    if secs == [] then [] else secs[0] + Flat(secs[1..])
  }

  /** The sectors of the clusters of `ch`, in order. */
  function Content(v: Vol, ch: seq<nat>): (r: seq<Sector>) {
    if ch == [] then []
    else (if ch[0] < |v.clus| then v.clus[ch[0]] else []) + Content(v, ch[1..])
  }

  ghost function DirEnts(v: Vol, d: nat): (r: seq<Entry>) {
    match ChainOf(v.fat, d)
    case Some(ch) => Ents(Content(v, ch))
    case None => []
  }

  function Take(s: seq<byte>, n: nat): (r: seq<byte>) {
    if n <= |s| then s[..n] else s
  }

  ghost function FileBytes(v: Vol, e: Entry): (r: seq<byte>) {
    match ChainOf(v.fat, ClusOf(e))
    case Some(ch) => Take(Flat(Content(v, ch)), SizeOf(e))
    case None => []
  }

  // ----- the tree a reader sees

  datatype Child = Sub(d: nat) | File(bytes: seq<byte>)
  datatype Obj = DirObj | FileObj(bytes: seq<byte>)

  ghost function NameSlot(v: Vol, d: nat, s: Str): (r: Option<nat>)
    ensures r.Some? ==> r.value < |DirEnts(v, d)| && Hit(ByName(s), DirEnts(v, d)[r.value])
  {
    Find(DirEnts(v, d), ByName(s), 0)
  }

  ghost function ChildOf(v: Vol, e: Entry): Child {
    if IsDir(e) then Sub(ClusOf(e)) else File(FileBytes(v, e))
  }

  /** One path step. */
  ghost function Step(v: Vol, d: nat, s: Str): Option<Child> {
    match NameSlot(v, d, s)
    case Some(i) => Some(ChildOf(v, DirEnts(v, d)[i]))
    case None => None
  }

  /** What the path `p` below directory `d` names. */
  ghost function Stat(v: Vol, d: nat, p: seq<Str>): Option<Obj>
    decreases |p|
  {
    if p == [] then Some(DirObj)
    else if |p[0]| > 12 then None
    else match Step(v, d, p[0])
      case None => None
      case Some(Sub(c)) => Stat(v, c, p[1..])
      case Some(File(b)) => if |p| == 1 then Some(FileObj(b)) else None
  }

  /** The directory reached by `p`. */
  ghost function DirAt(v: Vol, d: nat, p: seq<Str>): Option<nat>
    decreases |p|
  {
    if p == [] then Some(d)
    else if |p[0]| > 12 then None
    else match Step(v, d, p[0])
      case Some(Sub(c)) => DirAt(v, c, p[1..])
      case _ => None
  }

  /** Two volumes no reader can tell apart: every path names the same object, directories in the same place. */
  ghost predicate SameTree(g: Geo, v: Vol, w: Vol) {
    forall p: seq<Str> :: Stat(v, g.root, p) == Stat(w, g.root, p) && DirAt(v, g.root, p) == DirAt(w, g.root, p)
  }

  // ----- the volume invariant

  /** Who owns a chain: a directory, by its first cluster, or the file in slot `i` of directory `d`. */
  datatype Owner = DirO(d: nat) | FileO(d: nat, i: nat)

  /** The chains of the volume and, for each directory but the root, the slot that names it. */
  datatype Layout = Layout(chains: map<Owner, seq<nat>>, parent: map<nat, (nat, nat)>)

  ghost predicate HasDir(t: Layout, d: nat) { DirO(d) in t.chains }

  ghost predicate Owned(t: Layout, c: nat) {
    exists o :: o in t.chains && c in t.chains[o]
  }

  ghost predicate AllDisjoint(t: Layout) {
    forall o, o' :: o in t.chains && o' in t.chains && o != o' ==> Disjoint(t.chains[o], t.chains[o'])
  }

  ghost predicate FileChain(fat: seq<nat>, e: Entry, ch: seq<nat>) {
    IsChain(fat, ClusOf(e), ch) || (ClusOf(e) == 0 && SizeOf(e) == 0 && ch == [])
  }

  predicate NameOk(e: Entry) {
    (forall i :: 0 <= i < 11 ==> e[i] != 0) && (WellNamed(e) || Dots(e))
  }

  ghost predicate EntryOk(fat: seq<nat>, t: Layout, d: nat, i: nat, e: Entry) {
    Listed(e) ==>
      && NameOk(e)
      && (Visible(e) ==>
            if IsDir(e) then
              ClusOf(e) in t.parent && t.parent[ClusOf(e)] == (d, i) && HasDir(t, ClusOf(e))
            else
              FileO(d, i) in t.chains && FileChain(fat, e, t.chains[FileO(d, i)]))
  }

  ghost predicate DirOk(v: Vol, t: Layout, d: nat) {
    var es := DirEnts(v, d);
    && ZeroTail(es)
    && forall i :: 0 <= i < |es| ==> EntryOk(v.fat, t, d, i, es[i])
  }

  ghost predicate DirChainOk(v: Vol, t: Layout, d: nat)
    requires HasDir(t, d)
  {
    2 <= d < EOC && IsChain(v.fat, d, t.chains[DirO(d)])
  }

  ghost predicate FileSlotOk(v: Vol, t: Layout, d: nat, i: nat) {
    && HasDir(t, d) && i < |DirEnts(v, d)|
    && Visible(DirEnts(v, d)[i]) && !IsDir(DirEnts(v, d)[i])
  }

  /**
   * The volume is consistent: every chain ends inside the table, no two chains share a cluster,
   * every live entry names one of them, and each directory is named by one slot at most.
   * Clusters marked used that no chain holds are the only damage this leaves room for.
   */
  ghost predicate Consistent(g: Geo, v: Vol, t: Layout) {
    && Shape(g, v) && HasDir(t, g.root) && g.root !in t.parent && AllDisjoint(t)
    && (forall d :: HasDir(t, d) ==> DirChainOk(v, t, d))
    && (forall d :: HasDir(t, d) ==> DirOk(v, t, d))
    && (forall d, i :: FileO(d, i) in t.chains ==> FileSlotOk(v, t, d, i))
  }

  /** No two listed slots have the same eleven name bytes. */
  ghost predicate Distinct(es: seq<Entry>) {
    forall i, j :: 0 <= i < j < |es| && Listed(es[i]) && Listed(es[j]) ==> es[i][..11] != es[j][..11]
  }

  /** Names in a directory differ. */
  ghost predicate NamesDiffer(v: Vol, t: Layout) {
    forall d :: HasDir(t, d) ==> Distinct(DirEnts(v, d))
  }

  /** The directory that slot `i` of directory `d` names. */
  ghost function SubOf(v: Vol, d: nat, i: nat): Option<nat> {
    var es := DirEnts(v, d);
    if i < |es| && Visible(es[i]) && IsDir(es[i]) then Some(ClusOf(es[i])) else None
  }

  /** The directory reached from `d` through the slots `slots`, whatever their names. */
  ghost function Via(v: Vol, d: nat, slots: seq<nat>): Option<nat>
    decreases |slots|
  {
    if slots == [] then Some(d)
    else match SubOf(v, d, slots[0])
      case None => None
      case Some(c) => Via(v, c, slots[1..])
  }

  /** Directory `d` is reached from the root. */
  ghost predicate ReachedDir(g: Geo, v: Vol, d: nat) {
    exists slots :: Via(v, g.root, slots) == Some(d)
  }

  /** The layout has no directory but those reached from the root. */
  ghost predicate Reached(g: Geo, v: Vol, t: Layout) {
    forall d :: HasDir(t, d) ==> ReachedDir(g, v, d)
  }

  /** A cluster marked used that no chain holds. */
  ghost predicate Lost(v: Vol, t: Layout, c: nat) {
    2 <= c < |v.fat| && v.fat[c] != 0 && !Owned(t, c)
  }

  // ----- basic facts

  lemma {:induction false} DirEntsAre(g: Geo, v: Vol, t: Layout, d: nat)
    requires Consistent(g, v, t) && HasDir(t, d)
    ensures DirEnts(v, d) == Ents(Content(v, t.chains[DirO(d)]))
    ensures t.chains[DirO(d)] != [] && t.chains[DirO(d)][0] == d
  {
    assert DirChainOk(v, t, d);
    ChainOfIs(v.fat, d, t.chains[DirO(d)]);
  }

  lemma {:induction false} OwnedInRange(g: Geo, v: Vol, t: Layout, o: Owner)
    requires Consistent(g, v, t) && o in t.chains
    ensures forall c :: c in t.chains[o] ==> 2 <= c < |v.fat| && v.fat[c] != 0 && Owned(t, c)
  {
    match o
    case DirO(d) =>
      assert DirChainOk(v, t, d);
      ChainInRange(v.fat, d, t.chains[o]);
    case FileO(d, i) =>
      assert FileSlotOk(v, t, d, i);
      assert DirOk(v, t, d);
      var e := DirEnts(v, d)[i];
      assert EntryOk(v.fat, t, d, i, e);
      if t.chains[o] != [] {
        ChainInRange(v.fat, ClusOf(e), t.chains[o]);
      }
  }

  lemma {:induction false} ContentFrame(v: Vol, w: Vol, ch: seq<nat>)
    requires |v.clus| == |w.clus|
    requires forall c :: c in ch && c < |v.clus| ==> v.clus[c] == w.clus[c]
    ensures Content(v, ch) == Content(w, ch)
    decreases |ch|
  {
    if ch != [] {
      ContentFrame(v, w, ch[1..]);
    }
  }

  lemma {:induction false} ContentConcat(v: Vol, a: seq<nat>, b: seq<nat>)
    ensures Content(v, a + b) == Content(v, a) + Content(v, b)
    decreases |a|
  {
    if a == [] {
      assert a + b == b;
    } else {
      ContentConcat(v, a[1..], b);
      assert (a + b)[1..] == a[1..] + b;
    }
  }

  lemma {:induction false} FlatConcat(a: seq<Sector>, b: seq<Sector>)
    ensures Flat(a + b) == Flat(a) + Flat(b)
    decreases |a|
  {
    if a == [] {
      assert a + b == b;
    } else {
      FlatConcat(a[1..], b);
      assert (a + b)[1..] == a[1..] + b;
    }
  }

  lemma {:induction false} EntsConcat(a: seq<Sector>, b: seq<Sector>)
    ensures Ents(a + b) == Ents(a) + Ents(b)
    decreases |a|
  {
    if a == [] {
      assert a + b == b;
    } else {
      hide SecEnts;
      EntsConcat(a[1..], b);
      assert (a + b)[1..] == a[1..] + b;
      assert SecEnts(a[0]) + (Ents(a[1..]) + Ents(b)) == SecEnts(a[0]) + Ents(a[1..]) + Ents(b);
    }
  }
}
