/** The bytes of a disk: where FAT entries and clusters lie, and what storing one sector changes. */
module FatDisk {
  import opened Arith
  import opened Bytes
  import opened FatNames
  import opened FatChains
  import opened FatVolume

  type Disk = seq<Sector>

  function FatMax(g: Geo): nat { g.fatSz * 128 }

  /** The volume fits the disk: the FAT copies come first, then every cluster's sectors. */
  ghost predicate GeoOk(g: Geo, n: nat) {
    && 1 <= g.spc < 0x100 && 1 <= g.nfats < 0x100 && 1 <= g.fatSz && FatMax(g) <= EOC
    && g.dataStart == g.fatStart + g.nfats * g.fatSz
    && g.dataStart + (FatMax(g) - 2) * g.spc <= n
  }

  function FatLba(g: Geo, k: nat, c: nat): nat { g.fatStart + k * g.fatSz + c / 128 }

  function ClusLba(g: Geo, c: nat): nat
    requires c >= 2
  {
    g.dataStart + (c - 2) * g.spc
  }

  lemma {:induction false} FatLbaBounds(g: Geo, n: nat, k: nat, c: nat)
    requires GeoOk(g, n) && k < g.nfats && c < FatMax(g)
    ensures g.fatStart + k * g.fatSz <= FatLba(g, k, c) < g.fatStart + (k + 1) * g.fatSz <= g.dataStart <= n
  {
    assert c / 128 < g.fatSz;
    MulOrder(k, k + 1, g.fatSz);
    if k + 1 < g.nfats { MulOrder(k + 1, g.nfats, g.fatSz); }
    assert (FatMax(g) - 2) * g.spc >= 0;
  }

  lemma {:induction false} ClusLbaBounds(g: Geo, n: nat, c: nat)
    requires GeoOk(g, n) && 2 <= c < FatMax(g)
    ensures g.dataStart <= ClusLba(g, c) && ClusLba(g, c) + g.spc <= n
  {
    MulOrder(c - 2, FatMax(g) - 2, g.spc);
    assert (c - 2) * g.spc >= 0;
  }

  /** The raw 32-bit entry of cluster `c` in FAT copy `k`. */
  ghost function RawEntry(g: Geo, d: Disk, k: nat, c: nat): (r: nat)
    requires GeoOk(g, |d|) && k < g.nfats && c < FatMax(g)
  {
    FatLbaBounds(g, |d|, k, c);
    Rd32(d[FatLba(g, k, c)], c % 128 * 4)
  }

  ghost function FatCopy(g: Geo, d: Disk, k: nat): (r: seq<nat>)
    requires GeoOk(g, |d|) && k < g.nfats
    ensures |r| == FatMax(g)
  {
    seq(FatMax(g), c requires 0 <= c < FatMax(g) => RawEntry(g, d, k, c))
  }

  ghost function ClusAt(g: Geo, d: Disk, c: nat): (r: seq<Sector>)
    requires GeoOk(g, |d|) && c < FatMax(g)
    ensures |r| == if c < 2 then 0 else g.spc
  {
    if c < 2 then [] else
      ClusLbaBounds(g, |d|, c);
      d[ClusLba(g, c)..ClusLba(g, c) + g.spc]
  }

  ghost function Clusters(g: Geo, d: Disk): (r: seq<seq<Sector>>)
    requires GeoOk(g, |d|)
    ensures |r| == FatMax(g) && forall c :: 2 <= c < |r| ==> |r[c]| == g.spc
  {
    seq(FatMax(g), c requires 0 <= c < FatMax(g) => ClusAt(g, d, c))
  }

  ghost function VolOf(g: Geo, d: Disk): (v: Vol)
    requires GeoOk(g, |d|)
    ensures Shape(g, v) && |v.fat| == FatMax(g)
  {
    Vol(FatCopy(g, d, 0), Clusters(g, d))
  }

  /** All FAT copies hold the same entries. */
  ghost predicate Mirrored(g: Geo, d: Disk)
    requires GeoOk(g, |d|)
  {
    forall k :: 0 <= k < g.nfats ==> FatCopy(g, d, k) == FatCopy(g, d, 0)
  }

  /** Storing one patched FAT sector changes one entry of one copy. */
  lemma {:induction false} PatchFat(g: Geo, d: Disk, k: nat, c: nat, v: nat, d': Disk)
    requires GeoOk(g, |d|) && k < g.nfats && c < FatMax(g) && v < 0x1_0000_0000
    requires FatLba(g, k, c) < |d|
    requires d' == d[FatLba(g, k, c) := Patch(d[FatLba(g, k, c)], c % 128 * 4, Le32(v))]
    ensures FatCopy(g, d', k) == FatCopy(g, d, k)[c := v]
    ensures forall j :: 0 <= j < g.nfats && j != k ==> FatCopy(g, d', j) == FatCopy(g, d, j)
    ensures Clusters(g, d') == Clusters(g, d)
  {
    FatLbaBounds(g, |d|, k, c);
    forall x | 0 <= x < FatMax(g)
      ensures RawEntry(g, d', k, x) == if x == c then v else RawEntry(g, d, k, x)
    {
      FatLbaBounds(g, |d|, k, x);
      if x / 128 == c / 128 {
        PatchedWord(d[FatLba(g, k, c)], c % 128 * 4, v, x % 128 * 4);
      }
    }
    forall j | 0 <= j < g.nfats && j != k ensures FatCopy(g, d', j) == FatCopy(g, d, j) {
      forall x | 0 <= x < FatMax(g) ensures RawEntry(g, d', j, x) == RawEntry(g, d, j, x) {
        FatLbaBounds(g, |d|, j, x);
        if j < k { MulOrder(j, k, g.fatSz); } else { MulOrder(k, j, g.fatSz); }
      }
    }
    forall x | 0 <= x < FatMax(g) ensures ClusAt(g, d', x) == ClusAt(g, d, x) {
      if x >= 2 { ClusLbaBounds(g, |d|, x); }
    }
  }

  /** Storing one data sector changes one sector of one cluster. */
  lemma {:induction false} PatchCluster(g: Geo, d: Disk, c: nat, s: nat, x: Sector, d': Disk)
    requires GeoOk(g, |d|) && 2 <= c < FatMax(g) && s < g.spc && ClusLba(g, c) + s < |d|
    requires d' == d[ClusLba(g, c) + s := x]
    ensures forall k :: 0 <= k < g.nfats ==> FatCopy(g, d', k) == FatCopy(g, d, k)
    ensures VolOf(g, d') == WithSector(VolOf(g, d), c, s, x)
  {
    ClusLbaBounds(g, |d|, c);
    forall k | 0 <= k < g.nfats ensures FatCopy(g, d', k) == FatCopy(g, d, k) {
      forall y | 0 <= y < FatMax(g) ensures RawEntry(g, d', k, y) == RawEntry(g, d, k, y) {
        FatLbaBounds(g, |d|, k, y);
      }
    }
    forall y | 0 <= y < FatMax(g)
      ensures ClusAt(g, d', y) == if y == c then ClusAt(g, d, c)[s := x] else ClusAt(g, d, y)
    {
      if y >= 2 {
        ClusLbaBounds(g, |d|, y);
        if y < c { MulOrder(y - 2, c - 2, g.spc); } else if c < y { MulOrder(c - 2, y - 2, g.spc); }
      }
    }
  }

  /** Entry `i` of a sector, replaced. */
  lemma {:induction false} PatchEntry(x: Sector, i: nat, e: Entry)
    requires i < 16
    ensures SecEnts(Patch(x, 32 * i, e)) == SecEnts(x)[i := e]
  {
    var y := Patch(x, 32 * i, e);
    forall j | 0 <= j < 16 ensures SecEnts(y)[j] == SecEnts(x)[i := e][j] {
      assert y[32 * j..32 * j + 32] == if j == i then e else x[32 * j..32 * j + 32];
    }
  }

  /** Where a slot lies: entry `i` of sector `k` of the directory, which is sector `s` of cluster `c`. */
  datatype Loc = Loc(k: nat, i: nat, c: nat, s: nat)

  // ----- finding a sector of a chain again

  ghost predicate InTable(ch: seq<nat>, n: nat) {
    forall i :: 0 <= i < |ch| ==> 2 <= ch[i] < n
  }

  /** Sector `k` of the chain's contents is sector `s` of cluster `c`. */
  ghost predicate Locates(spc: nat, ch: seq<nat>, k: nat, c: nat, s: nat)
    decreases |ch|
  {
    ch != [] && if k < spc then c == ch[0] && s == k else Locates(spc, ch[1..], k - spc, c, s)
  }

  /** The contents of a chain are its first cluster's sectors and then the rest's. */
  lemma {:induction false} FirstCluster(g: Geo, v: Vol, ch: seq<nat>)
    requires Shape(g, v) && ch != [] && InTable(ch, |v.fat|)
    ensures |v.clus[ch[0]]| == g.spc && Content(v, ch) == v.clus[ch[0]] + Content(v, ch[1..])
  {
  }

  /** Behind the sectors of `pre` come those of the first cluster of `rem`. */
  lemma {:induction false} LocatesBehind(g: Geo, v: Vol, pre: seq<nat>, rem: seq<nat>, s: nat)
    requires Shape(g, v) && rem != [] && s < g.spc && InTable(pre, |v.fat|)
    ensures Locates(g.spc, pre + rem, |Content(v, pre)| + s, rem[0], s)
    decreases |pre|
  {
    hide Content, Shape, WithSector;
    if pre == [] {
      assert pre + rem == rem;
      NoContent(v);
      assert Locates(g.spc, rem, s, rem[0], s);
    } else {
      var ch, k := pre + rem, |Content(v, pre)| + s;
      assert ch[1..] == pre[1..] + rem;
      FirstCluster(g, v, pre);
      LocatesBehind(g, v, pre[1..], rem, s);
      assert Locates(g.spc, ch[1..], k - g.spc, rem[0], s);
      assert Locates(g.spc, ch, k, rem[0], s);
    }
  }

  lemma {:induction false} NoContent(v: Vol)
    ensures Content(v, []) == []
  {
  }

  lemma {:induction false} LocateIn(g: Geo, v: Vol, pre: seq<nat>, rem: seq<nat>, s: nat)
    requires Shape(g, v) && rem != [] && s < g.spc
    requires InTable(pre, |v.fat|) && InTable(rem, |v.fat|)
    ensures Locates(g.spc, pre + rem, |Content(v, pre)| + s, rem[0], s)
    ensures |Content(v, pre)| + s < |Content(v, pre + rem)|
    ensures Content(v, pre + rem)[|Content(v, pre)| + s] == v.clus[rem[0]][s]
  {
    hide Content, Shape, Locates, WithSector;
    LocatesBehind(g, v, pre, rem, s);
    ContentConcat(v, pre, rem);
    FirstCluster(g, v, rem);
  }

  /** Storing a located sector replaces it in the chain's contents. */
  lemma {:induction false} LocateUpdate(g: Geo, v: Vol, w: Vol, ch: seq<nat>, k: nat, c: nat, s: nat, x: Sector)
    requires Shape(g, v) && Locates(g.spc, ch, k, c, s)
    requires InTable(ch, |v.fat|)
    requires forall i, j :: 0 <= i < j < |ch| ==> ch[i] != ch[j]
    requires c in ch && s < g.spc && w == WithSector(v, c, s, x)
    ensures k < |Content(v, ch)| && Content(w, ch) == Content(v, ch)[k := x]
    decreases |ch|
  {
    var h := ch[0];
    assert |v.clus[h]| == g.spc;
    if k < g.spc {
      assert c !in ch[1..];
      ContentFrame(v, w, ch[1..]);
    } else {
      LocatesMember(g.spc, ch[1..], k - g.spc, c, s);
      assert h !in ch[1..];
      LocateUpdate(g, v, w, ch[1..], k - g.spc, c, s, x);
    }
  }

  lemma {:induction false} LocatesMember(spc: nat, ch: seq<nat>, k: nat, c: nat, s: nat)
    requires Locates(spc, ch, k, c, s)
    ensures c in ch && s < spc
    decreases |ch|
  {
    if k >= spc { LocatesMember(spc, ch[1..], k - spc, c, s); }
  }

  /** Replacing one entry of one sector replaces one entry of the directory. */
  lemma {:induction false} EntsUpdate(secs: seq<Sector>, k: nat, x: Sector, i: nat, e: Entry)
    requires k < |secs| && i < 16 && SecEnts(x) == SecEnts(secs[k])[i := e]
    ensures Ents(secs[k := x]) == Ents(secs)[16 * k + i := e]
    decreases |secs|
  {
    if k == 0 {
      assert secs[k := x][1..] == secs[1..];
    } else {
      EntsUpdate(secs[1..], k - 1, x, i, e);
      assert secs[k := x][1..] == secs[1..][k - 1 := x];
    }
  }

  lemma {:induction false} EntsAt(secs: seq<Sector>, k: nat, i: nat)
    requires k < |secs| && i < 16
    ensures Ents(secs)[16 * k + i] == SecEnts(secs[k])[i]
    decreases |secs|
  {
    if k > 0 { EntsAt(secs[1..], k - 1, i); }
  }

  lemma {:induction false} FlatAt(secs: seq<Sector>, k: nat)
    requires k < |secs|
    ensures Flat(secs)[512 * k..512 * k + 512] == secs[k]
    decreases |secs|
  {
    if k > 0 { FlatAt(secs[1..], k - 1); }
  }

  lemma {:induction false} FlatPatch(secs: seq<Sector>, k: nat, x: Sector)
    requires k < |secs|
    ensures var row: seq<Sector> := secs[k := x]; Flat(row) == Patch(Flat(secs), 512 * k, x)
    decreases |secs|
  {
    var row: seq<Sector> := secs[k := x];
    if k == 0 {
      assert row[1..] == secs[1..];
    } else {
      FlatPatch(secs[1..], k - 1, x);
      assert row[1..] == secs[1..][k - 1 := x];
    }
  }

  /** The entries of the sector a scan stands on, as a part of the whole directory. */
  lemma {:induction false} ScanSectorIs(g: Geo, v: Vol, pre: seq<nat>, rem: seq<nat>, s: nat)
    requires Shape(g, v) && rem != [] && s < g.spc
    requires InTable(pre, |v.fat|) && InTable(rem, |v.fat|)
    ensures var k := |Content(v, pre)| + s;
            && Locates(g.spc, pre + rem, k, rem[0], s) && k < |Content(v, pre + rem)|
            && Content(v, pre + rem)[k] == v.clus[rem[0]][s]
            && (forall j :: 0 <= j < 16 ==> Ents(Content(v, pre + rem))[16 * k + j] == SecEnts(v.clus[rem[0]][s])[j])
  {
    var k := |Content(v, pre)| + s;
    LocateIn(g, v, pre, rem, s);
    forall j | 0 <= j < 16 ensures Ents(Content(v, pre + rem))[16 * k + j] == SecEnts(v.clus[rem[0]][s])[j] {
      EntsAt(Content(v, pre + rem), k, j);
    }
  }

  lemma {:induction false} ScanStart(v: Vol)
    ensures |Content(v, [])| == 0 && InTable([], |v.fat|)
  {
  }

  lemma {:induction false} ScanNext(g: Geo, v: Vol, pre: seq<nat>, rem: seq<nat>)
    requires Shape(g, v) && rem != [] && InTable(pre, |v.fat|) && InTable(rem, |v.fat|)
    ensures InTable(pre + [rem[0]], |v.fat|) && InTable(rem[1..], |v.fat|)
    ensures Content(v, pre + [rem[0]]) == Content(v, pre) + v.clus[rem[0]]
    ensures |Content(v, pre + [rem[0]])| == |Content(v, pre)| + g.spc
    ensures pre + [rem[0]] + rem[1..] == pre + rem
  {
    ContentConcat(v, pre, [rem[0]]);
    assert Content(v, [rem[0]]) == v.clus[rem[0]] + Content(v, []);
  }

  // ----- the allocator's rotating search meets every cluster

  lemma {:induction false} RotationCovers(h: nat, m: nat, x: nat) returns (j: nat)
    requires x < m
    ensures j < m && (h + j) % m == x
  {
    var q, r := h / m, h % m;
    assert h == q * m + r;
    if x >= r {
      j := x - r;
      QuotientUnique(q, x, m);
    } else {
      j := x - r + m;
      QuotientUnique(q + 1, x, m);
      assert (q + 1) * m == q * m + m;
    }
  }
}
