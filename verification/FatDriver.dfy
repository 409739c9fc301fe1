/** The FAT32 driver: one sector buffer, a rotating allocation hint, and a disk written sector by sector. */
module FatDriver {
  import opened Arith
  import opened Bytes
  import opened FatNames
  import opened FatChains
  import opened FatVolume
  import opened FatUpdates
  import opened FatTree
  import opened FatDisk
  import opened FatCodec
  import opened FatPaths
  import opened FatNewChain
  import opened FatCommit
  import opened FatLaws
  import opened FatLeaks

  /** A write whose path has been resolved. */
  datatype Plan = Plan(d: nat, n: Name83, found: bool, lba: nat, off: nat, oldClus: nat)

  datatype SectorScan = At(i: nat) | End | Miss

  /** Sector `lba` was written. */
  ghost predicate SectorWritten(a: Disk, b: Disk, lba: nat) {
    |b| == |a| && lba < |a| && b == a[lba := b[lba]]
  }

  ghost predicate OneSector(a: Disk, b: Disk) {
    exists lba: nat :: SectorWritten(a, b, lba)
  }

  /** Entry `i` of the trace is what a reader finds after write number `i`. */
  ghost predicate LogEntry(g: Geo, history: seq<Disk>, trace: seq<Vol>, i: nat)
    requires i < |trace| < |history|
  {
    OneSector(history[i], history[i + 1]) && GeoOk(g, |history[i + 1]|) && trace[i] == VolOf(g, history[i + 1])
  }

  /**
   * The trace tells of every write: each disk is one sector write from the one before, and the last is the
   * present one.
   */
  ghost predicate Logged(g: Geo, history: seq<Disk>, trace: seq<Vol>, disk: Disk) {
    && |history| == |trace| + 1 && history[|trace|] == disk
    && forall i: nat :: i < |trace| ==> LogEntry(g, history, trace, i)
  }

  lemma {:induction false} LogMore(g: Geo, history: seq<Disk>, trace: seq<Vol>, disk: Disk, lba: nat, data: Sector)
    requires Logged(g, history, trace, disk) && lba < |disk| && GeoOk(g, |disk|)
    ensures var next := disk[lba := data]; Logged(g, history + [next], trace + [VolOf(g, next)], next)
  {
    hide GeoOk, VolOf;
    var next := disk[lba := data];
    var h, tr := history + [next], trace + [VolOf(g, next)];
    assert SectorWritten(disk, next, lba);
    forall i: nat | i < |tr|
      ensures LogEntry(g, h, tr, i)
    {
      if i < |trace| { assert LogEntry(g, history, trace, i); }
    }
  }

  class FatFs {
    const geo: Geo
    const sec: array<byte>
    var disk: Disk
    var allocHint: nat

    /** The text of the current directory. */
    var cwd: Str

    /** Every disk since the start, one sector write behind the other. */
    ghost var history: seq<Disk>

    /** What a reader would find on the disk after each sector write so far. */
    ghost var trace: seq<Vol>

    constructor (g: Geo, d: Disk)
      requires GeoOk(g, |d|)
      ensures Ready() && geo == g && disk == d && trace == [] && history == [d] && fresh(sec)
      ensures cwd == [SLASH] && CwdOk(cwd)
    {
      geo := g;
      disk := d;
      sec := new byte[512];
      allocHint, cwd := 2, [SLASH];
      assert CwdOk([SLASH]) by { NoComps(); }
      trace, history := [], [d];
    }

    ghost predicate Ready()
      reads this
    {
      && sec.Length == 512 && GeoOk(geo, |disk|) && Logged(geo, history, trace, disk)
      && forall i :: 0 <= i < |trace| ==> Shape(geo, trace[i])
    }

    ghost function View(): (v: Vol)
      reads this
      requires Ready()
      ensures Shape(geo, v) && |v.fat| == FatMax(geo)
    {
      VolOf(geo, disk)
    }

    ghost predicate Mirrors()
      reads this
      requires Ready()
    {
      Mirrored(geo, disk)
    }

    // ----- sectors

    method ReadSector(lba: nat)
      requires Ready() && lba < |disk|
      modifies sec
      ensures sec[..] == disk[lba]
    {
      var s := disk[lba];
      forall i | 0 <= i < 512 {
        sec[i] := s[i];
      }
    }

    method WriteSector(lba: nat, data: Sector)
      requires Ready() && lba < |disk|
      modifies this`disk, this`trace, this`history
      ensures Ready() && disk == old(disk)[lba := data]
      ensures trace == old(trace) + [View()] && history == old(history) + [disk]
    {
      hide Logged, VolOf, GeoOk;
      LogMore(geo, history, trace, disk, lba, data);
      disk := disk[lba := data];
      trace := trace + [VolOf(geo, disk)];
      history := history + [disk];
    }

    method StoreWord(o: nat, v: nat)
      requires sec.Length == 512 && o + 4 <= 512
      modifies sec
      ensures sec[..] == Patch(old(sec[..]), o, Le32(v))
    {
      var w := Le32(v);
      sec[o], sec[o + 1], sec[o + 2], sec[o + 3] := w[0], w[1], w[2], w[3];
      assert sec[..] == Patch(old(sec[..]), o, w);
    }

    method StoreHalf(o: nat, v: nat)
      requires sec.Length == 512 && o + 2 <= 512
      modifies sec
      ensures sec[..] == Patch(old(sec[..]), o, Le16(v))
    {
      var w := Le16(v);
      sec[o], sec[o + 1] := w[0], w[1];
      assert sec[..] == Patch(old(sec[..]), o, w);
    }

    /** Store one data sector of a cluster. */
    method WriteCluster(c: nat, s: nat, data: Sector)
      requires Ready() && 2 <= c < FatMax(geo) && s < geo.spc
      modifies this`disk, this`trace, this`history
      ensures Ready() && |disk| == old(|disk|)
      ensures View() == WithSector(old(View()), c, s, data)
      ensures old(Mirrors()) ==> Mirrors()
      ensures trace == old(trace) + [View()] && old(history) <= history
    {
      hide Logged, GeoOk, VolOf, Mirrored;
      WriteAt(ClusLba(geo, c) + s, data, c, s);
    }

    /** The same, where only the sector's number is known. */
    method WriteAt(lba: nat, data: Sector, ghost c: nat, ghost s: nat)
      requires Ready() && 2 <= c < FatMax(geo) && s < geo.spc && lba == ClusLba(geo, c) + s
      modifies this`disk, this`trace, this`history
      ensures Ready() && |disk| == old(|disk|)
      ensures View() == WithSector(old(View()), c, s, data)
      ensures old(Mirrors()) ==> Mirrors()
      ensures trace == old(trace) + [View()] && old(history) <= history
    {
      hide Logged;
      ClusLbaBounds(geo, |disk|, c);
      PatchCluster(geo, disk, c, s, data, disk[lba := data]);
      WriteSector(lba, data);
    }

    // ----- FAT entries

    method LoadEntry(c: nat) returns (raw: nat)
      requires Ready() && c < FatMax(geo)
      modifies sec
      ensures raw == View().fat[c]
    {
      FatLbaBounds(geo, |disk|, 0, c);
      assert c * 4 / 512 == c / 128 && c * 4 % 512 == c % 128 * 4;
      ReadSector(geo.fatStart + c * 4 / 512);
      raw := Rd32(sec[..], c * 4 % 512);
    }

    method FatNext(c: nat) returns (n: nat)
      requires Ready() && c < FatMax(geo)
      modifies sec
      ensures n == Link(View().fat, c)
    {
      var raw := LoadEntry(c);
      n := raw % 0x1000_0000;
    }

    /** Set an entry in every copy; copy 0, the one that is read, goes first. */
    method FatSet(c: nat, v: nat)
      requires Ready() && c < FatMax(geo) && v < 0x1_0000_0000
      modifies this`disk, this`trace, this`history, sec
      ensures Ready() && |disk| == old(|disk|)
      ensures View() == old(View()).(fat := old(View()).fat[c := v])
      ensures old(Mirrors()) ==> Mirrors()
      ensures old(trace) <= trace && old(history) <= history
      ensures forall i :: old(|trace|) <= i < |trace| ==> trace[i] == View()
    {
      hide Logged, RawEntry, Patch;
      ghost var d := disk;
      var k := 0;
      while k < geo.nfats
        invariant k <= geo.nfats && Ready() && |disk| == |d|
        invariant forall j :: 0 <= j < geo.nfats ==>
                    FatCopy(geo, disk, j) == if j < k then FatCopy(geo, d, j)[c := v] else FatCopy(geo, d, j)
        invariant Clusters(geo, disk) == Clusters(geo, d)
        invariant old(trace) <= trace && old(history) <= history && (k == 0 ==> trace == old(trace))
        invariant forall i :: old(|trace|) <= i < |trace| ==>
                    trace[i] == Vol(FatCopy(geo, d, 0)[c := v], Clusters(geo, d))
      {
        FatLbaBounds(geo, |disk|, k, c);
        var lba := FatLba(geo, k, c);
        assert c * 4 / 512 == c / 128 && c * 4 % 512 == c % 128 * 4;
        ReadSector(geo.fatStart + k * geo.fatSz + c * 4 / 512);
        StoreWord(c * 4 % 512, v);
        PatchFat(geo, disk, k, c, v, disk[lba := sec[..]]);
        WriteSector(lba, sec[..]);
        k := k + 1;
      }
    }

    /** Claim a free cluster and mark it as a chain end; 0 exactly when there is none. */
    method AllocClus() returns (c: nat)
      requires Ready()
      modifies this`disk, this`trace, this`history, this`allocHint, sec
      ensures Ready() && |disk| == old(|disk|)
      ensures c == 0 <==> forall x :: 2 <= x < FatMax(geo) ==> old(View()).fat[x] != 0
      ensures c == 0 ==>
                disk == old(disk) && View() == old(View()) && trace == old(trace) && allocHint == old(allocHint)
      ensures c != 0 ==> 2 <= c < FatMax(geo) && old(View()).fat[c] == 0 && allocHint == c
      ensures c != 0 ==> View() == old(View()).(fat := old(View()).fat[c := 0x0FFF_FFFF])
      ensures old(Mirrors()) ==> Mirrors()
      ensures old(trace) <= trace && old(history) <= history
      ensures forall i :: old(|trace|) <= i < |trace| ==> trace[i] == View()
    {
      hide Logged, GeoOk, VolOf, Mirrored;
      ghost var fat := View().fat;
      var max := FatMax(geo);
      var i := 0;
      while i < max
        invariant i <= max && disk == old(disk) && trace == old(trace) && history == old(history)
                  && allocHint == old(allocHint)
        invariant fat == View().fat
        invariant forall j :: 0 <= j < i ==> fat[Probe(allocHint, max, j)] != 0
      {
        c := Probe(allocHint, max, i);
        var raw := LoadEntry(c);
        if raw == 0 {
          FatSet(c, LAST);
          allocHint := c;
          return;
        }
        i := i + 1;
      }
      forall x | 2 <= x < max ensures fat[x] != 0 {
        var j := RotationCovers(allocHint, max - 2, x - 2);
        assert Probe(allocHint, max, j) == x;
      }
      c := 0;
    }

    method FreeChain(start: nat)
      requires Ready() && StaysInRange(View().fat, start)
      modifies this`disk, this`trace, this`history, sec
      ensures Ready() && |disk| == old(|disk|)
      ensures View() == old(View()).(fat := Freed(old(View()).fat, start))
      ensures old(Mirrors()) ==> Mirrors()
      ensures old(trace) <= trace && old(history) <= history
      ensures forall i :: old(|trace|) <= i < |trace| ==>
                trace[i].clus == View().clus && Between(old(View()).fat, trace[i].fat, View().fat)
    {
      hide Logged, View, GeoOk, Mirrored, Freed, StaysInRange, Zeros, Link;
      var c: nat := start;
      while 2 <= c < EOC
        invariant Ready() && |disk| == old(|disk|) && StaysInRange(View().fat, c)
        invariant Freed(View().fat, c) == Freed(old(View()).fat, start)
        invariant View().clus == old(View()).clus
        invariant old(Mirrors()) ==> Mirrors()
        invariant old(trace) <= trace && old(history) <= history
        invariant Between(old(View()).fat, View().fat, Freed(old(View()).fat, start))
        invariant forall i :: old(|trace|) <= i < |trace| ==>
                    trace[i].clus == old(View()).clus
                    && Between(old(View()).fat, trace[i].fat, Freed(old(View()).fat, start))
        decreases |View().fat| - Zeros(View().fat), if 2 <= c then 1 else 0
      {
        ghost var f := View().fat;
        FreedStep(f, c);
        var nx := FatNext(c);
        FatSet(c, 0);
        c := nx;
      }
      FreedDone(View().fat, c);
    }

    // ----- directory scans

    lemma SectorOfView(c: nat, s: nat)
      requires Ready() && 2 <= c < FatMax(geo) && s < geo.spc
      ensures ClusLba(geo, c) + s < |disk| && View().clus[c][s] == disk[ClusLba(geo, c) + s]
    {
      ClusLbaBounds(geo, |disk|, c);
    }

    method ReadCluster(c: nat, s: nat) returns (lba: nat)
      requires Ready() && 2 <= c < FatMax(geo) && s < geo.spc
      modifies sec
      ensures lba == ClusLba(geo, c) + s && lba < |disk|
      ensures sec[..] == disk[lba] == View().clus[c][s]
    {
      SectorOfView(c, s);
      lba := ClusLba(geo, c) + s;
      ReadSector(lba);
    }

    method EntryMatch83(e: Entry, n: Name83) returns (r: bool)
      ensures r <==> e[..11] == n
    {
      var i := 0;
      while i < 11
        invariant 0 <= i <= 11 && e[..i] == n[..i]
      {
        if e[i] != n[i] {
          assert e[..11][i] != n[i];
          return false;
        }
        i := i + 1;
      }
      r := true;
    }

    /** The test a scan makes on a slot that is not an end mark. */
    method Test(q: Query, e: Entry) returns (r: bool)
      requires e[0] != 0 && (Listed(e) ==> NameOk(e))
      ensures r <==> Hit(q, e)
    {
      match q
      case ByName(s) =>
        var nm := EntryName(e);
        match nm {
          case None => return false;
          case Some(text) => r := NameMatch(text, s);
        }
      case By83(n) =>
        if e[0] == 0xE5 || IsLfn(e) || IsVol(e) {
          return false;
        }
        r := EntryMatch83(e, n);
    }

    /** Scan the sixteen slots in the buffer, which are slots `base..` of `es`. */
    method ScanSector(q: Query, ghost es: seq<Entry>, ghost base: nat) returns (st: SectorScan)
      requires sec.Length == 512 && base + 16 <= |es|
      requires forall j :: 0 <= j < 16 ==> es[base + j] == SecEnts(sec[..])[j]
      requires AllNamesOk(es)
      ensures match st
              case At(i) => i < 16 && Find(es, q, base) == Some(base + i) && sec[32 * i..32 * i + 32] == es[base + i]
              case End => Find(es, q, base) == None
              case Miss => Find(es, q, base) == Find(es, q, base + 16)
    {
      hide NameOk, Listed, Hit;
      var i := 0;
      while i < 16
        invariant 0 <= i <= 16 && Find(es, q, base) == Find(es, q, base + i)
      {
        var e: Entry := sec[32 * i..32 * i + 32];
        assert e == SecEnts(sec[..])[i] == es[base + i];
        if e[0] == 0x00 {
          return End;
        }
        var hit := Test(q, e);
        if hit {
          return At(i);
        }
        i := i + 1;
      }
      st := Miss;
    }

    /** The slot at byte `off` of sector `lba` is slot `p` of directory `d`. */
    ghost predicate SlotAt(t: Layout, d: nat, p: nat, loc: Loc, lba: nat, off: nat)
      reads this
      requires Ready()
    {
      && HasDir(t, d) && p == 16 * loc.k + loc.i && loc.i < 16 && off == 32 * loc.i
      && Locates(geo.spc, t.chains[DirO(d)], loc.k, loc.c, loc.s)
      && 2 <= loc.c < FatMax(geo) && loc.s < geo.spc && lba == ClusLba(geo, loc.c) + loc.s && lba < |disk|
    }

    /** Scan the sectors of one cluster, the first of `rem` in the directory chain `pre + rem`. */
    method ScanCluster(c: nat, q: Query, ghost pre: seq<nat>, ghost rem: seq<nat>)
      returns (st: SectorScan, s: nat)
      requires Ready() && rem != [] && rem[0] == c
      requires InTable(pre, FatMax(geo)) && InTable(rem, FatMax(geo))
      requires AllNamesOk(Ents(Content(View(), pre + rem)))
      modifies sec
      ensures ClusterScan(geo, View(), q, pre, rem, st, s, sec[..], |disk|)
    {
      hide Logged, View, Find, Ents, SecEnts, Content, GeoOk, Locates, AllNamesOk, InTable, ClusterScan;
      ghost var v := View();
      FirstInTable(rem, FatMax(geo));
      ghost var es, k0 := Ents(Content(v, pre + rem)), |Content(v, pre)|;
      s := 0;
      while s < geo.spc
        invariant s <= geo.spc && Find(es, q, 16 * k0) == Find(es, q, 16 * (k0 + s))
      {
        var lba := ReadCluster(c, s);
        SectorEnts(geo, v, pre, rem, s, sec[..]);
        st := ScanSector(q, es, 16 * (k0 + s));
        if !st.Miss? {
          SectorScanned(geo, v, q, pre, rem, st, s, sec[..], |disk|);
          return;
        }
        s := s + 1;
      }
      st := Miss;
      ClusterMissed(geo, v, q, pre, rem, s, sec[..], |disk|);
    }

    /** Follow a directory's chain to the first slot the query hits. */
    method Scan(d: nat, q: Query, ghost t: Layout)
      returns (found: bool, lba: nat, off: nat, e: Entry, ghost p: nat, ghost loc: Loc)
      requires Ready() && Consistent(geo, View(), t) && HasDir(t, d)
      modifies sec
      ensures found <==> Find(DirEnts(View(), d), q, 0).Some?
      ensures found ==> Find(DirEnts(View(), d), q, 0) == Some(p) && p < |DirEnts(View(), d)|
      ensures found ==> e == DirEnts(View(), d)[p] && SlotAt(t, d, p, loc, lba, off)
    {
      hide Logged, View, SecEnts, Consistent, Ents, Content, Find, GeoOk, Locates, IsChain, InTable, DirEnts,
           AllNamesOk, Hit, Shape, Link;
      ghost var v := View();
      ghost var ch := t.chains[DirO(d)];
      ghost var es := Ents(Content(v, ch));
      DirFacts(geo, v, t, d);
      ghost var pre: seq<nat>, rem := [], ch;
      ScanStart(v);
      var c: nat := d;
      e := seq(32, _ => 0);
      found, lba, off, p, loc := false, 0, 0, 0, Loc(0, 0, 0, 0);
      while c < EOC
        invariant IsChain(v.fat, c, rem) && pre + rem == ch
        invariant InTable(pre, |v.fat|) && InTable(rem, |v.fat|)
        invariant Find(es, q, 0) == Find(es, q, 16 * |Content(v, pre)|)
        decreases |rem|
      {
        ChainHead(v.fat, c, rem);
        var st, s := ScanCluster(c, q, pre, rem);
        match st {
          case At(i) =>
            loc := Loc(|Content(v, pre)| + s, i, c, s);
            p := 16 * loc.k + i;
            found, lba, off, e := true, ClusLba(geo, c) + s, 32 * i, sec[32 * i..32 * i + 32];
            return;
          case End =>
            return;
          case Miss =>
        }
        ScanNext(geo, v, pre, rem);
        c := FatNext(c);
        pre, rem := pre + [rem[0]], rem[1..];
      }
      ChainEnd(v.fat, c, rem);
      assert pre == ch;
      FindPast(es, q);
    }

    /** Resolve a path component by component. */
    method WalkPath(abs: Str, ghost t: Layout) returns (r: Option<Node>)
      requires Ready() && Consistent(geo, View(), t)
      modifies sec
      ensures r == WalkText(View(), geo.root, abs)
    {
      hide Logged, View, Consistent, Find, DirEnts, GeoOk, SlotAt, ChildOf, FileBytes;
      ghost var v := View();
      RootIs(geo, v, t);
      var cur, p := geo.root, abs;
      while p != []
        invariant HasDir(t, cur) && WalkText(v, geo.root, abs) == WalkText(v, cur, p)
        decreases |p|
      {
        p := SkipRun(p, SLASH);
        if p == [] {
          break;
        }
        var m := ComponentLength(p);
        if m.None? {
          return None;
        }
        var comp, rest := p[..m.value], p[m.value..];
        var found, lba, off, e, slot, loc := Scan(cur, ByName(comp), t);
        if !found {
          return None;
        }
        if IsDir(e) {
          SubdirInside(geo, v, t, cur, slot);
          cur, p := ClusOf(e), rest;
        } else {
          if rest != [] {
            return None;
          }
          return Some(Node(false, ClusOf(e), SizeOf(e)));
        }
      }
      r := Some(Node(true, cur, 0));
    }

    /** Change the current directory; the empty path is the root. */
    method FatChdir(path: Str, ghost t: Layout) returns (r: int)
      requires Ready() && Consistent(geo, View(), t) && CwdOk(cwd)
      requires |Full(cwd, if path == [] then [SLASH] else path)| < PATH_MAX
      modifies this`cwd, sec
      ensures Ready() && View() == old(View()) && CwdOk(cwd)
      ensures var abs := Full(old(cwd), if path == [] then [SLASH] else path);
              if abs != [] && DirAt(View(), geo.root, Comps(abs)).Some? then r == 0 && cwd == abs
              else r == -1 && cwd == old(cwd)
    {
      hide Logged, GeoOk, Consistent, WalkText, AbsOf, Comps, PlainPath, DirAt, VolOf;
      ghost var v := View();
      var p := if path == [] then [SLASH] else path;
      var abs := AbsPath(cwd, p);
      if abs.None? {
        return -1;
      }
      var node := WalkPath(abs.value, t);
      WalkParent(geo, v, t, abs.value);
      if node.None? || !node.value.isdir {
        return -1;
      }
      cwd := abs.value;
      r := 0;
    }

    // ----- reading a file

    method CopyOut(out: array<byte>, pos: nat, n: nat)
      requires sec.Length == 512 && out != sec && n <= 512 && pos + n <= out.Length
      modifies out
      ensures out[..pos] == old(out[..pos]) && out[pos + n..] == old(out[pos + n..])
      ensures out[pos..pos + n] == sec[..n]
    {
      var i := 0;
      while i < n
        invariant 0 <= i <= n
        invariant forall j :: 0 <= j < out.Length ==> out[j] == if pos <= j < pos + i then sec[j - pos] else old(out[j])
      {
        out[pos + i] := sec[i];
        i := i + 1;
      }
    }

    /** Copy what fits of one cluster. */
    method CopyCluster(c: nat, out: array<byte>, start: nat, cap: nat) returns (pos: nat)
      requires Ready() && 2 <= c < FatMax(geo) && out != sec && start <= cap <= out.Length
      modifies sec, out
      ensures pos == Min(cap, start + 512 * geo.spc)
      ensures out[..start] == old(out[..start]) && out[pos..] == old(out[pos..])
      ensures out[start..pos] == Flat(View().clus[c])[..pos - start]
    {
      hide Logged, VolOf, FatCopy, Clusters, ClusAt, GeoOk, Flat, ClusLba;
      ghost var v := View();
      ghost var row := v.clus[c];
      pos := start;
      var s := 0;
      while s < geo.spc && pos < cap
        invariant s <= geo.spc && pos == Min(cap, start + 512 * s)
        invariant out[..start] == old(out[..start]) && out[pos..] == old(out[pos..])
        invariant out[start..pos] == Flat(row)[..pos - start]
      {
        var lba := ReadCluster(c, s);
        var n := if pos + 512 > cap then cap - pos else 512;
        ghost var before := out[..];
        CopyOut(out, pos, n);
        FlatAt(row, s);
        GlueCopy(before, out[..], Flat(row), sec[..], start, pos, n);
        GlueFrame(before, out[..], old(out[..]), start, pos, pos + n);
        pos := pos + n;
        s := s + 1;
      }
    }

    /** Read a file into `out`; -1 when the path names none. */
    method FatRead(path: Str, out: array<byte>, capacity: nat, ghost t: Layout) returns (r: int)
      requires Ready() && Consistent(geo, View(), t)
      requires CwdOk(cwd) && out != sec && capacity <= out.Length
      modifies sec, out
      ensures match Contents(geo, View(), Full(cwd, path))
              case None => r == -1 && out[..] == old(out[..])
              case Some(bytes) =>
                && r == Min(capacity, |bytes|)
                && out[..r] == bytes[..r] && out[r..] == old(out[r..])
    {
      hide Logged, View, GeoOk, Flat, ClusLba, Consistent, Content, WalkText, Walk, Stat, IsChain, FileChain, CwdOk,
           AbsOf, Comps, PlainPath;
      var abs := AbsPath(cwd, path);
      if abs.None? {
        return -1;
      }
      ghost var p := Comps(abs.value);
      ghost var v := View();
      var node := WalkPath(abs.value, t);
      WalkTextIs(v, geo.root, abs.value);
      WalkMeans(v, geo.root, p);
      if node.None? || node.value.isdir {
        return -1;
      }
      r := ReadNode(node.value, out, capacity, t, p);
    }

    /** Copy a file's bytes, cluster by cluster, as far as its size, its chain and the caller's room reach. */
    method ReadNode(node: Node, out: array<byte>, capacity: nat, ghost t: Layout, ghost p: seq<Str>) returns (pos: nat)
      requires Ready() && Consistent(geo, View(), t) && out != sec && capacity <= out.Length
      requires Walk(View(), geo.root, p) == Some(node) && !node.isdir
      modifies sec, out
      ensures Stat(View(), geo.root, p).Some? && Stat(View(), geo.root, p).value.FileObj?
      ensures var bytes := Stat(View(), geo.root, p).value.bytes;
              && pos == Min(capacity, |bytes|)
              && out[..pos] == bytes[..pos] && out[pos..] == old(out[pos..])
    {
      hide Logged, View, GeoOk, Flat, ClusLba, Consistent, Content, Walk, Stat, IsChain, FileChain, InTable, Link,
           ClusOf, SizeOf, Copied;
      ghost var v := View();
      ghost var ch := FileFacts(geo, v, t, p, node);
      var cap := if node.size < capacity then node.size else capacity;
      var c: nat := node.clus;
      ghost var pre: seq<nat>, rem := [], ch;
      FlatStart(v);
      NoneCopied(v, out[..], cap);
      pos := 0;
      while pos < cap
        invariant pos <= cap && (pos < cap ==> IsChain(v.fat, c, rem)) && pre + rem == ch
        invariant InTable(pre, |v.fat|) && InTable(rem, |v.fat|) && Copied(v, pre, out[..], old(out[..]), pos, cap)
        decreases |rem|
      {
        if c >= EOC {
          ChainEnd(v.fat, c, rem);
          break;
        }
        ChainHead(v.fat, c, rem);
        ghost var before := out[..];
        var start := pos;
        pos := CopyCluster(c, out, start, cap);
        CopiedNext(geo, v, pre, rem, before, out[..], old(out[..]), start, pos, cap);
        c := FatNext(c);
        pre, rem := pre + [rem[0]], rem[1..];
      }
      CopiedAll(v, pre, rem);
      CopiedIs(v, pre, out[..], old(out[..]), pos, cap);
    }

    // ----- writing a new chain

    /** One sector of data: what is left of `buf` up to 512 bytes, the rest zero. */
    method FillSector(buf: seq<byte>, start: nat) returns (pos: nat)
      requires sec.Length == 512 && start <= |buf|
      modifies sec
      ensures pos == Min(|buf|, start + 512) && sec[..pos - start] == buf[start..pos]
      ensures forall j :: pos - start <= j < 512 ==> sec[j] == 0
    {
      var i := 0;
      while i < 512
        invariant 0 <= i <= 512 && forall j :: 0 <= j < i ==> sec[j] == 0
      {
        sec[i] := 0;
        i := i + 1;
      }
      i, pos := 0, start;
      while i < 512 && pos < |buf|
        invariant 0 <= i <= 512 && pos == start + i <= |buf| && sec[..i] == buf[start..pos]
        invariant forall j :: i <= j < 512 ==> sec[j] == 0
      {
        sec[i] := buf[pos];
        i, pos := i + 1, pos + 1;
      }
    }

    method FillCluster(c: nat, buf: seq<byte>, start: nat) returns (pos: nat)
      requires Ready() && 2 <= c < FatMax(geo) && start <= |buf|
      modifies this`disk, this`trace, this`history, sec
      ensures Ready() && |disk| == old(|disk|) && (old(Mirrors()) ==> Mirrors())
      ensures pos == Min(|buf|, start + 512 * geo.spc)
      ensures OnlyCluster(old(View()), View(), c) && Flat(View().clus[c])[..pos - start] == buf[start..pos]
      ensures old(trace) <= trace && old(history) <= history
      ensures forall i :: old(|trace|) <= i < |trace| ==> OnlyCluster(old(View()), trace[i], c)
    {
      hide Logged, VolOf, Mirrored, Flat, GeoOk, ClusLba;
      ghost var v0 := View();
      pos := start;
      var s := 0;
      while s < geo.spc && pos < |buf|
        invariant Ready() && |disk| == old(|disk|) && (old(Mirrors()) ==> Mirrors())
        invariant s <= geo.spc && pos == Min(|buf|, start + 512 * s)
        invariant OnlyCluster(v0, View(), c) && Flat(View().clus[c])[..pos - start] == buf[start..pos]
        invariant old(trace) <= trace && old(history) <= history
        invariant forall i :: old(|trace|) <= i < |trace| ==> OnlyCluster(v0, trace[i], c)
      {
        ghost var row := View().clus[c];
        var pos0 := pos;
        pos := FillSector(buf, pos0);
        FlatPatch(row, s, sec[..]);
        WriteCluster(c, s, sec[..]);
        assert buf[start..pos] == buf[start..pos0] + buf[pos0..pos];
        s := s + 1;
      }
    }

    /** Claim a cluster and link it behind the chain under construction. */
    method LinkCluster(head: nat, tail: nat, ghost v0: Vol, ghost ch: seq<nat>) returns (c: nat)
      requires Ready() && FreshChain(v0, View(), ch) && ChainSoFar(View().fat, head, tail, ch)
      modifies this`disk, this`trace, this`history, this`allocHint, sec
      ensures Ready() && |disk| == old(|disk|) && (old(Mirrors()) ==> Mirrors())
      ensures old(trace) <= trace && old(history) <= history
      ensures c == 0 <==> FreeCount(old(View()).fat) == 0
      ensures c == 0 ==>
                disk == old(disk) && View() == old(View()) && trace == old(trace) && allocHint == old(allocHint)
      ensures c != 0 ==>
                && 2 <= c < FatMax(geo) && old(View()).fat[c] == 0 && (ch != [] ==> ch[|ch| - 1] < FatMax(geo))
                && View() == old(View()).(fat := LinkedFat(old(View()).fat, ch, c))
                && FreshChain(v0, View(), ch + [c])
      ensures forall i :: old(|trace|) <= i < |trace| ==> FreshChain(v0, trace[i], ch + [c])
    {
      hide Logged, VolOf, Mirrored, GeoOk, IsChain, FreeCount, FreshChain, ChainSoFar;
      ghost var v := View();
      c := AllocClus();
      FreeCountNone(v.fat);
      if c == 0 {
        return;
      }
      FreshWasFree(v0, v, head, tail, ch, c);
      FreshSizes(v0, v, ch);
      FreshLinked(v0, v, View(), ch, c);
      ghost var n := |trace|;
      if head == 0 {
        assert ch == [] by { HeadOfChain(v.fat, head, tail, ch); }
      } else {
        HeadOfChain(v.fat, head, tail, ch);
        assert ch[|ch| - 1] == tail;
        FatSet(tail, c);
        FreshLinked(v0, v, View(), ch, c);
      }
    }

    /**
     * Put `buf` into clusters that were free.  When the disk runs full half-way the clusters already
     * claimed are given back and the FAT is what it was.
     */
    method NewChain(buf: seq<byte>) returns (ok: bool, head: nat, ghost ch: seq<nat>)
      requires Ready()
      modifies this`disk, this`trace, this`history, this`allocHint, sec
      ensures Ready() && |disk| == old(|disk|) && (old(Mirrors()) ==> Mirrors())
      ensures ok <==> Need(geo.spc, |buf|) <= FreeCount(old(View()).fat)
      ensures FreshChain(old(View()), View(), ch) && |ch| <= Need(geo.spc, |buf|)
      ensures old(trace) <= trace && old(history) <= history
      ensures forall i :: old(|trace|) <= i < |trace| ==> FreshChain(old(View()), trace[i], ch)
      ensures !ok ==> View().fat == old(View()).fat
      ensures ok ==>
                && (head == 0 <==> buf == []) && (head == 0 <==> ch == [])
                && (ch != [] ==> IsChain(View().fat, head, ch))
                && |buf| <= |Flat(Content(View(), ch))| && Flat(Content(View(), ch))[..|buf|] == buf
                && FreeCount(View().fat) + |ch| == FreeCount(old(View()).fat) && |ch| == Need(geo.spc, |buf|)
    {
      hide Logged, View, Mirrored, GeoOk, IsChain, FreeCount, FreshChain, UsedKept, Content, Flat, LinkedFat, Freed,
           StaysInRange;
      ghost var v0 := View();
      var pos, tail := 0, 0;
      head, ch := 0, [];
      StartChain(v0, geo.spc, |buf|);
      while pos < |buf|
        invariant Ready() && |disk| == old(|disk|) && (old(Mirrors()) ==> Mirrors())
        invariant FreshChain(v0, View(), ch) && ChainSoFar(View().fat, head, tail, ch)
        invariant pos <= |buf| && pos == Min(|buf|, |Flat(Content(View(), ch))|)
        invariant Flat(Content(View(), ch))[..pos] == buf[..pos]
        invariant FreeCount(View().fat) + |ch| == FreeCount(v0.fat)
        invariant |ch| + Need(geo.spc, |buf| - pos) == Need(geo.spc, |buf|)
        invariant (pos == 0 <==> head == 0) && (head == 0 <==> ch == [])
        invariant old(trace) <= trace && old(history) <= history
        invariant forall i :: old(|trace|) <= i < |trace| ==> FreshChain(v0, trace[i], ch)
        decreases |buf| - pos
      {
        ghost var v, n0 := View(), |trace|;
        var c := LinkCluster(head, tail, v0, ch);
        if c == 0 {
          FreshRestored(v0, v, head, tail, ch);
          ghost var n := |trace|;
          FreeChain(head);
          BetweenFresh(v0, v, View(), ch);
          forall i | n <= i < |trace| ensures FreshChain(v0, trace[i], ch) {
            BetweenFresh(v0, v, trace[i], ch);
          }
          NeedStep(geo.spc, |buf| - pos);
          ok := false;
          return;
        }
        ghost var v1 := View();
        ghost var n := |trace|;
        var start := pos;
        pos := FillCluster(c, buf, start);
        FreshWasFree(v0, v, head, tail, ch, c);
        FreshSizes(v0, v, ch);
        forall i | old(|trace|) <= i < |trace| ensures FreshChain(v0, trace[i], ch + [c]) {
          if i < n0 { FreshMore(v0, trace[i], ch, c); }
          else if i >= n { FilledFresh(v0, v1, trace[i], ch + [c], c); }
        }
        NeedStep(geo.spc, |buf| - start);
        LinkedChain(geo, v0, v, View(), head, tail, ch, c);
        FlatConcat(Content(v, ch), View().clus[c]);
        GlueChain(buf, Flat(Content(v, ch)), Flat(View().clus[c]), start, pos);
        if head == 0 {
          head := c;
        }
        tail := c;
        ch := ch + [c];
      }
      ok := true;
    }

    // ----- finding a slot for a new entry

    /** The first free slot in the buffer, which holds slots `base..` of `es`. */
    method FreeInSector(ghost es: seq<Entry>, ghost base: nat) returns (r: Option<nat>)
      requires sec.Length == 512 && base + 16 <= |es|
      requires forall j :: 0 <= j < 16 ==> es[base + j] == SecEnts(sec[..])[j]
      ensures match r
              case Some(i) => i < 16 && FirstFree(es, base) == Some(base + i)
              case None => FirstFree(es, base) == FirstFree(es, base + 16)
    {
      var i := 0;
      while i < 16
        invariant 0 <= i <= 16 && FirstFree(es, base) == FirstFree(es, base + i)
      {
        FirstByte(sec[..], i);
        assert es[base + i] == SecEnts(sec[..])[i];
        if sec[32 * i] == 0x00 || sec[32 * i] == 0xE5 {
          return Some(i);
        }
        i := i + 1;
      }
      r := None;
    }

    /** The first free slot of one cluster of the directory chain `pre + rem`. */
    method FreeInCluster(c: nat, ghost pre: seq<nat>, ghost rem: seq<nat>) returns (r: Option<nat>, s: nat)
      requires Ready() && rem != [] && rem[0] == c
      requires InTable(pre, FatMax(geo)) && InTable(rem, FatMax(geo))
      modifies sec
      ensures var es := Ents(Content(View(), pre + rem));
              var k0 := |Content(View(), pre)|;
              match r
              case Some(i) =>
                && i < 16 && s < geo.spc && Locates(geo.spc, pre + rem, k0 + s, c, s)
                && FirstFree(es, 16 * k0) == Some(16 * (k0 + s) + i)
                && ClusLba(geo, c) + s < |disk| && sec[..] == disk[ClusLba(geo, c) + s]
              case None => FirstFree(es, 16 * k0) == FirstFree(es, 16 * (k0 + geo.spc))
    {
      hide Logged, View, Ents, SecEnts, Content, GeoOk, Locates, FirstFree, FreeSlot, ClusLba, Mirrored;
      ghost var v := View();
      ghost var es := Ents(Content(v, pre + rem));
      ghost var k0 := |Content(v, pre)|;
      s := 0;
      while s < geo.spc
        invariant s <= geo.spc && FirstFree(es, 16 * k0) == FirstFree(es, 16 * (k0 + s))
      {
        var lba := ReadCluster(c, s);
        ScanSectorIs(geo, v, pre, rem, s);
        r := FreeInSector(es, 16 * (k0 + s));
        if r.Some? {
          return;
        }
        s := s + 1;
      }
      r := None;
    }

    /** Follow a directory's chain to the first free slot; without one, report the last cluster. */
    method FindFreeSlot(d: nat, ghost t: Layout)
      returns (found: bool, lba: nat, off: nat, prev: nat, ghost p: nat, ghost loc: Loc)
      requires Ready() && Consistent(geo, View(), t) && HasDir(t, d)
      modifies sec
      ensures found ==> FirstFree(DirEnts(View(), d), 0) == Some(p)
      ensures found ==> SlotAt(t, d, p, loc, lba, off) && sec[..] == disk[lba]
      ensures !found ==> FirstFree(DirEnts(View(), d), 0) == None
      ensures !found ==> t.chains[DirO(d)] != [] && prev == t.chains[DirO(d)][|t.chains[DirO(d)]| - 1]
    {
      hide Logged, View, SecEnts, Consistent, Ents, Content, GeoOk, Locates, IsChain, InTable, DirEnts, FirstFree;
      ghost var v := View();
      ghost var ch := t.chains[DirO(d)];
      ghost var es := Ents(Content(v, ch));
      DirFacts(geo, v, t, d);
      ghost var pre: seq<nat>, rem := [], ch;
      ScanStart(v);
      var c: nat := d;
      found, lba, off, prev, p, loc := false, 0, 0, 0, 0, Loc(0, 0, 0, 0);
      while c < EOC
        invariant IsChain(v.fat, c, rem) && pre + rem == ch
        invariant InTable(pre, |v.fat|) && InTable(rem, |v.fat|)
        invariant if pre == [] then c == d else prev == pre[|pre| - 1]
        invariant FirstFree(es, 0) == FirstFree(es, 16 * |Content(v, pre)|)
        decreases |rem|
      {
        ChainHead(v.fat, c, rem);
        prev := c;
        var r, s := FreeInCluster(c, pre, rem);
        if r.Some? {
          var i := r.value;
          loc := Loc(|Content(v, pre)| + s, i, c, s);
          p := 16 * loc.k + i;
          found, lba, off := true, ClusLba(geo, c) + s, 32 * i;
          return;
        }
        ScanNext(geo, v, pre, rem);
        c := FatNext(c);
        pre, rem := pre + [rem[0]], rem[1..];
      }
      ChainEnd(v.fat, c, rem);
      assert pre == ch;
      NoneFree(es);
    }

    /**
     * A slot for a new entry: the first free one, or the first of a blank cluster added at the end.
     * Its sector is left in the buffer.
     */
    method DirSlot(d: nat, ghost t: Layout)
      returns (ok: bool, lba: nat, off: nat, ghost p: nat, ghost loc: Loc, ghost t': Layout, ghost grown: nat)
      requires Ready() && Consistent(geo, View(), t) && HasDir(t, d)
      modifies this`disk, this`trace, this`history, this`allocHint, sec
      ensures Ready() && |disk| == old(|disk|) && (old(Mirrors()) ==> Mirrors())
      ensures ok <==> FirstFree(DirEnts(old(View()), d), 0).Some? || FreeCount(old(View()).fat) > 0
      ensures !ok || FirstFree(DirEnts(old(View()), d), 0).Some? ==>
                disk == old(disk) && View() == old(View()) && trace == old(trace)
      ensures ok ==> SlotAt(t', d, p, loc, lba, off) && sec[..] == disk[lba]
      ensures ok ==> FirstFree(DirEnts(View(), d), 0) == Some(p)
      ensures ok ==> Consistent(geo, View(), t') && SameTree(geo, old(View()), View())
      ensures ok ==> SlotStep(old(View()), View(), t, t', d, grown) && LayoutKept(geo, old(View()), t, View(), t')
      ensures ok && grown != 0 ==>
                DirEnts(old(View()), d) <= DirEnts(View(), d) && Blank(DirEnts(View(), d)[|DirEnts(old(View()), d)|..])
      ensures !ok ==> grown == 0
      ensures old(trace) <= trace && old(history) <= history
      ensures forall i :: old(|trace|) <= i < |trace| ==>
                SameTree(geo, old(View()), trace[i]) && Sound(geo, old(View()), t, trace[i], One(grown))
    {
      hide Logged, View, Consistent, Ents, GeoOk, Locates, Mirrored, SameTree, DirEnts, FreeCount, FirstFree, Blank,
           Sound;
      ghost var v := View();
      var prev;
      t', grown := t, 0;
      ok, lba, off, prev, p, loc := FindFreeSlot(d, t);
      SameSlots(geo, v, t, d);
      if ok {
        return;
      }
      var n := GrowDir(d, prev, t);
      if n == 0 {
        return;
      }
      lba := ReadCluster(n, 0);
      ok, off, t', grown := true, 0, Grown(t, d, n), n;
      loc := GrownLoc(geo, v, View(), t, d, n);
      p := 16 * loc.k;
      assert DirEnts(View(), d)[|DirEnts(v, d)|..] == Ents(View().clus[n]);
    }

    method ZeroCluster(n: nat)
      requires Ready() && 2 <= n < FatMax(geo)
      modifies this`disk, this`trace, this`history
      ensures Ready() && |disk| == old(|disk|) && (old(Mirrors()) ==> Mirrors())
      ensures OnlyCluster(old(View()), View(), n) && Blank(Ents(View().clus[n]))
      ensures forall j :: 0 <= j < geo.spc ==> View().clus[n][j] == seq(512, _ => 0)
      ensures old(trace) <= trace && old(history) <= history
      ensures forall i :: old(|trace|) <= i < |trace| ==> OnlyCluster(old(View()), trace[i], n)
    {
      hide Logged, VolOf, Mirrored, GeoOk, ClusLba, Ents, Blank;
      ghost var v0 := View();
      var zero: Sector := seq(512, _ => 0);
      var s := 0;
      while s < geo.spc
        invariant Ready() && |disk| == old(|disk|) && (old(Mirrors()) ==> Mirrors())
        invariant s <= geo.spc && OnlyCluster(v0, View(), n)
        invariant forall j :: 0 <= j < s ==> View().clus[n][j] == zero
        invariant old(trace) <= trace && old(history) <= history
        invariant forall i :: old(|trace|) <= i < |trace| ==> OnlyCluster(v0, trace[i], n)
      {
        WriteCluster(n, s, zero);
        s := s + 1;
      }
      BlankRow(View().clus[n]);
    }

    /** Add a blank cluster behind the last one, `prev`, of directory `d`. */
    method GrowDir(d: nat, prev: nat, ghost t: Layout) returns (n: nat)
      requires Ready() && Consistent(geo, View(), t) && HasDir(t, d)
      requires t.chains[DirO(d)] != [] && prev == t.chains[DirO(d)][|t.chains[DirO(d)]| - 1]
      modifies this`disk, this`trace, this`history, this`allocHint, sec
      ensures Ready() && |disk| == old(|disk|) && (old(Mirrors()) ==> Mirrors())
      ensures n == 0 <==> FreeCount(old(View()).fat) == 0
      ensures n == 0 ==> disk == old(disk) && View() == old(View()) && trace == old(trace)
      ensures n != 0 ==>
                && 2 <= n < FatMax(geo) && old(View()).fat[n] == 0 && prev < FatMax(geo) && prev != n
                && View().fat == old(View()).fat[n := LAST][prev := n]
                && (forall x: nat :: x < FatMax(geo) && x != n ==> View().clus[x] == old(View()).clus[x])
                && Blank(Ents(View().clus[n]))
                && !Owned(t, n) && Consistent(geo, View(), Grown(t, d, n)) && SameTree(geo, old(View()), View())
                && LayoutKept(geo, old(View()), t, View(), Grown(t, d, n))
                && DirEnts(View(), d) == DirEnts(old(View()), d) + Ents(View().clus[n])
      ensures old(trace) <= trace && old(history) <= history
      ensures forall i :: old(|trace|) <= i < |trace| ==>
                SameTree(geo, old(View()), trace[i]) && Sound(geo, old(View()), t, trace[i], [n])
    {
      hide Logged, VolOf, Mirrored, GeoOk, FreeCount, Consistent, SameTree, SameSteps, Ents, Blank, DirEnts, Owned;
      ghost var v0 := View();
      n := AllocClus();
      FreeCountNone(v0.fat);
      if n == 0 {
        return;
      }
      ghost var n1 := |trace|;
      LastClusterUsed(geo, v0, t, d, prev);
      ghost var v1 := View();
      ZeroCluster(n);
      ghost var v2, n2 := View(), |trace|;
      FatSet(prev, n);
      GrowSteps(geo, v0, v1, v2, View(), t, d, prev, n);
      forall i | old(|trace|) <= i < |trace| ensures SameTree(geo, v0, trace[i]) && Sound(geo, v0, t, trace[i], [n]) {
        if i < n2 { GrowTrace(geo, v0, v1, trace[i], t, n); }
      }
    }

    // ----- storing an entry

    method FillEntry(off: nat, n: Name83, clus: nat, size: nat)
      requires sec.Length == 512 && off + 32 <= 512 && clus < 0x1_0000_0000 && size < 0x1_0000_0000
      modifies sec
      ensures sec[..] == Patch(old(sec[..]), off, NewEntry(n, clus, size))
    {
      hide Logged, Patch, Le16, Le32;
      ghost var was := sec[..];
      FillFront(off, n);
      ghost var front: seq<byte> := n + [0x20] + [0, 0, 0, 0, 0, 0, 0, 0];
      StoreHalf(off + 20, clus / 0x1_0000 % 0x1_0000);
      PatchAppend(was, off, front, Le16(clus / 0x1_0000));
      StoreHalf(off + 22, 0x0021);
      PatchAppend(was, off, front + Le16(clus / 0x1_0000), Le16(0x21));
      StoreHalf(off + 24, 0x0021);
      PatchAppend(was, off, front + Le16(clus / 0x1_0000) + Le16(0x21), Le16(0x21));
      StoreHalf(off + 26, clus % 0x1_0000);
      PatchAppend(was, off, front + Le16(clus / 0x1_0000) + Le16(0x21) + Le16(0x21), Le16(clus % 0x1_0000));
      StoreWord(off + 28, size);
      PatchAppend(was, off, front + Le16(clus / 0x1_0000) + Le16(0x21) + Le16(0x21) + Le16(clus % 0x1_0000),
                  Le32(size));
    }

    /** Name, attribute and the eight zero bytes behind it. */
    method FillFront(off: nat, n: Name83)
      requires sec.Length == 512 && off + 32 <= 512
      modifies sec
      ensures sec[..] == Patch(old(sec[..]), off, n + [0x20] + [0, 0, 0, 0, 0, 0, 0, 0])
    {
      ghost var was := sec[..];
      var i := 0;
      while i < 11
        invariant 0 <= i <= 11
        invariant forall j :: 0 <= j < 512 ==> sec[j] == if off <= j < off + i then n[j - off] else was[j]
      {
        sec[off + i] := n[i];
        i := i + 1;
      }
      sec[off + 11] := 0x20;
      i := 12;
      ghost var front: seq<byte> := n + [0x20] + [0, 0, 0, 0, 0, 0, 0, 0];
      while i < 20
        invariant 12 <= i <= 20
        invariant forall j :: 0 <= j < 512 ==> sec[j] == if off <= j < off + i then front[j - off] else was[j]
      {
        sec[off + i] := 0;
        i := i + 1;
      }
      assert sec[..] == Patch(was, off, front);
    }

    /** Write the buffer with a new entry over slot `p`; this is the one write that changes the tree. */
    method StoreEntry(lba: nat, off: nat, n: Name83, head: nat, size: nat, ghost leaf: Str, ghost t: Layout,
                      ghost d: nat, ghost p: nat, ghost loc: Loc, ghost ch: seq<nat>)
      requires Ready() && Consistent(geo, View(), t) && SlotAt(t, d, p, loc, lba, off) && sec[..] == disk[lba]
      requires Encode83(leaf) == Some(n) && SlotFor(DirEnts(View(), d), n, p)
      requires head < 0x1_0000_0000 && size < 0x1_0000_0000
      requires if ch == [] then head == 0 && size == 0 else IsChain(View().fat, head, ch)
      requires forall x :: x in ch ==> !Owned(t, x)
      modifies this`disk, this`trace, this`history, sec
      ensures Ready() && |disk| == old(|disk|) && (old(Mirrors()) ==> Mirrors())
      ensures View().fat == old(View()).fat && Content(View(), ch) == Content(old(View()), ch)
      ensures Consistent(geo, View(), WithFile(t, d, p, ch))
      ensures LayoutKept(geo, old(View()), t, View(), WithFile(t, d, p, ch))
      ensures forall q :: DirAt(old(View()), geo.root, q) == Some(d) ==>
                Rewritten(geo, old(View()), View(), UpperPath(q) + [NameOf(n)], Take(Flat(Content(View(), ch)), size))
      ensures trace == old(trace) + [View()] && old(history) <= history
    {
      hide Logged, View, Mirrored, GeoOk, Consistent, SlotFor, IsChain, Owned, Flat, Rewritten, DirAt, Locates, ClusLba,
           NewEntry, Patch;
      ghost var v, was := View(), disk[lba];
      FillEntry(off, n, head, size);
      ghost var x: Sector := sec[..];
      SectorOfView(loc.c, loc.s);
      WriteAt(lba, sec[..], loc.c, loc.s);
      EntryStored(geo, v, View(), t, d, p, loc, leaf, n, head, size, ch);
    }

    // ----- writing a file

    /** Resolve a path to the directory, the 8.3 name and, if there is one, the entry to replace. */
    method Prepare(path: Str, ghost t: Layout) returns (r: Option<Plan>, ghost p: nat, ghost loc: Loc)
      requires Ready() && Consistent(geo, View(), t) && CwdOk(cwd)
      modifies sec
      ensures match Target(geo, View(), Full(cwd, path))
              case None => r == None
              case Some(a) =>
                && r.Some? && r.value.d == a.d && r.value.n == a.n && HasDir(t, a.d)
                && (r.value.found <==> Existing(View(), a).Some?)
                && (r.value.found ==>
                      && Existing(View(), a) == Some(p) && SlotAt(t, a.d, p, loc, r.value.lba, r.value.off)
                      && r.value.oldClus == ClusOf(DirEnts(View(), a.d)[p]))
    {
      hide Logged, View, Consistent, Find, GeoOk, SlotAt, WalkText, Walk, Stat, DirEnts, Encode83, CwdOk, AbsOf, Comps,
           PlainPath;
      p, loc := 0, Loc(0, 0, 0, 0);
      ghost var v := View();
      var abs := AbsPath(cwd, path);
      if abs.None? {
        return None, p, loc;
      }
      var par, leaf := SplitLeaf(abs.value);
      LeafSplit(par, leaf);
      var node := WalkPath(par, t);
      if leaf == [] {
        EmptyLeaf();
      } else {
        WalkParent(geo, v, t, par);
        assert PathOf(abs.value) == Some(Comps(par) + [leaf]);
      }
      var n := To83(leaf);
      if node.None? || !node.value.isdir || n.None? {
        return None, p, loc;
      }
      var d := node.value.clus;
      var found, lba, off, e;
      found, lba, off, e, p, loc := Scan(d, By83(n.value), t);
      if found && IsDir(e) {
        return None, p, loc;
      }
      r := Some(Plan(d, n.value, found, lba, off, ClusOf(e)));
    }

    /** Give back the clusters of a chain nobody owns any more. */
    method ReleaseOld(start: nat, ghost t: Layout, ghost och: seq<nat>)
      requires Ready() && Consistent(geo, View(), t) && forall x :: x in och ==> !Owned(t, x)
      requires IsChain(View().fat, start, och) || (start == 0 && och == [])
      modifies this`disk, this`trace, this`history, sec
      ensures Ready() && |disk| == old(|disk|) && (old(Mirrors()) ==> Mirrors())
      ensures Consistent(geo, View(), t) && SameTree(geo, old(View()), View())
      ensures LayoutKept(geo, old(View()), t, View(), t)
      ensures FreeCount(View().fat) == FreeCount(old(View()).fat) + |och|
      ensures |View().fat| == |old(View()).fat|
      ensures forall x :: 0 <= x < |View().fat| ==> View().fat[x] == if x in och then 0 else old(View()).fat[x]
      ensures old(trace) <= trace && old(history) <= history
      ensures forall i :: old(|trace|) <= i < |trace| ==>
                SameTree(geo, old(View()), trace[i]) && Sound(geo, old(View()), t, trace[i], [])
    {
      hide Logged, View, Mirrored, GeoOk, Consistent, SameTree, FreeCount, Freed, StaysInRange, Owned, Sound;
      ghost var v, n := View(), |trace|;
      if start >= 2 {
        FreedChain(v.fat, start, och);
        FreeChain(start);
        forall i | n <= i < |trace| ensures SameTree(geo, v, trace[i]) && Sound(geo, v, t, trace[i], []) {
          ClearedSameTree(geo, v, trace[i], View().fat, t, och);
        }
      }
      ClearedSameTree(geo, v, View(), View().fat, t, och);
    }

    /** A slot for the entry: the one found, or a free one. */
    method ObtainSlot(plan: Plan, ghost t: Layout, ghost p0: nat, ghost loc0: Loc)
      returns (ok: bool, lba: nat, off: nat, ghost p: nat, ghost loc: Loc, ghost t': Layout, ghost grown: nat)
      requires Ready() && Consistent(geo, View(), t) && HasDir(t, plan.d)
      requires plan.found <==> Find(DirEnts(View(), plan.d), By83(plan.n), 0).Some?
      requires plan.found ==>
                 && SlotAt(t, plan.d, p0, loc0, plan.lba, plan.off)
                 && SlotFor(DirEnts(View(), plan.d), plan.n, p0)
      modifies this`disk, this`trace, this`history, this`allocHint, sec
      ensures Ready() && |disk| == old(|disk|) && (old(Mirrors()) ==> Mirrors())
      ensures ok <==> plan.found || FirstFree(DirEnts(old(View()), plan.d), 0).Some? || FreeCount(old(View()).fat) > 0
      ensures !ok ==> disk == old(disk) && View() == old(View()) && trace == old(trace)
      ensures plan.found ==> View() == old(View()) && p == p0 && t' == t
      ensures ok ==> SlotAt(t', plan.d, p, loc, lba, off) && sec[..] == disk[lba]
      ensures ok ==> SlotFor(DirEnts(View(), plan.d), plan.n, p)
      ensures ok && !plan.found ==>
                FreeSlot(DirEnts(View(), plan.d)[p]) && FirstFree(DirEnts(View(), plan.d), 0) == Some(p)
      ensures ok ==> Consistent(geo, View(), t') && SameTree(geo, old(View()), View())
      ensures ok ==> SlotStep(old(View()), View(), t, t', plan.d, grown) && LayoutKept(geo, old(View()), t, View(), t')
      ensures !ok ==> grown == 0
      ensures grown != 0 ==> !plan.found && FirstFree(DirEnts(old(View()), plan.d), 0).None?
      ensures old(trace) <= trace && old(history) <= history
      ensures forall i :: old(|trace|) <= i < |trace| ==>
                SameTree(geo, old(View()), trace[i]) && Sound(geo, old(View()), t, trace[i], One(grown))
    {
      hide Logged, View, Consistent, GeoOk, Locates, Mirrored, SameTree, DirEnts, FreeCount, FirstFree, Find, Sound,
           ClusLba;
      ghost var v := View();
      if plan.found {
        SameSlots(geo, v, t, plan.d);
        ReadSector(plan.lba);
        ok, lba, off, p, loc, t', grown := true, plan.lba, plan.off, p0, loc0, t, 0;
      } else {
        ok, lba, off, p, loc, t', grown := DirSlot(plan.d, t);
        if ok {
          SlotIsFree(geo, v, View(), t, t', plan.d, grown, plan.n, p);
        }
      }
    }

    /** The one write that switches the name to the new chain, then the old chain's release. */
    method Commit(plan: Plan, head: nat, size: nat, lba: nat, off: nat, ghost a: Aim, ghost t: Layout, ghost p: nat,
                  ghost loc: Loc, ghost ch: seq<nat>)
      requires Ready() && Consistent(geo, View(), t) && SlotAt(t, plan.d, p, loc, lba, off) && sec[..] == disk[lba]
      requires plan.d == a.d && plan.n == a.n && Encode83(a.leaf) == Some(a.n)
               && DirAt(View(), geo.root, a.par) == Some(a.d)
      requires SlotFor(DirEnts(View(), plan.d), plan.n, p) && head < 0x1_0000_0000 && size < 0x1_0000_0000
      requires if ch == [] then head == 0 && size == 0 else IsChain(View().fat, head, ch)
      requires forall x :: x in ch ==> !Owned(t, x)
      requires var e := DirEnts(View(), plan.d)[p];
               if plan.found then plan.oldClus == ClusOf(e) && Visible(e) && !IsDir(e) else FreeSlot(e)
      modifies this`disk, this`trace, this`history, sec
      ensures Ready() && |disk| == old(|disk|) && (old(Mirrors()) ==> Mirrors())
      ensures Consistent(geo, View(), WithFile(t, plan.d, p, ch))
      ensures LayoutKept(geo, old(View()), t, View(), WithFile(t, plan.d, p, ch))
      ensures Rewritten(geo, old(View()), View(), WrittenPath(a), Take(Flat(Content(old(View()), ch)), size))
      ensures FreeCount(View().fat) == FreeCount(old(View()).fat) + |SlotChain(t, plan.d, p)|
      ensures forall c: nat :: Lost(View(), WithFile(t, plan.d, p, ch), c) <==> Lost(old(View()), t, c) && c !in ch
      ensures old(trace) <= trace && old(history) <= history
      ensures forall i :: old(|trace|) <= i < |trace| ==>
                SameTree(geo, View(), trace[i]) && Sound(geo, old(View()), t, trace[i], SlotChain(t, plan.d, p))
    {
      hide Logged, View, Mirrored, GeoOk, Consistent, SlotFor, IsChain, Owned, Flat, Rewritten, DirAt, Locates, ClusLba,
           SameTree, Sound, FreeCount, DirEnts, WithFile, Visible, Lost, FileChain, Content, Take;
      ghost var v, n := View(), |trace|;
      StoreEntry(lba, off, plan.n, head, size, a.leaf, t, plan.d, p, loc, ch);
      ghost var w, t' := View(), WithFile(t, plan.d, p, ch);
      ghost var och := [];
      if plan.found {
        SlotForBound(DirEnts(v, plan.d), plan.n, p);
        och := ReplacedChain(geo, v, w, t, plan.d, p, ch);
        ChainOrEmpty(w.fat, DirEnts(v, plan.d)[p], och);
        ReleaseOld(plan.oldClus, t', och);
      } else {
        SlotForBound(DirEnts(v, plan.d), plan.n, p);
        FreeSlotUnowned(geo, v, t, plan.d, p);
        SameTreeRefl(geo, w);
      }
      LostAfterCommit(geo, v, View(), t, plan.d, p, ch);
      SameTreeRefl(geo, v);
      RewrittenTrans(geo, v, v, w, View(), WrittenPath(a), Take(Flat(Content(v, ch)), size));
      StoredLost(geo, v, w, t, plan.d, p, ch);
      ghost var gone := SlotChain(t, plan.d, p);
      SoundBy(geo, v, t, w, t', gone);
      forall i | n <= i < |trace| ensures SameTree(geo, View(), trace[i]) && Sound(geo, v, t, trace[i], gone) {
        if i > n { SoundFrom(geo, v, t, w, t', trace[i], gone, []); }
        if i > n { SameTreeSym(geo, w, View()); SameTreeTrans(geo, View(), w, trace[i]); }
        else { SameTreeSym(geo, w, View()); }
      }
    }

    /** Give back a chain that was only just built. */
    method RollBack(head: nat, ghost v0: Vol, ghost t: Layout, ghost ch: seq<nat>)
      requires Ready() && Consistent(geo, View(), t) && FreshChain(v0, View(), ch)
      requires if ch == [] then head == 0 else IsChain(View().fat, head, ch)
      requires forall x: nat :: x in ch ==> !Owned(t, x)
      modifies this`disk, this`trace, this`history, sec
      ensures Ready() && |disk| == old(|disk|) && (old(Mirrors()) ==> Mirrors())
      ensures View().fat == v0.fat && Consistent(geo, View(), t) && SameTree(geo, old(View()), View())
      ensures LayoutKept(geo, old(View()), t, View(), t)
      ensures old(trace) <= trace && old(history) <= history
      ensures forall i :: old(|trace|) <= i < |trace| ==>
                SameTree(geo, old(View()), trace[i]) && Sound(geo, old(View()), t, trace[i], [])
    {
      hide Logged, View, Mirrored, GeoOk, Consistent, SameTree, Freed, StaysInRange, Owned, Sound, FreshChain;
      ghost var v, n := View(), |trace|;
      FreshRestored(v0, v, head, if ch == [] then 0 else ch[|ch| - 1], ch);
      FreshOrZero(v0, v, ch);
      FreeChain(head);
      forall i | n <= i < |trace| ensures SameTree(geo, v, trace[i]) && Sound(geo, v, t, trace[i], []) {
        ClearedSameTree(geo, v, trace[i], v0.fat, t, ch);
      }
      ClearedSameTree(geo, v, View(), v0.fat, t, ch);
    }

    /** With the new chain in place: slot, commit, release; or the roll-back when no slot can be had. */
    method FinishWrite(plan: Plan, head: nat, len: nat, ghost v0: Vol, ghost a: Aim, ghost t: Layout, ghost p0: nat,
                       ghost loc0: Loc, ghost ch: seq<nat>)
      returns (r: int, ghost t': Layout, ghost grown: nat)
      requires Ready() && Consistent(geo, View(), t) && FreshChain(v0, View(), ch)
      requires if ch == [] then head == 0 && len == 0 else IsChain(View().fat, head, ch) && head < FatMax(geo)
      requires forall x: nat :: x in ch ==> !Owned(t, x)
      requires plan.d == a.d && plan.n == a.n && HasDir(t, a.d)
      requires Encode83(a.leaf) == Some(a.n) && DirAt(View(), geo.root, a.par) == Some(a.d)
      requires plan.found <==> Find(DirEnts(View(), a.d), By83(a.n), 0).Some?
      requires plan.found ==>
                 && SlotAt(t, a.d, p0, loc0, plan.lba, plan.off) && SlotFor(DirEnts(View(), a.d), a.n, p0)
                 && p0 < |DirEnts(View(), a.d)| && plan.oldClus == ClusOf(DirEnts(View(), a.d)[p0])
                 && Visible(DirEnts(View(), a.d)[p0]) && !IsDir(DirEnts(View(), a.d)[p0])
      modifies this`disk, this`trace, this`history, this`allocHint, sec
      ensures Ready() && |disk| == old(|disk|) && (old(Mirrors()) ==> Mirrors())
      ensures Consistent(geo, View(), t')
      ensures r ==
              if plan.found || FirstFree(DirEnts(old(View()), a.d), 0).Some? || FreeCount(old(View()).fat) > 0
              then 0 else -1
      ensures r != 0 ==> View().fat == v0.fat && t' == t && SameTree(geo, old(View()), View())
      ensures LayoutKept(geo, old(View()), t, View(), t')
      ensures grown != 0 ==> 2 <= grown < |old(View()).fat| && old(View()).fat[grown] == 0
      ensures grown != 0 ==> !plan.found && FirstFree(DirEnts(old(View()), a.d), 0).None?
      ensures r == 0 && !plan.found && FirstFree(DirEnts(old(View()), a.d), 0).None? ==> grown != 0
      ensures r == 0 ==>
                && Rewritten(geo, old(View()), View(), WrittenPath(a),
                             Take(Flat(Content(old(View()), ch)), len % 0x1_0000_0000))
                && FreeCount(View().fat)
                   + (if plan.found || FirstFree(DirEnts(old(View()), a.d), 0).Some? then 0 else 1)
                   == FreeCount(old(View()).fat) + (if plan.found then |SlotChain(t, a.d, p0)| else 0)
                && forall c: nat :: Lost(View(), t', c) <==> Lost(old(View()), t, c) && c !in ch
      ensures old(trace) <= trace && old(history) <= history
      ensures forall i :: old(|trace|) <= i < |trace| ==>
                CrashSafe(geo, old(View()), t, View(), trace[i],
                          One(grown) + if plan.found then SlotChain(t, a.d, p0) else [])
    {
      hide Logged, View, Mirrored, GeoOk, Consistent, SlotFor, IsChain, Owned, Flat, Rewritten, DirAt, Locates, ClusLba,
           SameTree, Sound, FreeCount, DirEnts, WithFile, Visible, Lost, Content, Take, FreshChain, FirstFree, Find,
           SlotAt, Encode83, SlotChain, SlotStep, WrittenPath, UpperPath, MayLose;
      ghost var v1, n1 := View(), |trace|;
      SameTreeRefl(geo, v1);
      ghost var p, loc, t2;
      var ok, lba, off;
      ok, lba, off, p, loc, t2, grown := ObtainSlot(plan, t, p0, loc0);
      ghost var v2, n2 := View(), |trace|;
      if !ok {
        RollBack(head, v0, t, ch);
        assert One(0) + [] == [];
        return -1, t, 0;
      }
      SlotForBound(DirEnts(v2, a.d), a.n, p);
      SlotKeepsChain(geo, v1, v2, t, t2, a, grown, head, ch);
      SlotEntry(geo, v1, v2, t, t2, a, grown, plan.found, p);
      Commit(plan, head, len % 0x1_0000_0000, lba, off, a, t2, p, loc, ch);
      ghost var w := View();
      r, t' := 0, WithFile(t2, a.d, p, ch);
      SameTreeRefl(geo, w);
      RewrittenTrans(geo, v1, v2, w, w, WrittenPath(a), Take(Flat(Content(v1, ch)), len % 0x1_0000_0000));
      ghost var gone := SlotChain(t2, a.d, p);
      SlotLost(v1, v2, t, t2, a.d, grown, gone);
      MoreLost(v1, t, One(grown), gone);
      forall i | n1 <= i < |trace| ensures CrashSafe(geo, v1, t, w, trace[i], One(grown) + gone) {
        if i < n2 {
          SoundMore(geo, v1, t, trace[i], One(grown), One(grown) + gone);
        } else {
          SoundFrom(geo, v1, t, v2, t2, trace[i], One(grown) + gone, gone);
        }
      }
    }

    /**
     * Write a whole file: new chain first, then one directory sector, then the old chain's release.
     * `t` is the layout before, `t'` the one after.
     */
    method FatWrite(path: Str, buf: seq<byte>, ghost t: Layout)
      returns (r: int, ghost t': Layout, ghost claimed: seq<nat>)
      requires Ready() && Consistent(geo, View(), t) && CwdOk(cwd)
      modifies this`disk, this`trace, this`history, this`allocHint, sec
      ensures Ready() && |disk| == old(|disk|) && (old(Mirrors()) ==> Mirrors())
      ensures Consistent(geo, View(), t')
      // it succeeds exactly when the path can name a file and the free clusters suffice
      ensures r == (if CanWrite(geo, old(View()), Full(cwd, path), |buf|) then 0 else -1)
      ensures r == 0 <==> Writable(geo, old(View()), Full(cwd, path), |buf|)
      // success rewrites one path
      ensures r == 0 ==>
                Rewritten(geo, old(View()), View(),
                          WrittenPath(Target(geo, old(View()), Full(cwd, path)).value), Kept(buf))
      // failure changes neither the FAT nor the tree
      ensures r != 0 ==> View().fat == old(View()).fat && t' == t && SameTree(geo, old(View()), View())
      // free clusters are conserved
      ensures r == 0 ==>
                var a := Target(geo, old(View()), Full(cwd, path)).value;
                FreeCount(View().fat) + Claims(geo, old(View()), a, |buf|)
                == FreeCount(old(View()).fat) + |OldChain(old(View()), t, a)|
      ensures SameLost(old(View()), t, View(), t')
      // names that differed still do, and no directory is out of reach
      ensures LayoutKept(geo, old(View()), t, View(), t')
      // after any prefix of the sector writes a reader finds the old tree or the new one, consistent, and
      // only clusters this write claimed or those of the replaced file may be lost
      ensures old(trace) <= trace && old(history) <= history
      ensures Claimed(geo, old(View()), Full(cwd, path), |buf|, claimed)
      ensures forall i :: old(|trace|) <= i < |trace| ==>
                CrashSafe(geo, old(View()), t, View(), trace[i],
                          claimed + Replaced(geo, old(View()), t, Full(cwd, path)))
      // nor does anything else go out of reach of the root while marked used
      ensures LeaksKept(geo, old(View()), t, View(), trace[old(|trace|)..],
                        claimed + Replaced(geo, old(View()), t, Full(cwd, path)))
    {
      hide Logged, View, Mirrored, GeoOk, Consistent, SlotFor, IsChain, Owned, Flat, Rewritten, DirAt, Locates, ClusLba,
           SameTree, Sound, FreeCount, DirEnts, WithFile, Visible, Lost, FileChain, Content, Take, Target, UsedKept,
           FreshChain, FirstFree, Find, Need, Encode83, SlotChain, SlotStep, SameLost, WrittenPath, Kept, OldChain,
           UpperPath, Shape, MayLose, NamesDiffer, Reached, Claimed, CwdOk, Full,
           LeaksKept, LayoutKept, CrashSafe, Writable;
      ghost var abs := Full(cwd, path);
      CanWriteMeans(geo, View(), t, abs, |buf|);
      t', claimed := t, [];
      ghost var v0, n0 := View(), |trace|;
      Unchanged(geo, v0, v0, t);
      var plan, p0, loc0 := Prepare(path, t);
      if plan.None? {
        NothingClaimed(geo, v0, abs, |buf|);
        LayoutSame(geo, v0, t);
        CrashLeaks(geo, v0, t, v0, t, trace, n0, [] + Replaced(geo, v0, t, abs));
        return -1, t, [];
      }
      ghost var a := Target(geo, v0, abs).value;
      TargetFacts(geo, v0, t, abs, a, p0);
      var ok, head;
      ghost var ch;
      ok, head, ch := NewChain(buf);
      ghost var v1, n1 := View(), |trace|;
      FreshSound(geo, v0, t, v1, ch);
      FreshKept(v0, v1, ch);
      ChainHidden(geo, v0, v1, t, a, head, ch);
      ghost var gone := OldChain(v0, t, a);
      forall i | n0 <= i < n1
        ensures SameTree(geo, v0, trace[i]) && Sound(geo, v0, t, trace[i], ch)
                && CrashSafe(geo, v0, t, v1, trace[i], ch + gone)
      {
        EarlyCrash(geo, v0, t, v1, trace[i], ch, gone);
      }
      if !ok {
        Unchanged(geo, v0, v1, t);
        ChainClaimed(geo, v0, v1, abs, a, |buf|, ch, 0);
        assert ch + One(0) == ch;
        CrashLeaks(geo, v0, t, v1, t, trace, n0, ch + gone);
        return -1, t, ch;
      }
      LostAfterChain(geo, v0, v1, t, head, ch);
      if ch != [] { HeadInTable(v1.fat, head, ch); }
      ghost var grown;
      r, t', grown := FinishWrite(plan.value, head, |buf|, v0, a, t, p0, loc0, ch);
      ghost var w := View();
      claimed := ch + One(grown);
      ChainClaimed(geo, v0, v1, abs, a, |buf|, ch, grown);
      LostBefore(v0, v1, t, ch, One(grown) + gone);
      forall i | n0 <= i < |trace| ensures CrashSafe(geo, v0, t, w, trace[i], claimed + gone) {
        CrashThrough(geo, v0, v1, t, w, trace[i], ch, One(grown), gone, i < n1);
      }
      if r == 0 {
        TakeKept(Flat(Content(v1, ch)), buf);
        SameTreeRefl(geo, w);
        RewrittenTrans(geo, v0, v1, w, w, WrittenPath(a), Kept(buf));
        LostSummary(geo, v0, t, v1, w, t', ch);
      } else {
        SameTreeTrans(geo, v0, v1, w);
        Unchanged(geo, v0, w, t);
      }
      LayoutThrough(geo, v0, t, v1, t, w, t');
      CrashLeaks(geo, v0, t, w, t', trace, n0, claimed + gone);
    }
  }

  lemma {:induction false} FreshSizes(v0: Vol, v: Vol, ch: seq<nat>)
    requires FreshChain(v0, v, ch)
    ensures |v.fat| == |v0.fat|
  {
  }

  lemma {:induction false} NothingClaimed(g: Geo, v: Vol, path: Str, len: nat)
    requires Shape(g, v) && Target(g, v, path).None?
    ensures Claimed(g, v, path, len, [])
  {
  }

  /** A disk met while the new chain was built. */
  lemma {:induction false} EarlyCrash(g: Geo, v: Vol, t: Layout, w: Vol, x: Vol, ch: seq<nat>, gone: seq<nat>)
    requires Consistent(g, v, t) && FreshChain(v, x, ch) && Shape(g, x)
    ensures SameTree(g, v, x) && Sound(g, v, t, x, ch) && CrashSafe(g, v, t, w, x, ch + gone)
  {
    hide Consistent, FreshChain, SameTree, Sound, Shape;
    FreshSound(g, v, t, x, ch);
    SoundMore(g, v, t, x, ch, ch + gone);
  }

  lemma {:induction false} LayoutSame(g: Geo, v: Vol, t: Layout)
    ensures LayoutKept(g, v, t, v, t)
  {
  }

  /** A disk met while the new chain was built, or after that, is safe seen from the start. */
  lemma {:induction false} CrashThrough(g: Geo, v: Vol, v1: Vol, t: Layout, w: Vol, x: Vol, ch: seq<nat>, one: seq<nat>,
                                        gone: seq<nat>, early: bool)
    requires if early then Sound(g, v, t, x, ch) && SameTree(g, v, x) else CrashSafe(g, v1, t, w, x, one + gone)
    requires SameTree(g, v, v1) && MayLose(v1, t, one + gone) <= MayLose(v, t, ch + (one + gone))
             && LayoutKept(g, v, t, v1, t)
    ensures CrashSafe(g, v, t, w, x, ch + one + gone)
  {
    hide Sound, SameTree, MayLose, LayoutKept;
    assert ch + (one + gone) == ch + one + gone;
    if early {
      SoundMore(g, v, t, x, ch, ch + one + gone);
    } else {
      SoundFrom(g, v, t, v1, t, x, ch + one + gone, one + gone);
      if SameTree(g, v1, x) { SameTreeTrans(g, v, v1, x); }
    }
  }

  lemma {:induction false} MoreLost(v: Vol, t: Layout, a: seq<nat>, b: seq<nat>)
    ensures MayLose(v, t, b) <= MayLose(v, t, a + b)
  {
  }

  /** The new chain and the added directory cluster are what a write claims. */
  lemma {:induction false} ChainClaimed(g: Geo, v: Vol, w: Vol, path: Str, a: Aim, len: nat, ch: seq<nat>, n: nat)
    requires Shape(g, v) && Target(g, v, path) == Some(a) && FreshChain(v, w, ch) && |ch| <= Need(g.spc, len)
    requires n != 0 ==>
               && 2 <= n < |w.fat| && w.fat[n] == 0
               && Existing(v, a).None? && FirstFree(DirEnts(v, a.d), 0).None?
    requires CanWrite(g, v, path, len) ==>
               |ch| == Need(g.spc, len) && (n == 0 ==> Existing(v, a).Some? || FirstFree(DirEnts(v, a.d), 0).Some?)
    ensures Claimed(g, v, path, len, ch + One(n))
  {
    hide Target, DirEnts, FirstFree, Existing, Need, FreeCount;
    FreshKept(v, w, ch);
  }

  /** The added directory cluster, if there is one. */
  function One(n: nat): seq<nat> { if n == 0 then [] else [n] }

  /** What scanning the first cluster of `rem` has found: `st` in its sector `s`, whose bytes are at hand. */
  ghost predicate ClusterScan(g: Geo, v: Vol, q: Query, pre: seq<nat>, rem: seq<nat>, st: SectorScan, s: nat,
                              sector: seq<byte>, size: nat)
    requires rem != [] && |sector| == 512
  {
    var es, k0, c := Ents(Content(v, pre + rem)), |Content(v, pre)|, rem[0];
    match st
    case At(i) =>
      && i < 16 && s < g.spc && Locates(g.spc, pre + rem, k0 + s, c, s)
      && Find(es, q, 16 * k0) == Some(16 * (k0 + s) + i) && 16 * (k0 + s) + i < |es|
      && 2 <= c && ClusLba(g, c) + s < size && sector[32 * i..32 * i + 32] == es[16 * (k0 + s) + i]
    case End => Find(es, q, 16 * k0) == None
    case Miss => Find(es, q, 16 * k0) == Find(es, q, 16 * (k0 + g.spc))
  }

  lemma {:induction false} SectorScanned(g: Geo, v: Vol, q: Query, pre: seq<nat>, rem: seq<nat>, st: SectorScan,
                                         s: nat, sector: seq<byte>, size: nat)
    requires rem != [] && |sector| == 512 && s < g.spc && !st.Miss? && 2 <= rem[0] && ClusLba(g, rem[0]) + s < size
    requires var es, k0 := Ents(Content(v, pre + rem)), |Content(v, pre)|;
             && Locates(g.spc, pre + rem, k0 + s, rem[0], s) && 16 * (k0 + s) + 16 <= |es|
             && Find(es, q, 16 * k0) == Find(es, q, 16 * (k0 + s))
             && match st
                case At(i) => i < 16 && Find(es, q, 16 * (k0 + s)) == Some(16 * (k0 + s) + i)
                              && sector[32 * i..32 * i + 32] == es[16 * (k0 + s) + i]
                case _ => Find(es, q, 16 * (k0 + s)) == None
    ensures ClusterScan(g, v, q, pre, rem, st, s, sector, size)
  {
    hide Ents, Content, Locates, Find;
  }

  lemma {:induction false} ClusterMissed(g: Geo, v: Vol, q: Query, pre: seq<nat>, rem: seq<nat>, s: nat,
                                         sector: seq<byte>, size: nat)
    requires rem != [] && |sector| == 512 && s == g.spc
    requires var es, k0 := Ents(Content(v, pre + rem)), |Content(v, pre)|;
             Find(es, q, 16 * k0) == Find(es, q, 16 * (k0 + s))
    ensures ClusterScan(g, v, q, pre, rem, Miss, s, sector, size)
  {
    hide Ents, Content, Locates, Find;
  }

  lemma {:induction false} FirstInTable(rem: seq<nat>, n: nat)
    requires rem != [] && InTable(rem, n)
    ensures 2 <= rem[0] < n
  {
  }

  /** The slots of one sector of a directory, and its place in the chain. */
  lemma {:induction false} SectorEnts(g: Geo, v: Vol, pre: seq<nat>, rem: seq<nat>, s: nat, sector: seq<byte>)
    requires Shape(g, v) && rem != [] && s < g.spc && InTable(pre, |v.fat|) && InTable(rem, |v.fat|)
    requires 2 <= rem[0] < |v.fat| && |sector| == 512 && sector == v.clus[rem[0]][s]
    ensures var es, k := Ents(Content(v, pre + rem)), |Content(v, pre)| + s;
            && 16 * k + 16 <= |es| && Locates(g.spc, pre + rem, k, rem[0], s)
            && forall j :: 0 <= j < 16 ==> es[16 * k + j] == SecEnts(sector)[j]
  {
    hide Ents, Content, Locates, InTable, SecEnts;
    ScanSectorIs(g, v, pre, rem, s);
  }

  /** The bytes a reader gets for a resolved path. */
  ghost function Contents(g: Geo, v: Vol, path: Str): Option<seq<byte>> {
    match PathOf(path)
    case None => None
    case Some(p) =>
      match Stat(v, g.root, p)
      case Some(FileObj(b)) => Some(b)
      case _ => None
  }

  lemma {:induction false} GlueCopy(a: seq<byte>, b: seq<byte>, flat: seq<byte>, x: seq<byte>, start: nat, pos: nat,
                                    n: nat)
    requires start <= pos && pos + n <= |a| == |b| && n <= |x|
    requires a[..pos] == b[..pos] && b[pos..pos + n] == x[..n]
    requires pos - start + |x| <= |flat| && flat[pos - start..pos - start + |x|] == x
    requires a[start..pos] == flat[..pos - start]
    ensures b[start..pos + n] == flat[..pos + n - start]
  {
    assert b[start..pos + n] == b[start..pos] + b[pos..pos + n];
    assert b[start..pos] == a[..pos][start..];
    assert x[..n] == flat[pos - start..pos - start + n];
  }

  /** What was untouched before the copy and is not touched by it is untouched. */
  lemma {:induction false} GlueFrame(a: seq<byte>, b: seq<byte>, o: seq<byte>, start: nat, pos: nat, end: nat)
    requires start <= pos <= end <= |a| == |b| == |o|
    requires a[..start] == o[..start] && a[pos..] == o[pos..] && b[..pos] == a[..pos] && b[end..] == a[end..]
    ensures b[..start] == o[..start] && b[end..] == o[end..]
  {
    assert b[..start] == b[..pos][..start] && a[..start] == a[..pos][..start];
    assert a[end..] == a[pos..][end - pos..] && o[end..] == o[pos..][end - pos..];
  }

  lemma {:induction false} GlueCluster(a: seq<byte>, b: seq<byte>, done: seq<byte>, row: seq<byte>, start: nat,
                                       pos: nat)
    requires start <= pos <= |b| == |a| && start == |done| && pos - start <= |row|
    requires a[..start] == b[..start] && a[..start] == done[..start] && b[start..pos] == row[..pos - start]
    ensures b[..pos] == (done + row)[..pos]
  {
    assert b[..pos] == b[..start] + b[start..pos];
  }

  lemma {:induction false} GlueChain(buf: seq<byte>, done: seq<byte>, row: seq<byte>, start: nat, pos: nat)
    requires start <= pos <= |buf| && start == |done| && pos - start <= |row|
    requires done[..start] == buf[..start] && row[..pos - start] == buf[start..pos]
    ensures (done + row)[..pos] == buf[..pos]
  {
    assert buf[..pos] == buf[..start] + buf[start..pos];
  }

  lemma {:induction false} EntsLength(secs: seq<Sector>)
    ensures |Ents(secs)| == 16 * |secs|
  {
  }

  lemma {:induction false} FirstByte(x: Sector, i: nat)
    requires i < 16
    ensures SecEnts(x)[i][0] == x[32 * i]
  {
  }

  lemma {:induction false} BlankRow(row: seq<Sector>)
    requires forall j :: 0 <= j < |row| ==> row[j] == seq(512, _ => 0)
    ensures Blank(Ents(row))
    decreases |row|
  {
    if row != [] {
      BlankRow(row[1..]);
      assert forall i :: 0 <= i < 16 ==> SecEnts(row[0])[i][0] == 0;
    }
  }

  /** What providing a slot may change: nothing, or one cluster added to the directory. */
  ghost predicate SlotStep(v: Vol, w: Vol, t: Layout, t': Layout, d: nat, n: nat) {
    if n == 0 then w == v && t' == t
    else
      && HasDir(t, d) && t.chains[DirO(d)] != [] && FirstFree(DirEnts(v, d), 0).None?
      && var prev := t.chains[DirO(d)][|t.chains[DirO(d)]| - 1];
         && 2 <= n < |v.fat| && v.fat[n] == 0 && prev < |v.fat| && prev != n
         && t' == Grown(t, d, n) && !Owned(t, n)
         && w.fat == v.fat[n := LAST][prev := n] && |w.clus| == |v.clus|
         && forall x: nat :: x < |v.clus| && x != n ==> w.clus[x] == v.clus[x]
  }

  lemma {:induction false} SameSlots(g: Geo, v: Vol, t: Layout, d: nat)
    ensures SlotStep(v, v, t, t, d, 0) && SameTree(g, v, v)
  {
  }

  lemma {:induction false} NoneFree(es: seq<Entry>)
    ensures FirstFree(es, |es|) == None
  {
  }

  /** Where the first slot of the added cluster lies. */
  lemma {:induction false} GrownLoc(g: Geo, v: Vol, w: Vol, t: Layout, d: nat, n: nat) returns (loc: Loc)
    requires Consistent(g, v, t) && HasDir(t, d) && Shape(g, w) && |w.fat| == |v.fat| && 2 <= n < |w.fat|
    requires DirEnts(w, d) == DirEnts(v, d) + Ents(w.clus[n]) && Blank(Ents(w.clus[n]))
    requires FirstFree(DirEnts(v, d), 0).None? && Consistent(g, w, Grown(t, d, n))
    ensures loc.i == 0 && loc.c == n && loc.s == 0 && FirstFree(DirEnts(w, d), 0) == Some(16 * loc.k)
    ensures HasDir(Grown(t, d, n), d) && Locates(g.spc, Grown(t, d, n).chains[DirO(d)], loc.k, n, 0)
  {
    hide Ents, Content, Locates, DirOk, DirChainOk, FileSlotOk, AllDisjoint, FirstFree;
    var ch := t.chains[DirO(d)];
    DirFacts(g, v, t, d);
    LocateIn(g, w, ch, [n], 0);
    loc := Loc(|Content(w, ch)|, 0, n, 0);
    SameLengths(g, v, w, ch);
    EntsLength(Content(v, ch));
    EntsLength(w.clus[n]);
    FirstFreeIs(DirEnts(w, d), |DirEnts(v, d)|);
  }

  lemma {:induction false} SameLengths(g: Geo, v: Vol, w: Vol, ch: seq<nat>)
    requires Shape(g, v) && Shape(g, w) && |w.fat| == |v.fat| && InTable(ch, |v.fat|)
    ensures |Content(v, ch)| == |Content(w, ch)|
    decreases |ch|
  {
    if ch != [] { SameLengths(g, v, w, ch[1..]); }
  }

  lemma {:induction false} FirstFreeIs(es: seq<Entry>, k: nat)
    requires k < |es| && FreeSlot(es[k]) && forall j :: 0 <= j < k ==> !FreeSlot(es[j])
    ensures FirstFree(es, 0) == Some(k)
  {
  }

  lemma {:induction false} LastClusterUsed(g: Geo, v: Vol, t: Layout, d: nat, prev: nat)
    requires Consistent(g, v, t) && HasDir(t, d)
    requires t.chains[DirO(d)] != [] && prev == t.chains[DirO(d)][|t.chains[DirO(d)]| - 1]
    ensures 2 <= prev < |v.fat| && v.fat[prev] != 0
  {
    OwnedInRange(g, v, t, DirO(d));
    assert prev in t.chains[DirO(d)];
  }

  /** While the new cluster is claimed and blanked, the tree stays what it was. */
  lemma {:induction false} GrowTrace(g: Geo, v0: Vol, v1: Vol, w: Vol, t: Layout, n: nat)
    requires Consistent(g, v0, t) && 2 <= n < |v0.fat| && v0.fat[n] == 0
    requires v1 == v0.(fat := v0.fat[n := LAST]) && OnlyCluster(v1, w, n) && Shape(g, w)
    ensures Consistent(g, w, t) && SameSteps(v0, w, t) && SameTree(g, v0, w) && Sound(g, v0, t, w, [n]) && !Owned(t, n)
    ensures LostWithin(w, t, MayLose(v0, t, [n])) && LayoutKept(g, v0, t, w, t)
  {
    assert FreshChain(v0, w, [n]);
    FreshKept(v0, w, [n]);
    UsedKeptSameTree(g, v0, w, t);
    FreshSound(g, v0, t, w, [n]);
    FreshLost(v0, w, t, [n]);
    if Owned(t, n) {
      var o :| o in t.chains && n in t.chains[o];
      OwnedInRange(g, v0, t, o);
    }
  }

  /** The added cluster is owned now, and no other becomes lost. */
  lemma {:induction false} GrownLost(v0: Vol, v2: Vol, w: Vol, t: Layout, d: nat, prev: nat, n: nat)
    requires HasDir(t, d) && prev in t.chains[DirO(d)] && prev < |v2.fat| && w.fat == v2.fat[prev := n]
    requires LostWithin(v2, t, MayLose(v0, t, [n]))
    ensures LostWithin(w, Grown(t, d, n), MayLose(v0, t, [n]))
  {
    hide MayLose;
    forall c: nat | Lost(w, Grown(t, d, n), c)
      ensures c in MayLose(v0, t, [n])
    {
      OwnedGrown(t, d, n, c);
      assert Owned(t, prev);
      assert Lost(v2, t, c);
    }
  }

  lemma {:induction false} GrowSteps(g: Geo, v0: Vol, v1: Vol, v2: Vol, w: Vol, t: Layout, d: nat, prev: nat, n: nat)
    requires Consistent(g, v0, t) && HasDir(t, d) && 2 <= n < |v0.fat| && v0.fat[n] == 0
    requires t.chains[DirO(d)] != [] && prev == t.chains[DirO(d)][|t.chains[DirO(d)]| - 1] && prev < |v0.fat|
    requires v1 == v0.(fat := v0.fat[n := LAST]) && OnlyCluster(v1, v2, n) && Shape(g, v2)
    requires Blank(Ents(v2.clus[n])) && w == v2.(fat := v2.fat[prev := n])
    ensures Consistent(g, w, Grown(t, d, n)) && SameTree(g, v0, w) && Sound(g, v0, t, w, [n]) && !Owned(t, n)
    ensures LayoutKept(g, v0, t, w, Grown(t, d, n))
    ensures DirEnts(w, d) == DirEnts(v0, d) + Ents(w.clus[n])
  {
    hide MayLose, LostWithin, Sound, Owned, Lost, IsChain, Blank, Ents, Consistent, Shape, GrownBy, DirEnts, LayoutKept,
         SameTree, SameSteps, UsedKept, OnlyCluster;
    GrowDirKept(g, v0, v1, v2, t, d, n);
    GrowTrace(g, v0, v1, v2, t, n);
    GrownHere(g, v0, v1, v2, w, t, d, prev, n);
    GrownLost(v0, v2, w, t, d, prev, n);
    GrownConsistent(g, v2, w, t, d, n);
    GrownDir(g, v2, w, t, d, n);
    SameStepsSameTree(g, v2, w, t);
    SameTreeTrans(g, v0, v2, w);
    GrownReached(g, v2, w, t, d, n);
    LayoutThrough(g, v0, t, v2, t, w, Grown(t, d, n));
    SoundBy(g, v0, t, w, Grown(t, d, n), [n]);
  }

  lemma {:induction false} GrownHere(g: Geo, v0: Vol, v1: Vol, v2: Vol, w: Vol, t: Layout, d: nat, prev: nat, n: nat)
    requires HasDir(t, d) && 2 <= n < |v0.fat| && !Owned(t, n) && Shape(g, v0)
    requires t.chains[DirO(d)] != [] && prev == t.chains[DirO(d)][|t.chains[DirO(d)]| - 1] && prev < |v0.fat|
    requires v1 == v0.(fat := v0.fat[n := LAST]) && OnlyCluster(v1, v2, n) && Shape(g, v2)
    requires Blank(Ents(v2.clus[n])) && w == v2.(fat := v2.fat[prev := n])
    ensures GrownBy(g, v2, w, t, d, n) && w.clus == v2.clus
  {
    hide Owned, Blank, Ents;
  }

  lemma {:induction false} GrowDirKept(g: Geo, v0: Vol, v1: Vol, v2: Vol, t: Layout, d: nat, n: nat)
    requires Consistent(g, v0, t) && HasDir(t, d) && 2 <= n < |v0.fat| && v0.fat[n] == 0
    requires v1 == v0.(fat := v0.fat[n := LAST]) && OnlyCluster(v1, v2, n)
    ensures DirEnts(v2, d) == DirEnts(v0, d) && Shape(g, v0) && |v2.fat| == |v0.fat|
  {
    hide DirEnts;
    assert UsedKept(v0, v2);
    UsedKeptKeeps(g, v0, v2, t);
    KeepDir(g, v0, v2, t, d);
  }

  /** The bytes of the clusters copied so far are the front of those of the whole chain. */
  /** What fits of the clusters `pre` stands in the output, and behind it nothing has changed. */
  ghost predicate Copied(v: Vol, pre: seq<nat>, out: seq<byte>, was: seq<byte>, pos: nat, cap: nat) {
    var flat := Flat(Content(v, pre));
    && pos == Min(cap, |flat|) && pos <= |out| == |was|
    && out[..pos] == flat[..pos] && out[pos..] == was[pos..]
  }

  lemma {:induction false} NoneCopied(v: Vol, out: seq<byte>, cap: nat)
    ensures Copied(v, [], out, out, 0, cap)
  {
    FlatStart(v);
  }

  /** One cluster more. */
  lemma {:induction false} CopiedNext(g: Geo, v: Vol, pre: seq<nat>, rem: seq<nat>, before: seq<byte>, out: seq<byte>,
                                      was: seq<byte>, start: nat, pos: nat, cap: nat)
    requires Shape(g, v) && rem != [] && InTable(pre, |v.fat|) && InTable(rem, |v.fat|)
    requires Copied(v, pre, before, was, start, cap) && start < cap <= |was| == |out|
    requires pos == Min(cap, start + 512 * g.spc) && rem[0] < |v.clus|
    requires out[..start] == before[..start] && out[pos..] == before[pos..]
    requires |Flat(v.clus[rem[0]])| == 512 * g.spc && out[start..pos] == Flat(v.clus[rem[0]])[..pos - start]
    ensures Copied(v, pre + [rem[0]], out, was, pos, cap)
    ensures InTable(pre + [rem[0]], |v.fat|) && InTable(rem[1..], |v.fat|) && pre + [rem[0]] + rem[1..] == pre + rem
  {
    hide Content, Flat, InTable;
    ScanNext(g, v, pre, rem);
    FlatConcat(Content(v, pre), v.clus[rem[0]]);
    GlueCluster(before, out, Flat(Content(v, pre)), Flat(v.clus[rem[0]]), start, pos);
    GlueFrame(before, out, was, 0, start, pos);
  }

  lemma {:induction false} CopiedIs(v: Vol, pre: seq<nat>, out: seq<byte>, was: seq<byte>, pos: nat, cap: nat)
    requires Copied(v, pre, out, was, pos, cap)
    ensures pos == Min(cap, |Flat(Content(v, pre))|) && pos <= |out| == |was|
    ensures out[..pos] == Flat(Content(v, pre))[..pos] && out[pos..] == was[pos..]
  {
  }

  lemma {:induction false} CopiedAll(v: Vol, pre: seq<nat>, rem: seq<nat>)
    ensures Flat(Content(v, pre + rem)) == Flat(Content(v, pre)) + Flat(Content(v, rem))
  {
    hide Content, Flat;
    ContentConcat(v, pre, rem);
    FlatConcat(Content(v, pre), Content(v, rem));
  }

  lemma {:induction false} FlatStart(v: Vol)
    ensures Content(v, []) == [] && Flat([]) == [] && InTable([], |v.fat|)
  {
  }

  /** The slot provided for a new name is the first free one, and the name is still not there. */
  lemma {:induction false} SlotIsFree(g: Geo, v: Vol, w: Vol, t: Layout, t': Layout, d: nat, grown: nat, n: Name83,
                                      p: nat)
    requires Consistent(g, v, t) && Consistent(g, w, t') && HasDir(t, d) && SlotStep(v, w, t, t', d, grown)
    requires grown != 0 ==> DirEnts(v, d) <= DirEnts(w, d) && Blank(DirEnts(w, d)[|DirEnts(v, d)|..])
    requires Find(DirEnts(v, d), By83(n), 0).None? && FirstFree(DirEnts(w, d), 0) == Some(p)
    ensures SlotFor(DirEnts(w, d), n, p) && FreeSlot(DirEnts(w, d)[p])
  {
    hide Hit, Content, Ents, IsChain, Shape, ChainOf, EntryOk, Listed;
    if grown != 0 {
      assert DirOk(v, t, d);
      assert HasDir(t', d);
      assert DirOk(w, t', d);
      var es, fs := DirEnts(v, d), DirEnts(w, d);
      forall i | |es| <= i < |fs| ensures fs[i][0] == 0 {
        assert fs[i] == fs[|es|..][i - |es|];
      }
      FindInPrefix(es, fs, By83(n));
    }
  }

  lemma {:induction false} SameTreeRefl(g: Geo, v: Vol)
    ensures SameTree(g, v, v)
  {
  }

  lemma {:induction false} SameTreeSym(g: Geo, v: Vol, w: Vol)
    requires SameTree(g, v, w)
    ensures SameTree(g, w, v)
  {
  }

  lemma {:induction false} SlotForBound(es: seq<Entry>, n: Name83, p: nat)
    requires SlotFor(es, n, p)
    ensures p < |es|
  {
  }

  lemma {:induction false} FreshOrZero(v0: Vol, v: Vol, ch: seq<nat>)
    requires FreshChain(v0, v, ch)
    ensures |v.fat| == |v0.fat| && forall x :: 0 <= x < |v0.fat| ==> v0.fat[x] == if x in ch then 0 else v.fat[x]
  {
    forall x | 0 <= x < |v0.fat| && x in ch ensures v0.fat[x] == 0 {
      var i :| 0 <= i < |ch| && ch[i] == x;
    }
  }

  /** Providing a slot touches neither the new chain nor the way to the directory. */
  lemma {:induction false} SlotKeepsChain(g: Geo, v: Vol, w: Vol, t: Layout, t': Layout, a: Aim, n: nat, head: nat,
                                          ch: seq<nat>)
    requires Consistent(g, v, t) && SlotStep(v, w, t, t', a.d, n) && SameTree(g, v, w) && HasDir(t, a.d) && |v.fat| >= 2
    requires ch == [] || IsChain(v.fat, head, ch)
    requires forall x: nat :: x in ch ==> !Owned(t, x)
    requires DirAt(v, g.root, a.par) == Some(a.d)
    ensures ch == [] || IsChain(w.fat, head, ch)
    ensures Content(w, ch) == Content(v, ch) && DirAt(w, g.root, a.par) == Some(a.d)
    ensures forall x: nat :: x in ch ==> !Owned(t', x)
    ensures forall c: nat :: Lost(w, t', c) <==> Lost(v, t, c)
    ensures FreeCount(w.fat) + (if n == 0 then 0 else 1) == FreeCount(v.fat)
  {
    hide Consistent, FreeCount, DirAt, Content, DirEnts, FirstFree, Owned, IsChain, Stat;
    if n != 0 {
      var prev := t.chains[DirO(a.d)][|t.chains[DirO(a.d)]| - 1];
      LastClusterUsed(g, v, t, a.d, prev);
      LastIsOwned(t, a.d);
      if ch != [] { ChainInRange(v.fat, head, ch); }
      ChainUntouched(v, w, head, ch, n, prev);
      forall c: nat ensures (Owned(t', c) <==> Owned(t, c) || c == n) { OwnedGrown(t, a.d, n, c); }
      FreeCountUpdate(v.fat, n, LAST);
      FreeCountUpdate(v.fat[n := LAST], prev, n);
    }
  }

  lemma {:induction false} LastIsOwned(t: Layout, d: nat)
    requires HasDir(t, d) && t.chains[DirO(d)] != []
    ensures Owned(t, t.chains[DirO(d)][|t.chains[DirO(d)]| - 1])
  {
    assert t.chains[DirO(d)][|t.chains[DirO(d)]| - 1] in t.chains[DirO(d)];
  }

  /** What may be lost after a slot was provided might have been lost before. */
  lemma {:induction false} SlotLost(v: Vol, w: Vol, t: Layout, t': Layout, d: nat, n: nat, extra: seq<nat>)
    requires SlotStep(v, w, t, t', d, n) && forall c: nat :: Lost(w, t', c) <==> Lost(v, t, c)
    ensures MayLose(w, t', extra) <= MayLose(v, t, extra)
  {
  }

  /** A cluster was added exactly when there was no free slot; a free slot had no chain. */
  lemma {:induction false} SlotEntry(g: Geo, v: Vol, w: Vol, t: Layout, t': Layout, a: Aim, n: nat, found: bool, p: nat)
    requires SlotStep(v, w, t, t', a.d, n) && Consistent(g, w, t') && p < |DirEnts(w, a.d)|
    requires n != 0 ==> !found
    requires found || (FreeSlot(DirEnts(w, a.d)[p]) && (n == 0 ==> FirstFree(DirEnts(w, a.d), 0) == Some(p)))
    ensures n == 0 <==> found || FirstFree(DirEnts(v, a.d), 0).Some?
    ensures !found ==> SlotChain(t', a.d, p) == []
    ensures n != 0 ==> 2 <= n < |v.fat| && v.fat[n] == 0
  {
    if !found { FreeSlotUnowned(g, w, t', a.d, p); }
  }

  lemma {:induction false} HeadInTable(fat: seq<nat>, head: nat, ch: seq<nat>)
    requires IsChain(fat, head, ch) && ch != []
    ensures head < |fat|
  {
  }

  lemma {:induction false} ChainOrEmpty(fat: seq<nat>, e: Entry, ch: seq<nat>)
    requires FileChain(fat, e, ch)
    ensures IsChain(fat, ClusOf(e), ch) || (ClusOf(e) == 0 && ch == [])
  {
  }

  lemma {:induction false} EmptyLeaf()
    ensures Encode83([]) == None
  {
  }

  /** Walking the text before the leaf ends on a directory exactly when its names lead to one. */
  lemma {:induction false} WalkParent(g: Geo, v: Vol, t: Layout, par: Str)
    requires Consistent(g, v, t)
    ensures var n, d := WalkText(v, g.root, par), DirAt(v, g.root, Comps(par));
            && (d == None <==> n == None || !n.value.isdir)
            && (n.Some? && n.value.isdir ==> d == Some(n.value.clus) && HasDir(t, n.value.clus))
  {
    hide Comps;
    WalkTextIs(v, g.root, par);
    WalkMeans(v, g.root, Comps(par));
    DirAtInside(g, v, t, g.root, Comps(par));
  }

  /** The chain behind a file a walk found. */
  lemma {:induction false} FileFacts(g: Geo, v: Vol, t: Layout, p: seq<Str>, node: Node) returns (ch: seq<nat>)
    requires Consistent(g, v, t) && Walk(v, g.root, p) == Some(node) && !node.isdir
    ensures Stat(v, g.root, p) == Some(FileObj(Take(Flat(Content(v, ch)), node.size)))
    ensures InTable(ch, |v.fat|)
    ensures node.size > 0 ==> IsChain(v.fat, node.clus, ch)
  {
    var d, i := WalkFindsSlot(g, v, t, g.root, p);
    FileSlotChain(g, v, t, d, i);
    ch := t.chains[FileO(d, i)];
    OwnedInRange(g, v, t, FileO(d, i));
    forall k | 0 <= k < |ch| ensures 2 <= ch[k] < |v.fat| {
      assert ch[k] in ch;
    }
    BytesOfChain(v, DirEnts(v, d)[i], ch);
  }

  ghost predicate AllNamesOk(es: seq<Entry>) {
    forall j :: 0 <= j < |es| && Listed(es[j]) ==> NameOk(es[j])
  }

  lemma {:induction false} DirFacts(g: Geo, v: Vol, t: Layout, d: nat)
    requires Consistent(g, v, t) && HasDir(t, d)
    ensures IsChain(v.fat, d, t.chains[DirO(d)]) && InTable(t.chains[DirO(d)], |v.fat|)
    ensures DirEnts(v, d) == Ents(Content(v, t.chains[DirO(d)]))
    ensures AllNamesOk(DirEnts(v, d)) && t.chains[DirO(d)] != []
  {
    DirEntsAre(g, v, t, d);
    OwnedInRange(g, v, t, DirO(d));
    forall i | 0 <= i < |t.chains[DirO(d)]| ensures 2 <= t.chains[DirO(d)][i] < |v.fat| {
      assert t.chains[DirO(d)][i] in t.chains[DirO(d)];
    }
    assert DirChainOk(v, t, d);
    assert DirOk(v, t, d);
    assert forall j :: 0 <= j < |DirEnts(v, d)| ==> EntryOk(v.fat, t, d, j, DirEnts(v, d)[j]);
  }

  /** The cluster tried in round `i` of the search. */
  function Probe(hint: nat, max: nat, i: nat): (c: nat)
    requires max > 2
    ensures 2 <= c < max
  {
    2 + (hint + i) % (max - 2)
  }

  lemma {:induction false} FreedKeepsZeros(fat: seq<nat>, c: nat, x: nat)
    requires StaysInRange(fat, c) && x < |fat| && fat[x] == 0
    ensures Freed(fat, c)[x] == 0
    decreases |fat| - Zeros(fat), if 2 <= c then 1 else 0
  {
    if 2 <= c < EOC {
      ZerosUpdate(fat, c, 0);
      FreedKeepsZeros(fat[c := 0], Link(fat, c), x);
    }
  }

  lemma {:induction false} FreedDone(fat: seq<nat>, c: nat)
    requires StaysInRange(fat, c) && !(2 <= c < EOC)
    ensures Freed(fat, c) == fat
  {
  }

  /** One round of the release loop. */
  lemma {:induction false} FreedStep(fat: seq<nat>, c: nat)
    requires 2 <= c < EOC && StaysInRange(fat, c)
    ensures c < |fat| && StaysInRange(fat[c := 0], Link(fat, c))
    ensures Freed(fat, c) == Freed(fat[c := 0], Link(fat, c)) && Freed(fat, c)[c] == 0
    ensures if fat[c] == 0 then Link(fat, c) == 0 && Zeros(fat[c := 0]) == Zeros(fat)
            else Zeros(fat[c := 0]) == Zeros(fat) + 1
  {
    ZerosUpdate(fat, c, 0);
    FreedKeepsZeros(fat[c := 0], Link(fat, c), c);
  }
}
