/** When a write succeeds, told from what a reader finds on the volume. */
module FatLaws {
  import opened Bytes
  import opened FatNames
  import opened FatChains
  import opened FatVolume
  import opened FatUpdates
  import opened FatTree
  import opened FatPaths
  import opened FatDisk
  import opened FatNewChain
  import opened FatCommit

  /** Every slot holds an entry that is neither an end mark nor deleted. */
  predicate NoRoom(es: seq<Entry>) {
    forall i :: 0 <= i < |es| ==> es[i][0] != 0 && es[i][0] != 0xE5
  }

  /** Clusters that `len` bytes take under the name `s` in directory `d`. */
  ghost function Wanted(g: Geo, v: Vol, d: nat, s: Str, len: nat): nat
    requires g.spc >= 1
  {
    Need(g.spc, len) + if Stat(v, d, [s]).None? && NoRoom(DirEnts(v, d)) then 1 else 0
  }

  /**
   * The names before the last lead to a directory, the last name has an 8.3 form, a reader finds no
   * directory under it without its trailing dot, and enough clusters are free.
   */
  ghost predicate Writable(g: Geo, v: Vol, path: Str, len: nat)
    requires Shape(g, v)
  {
    PathOf(path).Some? && PathOf(path).value != [] &&
    var p := PathOf(path).value;
    var par, leaf := p[..|p| - 1], p[|p| - 1];
    && DirAt(v, g.root, par).Some? && Encode83(leaf).Some?
    && Stat(v, g.root, par + [Undotted(leaf)]) != Some(DirObj)
    && Wanted(g, v, DirAt(v, g.root, par).value, Undotted(leaf), len) <= FreeCount(v.fat)
  }

  /** A reader's name and the writer's eleven bytes hit the same slots of a consistent directory. */
  lemma {:induction false} SameSlot(g: Geo, v: Vol, t: Layout, d: nat, leaf: Str)
    requires Consistent(g, v, t) && HasDir(t, d) && Encode83(leaf).Some?
    ensures Find(DirEnts(v, d), By83(Encode83(leaf).value), 0) == NameSlot(v, d, Undotted(leaf))
  {
    hide Encode83, DirEnts, NameOf, Upper;
    var es, n, s := DirEnts(v, d), Encode83(leaf).value, Undotted(leaf);
    EncodedNameReads(leaf);
    assert DirOk(v, t, d);
    forall i | 0 <= i < |es| ensures Hit(ByName(s), es[i]) <==> Hit(By83(n), es[i]) {
      assert EntryOk(v.fat, t, d, i, es[i]);
      if Listed(es[i]) { SameTextSameBytes(es[i], leaf); }
    }
    var r := Find(es, ByName(s), 0);
    if r.None? { FindNone(es, ByName(s)); }
    FindIs(es, By83(n), r);
  }

  lemma {:induction false} UndottedShort(leaf: Str)
    requires Encode83(leaf).Some?
    ensures |Undotted(leaf)| <= 12
  {
    UndottedParts(leaf);
  }

  /** What a reader finds under the name is what the writer finds under its eleven bytes. */
  lemma {:induction false} StatIsFind(g: Geo, v: Vol, t: Layout, d: nat, leaf: Str)
    requires Consistent(g, v, t) && HasDir(t, d) && Encode83(leaf).Some?
    ensures Stat(v, d, [Undotted(leaf)]) ==
            match Find(DirEnts(v, d), By83(Encode83(leaf).value), 0)
            case None => None
            case Some(i) =>
              var e := DirEnts(v, d)[i];
              if IsDir(e) then Some(DirObj) else Some(FileObj(FileBytes(v, e)))
  {
    hide Consistent, Encode83, DirEnts, FileBytes, Find, Undotted;
    SameSlot(g, v, t, d, leaf);
    UndottedShort(leaf);
    StatOne(v, d, Undotted(leaf));
  }

  lemma {:induction false} RoomIsFirstFree(es: seq<Entry>)
    ensures NoRoom(es) <==> FirstFree(es, 0).None?
  {
  }

  /** With the directory and the eleven bytes known. */
  lemma {:induction false} AimMeans(g: Geo, v: Vol, t: Layout, par: seq<Str>, leaf: Str, d: nat, n: Name83, len: nat)
    requires Consistent(g, v, t) && DirAt(v, g.root, par) == Some(d) && Encode83(leaf) == Some(n)
    ensures Shape(g, v)
    ensures Stat(v, g.root, par + [Undotted(leaf)]) == Some(DirObj) <==>
            match Find(DirEnts(v, d), By83(n), 0) case Some(i) => IsDir(DirEnts(v, d)[i]) case None => false
    ensures Wanted(g, v, d, Undotted(leaf), len) == Claims(g, v, Aim(par, leaf, d, n), len)
  {
    assert Shape(g, v);
    hide DirAt, Encode83, Stat, DirEnts, Consistent, FirstFree, NoRoom, Find, FileBytes, Need, Undotted, Shape, IsDir;
    RootIs(g, v, t);
    DirAtInside(g, v, t, g.root, par);
    DirAtSnoc(v, g.root, par, Undotted(leaf));
    StatIsFind(g, v, t, d, leaf);
    RoomIsFirstFree(DirEnts(v, d));
  }

  /** A write succeeds exactly when the path is writable. */
  lemma {:induction false} CanWriteMeans(g: Geo, v: Vol, t: Layout, path: Str, len: nat)
    requires Consistent(g, v, t)
    ensures Shape(g, v) && (CanWrite(g, v, path, len) <==> Writable(g, v, path, len))
  {
    assert Shape(g, v);
    hide PathOf, DirAt, Encode83, Stat, DirEnts, Consistent, Find, FreeCount, Claims, Wanted, Undotted, Shape, IsDir;
    if PathOf(path).Some? && PathOf(path).value != [] {
      var p := PathOf(path).value;
      var par, leaf := p[..|p| - 1], p[|p| - 1];
      if DirAt(v, g.root, par).Some? && Encode83(leaf).Some? {
        AimMeans(g, v, t, par, leaf, DirAt(v, g.root, par).value, Encode83(leaf).value, len);
      }
    }
  }

  /**
   * A file already there, of any length, can be replaced as soon as the clusters for the new bytes are
   * free, in the root or below it.
   */
  lemma {:induction false} CanReplace(g: Geo, v: Vol, t: Layout, path: Str, par: seq<Str>, leaf: Str, len: nat)
    requires Consistent(g, v, t) && PathOf(path) == Some(par + [leaf]) && Encode83(leaf).Some?
    requires Stat(v, g.root, par + [Undotted(leaf)]).Some? && Stat(v, g.root, par + [Undotted(leaf)]) != Some(DirObj)
    ensures Shape(g, v) && (CanWrite(g, v, path, len) <==> Need(g.spc, len) <= FreeCount(v.fat))
  {
    CanWriteMeans(g, v, t, path, len);
    hide PathOf, Encode83, Stat, Consistent, Need, FreeCount, Undotted, DirEnts, DirAt, CanWrite;
    var p := par + [leaf];
    assert p[..|p| - 1] == par;
    DirAtSnoc(v, g.root, par, Undotted(leaf));
  }

  // ----- names

  const LOWER: string := "abcdefghijklmnopqrstuvwxyz"
  const UPPER: string := "ABCDEFGHIJKLMNOPQRSTUVWXYZ"

  /** Upper case is that of the twenty-six letters, and no other byte changes. */
  lemma {:induction false} LettersMean(c: byte)
    ensures (exists i :: 0 <= i < 26 && c == LOWER[i] as int && Up(c) == UPPER[i] as int)
            || (Up(c) == c && forall i :: 0 <= i < 26 ==> c != LOWER[i] as int)
  {
    assert forall i :: 0 <= i < 26 ==> LOWER[i] as int == 97 + i && UPPER[i] as int == 65 + i;
    if 97 <= c <= 122 {
      assert c == LOWER[c - 97] as int;
    }
  }

  /** The characters of a new name: letters of either case, digits, '_' and '-'. */
  lemma {:induction false} LegalMeans(c: byte)
    ensures Legal(c) <==> c as char in LOWER || c as char in UPPER || c as char in "0123456789_-"
  {
    assert forall i :: 0 <= i < 26 ==> LOWER[i] as int == 97 + i && UPPER[i] as int == 65 + i;
    var digits := "0123456789_-";
    assert forall i :: 0 <= i < 10 ==> digits[i] as int == 48 + i;
    if 97 <= c <= 122 {
      assert c as char == LOWER[c - 97];
    } else if 65 <= c <= 90 {
      assert c as char == UPPER[c - 65];
    } else if 48 <= c <= 57 {
      assert c as char == digits[c - 48];
    } else if c == 95 || c == 45 {
      assert c as char == digits[if c == 95 then 10 else 11];
    }
  }

  /** `b` and `x` are a base of one to eight and an extension of at most three such characters. */
  ghost predicate Fields(s: Str, b: Str, x: Str) {
    && (s == b + [46] + x || (s == b && x == []))
    && 1 <= |b| <= 8 && |x| <= 3 && AllLegal(b) && AllLegal(x)
  }

  /** The encoded form: both fields in upper case, filled up to eight and three with spaces. */
  lemma {:induction false} EncodeMeans(s: Str, b: Str, x: Str)
    requires Fields(s, b, x)
    ensures Encode83(s) == Some(Upper(b) + seq(8 - |b|, _ => 32) + Upper(x) + seq(3 - |x|, _ => 32))
  {
    assert 46 !in b && !Legal(46);
    IndexIs(s, DOT, |b|);
    assert Base(s) == b && Ext(s) == x;
    var sb: Str, sx: Str := seq(8 - |b|, _ => 32), seq(3 - |x|, _ => 32);
    assert Spaces(8 - |b|) == sb && Spaces(3 - |x|) == sx;
    assert Upper(b) + sb + Upper(x) + sx == (Upper(b) + sb) + (Upper(x) + sx);
  }

  lemma {:induction false} EncodedHasFields(s: Str)
    requires Encode83(s).Some?
    ensures Fields(s, Base(s), Ext(s))
  {
    hide AllLegal;
    if Index(s, DOT) < |s| { assert s == Base(s) + [46] + Ext(s); }
  }

  /** Every other name is refused. */
  lemma {:induction false} EncodeRefuses(s: Str)
    ensures Encode83(s).None? <==> forall b, x :: !Fields(s, b, x)
  {
    hide Fields, Encode83, Base, Ext, Upper;
    if b, x :| Fields(s, b, x) {
      EncodeMeans(s, b, x);
    }
    if Encode83(s).Some? {
      EncodedHasFields(s);
      assert Fields(s, Base(s), Ext(s));
    }
  }

  /** A reader never finds a directory's entries for itself and its parent. */
  lemma {:induction false} DotsHidden(v: Vol, d: nat)
    ensures Stat(v, d, [[46]]) == None && Stat(v, d, [[46, 46]]) == None
  {
    hide NameOf, DirEnts;
    assert Up(46) == 46 && Upper([46]) == [46] && Upper([46, 46]) == [46, 46];
    assert Step(v, d, [46]) == None && Step(v, d, [46, 46]) == None;
    StatOne(v, d, [46]);
    StatOne(v, d, [46, 46]);
  }

  // ----- entries

  /** The attribute byte of an entry in use: files and directories are listed, labels and long names are not. */
  lemma {:induction false} AttributesMean(e: Entry)
    ensures Listed(e) && !IsDir(e) <==> e[0] != 0 && e[0] != 0xE5 && e[11] as bv8 & 0x18 == 0
    ensures Listed(e) && IsDir(e) <==> e[0] != 0 && e[0] != 0xE5 && e[11] as bv8 & 0x18 == 0x10
  {
  }

  /** The cluster lies in bytes 26, 27, 20 and 21, the size in bytes 28 to 31. */
  lemma {:induction false} FieldsOfEntry(e: Entry)
    ensures ClusOf(e) == Little(e, 26, 2) + 0x1_0000 * Little(e, 20, 2)
    ensures SizeOf(e) == Little(e, 28, 4)
  {
    hide Little, Rd16, Rd32;
    WordsAreLittle(e, 20);
    WordsAreLittle(e, 26);
    WordsAreLittle(e, 28);
  }

  /** What is stored of a new file, byte for byte: a plain file, dated the first day of 1980. */
  lemma {:induction false} NewEntryMeans(n: Name83, clus: nat, size: nat)
    requires clus < 0x1_0000_0000 && size < 0x1_0000_0000
    ensures var e := NewEntry(n, clus, size);
            && e[..11] == n && e[11] == 0x20 && e[12..20] == [0, 0, 0, 0, 0, 0, 0, 0]
            && Little(e, 22, 2) == 0x21 && Little(e, 24, 2) == 0x21
            && Little(e, 26, 2) + 0x1_0000 * Little(e, 20, 2) == clus && Little(e, 28, 4) == size
  {
    var e := NewEntry(n, clus, size);
    NewEntryReads(n, clus, size);
    FieldsOfEntry(e);
    LittleTwo(e, 22);
    LittleTwo(e, 24);
  }

  // ----- chains

  /** A chain follows the low 28 bits of the entries from its first cluster to an end mark. */
  lemma {:induction false} ChainMeans(fat: seq<nat>, c: nat, ch: seq<nat>)
    requires ch != []
    ensures IsChain(fat, c, ch) <==>
            && ch[0] == c && (forall i :: 0 <= i < |ch| ==> 2 <= ch[i] < |fat| && ch[i] < 0x0FFF_FFF8)
            && (forall i :: 1 <= i < |ch| ==> fat[ch[i - 1]] % 0x1000_0000 == ch[i])
            && fat[ch[|ch| - 1]] % 0x1000_0000 >= 0x0FFF_FFF8
    decreases |ch|
  {
    if ch[0] == c && 2 <= c < |fat| && c < 0x0FFF_FFF8 && |ch| > 1 {
      var next, rest := Link(fat, c), ch[1..];
      ChainMeans(fat, next, rest);
      assert forall i :: 1 <= i < |ch| ==> ch[i] == rest[i - 1];
      if IsChain(fat, c, ch) {
        forall i | 0 <= i < |ch| ensures 2 <= ch[i] < |fat| && ch[i] < 0x0FFF_FFF8 {
          if i > 0 { assert ch[i] == rest[i - 1]; }
        }
        forall i | 1 <= i < |ch| ensures fat[ch[i - 1]] % 0x1000_0000 == ch[i] {
          if i > 1 { assert fat[rest[i - 2]] % 0x1000_0000 == rest[i - 1]; }
        }
      }
    }
  }

  /** The free clusters of the table. */
  ghost function FreeSet(fat: seq<nat>, n: nat): set<nat>
    requires n <= |fat|
  {
    set c: nat | 2 <= c < n && fat[c] == 0
  }

  lemma {:induction false} ZerosSnoc(s: seq<nat>, x: nat)
    ensures Zeros(s + [x]) == Zeros(s) + if x == 0 then 1 else 0
    decreases |s|
  {
    if s == [] {
      assert s + [x] == [x] && [x][1..] == [];
    } else {
      ZerosSnoc(s[1..], x);
      assert (s + [x])[1..] == s[1..] + [x];
    }
  }

  lemma {:induction false} FreeBelow(fat: seq<nat>, n: nat)
    requires 2 <= n <= |fat|
    ensures |FreeSet(fat, n)| == Zeros(fat[2..n])
    decreases n
  {
    if n == 2 {
      assert FreeSet(fat, n) == {};
    } else {
      FreeBelow(fat, n - 1);
      ZerosSnoc(fat[2..n - 1], fat[n - 1]);
      assert fat[2..n] == fat[2..n - 1] + [fat[n - 1]];
      if fat[n - 1] == 0 {
        assert FreeSet(fat, n) == FreeSet(fat, n - 1) + {n - 1};
      } else {
        assert FreeSet(fat, n) == FreeSet(fat, n - 1);
      }
    }
  }

  /** The free count is the number of clusters from 2 on whose entry is zero. */
  lemma {:induction false} FreeCountMeans(fat: seq<nat>)
    requires 2 <= |fat|
    ensures FreeCount(fat) == |set c: nat | 2 <= c < |fat| && fat[c] == 0|
  {
    FreeBelow(fat, |fat|);
    assert fat[2..|fat|] == fat[2..];
  }

  // ----- where things lie on the disk

  /** Every entry of a FAT copy is a 32-bit word of that copy's sectors, and a cluster's sectors lie together. */
  lemma {:induction false} DiskMeans(g: Geo, d: Disk, c: nat, k: nat, s: nat)
    requires GeoOk(g, |d|) && 2 <= c < g.fatSz * 128 && k < g.nfats && s < g.spc
    ensures 0 <= g.fatStart + k * g.fatSz + c / 128 < |d| && 0 <= g.dataStart + (c - 2) * g.spc + s < |d|
    ensures FatCopy(g, d, k)[c] == Little(d[g.fatStart + k * g.fatSz + c / 128], 4 * (c % 128), 4)
    ensures VolOf(g, d).fat == FatCopy(g, d, 0)
    ensures VolOf(g, d).clus[c][s] == d[g.dataStart + (c - 2) * g.spc + s]
  {
    hide Little, Rd32, Rd64, Rd16;
    FatLbaBounds(g, |d|, k, c);
    ClusLbaBounds(g, |d|, c);
    WordsAreLittle(d[FatLba(g, k, c)], 4 * (c % 128));
  }

  /** Byte `j` of sector `k` of a run of sectors, and entry `i` of it. */
  lemma {:induction false} RunMeans(secs: seq<Sector>, k: nat, j: nat, i: nat)
    requires k < |secs| && j < 512 && i < 16
    ensures Flat(secs)[512 * k + j] == secs[k][j]
    ensures Ents(secs)[16 * k + i] == secs[k][32 * i..32 * i + 32]
    decreases k
  {
    if k > 0 {
      RunMeans(secs[1..], k - 1, j, i);
      assert Flat(secs)[512 * k + j] == Flat(secs[1..])[512 * (k - 1) + j];
      assert Ents(secs)[16 * k + i] == Ents(secs[1..])[16 * (k - 1) + i];
    }
  }

  /** The contents of a chain are the sectors of its clusters, in the order of the chain. */
  lemma {:induction false} ContentMeans(g: Geo, v: Vol, ch: seq<nat>, k: nat, s: nat)
    requires Shape(g, v) && InTable(ch, |v.fat|) && k < |ch| && s < g.spc
    ensures 0 <= k * g.spc + s < |Content(v, ch)| == |ch| * g.spc
    ensures Content(v, ch)[k * g.spc + s] == v.clus[ch[k]][s]
    decreases |ch|
  {
    var row, rest := v.clus[ch[0]], ch[1..];
    FirstCluster(g, v, ch);
    assert |ch| * g.spc == g.spc + |rest| * g.spc;
    if k > 0 {
      assert k * g.spc == g.spc + (k - 1) * g.spc;
      ContentMeans(g, v, rest, k - 1, s);
    } else {
      ContentSize(g, v, rest);
    }
  }

  lemma {:induction false} ContentSize(g: Geo, v: Vol, ch: seq<nat>)
    requires Shape(g, v) && InTable(ch, |v.fat|)
    ensures |Content(v, ch)| == |ch| * g.spc
    decreases |ch|
  {
    if ch != [] {
      FirstCluster(g, v, ch);
      ContentSize(g, v, ch[1..]);
      assert |ch| * g.spc == g.spc + |ch[1..]| * g.spc;
    }
  }
}
