/** The frame bitmap: one bit a frame, set when the frame is in use. */
module Frames {

  const FRAME: nat := 0x1000
  const MAX_PHYS: nat := 0x4000_0000
  const TOTAL: nat := 0x4_0000

  /** `1 << k` for a bit position in a byte. */
  function Mask(k: nat): (m: bv8)
    requires k < 8
    ensures m != 0
  {
    if k == 0 then 1 else if k == 1 then 2 else if k == 2 then 4 else if k == 3 then 8
    else if k == 4 then 16 else if k == 5 then 32 else if k == 6 then 64 else 128
  }

  predicate Bit(b: bv8, k: nat)
    requires k < 8
  {
    b & Mask(k) != 0
  }

  lemma BitSet(b: bv8, k: nat, j: nat)
    requires k < 8 && j < 8
    ensures Bit(b | Mask(k), j) <==> j == k || Bit(b, j)
  {
  }

  lemma BitClear(b: bv8, k: nat, j: nat)
    requires k < 8 && j < 8
    ensures Bit(b & !Mask(k), j) <==> j != k && Bit(b, j)
  {
  }

  predicate Used(bm: seq<bv8>, f: nat) {
    f / 8 < |bm| && Bit(bm[f / 8], f % 8)
  }

  /** `bm` with the bit of frame `f` set or cleared. */
  function Marked(bm: seq<bv8>, f: nat, used: bool): (r: seq<bv8>)
    requires f / 8 < |bm|
    ensures |r| == |bm|
  {
    var m := Mask(f % 8);
    bm[f / 8 := if used then bm[f / 8] | m else bm[f / 8] & !m]
  }

  lemma {:induction false} MarkedUsed(bm: seq<bv8>, f: nat, used: bool)
    requires f / 8 < |bm|
    ensures forall g: nat :: g / 8 < |bm| ==> (Used(Marked(bm, f, used), g) <==> if g == f then used else Used(bm, g))
  {
    forall g: nat | g / 8 < |bm|
      ensures Used(Marked(bm, f, used), g) <==> if g == f then used else Used(bm, g)
    {
      if g / 8 == f / 8 {
        BitSet(bm[f / 8], f % 8, g % 8);
        BitClear(bm[f / 8], f % 8, g % 8);
      }
    }
  }

  /** Clear bits among the first `n` frames. */
  function FreeBits(bm: seq<bv8>, n: nat): (r: nat)
    ensures r <= n
  {
    if n == 0 then 0 else FreeBits(bm, n - 1) + if Used(bm, n - 1) then 0 else 1
  }

  lemma {:induction false} FreeBitsMarked(bm: seq<bv8>, f: nat, used: bool, n: nat)
    requires f / 8 < |bm| && n <= 8 * |bm|
    ensures FreeBits(Marked(bm, f, used), n) ==
            FreeBits(bm, n) + if f >= n || Used(bm, f) == used then 0 else if used then -1 else 1
    decreases n
  {
    if n > 0 {
      MarkedUsed(bm, f, used);
      FreeBitsMarked(bm, f, used, n - 1);
    }
  }

  lemma {:induction false} FreeBitsNone(bm: seq<bv8>, n: nat)
    ensures FreeBits(bm, n) == 0 <==> forall f: nat :: f < n ==> Used(bm, f)
    decreases n
  {
    if n > 0 {
      FreeBitsNone(bm, n - 1);
    }
  }

  lemma {:induction false} FreeBitsAll(bm: seq<bv8>, n: nat)
    requires forall f: nat :: f < n ==> Used(bm, f)
    ensures FreeBits(bm, n) == 0
  {
    FreeBitsNone(bm, n);
  }

  /** Frames below `n` in use in `bm` and no longer in `bm'`. */
  ghost function Gone(bm: seq<bv8>, bm': seq<bv8>, n: nat): (r: set<nat>) {
    set f: nat | f < n && Used(bm, f) && !Used(bm', f)
  }

  /** When bits are only cleared, the count rises by the number of frames given back. */
  lemma {:induction false} GivenBack(bm: seq<bv8>, bm': seq<bv8>, n: nat)
    requires forall f: nat :: f < n && Used(bm', f) ==> Used(bm, f)
    ensures FreeBits(bm', n) == FreeBits(bm, n) + |Gone(bm, bm', n)|
    decreases n
  {
    hide Used;
    if n > 0 {
      GivenBack(bm, bm', n - 1);
      assert Gone(bm, bm', n) ==
             Gone(bm, bm', n - 1) + if Used(bm, n - 1) && !Used(bm', n - 1) then {n - 1} else {};
    }
  }

  // ----- the memory map

  /** An entry of the boot loader's memory map; kind 1 is usable memory. */
  datatype Region = Region(addr: nat, len: nat, kind: nat)

  const LOW: nat := 0x10_0000

  /** Frame `f` lies wholly in a usable region, at or above 1 MB and below 1 GB. */
  predicate Usable(r: Region, f: nat) {
    r.kind == 1 && r.addr <= f * FRAME && (f + 1) * FRAME <= r.addr + r.len && LOW <= f * FRAME && f < TOTAL
  }

  predicate UsableIn(rs: seq<Region>, f: nat) {
    exists i :: 0 <= i < |rs| && Usable(rs[i], f)
  }

  ghost predicate NoneShared(rs: seq<Region>) {
    forall i, j, f: nat :: 0 <= i < j < |rs| && Usable(rs[i], f) ==> !Usable(rs[j], f)
  }

  /** Usable frames of region `r` whose bits are clear already. */
  ghost function FreeAlready(bm: seq<bv8>, r: Region): set<nat> {
    set f: nat | f < TOTAL && Usable(r, f) && !Used(bm, f)
  }

  ghost function FreeBetween(bm: seq<bv8>, a: nat, b: nat): set<nat> {
    set f: nat | a <= f < b && !Used(bm, f)
  }

  lemma {:induction false} FreeNone(bm: seq<bv8>, a: nat)
    ensures FreeBetween(bm, a, a) == {}
  {
  }

  lemma {:induction false} FreeOneMore(bm: seq<bv8>, a: nat, b: nat)
    requires a <= b
    ensures |FreeBetween(bm, a, b + 1)| == |FreeBetween(bm, a, b)| + if Used(bm, b) then 0 else 1
  {
    hide Used;
    assert FreeBetween(bm, a, b + 1) == FreeBetween(bm, a, b) + if Used(bm, b) then {} else {b};
  }

  /** Usable frames of entry `i` that an earlier entry lists too. */
  ghost function Shared(rs: seq<Region>, i: nat): set<nat>
    requires i < |rs|
  {
    set f: nat | f < TOTAL && Usable(rs[i], f) && UsableIn(rs[..i], f)
  }

  /** How many frames the first `n` entries list again. */
  ghost function ListedTwice(rs: seq<Region>, n: nat): nat
    requires n <= |rs|
  {
    if n == 0 then 0 else ListedTwice(rs, n - 1) + |Shared(rs, n - 1)|
  }

  lemma {:induction false} NothingTwice(rs: seq<Region>, n: nat)
    requires n <= |rs|
    ensures ListedTwice(rs, n) == 0 <==>
            forall i, j, f: nat :: 0 <= i < j < n && Usable(rs[i], f) ==> !Usable(rs[j], f)
    decreases n
  {
    hide Usable;
    if n > 0 {
      NothingTwice(rs, n - 1);
      SharedEmpty(rs, n - 1);
    }
  }

  lemma {:induction false} SharedEmpty(rs: seq<Region>, k: nat)
    requires k < |rs|
    ensures |Shared(rs, k)| == 0 <==> forall i, f: nat :: 0 <= i < k && Usable(rs[i], f) ==> !Usable(rs[k], f)
  {
    if Shared(rs, k) == {} {
      forall i, f: nat | 0 <= i < k && Usable(rs[i], f) ensures !Usable(rs[k], f) {
        assert Usable(rs[..k][i], f) && UsableIn(rs[..k], f);
        assert f !in Shared(rs, k);
      }
    } else {
      var f :| f in Shared(rs, k);
      var i :| 0 <= i < k && Usable(rs[..k][i], f);
      assert Usable(rs[i], f);
    }
  }

  /** A memory map that lists one frame twice makes the count one too high. */
  lemma {:induction false} CountedTwice()
    ensures var r := Region(LOW, FRAME, 1); !NoneShared([r, r]) && ListedTwice([r, r], 2) == 1
  {
    var r := Region(LOW, FRAME, 1);
    var rs := [r, r];
    var f := LOW / FRAME;
    assert Usable(rs[0], f) && Usable(rs[1], f) && Usable(rs[..1][0], f);
    assert Shared(rs, 0) == {};
    assert Shared(rs, 1) == {f};
    assert ListedTwice(rs, 1) == 0;
  }

  /** Frame `f` holds part of `[start, end)`. */
  predicate Touches(start: nat, end: nat, f: nat) { start / FRAME <= f < (end + FRAME - 1) / FRAME }

  /** The frames touched by a range with a byte in it are those of its bytes. */
  lemma {:induction false} TouchesMeans(start: nat, end: nat, f: nat)
    requires start < end
    ensures Touches(start, end, f) <==> exists b :: start <= b < end && InFrame(b, f)
  {
    if Touches(start, end, f) {
      var b := if start <= f * 0x1000 then f * 0x1000 else start;
      assert start <= b < end && InFrame(b, f);
    }
    if b :| start <= b < end && InFrame(b, f) {
      assert start / 0x1000 <= f;
    }
  }

  predicate InFrame(b: int, f: nat) { b / 0x1000 == f }

  /** Of all memory up to 4 GB the frames from 1 MB to 1 GB are usable, and of no other kind of region any. */
  lemma {:induction false} ManagedMemory(f: nat, kind: nat)
    ensures Usable(Region(0, 0x1_0000_0000, kind), f) <==> kind == 1 && 256 <= f < 0x4_0000
  {
  }

  /** The frames the trimming arithmetic of the boot scan selects are the usable ones. */
  lemma {:induction false} TrimmedRegion(r: Region, s: nat, l: nat, s1: nat, l1: nat, f: nat)
    requires r.kind == 1
    requires if r.addr < LOW then
               (if LOW - r.addr >= r.len then s == r.addr && l == 0 else s == LOW && l == r.len - (LOW - r.addr))
             else s == r.addr && l == r.len
    requires s1 == s
    requires if s + l > MAX_PHYS then (if s >= MAX_PHYS then l1 == 0 else l1 == MAX_PHYS - s) else l1 == l
    ensures Usable(r, f) <==> (s1 + FRAME - 1) / FRAME <= f < (s1 + l1) / FRAME
    ensures (s1 + l1) / FRAME <= TOTAL || l1 == 0
  {
  }
}
