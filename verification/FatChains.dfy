/** Cluster chains in a FAT: linked lists held in an array, ended by a value at or above EOC. */
module FatChains {
  import opened Bytes

  const EOC: nat := 0x0FFF_FFF8
  const LAST: nat := 0x0FFF_FFFF

  /** The link held in entry `c`; the top four bits of a FAT32 entry are not part of it. */
  function Link(fat: seq<nat>, c: nat): nat
    requires c < |fat|
  {
    fat[c] % 0x1000_0000
  }

  /** `ch` is the whole chain starting at cluster `c`. */
  ghost predicate IsChain(fat: seq<nat>, c: nat, ch: seq<nat>)
    decreases |ch|
  {
    if ch == [] then c >= EOC
    else ch[0] == c && 2 <= c < |fat| && c < EOC && IsChain(fat, Link(fat, c), ch[1..])
  }

  ghost predicate Disjoint(a: seq<nat>, b: seq<nat>) {
    forall x :: x in a ==> x !in b
  }

  lemma {:induction false} ChainHead(fat: seq<nat>, c: nat, ch: seq<nat>)
    requires IsChain(fat, c, ch) && c < EOC
    ensures ch != [] && ch[0] == c && 2 <= c < |fat| && IsChain(fat, Link(fat, c), ch[1..])
  {
  }

  lemma {:induction false} ChainEnd(fat: seq<nat>, c: nat, ch: seq<nat>)
    requires IsChain(fat, c, ch) && c >= EOC
    ensures ch == []
  {
  }

  lemma {:induction false} ChainUnique(fat: seq<nat>, c: nat, a: seq<nat>, b: seq<nat>)
    requires IsChain(fat, c, a) && IsChain(fat, c, b)
    ensures a == b
    decreases |a|
  {
    if a != [] && b != [] {
      ChainUnique(fat, Link(fat, c), a[1..], b[1..]);
      assert a == [a[0]] + a[1..] && b == [b[0]] + b[1..];
    }
  }

  lemma {:induction false} ChainInRange(fat: seq<nat>, c: nat, ch: seq<nat>)
    requires IsChain(fat, c, ch)
    ensures forall x :: x in ch ==> 2 <= x < |fat| && x < EOC && fat[x] != 0
    decreases |ch|
  {
    if ch != [] {
      ChainInRange(fat, Link(fat, c), ch[1..]);
      assert Link(fat, c) != 0;
      assert ch == [c] + ch[1..];
    }
  }

  lemma {:induction false} ChainSuffix(fat: seq<nat>, c: nat, ch: seq<nat>, k: nat)
    requires IsChain(fat, c, ch) && k < |ch|
    ensures IsChain(fat, ch[k], ch[k..])
    decreases |ch|
  {
    if k > 0 {
      ChainSuffix(fat, Link(fat, c), ch[1..], k - 1);
      assert ch[1..][k - 1..] == ch[k..];
    }
  }

  /** A chain that ends never visits a cluster twice. */
  lemma {:induction false} ChainNoRepeat(fat: seq<nat>, c: nat, ch: seq<nat>)
    requires IsChain(fat, c, ch)
    ensures forall i, j :: 0 <= i < j < |ch| ==> ch[i] != ch[j]
  {
    forall i, j | 0 <= i < j < |ch| ensures ch[i] != ch[j] {
      ChainSuffix(fat, c, ch, i);
      ChainSuffix(fat, c, ch, j);
      if ch[i] == ch[j] {
        ChainUnique(fat, ch[i], ch[i..], ch[j..]);
      }
    }
  }

  lemma {:induction false} ChainFrame(f: seq<nat>, g: seq<nat>, c: nat, ch: seq<nat>)
    requires IsChain(f, c, ch) && |f| == |g|
    requires forall x :: x in ch && x < |f| ==> f[x] == g[x]
    ensures IsChain(g, c, ch)
    decreases |ch|
  {
    if ch != [] {
      ChainFrame(f, g, Link(f, c), ch[1..]);
    }
  }

  /** Linking a fresh end-marked cluster behind the last one extends the chain by it. */
  lemma {:induction false} ChainAppend(f: seq<nat>, g: seq<nat>, c: nat, ch: seq<nat>, n: nat)
    requires IsChain(f, c, ch) && ch != [] && n !in ch && |f| == |g|
    requires 2 <= n < |f| && n < EOC && g[n] == LAST
    requires forall x :: x == ch[|ch| - 1] && x < |g| ==> g[x] == n
    requires forall x :: x in ch && x != ch[|ch| - 1] && x < |f| ==> f[x] == g[x]
    requires forall i, j :: 0 <= i < j < |ch| ==> ch[i] != ch[j]
    ensures IsChain(g, c, ch + [n])
    decreases |ch|
  {
    if |ch| == 1 {
      assert (ch + [n])[1..] == [n];
      assert Link(g, n) == LAST;
      assert IsChain(g, n, [n]);
    } else {
      assert ch[0] in ch && ch[0] != ch[|ch| - 1];
      ChainAppend(f, g, Link(f, c), ch[1..], n);
      assert (ch + [n])[1..] == ch[1..] + [n];
    }
  }

  /** The chain from `c`, when it ends. */
  ghost function ChainOf(fat: seq<nat>, c: nat): (r: Option<seq<nat>>)
    ensures r.Some? ==> IsChain(fat, c, r.value)
  {
    if exists ch :: IsChain(fat, c, ch) then
      var ch :| IsChain(fat, c, ch);
      Some(ch)
    else
      None
  }

  lemma {:induction false} ChainOfIs(fat: seq<nat>, c: nat, ch: seq<nat>)
    requires IsChain(fat, c, ch)
    ensures ChainOf(fat, c) == Some(ch)
  {
    ChainUnique(fat, c, ch, ChainOf(fat, c).value);
  }

  // ----- what freeing a chain does

  /** Number of zero entries. */
  function Zeros(s: seq<nat>): (r: nat)
    ensures r <= |s|
  {
    if s == [] then 0 else (if s[0] == 0 then 1 else 0) + Zeros(s[1..])
  }

  lemma {:induction false} ZerosUpdate(s: seq<nat>, i: nat, v: nat)
    requires i < |s|
    ensures Zeros(s[i := v]) == Zeros(s) + (if v == 0 then 1 else 0) - (if s[i] == 0 then 1 else 0)
    decreases |s|
  {
    if i == 0 {
      assert s[i := v][1..] == s[1..];
    } else {
      ZerosUpdate(s[1..], i - 1, v);
      assert s[i := v][1..] == s[1..][i - 1 := v];
    }
  }

  lemma {:induction false} ZerosNone(s: seq<nat>)
    ensures Zeros(s) == 0 <==> forall i :: 0 <= i < |s| ==> s[i] != 0
    decreases |s|
  {
    if s != [] {
      ZerosNone(s[1..]);
      assert forall i :: 0 < i < |s| ==> s[i] == s[1..][i - 1];
    }
  }

  /** Free clusters: zero entries from cluster 2 on. */
  function FreeCount(fat: seq<nat>): nat
    requires |fat| >= 2
  {
    Zeros(fat[2..])
  }

  lemma {:induction false} FreeCountUpdate(fat: seq<nat>, c: nat, v: nat)
    requires 2 <= c < |fat|
    ensures FreeCount(fat[c := v]) ==
            FreeCount(fat) + (if v == 0 then 1 else 0) - (if fat[c] == 0 then 1 else 0)
  {
    ZerosUpdate(fat[2..], c - 2, v);
    assert fat[c := v][2..] == fat[2..][c - 2 := v];
  }

  lemma {:induction false} FreeCountNone(fat: seq<nat>)
    requires |fat| >= 2
    ensures FreeCount(fat) == 0 <==> forall c :: 2 <= c < |fat| ==> fat[c] != 0
  {
    ZerosNone(fat[2..]);
    if FreeCount(fat) == 0 {
      forall c | 2 <= c < |fat| ensures fat[c] != 0 {
        assert fat[2..][c - 2] != 0;
      }
    }
  }

  /** Every link stays inside the table or ends a chain. */
  ghost predicate LinksInRange(fat: seq<nat>) {
    forall c :: 2 <= c < |fat| ==> Link(fat, c) < |fat| || Link(fat, c) >= EOC
  }

  /** Clearing entry after entry along the links from `c` never leaves the table. */
  ghost predicate StaysInRange(fat: seq<nat>, c: nat)
    decreases |fat| - Zeros(fat), if 2 <= c then 1 else 0
  {
    2 <= c < EOC ==>
      c < |fat| && (ZerosUpdate(fat, c, 0); StaysInRange(fat[c := 0], Link(fat, c)))
  }

  /** The table after clearing entry after entry along the links from `c`. */
  ghost function Freed(fat: seq<nat>, c: nat): (r: seq<nat>)
    requires StaysInRange(fat, c)
    ensures |r| == |fat|
    decreases |fat| - Zeros(fat), if 2 <= c then 1 else 0
  {
    if 2 <= c < EOC then
      ZerosUpdate(fat, c, 0);
      Freed(fat[c := 0], Link(fat, c))
    else
      fat
  }

  /** In-range links are enough to free any chain, even one that runs into a cycle. */
  lemma {:induction false} InRangeStays(fat: seq<nat>, c: nat)
    requires LinksInRange(fat) && (c < |fat| || c >= EOC)
    ensures StaysInRange(fat, c)
    decreases |fat| - Zeros(fat), if 2 <= c then 1 else 0
  {
    if 2 <= c < EOC {
      var f := fat[c := 0];
      ZerosUpdate(fat, c, 0);
      forall x | 2 <= x < |f| ensures Link(f, x) < |f| || Link(f, x) >= EOC {
        assert Link(fat, x) < |fat| || Link(fat, x) >= EOC;
      }
      InRangeStays(f, Link(fat, c));
    }
  }

  /** On a chain that ends, exactly its clusters are cleared. */
  lemma {:induction false} FreedChain(fat: seq<nat>, c: nat, ch: seq<nat>)
    requires 2 <= |fat| && IsChain(fat, c, ch)
    ensures StaysInRange(fat, c)
    ensures forall x :: 0 <= x < |fat| ==> Freed(fat, c)[x] == if x in ch then 0 else fat[x]
    ensures FreeCount(Freed(fat, c)) == FreeCount(fat) + |ch|
    decreases |ch|
  {
    if ch != [] {
      ChainNoRepeat(fat, c, ch);
      ChainInRange(fat, c, ch);
      assert c !in ch[1..];
      ChainFrame(fat, fat[c := 0], Link(fat, c), ch[1..]);
      FreeCountUpdate(fat, c, 0);
      FreedChain(fat[c := 0], Link(fat, c), ch[1..]);
      assert ch == [c] + ch[1..];
    }
  }
}
