/** Little-endian integers in byte sequences, and the C-string helpers every component shares. */
module Bytes {
  type byte = b: int | 0 <= b < 0x100
  type Str = seq<byte>

  datatype Option<+T> = None | Some(value: T)

  const SPACE: byte := 32
  const DOT: byte := 46
  const SLASH: byte := 47

  function Rd16(s: seq<byte>, o: nat): (r: nat)
    requires o + 2 <= |s|
  {
    s[o] as int + 0x100 * s[o + 1] as int
  }

  function Rd32(s: seq<byte>, o: nat): (r: nat)
    requires o + 4 <= |s|
  {
    s[o] as int + 0x100 * s[o + 1] as int + 0x1_0000 * s[o + 2] as int + 0x100_0000 * s[o + 3] as int
  }

  /** The number in `n` bytes at `o`, the lowest byte first. */
  function Little(s: seq<byte>, o: nat, n: nat): (r: nat)
    requires o + n <= |s|
    decreases n
  {
    if n == 0 then 0 else s[o] as int + 0x100 * Little(s, o + 1, n - 1)
  }

  /** Words of two, four and eight bytes are read lowest byte first. */
  lemma {:induction false} WordsAreLittle(s: seq<byte>, o: nat)
    ensures o + 2 <= |s| ==> Rd16(s, o) == Little(s, o, 2)
    ensures o + 4 <= |s| ==> Rd32(s, o) == Little(s, o, 4)
    ensures o + 8 <= |s| ==> Rd64(s, o) == Little(s, o, 8)
  {
    if o + 2 <= |s| { LittleTwo(s, o); }
    if o + 4 <= |s| { LittleFour(s, o); }
    if o + 8 <= |s| {
      LittleFour(s, o);
      LittleFour(s, o + 4);
      LittleSplit(s, o, 4, 4);
    }
  }

  lemma {:induction false} LittleTwo(s: seq<byte>, o: nat)
    requires o + 2 <= |s|
    ensures Little(s, o, 2) == s[o] as int + 0x100 * s[o + 1] as int
  {
    assert Little(s, o + 2, 0) == 0;
    assert Little(s, o + 1, 1) == s[o + 1] as int;
  }

  lemma {:induction false} LittleFour(s: seq<byte>, o: nat)
    requires o + 4 <= |s|
    ensures Little(s, o, 4) ==
            s[o] as int + 0x100 * s[o + 1] as int + 0x1_0000 * s[o + 2] as int + 0x100_0000 * s[o + 3] as int
  {
    LittleTwo(s, o + 2);
    assert Little(s, o + 1, 3) == s[o + 1] as int + 0x100 * Little(s, o + 2, 2);
  }

  function Shift(n: nat): (p: nat) { if n == 0 then 1 else 0x100 * Shift(n - 1) }

  lemma {:induction false} LittleSplit(s: seq<byte>, o: nat, a: nat, b: nat)
    requires o + a + b <= |s|
    ensures Little(s, o, a + b) == Little(s, o, a) + Shift(a) * Little(s, o + a, b)
    ensures Shift(4) == 0x1_0000_0000
    decreases a
  {
    assert Shift(4) == 0x1_0000_0000 by { assert Shift(1) == 0x100 && Shift(2) == 0x1_0000 && Shift(3) == 0x100_0000; }
    if a > 0 {
      LittleSplit(s, o + 1, a - 1, b);
      var x, y := Little(s, o + 1, a - 1), Little(s, o + a, b);
      assert 0x100 * (x + Shift(a - 1) * y) == 0x100 * x + Shift(a) * y;
    }
  }

  /** `v` in `n` bytes, the lowest first. */
  function Word(v: nat, n: nat): (r: seq<byte>)
    ensures |r| == n
  {
    if n == 0 then [] else [v % 0x100] + Word(v / 0x100, n - 1)
  }

  /** A number that fits is read back from its bytes. */
  lemma {:induction false} WordRead(s: seq<byte>, o: nat, v: nat, n: nat)
    requires o + n <= |s| && s[o..o + n] == Word(v, n) && v < Shift(n)
    ensures Little(s, o, n) == v
    decreases n
  {
    if n > 0 {
      assert s[o] == s[o..o + n][0] == v % 0x100;
      assert s[o + 1..o + n] == s[o..o + n][1..] == Word(v / 0x100, n - 1);
      WordRead(s, o + 1, v / 0x100, n - 1);
    }
  }

  function Le16(v: nat): (r: seq<byte>)
    ensures |r| == 2
  {
    [v % 0x100, v / 0x100 % 0x100]
  }

  function Le32(v: nat): (r: seq<byte>)
    ensures |r| == 4
  {
    [v % 0x100, v / 0x100 % 0x100, v / 0x1_0000 % 0x100, v / 0x100_0000 % 0x100]
  }

  /** Replace the bytes of `s` from `o` on by `bs`. */
  function Patch(s: seq<byte>, o: nat, bs: seq<byte>): (r: seq<byte>)
    requires o + |bs| <= |s|
    ensures |r| == |s|
    ensures forall i :: 0 <= i < |s| ==> r[i] == if o <= i < o + |bs| then bs[i - o] else s[i]
  {
    s[..o] + bs + s[o + |bs|..]
  }

  lemma {:induction false} Le32Value(v: nat)
    requires v < 0x1_0000_0000
    ensures Rd32(Le32(v), 0) == v
  {
    var q1 := v / 0x100;
    var q2 := q1 / 0x100;
    assert v / 0x1_0000 == q2;
    assert v / 0x100_0000 == q2 / 0x100;
  }

  lemma {:induction false} Le16Value(v: nat)
    requires v < 0x1_0000
    ensures Rd16(Le16(v), 0) == v
  {
  }

  /** A stored 32-bit word reads back, and stores elsewhere do not disturb it. */
  lemma {:induction false} PatchedWord(s: seq<byte>, o: nat, v: nat, p: nat)
    requires o + 4 <= |s| && p + 4 <= |s| && v < 0x1_0000_0000
    requires p == o || p + 4 <= o || o + 4 <= p
    ensures Rd32(Patch(s, o, Le32(v)), p) == if p == o then v else Rd32(s, p)
  {
    Le32Value(v);
  }

  lemma {:induction false} PatchAppend(s: seq<byte>, o: nat, a: seq<byte>, b: seq<byte>)
    requires o + |a| + |b| <= |s|
    ensures Patch(Patch(s, o, a), o + |a|, b) == Patch(s, o, a + b)
  {
  }

  function Rd64(s: seq<byte>, o: nat): (r: nat)
    requires o + 8 <= |s|
  {
    Rd32(s, o) + 0x1_0000_0000 * Rd32(s, o + 4)
  }

  function Le64(v: nat): (r: seq<byte>)
    ensures |r| == 8
  {
    Le32(v % 0x1_0000_0000) + Le32(v / 0x1_0000_0000)
  }

  /** A stored 64-bit word reads back, and stores elsewhere do not disturb it. */
  lemma {:induction false} PatchedQuad(s: seq<byte>, o: nat, v: nat, p: nat)
    requires o + 8 <= |s| && p + 8 <= |s| && v < 0x1_0000_0000_0000_0000
    requires p == o || p + 8 <= o || o + 8 <= p
    ensures Rd64(Patch(s, o, Le64(v)), p) == if p == o then v else Rd64(s, p)
  {
    hide Rd32, Le32;
    var lo, hi := v % 0x1_0000_0000, v / 0x1_0000_0000;
    PatchAppend(s, o, Le32(lo), Le32(hi));
    PatchedWord(s, o, lo, p);
    PatchedWord(s, o, lo, p + 4);
    PatchedWord(Patch(s, o, Le32(lo)), o + 4, hi, p);
    PatchedWord(Patch(s, o, Le32(lo)), o + 4, hi, p + 4);
  }

  lemma {:induction false} QuadFrame(s: seq<byte>, t: seq<byte>, o: nat)
    requires |s| == |t| && o + 8 <= |s| && forall k :: o <= k < o + 8 ==> s[k] == t[k]
    ensures Rd64(s, o) == Rd64(t, o)
  {
  }

  // ----- separators in texts of either kind of character

  /** What is left of `s` behind its leading `c`. */
  function Skip<T(==)>(s: seq<T>, c: T): (r: seq<T>)
    ensures |r| <= |s| && (r != [] ==> r[0] != c)
  {
    if s != [] && s[0] == c then Skip(s[1..], c) else s
  }

  lemma {:induction false} SkipFront<T>(a: seq<T>, b: seq<T>, c: T)
    ensures Skip(a + b, c) == if Skip(a, c) != [] then Skip(a, c) + b else Skip(b, c)
    decreases |a|
  {
    if a == [] {
      assert a + b == b;
    } else if a[0] == c {
      assert (a + b)[1..] == a[1..] + b;
      SkipFront(a[1..], b, c);
    } else {
      assert (a + b)[0] == a[0];
    }
  }

  method SkipRun<T(==)>(s: seq<T>, c: T) returns (r: seq<T>)
    ensures r == Skip(s, c)
  {
    r := s;
    while r != [] && r[0] == c
      invariant Skip(r, c) == Skip(s, c)
    {
      r := r[1..];
    }
  }
}
