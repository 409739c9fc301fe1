/** 8.3 names: the encoder, the decoder and the comparison the directory scans use. */
module FatNames {
  import opened Bytes

  type Entry = e: seq<byte> | |e| == 32 witness seq(32, _ => 0)
  type Name83 = n: seq<byte> | |n| == 11 witness seq(11, _ => SPACE)

  function Up(c: byte): byte {
    if 97 <= c <= 122 then c - 32 else c
  }

  function Upper(s: Str): (r: Str)
    ensures |r| == |s|
    ensures forall i :: 0 <= i < |s| ==> r[i] == Up(s[i])
  {
    if s == [] then [] else [Up(s[0])] + Upper(s[1..])
  }

  /** Letters, digits, '_' and '-' are the characters a new name may hold. */
  predicate Legal(c: byte) {
    var u := Up(c);
    65 <= u <= 90 || 48 <= u <= 57 || u == 95 || u == 45
  }

  predicate AllLegal(s: Str) {
    forall i :: 0 <= i < |s| ==> Legal(s[i])
  }

  /** Position of the first `c` in `s`, or the length of `s`. */
  function Index(s: Str, c: byte): (k: nat)
    ensures k <= |s|
    ensures forall i :: 0 <= i < k ==> s[i] != c
    ensures k < |s| ==> s[k] == c
  {
    if s == [] || s[0] == c then 0 else 1 + Index(s[1..], c)
  }

  lemma {:induction false} IndexIs(s: Str, c: byte, k: nat)
    requires k <= |s| && (k < |s| ==> s[k] == c)
    requires forall i :: 0 <= i < k ==> s[i] != c
    ensures Index(s, c) == k
  {
    if k > 0 {
      IndexIs(s[1..], c, k - 1);
    }
  }

  function Trim(s: Str): Str {
    s[..Index(s, SPACE)]
  }

  function Spaces(n: nat): (r: Str)
    ensures |r| == n
    ensures forall i :: 0 <= i < n ==> r[i] == SPACE
  {
    if n == 0 then [] else [SPACE] + Spaces(n - 1)
  }

  function Pad(s: Str, n: nat): (r: Str)
    requires |s| <= n
    ensures |r| == n
  {
    s + Spaces(n - |s|)
  }

  /** Spaces only at the end. */
  predicate Padded(s: Str) {
    forall i, j :: 0 <= i < j < |s| && s[i] == SPACE ==> s[j] == SPACE
  }

  lemma {:induction false} PadTrim(s: Str)
    requires Padded(s)
    ensures Pad(Trim(s), |s|) == s
  {
    var k := Index(s, SPACE);
    forall i | k <= i < |s| ensures s[i] == SPACE {
      assert s[k] == SPACE;
    }
  }

  lemma {:induction false} TrimPad(s: Str, n: nat)
    requires |s| <= n && SPACE !in s
    ensures Padded(Pad(s, n)) && Trim(Pad(s, n)) == s
  {
    IndexIs(Pad(s, n), SPACE, |s|);
  }

  function Base(s: Str): Str {
    s[..Index(s, DOT)]
  }

  function Ext(s: Str): Str {
    var d := Index(s, DOT);
    if d < |s| then s[d + 1..] else []
  }

  /** The upper-cased, padded form of a name, when the writer accepts it. */
  function Encode83(s: Str): Option<Name83> {
    if 1 <= |Base(s)| <= 8 && |Ext(s)| <= 3 && AllLegal(Base(s)) && AllLegal(Ext(s)) then
      Some(Pad(Upper(Base(s)), 8) + Pad(Upper(Ext(s)), 3))
    else
      None
  }

  /** The text form of the 11 name bytes at the front of `e`. */
  function NameOf(e: seq<byte>): Str
    requires |e| >= 11
  {
    Trim(e[..8]) + if e[8] != SPACE then [DOT] + Trim(e[8..11]) else []
  }

  predicate EndsWithDot(s: Str) {
    s != [] && s[|s| - 1] == DOT
  }

  /** Space padding only at the end of each field, no dot and no NUL inside. */
  predicate WellNamed(e: seq<byte>)
    requires |e| >= 11
  {
    Padded(e[..8]) && Padded(e[8..11]) && forall i :: 0 <= i < 11 ==> e[i] != DOT && e[i] != 0
  }

  lemma {:induction false} LegalIsPlain(s: Str)
    requires AllLegal(s)
    ensures SPACE !in Upper(s) && DOT !in Upper(s) && 0 !in Upper(s)
    ensures forall i :: 0 <= i < |s| ==> Upper(s)[i] < 0x80 && s[i] != DOT
  {
  }

  /** What the name without its trailing dot looks like, and why the dot does not matter. */
  function Undotted(s: Str): Str {
    if EndsWithDot(s) then s[..|s| - 1] else s
  }

  lemma {:induction false} PartsLegal(s: Str)
    requires Encode83(s).Some?
    ensures AllLegal(Base(s)) && AllLegal(Ext(s)) && Base(s) != []
  {
  }

  lemma {:induction false} TrailingDot(s: Str)
    requires AllLegal(Base(s)) && AllLegal(Ext(s)) && Base(s) != []
    ensures EndsWithDot(s) <==> Ext(s) == [] && Index(s, DOT) < |s|
  {
    if Ext(s) != [] {
      assert Legal(Ext(s)[|Ext(s)| - 1]);
    }
  }

  lemma {:induction false} UndottedParts(s: Str)
    requires Encode83(s).Some?
    ensures Undotted(s) == if Ext(s) == [] then Base(s) else Base(s) + [DOT] + Ext(s)
    ensures Base(Undotted(s)) == Base(s) && Ext(Undotted(s)) == Ext(s)
    ensures !EndsWithDot(Undotted(s))
  {
    hide Index, AllLegal, Encode83;
    PartsLegal(s);
    TrailingDot(s);
    var d := Index(s, DOT);
    var u := Undotted(s);
    IndexIs(u, DOT, d);
    if Ext(s) == [] {
      assert u == Base(s);
      assert u[|u| - 1] == s[d - 1];
    } else {
      assert u == s;
    }
  }

  /** The two padded fields of an encoded name. */
  lemma {:induction false} EncodedFields(s: Str)
    requires Encode83(s).Some?
    ensures var n := Encode83(s).value;
            && n[..8] == Pad(Upper(Base(s)), 8) && n[8..11] == Pad(Upper(Ext(s)), 3)
            && WellNamed(n) && n[0] != SPACE
            && Trim(n[..8]) == Upper(Base(s)) && Trim(n[8..11]) == Upper(Ext(s))
            && (n[8] == SPACE <==> Ext(s) == [])
            && forall i :: 0 <= i < 11 ==> n[i] < 0x80
  {
    var n := Encode83(s).value;
    LegalIsPlain(Base(s));
    LegalIsPlain(Ext(s));
    TrimPad(Upper(Base(s)), 8);
    TrimPad(Upper(Ext(s)), 3);
    assert n[..8] == Pad(Upper(Base(s)), 8) && n[8..11] == Pad(Upper(Ext(s)), 3);
    assert forall i :: 0 <= i < 8 ==> n[i] == Pad(Upper(Base(s)), 8)[i];
    assert forall i :: 8 <= i < 11 ==> n[i] == Pad(Upper(Ext(s)), 3)[i - 8];
  }

  lemma UpperConcat(s: Str, t: Str)
    ensures Upper(s + t) == Upper(s) + Upper(t)
  {
  }

  lemma {:induction false} NameOfFields(e: seq<byte>, b: Str, x: Str)
    requires |e| >= 11 && Trim(e[..8]) == b && Trim(e[8..11]) == x && (e[8] == SPACE <==> x == [])
    ensures NameOf(e) == if x == [] then b else b + [DOT] + x
  {
    assert b + [] == b;
    assert b + [DOT] + x == b + ([DOT] + x);
  }

  lemma {:induction false} UpperJoined(b: Str, x: Str)
    ensures Upper(b + [DOT] + x) == Upper(b) + [DOT] + Upper(x)
  {
    UpperConcat(b + [DOT], x);
    UpperConcat(b, [DOT]);
  }

  /** The decoder undoes the encoder, except that a trailing dot is lost. */
  lemma {:induction false} EncodedNameReads(s: Str)
    requires Encode83(s).Some?
    ensures NameOf(Encode83(s).value) == Upper(Undotted(s))
  {
    EncodedFields(s);
    NameOfFields(Encode83(s).value, Upper(Base(s)), Upper(Ext(s)));
    UndottedParts(s);
    UpperJoined(Base(s), Ext(s));
  }

  /** The first dot in the text is the one between the fields. */
  lemma {:induction false} FieldsOfText(e: seq<byte>)
    requires |e| >= 11 && WellNamed(e)
    ensures var s := NameOf(e);
            && Trim(e[..8]) == s[..Index(s, DOT)]
            && Trim(e[8..11]) == if Index(s, DOT) < |s| then s[Index(s, DOT) + 1..] else []
  {
    var a := Trim(e[..8]);
    assert forall i :: 0 <= i < |a| ==> a[i] == e[i];
    IndexIs(NameOf(e), DOT, |a|);
    if e[8] == SPACE {
      IndexIs(e[8..11], SPACE, 0);
      assert NameOf(e) == a && a[..|a|] == a;
    } else {
      var b := Trim(e[8..11]);
      assert NameOf(e) == a + ([DOT] + b);
      assert (a + ([DOT] + b))[|a| + 1..] == b;
    }
  }

  /** Two well-formed entries with the same text form have the same bytes. */
  lemma {:induction false} NameOfInjective(e: seq<byte>, f: seq<byte>)
    requires |e| >= 11 && |f| >= 11 && WellNamed(e) && WellNamed(f)
    requires NameOf(e) == NameOf(f)
    ensures e[..11] == f[..11]
  {
    hide NameOf, Index, Trim;
    FieldsOfText(e);
    FieldsOfText(f);
    PadTrim(e[..8]);
    PadTrim(f[..8]);
    PadTrim(e[8..11]);
    PadTrim(f[8..11]);
    assert e[..11] == e[..8] + e[8..11];
    assert f[..11] == f[..8] + f[8..11];
  }

  lemma {:induction false} TextEndsPlain(e: seq<byte>)
    requires |e| >= 11 && WellNamed(e)
    ensures !EndsWithDot(NameOf(e))
  {
    var a, x := Trim(e[..8]), Trim(e[8..11]);
    assert forall i :: 0 <= i < |a| ==> a[i] == e[i];
    assert forall i :: 0 <= i < |x| ==> x[i] == e[8 + i];
    if e[8] != SPACE {
      assert |x| > 0;
      assert NameOf(e)[|NameOf(e)| - 1] == x[|x| - 1];
    } else if |a| > 0 {
      assert NameOf(e)[|NameOf(e)| - 1] == a[|a| - 1];
    }
  }

  /**
   * The path walk compares text, the writer compares 11 bytes.  On a well-formed entry they agree
   * on every accepted name exactly when that name does not end in a dot.
   */
  lemma {:induction false} CodecsAgree(e: seq<byte>, s: Str)
    requires |e| >= 11 && WellNamed(e) && Encode83(s).Some?
    ensures NameOf(e) == Upper(s) <==> e[..11] == Encode83(s).value && !EndsWithDot(s)
  {
    hide Index, Padded, Upper, Trim, Pad, AllLegal;
    var n := Encode83(s).value;
    EncodedNameReads(s);
    TextEndsPlain(e);
    if EndsWithDot(s) {
      UpperDot(s);
    } else if NameOf(e) == Upper(s) {
      assert WellNamed(n) by { EncodedFields(s); }
      NameOfInjective(e, n);
      assert n[..11] == n;
    } else if e[..11] == n {
      NameOfPrefix(e);
    }
  }

  lemma {:induction false} NameOfPrefix(e: seq<byte>)
    requires |e| >= 11
    ensures NameOf(e) == NameOf(e[..11])
  {
    assert e[..11][..8] == e[..8] && e[..11][8..11] == e[8..11];
  }

  lemma {:induction false} UpperDot(s: Str)
    requires EndsWithDot(s)
    ensures EndsWithDot(Upper(s))
  {
  }

  /** Encoding ignores case. */
  lemma {:induction false} EncodeIgnoresCase(s: Str, t: Str)
    requires Upper(s) == Upper(t)
    ensures Encode83(s) == Encode83(t)
  {
    assert Upper(Base(s)) == Upper(Base(t)) && Upper(Ext(s)) == Upper(Ext(t)) by { FieldsIgnoreCase(s, t); }
    hide Base, Ext, Upper, Pad, AllLegal;
    SameLegal(Base(s), Base(t));
    SameLegal(Ext(s), Ext(t));
  }

  lemma {:induction false} UpperSlice(s: Str, a: nat, b: nat)
    requires a <= b <= |s|
    ensures Upper(s[a..b]) == Upper(s)[a..b]
  {
    hide Upper;
  }

  lemma {:induction false} FieldsIgnoreCase(s: Str, t: Str)
    requires Upper(s) == Upper(t)
    ensures Upper(Base(s)) == Upper(Base(t)) && Upper(Ext(s)) == Upper(Ext(t))
  {
    hide Upper;
    var d := Index(s, DOT);
    assert |s| == |t|;
    assert forall i :: 0 <= i < |s| ==> Up(s[i]) == Upper(s)[i] == Upper(t)[i] == Up(t[i]);
    IndexIs(t, DOT, d);
    hide Index;
    UpperSlice(s, 0, d);
    UpperSlice(t, 0, d);
    if d < |s| {
      UpperSlice(s, d + 1, |s|);
      UpperSlice(t, d + 1, |t|);
    }
  }

  lemma {:induction false} SameLegal(s: Str, t: Str)
    requires Upper(s) == Upper(t)
    ensures AllLegal(s) <==> AllLegal(t)
  {
    assert |s| == |t|;
    assert forall i :: 0 <= i < |s| ==> Up(s[i]) == Upper(s)[i] == Upper(t)[i] == Up(t[i]);
  }

  /** Any name that reads as a freshly encoded entry is itself accepted and encodes to it. */
  lemma {:induction false} MatchingNameEncodes(s: Str, t: Str)
    requires Encode83(s).Some? && Upper(t) == NameOf(Encode83(s).value)
    ensures Encode83(t) == Encode83(s) && !EndsWithDot(t)
  {
    EncodedFields(s);
    EncodedNameReads(s);
    UndottedParts(s);
    EncodeIgnoresCase(Undotted(s), t);
    TextEndsPlain(Encode83(s).value);
    assert t == [] || Upper(t)[|t| - 1] == Up(t[|t| - 1]);
  }
}
