/** The loops that encode, decode and compare names, against the functions of FatNames. */
module FatCodec {
  import opened Bytes
  import opened FatNames
  import opened FatVolume

  method NameSame(a: Str, b: Str) returns (r: bool)
    ensures r <==> a == b
  {
    var i := 0;
    while i < |a| && i < |b| && a[i] == b[i]
      invariant i <= |a| && i <= |b| && a[..i] == b[..i]
    {
      i := i + 1;
    }
    r := i == |a| && i == |b|;
  }

  /** `input` in any case names the entry whose text is `disk`. */
  method NameMatch(disk: Str, input: Str) returns (r: bool)
    ensures r <==> disk == Upper(input)
  {
    var i := 0;
    while i < |disk| && i < |input|
      invariant i <= |disk| && i <= |input|
      invariant disk[..i] == Upper(input)[..i]
    {
      if disk[i] != Up(input[i]) {
        assert disk[i] != Upper(input)[i];
        return false;
      }
      i := i + 1;
    }
    r := i == |disk| && i == |input|;
  }

  /** What a C string shows of bytes: those before the first NUL. */
  function CString(s: Str): (r: Str) { s[..Index(s, 0)] }

  /** The text of an entry as a path walk compares it. */
  function WalkName(e: Entry): (r: Option<Str>) {
    var s := CString(NameOf(e));
    if !Listed(e) || s == [DOT] || s == [DOT, DOT] then None else Some(s)
  }

  /** A name without NUL shows whole. */
  lemma {:induction false} WholeName(e: Entry)
    requires forall i :: 0 <= i < 11 ==> e[i] != 0
    ensures WalkName(e) == if Visible(e) then Some(NameOf(e)) else None
  {
    hide Index, Trim;
    var s := NameOf(e);
    var a, b := Trim(e[..8]), Trim(e[8..11]);
    TrimIsPart(e[..8]);
    TrimIsPart(e[8..11]);
    assert forall i :: 0 <= i < |a| ==> a[i] == e[i];
    assert forall i :: 0 <= i < |b| ==> b[i] == e[8 + i];
    assert forall i :: 0 <= i < |s| ==> s[i] != 0;
    IndexIs(s, 0, |s|);
    assert s[..|s|] == s;
  }

  lemma {:induction false} TrimIsPart(s: Str)
    ensures Trim(s) <= s
  {
  }

  /** The text of a listed entry, cut at a NUL, unless it is one of the two dot names. */
  method EntryName(e: Entry) returns (r: Option<Str>)
    ensures r == WalkName(e)
    ensures (forall i :: 0 <= i < 11 ==> e[i] != 0) ==> r == if Visible(e) then Some(NameOf(e)) else None
  {
    hide NameOf, IsLfn, IsVol, CString;
    if forall i :: 0 <= i < 11 ==> e[i] != 0 { WholeName(e); }
    if e[0] == 0x00 || e[0] == 0xE5 || IsLfn(e) || IsVol(e) {
      return None;
    }
    var bytes := NameBytes(e);
    var out := CString(bytes);
    var dot := NameSame(out, [DOT]);
    var dots := NameSame(out, [DOT, DOT]);
    if dot || dots {
      return None;
    }
    r := Some(out);
  }

  /** The two copying loops: both fields without their padding, a dot between them. */
  method NameBytes(e: Entry) returns (out: Str)
    ensures out == NameOf(e)
  {
    out := [];
    var i := 0;
    while i < 8 && e[i] != SPACE
      invariant 0 <= i <= 8 && out == e[..i] && forall j :: 0 <= j < i ==> e[j] != SPACE
    {
      out := out + [e[i]];
      i := i + 1;
    }
    IndexIs(e[..8], SPACE, i);
    assert out == Trim(e[..8]);
    if e[8] != SPACE {
      out := out + [DOT];
      i := 8;
      while i < 11 && e[i] != SPACE
        invariant 8 <= i <= 11 && out == Trim(e[..8]) + [DOT] + e[8..i]
        invariant forall j :: 8 <= j < i ==> e[j] != SPACE
      {
        assert e[8..i + 1] == e[8..i] + [e[i]];
        out := out + [e[i]];
        i := i + 1;
      }
      assert e[8..11][..i - 8] == e[8..i];
      IndexIs(e[8..11], SPACE, i - 8);
      assert Trim(e[8..11]) == e[8..i];
    }
  }

  /** Copy the base of a name, upper-cased, over the first eight spaces; stops before a dot. */
  method BaseField(input: Str, out: array<byte>) returns (r: Option<nat>)
    requires out.Length == 11 && forall j :: 0 <= j < 11 ==> out[j] == SPACE
    modifies out
    ensures r.None? ==> Encode83(input) == None
    ensures r.Some? ==> r.value == Index(input, DOT) <= 8 && AllLegal(Base(input))
    ensures r.Some? ==> out[..] == Pad(Upper(Base(input)), 8) + Spaces(3)
  {
    var i := 0;
    while i < |input| && input[i] != DOT && i < 8
      invariant i <= |input| && i <= 8
      invariant forall j :: 0 <= j < i ==> input[j] != DOT && Legal(input[j])
      invariant forall j :: 0 <= j < 11 ==> out[j] == if j < i then Up(input[j]) else SPACE
    {
      if !Legal(input[i]) {
        BadBase(input, i);
        return None;
      }
      out[i] := Up(input[i]);
      i := i + 1;
    }
    if i < |input| && input[i] != DOT {
      BadBase(input, i);
      return None;
    }
    IndexIs(input, DOT, i);
    assert Base(input) == input[..i];
    assert out[..] == Pad(Upper(Base(input)), 8) + Spaces(3);
    r := Some(i);
  }

  /** Copy the extension behind the dot at `n` into the last three bytes. */
  method ExtField(input: Str, n: nat, out: array<byte>) returns (ok: bool)
    requires out.Length == 11 && n < |input| && n == Index(input, DOT)
    requires forall j :: 8 <= j < 11 ==> out[j] == SPACE
    modifies out
    ensures forall j :: 0 <= j < 8 ==> out[j] == old(out[j])
    ensures ok <==> |Ext(input)| <= 3 && AllLegal(Ext(input))
    ensures ok ==> out[8..11] == Pad(Upper(Ext(input)), 3)
  {
    var i, ei := n + 1, 0;
    while i < |input| && ei < 3
      invariant i == n + 1 + ei && i <= |input| && ei <= 3
      invariant forall j :: 0 <= j < ei ==> Legal(Ext(input)[j])
      invariant forall j :: 0 <= j < 8 ==> out[j] == old(out[j])
      invariant forall j :: 8 <= j < 11 ==> out[j] == if j - 8 < ei then Up(Ext(input)[j - 8]) else SPACE
    {
      if !Legal(input[i]) {
        assert Ext(input)[ei] == input[i];
        return false;
      }
      out[8 + ei] := Up(input[i]);
      ei := ei + 1;
      i := i + 1;
    }
    ok := i == |input|;
  }

  /** The upper-cased 8.3 form of a leaf name, or nothing when the name is refused. */
  method To83(input: Str) returns (r: Option<Name83>)
    ensures r == Encode83(input)
  {
    var out := new byte[11];
    for k := 0 to 11
      invariant forall j :: 0 <= j < k ==> out[j] == SPACE
    {
      out[k] := SPACE;
    }
    var n := BaseField(input, out);
    if n.None? {
      return None;
    }
    ghost var base := out[..8];
    assert base == Pad(Upper(Base(input)), 8);
    assert out[8..11] == Spaces(3) == [] + Spaces(3);
    if n.value < |input| {
      var ok := ExtField(input, n.value, out);
      if !ok {
        return None;
      }
    }
    if n.value == 0 {
      return None;
    }
    assert out[..8] == base;
    assert out[8..11] == Pad(Upper(Ext(input)), 3);
    assert out[..] == out[..8] + out[8..11];
    r := Some(out[..]);
  }

  lemma {:induction false} BadBase(s: Str, i: nat)
    requires i < |s| && s[i] != DOT && (forall j :: 0 <= j < i ==> s[j] != DOT)
    requires !Legal(s[i]) || i == 8
    ensures Encode83(s) == None
  {
    assert Index(s, DOT) > i;
    assert Base(s)[i] == s[i];
  }
}
