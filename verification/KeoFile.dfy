/** What the editor saves, and what it makes of the bytes of a file. */
module KeoFile {
  import opened KeoText

  function Saved(d: seq<string>): (t: string) {
    if d == [] then "" else d[0] + "\n" + Saved(d[1..])
  }

  /** What is written for a document is its text and a final newline. */
  lemma {:induction false} SavedIsText(d: seq<string>)
    requires d != []
    ensures Saved(d) == Text(d) + "\n"
    decreases |d|
  {
    if |d| > 1 {
      SavedIsText(d[1..]);
      assert d[0] + "\n" + (Text(d[1..]) + "\n") == d[0] + "\n" + Text(d[1..]) + "\n";
    } else {
      assert Saved(d[1..]) == "";
      assert d[0] + "\n" + "" == d[0] + "\n";
    }
  }

  lemma {:induction false} SavedCat(a: seq<string>, b: seq<string>)
    ensures Saved(a + b) == Saved(a) + Saved(b)
    decreases |a|
  {
    if a == [] {
      assert a + b == b;
    } else {
      assert (a + b)[1..] == a[1..] + b;
      SavedCat(a[1..], b);
    }
  }

  lemma {:induction false} SavedSnoc(a: seq<string>, l: string)
    ensures Saved(a + [l]) == Saved(a) + l + "\n"
  {
    SavedCat(a, [l]);
    assert [l][1..] == [];
  }

  // ----- loading

  function Last(d: seq<string>): string
    requires d != []
  {
    d[|d| - 1]
  }

  /** One byte read: a newline opens a line while there is room, anything else goes on the last line while it fits. */
  function ReadByte(d: seq<string>, c: char): (r: seq<string>)
    requires d != []
    ensures |d| <= |r| <= |d| + 1
  {
    if c == '\n' then (if |d| < MAXL then d + [""] else d)
    else if |Last(d)| < MAXC - 1 then d[..|d| - 1] + [Last(d) + [c]]
    else d
  }

  function ReadAll(d: seq<string>, s: string): (r: seq<string>)
    requires d != []
    ensures |d| <= |r|
    decreases |s|
  {
    if s == "" then d else ReadAll(ReadByte(d, s[0]), s[1..])
  }

  /** The document of a file: a newline at its end closes the last line instead of opening another. */
  function Loaded(s: string): (d: seq<string>)
    ensures d != []
  {
    if s == "" then [""]
    else
      var d := ReadAll([""], s);
      if s[|s| - 1] == '\n' && |d| > 1 then d[..|d| - 1] else d
  }

  lemma {:induction false} ReadIsGood(d: seq<string>, s: string)
    requires GoodDoc(d)
    ensures GoodDoc(ReadAll(d, s))
    decreases |s|
  {
    if s != "" {
      assert GoodLine(Last(d));
      ReadIsGood(ReadByte(d, s[0]), s[1..]);
    }
  }

  /** Whatever a file holds, what is loaded is a document. */
  lemma {:induction false} LoadedIsGood(s: string)
    ensures GoodDoc(Loaded(s)) && 1 <= |Loaded(s)| <= 256
    ensures forall i :: 0 <= i < |Loaded(s)| ==> |Loaded(s)[i]| <= 255 && '\n' !in Loaded(s)[i]
  {
    assert GoodDoc([""]);
    ReadIsGood([""], s);
  }

  lemma {:induction false} ReadCat(d: seq<string>, a: string, b: string)
    requires d != []
    ensures ReadAll(d, a + b) == ReadAll(ReadAll(d, a), b)
    decreases |a|
  {
    if a == "" {
      assert a + b == b;
    } else {
      assert (a + b)[1..] == a[1..] + b;
      ReadCat(ReadByte(d, a[0]), a[1..], b);
    }
  }

  /** A good line's characters all arrive on the last line. */
  lemma {:induction false} LineArrives(d: seq<string>, x: string, l: string)
    requires GoodLine(x + l)
    ensures ReadAll(d + [x], l) == d + [x + l]
    decreases |l|
  {
    if l == "" {
      assert x + l == x;
    } else {
      assert l[0] in x + l by { assert (x + l)[|x|] == l[0]; }
      assert x + l == (x + [l[0]]) + l[1..];
      assert ReadByte(d + [x], l[0]) == d + [x + [l[0]]];
      LineArrives(d, x + [l[0]], l[1..]);
    }
  }

  /** Reading saved lines gives the lines back, and an empty one opened by the last newline. */
  lemma {:induction false} LinesArrive(d: seq<string>, k: nat)
    requires GoodDoc(d) && k <= |d| && k < MAXL
    ensures ReadAll([""], Saved(d[..k])) == d[..k] + [""]
    decreases k
  {
    hide ReadAll, Saved, GoodLine;
    if k == 0 {
      NothingArrives(d);
    } else {
      var l := d[k - 1];
      LinesArrive(d, k - 1);
      LineStep(d[..k - 1], l);
      assert d[..k - 1] + [l] == d[..k];
    }
  }

  lemma {:induction false} NothingArrives(d: seq<string>)
    ensures d[..0] == [] && ReadAll([""], Saved([])) == [] + [""]
  {
  }

  lemma {:induction false} LineStep(a: seq<string>, l: string)
    requires GoodLine(l) && |a| + 1 < MAXL && ReadAll([""], Saved(a)) == a + [""]
    ensures ReadAll([""], Saved(a + [l])) == a + [l] + [""]
  {
    hide ReadAll, Saved, GoodLine;
    SavedSnoc(a, l);
    OneLine(a, l);
    assert Saved(a) + l + "\n" == Saved(a) + (l + "\n");
    ReadCat([""], Saved(a), l + "\n");
    ReadCat(a + [""], l, "\n");
  }

  lemma {:induction false} OneLine(a: seq<string>, l: string)
    requires GoodLine(l) && |a| + 1 < MAXL
    ensures ReadAll(a + [""], l) == a + [l] && ReadAll(a + [l], "\n") == a + [l] + [""]
  {
    assert "" + l == l;
    LineArrives(a, "", l);
    assert "\n"[1..] == "";
    assert ReadAll(a + [l] + [""], "") == a + [l] + [""];
  }

  /** With all 256 lines the last newline opens nothing: the last line is taken for the empty one. */
  lemma {:induction false} FullArrives(d: seq<string>)
    requires GoodDoc(d) && |d| == MAXL
    ensures ReadAll([""], Saved(d)) == d
  {
    hide ReadAll, Saved, GoodLine;
    var a, l := d[..MAXL - 1], d[MAXL - 1];
    LinesArrive(d, MAXL - 1);
    assert d == a + [l];
    SavedSnoc(a, l);
    assert Saved(a) + l + "\n" == Saved(a) + (l + "\n");
    ReadCat([""], Saved(a), l + "\n");
    ReadCat(a + [""], l, "\n");
    LastLine(a, l);
  }

  lemma {:induction false} LastLine(a: seq<string>, l: string)
    requires GoodLine(l) && |a| + 1 == MAXL
    ensures ReadAll(a + [""], l) == a + [l] && ReadAll(a + [l], "\n") == a + [l]
  {
    assert "" + l == l;
    LineArrives(a, "", l);
    assert "\n"[1..] == "";
    assert ReadAll(a + [l], "") == a + [l];
  }

  lemma {:induction false} EndsInNewline(d: seq<string>)
    requires d != []
    ensures Saved(d) != "" && Saved(d)[|Saved(d)| - 1] == '\n'
  {
    SavedIsText(d);
  }

  /** Loading what was saved gives the document back exactly when it has fewer than 256 lines. */
  lemma {:induction false} SaveThenLoad(d: seq<string>)
    requires GoodDoc(d)
    ensures Loaded(Saved(d)) == d <==> |d| < 256
    ensures |d| == 256 ==> Loaded(Saved(d)) == d[..255]
  {
    hide ReadAll, Saved;
    EndsInNewline(d);
    if |d| < MAXL {
      LinesArrive(d, |d|);
      assert d[..|d|] == d;
      assert (d + [""])[..|d|] == d;
    } else {
      FullArrives(d);
    }
  }

  // ----- which bytes are a saved document

  function Newlines(s: string): (n: nat) {
    if s == "" then 0 else (if s[0] == '\n' then 1 else 0) + Newlines(s[1..])
  }

  /** No stretch of 256 bytes is without a newline. */
  ghost predicate ShortRuns(s: string) {
    forall i, j :: 0 <= i <= j <= |s| && NoNewline(s, i, j) ==> j - i < 256
  }

  predicate NoNewline(s: string, i: nat, j: nat)
    requires i <= j <= |s|
  {
    '\n' !in s[i..j]
  }

  /** The bytes end in a newline, hold fewer than 256 of them, and nowhere 256 bytes without one. */
  ghost predicate FileFits(s: string) {
    s != "" && s[|s| - 1] == '\n' && Newlines(s) < 256 && ShortRuns(s)
  }

  lemma {:induction false} NewlinesCat(a: string, b: string)
    ensures Newlines(a + b) == Newlines(a) + Newlines(b)
    decreases |a|
  {
    if a == "" {
      assert a + b == b;
    } else {
      assert (a + b)[1..] == a[1..] + b;
      NewlinesCat(a[1..], b);
    }
  }

  lemma {:induction false} NoNewlines(l: string)
    requires '\n' !in l
    ensures Newlines(l) == 0
    decreases |l|
  {
    if l != "" {
      assert l[0] in l;
      NoNewlines(l[1..]);
    }
  }

  /** A line and what follows it: one newline more, and runs as short as both. */
  lemma {:induction false} LineInFront(l: string, rest: string)
    requires GoodLine(l) && ShortRuns(rest)
    ensures Newlines(l + "\n" + rest) == 1 + Newlines(rest) && ShortRuns(l + "\n" + rest)
  {
    hide Newlines, ShortRuns;
    NewlinesCat(l + "\n", rest);
    NewlinesCat(l, "\n");
    NoNewlines(l);
    OneNewline();
    LineRuns(l, rest);
  }

  lemma {:induction false} OneNewline()
    ensures Newlines("\n") == 1
  {
    assert "\n"[1..] == "";
  }

  lemma {:induction false} LineRuns(l: string, rest: string)
    requires GoodLine(l) && ShortRuns(rest)
    ensures ShortRuns(l + "\n" + rest)
  {
    var s := l + "\n" + rest;
    forall i, j | 0 <= i <= j <= |s| && NoNewline(s, i, j)
      ensures j - i < MAXC
    {
      RunInFront(l, rest, i, j);
    }
  }

  /** A run crosses no newline, so it lies in the line or behind it. */
  lemma {:induction false} RunInFront(l: string, rest: string, i: nat, j: nat)
    requires i <= j <= |l| + 1 + |rest| && NoNewline(l + "\n" + rest, i, j) && |l| < MAXC && ShortRuns(rest)
    ensures j - i < MAXC
  {
    var s, k := l + "\n" + rest, |l|;
    assert s[k] == '\n';
    if k < i {
      assert s[k + 1..] == rest;
      assert s[i..j] == s[k + 1..][i - k - 1..j - k - 1];
      assert NoNewline(rest, i - k - 1, j - k - 1);
    } else {
      forall m | i <= m < j
        ensures s[m] != '\n'
      {
        assert s[m] == s[i..j][m - i];
      }
    }
  }

  lemma {:induction false} SavedFits(d: seq<string>)
    requires forall i :: 0 <= i < |d| ==> GoodLine(d[i])
    ensures Newlines(Saved(d)) == |d| && ShortRuns(Saved(d))
    decreases |d|
  {
    if d != [] {
      SavedFits(d[1..]);
      LineInFront(d[0], Saved(d[1..]));
    }
  }

  /** Bytes that fit, cut at their newlines. */
  lemma {:induction false} CutIntoLines(s: string) returns (d: seq<string>)
    requires ShortRuns(s) && (s != "" ==> s[|s| - 1] == '\n')
    ensures s == Saved(d) && |d| == Newlines(s) && forall i :: 0 <= i < |d| ==> GoodLine(d[i])
    decreases |s|
  {
    if s == "" {
      d := [];
    } else {
      var k := FirstNewline(s);
      var l, rest := s[..k], s[k + 1..];
      assert s == l + "\n" + rest;
      assert NoNewline(s, 0, k) by { assert s[0..k] == l; }
      TailFits(s, k + 1);
      assert rest != "" ==> rest[|rest| - 1] == s[|s| - 1];
      var e := CutIntoLines(rest);
      LineInFront(l, rest);
      d := [l] + e;
      assert d[1..] == e;
    }
  }

  lemma {:induction false} FirstNewline(s: string) returns (k: nat)
    requires s != "" && s[|s| - 1] == '\n'
    ensures k < |s| && s[k] == '\n' && '\n' !in s[..k]
  {
    k := 0;
    while s[k] != '\n'
      invariant k < |s| && '\n' !in s[..k]
      decreases |s| - k
    {
      assert s[..k + 1] == s[..k] + [s[k]];
      k := k + 1;
    }
  }

  lemma {:induction false} TailFits(s: string, k: nat)
    requires ShortRuns(s) && k <= |s|
    ensures ShortRuns(s[k..])
  {
    var r := s[k..];
    forall i, j | 0 <= i <= j <= |r| && NoNewline(r, i, j)
      ensures j - i < MAXC
    {
      assert r[i..j] == s[k + i..k + j];
      assert NoNewline(s, k + i, k + j);
    }
  }

  /**
   * Saving what was loaded gives the bytes back exactly when they end in a newline, hold fewer than 256
   * of them, and nowhere 256 bytes without one.
   */
  lemma {:induction false} LoadThenSave(s: string)
    ensures Saved(Loaded(s)) == s <==> FileFits(s)
  {
    hide Saved, Loaded, ShortRuns, Newlines;
    if Saved(Loaded(s)) == s {
      LoadedIsGood(s);
      SaveThenLoad(Loaded(s));
      EndsInNewline(Loaded(s));
      SavedFits(Loaded(s));
    }
    if FileFits(s) {
      var d := CutIntoLines(s);
      HasNewline(s);
      SaveThenLoad(d);
    }
  }

  lemma {:induction false} HasNewline(s: string)
    requires s != "" && s[|s| - 1] == '\n'
    ensures Newlines(s) > 0
  {
    var a := s[..|s| - 1];
    assert s == a + "\n";
    NewlinesCat(a, "\n");
  }
}
