/** Paths as text: resolving one against the current directory, what that means for its names, and walking it. */
module FatPaths {
  import opened Bytes
  import opened FatNames
  import opened FatVolume
  import opened FatUpdates

  const PATH_MAX: nat := 256

  // ----- the names in a path

  /** The names in a text, cut at slashes. */
  function Comps(p: Str): (r: seq<Str>)
    decreases |p|
  {
    var q := Skip(p, SLASH);
    if q == [] then [] else
      var m := Index(q, SLASH);
      [q[..m]] + Comps(q[m..])
  }

  predicate EndsWithSlash(p: Str) { p != [] && p[|p| - 1] == SLASH }

  predicate PlainComp(s: Str) {
    1 <= |s| <= 12 && SLASH !in s && s != [DOT] && s != [DOT, DOT]
  }

  predicate PlainPath(st: seq<Str>) {
    forall i :: 0 <= i < |st| ==> PlainComp(st[i])
  }

  /** The names of a resolved path; none for the root and for a text that ends in a slash. */
  function PathOf(abs: Str): (r: Option<seq<Str>>)
    ensures r.Some? ==> PlainPath(r.value)
  {
    if abs == [] || EndsWithSlash(abs) || !PlainPath(Comps(abs)) then None else Some(Comps(abs))
  }

  lemma {:induction false} CompsSkip(p: Str)
    ensures Comps(p) == Comps(Skip(p, SLASH))
  {
    var q := Skip(p, SLASH);
    assert Skip(q, SLASH) == q;
  }

  lemma {:induction false} CompsHead(q: Str, m: nat)
    requires q != [] && q[0] != SLASH && m <= |q| && SLASH !in q[..m] && (m < |q| ==> q[m] == SLASH)
    ensures Index(q, SLASH) == m > 0 && Comps(q) == [q[..m]] + Comps(q[m..])
  {
    forall i | 0 <= i < m ensures q[i] != SLASH { assert q[i] == q[..m][i]; }
    IndexIs(q, SLASH, m);
    assert Skip(q, SLASH) == q;
  }

  /** A slash separates: the names on its two sides are read apart. */
  lemma {:induction false} CompsSplit(a: Str, b: Str)
    ensures Comps(a + [SLASH] + b) == Comps(a) + Comps(b)
    decreases |a|
  {
    hide Comps, Skip;
    var t := [SLASH] + b;
    assert a + [SLASH] + b == a + t;
    SkipFront(a, t, SLASH);
    CompsSkip(a);
    CompsSkip(a + t);
    CompsSkip(b);
    NoComps();
    SlashFront(b);
    var q := Skip(a, SLASH);
    if q != [] {
      var m := Index(q, SLASH);
      assert (q + t)[..m] == q[..m] && (q + t)[m..] == q[m..] + [SLASH] + b;
      CompsHead(q, m);
      CompsHead(q + t, m);
      CompsSplit(q[m..], b);
      assert [q[..m]] + Comps(q[m..]) + Comps(b) == [q[..m]] + (Comps(q[m..]) + Comps(b));
    }
  }

  lemma {:induction false} NoComps()
    ensures Comps([]) == [] && Comps([SLASH]) == []
  {
    assert [SLASH][1..] == [];
  }

  lemma {:induction false} SlashFront(b: Str)
    ensures Skip([SLASH] + b, SLASH) == Skip(b, SLASH)
  {
    assert ([SLASH] + b)[1..] == b;
  }

  lemma {:induction false} CompsOfOne(s: Str)
    requires SLASH !in s
    ensures Comps(s) == if s == [] then [] else [s]
  {
    NoComps();
    if s != [] {
      assert s[0] in s && s[..|s|] == s && s[|s|..] == [];
      CompsHead(s, |s|);
    }
  }

  /** A text without names is all slashes. */
  lemma {:induction false} OnlySlashes(p: Str)
    requires Comps(p) == [] && p != []
    ensures EndsWithSlash(p)
    decreases |p|
  {
    if |p| > 1 && p[0] == SLASH {
      CompsSkip(p);
      CompsSkip(p[1..]);
      OnlySlashes(p[1..]);
    }
  }

  // ----- resolving a path against the current directory

  /** The text before and with its last slash; the whole text when it is a single character. */
  function Strip(out: Str): (r: Str)
    ensures |r| <= |out| && r == out[..|r|]
  {
    if |out| > 1 && out[|out| - 1] != SLASH then Strip(out[..|out| - 1]) else out
  }

  /** What ".." makes of a text: the last name goes, or the slash behind it when the text ends in one. */
  function GoUp(out: Str): (r: Str) {
    var s := Strip(out);
    if |s| > 1 then s[..|s| - 1] else s
  }

  function Push(out: Str, comp: Str): (r: Str) {
    (if |out| > 1 then out + [SLASH] else out) + comp
  }

  predicate Rooted(out: Str) { out != [] && out[0] == SLASH }

  lemma {:induction false} StripIs(out: Str)
    requires Rooted(out)
    ensures Rooted(Strip(out)) && EndsWithSlash(Strip(out)) && SLASH !in out[|Strip(out)|..]
    decreases |out|
  {
    if |out| > 1 && out[|out| - 1] != SLASH {
      var x := out[..|out| - 1];
      StripIs(x);
      assert out[|Strip(x)|..] == x[|Strip(x)|..] + [out[|out| - 1]];
    }
  }

  /** The names a text is left with. */
  lemma {:induction false} UpComps(out: Str)
    requires Rooted(out)
    ensures Rooted(GoUp(out)) && |GoUp(out)| <= |out|
    ensures var cs := Comps(out);
            Comps(GoUp(out)) == if EndsWithSlash(out) || cs == [] then cs else cs[..|cs| - 1]
  {
    hide Comps, Strip;
    StripIs(out);
    var s := Strip(out);
    var a, z := s[..|s| - 1], out[|s|..];
    assert out == a + [SLASH] + z;
    CompsSplit(a, z);
    CompsOfOne(z);
    NoComps();
    if z != [] {
      assert z[|z| - 1] in z;
      assert (Comps(a) + [z])[..|Comps(a)|] == Comps(a);
    }
  }

  lemma {:induction false} PushComps(out: Str, comp: Str)
    requires Rooted(out) && comp != [] && SLASH !in comp
    ensures Rooted(Push(out, comp)) && Comps(Push(out, comp)) == Comps(out) + [comp]
    ensures !EndsWithSlash(Push(out, comp))
  {
    hide Comps;
    CompsOfOne(comp);
    if |out| > 1 {
      CompsSplit(out, comp);
    } else {
      NoComps();
      assert out == [SLASH] && [] + [SLASH] + comp == out + comp;
      CompsSplit([], comp);
    }
    assert comp[|comp| - 1] in comp;
  }

  /** Apply the names of `p` to the text `out`: "." stays, ".." goes up, any other name is pushed. */
  function Resolve(p: Str, out: Str): (r: Option<Str>)
    decreases |p|
  {
    var q := Skip(p, SLASH);
    if q == [] then Some(out)
    else
      var m := Index(q, SLASH);
      if m > 12 then None
      else if q[..m] == [DOT] then Resolve(q[m..], out)
      else if q[..m] == [DOT, DOT] then Resolve(q[m..], GoUp(out))
      else if |Push(out, q[..m])| >= PATH_MAX then None
      else Resolve(q[m..], Push(out, q[..m]))
  }

  /** The text a path resolves to: an absolute path from the root, another from the current directory. */
  function AbsOf(cwd: Str, path: Str): (r: Option<Str>) {
    if Rooted(path) then Resolve(path[1..], [SLASH]) else Resolve(path, if |cwd| > 1 then cwd + [SLASH] else cwd)
  }

  /** The same, with a text that names nothing for a path that does not resolve. */
  function Full(cwd: Str, path: Str): (r: Str) {
    match AbsOf(cwd, path) case Some(abs) => abs case None => []
  }

  /** The text on the way: from the root, which one slash stands for, and made of proper names. */
  ghost predicate TextOk(out: Str) {
    Rooted(out) && (|out| > 1 ==> out[1] != SLASH) && PlainPath(Comps(out))
  }

  /** What the current directory's text looks like: such a text, short enough for its buffer. */
  ghost predicate CwdOk(cwd: Str) {
    TextOk(cwd) && |cwd| < PATH_MAX
  }

  lemma {:induction false} PlainUp(out: Str)
    requires TextOk(out)
    ensures TextOk(GoUp(out)) && |GoUp(out)| <= |out|
  {
    hide Comps;
    UpComps(out);
  }

  lemma {:induction false} PlainPush(out: Str, comp: Str)
    requires TextOk(out) && PlainComp(comp)
    ensures TextOk(Push(out, comp))
  {
    hide Comps;
    PushComps(out, comp);
    assert comp[0] in comp;
  }

  lemma {:induction false} FrontComp(q: Str)
    requires q != [] && q[0] != SLASH && Index(q, SLASH) <= 12
    ensures var c := q[..Index(q, SLASH)]; c != [] && SLASH !in c && (c != [DOT] && c != [DOT, DOT] ==> PlainComp(c))
  {
  }

  /** Where resolving starts. */
  lemma {:induction false} StartPlain(cwd: Str)
    requires CwdOk(cwd)
    ensures TextOk([SLASH]) && TextOk(if |cwd| > 1 then cwd + [SLASH] else cwd)
  {
    hide Comps;
    NoComps();
    CompsSplit(cwd, []);
    assert cwd + [SLASH] + [] == cwd + [SLASH];
  }

  // ----- what resolving does to lists of names

  /** One name applied to a list of names: "." stays, ".." drops the last, any other is added. */
  function OneStep(c: Str, st: seq<Str>): (r: seq<Str>) {
    if c == [DOT] then st
    else if c == [DOT, DOT] then if st == [] then [] else st[..|st| - 1]
    else st + [c]
  }

  function Steps(cs: seq<Str>, st: seq<Str>): (r: seq<Str>)
    decreases |cs|
  {
    if cs == [] then st else Steps(cs[1..], OneStep(cs[0], st))
  }

  /** The text of a list of parts, a slash in front of each; a blank part shows as a slash too many. */
  function Joined(st: seq<Str>): (r: Str) {
    if st == [] then [] else Joined(st[..|st| - 1]) + [SLASH] + st[|st| - 1]
  }

  function AbsText(st: seq<Str>): (r: Str) {
    if st == [] then [SLASH] else Joined(st)
  }

  /** Parts without slashes, the first of them not blank. */
  predicate Parted(st: seq<Str>) {
    (forall i :: 0 <= i < |st| ==> SLASH !in st[i]) && (st != [] ==> st[0] != [])
  }

  /** The parts that are not blank. */
  function Named(st: seq<Str>): (r: seq<Str>)
    ensures |r| <= |st|
  {
    if st == [] then [] else Named(st[..|st| - 1]) + if st[|st| - 1] == [] then [] else [st[|st| - 1]]
  }

  predicate NoBlanks(cs: seq<Str>) { forall i :: 0 <= i < |cs| ==> cs[i] != [] && SLASH !in cs[i] }

  lemma {:induction false} JoinedSnoc(st: seq<Str>, s: Str)
    ensures Joined(st + [s]) == Joined(st) + [SLASH] + s
  {
    assert (st + [s])[..|st|] == st;
  }

  lemma {:induction false} JoinedStarts(st: seq<Str>)
    requires Parted(st)
    ensures st != [] ==> Rooted(Joined(st)) && |Joined(st)| > 1
    decreases |st|
  {
    if st != [] {
      JoinedStarts(st[..|st| - 1]);
    }
  }

  lemma {:induction false} StripJoin(a: Str, z: Str)
    requires SLASH !in z
    ensures Strip(a + [SLASH] + z) == a + [SLASH]
    decreases |z|
  {
    var t := a + [SLASH] + z;
    if z == [] {
      assert t == a + [SLASH];
    } else {
      assert z[|z| - 1] in z;
      assert t[..|t| - 1] == a + [SLASH] + z[..|z| - 1];
      StripJoin(a, z[..|z| - 1]);
    }
  }

  /** In the text of parts the three operations are those on the list. */
  lemma {:induction false} PartSteps(st: seq<Str>, c: Str)
    requires Parted(st)
    ensures Push(AbsText(st), c) == AbsText(st + [c])
    ensures GoUp(AbsText(st)) == AbsText(OneStep([DOT, DOT], st))
  {
    hide Strip, Joined;
    JoinedSnoc(st, c);
    JoinedStarts(st);
    NoneJoined();
    if st == [] {
      var e: Str := [];
      StripJoin(e, e);
      assert e + [SLASH] + e == e + [SLASH] == [SLASH] && e + [SLASH] + c == [SLASH] + c;
    } else {
      var a, z := st[..|st| - 1], st[|st| - 1];
      assert st == a + [z];
      JoinedSnoc(a, z);
      StripJoin(Joined(a), z);
      JoinedStarts(a);
      var s := Joined(a) + [SLASH];
      assert s[..|s| - 1] == Joined(a) && (a == [] ==> s == [SLASH]);
    }
  }

  lemma {:induction false} NoneJoined()
    ensures Joined([]) == [] && [] + [SLASH] + [] == [SLASH]
  {
  }

  predicate IsName(c: Str) { c != [DOT] && c != [DOT, DOT] }

  /** Name `k` is refused: it is too long, or the text with it outgrows the buffer. */
  predicate RefusedAt(cs: seq<Str>, st: seq<Str>, k: nat)
    requires k < |cs|
  {
    |cs[k]| > 12 || (IsName(cs[k]) && |AbsText(Steps(cs[..k + 1], st))| >= 256)
  }

  predicate Refused(cs: seq<Str>, st: seq<Str>) {
    exists k :: 0 <= k < |cs| && RefusedAt(cs, st, k)
  }

  lemma {:induction false} StepsTail(c: Str, cs: seq<Str>)
    ensures ([c] + cs)[0] == c && ([c] + cs)[1..] == cs
  {
  }

  lemma {:induction false} RefusedAfter(c: Str, cs: seq<Str>, st: seq<Str>, k: nat)
    requires k < |cs|
    ensures RefusedAt([c] + cs, st, k + 1) == RefusedAt(cs, OneStep(c, st), k)
  {
    hide OneStep, AbsText;
    var x := ([c] + cs)[..k + 2];
    assert x[0] == c && x[1..] == cs[..k + 1];
  }

  lemma {:induction false} RefusedFirst(c: Str, cs: seq<Str>, st: seq<Str>)
    ensures RefusedAt([c] + cs, st, 0) <==> |c| > 12 || (IsName(c) && |AbsText(OneStep(c, st))| >= PATH_MAX)
  {
    hide OneStep, AbsText;
    var x := ([c] + cs)[..1];
    assert x == [c] && x[1..] == [];
    StepsOnce(x, st, st, 0);
    NoSteps(OneStep(c, st), st, 0);
  }

  /** A list is refused at its first name or behind it. */
  lemma {:induction false} RefusedStep(c: Str, cs: seq<Str>, st: seq<Str>)
    ensures Refused([c] + cs, st) <==>
            || |c| > 12 || (IsName(c) && |AbsText(OneStep(c, st))| >= PATH_MAX)
            || Refused(cs, OneStep(c, st))
  {
    hide OneStep, AbsText, RefusedAt;
    RefusedFirst(c, cs, st);
    if Refused([c] + cs, st) {
      var k :| 0 <= k < |[c] + cs| && RefusedAt([c] + cs, st, k);
      if k > 0 { RefusedAfter(c, cs, st, k - 1); }
    }
    if Refused(cs, OneStep(c, st)) {
      var k :| 0 <= k < |cs| && RefusedAt(cs, OneStep(c, st), k);
      RefusedAfter(c, cs, st, k);
    }
  }

  /**
   * From the text of parts a path resolves to the text of the parts its names lead to, or is refused at one
   * of them.
   */
  lemma {:induction false} ResolveParts(p: Str, st: seq<Str>)
    requires Parted(st)
    ensures Resolve(p, AbsText(st)) == if Refused(Comps(p), st) then None else Some(AbsText(Steps(Comps(p), st)))
    decreases |p|
  {
    hide AbsText, GoUp, Push, Comps, Skip, Refused;
    var q := Skip(p, SLASH);
    CompsSkip(p);
    NoComps();
    if q == [] {
      NoneRefused(st);
    } else {
      var m := Index(q, SLASH);
      var c, rest := q[..m], q[m..];
      CompsHead(q, m);
      StepsTail(c, Comps(rest));
      RefusedStep(c, Comps(rest), st);
      PartSteps(st, c);
      if m <= 12 && !(IsName(c) && |AbsText(st + [c])| >= PATH_MAX) {
        ResolveParts(rest, OneStep(c, st));
      }
    }
  }

  lemma {:induction false} NoneRefused(st: seq<Str>)
    ensures !Refused([], st)
  {
  }

  /** The parts of a text that begins with a slash. */
  function Parts(t: Str): (r: seq<Str>)
    requires t == [] || Rooted(t)
    decreases |t|
  {
    if t == [] then [] else
      StripIs(t);
      var s := Strip(t);
      Parts(s[..|s| - 1]) + [t[|s|..]]
  }

  function Slashes(t: Str): (n: nat) { multiset(t)[SLASH] }

  lemma {:induction false} PartsText(t: Str)
    requires t == [] || Rooted(t)
    ensures Joined(Parts(t)) == t
    ensures |Parts(t)| == Slashes(t)
    decreases |t|
  {
    hide Strip, Joined;
    NoneJoined();
    if t != [] {
      StripIs(t);
      var s := Strip(t);
      var a, z := s[..|s| - 1], t[|s|..];
      assert t == a + [SLASH] + z;
      PartsText(a);
      JoinedSnoc(Parts(a), z);
    }
  }

  lemma {:induction false} PartsParted(t: Str)
    requires Rooted(t) && |t| > 1 && t[1] != SLASH
    ensures Parted(Parts(t))
    decreases |t|
  {
    hide Strip;
    StripIs(t);
    var s := Strip(t);
    var a := s[..|s| - 1];
    if a != [] {
      assert |a| > 1;
      PartsParted(a);
    }
  }

  /**
   * The parts resolving starts from: from the current directory there is a blank one, for the slash put
   * behind its text.
   */
  ghost function Start(cwd: Str, path: Str): (st: seq<Str>) {
    if Rooted(path) || |cwd| <= 1 || !Rooted(cwd) then [] else Parts(cwd) + [[]]
  }

  lemma {:induction false} StartText(cwd: Str, path: Str)
    requires CwdOk(cwd)
    ensures var st := Start(cwd, path);
            Parted(st) && AbsText(st) == if Rooted(path) then [SLASH] else if |cwd| > 1 then cwd + [SLASH] else cwd
  {
    hide Comps, Parts;
    if |cwd| > 1 {
      PartsText(cwd);
      PartsParted(cwd);
      JoinedSnoc(Parts(cwd), []);
      assert cwd + [SLASH] + [] == cwd + [SLASH];
    }
  }

  lemma {:induction false} AbsoluteNames(path: Str)
    requires Rooted(path)
    ensures Comps(path) == Comps(path[1..])
  {
    hide Comps;
    var e: Str := [];
    assert path == e + [SLASH] + path[1..];
    CompsSplit(e, path[1..]);
    NoComps();
    assert Comps(e) + Comps(path[1..]) == Comps(path[1..]);
  }

  /**
   * What a path resolves to, on names: it is refused exactly when one of its names is longer than twelve
   * characters or a text on the way fills the buffer; else it is the text its names lead to.
   */
  lemma {:induction false} ResolvesTo(cwd: Str, path: Str)
    requires CwdOk(cwd)
    ensures var cs, st := Comps(path), Start(cwd, path);
            AbsOf(cwd, path) == if Refused(cs, st) then None else Some(AbsText(Steps(cs, st)))
  {
    hide Resolve, Comps, AbsText, Parts, Refused, CwdOk, Start;
    StartText(cwd, path);
    var st := Start(cwd, path);
    if Rooted(path) {
      AbsoluteNames(path);
      ResolveParts(path[1..], st);
    } else {
      ResolveParts(path, st);
    }
  }

  // ----- what a path should mean, and when it does

  /** With `n` names in hand, some ".." finds none to drop. */
  predicate Climbs(cs: seq<Str>, n: nat)
    decreases |cs|
  {
    cs != [] &&
    if cs[0] == [DOT] then Climbs(cs[1..], n)
    else if cs[0] == [DOT, DOT] then n == 0 || Climbs(cs[1..], n - 1)
    else Climbs(cs[1..], n + 1)
  }

  /** An absolute path, and every path from the root, resolves to the canonical text of the names it should mean. */
  lemma {:induction false} AbsoluteMeans(cwd: Str, path: Str)
    requires CwdOk(cwd) && AbsOf(cwd, path).Some? && (Rooted(path) || cwd == [SLASH])
    ensures AbsOf(cwd, path).value == AbsText(Steps(Comps(path), []))
  {
    hide Comps, AbsOf, AbsText, Steps;
    ResolvesTo(cwd, path);
  }

  lemma {:induction false} NamedSnoc(st: seq<Str>, c: Str)
    ensures Named(st + [c]) == Named(st) + if c == [] then [] else [c]
  {
    assert (st + [c])[..|st|] == st;
  }

  lemma {:induction false} NamedAdd(a: seq<Str>, b: seq<Str>)
    requires NoBlanks(b)
    ensures Named(a + b) == Named(a) + b
    decreases |b|
  {
    if b == [] {
      assert a + b == a && Named(a) + b == Named(a);
    } else {
      var y, z := b[..|b| - 1], b[|b| - 1];
      NamedAdd(a, y);
      NamedSnoc(a + y, z);
      assert a + b == a + y + [z] && Named(a) + b == Named(a) + y + [z];
    }
  }

  /** A reader finds the parts that are not blank. */
  lemma {:induction false} CompsOfText(st: seq<Str>)
    requires forall i :: 0 <= i < |st| ==> SLASH !in st[i]
    ensures Comps(Joined(st)) == Named(st) && Comps(AbsText(st)) == Named(st)
    decreases |st|
  {
    hide Comps;
    NoComps();
    if st != [] {
      var a, z := st[..|st| - 1], st[|st| - 1];
      CompsOfText(a);
      CompsSplit(Joined(a), z);
      CompsOfOne(z);
    }
  }

  lemma {:induction false} StepsParted(cs: seq<Str>, st: seq<Str>)
    requires NoBlanks(cs) && Parted(st)
    ensures Parted(Steps(cs, st))
    decreases |cs|
  {
    if cs != [] {
      StepsParted(cs[1..], OneStep(cs[0], st));
    }
  }

  lemma {:induction false} CompsNoBlanks(p: Str)
    ensures NoBlanks(Comps(p))
    decreases |p|
  {
    var q := Skip(p, SLASH);
    if q != [] {
      CompsNoBlanks(q[Index(q, SLASH)..]);
    }
  }

  lemma {:induction false} FirstNamed(st: seq<Str>)
    requires st != [] && st[0] != []
    ensures Named(st) != []
    decreases |st|
  {
    if |st| > 1 { FirstNamed(st[..|st| - 1]); }
  }

  lemma {:induction false} NamedStays(cs: seq<Str>)
    requires NoBlanks(cs)
    ensures Named(cs) == cs
  {
    NamedAdd([], cs);
    assert [] + cs == cs;
  }

  lemma {:induction false} StepsNoBlanks(cs: seq<Str>, st: seq<Str>)
    requires NoBlanks(cs) && NoBlanks(st)
    ensures Named(Steps(cs, st)) == Steps(cs, st)
    decreases |cs|
  {
    if cs == [] {
      NamedStays(st);
    } else {
      StepsNoBlanks(cs[1..], OneStep(cs[0], st));
    }
  }

  /** A step at the end of a list with names behind it. */
  lemma {:induction false} StepBehind(c: Str, a: seq<Str>, b: seq<Str>)
    ensures OneStep(c, a + b) == if c == [DOT, DOT] && b == [] then OneStep(c, a) else a + OneStep(c, b)
  {
    if c == [DOT, DOT] && b != [] {
      assert (a + b)[..|a + b| - 1] == a + b[..|b| - 1];
    } else if b == [] {
      assert a + b == a;
    }
  }

  /**
   * A text with more names than it should have, `a` where `z` is right, keeps them until a ".." has used
   * up all its parts.
   */
  lemma {:induction false} StaysApart(cs: seq<Str>, a: seq<Str>, z: seq<Str>, b: seq<Str>)
    requires NoBlanks(cs) && NoBlanks(b) && a != [] && a[0] != [] && |z| < |Named(a)|
    ensures var x, y := Named(Steps(cs, a + b)), Steps(cs, z + b);
            if Climbs(cs, |a| - 1 + |b|) then x == y else |x| > |y|
    decreases |cs|
  {
    hide Named, OneStep, Steps, Climbs;
    if cs == [] {
      NamedAdd(a, b);
      NoSteps(a + b, z + b, |a| - 1 + |b|);
    } else {
      var c, rest := cs[0], cs[1..];
      StepsOnce(cs, a + b, z + b, |a| - 1 + |b|);
      StepBehind(c, a, b);
      StepBehind(c, z, b);
      StepKinds(c, b);
      if c == [DOT, DOT] && b == [] {
        var a1, z1 := OneStep(c, a), OneStep(c, z);
        assert a1 + [] == a1 && z1 + [] == z1;
        if |a| == 1 {
          StepKinds(c, a);
          StepKinds(c, z);
          DropNamed(a);
          StepsNoBlanks(rest, []);
        } else {
          DropApart(a, z);
          StaysApart(rest, a1, z1, []);
        }
      } else {
        StaysApart(rest, a, z, OneStep(c, b));
      }
    }
  }

  /** Dropping the last part of both keeps them apart. */
  lemma {:induction false} DropApart(a: seq<Str>, z: seq<Str>)
    requires |a| > 1 && a[0] != [] && |z| < |Named(a)|
    ensures var a1, z1 := OneStep([DOT, DOT], a), OneStep([DOT, DOT], z);
            |a1| == |a| - 1 && a1[0] == a[0] && |z1| < |Named(a1)|
  {
    hide Named;
    DropNamed(a);
    FirstNamed(a[..|a| - 1]);
  }

  lemma {:induction false} NoSteps(a: seq<Str>, z: seq<Str>, n: nat)
    ensures Steps([], a) == a && Steps([], z) == z && !Climbs([], n)
  {
  }

  lemma {:induction false} StepsOnce(cs: seq<Str>, a: seq<Str>, z: seq<Str>, n: nat)
    requires cs != []
    ensures Steps(cs, a) == Steps(cs[1..], OneStep(cs[0], a)) && Steps(cs, z) == Steps(cs[1..], OneStep(cs[0], z))
    ensures cs[0] == [DOT] ==> Climbs(cs, n) == Climbs(cs[1..], n)
    ensures cs[0] == [DOT, DOT] ==> Climbs(cs, n) == (n == 0 || Climbs(cs[1..], n - 1))
    ensures IsName(cs[0]) ==> Climbs(cs, n) == Climbs(cs[1..], n + 1)
  {
  }

  lemma {:induction false} StepKinds(c: Str, b: seq<Str>)
    ensures c == [DOT] ==> OneStep(c, b) == b
    ensures c == [DOT, DOT] ==> OneStep(c, b) == if b == [] then [] else b[..|b| - 1]
    ensures IsName(c) ==> OneStep(c, b) == b + [c]
    ensures c != [] && SLASH !in c && NoBlanks(b) ==> NoBlanks(OneStep(c, b))
  {
  }

  lemma {:induction false} DropNamed(a: seq<Str>)
    requires a != []
    ensures |Named(a)| <= |Named(a[..|a| - 1])| + 1 && |Named(a)| <= |a|
  {
  }

  /**
   * Below the current directory's parts `a` and the blank one, names come and go as they should; the first
   * climb costs the blank.
   */
  lemma {:induction false} BelowBlank(cs: seq<Str>, a: seq<Str>, e: seq<Str>)
    requires NoBlanks(cs) && NoBlanks(e) && a != [] && a[0] != []
    ensures Named(Steps(cs, a + [[]] + e)) == Steps(cs, Named(a) + e)
            <==> (Climbs(cs, |e|) ==> Climbs(cs, |a| + |e|))
    decreases |cs|
  {
    hide Named, OneStep, Steps, Climbs;
    var k, n := a + [[]], Named(a);
    if cs == [] {
      NamedSnoc(a, []);
      NamedAdd(k, e);
      NoSteps(k + e, n + e, |e|);
    } else {
      var c, rest := cs[0], cs[1..];
      StepsOnce(cs, k + e, n + e, |e|);
      StepsOnce(cs, k + e, n + e, |a| + |e|);
      StepBehind(c, k, e);
      StepBehind(c, n, e);
      StepKinds(c, e);
      if c == [DOT, DOT] && e == [] {
        FirstNamed(a);
        StepKinds(c, k);
        StepKinds(c, n);
        assert k[..|a|] == a && a + [] == a;
        var z := n[..|n| - 1];
        assert z + [] == z;
        StaysApart(rest, a, z, []);
      } else {
        BelowBlank(rest, a, OneStep(c, e));
      }
    }
  }

  /**
   * From every current directory, a relative path leads where it should exactly when it does not climb out
   * of that directory, or climbs until the text has no part left: the slash put behind the text, and every
   * slash too many in it, costs a "..".
   */
  lemma {:induction false} RelativeMeans(cwd: Str, path: Str)
    requires CwdOk(cwd) && !Rooted(path) && AbsOf(cwd, path).Some?
    ensures Comps(AbsOf(cwd, path).value) == Steps(Comps(path), Comps(cwd))
            <==> (Climbs(Comps(path), 0) ==> |cwd| == 1 || Climbs(Comps(path), Slashes(cwd)))
  {
    hide AbsOf, Comps, AbsText, Steps, Parts, Named, Climbs, CwdOk, Start, Parted, NoBlanks;
    var cs, st := Comps(path), Start(cwd, path);
    ResolvesTo(cwd, path);
    CompsNoBlanks(path);
    StartText(cwd, path);
    StepsParted(cs, st);
    PartedComps(Steps(cs, st));
    StartMeans(cwd, path, cs);
  }

  lemma {:induction false} PartedComps(st: seq<Str>)
    requires Parted(st)
    ensures Comps(AbsText(st)) == Named(st)
  {
    CompsOfText(st);
  }

  lemma {:induction false} StartMeans(cwd: Str, path: Str, cs: seq<Str>)
    requires CwdOk(cwd) && !Rooted(path) && NoBlanks(cs)
    ensures Named(Steps(cs, Start(cwd, path))) == Steps(cs, Comps(cwd))
            <==> (Climbs(cs, 0) ==> |cwd| == 1 || Climbs(cs, Slashes(cwd)))
  {
    hide Comps, AbsText, Steps, Parts, Named, Climbs, Slashes;
    if |cwd| > 1 {
      var a := Parts(cwd);
      PartsText(cwd);
      PartsParted(cwd);
      CompsOfText(a);
      assert a != [] by { if a == [] { NoneJoined(); } }
      assert Comps(cwd) + [] == Comps(cwd) && a + [[]] + [] == a + [[]];
      BelowBlank(cs, a, []);
    } else {
      assert cwd == [SLASH];
      NoComps();
      StepsNoBlanks(cs, []);
    }
  }

  /** So ".." never leaves the current directory, whatever it is. */
  lemma {:induction false} DotDotStays(cwd: Str)
    requires CwdOk(cwd)
    ensures AbsOf(cwd, [DOT, DOT]) == Some(cwd)
  {
    var p: Str := [DOT, DOT];
    IndexIs(p, SLASH, 2);
    assert p[..2] == p && p[2..] == [];
    var out := if |cwd| > 1 then cwd + [SLASH] else cwd;
    assert Strip(out) == out && GoUp(out) == cwd;
    assert Skip(p, SLASH) == p && Resolve([], GoUp(out)) == Some(GoUp(out));
  }

  // ----- the loops

  /** Go up: back over the last name to its slash, then drop the slash, but keep the root's. */
  method PopComponent(out: Str) returns (r: Str)
    requires Rooted(out)
    ensures r == GoUp(out)
  {
    r := out;
    while |r| > 1 && r[|r| - 1] != SLASH
      invariant r != [] && Strip(r) == Strip(out)
    {
      r := r[..|r| - 1];
    }
    if |r| > 1 {
      r := r[..|r| - 1];
    }
  }

  /** Append a component, unless the buffer would overflow. */
  method PushComponent(out: Str, comp: Str) returns (r: Option<Str>)
    requires Rooted(out) && comp != []
    ensures r == if |Push(out, comp)| >= PATH_MAX then None else Some(Push(out, comp))
  {
    var o := out;
    if |o| > 1 {
      o := o + [SLASH];
    }
    ghost var o0 := o;
    var i := 0;
    while i < |comp|
      invariant i <= |comp| && o == o0 + comp[..i]
      invariant i > 0 ==> |o| < PATH_MAX
    {
      if |o| + 1 >= PATH_MAX {
        return None;
      }
      o := o + [comp[i]];
      i := i + 1;
    }
    assert comp[..|comp|] == comp;
    r := Some(o);
  }

  /** Length of the component at the front, refused beyond twelve characters. */
  method ComponentLength(p: Str) returns (r: Option<nat>)
    ensures r == if Index(p, SLASH) > 12 then None else Some(Index(p, SLASH))
  {
    var m := 0;
    while m < |p| && p[m] != SLASH && m < 12
      invariant m <= |p| && m <= 12 && forall j :: 0 <= j < m ==> p[j] != SLASH
    {
      m := m + 1;
    }
    if m < |p| && p[m] != SLASH {
      assert Index(p, SLASH) > 12;
      return None;
    }
    IndexIs(p, SLASH, m);
    r := Some(m);
  }

  /** Resolve a path: from the root when it is absolute, from the current directory otherwise. */
  method AbsPath(cwd: Str, path: Str) returns (r: Option<Str>)
    requires CwdOk(cwd)
    ensures r == AbsOf(cwd, path)
    ensures r.Some? ==> TextOk(r.value)
  {
    hide Comps, GoUp, Push, CwdOk, PlainPath, PlainComp;
    StartPlain(cwd);
    var out: Str, p := [], path;
    if p != [] && p[0] == SLASH {
      out, p := [SLASH], p[1..];
    } else {
      out := CopyCwd(cwd);
      if |out| > 1 {
        out := out + [SLASH];
      }
    }
    while p != []
      invariant TextOk(out) && AbsOf(cwd, path) == Resolve(p, out)
      decreases |p|
    {
      p := SkipRun(p, SLASH);
      if p == [] {
        break;
      }
      var m := ComponentLength(p);
      if m.None? {
        return None;
      }
      FrontComp(p);
      var comp := p[..m.value];
      p := p[m.value..];
      if comp == [DOT] {
      } else if comp == [DOT, DOT] {
        PlainUp(out);
        out := PopComponent(out);
      } else {
        PlainPush(out, comp);
        var o := PushComponent(out, comp);
        match o {
          case None => return None;
          case Some(text) => out := text;
        }
      }
    }
    r := Some(out);
  }

  /** The current directory's text, as far as the buffer reaches. */
  method CopyCwd(cwd: Str) returns (out: Str)
    requires CwdOk(cwd)
    ensures out == cwd
  {
    out := [];
    var i := 0;
    while i < |cwd| && |out| + 1 < PATH_MAX
      invariant i <= |cwd| && out == cwd[..i]
    {
      out := out + [cwd[i]];
      i := i + 1;
    }
  }

  /** Cut a text behind its last slash. */
  method SplitLeaf(abs: Str) returns (par: Str, leaf: Str)
    requires Rooted(abs)
    ensures abs == par + leaf && EndsWithSlash(par) && SLASH !in leaf
  {
    var last, i := 0, 0;
    while i < |abs|
      invariant 0 <= i <= |abs| && last < |abs| && abs[last] == SLASH
      invariant forall j :: last < j < i ==> abs[j] != SLASH
    {
      if abs[i] == SLASH {
        last := i;
      }
      i := i + 1;
    }
    par, leaf := abs[..last + 1], abs[last + 1..];
  }

  /** The two parts hold the names of the directory and the last name. */
  lemma {:induction false} LeafSplit(par: Str, leaf: Str)
    requires EndsWithSlash(par) && SLASH !in leaf
    ensures Comps(par + leaf) == Comps(par) + if leaf == [] then [] else [leaf]
    ensures EndsWithSlash(par + leaf) <==> leaf == []
  {
    hide Comps;
    var a := par[..|par| - 1];
    assert par == a + [SLASH] + [] && par + leaf == a + [SLASH] + leaf;
    CompsSplit(a, []);
    CompsSplit(a, leaf);
    NoComps();
    CompsOfOne(leaf);
    if leaf != [] { assert leaf[|leaf| - 1] in leaf; }
  }

  // ----- walking

  /** What a walk ends on. */
  datatype Node = Node(isdir: bool, clus: nat, size: nat)

  ghost function Walk(v: Vol, d: nat, p: seq<Str>): (r: Option<Node>)
    decreases |p|
  {
    if p == [] then Some(Node(true, d, 0))
    else if |p[0]| > 12 then None
    else match NameSlot(v, d, p[0])
      case None => None
      case Some(i) =>
        var e := DirEnts(v, d)[i];
        if IsDir(e) then Walk(v, ClusOf(e), p[1..])
        else if |p| == 1 then Some(Node(false, ClusOf(e), SizeOf(e)))
        else None
  }

  /** The same walk over text, where a file must not be followed by anything, not even a slash. */
  ghost function WalkText(v: Vol, d: nat, p: Str): (r: Option<Node>)
    decreases |p|
  {
    var q := Skip(p, SLASH);
    if q == [] then Some(Node(true, d, 0))
    else
      var m := Index(q, SLASH);
      if m > 12 then None
      else match NameSlot(v, d, q[..m])
        case None => None
        case Some(i) =>
          var e := DirEnts(v, d)[i];
          if IsDir(e) then WalkText(v, ClusOf(e), q[m..])
          else if q[m..] == [] then Some(Node(false, ClusOf(e), SizeOf(e)))
          else None
  }

  /** Walking a text is walking its names; when it ends in a slash only a directory counts. */
  lemma {:induction false} WalkTextIs(v: Vol, d: nat, p: Str)
    ensures WalkText(v, d, p) ==
            match Walk(v, d, Comps(p))
            case Some(n) => (if n.isdir || !EndsWithSlash(p) then Some(n) else None)
            case None => None
    decreases |p|
  {
    hide NameSlot, DirEnts, ClusOf, SizeOf, IsDir, Comps, Skip, Walk;
    var q := Skip(p, SLASH);
    LastStays(p);
    CompsSkip(p);
    NoComps();
    WalkNone(v, d);
    if q != [] {
      var m := Index(q, SLASH);
      var rest := q[m..];
      CompsHead(q, m);
      WalkHead(v, d, q[..m], Comps(rest));
      if rest != [] && Comps(rest) == [] { OnlySlashes(rest); }
      match NameSlot(v, d, q[..m])
      case None =>
      case Some(i) => WalkTextIs(v, ClusOf(DirEnts(v, d)[i]), rest);
    }
  }

  lemma {:induction false} WalkHead(v: Vol, d: nat, c: Str, cs: seq<Str>)
    ensures Walk(v, d, [c] + cs) ==
            if |c| > 12 then None
            else match NameSlot(v, d, c)
              case None => None
              case Some(i) =>
                var e := DirEnts(v, d)[i];
                if IsDir(e) then Walk(v, ClusOf(e), cs)
                else if cs == [] then Some(Node(false, ClusOf(e), SizeOf(e)))
                else None
  {
    StepsTail(c, cs);
  }

  lemma {:induction false} WalkNone(v: Vol, d: nat)
    ensures Walk(v, d, []) == Some(Node(true, d, 0))
  {
  }

  lemma {:induction false} LastStays(p: Str)
    ensures var q := Skip(p, SLASH);
            q != [] ==> EndsWithSlash(p) == EndsWithSlash(q) && (Index(q, SLASH) < |q| || !EndsWithSlash(q))
    decreases |p|
  {
    if p != [] && p[0] == SLASH {
      LastStays(p[1..]);
    }
  }

  /** A walk ends on a directory exactly where a reader finds one, and on nothing where he finds nothing. */
  lemma {:induction false} WalkMeans(v: Vol, d: nat, p: seq<Str>)
    ensures match Walk(v, d, p)
            case None => DirAt(v, d, p) == None && Stat(v, d, p) == None
            case Some(n) =>
              if n.isdir then DirAt(v, d, p) == Some(n.clus) && Stat(v, d, p) == Some(DirObj)
              else DirAt(v, d, p) == None && Stat(v, d, p).Some? && Stat(v, d, p).value.FileObj?
    decreases |p|
  {
    if p != [] && |p[0]| <= 12 {
      match NameSlot(v, d, p[0])
      case None =>
      case Some(i) =>
        var e := DirEnts(v, d)[i];
        if IsDir(e) {
          WalkMeans(v, ClusOf(e), p[1..]);
        }
    }
  }

  /** The slot behind a file a walk found. */
  lemma {:induction false} WalkFindsSlot(g: Geo, v: Vol, t: Layout, d: nat, p: seq<Str>) returns (d': nat, i: nat)
    requires Consistent(g, v, t) && HasDir(t, d)
    requires Walk(v, d, p).Some? && !Walk(v, d, p).value.isdir
    ensures HasDir(t, d') && i < |DirEnts(v, d')| && Visible(DirEnts(v, d')[i]) && !IsDir(DirEnts(v, d')[i])
    ensures Walk(v, d, p) == Some(Node(false, ClusOf(DirEnts(v, d')[i]), SizeOf(DirEnts(v, d')[i])))
    ensures Stat(v, d, p) == Some(FileObj(FileBytes(v, DirEnts(v, d')[i])))
    decreases |p|
  {
    hide Consistent, HasDir, DirEnts, ClusOf, SizeOf, FileBytes;
    i := NameSlot(v, d, p[0]).value;
    var e := DirEnts(v, d)[i];
    if IsDir(e) {
      StepStaysInside(g, v, t, d, p[0]);
      d', i := WalkFindsSlot(g, v, t, ClusOf(e), p[1..]);
    } else {
      d' := d;
    }
  }
}
