/** The editor as lines with a cursor, what every key does to them, and the flat text they stand for. */
module KeoText {
  const MAXL: nat := 256
  const MAXC: nat := 256
  const TXT_ROWS: nat := 23
  const FILE_MAX: nat := 4096

  const ESC: int := 27
  const BACKSPACE: int := 8
  const NEWLINE: int := 10
  const KEY_UP: int := 0x80
  const KEY_DOWN: int := 0x81
  const KEY_LEFT: int := 0x82
  const KEY_RIGHT: int := 0x83
  const KEY_DEL: int := 0x84

  const NORMAL: nat := 0
  const INSERT: nat := 1
  const COMMAND: nat := 2

  datatype Ed = Ed(doc: seq<string>, cx: int, cy: int, top: int, dirty: bool, mode: nat, pendD: bool, pendG: bool)

  predicate GoodLine(l: string) { |l| < MAXC && '\n' !in l }

  predicate GoodDoc(d: seq<string>) {
    1 <= |d| <= MAXL && forall i :: 0 <= i < |d| ==> GoodLine(d[i])
  }

  /** The cursor is in the text. */
  predicate Good(e: Ed) {
    GoodDoc(e.doc) && 0 <= e.cy < |e.doc| && 0 <= e.cx <= |e.doc[e.cy]|
  }

  /** The cursor's line is on the screen. */
  predicate InView(e: Ed) { 0 <= e.top <= e.cy < e.top + TXT_ROWS }

  // ----- keys

  /** The number of 0..hi nearest to `x`. */
  function Between(x: int, hi: int): (r: int) {
    var y := if x < 0 then 0 else x;
    if y > hi then hi else y
  }

  function Dist(a: int, b: int): (n: nat) { if a < b then b - a else a - b }

  /** `y` is the number of 0..hi nearest to `x`. */
  ghost predicate Nearest(x: int, hi: int, y: int) {
    0 <= y <= hi && forall z :: 0 <= z <= hi ==> Dist(x, y) <= Dist(x, z)
  }

  /** There is one nearest number, and `Between` finds it. */
  lemma {:induction false} BetweenIsNearest(x: int, hi: int, y: int)
    requires hi >= 0
    ensures Nearest(x, hi, y) <==> y == Between(x, hi)
  {
    var b := Between(x, hi);
    assert forall z :: 0 <= z <= hi ==> Dist(x, b) <= Dist(x, z);
    if Nearest(x, hi, y) {
      assert Dist(x, y) <= Dist(x, b);
    }
  }

  /** A screen that starts at line `top` shows line `cy`. */
  predicate Shows(top: int, cy: int) { 0 <= top <= cy < top + 23 }

  /** `t` shows line `cy`, and no start that shows it is nearer to `top`. */
  ghost predicate NearestStart(top: int, cy: int, t: int) {
    Shows(t, cy) && forall u :: Shows(u, cy) ==> Dist(top, t) <= Dist(top, u)
  }

  lemma {:induction false} ScrolledIsNearest(top: int, cy: int, t: int)
    requires cy >= 0
    ensures NearestStart(top, cy, t) <==> t == Scrolled(top, cy)
  {
    var s := Scrolled(top, cy);
    assert Shows(s, cy);
    assert forall u :: Shows(u, cy) ==> Dist(top, s) <= Dist(top, u);
    if NearestStart(top, cy, t) {
      assert Dist(top, t) <= Dist(top, s);
    }
  }

  function Clamp(e: Ed): (r: Ed)
    requires e.doc != []
  {
    var cy := Between(e.cy, |e.doc| - 1);
    e.(cy := cy, cx := Between(e.cx, |e.doc[cy]|), top := Scrolled(e.top, cy))
  }

  /** The first line shown, moved no further than it takes to show line `cy`. */
  function Scrolled(top: int, cy: int): (r: int) {
    var t := if top > cy then cy else top;
    var u := if t < cy - (TXT_ROWS - 1) then cy - (TXT_ROWS - 1) else t;
    if u < 0 then 0 else u
  }

  function Line(e: Ed): (l: string)
    requires 0 <= e.cy < |e.doc|
  {
    e.doc[e.cy]
  }

  function DelChar(e: Ed): (r: Ed)
    requires 0 <= e.cy < |e.doc| && 0 <= e.cx
  {
    if e.cx < |Line(e)| then
      e.(doc := e.doc[e.cy := Line(e)[..e.cx] + Line(e)[e.cx + 1..]], dirty := true)
    else e
  }

  function DelLine(e: Ed): (r: Ed)
    requires 0 <= e.cy < |e.doc|
  {
    if |e.doc| == 1 then e.(doc := [""], cx := 0, dirty := true)
    else e.(doc := e.doc[..e.cy] + e.doc[e.cy + 1..], dirty := true)
  }

  function OpenLine(e: Ed, below: bool): (r: Ed)
    requires 0 <= e.cy < |e.doc|
  {
    if |e.doc| >= MAXL then e
    else
      var at := if below then e.cy + 1 else e.cy;
      e.(doc := e.doc[..at] + [""] + e.doc[at..], cy := at, cx := 0, dirty := true, mode := INSERT)
  }

  function Plain(e: Ed, c: int): (r: Ed)
    requires Good(e)
  {
    if c == 'h' as int || c == KEY_LEFT then (if e.cx > 0 then e.(cx := e.cx - 1) else e)
    else if c == 'l' as int || c == KEY_RIGHT then (if e.cx < |Line(e)| then e.(cx := e.cx + 1) else e)
    else if c == 'j' as int || c == KEY_DOWN then (if e.cy < |e.doc| - 1 then e.(cy := e.cy + 1) else e)
    else if c == 'k' as int || c == KEY_UP then (if e.cy > 0 then e.(cy := e.cy - 1) else e)
    else if c == 'i' as int then e.(mode := INSERT)
    else if c == 'a' as int then e.(cx := if e.cx < |Line(e)| then e.cx + 1 else e.cx, mode := INSERT)
    else if c == 'A' as int then e.(cx := |Line(e)|, mode := INSERT)
    else if c == 'o' as int then OpenLine(e, true)
    else if c == 'O' as int then OpenLine(e, false)
    else if c == 'x' as int || c == KEY_DEL then DelChar(e)
    else if c == 'G' as int then e.(cy := |e.doc| - 1)
    else if c == '0' as int then e.(cx := 0)
    else if c == '$' as int then e.(cx := if |Line(e)| > 0 then |Line(e)| - 1 else 0)
    else if c == ':' as int then e.(mode := COMMAND)
    else e
  }

  /** The keys that edit or change the mode. */
  predicate Acts(c: int) {
    c == 'i' as int || c == 'a' as int || c == 'A' as int || c == 'o' as int || c == 'O' as int || c == 'x' as int
    || c == KEY_DEL || c == ':' as int
  }

  /** A key outside insert mode; "d" and "g" wait for their second press, and do not cancel each other. */
  function NormalKey(e: Ed, c: int): (r: Ed)
    requires Good(e)
  {
    if c == 'd' as int then
      if e.pendD then DelLine(e).(pendD := false, pendG := false) else e.(pendD := true)
    else if c == 'g' as int then
      if e.pendG then e.(cy := 0, pendD := false, pendG := false) else e.(pendG := true)
    else Plain(e, c).(pendD := false, pendG := false)
  }

  function IsArrow(c: int): bool { c == KEY_UP || c == KEY_DOWN || c == KEY_LEFT || c == KEY_RIGHT }

  function SplitLine(e: Ed): (r: Ed)
    requires 0 <= e.cy < |e.doc| && 0 <= e.cx <= |e.doc[e.cy]|
  {
    e.(doc := Split(e.doc, e.cy, e.cx), cy := e.cy + 1, cx := 0, dirty := true)
  }

  function Split(d: seq<string>, y: nat, x: nat): (r: seq<string>)
    requires y < |d| && x <= |d[y]|
  {
    d[..y] + [d[y][..x], d[y][x..]] + d[y + 1..]
  }

  function JoinLines(e: Ed): (r: Ed)
    requires 0 < e.cy < |e.doc|
  {
    var a := e.doc[e.cy - 1];
    e.(doc := e.doc[..e.cy - 1] + [a + Line(e)] + e.doc[e.cy + 1..], cy := e.cy - 1, cx := |a|, dirty := true)
  }

  function PutChar(e: Ed, c: int): (r: Ed)
    requires 0 <= e.cy < |e.doc| && 0 <= e.cx <= |Line(e)| && 0 <= c < 127
  {
    e.(doc := e.doc[e.cy := Line(e)[..e.cx] + [c as char] + Line(e)[e.cx..]], cx := e.cx + 1, dirty := true)
  }

  function InsertKey(e: Ed, c: int): (r: Ed)
    requires Good(e)
  {
    if c == ESC then e.(mode := NORMAL)
    else if IsArrow(c) then NormalKey(e, c)
    else if c == NEWLINE then (if |e.doc| >= MAXL then e else SplitLine(e))
    else if c == BACKSPACE then
      if e.cx > 0 then DelChar(e.(cx := e.cx - 1))
      else if e.cy > 0 && |e.doc[e.cy - 1]| + |Line(e)| < MAXC then JoinLines(e)
      else e
    else if 32 <= c < 127 && |Line(e)| < MAXC - 1 then PutChar(e, c)
    else e
  }

  /** Keys go to the text in these two modes, in the third to the command line. */
  predicate Editing(e: Ed) { e.mode == NORMAL || e.mode == INSERT }

  function Key(e: Ed, c: int): (r: Ed)
    requires Good(e) && Editing(e)
  {
    if e.mode == NORMAL then NormalKey(e, c) else InsertKey(e, c)
  }

  // ----- what every key keeps

  lemma {:induction false} ClampIsGood(e: Ed)
    requires GoodDoc(e.doc)
    ensures Good(Clamp(e)) && InView(Clamp(e)) && Clamp(e).doc == e.doc
  {
  }

  /** Clamping moves no cursor that is in the text. */
  lemma {:induction false} ClampKeeps(e: Ed)
    requires Good(e)
    ensures Clamp(e).cx == e.cx && Clamp(e).cy == e.cy
  {
  }

  lemma {:induction false} SplitIsGood(d: seq<string>, y: nat, x: nat)
    requires GoodDoc(d) && |d| < MAXL && y < |d| && x <= |d[y]|
    ensures GoodDoc(Split(d, y, x)) && |Split(d, y, x)| == |d| + 1
  {
    assert GoodLine(d[y]);
  }

  lemma {:induction false} InsertKeyKeeps(e: Ed, c: int)
    requires Good(e)
    ensures GoodDoc(InsertKey(e, c).doc)
  {
    hide NormalKey, SplitLine, DelChar, JoinLines, PutChar, GoodDoc;
    if IsArrow(c) {
      NormalKeyKeeps(e, c);
    } else if c == NEWLINE {
      SplitKeeps(e);
    } else if c == BACKSPACE {
      if e.cx > 0 {
        DelKeeps(e.(cx := e.cx - 1));
      } else if e.cy > 0 && |e.doc[e.cy - 1]| + |Line(e)| < MAXC {
        JoinKeeps(e);
      }
    } else if 32 <= c < 127 {
      PutKeeps(e, c);
    }
  }

  lemma {:induction false} SplitKeeps(e: Ed)
    requires Good(e)
    ensures |e.doc| < MAXL ==> GoodDoc(SplitLine(e).doc)
  {
    if |e.doc| < MAXL {
      SplitIsGood(e.doc, e.cy, e.cx);
    }
  }

  lemma {:induction false} JoinKeeps(e: Ed)
    requires Good(e) && e.cy > 0 && |e.doc[e.cy - 1]| + |Line(e)| < MAXC
    ensures GoodDoc(JoinLines(e).doc)
  {
    assert GoodLine(Line(e)) && GoodLine(e.doc[e.cy - 1]);
  }

  lemma {:induction false} PutKeeps(e: Ed, c: int)
    requires Good(e) && 32 <= c < 127
    ensures |Line(e)| < MAXC - 1 ==> GoodDoc(PutChar(e, c).doc)
  {
    assert GoodLine(Line(e));
  }

  lemma {:induction false} NormalKeyKeeps(e: Ed, c: int)
    requires Good(e)
    ensures GoodDoc(NormalKey(e, c).doc)
  {
    hide OpenLine, DelLine, DelChar, GoodDoc;
    OpenLineKeeps(e, true);
    OpenLineKeeps(e, false);
    DelKeeps(e);
  }

  /** Opening a line is cutting a line at its end, or at its start. */
  lemma {:induction false} OpenIsSplit(e: Ed, below: bool)
    requires 0 <= e.cy < |e.doc| < MAXL
    ensures OpenLine(e, below).doc == Split(e.doc, e.cy, if below then |Line(e)| else 0)
  {
    var l := Line(e);
    if below {
      assert l[..|l|] == l && l[|l|..] == "";
      assert e.doc[..e.cy + 1] == e.doc[..e.cy] + [l];
    } else {
      assert l[..0] == "" && l[0..] == l;
      assert e.doc[e.cy..] == [l] + e.doc[e.cy + 1..];
    }
  }

  lemma {:induction false} OpenLineKeeps(e: Ed, below: bool)
    requires Good(e)
    ensures GoodDoc(OpenLine(e, below).doc)
  {
    hide Split;
    if |e.doc| < MAXL {
      OpenIsSplit(e, below);
      SplitIsGood(e.doc, e.cy, if below then |Line(e)| else 0);
    }
  }

  lemma {:induction false} DelKeeps(e: Ed)
    requires Good(e)
    ensures GoodDoc(DelLine(e).doc) && GoodDoc(DelChar(e).doc)
  {
    assert GoodLine(Line(e));
  }

  lemma {:induction false} KeyKeeps(e: Ed, c: int)
    requires Good(e) && Editing(e)
    ensures GoodDoc(Key(e, c).doc)
  {
    hide InsertKey, NormalKey;
    InsertKeyKeeps(e, c);
    NormalKeyKeeps(e, c);
  }

  /** One turn of the editor's loop on the text: a key, then the clamp that drawing does first. */
  function Turn(e: Ed, c: int): (r: Ed)
    requires Good(e) && Editing(e)
    ensures Good(r) && InView(r)
  {
    KeyKeeps(e, c);
    ClampIsGood(Key(e, c));
    Clamp(Key(e, c))
  }

  lemma {:induction false} Waits(e: Ed, c: int)
    requires Good(e) && e.mode == NORMAL
    requires (c == 'd' as int && !e.pendD) || (c == 'g' as int && !e.pendG)
    ensures var r := Turn(e, c);
            && r.doc == e.doc && r.cy == e.cy && r.mode == NORMAL && Good(r)
            && r.pendD == (e.pendD || c == 'd' as int) && r.pendG == (e.pendG || c == 'g' as int)
  {
  }

  lemma {:induction false} SecondD(e: Ed)
    requires Good(e) && e.mode == NORMAL && e.pendD
    ensures Turn(e, 'd' as int).doc == DelLine(e).doc
  {
    KeyKeeps(e, 'd' as int);
    ClampIsGood(Key(e, 'd' as int));
  }

  lemma {:induction false} SameLine(e: Ed, r: Ed)
    requires Good(e) && r.doc == e.doc && r.cy == e.cy
    ensures DelLine(r).doc == DelLine(e).doc
  {
  }

  // ----- the flat text

  function Text(d: seq<string>): (t: string) {
    if d == [] then "" else if |d| == 1 then d[0] else d[0] + "\n" + Text(d[1..])
  }

  function LineStart(d: seq<string>, k: nat): (n: nat)
    requires k <= |d|
  {
    if k == 0 then 0 else LineStart(d, k - 1) + |d[k - 1]| + 1
  }

  /** The cursor as a position in the flat text. */
  function Offset(e: Ed): (o: int)
    requires 0 <= e.cy < |e.doc|
  {
    LineStart(e.doc, e.cy) + e.cx
  }

  lemma {:induction false} TextCat(a: seq<string>, b: seq<string>)
    requires a != [] && b != []
    ensures Text(a + b) == Text(a) + "\n" + Text(b)
    decreases |a|
  {
    if |a| == 1 {
      assert (a + b)[1..] == b;
    } else {
      assert (a + b)[1..] == a[1..] + b;
      TextCat(a[1..], b);
      assert a[0] + "\n" + (Text(a[1..]) + "\n" + Text(b)) == a[0] + "\n" + Text(a[1..]) + "\n" + Text(b);
    }
  }

  /** The text before line `y`, and the text behind it. */
  function Before(d: seq<string>, y: nat): (t: string)
    requires y <= |d|
  {
    if y == 0 then "" else Text(d[..y]) + "\n"
  }

  function Behind(d: seq<string>, y: nat): (t: string)
    requires y <= |d|
  {
    if y == |d| then "" else "\n" + Text(d[y..])
  }

  lemma {:induction false} Around(d: seq<string>, y: nat)
    requires y < |d|
    ensures Text(d) == Before(d, y) + d[y] + Behind(d, y + 1)
  {
    assert d == d[..y] + d[y..] && d[y..] == [d[y]] + d[y + 1..];
    assert Text([d[y]]) == d[y];
    if y > 0 {
      TextCat(d[..y], d[y..]);
    }
    if y + 1 < |d| {
      TextCat([d[y]], d[y + 1..]);
      assert [d[y]] + d[y + 1..] == d[y..];
    } else {
      assert d[y..] == [d[y]];
    }
  }

  lemma {:induction false} BeforeLength(d: seq<string>, y: nat)
    requires y <= |d|
    ensures |Before(d, y)| == LineStart(d, y)
    decreases y
  {
    if y > 0 {
      BeforeLength(d, y - 1);
      Around(d[..y], y - 1);
      assert d[..y][..y - 1] == d[..y - 1];
    }
  }

  /** Replacing a line replaces its stretch of the text. */
  lemma {:induction false} EditText(d: seq<string>, y: nat, l: string)
    requires y < |d|
    ensures Text(d[y := l]) == Before(d, y) + l + Behind(d, y + 1)
  {
    var m := d[y := l];
    Around(m, y);
    assert m[..y] == d[..y] && m[y + 1..] == d[y + 1..];
  }

  /** Cutting a line in two puts a newline into the text. */
  lemma {:induction false} SplitText(d: seq<string>, y: nat, x: nat)
    requires y < |d| && x <= |d[y]|
    ensures Text(Split(d, y, x)) == Before(d, y) + d[y][..x] + "\n" + d[y][x..] + Behind(d, y + 1)
  {
    hide Text, Behind;
    var m, a, b := Split(d, y, x), d[y][..x], d[y][x..];
    Around(m, y);
    assert m[..y] == d[..y] && m[y] == a && m[y + 1] == b && m[y + 2..] == d[y + 1..];
    SplitBehind(m, d, y, b);
    Regroup(Before(d, y), a, b, Behind(d, y + 1));
  }

  lemma {:induction false} Regroup(a: string, b: string, c: string, d: string)
    ensures a + b + ("\n" + (c + d)) == a + b + "\n" + c + d
  {
  }

  lemma {:induction false} SplitBehind(m: seq<string>, d: seq<string>, y: nat, b: string)
    requires y < |d| && |m| == |d| + 1 && m[y + 1] == b && m[y + 2..] == d[y + 1..]
    ensures Behind(m, y + 1) == "\n" + (b + Behind(d, y + 1))
  {
    var t := m[y + 1..];
    Around(t, 0);
    assert t[0] == b && t[1..] == d[y + 1..];
    assert Before(t, 0) == "";
  }

  /** `t` with `c` inserted at `o`, and `t` without its character at `o`. */
  function Inserted(t: string, o: nat, c: char): string
    requires o <= |t|
  {
    t[..o] + [c] + t[o..]
  }

  function Removed(t: string, o: nat): string
    requires o < |t|
  {
    t[..o] + t[o + 1..]
  }

  /** From `e` to `r` the text gains `c` at `at`, and the cursor ends at position `o`. */
  predicate Puts(e: Ed, r: Ed, at: int, c: char, o: int) {
    && 0 <= at <= |Text(e.doc)| && Text(r.doc) == Inserted(Text(e.doc), at, c)
    && 0 <= r.cy < |r.doc| && Offset(r) == o
  }

  /** From `e` to `r` the text loses its character at `at`, and the cursor ends there. */
  predicate Takes(e: Ed, r: Ed, at: int) {
    && 0 <= at < |Text(e.doc)| && Text(r.doc) == Removed(Text(e.doc), at)
    && 0 <= r.cy < |r.doc| && Offset(r) == at
  }

  /** Where the cursor is in its text. */
  lemma {:induction false} OffsetIn(e: Ed)
    requires Good(e)
    ensures 0 <= Offset(e) <= |Text(e.doc)|
    ensures Offset(e) == 0 <==> e.cx == 0 && e.cy == 0
    ensures e.cx < |Line(e)| ==> Offset(e) < |Text(e.doc)|
  {
    Around(e.doc, e.cy);
    BeforeLength(e.doc, e.cy);
  }

  lemma {:induction false} InsertedInto(a: string, b: string, c: string, d: string, ch: char)
    ensures Inserted(a + (b + c) + d, |a| + |b|, ch) == a + (b + [ch] + c) + d
    ensures Inserted(a + (b + c) + d, |a| + |b|, ch) == a + b + [ch] + c + d
    ensures Removed(a + (b + [ch] + c) + d, |a| + |b|) == a + (b + c) + d
  {
    var t := a + (b + c) + d;
    assert t[..|a| + |b|] == a + b && t[|a| + |b|..] == c + d;
    var u := a + (b + [ch] + c) + d;
    assert u[..|a| + |b|] == a + b && u[|a| + |b| + 1..] == c + d;
  }

  /** A line cut at `x` puts a newline at that place of the text. */
  lemma {:induction false} SplitInserts(d: seq<string>, y: nat, x: nat)
    requires y < |d| && x <= |d[y]|
    ensures LineStart(d, y) + x <= |Text(d)| && Text(Split(d, y, x)) == Inserted(Text(d), LineStart(d, y) + x, '\n')
    ensures LineStart(Split(d, y, x), y) == LineStart(d, y)
    ensures LineStart(Split(d, y, x), y + 1) == LineStart(d, y) + x + 1
  {
    hide Text, Before, Behind;
    var a, b := d[y][..x], d[y][x..];
    Around(d, y);
    BeforeLength(d, y);
    SplitText(d, y, x);
    assert d[y] == a + b;
    InsertedInto(Before(d, y), a, b, Behind(d, y + 1), '\n');
    StartFrame(d, Split(d, y, x), y);
  }

  lemma {:induction false} StartFrame(d: seq<string>, m: seq<string>, y: nat)
    requires y <= |d| && y <= |m| && d[..y] == m[..y]
    ensures LineStart(d, y) == LineStart(m, y)
    decreases y
  {
    if y > 0 {
      assert d[y - 1] == d[..y][y - 1] && m[y - 1] == m[..y][y - 1];
      assert d[..y - 1] == d[..y][..y - 1] && m[..y - 1] == m[..y][..y - 1];
      StartFrame(d, m, y - 1);
    }
  }

  lemma {:induction false} PutCharInserts(e: Ed, c: int)
    requires Good(e) && 0 <= c < 127
    ensures Puts(e, PutChar(e, c), Offset(e), c as char, Offset(e) + 1)
  {
    hide Text, Before, Behind;
    var d, y, a, b := e.doc, e.cy, Line(e)[..e.cx], Line(e)[e.cx..];
    OffsetIn(e);
    Around(d, y);
    BeforeLength(d, y);
    assert Line(e) == a + b;
    EditText(d, y, a + [c as char] + b);
    InsertedInto(Before(d, y), a, b, Behind(d, y + 1), c as char);
    StartFrame(d, PutChar(e, c).doc, y);
  }

  lemma {:induction false} DelCharRemoves(e: Ed)
    requires Good(e) && e.cx < |Line(e)|
    ensures Takes(e, DelChar(e), Offset(e))
  {
    hide Text, Before, Behind;
    var d, y, a, b := e.doc, e.cy, Line(e)[..e.cx], Line(e)[e.cx + 1..];
    OffsetIn(e);
    Around(d, y);
    BeforeLength(d, y);
    assert Line(e) == a + [Line(e)[e.cx]] + b;
    EditText(d, y, a + b);
    InsertedInto(Before(d, y), a, b, Behind(d, y + 1), Line(e)[e.cx]);
    StartFrame(d, DelChar(e).doc, y);
  }

  /** Joining two lines is undone by cutting at the seam. */
  lemma {:induction false} JoinRemoves(e: Ed)
    requires Good(e) && e.cx == 0 && e.cy > 0
    ensures Takes(e, JoinLines(e), Offset(e) - 1)
  {
    hide Text, Split, LineStart, Inserted, Removed;
    var j := JoinLines(e);
    var y, x := e.cy - 1, |e.doc[e.cy - 1]|;
    OffsetIn(e);
    JoinIsCut(e);
    SplitInserts(j.doc, y, x);
    RemovedInserted(Text(j.doc), LineStart(j.doc, y) + x, '\n');
  }

  lemma {:induction false} JoinIsCut(e: Ed)
    requires 0 < e.cy < |e.doc|
    ensures var j, x := JoinLines(e), |e.doc[e.cy - 1]|;
            |j.doc| == |e.doc| - 1 && x <= |j.doc[e.cy - 1]| && Split(j.doc, e.cy - 1, x) == e.doc
  {
    var a, l := e.doc[e.cy - 1], Line(e);
    assert (a + l)[..|a|] == a && (a + l)[|a|..] == l;
    assert e.doc == e.doc[..e.cy - 1] + [a, l] + e.doc[e.cy + 1..];
  }

  lemma {:induction false} RemovedInserted(t: string, o: nat, c: char)
    requires o <= |t|
    ensures Removed(Inserted(t, o, c), o) == t
  {
    assert Inserted(t, o, c)[..o] == t[..o] && Inserted(t, o, c)[o + 1..] == t[o..];
  }

  /** What a key in insert mode does to the flat text and to the position in it. */
  lemma {:induction false} InsertKeyText(e: Ed, c: int)
    requires Good(e)
    ensures var r, o := InsertKey(e, c), Offset(e);
            if c == NEWLINE && |e.doc| < MAXL then Puts(e, r, o, '\n', o + 1)
            else if 32 <= c < 127 && |Line(e)| < MAXC - 1 then Puts(e, r, o, c as char, o + 1)
            else if c == BACKSPACE && o > 0 && (e.cx > 0 || |e.doc[e.cy - 1]| + |Line(e)| < MAXC)
            then Takes(e, r, o - 1)
            else r.doc == e.doc
  {
    hide Text, DelChar, PutChar, SplitLine, JoinLines, LineStart, Inserted, Removed, Split, Puts, Takes, NormalKey;
    OffsetIn(e);
    if c == NEWLINE && |e.doc| < MAXL {
      SplitPuts(e);
    } else if IsArrow(c) {
      ArrowsMove(e, c);
    } else if c == BACKSPACE {
      if e.cx > 0 {
        StepBack(e);
        DelCharRemoves(e.(cx := e.cx - 1));
      } else if e.cy > 0 {
        JoinRemoves(e);
      }
    } else if 32 <= c < 127 {
      PutCharInserts(e, c);
    }
  }

  lemma {:induction false} InsertCursor(e: Ed, c: int)
    requires Good(e) && !IsArrow(c)
    ensures Good(InsertKey(e, c))
  {
    hide GoodDoc;
    InsertKeyKeeps(e, c);
  }

  /**
   * One turn in insert mode: an accepted character or newline is inserted at the cursor, an accepted
   * backspace takes the one before it, and any other key but the arrows moves nothing.
   */
  lemma {:induction false} TypingTurn(e: Ed, c: int)
    requires Good(e) && e.mode == INSERT && !IsArrow(c)
    ensures var r, o := Turn(e, c), Offset(e);
            if c == 10 && |e.doc| < 256 then Puts(e, r, o, '\n', o + 1)
            else if 32 <= c < 127 && |Line(e)| <= 254 then Puts(e, r, o, c as char, o + 1)
            else if c == 8 && o > 0 && (e.cx > 0 || |e.doc[e.cy - 1]| + |Line(e)| <= 255)
            then Takes(e, r, o - 1)
            else r.doc == e.doc && Offset(r) == o
  {
    hide Text, LineStart, InsertKey, Inserted, Removed, GoodDoc;
    InsertKeyText(e, c);
    InsertCursor(e, c);
    var r := InsertKey(e, c);
    ClampIsGood(r);
    ClampKeeps(r);
    OffsetIn(e);
    if !Changing(e, c) {
      StillThere(e, c);
    }
  }

  /** The key changes the text. */
  predicate Changing(e: Ed, c: int)
    requires Good(e)
  {
    || (c == NEWLINE && |e.doc| < MAXL)
    || (32 <= c < 127 && |Line(e)| < MAXC - 1)
    || (c == BACKSPACE && Offset(e) > 0 && (e.cx > 0 || e.cy == 0 || |e.doc[e.cy - 1]| + |Line(e)| < MAXC))
  }

  /** A refused key leaves the cursor where it was. */
  lemma {:induction false} StillThere(e: Ed, c: int)
    requires Good(e) && !IsArrow(c) && !Changing(e, c)
    ensures InsertKey(e, c) == e.(mode := InsertKey(e, c).mode)
  {
    hide Text, LineStart;
    OffsetIn(e);
  }

  lemma {:induction false} ArrowsMove(e: Ed, c: int)
    requires Good(e) && IsArrow(c)
    ensures NormalKey(e, c).doc == e.doc
  {
    hide OpenLine, DelLine, DelChar;
  }

  lemma {:induction false} StepBack(e: Ed)
    requires Good(e) && e.cx > 0
    ensures var b := e.(cx := e.cx - 1);
            Good(b) && Offset(b) == Offset(e) - 1
            && (Takes(b, DelChar(b), Offset(b)) ==> Takes(e, DelChar(b), Offset(b)))
  {
    hide DelChar, LineStart;
  }

  lemma {:induction false} SplitPuts(e: Ed)
    requires Good(e) && |e.doc| < MAXL
    ensures Puts(e, SplitLine(e), Offset(e), '\n', Offset(e) + 1)
  {
    hide Text, LineStart, Inserted, Split;
    SplitInserts(e.doc, e.cy, e.cx);
    SplitIsGood(e.doc, e.cy, e.cx);
  }

  /** Opening a line puts a newline at the end, or at the start, of the cursor's line. */
  lemma {:induction false} OpenLineInserts(e: Ed, below: bool)
    requires Good(e) && |e.doc| < MAXL
    ensures var at := LineStart(e.doc, e.cy) + if below then |Line(e)| else 0;
            Puts(e, OpenLine(e, below), at, '\n', if below then at + 1 else at)
  {
    hide Text, LineStart, Split, Inserted;
    OpenIsSplit(e, below);
    SplitInserts(e.doc, e.cy, if below then |Line(e)| else 0);
  }

  /** What a key outside insert mode does to the flat text. */
  lemma {:induction false} NormalKeyText(e: Ed, c: int)
    requires Good(e)
    ensures var start, r := LineStart(e.doc, e.cy), NormalKey(e, c);
            if (c == 'x' as int || c == KEY_DEL) && e.cx < |Line(e)| then Takes(e, r, Offset(e))
            else if c == 'o' as int && |e.doc| < MAXL then
              Puts(e, r, start + |Line(e)|, '\n', start + |Line(e)| + 1)
            else if c == 'O' as int && |e.doc| < MAXL then Puts(e, r, start, '\n', start)
            else if c == 'd' as int && e.pendD then r.doc == DelLine(e).doc
            else r.doc == e.doc
  {
    hide Text, DelChar, LineStart, DelLine, OpenLine, Inserted, Removed;
    if c == 'x' as int || c == KEY_DEL {
      if e.cx < |Line(e)| { DelCharRemoves(e); } else { NoChar(e); }
    } else if c == 'o' as int || c == 'O' as int {
      if |e.doc| < MAXL { OpenLineInserts(e, c == 'o' as int); } else { NoRoom(e, c == 'o' as int); }
    }
  }

  /** `r` is `e` with the cursor in line `y` at text position `o`, in mode `m`; text and mark are as they were. */
  predicate Moved(e: Ed, r: Ed, y: int, o: int, m: nat)
    requires Good(e)
  {
    r.doc == e.doc && r.dirty == e.dirty && r.cy == y && 0 <= y < |e.doc| && Offset(r) == o && r.mode == m
  }

  /** Left and right move by one character inside the line and not beyond it; up and down by one line, in the column. */
  predicate Arrows(e: Ed, r: Ed, c: int)
    requires Good(e)
  {
    var o, y, last := Offset(e), e.cy, |e.doc| - 1;
    && (c == 0x82 ==> Moved(e, r, y, if e.cx > 0 then o - 1 else o, e.mode))
    && (c == 0x83 ==> Moved(e, r, y, if e.cx < |Line(e)| then o + 1 else o, e.mode))
    && (c == 0x80 ==> r == e.(cy := if y > 0 then y - 1 else y, pendD := r.pendD, pendG := r.pendG))
    && (c == 0x81 ==> r == e.(cy := if y < last then y + 1 else y, pendD := r.pendD, pendG := r.pendG))
  }

  /** The arrows outside insert mode, and the letters that stand for them. */
  lemma {:induction false} NormalArrows(e: Ed, c: int)
    requires Good(e)
    ensures var r := NormalKey(e, c);
            && Arrows(e, r, c)
            && (c == 'h' as int ==> Arrows(e, r, 0x82)) && (c == 'l' as int ==> Arrows(e, r, 0x83))
            && (c == 'k' as int ==> Arrows(e, r, 0x80)) && (c == 'j' as int ==> Arrows(e, r, 0x81))
  {
    hide LineStart, DelLine, OpenLine, DelChar;
  }

  /** The keys that go to a named place, and those that change the mode. */
  lemma {:induction false} NormalPlaces(e: Ed, c: int)
    requires Good(e)
    ensures var r, o, y, start, len := NormalKey(e, c), Offset(e), e.cy, LineStart(e.doc, e.cy), |Line(e)|;
            && (c == 'G' as int ==> r == e.(cy := |e.doc| - 1, pendD := false, pendG := false))
            && (c == '0' as int ==> Moved(e, r, y, start, e.mode))
            && (c == '$' as int ==> Moved(e, r, y, if len > 0 then start + len - 1 else start, e.mode))
            && (c == 'i' as int ==> Moved(e, r, y, o, 1))
            && (c == 'a' as int ==> Moved(e, r, y, if e.cx < len then o + 1 else o, 1))
            && (c == 'A' as int ==> Moved(e, r, y, start + len, 1))
            && (c == ':' as int ==> Moved(e, r, y, o, 2))
  {
    hide LineStart, DelLine, OpenLine, DelChar;
  }

  /** "d" and "g" wait for their second press; every other key ends the waiting. */
  lemma {:induction false} NormalWaiting(e: Ed, c: int)
    requires Good(e)
    ensures var r := NormalKey(e, c);
            && (c == 'g' as int && !e.pendG ==> r == e.(pendG := true))
            && (c == 'g' as int && e.pendG ==> r == e.(cy := 0, pendD := false, pendG := false))
            && (c == 'd' as int && !e.pendD ==> r == e.(pendD := true))
            && (c == 'd' as int && e.pendD ==> r.mode == e.mode && r.cy == e.cy && !r.pendD && !r.pendG)
            && (c != 'd' as int && c != 'g' as int ==> !r.pendD && !r.pendG)
  {
    hide Plain;
  }

  /** Deleting keeps the cursor, an opened line is typed into, and what is no key of the mode does nothing. */
  lemma {:induction false} NormalEdits(e: Ed, c: int)
    requires Good(e)
    ensures var r := NormalKey(e, c);
            && (c == 'x' as int || c == 0x84 ==> r.cy == e.cy && r.cx == e.cx && r.mode == e.mode)
            && ((c == 'o' as int || c == 'O' as int) && |e.doc| < 256 ==> r.mode == 1)
            && ((c == 'o' as int || c == 'O' as int) && |e.doc| == 256 ==> Moved(e, r, e.cy, Offset(e), e.mode))
            && (!NormalCommand(c) ==> Moved(e, r, e.cy, Offset(e), e.mode))
  {
    hide LineStart, DelLine;
  }

  /** The arrows, the delete key, and the letters with a meaning outside insert mode. */
  predicate NormalCommand(c: int) {
    0x80 <= c <= 0x84 || (0 <= c < 128 && c as char in "hjkliaAoOxG0$:dg")
  }

  /** In insert mode the arrows do the same and stay in the mode, escape leaves it, and no other key does. */
  lemma {:induction false} InsertKeyCursor(e: Ed, c: int)
    requires Good(e) && e.mode == 1
    ensures var r := InsertKey(e, c);
            && (c in {0x80, 0x81, 0x82, 0x83} ==> Arrows(e, r, c))
            && (if c == 27 then Moved(e, r, e.cy, Offset(e), 0) else r.mode == 1)
  {
    hide LineStart, SplitLine, JoinLines, PutChar, DelChar;
    if IsArrow(c) { NormalArrows(e, c); }
    InsertModes(e, c);
  }

  lemma {:induction false} InsertModes(e: Ed, c: int)
    requires Good(e)
    ensures !IsArrow(c) && c != ESC ==> InsertKey(e, c).mode == e.mode
  {
  }

  lemma {:induction false} NoRoom(e: Ed, below: bool)
    requires Good(e) && |e.doc| >= MAXL
    ensures OpenLine(e, below) == e
  {
  }

  lemma {:induction false} NoChar(e: Ed)
    requires Good(e) && e.cx == |Line(e)|
    ensures DelChar(e) == e
  {
  }

  /** Deleting a line takes its characters and one newline out of the text; the last line leaves an empty one. */
  lemma {:induction false} DelLineText(e: Ed)
    requires Good(e)
    ensures var d, y := e.doc, e.cy;
            Text(DelLine(e).doc) ==
            if |d| == 1 then "" else if y + 1 < |d| then Before(d, y) + Behind(d, y + 1)[1..] else Text(d[..y])
  {
    var d, y := e.doc, e.cy;
    if |d| > 1 {
      var m := d[..y] + d[y + 1..];
      if y + 1 < |d| {
        if y > 0 {
          TextCat(d[..y], d[y + 1..]);
        } else {
          assert m == d[y + 1..];
        }
      } else {
        assert m == d[..y];
      }
    }
  }

  /** Lines can be told from the flat text: documents without newlines in their lines that read alike are alike. */
  lemma {:induction false} SameTextSameLines(a: seq<string>, b: seq<string>)
    requires a != [] && b != [] && (forall l :: l in a ==> '\n' !in l) && (forall l :: l in b ==> '\n' !in l)
    requires Text(a) == Text(b)
    ensures a == b
    decreases |a|
  {
    FirstLine(a);
    FirstLine(b);
    if |a| > 1 && |b| > 1 {
      assert Text(a)[|a[0]| + 1..] == Text(a[1..]) && Text(b)[|b[0]| + 1..] == Text(b[1..]);
      SameTextSameLines(a[1..], b[1..]);
      assert a == [a[0]] + a[1..] && b == [b[0]] + b[1..];
    } else {
      assert |a| == 1 ==> '\n' !in Text(a);
      assert |b| == 1 ==> '\n' !in Text(b);
      assert a == [a[0]] && b == [b[0]];
    }
  }

  lemma {:induction false} FirstLine(a: seq<string>)
    requires a != [] && forall l :: l in a ==> '\n' !in l
    ensures |a[0]| <= |Text(a)| && Text(a)[..|a[0]|] == a[0] && '\n' !in a[0]
    ensures |a| > 1 ==> |a[0]| < |Text(a)| && Text(a)[|a[0]|] == '\n'
    ensures |a| == 1 ==> Text(a) == a[0]
  {
    assert a[0] in a;
  }
}
