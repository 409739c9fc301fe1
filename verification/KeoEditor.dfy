/** The editor over its fixed two-dimensional buffer, edited in place by shifting loops. */
module KeoEditor {
  import opened Arith
  import opened Bytes
  import opened KeoText
  import opened KeoFile

  const FS_FULL: int := -3
  const NO_NAME: int := -99

  class Keo {
    const lines: array2<char>
    const lens: array<int>
    var nlines: int
    var cx: int
    var cy: int
    var top: int
    var dirty: bool
    var mode: nat
    var pendD: bool
    var pendG: bool

    predicate Store()
      reads lens
    {
      && lines.Length0 == MAXL && lines.Length1 == MAXC && lens.Length == MAXL
      && forall i :: 0 <= i < MAXL ==> 0 <= lens[i] < MAXC
    }

    /** The characters of one line; what stands behind its length is no part of it. */
    function Row(i: nat): (r: string)
      requires Store() && i < MAXL
      reads lines, lens
      ensures |r| == lens[i] && forall j :: 0 <= j < lens[i] ==> r[j] == lines[i, j]
    {
      Front(i, lens[i])
    }

    function Front(i: nat, n: nat): (r: string)
      requires i < lines.Length0 && n <= lines.Length1
      reads lines
      ensures |r| == n && forall j :: 0 <= j < n ==> r[j] == lines[i, j]
    {
      if n == 0 then "" else Front(i, n - 1) + [lines[i, n - 1]]
    }

    function RowsTo(n: nat): (r: seq<string>)
      requires Store() && n <= MAXL
      reads lines, lens
      ensures |r| == n && forall i :: 0 <= i < n ==> r[i] == Row(i)
    {
      if n == 0 then [] else RowsTo(n - 1) + [Row(n - 1)]
    }

    /** Every line of the buffer, in use or not. */
    function Rows(): (r: seq<string>)
      requires Store()
      reads lines, lens
      ensures |r| == MAXL && forall i :: 0 <= i < MAXL ==> r[i] == Row(i)
    {
      RowsTo(MAXL)
    }

    /** The abstract editor this one stands for. */
    function Now(): (e: Ed)
      requires Store() && 1 <= nlines <= MAXL
      reads this, lines, lens
    {
      Ed(Rows()[..nlines], cx, cy, top, dirty, mode, pendD, pendG)
    }

    ghost predicate Ready()
      reads this, lines, lens
    {
      Store() && 1 <= nlines <= MAXL && Good(Now())
    }

    constructor ()
      ensures Ready() && fresh(lines) && fresh(lens)
      ensures Now() == Ed([""], 0, 0, 0, false, NORMAL, false, false)
    {
      lines := new char[MAXL, MAXC]((_, _) => '\0');
      lens := new int[MAXL](_ => 0);
      nlines, cx, cy, top, dirty, mode, pendD, pendG := 1, 0, 0, 0, false, NORMAL, false, false;
      new;
      assert Rows()[..1] == [Row(0)];
      assert Row(0) == "";
    }

    /** If only line `y` was touched, only row `y` changed. */
    twostate lemma OneRow(y: nat)
      requires old(Store()) && Store() && y < MAXL
      requires forall k :: 0 <= k < MAXL && k != y ==> lens[k] == old(lens[k])
      requires forall k, j :: 0 <= k < MAXL && 0 <= j < MAXC && k != y ==> lines[k, j] == old(lines[k, j])
      ensures Rows() == old(Rows())[y := Row(y)]
    {
      forall k | 0 <= k < MAXL && k != y
        ensures Row(k) == old(Row(k))
      {
      }
    }

    method Clamp()
      requires Store() && 1 <= nlines <= MAXL
      modifies `cx, `cy, `top
      ensures Store() && Now() == KeoText.Clamp(old(Now()))
    {
      ClampCursor();
      Scroll();
      assert Now().doc == old(Now().doc);
      BetweenIsNearest(old(cy), nlines - 1, cy);
      BetweenIsNearest(old(cx), lens[cy], cx);
      ScrolledIsNearest(old(top), cy, top);
    }

    method ClampCursor()
      requires Store() && 1 <= nlines <= MAXL
      modifies `cx, `cy
      ensures Nearest(old(cy), nlines - 1, cy) && Nearest(old(cx), lens[cy], cx)
    {
      if cy < 0 {
        cy := 0;
      }
      if cy > nlines - 1 {
        cy := nlines - 1;
      }
      if cx < 0 {
        cx := 0;
      }
      if cx > lens[cy] {
        cx := lens[cy];
      }
      BetweenIsNearest(old(cy), nlines - 1, cy);
      BetweenIsNearest(old(cx), lens[cy], cx);
    }

    method Scroll()
      requires cy >= 0
      modifies `top
      ensures NearestStart(old(top), cy, top)
    {
      if top > cy {
        top := cy;
      }
      if top < cy - (TXT_ROWS - 1) {
        top := cy - (TXT_ROWS - 1);
      }
      if top < 0 {
        top := 0;
      }
      ScrolledIsNearest(old(top), cy, top);
    }

    // ----- one line

    /** Takes character `x` out of line `y`. */
    method CloseGap(y: nat, x: nat)
      requires Store() && y < MAXL && x < lens[y]
      modifies lines, lens
      ensures Store() && Rows() == old(Rows())[y := old(Row(y))[..x] + old(Row(y))[x + 1..]]
    {
      var i := x;
      while i + 1 < lens[y]
        modifies lines
        invariant x <= i < lens[y]
        invariant forall j :: 0 <= j < MAXC ==>
                    lines[y, j] == if x <= j < i then old(lines[y, j + 1]) else old(lines[y, j])
        invariant forall k, j :: 0 <= k < MAXL && 0 <= j < MAXC && k != y ==> lines[k, j] == old(lines[k, j])
      {
        lines[y, i] := lines[y, i + 1];
        i := i + 1;
      }
      lens[y] := lens[y] - 1;
      OneRow(y);
      assert Row(y) == old(Row(y))[..x] + old(Row(y))[x + 1..];
    }

    /** Puts a character before position `x` of line `y`. */
    method OpenGap(y: nat, x: nat, c: char)
      requires Store() && y < MAXL && x <= lens[y] < MAXC - 1
      modifies lines, lens
      ensures Store() && Rows() == old(Rows())[y := old(Row(y))[..x] + [c] + old(Row(y))[x..]]
    {
      var j := lens[y];
      while j > x
        modifies lines
        invariant x <= j <= lens[y]
        invariant forall i :: 0 <= i < MAXC ==>
                    lines[y, i] == if j < i <= lens[y] then old(lines[y, i - 1]) else old(lines[y, i])
        invariant forall k, i :: 0 <= k < MAXL && 0 <= i < MAXC && k != y ==> lines[k, i] == old(lines[k, i])
      {
        lines[y, j] := lines[y, j - 1];
        j := j - 1;
      }
      lines[y, x] := c;
      lens[y] := lens[y] + 1;
      OneRow(y);
      assert Row(y) == old(Row(y))[..x] + [c] + old(Row(y))[x..];
    }

    /** Copies line `src` from position `from` on behind the first `at` characters of line `dst`. */
    method CopyChars(dst: nat, at: nat, src: nat, from: nat)
      requires Store() && dst < MAXL && src < MAXL && dst != src
      requires from <= lens[src] && at + lens[src] - from < MAXC
      modifies lines, lens
      ensures Store() && Rows() == old(Rows())[dst := old(Front(dst, at)) + old(Row(src))[from..]]
    {
      hide Rows;
      ghost var front, tail := Front(dst, at), Row(src)[from..];
      var j := from;
      while j < lens[src]
        modifies lines
        invariant from <= j <= lens[src]
        invariant forall i :: 0 <= i < at ==> lines[dst, i] == front[i]
        invariant forall i :: from <= i < j ==> lines[dst, at + i - from] == old(lines[src, i])
        invariant forall k, i :: 0 <= k < MAXL && 0 <= i < MAXC && k != dst ==> lines[k, i] == old(lines[k, i])
      {
        lines[dst, at + j - from] := lines[src, j];
        j := j + 1;
      }
      lens[dst] := at + lens[src] - from;
      OneRow(dst);
      assert Row(dst) == front + tail;
    }

    // ----- several lines

    /** Moves the lines from `at` on down by one; line `at` itself stays as a copy. */
    method ShiftDown(at: nat)
      requires Store() && at <= nlines < MAXL
      modifies lines, lens
      ensures Store() && Rows() == Spread(old(Rows()), at, nlines)
    {
      hide Row, Rows, Spread;
      ghost var rows := Rows();
      var i := nlines;
      SpreadNone(rows, i);
      while i > at
        invariant at <= i <= nlines && Store()
        invariant Rows() == Spread(rows, i, nlines)
      {
        SpreadMore(rows, i, nlines);
        assert Rows()[i - 1] == Row(i - 1);
        WholeRow(Row(i - 1));
        CopyChars(i, 0, i - 1, 0);
        i := i - 1;
      }
    }

    method DelLineAt(at: nat)
      requires Store() && at < nlines && 1 < nlines <= MAXL
      modifies lines, lens, `nlines
      ensures Store() && nlines == old(nlines) - 1
      ensures Rows()[..nlines] == old(Rows()[..nlines])[..at] + old(Rows()[..nlines])[at + 1..]
    {
      hide Row, Rows, Closed;
      ghost var rows := Rows();
      var i := at;
      ClosedNone(rows, i);
      while i + 1 < nlines
        invariant at <= i < nlines == old(nlines) && Store()
        invariant Rows() == Closed(rows, at, i)
      {
        ClosedMore(rows, at, i);
        assert Rows()[i + 1] == Row(i + 1);
        WholeRow(Row(i + 1));
        CopyChars(i, 0, i + 1, 0);
        i := i + 1;
      }
      ClosedAll(rows, at, i);
      nlines := nlines - 1;
    }

    // ----- keys

    method DelChar()
      requires Ready()
      modifies lines, lens, `dirty
      ensures Store() && Now() == KeoText.DelChar(old(Now()))
    {
      hide Row, Rows;
      if cx < lens[cy] {
        CloseGap(cy, cx);
        dirty := true;
      }
    }

    method DelLine()
      requires Ready()
      modifies lines, lens, this
      ensures Store() && 1 <= nlines <= MAXL && Now() == KeoText.DelLine(old(Now()))
    {
      hide Row, Rows;
      if nlines <= 1 {
        EmptyLine(0);
        cx := 0;
        dirty := true;
        return;
      }
      DelLineAt(cy);
      dirty := true;
    }

    method EmptyLine(at: nat)
      requires Store() && at < MAXL
      modifies lens
      ensures Store() && Rows() == old(Rows())[at := ""]
    {
      lens[at] := 0;
      OneRow(at);
      assert Row(at) == "";
    }

    method OpenLine(below: bool)
      requires Ready()
      modifies lines, lens, this
      ensures Store() && 1 <= nlines <= MAXL && Now() == KeoText.OpenLine(old(Now()), below)
    {
      hide Row, Rows;
      if nlines >= MAXL {
        return;
      }
      var at := if below then cy + 1 else cy;
      ghost var d, rows := Now().doc, Rows();
      ShiftDown(at);
      EmptyLine(at);
      SpreadFront(rows, at, nlines, "");
      nlines := nlines + 1;
      cy := at;
      cx := 0;
      dirty := true;
      mode := INSERT;
      assert Now().doc == d[..at] + [""] + d[at..];
    }

    /** A newline: the rest of the cursor's line moves to a new line below. */
    method BreakLine()
      requires Ready() && nlines < MAXL
      modifies lines, lens, this
      ensures Store() && 1 <= nlines <= MAXL && Now() == SplitLine(old(Now()))
    {
      hide Row, Rows, Spread, GoodDoc;
      ghost var d, rows, l := Now().doc, Rows(), Row(cy);
      assert l == Rows()[cy];
      ShiftDown(cy + 1);
      SpreadFront(rows, cy + 1, nlines, l[cx..]);
      assert Rows()[cy] == l && Row(cy) == Rows()[cy];
      WholeRow(l[cx..]);
      CopyChars(cy + 1, 0, cy, cx);
      assert Rows()[cy] == l && Row(cy) == Rows()[cy];
      CutLine(cy, cx);
      BrokenFront(rows, cy, nlines, l[..cx], l[cx..]);
      nlines := nlines + 1;
      cy := cy + 1;
      cx := 0;
      dirty := true;
    }

    method CutLine(y: nat, x: nat)
      requires Store() && y < MAXL && x <= lens[y]
      modifies lens
      ensures Store() && Rows() == old(Rows())[y := old(Row(y))[..x]]
    {
      lens[y] := x;
      OneRow(y);
      assert Row(y) == old(Row(y))[..x];
    }

    /** A backspace at the start of a line: the line joins the one before it, if both fit. */
    method JoinUp()
      requires Ready() && cy > 0 && cx == 0
      modifies lines, lens, this
      ensures Store() && 1 <= nlines <= MAXL
      ensures var e := old(Now());
              Now() == if |e.doc[e.cy - 1]| + |Line(e)| < MAXC then JoinLines(e) else e
    {
      hide Row, Rows;
      ghost var d := Now().doc;
      var pl := lens[cy - 1];
      if pl + lens[cy] < MAXC {
        ghost var rows := Rows();
        WholeFront(cy - 1);
        CopyChars(cy - 1, pl, cy, 0);
        WholeRow(rows[cy]);
        JoinedFront(rows, cy, nlines, d[cy - 1] + d[cy]);
        DelLineAt(cy);
        cy := cy - 1;
        cx := pl;
        dirty := true;
      }
    }

    /** One key outside insert mode, but "d" and "g". */
    method PlainKey(c: int)
      requires Ready() && c != 'd' as int && c != 'g' as int
      modifies lines, lens, this
      ensures Store() && 1 <= nlines <= MAXL && Now() == Plain(old(Now()), c)
    {
      hide Row, Rows, KeoText.OpenLine, KeoText.DelChar, Good;
      InText();
      ghost var e := Now();
      if c == 'o' as int {
        OpenLine(true);
      } else if c == 'O' as int {
        OpenLine(false);
      } else if c == 'x' as int || c == KEY_DEL {
        DelChar();
      } else if c == 'i' as int {
        mode := INSERT;
      } else if c == 'a' as int {
        if cx < lens[cy] {
          cx := cx + 1;
        }
        mode := INSERT;
      } else if c == 'A' as int {
        cx := lens[cy];
        mode := INSERT;
      } else if c == ':' as int {
        mode := COMMAND;
      } else {
        MoveKey(c);
      }
    }

    /** The keys that move the cursor. */
    method MoveKey(c: int)
      requires Ready() && !Acts(c)
      modifies `cx, `cy
      ensures Store() && 1 <= nlines <= MAXL && Now() == Plain(old(Now()), c)
    {
      hide Row, Rows, KeoText.OpenLine, KeoText.DelChar, Good;
      InText();
      if c == 'h' as int || c == KEY_LEFT {
        if cx > 0 {
          cx := cx - 1;
        }
      } else if c == 'l' as int || c == KEY_RIGHT {
        if cx < lens[cy] {
          cx := cx + 1;
        }
      } else if c == 'j' as int || c == KEY_DOWN {
        if cy < nlines - 1 {
          cy := cy + 1;
        }
      } else if c == 'k' as int || c == KEY_UP {
        if cy > 0 {
          cy := cy - 1;
        }
      } else if c == 'G' as int {
        cy := nlines - 1;
      } else if c == '0' as int {
        cx := 0;
      } else if c == '$' as int {
        cx := if lens[cy] > 0 then lens[cy] - 1 else 0;
      }
    }

    lemma InText()
      requires Ready()
      ensures 0 <= cy < nlines && 0 <= cx <= lens[cy] && |Line(Now())| == lens[cy]
    {
    }

    /** A key outside insert mode. */
    method NormalKey(c: int)
      requires Ready()
      modifies lines, lens, this
      ensures Store() && 1 <= nlines <= MAXL && Now() == KeoText.NormalKey(old(Now()), c)
    {
      hide Row, Rows, Plain, KeoText.DelLine, Good;
      if c == 'd' as int {
        if pendD {
          DelLine();
          pendD := false;
        } else {
          pendD := true;
          return;
        }
      } else if c == 'g' as int {
        if pendG {
          cy := 0;
          pendG := false;
        } else {
          pendG := true;
          return;
        }
      } else {
        PlainKey(c);
      }
      pendD := if c == 'd' as int then pendD else false;
      pendG := if c == 'g' as int then pendG else false;
    }

    /** A key in insert mode. */
    method InsertKey(c: int)
      requires Ready()
      modifies lines, lens, this
      ensures Store() && 1 <= nlines <= MAXL && Now() == KeoText.InsertKey(old(Now()), c)
    {
      hide Row, Rows, KeoText.NormalKey, KeoText.DelChar, SplitLine, JoinLines, PutChar;
      InText();
      if c == ESC {
        mode := NORMAL;
        cx := Min(cx, lens[cy]);
        return;
      }
      if c == KEY_UP || c == KEY_DOWN || c == KEY_LEFT || c == KEY_RIGHT {
        NormalKey(c);
        return;
      }
      if c == NEWLINE {
        if nlines >= MAXL {
          return;
        }
        BreakLine();
        return;
      }
      if c == BACKSPACE {
        if cx > 0 {
          cx := cx - 1;
          DelChar();
        } else if cy > 0 {
          JoinUp();
        }
        return;
      }
      if 32 <= c < 127 && lens[cy] < MAXC - 1 {
        PutKey(c);
      }
    }

    method PutKey(c: int)
      requires Ready() && 32 <= c < 127 && cy < lens.Length && lens[cy] < MAXC - 1
      modifies lines, lens, `cx, `dirty
      ensures Store() && Now() == PutChar(old(Now()), c)
    {
      hide Row, Rows;
      ghost var d := Now().doc;
      assert d[cy] == Row(cy);
      OpenGap(cy, cx, c as char);
      cx := cx + 1;
      dirty := true;
    }

    // ----- the file

    /** Hands the saved text to the system, whose answer is `answer`; nothing is handed over without a name or room. */
    method Save(named: bool, answer: int) returns (code: int, sent: Option<string>)
      requires Ready()
      modifies `dirty
      ensures Ready() && Now() == old(Now()).(dirty := dirty)
      ensures var t := Saved(Now().doc);
              if !named then code == NO_NAME && sent == None && dirty == old(dirty)
              else if |t| > 4096 then code == FS_FULL && sent == None && dirty == old(dirty)
              else code == answer && sent == Some(t) && dirty == (old(dirty) && answer != 0)
    {
      hide Row, Rows, Saved, GoodDoc;
      if !named {
        return NO_NAME, None;
      }
      ghost var d := Now().doc;
      var buf := new char[FILE_MAX];
      var pos, i := 0, 0;
      NothingSaved(d);
      while i < nlines
        modifies buf
        invariant 0 <= i <= nlines && 0 <= pos <= FILE_MAX
        invariant buf[..pos] == Saved(d[..i])
      {
        SavedPart(d, i);
        assert d[i] == Row(i);
        if pos + lens[i] + 1 > FILE_MAX {
          return FS_FULL, None;
        }
        pos := CopyOut(buf, pos, i);
        i := i + 1;
      }
      assert d[..nlines] == d;
      sent := Some(buf[..pos]);
      code := answer;
      if answer == 0 {
        dirty := false;
      }
    }

    method CopyOut(buf: array<char>, at: nat, i: nat) returns (pos: nat)
      requires Store() && i < MAXL && at + lens[i] + 1 <= buf.Length
      modifies buf
      ensures pos == at + lens[i] + 1 && buf[..pos] == old(buf[..at]) + Row(i) + "\n"
      ensures Store() && Rows() == old(Rows())
    {
      var j := 0;
      while j < lens[i]
        invariant 0 <= j <= lens[i] && buf[..at + j] == old(buf[..at]) + Row(i)[..j]
      {
        buf[at + j] := lines[i, j];
        j := j + 1;
      }
      assert Row(i)[..j] == Row(i);
      buf[at + j] := '\n';
      pos := at + j + 1;
    }

    /** Fills the buffer from the bytes of a file; none for a file that cannot be read. */
    method Load(buf: string)
      requires Ready()
      modifies lines, lens, this
      ensures Ready() && Now() == Ed(Loaded(buf), 0, 0, 0, false, NORMAL, old(pendD), old(pendG))
    {
      hide Row, Rows, Loaded, ReadAll, Good, GoodDoc;
      LoadedIsGood(buf);
      EmptyLine(0);
      cx, cy, top := 0, 0, 0;
      dirty := false;
      mode := NORMAL;
      var li := ReadLines(buf);
      nlines := li + 1;
      LoadedIs(buf, Rows()[..nlines]);
      ghost var d := Rows()[..nlines];
      if |buf| > 0 && buf[|buf| - 1] == '\n' && nlines > 1 {
        nlines := nlines - 1;
      }
      assert Rows()[..nlines] == d[..nlines];
      StartIsGood(Now());
    }

    /** The loop over the bytes: it returns the number of the last line begun. */
    method ReadLines(buf: string) returns (li: nat)
      requires Store() && Rows()[0] == ""
      modifies lines, lens
      ensures li < MAXL && Store() && ReadAll([""], buf) == Rows()[..li + 1]
    {
      hide Row, Rows, ReadAll;
      li := 0;
      var i := 0;
      FirstRow(Rows());
      assert buf[..0] == "";
      while i < |buf|
        invariant 0 <= i <= |buf| && 0 <= li < MAXL && Store()
        invariant ReadAll([""], buf[..i]) == Rows()[..li + 1]
      {
        ReadNext(buf, i);
        ghost var d := Rows()[..li + 1];
        assert d[li] == Row(li);
        if buf[i] == '\n' {
          if li + 1 < MAXL {
            li := li + 1;
            EmptyLine(li);
            assert Rows()[..li + 1] == d + [""];
          }
        } else if lens[li] < MAXC - 1 {
          AppendChar(li, buf[i]);
          assert Rows()[..li + 1] == d[..li] + [d[li] + [buf[i]]];
        }
        i := i + 1;
      }
      assert buf[..i] == buf;
    }

    method AppendChar(y: nat, c: char)
      requires Store() && y < MAXL && lens[y] < MAXC - 1
      modifies lines, lens
      ensures Store() && Rows() == old(Rows())[y := old(Row(y)) + [c]]
    {
      lines[y, lens[y]] := c;
      lens[y] := lens[y] + 1;
      OneRow(y);
      assert Row(y) == old(Row(y)) + [c];
    }

    lemma WholeFront(y: nat)
      requires Store() && y < MAXL
      ensures Front(y, lens[y]) == Row(y)
    {
    }
  }

  /** `rows` with those from `i` to before `n` moved down by one, row `i` kept. */
  function Spread(rows: seq<string>, i: nat, n: nat): (r: seq<string>)
    requires i <= n < |rows|
    ensures |r| == |rows|
  {
    rows[..i] + [rows[i]] + rows[i..n] + rows[n + 1..]
  }

  lemma {:induction false} SpreadNone(rows: seq<string>, n: nat)
    requires n < |rows|
    ensures Spread(rows, n, n) == rows
  {
  }

  lemma {:induction false} SpreadMore(rows: seq<string>, i: nat, n: nat)
    requires 0 < i <= n < |rows|
    ensures Spread(rows, i, n)[i - 1] == rows[i - 1]
    ensures Spread(rows, i - 1, n) == Spread(rows, i, n)[i := rows[i - 1]]
  {
  }

  /** With a new line at `at` the first `n + 1` rows are the old `n` with that line put in. */
  lemma {:induction false} SpreadFront(rows: seq<string>, at: nat, n: nat, l: string)
    requires at <= n < |rows|
    ensures Spread(rows, at, n)[at := l][..n + 1] == rows[..n][..at] + [l] + rows[..n][at..]
    ensures forall k :: 0 <= k < at ==> Spread(rows, at, n)[k] == rows[k]
  {
  }

  /** The rows of a broken line: its front, its end, and the rest moved down. */
  lemma {:induction false} BrokenFront(rows: seq<string>, y: nat, n: nat, a: string, b: string)
    requires y < n < |rows|
    ensures Spread(rows, y + 1, n)[y + 1 := b][y := a][..n + 1] == rows[..n][..y] + [a, b] + rows[..n][y + 1..]
  {
  }

  /** The rows of two joined lines, the second of them taken out. */
  lemma {:induction false} JoinedFront(rows: seq<string>, y: nat, n: nat, l: string)
    requires 0 < y < n <= |rows|
    ensures var m := rows[y - 1 := l][..n];
            m[..y] + m[y + 1..] == rows[..n][..y - 1] + [l] + rows[..n][y + 1..]
  {
  }

  /** `rows` with those behind `at` up to `i` moved up by one. */
  function Closed(rows: seq<string>, at: nat, i: nat): (r: seq<string>)
    requires at <= i < |rows|
    ensures |r| == |rows|
  {
    rows[..at] + rows[at + 1..i + 1] + rows[i..]
  }

  lemma {:induction false} ClosedNone(rows: seq<string>, at: nat)
    requires at < |rows|
    ensures Closed(rows, at, at) == rows
  {
  }

  lemma {:induction false} ClosedMore(rows: seq<string>, at: nat, i: nat)
    requires at <= i < |rows| - 1
    ensures Closed(rows, at, i)[i + 1] == rows[i + 1]
    ensures Closed(rows, at, i + 1) == Closed(rows, at, i)[i := rows[i + 1]]
  {
  }

  lemma {:induction false} ClosedAll(rows: seq<string>, at: nat, i: nat)
    requires at <= i < |rows|
    ensures Closed(rows, at, i)[..i] == rows[..i + 1][..at] + rows[..i + 1][at + 1..]
  {
  }

  lemma {:induction false} StartIsGood(e: Ed)
    requires GoodDoc(e.doc) && e.cx == e.cy == 0
    ensures Good(e)
  {
  }

  lemma {:induction false} NothingSaved(d: seq<string>)
    ensures d[..0] == [] && Saved([]) == ""
  {
  }

  /** The saved text grows by a line and a newline, and never past the whole. */
  lemma {:induction false} SavedPart(d: seq<string>, i: nat)
    requires i < |d|
    ensures Saved(d[..i + 1]) == Saved(d[..i]) + d[i] + "\n" && |Saved(d[..i + 1])| <= |Saved(d)|
  {
    assert d[..i + 1] == d[..i] + [d[i]];
    SavedSnoc(d[..i], d[i]);
    assert d == d[..i + 1] + d[i + 1..];
    SavedCat(d[..i + 1], d[i + 1..]);
  }

  lemma {:induction false} FirstRow(rows: seq<string>)
    requires rows != [] && rows[0] == ""
    ensures ReadAll([""], "") == rows[..1]
  {
    assert rows[..1] == [""];
  }

  lemma {:induction false} ReadNext(s: string, i: nat)
    requires i < |s|
    ensures ReadAll([""], s[..i + 1]) == ReadByte(ReadAll([""], s[..i]), s[i])
  {
    assert s[..i + 1] == s[..i] + [s[i]];
    ReadCat([""], s[..i], [s[i]]);
    assert [s[i]][1..] == "";
  }

  lemma {:induction false} LoadedIs(s: string, d: seq<string>)
    requires d == ReadAll([""], s)
    ensures Loaded(s) == if s != "" && s[|s| - 1] == '\n' && |d| > 1 then d[..|d| - 1] else d
  {
  }

  lemma {:induction false} WholeRow(l: string)
    ensures l[0..] == l && "" + l == l
  {
  }
}
