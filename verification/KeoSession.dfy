/** The editor with its command line and its file name: typing commands, saving, leaving. */
module KeoSession {
  import opened Bytes
  import opened KeoText
  import opened KeoFile
  import opened KeoEditor

  const CMD_MAX: nat := 127

  /** The editor, the command typed so far, the file's name, and whether the program has ended. */
  datatype State = State(ed: Ed, cmd: string, name: string, over: bool)

  /** A text handed to the system for a file, and whether the system took it. */
  datatype Write = Write(name: string, text: string, taken: bool)

  // ----- one key

  /** Saving ends the program when the system takes the text. */
  function Saving(s: State, answer: int): (r: (State, Option<Write>)) {
    var text := Saved(s.ed.doc);
    if s.name == "" || |text| > FILE_MAX then (s, None)
    else
      var w := Some(Write(s.name, text, answer == 0));
      if answer == 0 then (s.(ed := s.ed.(dirty := false), over := true), w) else (s, w)
  }

  function Execute(s: State, answer: int): (r: (State, Option<Write>)) {
    if s.cmd == "w" || s.cmd == "wq" then Saving(s, answer)
    else if "w " <= s.cmd then Saving(s.(name := s.cmd[2..]), answer)
    else if s.cmd == "q" then (s.(over := !s.ed.dirty), None)
    else if s.cmd == "q!" then (s.(over := true), None)
    else (s, None)
  }

  function Typed(s: State, c: int): (r: State)
    ensures r.ed == s.ed && r.name == s.name && r.over == s.over
  {
    if c == BACKSPACE then (if s.cmd == "" then s else s.(cmd := s.cmd[..|s.cmd| - 1]))
    else if 32 <= c < 127 && |s.cmd| < CMD_MAX then s.(cmd := s.cmd + [c as char])
    else s
  }

  function CommandTurn(s: State, c: int, answer: int): (r: (State, Option<Write>))
    requires Good(s.ed)
  {
    var normal := s.(ed := s.ed.(mode := NORMAL));
    if c == ESC then (normal, None)
    else if c == NEWLINE then Execute(normal, answer)
    else (Typed(s, c), None)
  }

  function KeyTurn(s: State, c: int): (r: State)
    requires Good(s.ed) && Editing(s.ed)
  {
    s.(ed := Key(s.ed, c), cmd := if s.ed.mode == NORMAL && c == ':' as int then "" else s.cmd)
  }

  /**
   * One turn: a key, then the clamp of the drawing, unless the program has ended; `answer` is the system's to
   * a save.
   */
  function Press(s: State, c: int, answer: int): (r: (State, Option<Write>))
    requires Good(s.ed)
    ensures Good(r.0.ed) && (!r.0.over ==> InView(r.0.ed))
  {
    if s.over then (s, None)
    else
      var r := if Editing(s.ed) then (KeyTurn(s, c), None) else CommandTurn(s, c, answer);
      TurnIsGood(s, c, answer);
      if r.0.over then r else (r.0.(ed := Clamp(r.0.ed)), r.1)
  }

  lemma {:induction false} TurnIsGood(s: State, c: int, answer: int)
    requires Good(s.ed)
    ensures var e := CommandTurn(s, c, answer).0.ed; Good(e) && GoodDoc(e.doc) && Good(Clamp(e)) && InView(Clamp(e))
    ensures Editing(s.ed) ==>
              var e := KeyTurn(s, c).ed; GoodDoc(e.doc) && Good(Clamp(e)) && InView(Clamp(e))
  {
    hide Saved, Key, Clamp;
    if Editing(s.ed) {
      KeyKeeps(s.ed, c);
      ClampIsGood(Key(s.ed, c));
    }
    ClampIsGood(CommandTurn(s, c, answer).0.ed);
  }

  /**
   * The state after a whole session, and the last text handed to the system.  Whatever the keys, the line
   * limits hold, the cursor is in the text, and after every turn its line is on the screen.
   */
  function Play(s: State, keys: seq<(int, int)>): (r: (State, Option<Write>))
    requires Good(s.ed)
    ensures Good(r.0.ed) && (keys != [] && !r.0.over ==> InView(r.0.ed))
    decreases |keys|
  {
    if keys == [] then (s, None)
    else
      var (before, w) := Play(s, keys[..|keys| - 1]);
      var (c, answer) := keys[|keys| - 1];
      var r := Press(before, c, answer);
      (r.0, if r.1.Some? then r.1 else w)
  }

  // ----- no work is lost

  /** What changes the text marks it as changed, and no key takes the mark away. */
  lemma {:induction false} EditsMark(e: Ed, c: int)
    requires Good(e) && Editing(e)
    ensures !Key(e, c).dirty ==> !e.dirty && Key(e, c).doc == e.doc
  {
    hide Line, Split;
    assert !Plain(e, c).dirty ==> !e.dirty && Plain(e, c).doc == e.doc by { PlainMarks(e, c); }
  }

  lemma {:induction false} PlainMarks(e: Ed, c: int)
    requires Good(e)
    ensures !Plain(e, c).dirty ==> !e.dirty && Plain(e, c).doc == e.doc
  {
    hide Line;
  }

  /** The session has ended without loss: the text is saved, or it is the text `d` of the start, or it was given up. */
  ghost predicate EndsWell(s: State, w: Option<Write>, d: seq<string>) {
    s.cmd == "q!" || s.ed.doc == d || w == Some(Write(s.name, Saved(s.ed.doc), true))
  }

  lemma {:induction false} TurnLosesNothing(s: State, c: int, answer: int, d: seq<string>)
    requires Good(s.ed) && !s.over && (s.ed.dirty || s.ed.doc == d)
    ensures var r := Press(s, c, answer);
            if r.0.over then EndsWell(r.0, r.1, d) else r.0.ed.dirty || r.0.ed.doc == d
  {
    hide Saved, Key, Clamp, Good, GoodDoc;
    TurnIsGood(s, c, answer);
    if Editing(s.ed) {
      EditsMark(s.ed, c);
      ClampText(KeyTurn(s, c).ed);
    } else {
      ClampGood(CommandTurn(s, c, answer).0.ed);
    }
  }

  lemma {:induction false} ClampText(e: Ed)
    requires GoodDoc(e.doc)
    ensures Clamp(e).doc == e.doc && Clamp(e).dirty == e.dirty
  {
  }

  lemma {:induction false} ClampGood(e: Ed)
    requires Good(e)
    ensures GoodDoc(e.doc) && Clamp(e).doc == e.doc && Clamp(e).dirty == e.dirty
  {
  }

  /**
   * However a session goes, its text differs from that of the start only with the mark on; and it ends only
   * with the text taken by the system under the file's name, with the text of the start, or by "q!".
   */
  lemma {:induction false} NothingLost(s: State, keys: seq<(int, int)>)
    requires Good(s.ed) && !s.over && !s.ed.dirty
    ensures var (r, w) := Play(s, keys);
            if r.over then EndsWell(r, w, s.ed.doc) else r.ed.dirty || r.ed.doc == s.ed.doc
    decreases |keys|
  {
    hide Press, EndsWell, Good;
    if keys != [] {
      var before := keys[..|keys| - 1];
      NothingLost(s, before);
      var b := Play(s, before).0;
      var (c, answer) := keys[|keys| - 1];
      if b.over {
        Ended(b, c, answer);
      } else {
        TurnLosesNothing(b, c, answer, s.ed.doc);
        if Press(b, c, answer).0.over { KeepsWell(b, c, answer, Play(s, before).1, s.ed.doc); }
      }
    }
  }

  lemma {:induction false} Ended(s: State, c: int, answer: int)
    requires Good(s.ed) && s.over
    ensures Press(s, c, answer) == (s, None)
  {
  }

  lemma {:induction false} KeepsWell(s: State, c: int, answer: int, w: Option<Write>, d: seq<string>)
    requires Good(s.ed) && Press(s, c, answer).0.over
    requires EndsWell(Press(s, c, answer).0, Press(s, c, answer).1, d)
    ensures var r := Press(s, c, answer); EndsWell(r.0, if r.1.Some? then r.1 else w, d)
  {
    hide Press;
  }

  /**
   * A session that ends with its text changed and not given up has written it under the file's name, and
   * loading what it wrote gives the text back exactly below 256 lines.
   */
  lemma {:induction false} SavedComesBack(s: State, keys: seq<(int, int)>)
    requires Good(s.ed) && !s.over && !s.ed.dirty
    ensures var (r, w) := Play(s, keys);
            r.over && r.cmd != "q!" && r.ed.doc != s.ed.doc ==>
              && w.Some? && w.value.name == r.name && w.value.taken
              && (Loaded(w.value.text) == r.ed.doc <==> |r.ed.doc| < 256)
  {
    hide Saved, Loaded, Play;
    NothingLost(s, keys);
    var r := Play(s, keys).0;
    SaveThenLoad(r.ed.doc);
  }

  /** "d" and "g" wait side by side: a "g" between two "d" does not keep the line from being deleted. */
  lemma {:induction false} WaitingSideBySide(s: State, x: int, y: int, z: int)
    requires Good(s.ed) && !s.over && s.ed.mode == NORMAL && !s.ed.pendD && !s.ed.pendG
    ensures Play(s, [('d' as int, x), ('g' as int, y), ('d' as int, z)]).0.ed.doc == DelLine(s.ed).doc
  {
    hide Clamp, DelLine, Good, Press, KeoText.Turn;
    var d, g := 'd' as int, 'g' as int;
    var k3, k2, k1 := [(d, x), (g, y), (d, z)], [(d, x), (g, y)], [(d, x)];
    assert k3[..2] == k2 && k2[..1] == k1 && k1[..0] == [];
    assert Play(s, []) == (s, None);
    TextTurn(s, d, x);
    Waits(s.ed, d);
    var s1 := Press(s, d, x).0;
    assert Play(s, k1).0 == s1;
    TextTurn(s1, g, y);
    Waits(s1.ed, g);
    var s2 := Press(s1, g, y).0;
    assert Play(s, k2).0 == s2;
    TextTurn(s2, d, z);
    SecondD(s2.ed);
    SameLine(s.ed, s2.ed);
  }

  lemma {:induction false} TextTurn(s: State, c: int, answer: int)
    requires Good(s.ed) && !s.over && Editing(s.ed)
    ensures var r := Press(s, c, answer).0; r.ed == KeoText.Turn(s.ed, c) && !r.over
  {
    hide Key, Good, Clamp;
  }

  // ----- typing a command

  function Typing(x: string): (keys: seq<(int, int)>) {
    if x == "" then [(':' as int, 0)] else Typing(x[..|x| - 1]) + [(x[|x| - 1] as int, 0)]
  }

  predicate Printable(x: string) { forall i :: 0 <= i < |x| ==> ' ' <= x[i] <= '~' }

  /** After ":" the keys stand on the command line, and the text is as it was. */
  lemma {:induction false} TypedCommand(s: State, x: string)
    requires Good(s.ed) && !s.over && s.ed.mode == 0 && |x| <= 127 && Printable(x)
    ensures var (r, w) := Play(s, Typing(x));
            && w == None && !r.over && r.cmd == x && r.name == s.name && r.ed.mode == 2
            && r.ed.doc == s.ed.doc && r.ed.dirty == s.ed.dirty
    decreases |x|
  {
    hide Clamp, Good, Press;
    var k := Typing(x);
    assert Play(s, []) == (s, None);
    if x == "" {
      assert k[..0] == [];
      FirstColon(s);
    } else {
      var y, c := x[..|x| - 1], x[|x| - 1];
      TypedCommand(s, y);
      assert k[..|k| - 1] == Typing(y);
      OneMoreChar(Play(s, Typing(y)).0, c);
      assert y + [c] == x;
    }
  }

  lemma {:induction false} FirstColon(s: State)
    requires Good(s.ed) && !s.over && s.ed.mode == 0
    ensures var (r, w) := Press(s, ':' as int, 0);
            && w == None && !r.over && r.cmd == "" && r.name == s.name && r.ed.mode == 2
            && r.ed.doc == s.ed.doc && r.ed.dirty == s.ed.dirty
  {
    hide Good;
    NormalPlaces(s.ed, ':' as int);
    ClampGood(s.ed.(mode := 2, pendD := false, pendG := false)) by {
      AnyMode(s.ed, s.ed.(mode := 2));
      ColonIsGood(s.ed);
    }
  }

  lemma {:induction false} ColonIsGood(e: Ed)
    requires Good(e)
    ensures Good(e.(mode := 2, pendD := false, pendG := false))
  {
  }

  lemma {:induction false} OneMoreChar(s: State, c: char)
    requires Good(s.ed) && !s.over && s.ed.mode == 2 && |s.cmd| < 127 && ' ' <= c <= '~'
    ensures var (r, w) := Press(s, c as int, 0);
            && w == None && !r.over && r.cmd == s.cmd + [c] && r.name == s.name && r.ed.mode == 2
            && r.ed.doc == s.ed.doc && r.ed.dirty == s.ed.dirty
  {
    hide Good;
    ClampGood(s.ed);
  }

  /**
   * What the commands do, typed from normal mode and ended with a newline: "q!" leaves, "q" leaves without
   * changes, "w" and "wq" write the text under the file's name, "w" with a name under that one, and leave when
   * the system takes it; a text with no name or of more than 4096 characters is not written; nothing else happens.
   */
  lemma {:induction false} Commands(s: State, x: string, answer: int)
    requires Good(s.ed) && !s.over && s.ed.mode == 0 && |x| <= 127 && Printable(x)
    ensures var (r, w) := Play(s, Typing(x) + [(10, answer)]);
            var text := Saved(s.ed.doc);
            var name := if "w " <= x then x[2..] else s.name;
            var writes := (x == "w" || x == "wq" || "w " <= x) && name != "" && |text| <= 4096;
            && r.ed.doc == s.ed.doc && r.name == name
            && w == (if writes then Some(Write(name, text, answer == 0)) else None)
            && (r.over <==> x == "q!" || (x == "q" && !s.ed.dirty) || (writes && answer == 0))
            && (!r.over ==> r.ed.mode == 0 && r.ed.dirty == s.ed.dirty)
  {
    hide Clamp, Good, GoodDoc, Press, Saved, Typing, Execute;
    var k := Typing(x) + [(10, answer)];
    assert k[..|k| - 1] == Typing(x);
    TypedCommand(s, x);
    Entered(Play(s, Typing(x)).0, answer);
  }

  lemma {:induction false} Entered(s: State, answer: int)
    requires Good(s.ed) && !s.over && s.ed.mode == 2
    ensures var (r, w) := Press(s, 10, answer);
            var text, x := Saved(s.ed.doc), s.cmd;
            var name := if "w " <= x then x[2..] else s.name;
            var writes := (x == "w" || x == "wq" || "w " <= x) && name != "" && |text| <= 4096;
            && r.ed.doc == s.ed.doc && r.name == name
            && w == (if writes then Some(Write(name, text, answer == 0)) else None)
            && (r.over <==> x == "q!" || (x == "q" && !s.ed.dirty) || (writes && answer == 0))
            && (!r.over ==> r.ed.mode == 0 && r.ed.dirty == s.ed.dirty)
  {
    hide Good, GoodDoc, Saved, Clamp;
    var x := s.cmd;
    assert "w " <= x ==> |x| >= 2 && x[0] == 'w' && x[1] == ' ';
    assert x == "wq" ==> x[1] == 'q';
    assert x == "q" || x == "q!" ==> x[0] == 'q';
    TurnIsGood(s, 10, answer);
    ClampAll(CommandTurn(s, 10, answer).0.ed);
  }

  /** Backspace takes the last character typed; escape goes back to normal mode and does nothing else. */
  lemma {:induction false} EraseOrLeave(s: State, answer: int)
    requires Good(s.ed) && !s.over && s.ed.mode == 2
    ensures var (r, w) := Press(s, 8, answer);
            && w == None && !r.over && r.ed.mode == 2 && r.ed.doc == s.ed.doc && r.name == s.name
            && r.cmd == if s.cmd == "" then "" else s.cmd[..|s.cmd| - 1]
    ensures var (r, w) := Press(s, 27, answer);
            && w == None && !r.over && r.ed.mode == 0 && r.name == s.name
            && r.ed.doc == s.ed.doc && r.ed.dirty == s.ed.dirty
  {
    hide Good, GoodDoc, Clamp;
    ClampAll(s.ed);
    AnyMode(s.ed, s.ed.(mode := 0));
    ClampAll(s.ed.(mode := 0));
  }

  lemma {:induction false} ClampAll(e: Ed)
    requires Good(e)
    ensures GoodDoc(e.doc) && Clamp(e).doc == e.doc && Clamp(e).dirty == e.dirty && Clamp(e).mode == e.mode
  {
  }

  lemma {:induction false} AnyMode(e: Ed, r: Ed)
    requires Good(e) && r == e.(mode := r.mode)
    ensures Good(r)
  {
  }

  // ----- the program

  class Session {
    const keo: Keo
    const cmd: array<char>
    var cmdlen: nat
    var name: string
    var over: bool

    ghost predicate Ready()
      reads this, keo, keo.lines, keo.lens
    {
      keo.Ready() && cmd.Length == CMD_MAX + 1 && cmdlen <= CMD_MAX
    }

    ghost function Now(): (s: State)
      requires Ready()
      reads this, keo, keo.lines, keo.lens, cmd
    {
      State(keo.Now(), cmd[..cmdlen], name, over)
    }

    /** The program starts by loading the file it is given. */
    constructor (fname: string, bytes: string)
      ensures Ready() && fresh(keo) && fresh(cmd) && fresh(keo.lines) && fresh(keo.lens)
      ensures Now() == State(Ed(Loaded(bytes), 0, 0, 0, false, NORMAL, false, false), "",
                             if |fname| > CMD_MAX then fname[..CMD_MAX] else fname, false)
    {
      keo := new Keo();
      cmd := new char[CMD_MAX + 1](_ => '\0');
      cmdlen, over := 0, false;
      name := if |fname| > CMD_MAX then fname[..CMD_MAX] else fname;
      new;
      keo.Load(bytes);
    }

    /** Saving, and the end of the program when it succeeds. */
    method DoSave(answer: int) returns (w: Option<Write>)
      requires Ready() && !over
      modifies keo, `over
      ensures Ready() && (Now(), w) == Saving(old(Now()), answer)
    {
      hide Saved, Good, GoodDoc;
      var code, sent := keo.Save(name != "", answer);
      w := match sent case None => None case Some(text) => Some(Write(name, text, answer == 0));
      if sent.Some? && code == 0 {
        over := true;
      }
    }

    method ExecCmd(answer: int) returns (w: Option<Write>)
      requires Ready() && !over
      modifies keo, `over, `name
      ensures Ready() && (Now(), w) == Execute(old(Now()), answer)
    {
      hide Saved, Good, GoodDoc, Saving;
      var line := cmd[..cmdlen];
      w := None;
      assert "w " <= line <==> |line| >= 2 && line[0] == 'w' && line[1] == ' ';
      if line == "w" || line == "wq" {
        w := DoSave(answer);
      } else if |line| >= 2 && line[0] == 'w' && line[1] == ' ' {
        name := "";
        var i := 2;
        while i < |line| && |name| < CMD_MAX
          modifies `name
          invariant 2 <= i <= |line| && name == line[2..i]
        {
          name := name + [line[i]];
          i := i + 1;
        }
        assert i == |line| && line[2..i] == line[2..];
        w := DoSave(answer);
      } else if line == "q" {
        over := !keo.dirty;
      } else if line == "q!" {
        over := true;
      }
    }

    /** A key on the command line. */
    method CmdKey(c: int, answer: int) returns (w: Option<Write>)
      requires Ready() && !over
      modifies keo, cmd, this
      ensures Ready() && (Now(), w) == CommandTurn(old(Now()), c, answer)
    {
      hide Good, GoodDoc, Execute;
      w := None;
      ghost var e, line := keo.Now(), cmd[..cmdlen];
      if c == ESC {
        keo.mode := NORMAL;
        AnyMode(e, keo.Now());
      } else if c == NEWLINE {
        keo.mode := NORMAL;
        AnyMode(e, keo.Now());
        w := ExecCmd(answer);
      } else if c == BACKSPACE {
        if cmdlen > 0 {
          cmdlen := cmdlen - 1;
          assert cmd[..cmdlen] == line[..|line| - 1];
        }
      } else if 32 <= c < 127 && cmdlen < CMD_MAX {
        cmd[cmdlen] := c as char;
        cmdlen := cmdlen + 1;
        assert cmd[..cmdlen] == line + [c as char];
      }
    }

    /** One turn of the main loop. */
    method Turn(c: int, answer: int) returns (w: Option<Write>)
      requires Ready()
      modifies keo.lines, keo.lens, keo, cmd, this
      ensures Ready() && (Now(), w) == Press(old(Now()), c, answer)
    {
      hide Good, GoodDoc, KeoText.NormalKey, KeoText.InsertKey, KeoText.Clamp, CommandTurn, InView;
      w := None;
      if over {
        return;
      }
      ghost var s := Now();
      TurnIsGood(s, c, answer);
      if keo.mode == NORMAL {
        if c == ':' as int {
          cmdlen := 0;
          assert cmd[..cmdlen] == "";
        }
        keo.NormalKey(c);
      } else if keo.mode == INSERT {
        keo.InsertKey(c);
      } else {
        w := CmdKey(c, answer);
      }
      if !over {
        keo.Clamp();
      }
    }
  }
}
