/** The line editor and commands of kernel/tty/tty.c on the canvas, over whole key sequences. */
module LineEditor {
  import opened Canvas

  const LINE_MAX := 128
  const PROMPT := "$ "
  const HELP0 := "available commands:\n"
  const HELP1 := "\thelp \t- Show this help\n"
  const HELP2 := "\tclear \t- Clear the screen\n"
  const HELP3 := "\techo \t- Print arguments\n"

  datatype Term = Term(cv: Canvas, line: string)

  function Unknown(cmd: string): string { "unknown command: '" + cmd + "'\n" }

  predicate IsEcho(cmd: string) { |cmd| >= 5 && cmd[..5] == "echo " }

  /** tty_execute_command. */
  function Execute(cv: Canvas, cmd: string): Canvas {
    if cmd == "help" then PutAll(PutAll(PutAll(PutAll(cv, HELP0), HELP1), HELP2), HELP3)
    else if cmd == "clear" then CLEAR
    else if IsEcho(cmd) then Put(PutAll(cv, cmd[5..]), '\n')
    else PutAll(cv, Unknown(cmd))
  }

  /** What a newline is for: run the line, if there is one, and show a new prompt. */
  function Entered(t: Term): Term {
    var cv := Put(t.cv, '\n');
    Term(PutAll(if t.line != [] then Execute(cv, t.line) else cv, PROMPT), [])
  }

  /** tty_handle_keypress. The terminator of a line of 128 characters goes one past the buffer,
      into the low byte of buf_pos, which it makes zero: the line then counts as empty. */
  function Key(t: Term, c: char): Term {
    if c == NUL then t
    else if c == '\n' then Entered(if |t.line| < LINE_MAX then t else t.(line := []))
    else if c == BACKSPACE then
      if t.line != [] then Term(Put(t.cv, c), t.line[..|t.line| - 1]) else t
    else if |t.line| < LINE_MAX then Term(Put(t.cv, c), t.line + [c])
    else t
  }

  function Keys(t: Term, ks: string): Term
    decreases |ks|
  {
    if ks == [] then t else Keys(Key(t, ks[0]), ks[1..])
  }

  /** tty_init. */
  const START := Term(PutAll(CLEAR, PROMPT), [])

  // ---- The line ----------------------------------------------------------------------

  /** The line typed by keys none of which is a newline: backspace removes, all else appends. */
  function Typed(ks: string): string {
    if ks == [] then []
    else
      var l, c := Typed(ks[..|ks| - 1]), ks[|ks| - 1];
      if c == NUL then l
      else if c == BACKSPACE then (if l == [] then [] else l[..|l| - 1])
      else if |l| < LINE_MAX then l + [c]
      else l
  }

  function SinceNewline(ks: string): (r: string)
    ensures '\n' !in r
  {
    if ks == [] then []
    else if ks[|ks| - 1] == '\n' then []
    else SinceNewline(ks[..|ks| - 1]) + [ks[|ks| - 1]]
  }

  lemma {:induction false} KeysSnoc(t: Term, ks: string, c: char)
    ensures Keys(t, ks + [c]) == Key(Keys(t, ks), c)
    decreases |ks|
  {
    hide Key;
    if ks == [] {
      assert ks + [c] == [c] && [c][1..] == [];
    } else {
      assert (ks + [c])[1..] == ks[1..] + [c];
      KeysSnoc(Key(t, ks[0]), ks[1..], c);
    }
  }

  lemma {:induction false} KeysNone(t: Term)
    ensures Keys(t, []) == t
  {
  }

  lemma {:induction false} SinceSnoc(ks: string, c: char)
    ensures SinceNewline(ks + [c]) == if c == '\n' then [] else SinceNewline(ks) + [c]
  {
    assert (ks + [c])[..|ks|] == ks;
  }

  /** What one key that is no newline does to the line, typed or in the buffer. */
  lemma {:induction false} KeyTypes(t: Term, s: string, c: char)
    requires t.line == Typed(s) && c != '\n'
    ensures Key(t, c).line == Typed(s + [c])
  {
    hide Put, Entered;
    assert (s + [c])[..|s|] == s;
  }

  lemma {:induction false} NewlineClears(t: Term)
    ensures Key(t, '\n').line == [] == Typed([])
  {
  }

  /** The line buffer is always the fold of the keys since the last newline. */
  lemma {:induction false} LineIsTyped(t: Term, ks: string)
    requires t.line == []
    ensures Keys(t, ks).line == Typed(SinceNewline(ks))
    decreases |ks|
  {
    hide Key, Keys, Typed, SinceNewline;
    if ks == [] {
      KeysNone(t);
      NothingTyped();
    } else {
      var front, c := ks[..|ks| - 1], ks[|ks| - 1];
      assert ks == front + [c];
      LineIsTyped(t, front);
      KeysSnoc(t, front, c);
      SinceSnoc(front, c);
      if c == '\n' {
        NewlineClears(Keys(t, front));
      } else {
        KeyTypes(Keys(t, front), SinceNewline(front), c);
      }
    }
  }

  lemma {:induction false} NothingTyped()
    ensures Typed(SinceNewline([])) == []
  {
  }

  // ---- Prompts -----------------------------------------------------------------------

  lemma {:induction false} EndsInNewline(cv: Canvas, s: string)
    requires Ok(cv) && s != [] && s[|s| - 1] == '\n'
    ensures PutAll(cv, s).x == 0
    ensures BlankBelow(cv) ==> Fresh(PutAll(cv, s))
  {
    var front := s[..|s| - 1];
    assert s == front + ['\n'];
    PutAllConcat(cv, front, ['\n']);
    PutAllOk(cv, front);
    assert PutAll(PutAll(cv, front), ['\n']) == Put(PutAll(cv, front), '\n') by { assert ['\n'][1..] == []; }
    NewlineFresh(PutAll(cv, front));
  }

  /** The cursor is at the start of a blank row with nothing below. */
  ghost predicate Fresh(cv: Canvas) {
    Ok(cv) && cv.x == 0 && BlankBelow(cv) && Row(cv, cv.y) == Blanks(WIDTH)
  }

  lemma {:induction false} NewlineFresh(cv: Canvas)
    requires Ok(cv)
    ensures Ok(Put(cv, '\n')) && Put(cv, '\n').x == 0
    ensures BlankBelow(cv) ==> Fresh(Put(cv, '\n'))
  {
    PutOk(cv, '\n');
  }

  /** Whatever command ran, and whatever it printed, the prompt starts on a fresh row. */
  lemma {:induction false} ExecuteFresh(cv: Canvas, cmd: string)
    requires Ok(cv) && BlankBelow(cv)
    ensures Fresh(Execute(cv, cmd))
  {
    hide Put, PutAll;
    if cmd == "help" {
      EndsInNewline(cv, HELP0);
      EndsInNewline(PutAll(cv, HELP0), HELP1);
      EndsInNewline(PutAll(PutAll(cv, HELP0), HELP1), HELP2);
      EndsInNewline(PutAll(PutAll(PutAll(cv, HELP0), HELP1), HELP2), HELP3);
    } else if cmd == "clear" {
    } else if IsEcho(cmd) {
      PutAllOk(cv, cmd[5..]);
      NewlineFresh(PutAll(cv, cmd[5..]));
    } else {
      EndsInNewline(cv, Unknown(cmd));
    }
  }

  // ---- The row being edited ----------------------------------------------------------

  /** The current row shows the prompt and the line, then blanks; the cursor is behind them. */
  ghost predicate Shows(t: Term) {
    && Ok(t.cv) && BlankBelow(t.cv) && t.cv.x == |PROMPT| + |t.line|
    && Row(t.cv, t.cv.y) == PROMPT + t.line + Blanks(WIDTH - |PROMPT| - |t.line|)
  }

  lemma {:induction false} PrintOnRow(t: Term, c: char)
    requires Shows(t) && Printable(c) && |t.line| + |PROMPT| + 1 < WIDTH
    ensures Shows(Term(Put(t.cv, c), t.line + [c]))
  {
    var n := Put(t.cv, c);
    PutOk(t.cv, c);
    var p := Pos(t.cv.x, t.cv.y);
    assert n.cells == t.cv.cells[p := c];
  }

  lemma {:induction false} EraseOnRow(t: Term)
    requires Shows(t) && t.line != []
    ensures Shows(Term(Put(t.cv, BACKSPACE), t.line[..|t.line| - 1]))
  {
    var n := Put(t.cv, BACKSPACE);
    PutOk(t.cv, BACKSPACE);
    var p := Pos(t.cv.x - 1, t.cv.y);
    assert n.cells == t.cv.cells[p := ' '];
  }

  lemma {:induction false} PromptShows(cv: Canvas)
    requires Fresh(cv)
    ensures Shows(Term(PutAll(cv, PROMPT), []))
  {
    PutOk(cv, '$');
    PutOk(Put(cv, '$'), ' ');
    assert PROMPT[1..] == " " && PROMPT[1..][1..] == [];
    assert PutAll(cv, PROMPT) == Put(Put(cv, '$'), ' ');
    assert Put(Put(cv, '$'), ' ').cells == cv.cells[Pos(0, cv.y) := '$'][Pos(1, cv.y) := ' '];
  }

  /** Keys that stay on one row: printable ones and backspaces, with room left at every point. */
  predicate Narrow(ks: string) {
    ks == [] ||
    (&& Narrow(ks[..|ks| - 1]) && |PROMPT| + |Typed(ks)| < WIDTH
     && (Printable(ks[|ks| - 1]) || ks[|ks| - 1] in {NUL, BACKSPACE}))
  }

  lemma {:induction false} ShowsOk(t: Term)
    requires Shows(t)
    ensures Ok(t.cv) && BlankBelow(t.cv)
  {
  }

  /** tty_init leaves a prompt, an empty line and nothing below: all that the theorems about keys ask for. */
  lemma {:induction false} StartShows()
    ensures Fresh(CLEAR) && Shows(START) && START.line == []
    ensures Ok(START.cv) && BlankBelow(START.cv)
  {
    assert Row(CLEAR, 0) == Blanks(WIDTH);
    PromptShows(CLEAR);
    ShowsOk(START);
  }

  lemma {:induction false} EnteredShows(t: Term)
    requires Ok(t.cv) && BlankBelow(t.cv)
    ensures Shows(Entered(t))
  {
    hide Put, PutAll, Execute, Ok, BlankBelow, Shows;
    var cv := Put(t.cv, '\n');
    NewlineFresh(t.cv);
    FreshOk(cv);
    if t.line != [] {
      ExecuteFresh(cv, t.line);
      PromptShows(Execute(cv, t.line));
    } else {
      PromptShows(cv);
    }
  }

  lemma {:induction false} KeyOk(t: Term, c: char)
    requires Ok(t.cv) && BlankBelow(t.cv)
    ensures Ok(Key(t, c).cv) && BlankBelow(Key(t, c).cv)
    ensures c == '\n' ==> Shows(Key(t, c))
  {
    hide Put, Entered, Ok, BlankBelow, Shows;
    if c == '\n' {
      EnteredShows(t);
      EnteredShows(t.(line := []));
      ShowsOk(Key(t, c));
    } else {
      PutOk(t.cv, c);
    }
  }

  lemma {:induction false} FreshOk(cv: Canvas)
    requires Fresh(cv)
    ensures Ok(cv) && BlankBelow(cv)
  {
  }

  /** The canvas stays well formed whatever is typed, and nothing is below the cursor's row. */
  lemma {:induction false} KeysOk(t: Term, ks: string)
    requires Ok(t.cv) && BlankBelow(t.cv)
    ensures Ok(Keys(t, ks).cv) && BlankBelow(Keys(t, ks).cv)
    decreases |ks|
  {
    hide Key, Ok, BlankBelow;
    if ks == [] {
      KeysNone(t);
    } else {
      var front, c := ks[..|ks| - 1], ks[|ks| - 1];
      assert ks == front + [c];
      KeysOk(t, front);
      KeysSnoc(t, front, c);
      KeyOk(Keys(t, front), c);
    }
  }

  lemma {:induction false} NarrowFront(front: string, c: char)
    requires c != '\n' && Narrow(SinceNewline(front + [c]))
    ensures Narrow(SinceNewline(front)) && |PROMPT| + |Typed(SinceNewline(front + [c]))| < WIDTH
    ensures Printable(c) || c in {NUL, BACKSPACE}
  {
    var ks, s := front + [c], SinceNewline(front);
    assert ks[..|ks| - 1] == front && SinceNewline(ks) == s + [c];
    assert (s + [c])[..|s|] == s;
  }

  /** While the line fits beside the prompt, the current row shows the prompt, then exactly what
      has been typed since the last newline, then blanks; whatever came before. */
  lemma {:induction false} RowShowsLine(t: Term, ks: string)
    requires Shows(t) && t.line == []
    requires Narrow(SinceNewline(ks))
    ensures Shows(Keys(t, ks)) && Keys(t, ks).line == Typed(SinceNewline(ks))
    decreases |ks|
  {
    hide Key, Keys, Shows, Narrow, SinceNewline, Typed, Ok, BlankBelow, Printable;
    LineIsTyped(t, ks);
    if ks == [] {
      KeysNone(t);
    } else {
      var front, c := ks[..|ks| - 1], ks[|ks| - 1];
      assert ks == front + [c];
      KeysSnoc(t, front, c);
      if c == '\n' {
        ShowsOk(t);
        KeysOk(t, front);
        KeyOk(Keys(t, front), c);
      } else {
        NarrowFront(front, c);
        RowShowsLine(t, front);
        NarrowKey(Keys(t, front), c);
      }
    }
  }

  lemma {:induction false} NarrowKey(t: Term, c: char)
    requires Shows(t) && (Printable(c) || c in {NUL, BACKSPACE})
    requires |PROMPT| + |Key(t, c).line| < WIDTH
    ensures Shows(Key(t, c))
  {
    hide Put, Shows;
    if c == BACKSPACE {
      if t.line != [] { EraseOnRow(t); }
    } else if c != NUL && |t.line| < LINE_MAX {
      PrintOnRow(t, c);
    }
  }

  // ---- Lines that are too long -------------------------------------------------------

  /** Keys that the line buffer stores. */
  predicate Stored(ks: string) {
    forall k :: 0 <= k < |ks| ==> ks[k] !in {NUL, '\n', BACKSPACE}
  }

  /** The line buffer takes 128 characters, one more than leaves room for the terminator. */
  lemma {:induction false} LineFills(ks: string)
    requires Stored(ks)
    ensures Typed(ks) == if |ks| < LINE_MAX then ks else ks[..LINE_MAX]
    decreases |ks|
  {
    if ks != [] {
      var front := ks[..|ks| - 1];
      LineFills(front);
      assert ks == front + [ks[|ks| - 1]];
    }
  }

  /** Backspace takes back the last character typed, and nothing from an empty line; a key without
      a character types nothing. */
  lemma {:induction false} BackspaceTakesBack(ks: string, c: char)
    ensures c !in {NUL, BACKSPACE} && |Typed(ks)| < LINE_MAX ==> Typed(ks + [c] + [BACKSPACE]) == Typed(ks)
    ensures Typed(ks) == [] ==> Typed(ks + [BACKSPACE]) == []
    ensures Typed(ks + [NUL]) == Typed(ks)
  {
    TypedSnoc(ks, c);
    TypedSnoc(ks + [c], BACKSPACE);
    TypedSnoc(ks, BACKSPACE);
    TypedSnoc(ks, NUL);
  }

  lemma {:induction false} TypedSnoc(ks: string, c: char)
    ensures var l := Typed(ks);
      Typed(ks + [c]) ==
        if c == NUL then l
        else if c == BACKSPACE then (if l == [] then [] else l[..|l| - 1])
        else if |l| < LINE_MAX then l + [c]
        else l
  {
    assert (ks + [c])[..|ks|] == ks;
  }

  lemma {:induction false} NoNewline(ks: string)
    requires '\n' !in ks
    ensures SinceNewline(ks) == ks
    decreases |ks|
  {
    if ks != [] {
      NoNewline(ks[..|ks| - 1]);
    }
  }

  lemma {:induction false} PutAllDown(cv: Canvas, s: string)
    requires Ok(cv)
    ensures Ok(PutAll(cv, s)) && PutAll(cv, s).y >= cv.y
    decreases |s|
  {
    hide Ok, Put;
    if s != [] {
      PutOk(cv, s[0]);
      PutAllDown(Put(cv, s[0]), s[1..]);
    }
  }

  lemma {:induction false} NewlineDown(cv: Canvas)
    requires Ok(cv)
    ensures Ok(Put(cv, '\n')) && Put(cv, '\n').y == cv.y + 1 && Put(cv, '\n').x == 0
  {
  }

  /** A command that is none of the two short ones ends at least one row further down. */
  lemma {:induction false} ExecuteDown(cv: Canvas, cmd: string)
    requires Ok(cv) && |cmd| > 5
    ensures Ok(Execute(cv, cmd)) && Execute(cv, cmd).y > cv.y && Execute(cv, cmd).x == 0
  {
    hide Ok, Put, PutAll;
    if IsEcho(cmd) {
      PutAllDown(cv, cmd[5..]);
      NewlineDown(PutAll(cv, cmd[5..]));
    } else {
      var s := Unknown(cmd);
      var front := s[..|s| - 1];
      assert s == front + ['\n'];
      PutAllConcat(cv, front, ['\n']);
      PutAllDown(cv, front);
      NewlineDown(PutAll(cv, front));
      PutAllOne(PutAll(cv, front), '\n');
    }
  }

  lemma {:induction false} PutAllOne(cv: Canvas, c: char)
    ensures PutAll(cv, [c]) == Put(cv, c)
  {
    assert [c][1..] == [];
  }

  lemma {:induction false} PromptLevel(cv: Canvas)
    requires Ok(cv) && cv.x == 0
    ensures PutAll(cv, PROMPT).y == cv.y
  {
    assert PROMPT[1..] == " " && PROMPT[1..][1..] == [];
    assert PutAll(cv, PROMPT) == Put(Put(cv, '$'), ' ');
  }

  /** A newline runs the line that was typed exactly when it leaves room for its terminator. */
  lemma {:induction false} NewlineRunsLine(t: Term)
    requires Ok(t.cv) && |t.line| <= LINE_MAX
    ensures Key(t, '\n') == Entered(t) <==> |t.line| < LINE_MAX
  {
    hide Ok, Put, PutAll, Execute;
    if |t.line| == LINE_MAX {
      var cv := Put(t.cv, '\n');
      NewlineDown(t.cv);
      ExecuteDown(cv, t.line);
      PromptLevel(cv);
      PromptLevel(Execute(cv, t.line));
    }
  }

  /** Every newline among the keys runs the line it ends. */
  ghost predicate RunsEveryLine(t: Term, ks: string) {
    forall i :: 0 <= i < |ks| && ks[i] == '\n' ==> Key(Keys(t, ks[..i]), '\n') == Entered(Keys(t, ks[..i]))
  }

  /** Every newline among the keys comes after fewer than 128 characters of a line. */
  predicate LinesFit(ks: string) {
    forall i :: 0 <= i < |ks| && ks[i] == '\n' ==> |Typed(SinceNewline(ks[..i]))| < LINE_MAX
  }

  lemma {:induction false} TypedFits(ks: string)
    ensures |Typed(ks)| <= LINE_MAX
    decreases |ks|
  {
    if ks != [] {
      TypedFits(ks[..|ks| - 1]);
    }
  }

  /** Exactly when all lines are run, whatever else is typed. */
  lemma {:induction false} LinesRun(t: Term, ks: string)
    requires Ok(t.cv) && BlankBelow(t.cv) && t.line == []
    ensures RunsEveryLine(t, ks) <==> LinesFit(ks)
  {
    hide Key, Keys, Entered, Typed, SinceNewline;
    forall i | 0 <= i < |ks| && ks[i] == '\n'
      ensures Key(Keys(t, ks[..i]), '\n') == Entered(Keys(t, ks[..i])) <==>
        |Typed(SinceNewline(ks[..i]))| < LINE_MAX
    {
      LineIsTyped(t, ks[..i]);
      KeysOk(t, ks[..i]);
      TypedFits(SinceNewline(ks[..i]));
      NewlineRunsLine(Keys(t, ks[..i]));
    }
  }

  /** From 128 stored keys on, a newline shows the next prompt and runs nothing. */
  lemma {:induction false} FullLineLost(t: Term, ks: string)
    requires Ok(t.cv) && BlankBelow(t.cv) && t.line == []
    requires Stored(ks) && |ks| >= LINE_MAX
    ensures Keys(t, ks).line == ks[..LINE_MAX]
    ensures Keys(t, ks + ['\n']) == Term(PutAll(Put(Keys(t, ks).cv, '\n'), PROMPT), [])
    ensures Keys(t, ks + ['\n']) != Entered(Keys(t, ks))
  {
    hide Keys, Typed, SinceNewline, Put, PutAll, Execute, Ok;
    NoNewline(ks);
    LineFills(ks);
    LineIsTyped(t, ks);
    KeysSnoc(t, ks, '\n');
    KeysOk(t, ks);
    NewlineRunsLine(Keys(t, ks));
  }
}
