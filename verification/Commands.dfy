/** What each command of kernel/tty/tty.c leaves on the screen, cell by cell. */
module Commands {
  import opened Canvas
  import opened LineEditor

  predicate PrintableText(s: string) { forall k :: 0 <= k < |s| ==> Printable(s[k]) }

  /** A row of the given text, then blanks. */
  function Line(s: string): string { s + Blanks(if |s| < WIDTH then WIDTH - |s| else 0) }

  /** r with s from column x on. */
  function Over(r: string, x: nat, s: string): string {
    if x + |s| <= |r| then r[..x] + s + r[x + |s|..] else r
  }

  /** Only row y differs. */
  ghost predicate OtherRowsStand(a: Canvas, b: Canvas, y: nat) {
    forall k: nat :: k != y && WIDTH * (k + 1) <= |a.cells| ==> Row(b, k) == Row(a, k)
  }

  // ---- Pieces of a row ---------------------------------------------------------------

  lemma {:induction false} PutInRow(cv: Canvas, c: char)
    requires Ok(cv) && Printable(c) && cv.x + 1 < WIDTH
    ensures var n := Put(cv, c);
      && Ok(n) && n.x == cv.x + 1 && n.y == cv.y && n.rows == cv.rows && |n.cells| == |cv.cells|
      && |Row(cv, cv.y)| == WIDTH && Row(n, cv.y) == Row(cv, cv.y)[cv.x := c] && OtherRowsStand(cv, n, cv.y)
  {
    PutOk(cv, c);
    var p := Pos(cv.x, cv.y);
    assert Put(cv, c).cells == cv.cells[p := c];
  }

  /** Printable text that stays on its row. */
  lemma {:induction false} TextInRow(cv: Canvas, s: string)
    requires Ok(cv) && PrintableText(s) && cv.x + |s| < WIDTH
    ensures var t := PutAll(cv, s);
      && Ok(t) && t.x == cv.x + |s| && t.y == cv.y && t.rows == cv.rows && |t.cells| == |cv.cells|
      && |Row(cv, cv.y)| == WIDTH && Row(t, cv.y) == Over(Row(cv, cv.y), cv.x, s) && OtherRowsStand(cv, t, cv.y)
    decreases |s|
  {
    hide Ok, Put, Printable, Row;
    RowLength(cv);
    if s != [] {
      PutInRow(cv, s[0]);
      var n := Put(cv, s[0]);
      TextInRow(n, s[1..]);
      assert Over(Row(n, cv.y), n.x, s[1..]) == Over(Row(cv, cv.y), cv.x, s);
    }
  }

  lemma {:induction false} RowLength(cv: Canvas)
    requires Ok(cv)
    ensures |Row(cv, cv.y)| == WIDTH && WIDTH * (cv.y + 1) <= |cv.cells|
  {
  }

  /** A newline after which nothing but the cursor has moved, or a blank row come in. */
  lemma {:induction false} NewlineRows(cv: Canvas)
    requires Ok(cv)
    ensures var n := Put(cv, '\n');
      Ok(n) && n.x == 0 && n.y == cv.y + 1 && forall k: nat :: WIDTH * (k + 1) <= |cv.cells| ==> Row(n, k) == Row(cv, k)
    ensures BlankBelow(cv) ==> Fresh(Put(cv, '\n'))
  {
    Newline(cv);
    NewlineFresh(cv);
  }

  lemma {:induction false} TabTo12(cv: Canvas)
    requires Ok(cv) && 8 <= cv.x < 12
    ensures Put(cv, '\t') == cv.(x := 12)
  {
    ReturnAndTab(cv);
  }

  // ---- One line of output ------------------------------------------------------------

  /** Text and a newline on a fresh row: that row is the text, and the next one is fresh. */
  lemma {:induction false} LineOnFresh(cv: Canvas, s: string)
    requires Fresh(cv) && PrintableText(s) && |s| < WIDTH
    ensures var t := PutAll(cv, s + "\n");
      && Fresh(t) && t.y == cv.y + 1 && Row(t, cv.y) == Line(s)
      && forall k: nat :: k < cv.y ==> Row(t, k) == Row(cv, k)
  {
    hide Ok, Put, Printable, Row;
    FreshOk(cv);
    FreshRow(cv);
    PutAllConcat(cv, s, "\n");
    var m := PutAll(cv, s);
    PutAllOne(m, '\n');
    TextInRow(cv, s);
    PutAllOk(cv, s);
    RowLength(m);
    NewlineRows(m);
    assert Over(Blanks(WIDTH), 0, s) == Line(s);
    RowsAbove(cv, m, Put(m, '\n'));
  }

  lemma {:induction false} FreshRow(cv: Canvas)
    requires Fresh(cv)
    ensures Row(cv, cv.y) == Blanks(WIDTH) && cv.x == 0 && WIDTH * (cv.y + 1) <= |cv.cells|
  {
  }

  lemma {:induction false} RowsAbove(cv: Canvas, m: Canvas, n: Canvas)
    requires WIDTH * (cv.y + 1) <= |cv.cells| == |m.cells| && OtherRowsStand(cv, m, cv.y)
    requires forall k: nat :: WIDTH * (k + 1) <= |m.cells| ==> Row(n, k) == Row(m, k)
    ensures forall k: nat :: k < cv.y ==> Row(n, k) == Row(cv, k)
  {
    hide Row;
  }

  /** A line of the help text: a word at column 4, its description at column 12. */
  lemma {:induction false} HelpLine(cv: Canvas, word: string, text: string)
    requires Fresh(cv) && PrintableText(word) && PrintableText(text) && 4 <= |word| < 8 && |text| < 60
    ensures var t := PutAll(cv, "\t" + word + "\t" + text + "\n");
      && Fresh(t) && t.y == cv.y + 1
      && Row(t, cv.y) == Line(Blanks(4) + word + Blanks(8 - |word|) + text)
      && forall k: nat :: k < cv.y ==> Row(t, k) == Row(cv, k)
  {
    hide Ok, Put, Printable, Row, Fresh, BlankBelow;
    FreshOk(cv);
    FreshRow(cv);
    var a := PutAll(cv, "\t");
    TabOnFresh(cv);
    TextInRow(a, word);
    var b := PutAll(a, word);
    PutAllOk(a, word);
    TabTo12(b);
    var c := Put(b, '\t');
    PutAllOne(b, '\t');
    TabKeeps(b);
    TextInRow(c, text);
    var d := PutAll(c, text);
    PutAllOk(c, text);
    PutAllOne(d, '\n');
    NewlineRows(d);
    SplitHelp(cv, word, text);
    RowLength(d);
    HelpRow(word, text);
    assert OtherRowsStand(cv, d, cv.y);
    RowsAbove(cv, d, Put(d, '\n'));
  }

  lemma {:induction false} TabOnFresh(cv: Canvas)
    requires Fresh(cv)
    ensures var a := PutAll(cv, "\t");
      Ok(a) && BlankBelow(a) && a == cv.(x := 4) && forall k: nat :: Row(a, k) == Row(cv, k)
  {
    PutAllOne(cv, '\t');
    ReturnAndTab(cv);
  }

  lemma {:induction false} TabKeeps(cv: Canvas)
    requires Ok(cv) && 8 <= cv.x < 12 && BlankBelow(cv)
    ensures var n := Put(cv, '\t');
      Ok(n) && BlankBelow(n) && n.cells == cv.cells && n.y == cv.y && n.rows == cv.rows && forall k: nat :: Row(n, k) == Row(cv, k)
  {
    TabTo12(cv);
  }

  lemma {:induction false} SplitHelp(cv: Canvas, word: string, text: string)
    ensures PutAll(cv, "\t" + word + "\t" + text + "\n")
         == PutAll(PutAll(PutAll(PutAll(PutAll(cv, "\t"), word), "\t"), text), "\n")
  {
    PutAllConcat(cv, "\t", word);
    PutAllConcat(cv, "\t" + word, "\t");
    PutAllConcat(cv, "\t" + word + "\t", text);
    PutAllConcat(cv, "\t" + word + "\t" + text, "\n");
  }

  lemma {:induction false} HelpRow(word: string, text: string)
    requires 4 <= |word| < 8 && |text| < 60
    ensures Over(Over(Blanks(WIDTH), 4, word), 12, text) == Line(Blanks(4) + word + Blanks(8 - |word|) + text)
  {
  }

  // ---- The commands ------------------------------------------------------------------

  /** clear: a blank screen, the cursor in its first cell. */
  lemma {:induction false} ClearShows(cv: Canvas)
    ensures var t := Execute(cv, "clear");
      && Ok(t) && t.rows == HEIGHT && t.x == 0 && t.y == 0 && Window(t) == Blanks(WIDTH * HEIGHT)
  {
    assert "clear" != "help";
  }

  /** The help text in the rows from y on. */
  ghost predicate HelpRows(t: Canvas, y: nat) {
    && Row(t, y) == Line("available commands:")
    && Row(t, y + 1) == Line("    help    - Show this help")
    && Row(t, y + 2) == Line("    clear   - Clear the screen")
    && Row(t, y + 3) == Line("    echo    - Print arguments")
  }

  /** help: four lines from the fresh row the cursor is on. */
  lemma {:induction false} HelpShows(cv: Canvas)
    requires Fresh(cv)
    ensures var t := Execute(cv, "help");
      && Fresh(t) && t.y == cv.y + 4 && (forall k: nat :: k < cv.y ==> Row(t, k) == Row(cv, k))
      && HelpRows(t, cv.y)
  {
    hide Fresh, Row, PutAll, Line;
    HelpText0();
    HelpText1();
    HelpText2();
    HelpText3();
    HelpColumns1();
    HelpColumns2();
    HelpColumns3();
    var a := PutAll(cv, HELP0);
    LineOnFresh(cv, "available commands:");
    var b := PutAll(a, HELP1);
    HelpLine(a, "help ", "- Show this help");
    var c := PutAll(b, HELP2);
    HelpLine(b, "clear ", "- Clear the screen");
    HelpLine(c, "echo ", "- Print arguments");
  }

  lemma {:induction false} HelpText0()
    ensures HELP0 == "available commands:" + "\n" && PrintableText("available commands:")
  {
  }

  lemma {:induction false} HelpText1()
    ensures HELP1 == "\t" + "help " + "\t" + "- Show this help" + "\n"
    ensures PrintableText("help ") && PrintableText("- Show this help")
  {
  }

  lemma {:induction false} HelpColumns1()
    ensures Blanks(4) + "help " + Blanks(3) + "- Show this help" == "    help    - Show this help"
  {
    FourBlanks();
  }

  lemma {:induction false} HelpText2()
    ensures HELP2 == "\t" + "clear " + "\t" + "- Clear the screen" + "\n"
    ensures PrintableText("clear ") && PrintableText("- Clear the screen")
  {
  }

  lemma {:induction false} HelpColumns2()
    ensures Blanks(4) + "clear " + Blanks(2) + "- Clear the screen" == "    clear   - Clear the screen"
  {
    FourBlanks();
  }

  lemma {:induction false} HelpText3()
    ensures HELP3 == "\t" + "echo " + "\t" + "- Print arguments" + "\n"
    ensures PrintableText("echo ") && PrintableText("- Print arguments")
  {
  }

  lemma {:induction false} HelpColumns3()
    ensures Blanks(4) + "echo " + Blanks(3) + "- Print arguments" == "    echo    - Print arguments"
  {
    FourBlanks();
  }

  lemma {:induction false} FourBlanks()
    ensures Blanks(2) == "  " && Blanks(3) == "   " && Blanks(4) == "    "
  {
  }

  /** The text in cells from the cursor on, and after it the cursor at the start of a new row. */
  ghost predicate ShowsText(cv: Canvas, t: Canvas, s: string) {
    && Ok(t) && t.x == 0 && t.y == (Pos(cv.x, cv.y) + |s|) / WIDTH + 1
    && forall i :: 0 <= i < |s| ==> Pos(cv.x, cv.y) + i < |t.cells| && t.cells[Pos(cv.x, cv.y) + i] == s[i]
  }

  /** Printable text of any length, and a newline. */
  lemma {:induction false} TextThenNewline(cv: Canvas, s: string)
    requires Ok(cv) && PrintableText(s)
    ensures ShowsText(cv, Put(PutAll(cv, s), '\n'), s)
  {
    hide Put, Printable, Pos;
    var t := PutAll(cv, s);
    PutAllOk(cv, s);
    Newline(t);
    forall i | 0 <= i < |s| ensures Pos(cv.x, cv.y) + i < |t.cells| && t.cells[Pos(cv.x, cv.y) + i] == s[i] {
      TextLayout(cv, s, i);
    }
    if s != [] { TextLayout(cv, s, 0); }
    RowOfPos(t);
  }

  lemma {:induction false} RowOfPos(cv: Canvas)
    requires Ok(cv)
    ensures Pos(cv.x, cv.y) / WIDTH == cv.y
  {
  }

  /** echo: its argument from the cursor on, across rows if it is long. */
  lemma {:induction false} EchoShows(cv: Canvas, s: string)
    requires Ok(cv) && PrintableText(s)
    ensures ShowsText(cv, Execute(cv, "echo " + s), s)
  {
    hide Put, PutAll, ShowsText, PrintableText;
    var cmd := "echo " + s;
    assert cmd[5..] == s && cmd[..5] == "echo ";
    assert cmd[0] == 'e' && "help"[0] == 'h' && "clear"[0] == 'c';
    TextThenNewline(cv, s);
  }

  /** Any other command: a message with the command in quotes. */
  lemma {:induction false} UnknownShows(cv: Canvas, cmd: string)
    requires Ok(cv) && PrintableText(cmd)
    requires cmd != "help" && cmd != "clear" && (|cmd| < 5 || cmd[..5] != "echo ")
    ensures ShowsText(cv, Execute(cv, cmd), "unknown command: '" + cmd + "'")
  {
    hide Put, PutAll, ShowsText;
    var s := "unknown command: '" + cmd + "'";
    UnknownPrintable(cmd);
    assert Unknown(cmd) == s + "\n";
    PutAllConcat(cv, s, "\n");
    PutAllOne(PutAll(cv, s), '\n');
    TextThenNewline(cv, s);
  }

  lemma {:induction false} UnknownPrintable(cmd: string)
    requires PrintableText(cmd)
    ensures PrintableText("unknown command: '" + cmd + "'")
  {
    var head := "unknown command: '";
    assert PrintableText(head);
    assert PrintableText("'");
  }

  // ---- What a newline prints ---------------------------------------------------------

  /** The row with the new prompt, and the cursor behind it. */
  ghost predicate PromptAt(t: Canvas, y: nat) {
    t.y == y && t.x == 2 && Row(t, y) == Line("$ ")
  }

  lemma {:induction false} PromptOnFresh(cv: Canvas)
    requires Fresh(cv)
    ensures var t := PutAll(cv, PROMPT);
      PromptAt(t, cv.y) && forall k: nat :: k < cv.y ==> Row(t, k) == Row(cv, k)
  {
    hide Ok, Put, Row, Printable;
    FreshOk(cv);
    FreshRow(cv);
    PromptPrintable();
    TextInRow(cv, PROMPT);
    assert Over(Blanks(WIDTH), 0, PROMPT) == Line(PROMPT);
  }

  lemma {:induction false} PromptPrintable()
    ensures PrintableText(PROMPT)
  {
  }

  /** The output of a command, then the prompt on the next row; nothing if no command was typed. */
  lemma {:induction false} EnteredShows(t: Term)
    requires Ok(t.cv) && BlankBelow(t.cv)
    ensures var n, cv := Entered(t).cv, Put(t.cv, '\n');
      && Fresh(cv) && cv.y == t.cv.y + 1
      && (t.line == [] ==> PromptAt(n, cv.y))
      && (t.line == "clear" ==> PromptAt(n, 0))
      && (t.line == "help" ==> HelpRows(n, cv.y) && PromptAt(n, cv.y + 4))
      && (t.line != [] ==> Fresh(Execute(cv, t.line)) && PromptAt(n, Execute(cv, t.line).y)
                           && forall k: nat :: k < Execute(cv, t.line).y ==> Row(n, k) == Row(Execute(cv, t.line), k))
  {
    hide Put, PutAll, Execute, Fresh, Row, Line, PromptAt, BlankBelow;
    var cv := Put(t.cv, '\n');
    NewlineRows(t.cv);
    FreshOk(cv);
    if t.line == [] {
      PromptOnFresh(cv);
    } else {
      ExecuteFresh(cv, t.line);
      PromptOnFresh(Execute(cv, t.line));
      if t.line == "help" { HelpShows(cv); }
      if t.line == "clear" { ClearShows(cv); }
    }
  }
}
