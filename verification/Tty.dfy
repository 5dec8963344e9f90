/** The terminal of kernel/tty/tty.c driving the VGA text buffer, kept in step with the
    unbounded canvas: the screen is always the canvas's last rows. */
module Tty {
  import opened Words
  import opened Canvas
  import opened LineEditor
  import Format
  import Strings
  import opened Vga

  const COLOUR: Byte := 0x07

  /** Characters of a byte, without a terminator. */
  predicate Text(s: string) { forall i :: 0 <= i < |s| ==> 0 < s[i] as int < 256 }

  /** The screen shows the canvas's last rows and the cursor is where the canvas has it. */
  ghost predicate Sync(cv: Canvas, screen: string, x: nat, y: nat) {
    Ok(cv) && Shown(cv, screen, x, y)
  }

  ghost predicate Shown(cv: Canvas, screen: string, x: nat, y: nat) {
    && HEIGHT <= cv.rows && |cv.cells| == WIDTH * cv.rows && screen == Window(cv)
    && x == cv.x && y == cv.y - (cv.rows - HEIGHT)
  }

  /** Between the character and the end of tty_putchar: the cursor may be one column or one row
      too far, not both. */
  ghost predicate Moved(cv: Canvas, screen: string, x: nat, y: nat) {
    Shown(cv, screen, x, y) && x <= WIDTH && (if x < WIDTH then y <= HEIGHT else y < HEIGHT)
  }

  lemma {:induction false} Prints(cv: Canvas, c: char, screen: string, x: nat, y: nat)
    requires Sync(cv, screen, x, y) && Printable(c)
    ensures x < WIDTH && y < HEIGHT && |screen| == CELLS
    ensures Moved(Act(cv, c), screen[Pos(x, y) := c], x + 1, y)
  {
    hide Ok;
    OkBounds(cv);
    WindowWrite(cv, cv.x, cv.y, c);
  }

  lemma {:induction false} Erases(cv: Canvas, screen: string, x: nat, y: nat)
    requires Sync(cv, screen, x, y) && x > 0
    ensures x < WIDTH && y < HEIGHT && |screen| == CELLS
    ensures Moved(Act(cv, BACKSPACE), screen[Pos(x - 1, y) := ' '], x - 1, y)
  {
    hide Ok;
    OkBounds(cv);
    WindowWrite(cv, cv.x - 1, cv.y, ' ');
  }

  lemma {:induction false} Moves(cv: Canvas, c: char, screen: string, x: nat, y: nat)
    requires Sync(cv, screen, x, y) && c in {'\n', '\t', '\r', BACKSPACE} && (c == BACKSPACE ==> x == 0)
    ensures Moved(Act(cv, c), screen, if c == '\t' then (x + 4) / 4 * 4 else 0, if c == '\n' then y + 1 else y)
  {
    hide Ok;
    OkBounds(cv);
    assert Window(Act(cv, c)) == Window(cv);
  }

  lemma {:induction false} OkBounds(cv: Canvas)
    requires Ok(cv)
    ensures HEIGHT <= cv.rows && |cv.cells| == WIDTH * cv.rows && cv.x < WIDTH && cv.y < cv.rows <= cv.y + HEIGHT
  {
  }

  /** The end of tty_putchar brings the cursor back on the screen, scrolling when it must. */
  lemma {:induction false} Settles(cv: Canvas, screen: string, x: nat, y: nat)
    requires Moved(cv, screen, x, y)
    ensures |screen| == CELLS
    ensures var x', y' := if x >= WIDTH then 0 else x, if x >= WIDTH then y + 1 else y;
      if y' >= HEIGHT then Sync(Extend(Wrap(cv)), screen[WIDTH..] + Blanks(WIDTH), x', HEIGHT - 1)
      else Sync(Extend(Wrap(cv)), screen, x', y')
  {
    var w := Wrap(cv);
    assert Window(w) == Window(cv);
    WindowMoves(w);
  }

  lemma {:induction false} ClearShown()
    ensures Sync(CLEAR, Blanks(CELLS), 0, 0) && Text(PROMPT) && Text([])
  {
    assert Window(CLEAR) == Blanks(CELLS);
  }

  lemma {:induction false} PutsNothing(cv: Canvas)
    ensures Put(cv, NUL) == cv
  {
  }

  lemma {:induction false} PutsAs(cv: Canvas, c: char)
    requires c != NUL
    ensures Put(cv, c) == Extend(Wrap(Act(cv, c)))
  {
  }

  class Terminal {
    const vga: TextBuffer
    const buffer: array<char>
    var bufPos: nat
    var xpos: nat
    var ypos: nat
    ghost var canvas: Canvas

    ghost predicate Valid()
      reads this, vga, vga.buffer, buffer
    {
      && vga.Valid() && buffer.Length == LINE_MAX && bufPos <= LINE_MAX
      && vga.buffer as object != buffer && Text(buffer[..bufPos])
      && Sync(canvas, Screen(vga.buffer[..]), xpos, ypos)
    }

    ghost function Model(): Term
      reads this, buffer
      requires bufPos <= buffer.Length
    {
      Term(canvas, buffer[..bufPos])
    }

    /** tty_putchar. */
    method Putchar(c: char)
      requires Valid() && c as int < 256
      modifies this`xpos, this`ypos, this`canvas, vga.buffer
      ensures Valid() && canvas == Put(old(canvas), c)
      ensures buffer[..] == old(buffer[..])
    {
      hide Put, Act, Wrap, Extend, Sync, Moved, Text, Screen;
      ghost var cv, screen := canvas, Screen(vga.buffer[..]);
      if c == NUL {
        PutsNothing(cv);
        return;
      }
      PutsAs(cv, c);
      if c == '\n' {
        Moves(cv, c, screen, xpos, ypos);
        xpos := 0;
        ypos := ypos + 1;
      } else if c == BACKSPACE {
        if xpos > 0 {
          Erases(cv, screen, xpos, ypos);
          xpos := xpos - 1;
          vga.Write(' ', xpos, ypos, COLOUR);
        } else {
          Moves(cv, c, screen, xpos, ypos);
        }
      } else if c == '\t' {
        Moves(cv, c, screen, xpos, ypos);
        xpos := (xpos + 4) / 4 * 4;
      } else if c == '\r' {
        Moves(cv, c, screen, xpos, ypos);
        xpos := 0;
      } else {
        Prints(cv, c, screen, xpos, ypos);
        vga.Write(c, xpos, ypos, COLOUR);
        xpos := xpos + 1;
      }
      Settles(Act(cv, c), Screen(vga.buffer[..]), xpos, ypos);
      if xpos >= WIDTH {
        xpos := 0;
        ypos := ypos + 1;
      }
      if ypos >= HEIGHT {
        vga.Scroll();
        ypos := HEIGHT - 1;
      }
      canvas := Put(cv, c);
    }

    /** tty_init, on a cleared screen. */
    constructor (vga: TextBuffer)
      requires vga.Valid()
      modifies vga.buffer
      ensures Valid() && fresh(buffer) && this.vga == vga && Model() == LineEditor.START
    {
      hide Put, PutAll, Sync, Screen, Text;
      ClearShown();
      this.vga := vga;
      buffer := new char[LINE_MAX](_ => NUL);
      bufPos, xpos, ypos := 0, 0, 0;
      canvas := CLEAR;
      new;
      vga.Clear(0);
      assert buffer[..0] == [];
      Write(PROMPT);
      assert buffer[..0] == [];
    }

    /** tty_write: whatever is written, the screen shows the last rows of the canvas. */
    method Write(str: string)
      requires Valid() && Text(str)
      modifies this`xpos, this`ypos, this`canvas, vga.buffer
      ensures Valid() && canvas == PutAll(old(canvas), str)
      ensures buffer[..] == old(buffer[..])
    {
      hide Put, Ok, Sync, Screen;
      var i := 0;
      while i < |str|
        invariant i <= |str| && Valid()
        invariant PutAll(canvas, str[i..]) == PutAll(old(canvas), str)
        invariant buffer[..] == old(buffer[..])
      {
        assert str[i..][1..] == str[i + 1..];
        Putchar(str[i]);
        i := i + 1;
      }
    }

    /** tty_clear. */
    method Clear()
      requires Valid()
      modifies this`xpos, this`ypos, this`canvas, vga.buffer
      ensures Valid() && canvas == CLEAR && buffer[..] == old(buffer[..])
    {
      vga.Clear(0);
      xpos, ypos := 0, 0;
      canvas := CLEAR;
    }

    /** tty_printf of the message for an unknown command. */
    method PrintUnknown(cmd: string)
      requires Valid() && Text(cmd) && |cmd| <= LINE_MAX
      modifies this`xpos, this`ypos, this`canvas, vga.buffer
      ensures Valid() && canvas == PutAll(old(canvas), Unknown(cmd)) && buffer[..] == old(buffer[..])
    {
      hide Put, PutAll, Ok, Sync, Screen, Format.Render, Format.Needed, Format.LoneTail;
      UnknownRendered(cmd);
      var text := new char[4096];
      var at: Word :| 0 < at && at + text.Length <= WORD;
      var r := Format.Vsnprintf(text, at, 4096, UNKNOWN_FORMAT, [Format.Arg(0, Some(cmd))]);
      assert text[..r.n] == Unknown(cmd);
      Write(text[..r.n]);
    }

    /** tty_execute_command. */
    method ExecuteCommand(cmd: string)
      requires Valid() && Text(cmd) && |cmd| <= LINE_MAX
      modifies this`xpos, this`ypos, this`canvas, vga.buffer
      ensures Valid() && canvas == Execute(old(canvas), cmd) && buffer[..] == old(buffer[..])
    {
      hide Put, PutAll, Ok, Sync, Screen, Strings.Prefix;
      EchoPrefix(cmd);
      var help := Strings.Strcmp(cmd, "help");
      var clear := Strings.Strcmp(cmd, "clear");
      var echo := Strings.Strncmp(cmd, "echo ", 5);
      if help == 0 {
        HelpText();
        Write(HELP0);
        Write(HELP1);
        Write(HELP2);
        Write(HELP3);
      } else if clear == 0 {
        Clear();
      } else if echo == 0 {
        Write(cmd[5..]);
        Putchar('\n');
      } else {
        PrintUnknown(cmd);
      }
    }

    /** tty_handle_keypress. buf_pos follows the buffer in memory, low byte first, so that is
        where the terminator of a full line goes. */
    method HandleKeypress(ascii: char)
      requires Valid() && ascii as int < 256
      modifies this`bufPos, this`xpos, this`ypos, this`canvas, buffer, vga.buffer
      ensures Valid() && Model() == Key(old(Model()), ascii)
    {
      hide Put, PutAll, Ok, Execute, Sync, Screen;
      ghost var t := Model();
      if ascii == NUL {
        return;
      } else if ascii == '\n' {
        Putchar('\n');
        if bufPos < LINE_MAX {
          buffer[bufPos] := NUL;
          assert buffer[..bufPos] == t.line;
        } else {
          bufPos := bufPos - bufPos % 256;
          assert buffer[..bufPos] == [];
        }
        if bufPos > 0 {
          ExecuteCommand(buffer[..bufPos]);
        }
        ResetLine();
        Write(PROMPT);
      } else if ascii == BACKSPACE {
        if bufPos > 0 {
          bufPos := bufPos - 1;
          assert buffer[..bufPos] == t.line[..bufPos];
          Putchar(BACKSPACE);
        }
      } else if bufPos < buffer.Length {
        buffer[bufPos] := ascii;
        bufPos := bufPos + 1;
        assert buffer[..bufPos] == t.line + [ascii];
        Putchar(ascii);
      }
    }

    /** The main loop of the kernel, on the characters of the events it pops. */
    method HandleKeys(ks: string)
      requires Valid() && forall k :: 0 <= k < |ks| ==> ks[k] as int < 256
      modifies this`bufPos, this`xpos, this`ypos, this`canvas, buffer, vga.buffer
      ensures Valid() && Model() == Keys(old(Model()), ks)
    {
      hide Key, Sync, Screen, Text, Keys;
      ghost var t := Model();
      var i := 0;
      assert ks[..0] == [];
      KeysNone(t);
      while i < |ks|
        invariant i <= |ks| && Valid() && Model() == Keys(t, ks[..i])
      {
        assert ks[..i + 1] == ks[..i] + [ks[i]];
        KeysSnoc(t, ks[..i], ks[i]);
        HandleKeypress(ks[i]);
        i := i + 1;
      }
      assert ks[..i] == ks;
    }

    /** tty_reset_line. */
    method ResetLine()
      requires Valid()
      modifies this`bufPos, buffer
      ensures Valid() && bufPos == 0 && forall k :: 0 <= k < LINE_MAX ==> buffer[k] == NUL
    {
      hide Ok, Sync, Screen;
      bufPos := 0;
      var i := 0;
      while i < LINE_MAX
        invariant i <= LINE_MAX && bufPos == 0 && forall k :: 0 <= k < i ==> buffer[k] == NUL
        invariant Valid()
      {
        buffer[i] := NUL;
        i := i + 1;
      }
    }
  }

  const UNKNOWN_HEAD := "unknown command: '"
  const UNKNOWN_FORMAT := UNKNOWN_HEAD + "%s'\n"

  lemma {:induction false} HelpText()
    ensures Text(HELP0) && Text(HELP1) && Text(HELP2) && Text(HELP3)
  {
  }

  lemma {:induction false} EchoPrefix(cmd: string)
    ensures Strings.Prefix(cmd, 5) == Strings.Prefix("echo ", 5) <==> IsEcho(cmd)
  {
    assert Strings.Prefix("echo ", 5) == "echo ";
  }

  /** The text that tty_printf's buffer receives for an unknown command, never cut short. */
  lemma {:induction false} UnknownRendered(cmd: string)
    requires |cmd| <= LINE_MAX && Text(cmd)
    ensures var args := [Format.Arg(0, Some(cmd))];
      && Format.Needed(UNKNOWN_FORMAT) == 1 && !Format.LoneTail(UNKNOWN_FORMAT)
      && Format.Render(UNKNOWN_FORMAT, args) == Unknown(cmd)
    ensures |Unknown(cmd)| < 4095 && Text(Unknown(cmd))
  {
    hide Format.Render, Format.Needed, Format.LoneTail, Format.Escape;
    var args := [Format.Arg(0, Some(cmd))];
    NoPercent(UNKNOWN_HEAD);
    Format.RenderEscape(UNKNOWN_HEAD, args);
    QuotedRendered(cmd);
    Format.RenderConcat(UNKNOWN_HEAD, "%s'\n", args);
    Format.NeededConcat(UNKNOWN_HEAD, "%s'\n");
    assert args[0..] == args && UNKNOWN_HEAD + (cmd + "'\n") == Unknown(cmd);
  }

  lemma {:induction false} QuotedRendered(cmd: string)
    ensures Format.Needed("%s'\n") == 1 && !Format.LoneTail("%s'\n")
    ensures Format.Render("%s'\n", [Format.Arg(0, Some(cmd))]) == cmd + "'\n"
  {
    hide Format.Render, Format.Needed, Format.LoneTail, Format.Escape;
    var args, s := [Format.Arg(0, Some(cmd))], "%s'\n";
    NoPercent("'\n");
    Format.RenderEscape("'\n", args[1..]);
    assert s[2..] == "'\n" && s[0] == '%' && s[1] == 's';
    TakesOne(s);
    Format.RenderStep(s, args);
  }

  lemma {:induction false} TakesOne(s: string)
    requires |s| >= 2 && s[0] == '%' && s[1] == 's' && Format.Needed(s[2..]) == 0
    ensures Format.Needed(s) == 1
  {
  }

  lemma {:induction false} NoPercent(s: string)
    requires '%' !in s
    ensures Format.Escape(s) == s
  {
    if s != [] {
      NoPercent(s[1..]);
    }
  }
}
