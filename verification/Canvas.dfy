/** The terminal of kernel/tty/tty.c as a value: text laid out row by row on a canvas that only
    grows. The screen is meant to show its last rows. */
module Canvas {

  const WIDTH := 80
  const HEIGHT := 25
  const NUL := '\0'
  const BACKSPACE: char := 8 as char

  /** cells: the rows one after the other; the cursor is in row y at column x. */
  datatype Canvas = Canvas(cells: string, rows: nat, x: nat, y: nat)

  function Blanks(n: nat): (s: string)
    ensures |s| == n && forall i :: 0 <= i < n ==> s[i] == ' '
  {
    seq(n, _ => ' ')
  }

  ghost predicate Ok(cv: Canvas) {
    && HEIGHT <= cv.rows && |cv.cells| == WIDTH * cv.rows
    && cv.x < WIDTH && cv.y < cv.rows <= cv.y + HEIGHT
  }

  /** The last rows, as many as the screen has. */
  function Window(cv: Canvas): string
    requires HEIGHT <= cv.rows && |cv.cells| == WIDTH * cv.rows
  {
    cv.cells[WIDTH * (cv.rows - HEIGHT)..]
  }

  const CLEAR := Canvas(Blanks(WIDTH * HEIGHT), HEIGHT, 0, 0)

  function Pos(x: nat, y: nat): nat { WIDTH * y + x }

  function WriteAt(cv: Canvas, x: nat, y: nat, c: char): Canvas {
    if Pos(x, y) < |cv.cells| then cv.(cells := cv.cells[Pos(x, y) := c]) else cv
  }

  /** What the character itself does: print, or move the cursor. */
  function Act(cv: Canvas, c: char): Canvas {
    if c == '\n' then cv.(x := 0, y := cv.y + 1)
    else if c == BACKSPACE then (if cv.x > 0 then WriteAt(cv.(x := cv.x - 1), cv.x - 1, cv.y, ' ') else cv)
    else if c == '\t' then cv.(x := (cv.x + 4) / 4 * 4)
    else if c == '\r' then cv.(x := 0)
    else WriteAt(cv, cv.x, cv.y, c).(x := cv.x + 1)
  }

  /** A full row sends the cursor to the next one. */
  function Wrap(cv: Canvas): Canvas {
    if cv.x >= WIDTH then cv.(x := 0, y := cv.y + 1) else cv
  }

  /** A cursor below the last row gets a new blank row. */
  function Extend(cv: Canvas): Canvas {
    if cv.y >= cv.rows then cv.(cells := cv.cells + Blanks(WIDTH), rows := cv.rows + 1) else cv
  }

  function Put(cv: Canvas, c: char): Canvas {
    if c == NUL then cv else Extend(Wrap(Act(cv, c)))
  }

  function PutAll(cv: Canvas, s: string): Canvas
    decreases |s|
  {
    if s == [] then cv else PutAll(Put(cv, s[0]), s[1..])
  }

  // ---- Layout ------------------------------------------------------------------------

  /** Nothing has been printed below the cursor's row. */
  ghost predicate BlankBelow(cv: Canvas) {
    forall i :: WIDTH * (cv.y + 1) <= i < |cv.cells| ==> cv.cells[i] == ' '
  }

  function Row(cv: Canvas, y: nat): string {
    if WIDTH * (y + 1) <= |cv.cells| then cv.cells[WIDTH * y..WIDTH * (y + 1)] else []
  }

  lemma {:induction false} PutOk(cv: Canvas, c: char)
    requires Ok(cv)
    ensures Ok(Put(cv, c))
    ensures BlankBelow(cv) ==> BlankBelow(Put(cv, c))
    ensures cv.y <= Put(cv, c).y <= cv.y + 1 && Put(cv, c).rows <= cv.rows + 1
  {
  }

  lemma {:induction false} PutAllOk(cv: Canvas, s: string)
    requires Ok(cv)
    ensures Ok(PutAll(cv, s))
    ensures BlankBelow(cv) ==> BlankBelow(PutAll(cv, s))
    decreases |s|
  {
    hide Ok, BlankBelow, Put;
    if s != [] {
      PutOk(cv, s[0]);
      PutAllOk(Put(cv, s[0]), s[1..]);
    }
  }

  lemma {:induction false} PutAllConcat(cv: Canvas, s: string, t: string)
    ensures PutAll(cv, s + t) == PutAll(PutAll(cv, s), t)
    decreases |s|
  {
    hide Put;
    if s == [] {
      assert s + t == t;
    } else {
      assert (s + t)[1..] == s[1..] + t;
      PutAllConcat(Put(cv, s[0]), s[1..], t);
    }
  }

  /** Printing is a window over the canvas: a step either keeps the window in place and changes
      one of its cells at most, or moves it down one row. */
  lemma {:induction false} WindowMoves(cv: Canvas)
    requires HEIGHT <= cv.rows && |cv.cells| == WIDTH * cv.rows && cv.y <= cv.rows
    ensures Window(Extend(cv)) == if cv.y == cv.rows then Window(cv)[WIDTH..] + Blanks(WIDTH) else Window(cv)
  {
  }

  lemma {:induction false} WindowWrite(cv: Canvas, x: nat, y: nat, c: char)
    requires HEIGHT <= cv.rows && |cv.cells| == WIDTH * cv.rows && x < WIDTH && y < cv.rows <= y + HEIGHT
    ensures Window(WriteAt(cv, x, y, c)) == Window(cv)[Pos(x, y - (cv.rows - HEIGHT)) := c]
  {
  }

  predicate Printable(c: char) { c !in {NUL, '\n', BACKSPACE, '\t', '\r'} }

  lemma {:induction false} PutPrintable(cv: Canvas, c: char)
    requires Ok(cv) && Printable(c)
    ensures var n, p := Put(cv, c), Pos(cv.x, cv.y);
      && Ok(n) && Pos(n.x, n.y) == p + 1 && p < |cv.cells| <= |n.cells| && n.cells[p] == c
      && forall q :: 0 <= q < |cv.cells| && q != p ==> n.cells[q] == cv.cells[q]
  {
    PutOk(cv, c);
  }

  /** A newline goes to the start of the next row, printing nothing; below the last row there is
      then a new blank one. */
  lemma {:induction false} Newline(cv: Canvas)
    requires Ok(cv)
    ensures var n := Put(cv, '\n');
      && Ok(n) && n.x == 0 && n.y == cv.y + 1 && cv.cells <= n.cells
      && forall q :: |cv.cells| <= q < |n.cells| ==> n.cells[q] == ' '
  {
    PutOk(cv, '\n');
  }

  /** A carriage return goes to the start of the row; a tab to the next column that is a multiple of
      four, which past the last one is the start of the next row. Neither changes a cell. */
  lemma {:induction false} ReturnAndTab(cv: Canvas)
    requires Ok(cv)
    ensures Put(cv, '\r') == cv.(x := 0)
    ensures cv.x < WIDTH - 4 ==> exists x: nat :: cv.x < x <= cv.x + 4 && x % 4 == 0 && Put(cv, '\t') == cv.(x := x)
    ensures cv.x >= WIDTH - 4 ==> Put(cv, '\t') == Put(cv, '\n')
  {
    assert Put(cv, '\t') == if cv.x < WIDTH - 4 then cv.(x := (cv.x + 4) / 4 * 4) else Put(cv, '\n');
  }

  /** A backspace blanks the cell left of the cursor and goes there; at the start of a row it does
      nothing. A terminator is not printed. */
  lemma {:induction false} BackspaceAndNul(cv: Canvas)
    requires Ok(cv)
    ensures Pos(cv.x, cv.y) < |cv.cells|
    ensures cv.x > 0 ==> Put(cv, BACKSPACE) == cv.(x := cv.x - 1, cells := cv.cells[Pos(cv.x, cv.y) - 1 := ' '])
    ensures cv.x == 0 ==> Put(cv, BACKSPACE) == cv
    ensures Put(cv, NUL) == cv
  {
  }

  /** Printable text fills cell after cell from the cursor on, across rows and screens. */
  lemma {:induction false} TextLayout(cv: Canvas, s: string, i: nat)
    requires Ok(cv) && forall k :: 0 <= k < |s| ==> Printable(s[k])
    requires i < |s|
    ensures var t := PutAll(cv, s);
      && Pos(cv.x, cv.y) + i < |t.cells| && t.cells[Pos(cv.x, cv.y) + i] == s[i]
      && Pos(t.x, t.y) == Pos(cv.x, cv.y) + |s|
    decreases |s|
  {
    hide Ok, Put, Printable, Pos;
    PutPrintable(cv, s[0]);
    var n := Put(cv, s[0]);
    if |s| == 1 {
      assert s[1..] == [] && PutAll(n, s[1..]) == n;
    } else {
      TextLayout(n, s[1..], if i == 0 then 0 else i - 1);
      if i == 0 { Earlier(n, s[1..], Pos(cv.x, cv.y)); }
    }
  }

  /** Backspace undoes a printed character exactly when that neither filled the row nor
      overwrote anything: after the last column the cursor is at the start of the next row, where
      it stays, and what backspace leaves behind is a blank. */
  lemma {:induction false} BackspaceUndoes(cv: Canvas, c: char)
    requires Ok(cv) && Printable(c)
    ensures Put(Put(cv, c), BACKSPACE) == cv <==> cv.x + 1 < WIDTH && cv.cells[Pos(cv.x, cv.y)] == ' '
  {
    var p := Pos(cv.x, cv.y);
    assert cv.cells[p := c][p := ' '] == cv.cells[p := ' '];
    assert cv.cells[p := ' '] == cv.cells <==> cv.cells[p] == ' ';
  }

  /** Printing does not change what is before the cursor. */
  lemma {:induction false} Earlier(cv: Canvas, s: string, p: nat)
    requires Ok(cv) && p < Pos(cv.x, cv.y) && forall k :: 0 <= k < |s| ==> Printable(s[k])
    requires p < |cv.cells|
    ensures p < |PutAll(cv, s).cells| && PutAll(cv, s).cells[p] == cv.cells[p]
    decreases |s|
  {
    hide Ok, Put, Printable, Pos;
    if s != [] {
      PutPrintable(cv, s[0]);
      Earlier(Put(cv, s[0]), s[1..], p);
    }
  }
}
