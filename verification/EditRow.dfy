/**
 The edited line on the screen: after every key the prompt's row is redrawn by blanking it
 from the prompt on and writing the buffer again.
 */
module EditRow {
  import opened LineEditor
  import opened Screen

  const PROMPT := "FoxOS> "
  const PROMPT_LENGTH := 7
  /** The longest line whose row has a column left for the cursor. */
  const ROW_LIMIT := WIDTH - PROMPT_LENGTH - 1

  function Spaces(n: nat): string {
    seq(n, i => ' ')
  }

  /** How many rows below its prompt a position `n` characters into the line lies. */
  function RowsDown(n: nat): nat {
    (PROMPT_LENGTH + n) / WIDTH
  }

  /** `update_cursor_position` */
  function Repositioned(d: Display, z: Zipper): Display {
    d.(x := (PROMPT_LENGTH + |z.before|) % WIDTH,
       y := d.y - RowsDown(|Line(z)|) + RowsDown(|z.before|))
  }

  /** `redraw_input_line`; the row it computes for the prompt must be on the screen. */
  function Redrawn(d: Display, z: Zipper): Display
    requires OnScreen(d) && RowsDown(|Line(z)|) <= d.y
  {
    var start := d.(x := PROMPT_LENGTH % WIDTH, y := d.y - RowsDown(|Line(z)|));
    var cleared := PutAll(start, Spaces(|Line(z)| + 1));
    Repositioned(PutAll(cleared.(x := start.x, y := start.y), Line(z)), z)
  }

  /** The screen after an editing key. */
  function KeyDrawn(d: Display, z: Zipper, c: char): Display
    requires OnScreen(d) && (RefreshFor(z, c) == LineChanged ==> RowsDown(|Line(Edit(z, c))|) <= d.y)
  {
    match RefreshFor(z, c)
    case CursorMoved => Repositioned(d, Edit(z, c))
    case LineChanged => Redrawn(d, Edit(z, c))
    case _ => d
  }

  // ---------------------------------------------------------------- the methods

  class Console {
    const screen: Screen
    const line: LineBuffer

    constructor (s: Screen, l: LineBuffer)
      ensures screen == s && line == l
    {
      screen, line := s, l;
    }

    ghost predicate Valid()
      reads screen, screen.buffer, line, line.buffer
    {
      screen.Valid() && line.Valid()
    }

    method UpdateCursorPosition()
      requires line.Valid() && screen.buffer as object != line.buffer
      modifies screen`cursorX, screen`cursorY
      ensures screen.Value() == Repositioned(old(screen.Value()), line.Value())
    {
      var newX := (PROMPT_LENGTH + line.cursorPos) % WIDTH;
      var newY := screen.cursorY - (PROMPT_LENGTH + line.bufferPos) / WIDTH
                  + (PROMPT_LENGTH + line.cursorPos) / WIDTH;
      screen.SetCursor(newX, newY);
    }

    method RedrawInputLine()
      requires Valid() && screen.buffer as object != line.buffer
      requires RowsDown(line.bufferPos) <= screen.cursorY
      modifies screen`cursorX, screen`cursorY, screen.buffer
      ensures line.Valid() && line.Value() == old(line.Value())
      ensures |Line(line.Value())| == line.bufferPos
      ensures screen.Value() == Redrawn(old(screen.Value()), line.Value())
    {
      ghost var d, z := screen.Value(), line.Value();
      assert Line(z) == line.buffer[..line.bufferPos];
      var y := screen.cursorY - (PROMPT_LENGTH + line.bufferPos) / WIDTH;
      var x := PROMPT_LENGTH % WIDTH;
      Rewrite(x, y, line.buffer[..line.bufferPos]);
      assert line.Value() == z;
      UpdateCursorPosition();
    }

    /** Blanks one cell more than the text needs and writes the text from the same place. */
    method Rewrite(x: nat, y: nat, text: string)
      requires screen.Valid() && x < WIDTH && y < HEIGHT
      modifies screen`cursorX, screen`cursorY, screen.buffer
      ensures screen.Valid()
      ensures var cleared := PutAll(old(screen.Value()).(x := x, y := y), Spaces(|text| + 1));
              screen.Value() == PutAll(cleared.(x := x, y := y), text)
    {
      screen.SetCursor(x, y);
      WriteSpaces(|text| + 1);
      screen.SetCursor(x, y);
      screen.Write(text);
    }

    method WriteSpaces(n: nat)
      requires screen.Valid()
      modifies screen`cursorX, screen`cursorY, screen.buffer
      ensures screen.Valid() && screen.Value() == PutAll(old(screen.Value()), Spaces(n))
    {
      for i := 0 to n
        invariant screen.Valid() && screen.Value() == PutAll(old(screen.Value()), Spaces(i))
      {
        PutAllSnoc(old(screen.Value()), Spaces(i), ' ');
        assert Spaces(i + 1) == Spaces(i) + [' '];
        screen.PutChar(' ');
      }
    }

    /** `terminal_run` on any key but Enter. */
    method EditKey(c: char)
      requires Valid() && screen.buffer as object != line.buffer && screen as object != line
      requires c != '\n'
      requires RefreshFor(line.Value(), c) == LineChanged ==> RowsDown(|Line(Edit(line.Value(), c))|) <= screen.cursorY
      modifies line, line.buffer, screen`cursorX, screen`cursorY, screen.buffer
      ensures line.Valid() && line.Value() == Edit(old(line.Value()), c)
      ensures screen.Value() == KeyDrawn(old(screen.Value()), old(line.Value()), c)
    {
      ghost var d := screen.Value();
      var refresh := line.Key(c);
      assert screen.Value() == d;
      assert |Line(line.Value())| == line.bufferPos;
      match refresh
      case CursorMoved => UpdateCursorPosition();
      case LineChanged => RedrawInputLine();
      case Nothing =>
      case Submitted =>
    }
  }

  // ---------------------------------------------------------------- writing within a row

  function OverwrittenAt(cells: seq<Cell>, at: nat, text: string, color: Color, k: nat): Cell
    requires k < |cells|
  {
    if at <= k < at + |text| then Glyph(text[k - at], color) else cells[k]
  }

  /** Cells after writing `text` from cell number `at` on. */
  function Overwritten(cells: seq<Cell>, at: nat, text: string, color: Color): (after: seq<Cell>)
    ensures |after| == |cells|
  {
    seq(|cells|, k requires 0 <= k < |cells| => OverwrittenAt(cells, at, text, color, k))
  }

  /** Text that ends before the last column stays in its row. */
  lemma {:induction false} PutInRow(d: Display, text: string)
    requires OnScreen(d) && AllPrintable(text) && d.x + |text| < WIDTH
    ensures PutAll(d, text) ==
            d.(cells := Overwritten(d.cells, d.y * WIDTH + d.x, text, d.color), x := d.x + |text|)
    decreases |text|
  {
    if text == "" {
      assert Overwritten(d.cells, d.y * WIDTH + d.x, text, d.color) == d.cells;
    } else {
      var init, c := text[..|text| - 1], text[|text| - 1];
      assert text == init + [c];
      assert AllPrintable(init) by { assert forall k :: 0 <= k < |init| ==> init[k] == text[k]; }
      PutInRow(d, init);
      PutAllSnoc(d, init, c);
      PutOne(d, init, c);
    }
  }

  /** One more character after a stretch already written. */
  lemma PutOne(d: Display, init: string, c: char)
    requires OnScreen(d) && Printable(c) && d.x + |init| < WIDTH
    ensures var at := d.y * WIDTH + d.x;
            var written := d.(cells := Overwritten(d.cells, at, init, d.color), x := d.x + |init|);
            Put(written, c) ==
            Settled(d.(cells := Overwritten(d.cells, at, init + [c], d.color), x := d.x + |init| + 1))
  {
  }

  /** Text that ends in the last column wraps, and scrolls if the row is the last. */
  lemma PutToEdge(d: Display, text: string)
    requires OnScreen(d) && AllPrintable(text) && text != "" && d.x + |text| == WIDTH
    ensures PutAll(d, text) ==
            Settled(d.(cells := Overwritten(d.cells, d.y * WIDTH + d.x, text, d.color), x := WIDTH))
  {
    var init, c := text[..|text| - 1], text[|text| - 1];
    assert text == init + [c];
    PutInRow(d, init);
    PutAllSnoc(d, init, c);
    PutOne(d, init, c);
  }

  lemma OverwrittenCell(cells: seq<Cell>, y: nat, x: nat, text: string, color: Color, v: nat, u: nat)
    requires |cells| == CELLS && y < HEIGHT && x + |text| <= WIDTH && v < HEIGHT && u < WIDTH
    ensures CellAt(Overwritten(cells, y * WIDTH + x, text, color), v, u) ==
            if v == y && x <= u < x + |text| then Glyph(text[u - x], color) else CellAt(cells, v, u)
  {
  }

  // ---------------------------------------------------------------- lines of any length

  /** Text that ends before the end of the screen goes into consecutive cells, across rows. */
  lemma {:induction false} PutAcrossRows(d: Display, text: string)
    requires OnScreen(d) && AllPrintable(text) && d.y * WIDTH + d.x + |text| < CELLS
    ensures var e := PutAll(d, text);
            && e.cells == Overwritten(d.cells, d.y * WIDTH + d.x, text, d.color)
            && e.y * WIDTH + e.x == d.y * WIDTH + d.x + |text|
    decreases |text|
  {
    if text == "" {
      assert Overwritten(d.cells, d.y * WIDTH + d.x, text, d.color) == d.cells;
    } else {
      var init, c := text[..|text| - 1], text[|text| - 1];
      assert text == init + [c];
      assert AllPrintable(init) by { assert forall k :: 0 <= k < |init| ==> init[k] == text[k]; }
      PutAcrossRows(d, init);
      PutAllSnoc(d, init, c);
      NextCell(PutAll(d, init), d, init, c);
    }
  }

  lemma NextCell(e: Display, d: Display, init: string, c: char)
    requires OnScreen(d) && OnScreen(e) && Printable(c) && e.color == d.color
    requires d.y * WIDTH + d.x + |init| + 1 < CELLS && e.y * WIDTH + e.x == d.y * WIDTH + d.x + |init|
    requires e.cells == Overwritten(d.cells, d.y * WIDTH + d.x, init, d.color)
    ensures var f := Put(e, c);
            && f.cells == Overwritten(d.cells, d.y * WIDTH + d.x, init + [c], d.color)
            && f.y * WIDTH + f.x == e.y * WIDTH + e.x + 1
  {
  }

  /** The cursor ends up `cursor_pos` cells after the place where the prompt ends. */
  lemma CursorFollowsPrompt(e: Display, z: Zipper, start: int)
    requires 0 <= e.x < 80 && 80 * e.y + e.x == start + |Line(z)| && start % 80 == 7
    ensures var w := Repositioned(e, z); 0 <= w.x < 80 && 80 * w.y + w.x == start + |z.before|
  {
    var n, b := |Line(z)|, |z.before|;
    assert start == 80 * (start / 80) + 7;
    assert e.y == start / 80 + (7 + n) / 80;
  }

  lemma RedrawnMemory(d: Display, z: Zipper, start: nat)
    requires OnScreen(d) && Editable(z) && RowsDown(|Line(z)|) <= d.y
    requires start == (d.y - RowsDown(|Line(z)|)) * WIDTH + PROMPT_LENGTH && start + |Line(z)| + 1 < CELLS
    ensures var e := Redrawn(d, z);
            var blanked := Overwritten(d.cells, start, Spaces(|Line(z)| + 1), d.color);
            && e.cells == Overwritten(blanked, start, Line(z), d.color)
            && 0 <= e.x < 80 && 80 * e.y + e.x == start + |z.before|
  {
    var n := |Line(z)|;
    var begin := d.(x := PROMPT_LENGTH % WIDTH, y := d.y - RowsDown(n));
    assert AllPrintable(Spaces(n + 1));
    PutAcrossRows(begin, Spaces(n + 1));
    var cleared := PutAll(begin, Spaces(n + 1));
    LineIsPlain(z);
    PutAcrossRows(cleared.(x := begin.x, y := begin.y), Line(z));
    CursorFollowsPrompt(PutAll(cleared.(x := begin.x, y := begin.y), Line(z)), z, start);
  }

  /**
   Redrawing a line of any length that ends before the screen does, in screen memory: the
   line from column 7 of the computed row on, one blank, everything else as it was.
   */
  lemma RedrawnCells(d: Display, z: Zipper, k: nat)
    requires OnScreen(d) && Editable(z) && (7 + |Line(z)|) / 80 <= d.y && k < 2000
    requires 80 * (d.y - (7 + |Line(z)|) / 80) + 7 + |Line(z)| + 1 < 2000
    ensures var e, n := Redrawn(d, z), |Line(z)|;
            var start := 80 * (d.y - (7 + n) / 80) + 7;
            && |e.cells| == 2000 && 0 <= e.x < 80 && 80 * e.y + e.x == start + |z.before|
            && (if start <= k < start + n then ShowsChar(e.cells[k], Line(z)[k - start], d.color)
                else if k == start + n then ShowsChar(e.cells[k], ' ', d.color)
                else e.cells[k] == d.cells[k])
  {
    var n := |Line(z)|;
    var start := 80 * (d.y - (7 + n) / 80) + 7;
    RedrawnMemory(d, z, start);
    GlyphShows(if start <= k < start + n then Line(z)[k - start] else ' ', d.color);
  }

  // ---------------------------------------------------------------- what the row shows

  /** Prompt, line and blanks: the character column `x` should show. */
  function RowChar(z: Zipper, x: nat): char {
    var shown := PROMPT + Line(z);
    if x < |shown| then shown[x] else ' '
  }

  /** The cursor's row shows prompt and line, with the cursor where the line's is. */
  ghost predicate RowShows(d: Display, z: Zipper) {
    && OnScreen(d) && d.x == PROMPT_LENGTH + |z.before|
    && forall x :: 0 <= x < WIDTH ==> CellAt(d.cells, d.y, x) == Glyph(RowChar(z, x), d.color)
  }

  ghost predicate OtherRowsSame(d: Display, e: Display, row: int)
    requires |d.cells| == CELLS && |e.cells| == CELLS
  {
    forall y, x :: 0 <= y < HEIGHT && 0 <= x < WIDTH && y != row ==> CellAt(e.cells, y, x) == CellAt(d.cells, y, x)
  }

  /** The screen was updated properly: same row, right contents, nothing else touched. */
  ghost predicate Refreshed(d: Display, e: Display, z: Zipper)
    requires OnScreen(d)
  {
    RowShows(e, z) && e.y == d.y && e.color == d.color && OtherRowsSame(d, e, d.y)
  }

  /** Ready for redrawing: the prompt is there and everything beyond the line's end is blank. */
  ghost predicate RowReady(d: Display, n: nat) {
    && OnScreen(d)
    && (forall x :: 0 <= x < PROMPT_LENGTH ==> CellAt(d.cells, d.y, x) == Glyph(PROMPT[x], d.color))
    && (forall x :: PROMPT_LENGTH + n < x < WIDTH ==> CellAt(d.cells, d.y, x) == Blank(d.color))
  }

  lemma LineIsPlain(z: Zipper)
    requires Editable(z)
    ensures AllPrintable(Line(z))
  {
  }

  /** Each cell after blanking the row from the prompt on and writing the line there. */
  lemma RewrittenCell(d: Display, z: Zipper, v: nat, u: nat)
    requires |Line(z)| <= ROW_LIMIT && RowReady(d, |Line(z)|) && v < HEIGHT && u < WIDTH
    ensures var at := d.y * WIDTH + PROMPT_LENGTH;
            var cleared := Overwritten(d.cells, at, Spaces(|Line(z)| + 1), d.color);
            CellAt(Overwritten(cleared, at, Line(z), d.color), v, u) ==
            if v == d.y then Glyph(RowChar(z, u), d.color) else CellAt(d.cells, v, u)
  {
    var cleared := Overwritten(d.cells, d.y * WIDTH + PROMPT_LENGTH, Spaces(|Line(z)| + 1), d.color);
    OverwrittenCell(cleared, d.y, PROMPT_LENGTH, Line(z), d.color, v, u);
    OverwrittenCell(d.cells, d.y, PROMPT_LENGTH, Spaces(|Line(z)| + 1), d.color, v, u);
  }

  /** Clearing and rewriting, once it is known that clearing did not scroll. */
  lemma RewriteShows(d: Display, z: Zipper, cleared: Display)
    requires Editable(z) && |Line(z)| <= ROW_LIMIT && RowReady(d, |Line(z)|)
    requires OnScreen(cleared) && cleared.color == d.color
    requires cleared.cells == Overwritten(d.cells, d.y * WIDTH + PROMPT_LENGTH, Spaces(|Line(z)| + 1), d.color)
    ensures Refreshed(d, Repositioned(PutAll(cleared.(x := PROMPT_LENGTH, y := d.y), Line(z)), z), z)
  {
    var start := cleared.(x := PROMPT_LENGTH, y := d.y);
    LineIsPlain(z);
    PutInRow(start, Line(z));
    var e := Repositioned(PutAll(start, Line(z)), z);
    assert |z.before| <= |Line(z)|;
    forall v, u | 0 <= v < HEIGHT && 0 <= u < WIDTH
      ensures CellAt(e.cells, v, u) == if v == d.y then Glyph(RowChar(z, u), d.color) else CellAt(d.cells, v, u)
    {
      RewrittenCell(d, z, v, u);
    }
  }

  /** On the last row, a line one short of filling it scrolls its own prompt away. */
  lemma LastRowLosesPrompt(d: Display, z: Zipper)
    requires OnScreen(d) && Editable(z) && |Line(z)| == ROW_LIMIT && d.y == HEIGHT - 1
    ensures !RowShows(Redrawn(d, z), z)
  {
    var text := Line(z);
    var start := d.(x := PROMPT_LENGTH);
    assert AllPrintable(Spaces(|text| + 1));
    PutToEdge(start, Spaces(|text| + 1));
    var cleared := PutAll(start, Spaces(|text| + 1));
    LineIsPlain(z);
    PutInRow(cleared.(x := PROMPT_LENGTH, y := d.y), text);
    var e := Redrawn(d, z);
    OverwrittenCell(cleared.cells, d.y, PROMPT_LENGTH, text, d.color, d.y, 0);
    assert CellAt(e.cells, d.y, 0) == CellAt(cleared.cells, d.y, 0) == Blank(d.color);
    assert RowChar(z, 0) == 'F' && Glyph('F', d.color) != Blank(d.color);
  }

  /**
   For every line that leaves the cursor a column, redrawing is right unless the line is
   72 characters long and on the last row.
   */
  lemma RedrawIsRightIff(d: Display, z: Zipper)
    requires Editable(z) && |Line(z)| <= ROW_LIMIT && RowReady(d, |Line(z)|)
    ensures Refreshed(d, Redrawn(d, z), z) <==> !(|Line(z)| == ROW_LIMIT && d.y == HEIGHT - 1)
  {
    var n := |Line(z)|;
    var start := d.(x := PROMPT_LENGTH);
    assert AllPrintable(Spaces(n + 1));
    if n < ROW_LIMIT {
      PutInRow(start, Spaces(n + 1));
      RewriteShows(d, z, PutAll(start, Spaces(n + 1)));
    } else if d.y < HEIGHT - 1 {
      PutToEdge(start, Spaces(n + 1));
      RewriteShows(d, z, PutAll(start, Spaces(n + 1)));
    } else {
      LastRowLosesPrompt(d, z);
    }
  }

  // ---------------------------------------------------------------- keys

  /** The lines the row can show while the cursor is on row `y`. */
  ghost predicate FitsRow(z: Zipper, y: int) {
    |Line(z)| < ROW_LIMIT || (|Line(z)| == ROW_LIMIT && y < HEIGHT - 1)
  }

  lemma ReadyForEdit(d: Display, z: Zipper, c: char)
    requires RowShows(d, z) && RefreshFor(z, c) == LineChanged
    ensures RowReady(d, |Line(Edit(z, c))|)
  {
  }

  lemma CursorKeyRefreshes(d: Display, z: Zipper, w: Zipper)
    requires RowShows(d, z) && Line(w) == Line(z) && |Line(z)| <= ROW_LIMIT
    ensures Refreshed(d, Repositioned(d, w), w)
  {
  }

  lemma CursorKeysKeepLine(z: Zipper, c: char)
    requires RefreshFor(z, c) == CursorMoved
    ensures Line(Edit(z, c)) == Line(z)
  {
  }

  /** Every editing key leaves the row showing the edited line. */
  lemma KeyRefreshes(d: Display, z: Zipper, c: char)
    requires RowShows(d, z) && Editable(z) && c != '\n' && FitsRow(z, d.y) && FitsRow(Edit(z, c), d.y)
    ensures Refreshed(d, KeyDrawn(d, z, c), Edit(z, c))
  {
    match RefreshFor(z, c)
    case LineChanged =>
      EditKeepsEditable(z, c);
      ReadyForEdit(d, z, c);
      RedrawIsRightIff(d, Edit(z, c));
    case CursorMoved =>
      CursorKeysKeepLine(z, c);
      CursorKeyRefreshes(d, z, Edit(z, c));
    case _ =>
  }

  /** None of the keys is Enter, and none makes the line too long for its row. */
  ghost predicate KeysFit(z: Zipper, keys: string, y: int)
    decreases |keys|
  {
    FitsRow(z, y) && (keys == "" || (keys[0] != '\n' && KeysFit(Edit(z, keys[0]), keys[1..], y)))
  }

  /** The screen after a sequence of editing keys. */
  ghost function KeysDrawn(d: Display, z: Zipper, keys: string): (e: Display)
    requires RowShows(d, z) && Editable(z) && KeysFit(z, keys, d.y)
    ensures Refreshed(d, e, EditAll(z, keys))
    decreases |keys|
  {
    if keys == "" then d
    else
      assert KeysFit(Edit(z, keys[0]), keys[1..], d.y);
      KeyRefreshes(d, z, keys[0]);
      EditKeepsEditable(z, keys[0]);
      KeysDrawn(KeyDrawn(d, z, keys[0]), Edit(z, keys[0]), keys[1..])
  }

  /** A blank row with the prompt written over its start, cell by cell. */
  lemma PromptCell(d: Display, v: nat, u: nat)
    requires OnScreen(d) && d.x == 0 && v < HEIGHT && u < WIDTH
    requires forall x :: 0 <= x < WIDTH ==> CellAt(d.cells, d.y, x) == Blank(d.color)
    ensures CellAt(Overwritten(d.cells, d.y * WIDTH + d.x, PROMPT, d.color), v, u) ==
            if v == d.y then Glyph(RowChar(EMPTY, u), d.color) else CellAt(d.cells, v, u)
  {
    OverwrittenCell(d.cells, d.y, 0, PROMPT, d.color, v, u);
    assert PROMPT + Line(EMPTY) == PROMPT;
    assert CellAt(d.cells, d.y, u) == Blank(d.color);
  }

  /** Printing the prompt at the start of a blank row sets the scene. */
  lemma PromptShows(d: Display, prompt: string)
    requires OnScreen(d) && d.x == 0 && prompt == PROMPT
    requires forall x :: 0 <= x < WIDTH ==> CellAt(d.cells, d.y, x) == Blank(d.color)
    ensures Refreshed(d, PutAll(d, prompt), EMPTY)
  {
    PutInRow(d, prompt);
    var e := PutAll(d, prompt);
    forall v, u | 0 <= v < HEIGHT && 0 <= u < WIDTH
      ensures CellAt(e.cells, v, u) == if v == d.y then Glyph(RowChar(EMPTY, u), d.color) else CellAt(d.cells, v, u)
    {
      PromptCell(d, v, u);
    }
  }

  /**
   From a prompt on a blank row, any keys other than Enter that keep the line short enough
   for its row leave that row showing prompt, line and blanks, and every other row as it was.
   */
  lemma EditingStaysInRow(d: Display, keys: string)
    requires OnScreen(d) && d.x == 0 && KeysFit(EMPTY, keys, d.y)
    requires forall x :: 0 <= x < WIDTH ==> CellAt(d.cells, d.y, x) == Blank(d.color)
    ensures RowShows(PutAll(d, PROMPT), EMPTY) && PutAll(d, PROMPT).y == d.y
    ensures Refreshed(d, KeysDrawn(PutAll(d, PROMPT), EMPTY, keys), EditAll(EMPTY, keys))
  {
    PromptShows(d, PROMPT);
    var p := PutAll(d, PROMPT);
    var e := KeysDrawn(p, EMPTY, keys);
    assert OtherRowsSame(d, p, d.y) && OtherRowsSame(p, e, d.y);
  }

  /** In screen memory, a row that is right reads "FoxOS> " and the line, and then blanks. */
  lemma RowReads(d: Display, z: Zipper, x: nat)
    requires RowShows(d, z) && x < 80
    ensures var text := "FoxOS> " + Line(z);
            |d.cells| == 2000 && ShowsChar(d.cells[80 * d.y + x], if x < |text| then text[x] else ' ', d.color)
    ensures d.x == 7 + |z.before|
  {
    assert CellAt(d.cells, d.y, x) == Glyph(RowChar(z, x), d.color);
    GlyphShows(RowChar(z, x), d.color);
  }

  lemma {:induction false} TypingFits(z: Zipper, keys: string, y: int)
    requires |Line(z)| + |keys| <= (if y < HEIGHT - 1 then ROW_LIMIT else ROW_LIMIT - 1) && AllPrintable(keys)
    ensures KeysFit(z, keys, y)
    decreases |keys|
  {
    if keys != "" {
      assert |Line(Edit(z, keys[0]))| == |Line(z)| + 1;
      TypingFits(Edit(z, keys[0]), keys[1..], y);
    }
  }

  /** The key that makes the line 72 characters long on the last row loses the prompt. */
  lemma LastKeyLosesPrompt(shown: Display, init: string, c: char)
    requires RowShows(shown, Zipper(init, "")) && shown.y == HEIGHT - 1
    requires |init| == ROW_LIMIT - 1 && AllPrintable(init) && Printable(c)
    ensures !RowShows(KeyDrawn(shown, Zipper(init, ""), c), Zipper(init + [c], ""))
  {
    var z, w := Zipper(init, ""), Zipper(init + [c], "");
    assert Edit(z, c) == w && |Line(w)| == ROW_LIMIT;
    LastRowLosesPrompt(shown, w);
  }

  lemma TypedLineShows(prompted: Display, init: string)
    requires RowShows(prompted, EMPTY) && AllPrintable(init)
    requires |init| <= if prompted.y < HEIGHT - 1 then ROW_LIMIT else ROW_LIMIT - 1
    ensures KeysFit(EMPTY, init, prompted.y)
    ensures var shown := KeysDrawn(prompted, EMPTY, init);
            RowShows(shown, Zipper(init, "")) && shown.y == prompted.y
  {
    TypingFits(EMPTY, init, prompted.y);
    TypingInserts(EMPTY, init);
    assert "" + init == init;
  }

  /** Typing any 72 characters at a prompt on the last row loses the prompt at the last one. */
  lemma LongLineLosesPrompt(d: Display, prompted: Display, init: string, c: char)
    requires OnScreen(d) && d.x == 0 && d.y == HEIGHT - 1 && prompted == PutAll(d, PROMPT)
    requires forall x :: 0 <= x < WIDTH ==> CellAt(d.cells, d.y, x) == Blank(d.color)
    requires |init| == ROW_LIMIT - 1 && AllPrintable(init) && Printable(c)
    ensures RowShows(prompted, EMPTY) && KeysFit(EMPTY, init, prompted.y)
    ensures var shown := KeysDrawn(prompted, EMPTY, init);
            && RowShows(shown, Zipper(init, ""))
            && !RowShows(KeyDrawn(shown, Zipper(init, ""), c), Zipper(init + [c], ""))
  {
    PromptShows(d, PROMPT);
    TypedLineShows(prompted, init);
    LastKeyLosesPrompt(KeysDrawn(prompted, EMPTY, init), init, c);
  }

  lemma NextRowDown(z: Zipper, c: char)
    requires |Line(z)| == ROW_LIMIT && Printable(c)
    ensures RefreshFor(z, c) == LineChanged && RowsDown(|Line(Edit(z, c))|) == 1
  {
  }

  /**
   Typing any 73 characters at a prompt on the top row: the row is right after 72, and the
   last one makes the redrawing start on the row above the screen.
   */
  lemma LongLineLeavesScreen(d: Display, prompted: Display, init: string, c: char)
    requires OnScreen(d) && d.x == 0 && d.y == 0 && prompted == PutAll(d, PROMPT)
    requires forall x :: 0 <= x < WIDTH ==> CellAt(d.cells, d.y, x) == Blank(d.color)
    requires |init| == ROW_LIMIT && AllPrintable(init) && Printable(c)
    ensures RowShows(prompted, EMPTY) && KeysFit(EMPTY, init, prompted.y)
    ensures var shown, z := KeysDrawn(prompted, EMPTY, init), Zipper(init, "");
            && RowShows(shown, z)
            && RefreshFor(z, c) == LineChanged && shown.y - RowsDown(|Line(Edit(z, c))|) == -1
  {
    PromptShows(d, PROMPT);
    TypedLineShows(prompted, init);
    NextRowDown(Zipper(init, ""), c);
  }

  lemma KeyRedraws(shown: Display, z: Zipper, c: char, k: nat)
    requires OnScreen(shown) && 1 <= shown.y < 24 && Editable(z) && z.after == "" && |z.before| == 72
    requires Printable(c) && k < 73
    ensures RefreshFor(z, c) == LineChanged && RowsDown(|Line(Edit(z, c))|) == 1
    ensures var e := KeyDrawn(shown, z, c);
            && |e.cells| == 2000 && e.y == shown.y && e.x == 0
            && ShowsChar(e.cells[80 * (shown.y - 1) + 7 + k], (z.before + [c])[k], shown.color)
  {
    NextRowDown(z, c);
    EditKeepsEditable(z, c);
    assert Edit(z, c) == Zipper(z.before + [c], "") && Line(Edit(z, c)) == z.before + [c];
    RedrawnCells(shown, Edit(z, c), 80 * (shown.y - 1) + 7 + k);
  }

  /** A full row: what is on the screen after typing 72 characters at a prompt. */
  lemma FullRowShows(d: Display, prompted: Display, init: string) returns (shown: Display)
    requires OnScreen(d) && d.x == 0 && d.y < 24 && prompted == PutAll(d, PROMPT)
    requires forall x :: 0 <= x < WIDTH ==> CellAt(d.cells, d.y, x) == Blank(d.color)
    requires |init| == 72 && AllPrintable(init)
    ensures RowShows(prompted, EMPTY) && KeysFit(EMPTY, init, prompted.y)
    ensures shown == KeysDrawn(prompted, EMPTY, init) && RowShows(shown, Zipper(init, "")) && shown.y == d.y
  {
    PromptShows(d, PROMPT);
    TypedLineShows(prompted, init);
    shown := KeysDrawn(prompted, EMPTY, init);
  }

  /**
   Typing any 73 characters at a prompt on a row in the middle of the screen: the row is right
   after 72, and the last one draws the whole line over the row above.
   */
  lemma LongLineClimbs(d: Display, prompted: Display, init: string, c: char, k: nat) returns (shown: Display)
    requires OnScreen(d) && d.x == 0 && 1 <= d.y < 24 && prompted == PutAll(d, PROMPT)
    requires forall x :: 0 <= x < WIDTH ==> CellAt(d.cells, d.y, x) == Blank(d.color)
    requires |init| == 72 && AllPrintable(init) && Printable(c) && k < 73
    ensures RowShows(prompted, EMPTY) && KeysFit(EMPTY, init, prompted.y)
    ensures shown == KeysDrawn(prompted, EMPTY, init) && RowShows(shown, Zipper(init, "")) && shown.y == d.y
    ensures RowsDown(|Line(Edit(Zipper(init, ""), c))|) <= d.y
    ensures var e := KeyDrawn(shown, Zipper(init, ""), c);
            |e.cells| == 2000 && ShowsChar(e.cells[80 * (d.y - 1) + 7 + k], (init + [c])[k], shown.color)
  {
    shown := FullRowShows(d, prompted, init);
    KeyRedraws(shown, Zipper(init, ""), c, k);
  }
}
