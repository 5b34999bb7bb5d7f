/**
 An unbounded 80-column page, and the theorem that the 25-row screen is always the page's
 last 25 rows.  The page never scrolls: it only grows downwards.
 */
module Layout {
  import opened CStrings
  import opened Screen

  type Row = seq<Cell>

  datatype Page = Page(rows: seq<Row>, r: nat, c: nat)

  ghost predicate ValidPage(p: Page) {
    && p.r < |p.rows| && p.c < WIDTH
    && forall i :: 0 <= i < |p.rows| ==> |p.rows[i]| == WIDTH
  }

  function BlankRow(color: Color): (row: Row)
    ensures |row| == WIDTH
  {
    seq(WIDTH, x => Blank(color))
  }

  function EmptyPage(color: Color): Page {
    Page([BlankRow(color)], 0, 0)
  }

  /** Down to the start of the next row, which is added if there is none. */
  function NextLine(p: Page, color: Color): Page {
    Page(if p.r + 1 < |p.rows| then p.rows else p.rows + [BlankRow(color)], p.r + 1, 0)
  }

  function PageWrite(p: Page, r: nat, c: nat, cell: Cell): Page
    requires r < |p.rows| && c < |p.rows[r]|
  {
    var row: Row := p.rows[r][c := cell];
    Page(p.rows[r := row], r, c)
  }

  function Forward(p: Page, c: nat, color: Color): Page {
    if c < WIDTH then p.(c := c) else NextLine(p, color)
  }

  function Type(p: Page, ch: char, color: Color): Page
    requires ValidPage(p)
  {
    if ch == '\n' then NextLine(p, color)
    else if ch == '\r' then p.(c := 0)
    else if ch == '\t' then Forward(p, NextTab(p.c), color)
    else if ch == BACKSPACE then
      if p.c > 0 then PageWrite(p, p.r, p.c - 1, Blank(color))
      else if p.r > 0 then PageWrite(p, p.r - 1, WIDTH - 1, Blank(color))
      else p
    else Forward(PageWrite(p, p.r, p.c, Glyph(ch, color)), p.c + 1, color)
  }

  lemma TypeKeepsPage(p: Page, ch: char, color: Color)
    requires ValidPage(p)
    ensures ValidPage(Type(p, ch, color))
  {
  }

  ghost function TypeAll(p: Page, text: string, color: Color): (after: Page)
    requires ValidPage(p)
    ensures ValidPage(after)
    decreases |text|
  {
    if text == "" then p
    else
      TypeKeepsPage(p, text[0], color);
      TypeAll(Type(p, text[0], color), text[1..], color)
  }

  // ---------------------------------------------------------------- one character, cell by cell

  predicate Ordinary(c: char) {
    c !in {'\n', '\r', '\t', BACKSPACE}
  }

  /** The character takes the cursor off the last row, so that the picture moves up one row. */
  predicate LeavesLastRow(d: Display, c: char) {
    d.y == 24 && (c == '\n' || (c == '\t' && d.x >= 72) || (Ordinary(c) && d.x == 79))
  }

  /** Where the cursor is after each kind of character. */
  lemma PutCursor(d: Display, c: char)
    requires OnScreen(d)
    ensures var e := Put(d, c);
            var at, next := 80 * d.y + d.x, if d.y < 24 then d.y + 1 else 24;
            && (c == '\n' ==> e.x == 0 && e.y == next)
            && (c == '\r' ==> e.x == 0 && e.y == d.y)
            && (c == '\t' ==> if d.x < 72 then e.x == 8 * (d.x / 8 + 1) && e.y == d.y else e.x == 0 && e.y == next)
            && (c == BACKSPACE ==> 80 * e.y + e.x == if at > 0 then at - 1 else 0)
            && (Ordinary(c) ==> 80 * e.y + e.x == if at + 1 < 2000 then at + 1 else 1920)
  {
  }

  /** What every cell of screen memory holds after each kind of character. */
  lemma PutCells(d: Display, c: char, y: nat, x: nat)
    requires OnScreen(d) && y < 25 && x < 80
    ensures var up := if LeavesLastRow(d, c) then 1 else 0;
            var from, at, cell := 80 * (y + up) + x, 80 * d.y + d.x, Put(d, c).cells[80 * y + x];
            if y + up == 25 then ShowsChar(cell, ' ', d.color)
            else if Ordinary(c) && from == at then ShowsChar(cell, c, d.color)
            else if c == BACKSPACE && from == at - 1 then ShowsChar(cell, ' ', d.color)
            else cell == d.cells[from]
  {
    GlyphShows(c, d.color);
    GlyphShows(' ', d.color);
  }

  // ---------------------------------------------------------------- the window

  /** The first page row the screen shows. */
  function Top(p: Page): nat {
    if |p.rows| > HEIGHT then |p.rows| - HEIGHT else 0
  }

  /** What the window onto the last 25 rows shows at (y, x); below the page it is blank. */
  function Shown(p: Page, y: nat, x: nat, color: Color): Cell {
    if Top(p) + y < |p.rows| && x < |p.rows[Top(p) + y]| then p.rows[Top(p) + y][x] else Blank(color)
  }

  /** The screen shows exactly the last 25 rows of the page, cursor included. */
  ghost predicate Agrees(d: Display, p: Page) {
    && OnScreen(d) && ValidPage(p)
    && d.x == p.c && d.y == p.r - Top(p)
    && forall y, x :: 0 <= y < HEIGHT && 0 <= x < WIDTH ==> CellAt(d.cells, y, x) == Shown(p, y, x, d.color)
  }

  /** A backspace at the screen's home cell while rows have scrolled off above it. */
  predicate BackspaceOffTop(d: Display, p: Page, ch: char) {
    ch == BACKSPACE && d.x == 0 && d.y == 0 && Top(p) > 0
  }

  lemma ScrolledCells(cells: seq<Cell>, color: Color, y: nat, x: nat)
    requires |cells| == CELLS && y < HEIGHT && x < WIDTH
    ensures CellAt(Scrolled(cells, color), y, x) ==
            if y < HEIGHT - 1 then CellAt(cells, y + 1, x) else Blank(color)
  {
  }

  lemma WrittenCells(d: Display, cell: Cell, y: nat, x: nat)
    requires OnScreen(d) && y < HEIGHT && x < WIDTH
    ensures CellAt(d.cells[d.y * WIDTH + d.x := cell], y, x) ==
            if y == d.y && x == d.x then cell else CellAt(d.cells, y, x)
  {
  }

  lemma NextLineAgrees(d: Display, p: Page)
    requires Agrees(d, p)
    ensures Agrees(Settled(d.(x := 0, y := d.y + 1)), NextLine(p, d.color))
  {
    var after, q := Settled(d.(x := 0, y := d.y + 1)), NextLine(p, d.color);
    assert ValidPage(q);
    forall y, x | 0 <= y < HEIGHT && 0 <= x < WIDTH
      ensures CellAt(after.cells, y, x) == Shown(q, y, x, d.color)
    {
      if d.y + 1 == HEIGHT {
        ScrolledCells(d.cells, d.color, y, x);
        assert y < HEIGHT - 1 ==> CellAt(d.cells, y + 1, x) == Shown(p, y + 1, x, d.color);
      } else {
        assert CellAt(d.cells, y, x) == Shown(p, y, x, d.color);
      }
    }
  }

  lemma ForwardAgrees(d: Display, p: Page, c: nat)
    requires Agrees(d, p)
    ensures Agrees(Settled(d.(x := c)), Forward(p, c, d.color))
  {
    if c >= WIDTH { NextLineAgrees(d, p); }
  }

  lemma WriteAgrees(d: Display, p: Page, x: nat, y: nat, cell: Cell)
    requires Agrees(d, p) && x < WIDTH && y < HEIGHT && Top(p) + y < |p.rows|
    ensures Agrees(d.(cells := d.cells[y * WIDTH + x := cell], x := x, y := y), PageWrite(p, Top(p) + y, x, cell))
  {
    var q := PageWrite(p, Top(p) + y, x, cell);
    forall v, u | 0 <= v < HEIGHT && 0 <= u < WIDTH
      ensures CellAt(d.cells[y * WIDTH + x := cell], v, u) == Shown(q, v, u, d.color)
    {
      WrittenCells(d.(x := x, y := y), cell, v, u);
      assert CellAt(d.cells, v, u) == Shown(p, v, u, d.color);
    }
  }

  lemma GlyphAgrees(d: Display, p: Page, ch: char)
    requires Agrees(d, p)
    ensures Agrees(Settled(Written(d, ch).(x := d.x + 1)),
                   Forward(PageWrite(p, p.r, p.c, Glyph(ch, d.color)), p.c + 1, d.color))
  {
    WriteAgrees(d, p, d.x, d.y, Glyph(ch, d.color));
    ForwardAgrees(Written(d, ch), PageWrite(p, p.r, p.c, Glyph(ch, d.color)), d.x + 1);
  }

  lemma BackspaceAgreesIff(d: Display, p: Page)
    requires Agrees(d, p)
    ensures Agrees(Put(d, BACKSPACE), Type(p, BACKSPACE, d.color)) <==> !BackspaceOffTop(d, p, BACKSPACE)
  {
    if d.x > 0 {
      WriteAgrees(d, p, d.x - 1, d.y, Blank(d.color));
    } else if d.y > 0 {
      WriteAgrees(d, p, WIDTH - 1, d.y - 1, Blank(d.color));
    }
  }

  /** One character keeps screen and page together, unless it backs off the top of the screen. */
  lemma PutAgreesIff(d: Display, p: Page, ch: char)
    requires Agrees(d, p)
    ensures Agrees(Put(d, ch), Type(p, ch, d.color)) <==> !BackspaceOffTop(d, p, ch)
  {
    if ch == '\n' {
      NextLineAgrees(d, p);
    } else if ch == '\r' {
      assert Agrees(d.(x := 0), p.(c := 0));
    } else if ch == '\t' {
      ForwardAgrees(d, p, NextTab(d.x));
    } else if ch == BACKSPACE {
      BackspaceAgreesIff(d, p);
    } else {
      GlyphAgrees(d, p, ch);
    }
  }

  /** No character of the text backs off the top of the screen. */
  ghost predicate StaysOn(d: Display, p: Page, text: string)
    requires OnScreen(d) && ValidPage(p)
    decreases |text|
  {
    text == "" ||
    (!BackspaceOffTop(d, p, text[0]) &&
     (TypeKeepsPage(p, text[0], d.color);
      StaysOn(Put(d, text[0]), Type(p, text[0], d.color), text[1..])))
  }

  lemma {:induction false} ForwardTextStaysOn(d: Display, p: Page, text: string)
    requires OnScreen(d) && ValidPage(p) && BACKSPACE !in text
    ensures StaysOn(d, p, text)
    decreases |text|
  {
    if text != "" {
      TypeKeepsPage(p, text[0], d.color);
      ForwardTextStaysOn(Put(d, text[0]), Type(p, text[0], d.color), text[1..]);
    }
  }

  lemma {:induction false} PutAllAgrees(d: Display, p: Page, text: string)
    requires Agrees(d, p) && StaysOn(d, p, text)
    ensures Agrees(PutAll(d, text), TypeAll(p, text, d.color))
    decreases |text|
  {
    if text != "" {
      PutAgreesIff(d, p, text[0]);
      PutAllAgrees(Put(d, text[0]), Type(p, text[0], d.color), text[1..]);
    }
  }

  lemma ClearedAgrees(color: Color)
    ensures Agrees(Cleared(color), EmptyPage(color))
  {
  }

  /** From a cleared screen, any text without backspaces shows as the last 25 rows of its page. */
  lemma ScreenShowsLastRows(text: string, color: Color)
    requires BACKSPACE !in text
    ensures ValidPage(EmptyPage(color))
    ensures Agrees(PutAll(Cleared(color), text), TypeAll(EmptyPage(color), text, color))
  {
    ClearedAgrees(color);
    ForwardTextStaysOn(Cleared(color), EmptyPage(color), text);
    PutAllAgrees(Cleared(color), EmptyPage(color), text);
  }

  // ---------------------------------------------------------------- backing off the top

  function Backspaces(n: nat): string {
    seq(n, i => BACKSPACE)
  }

  /** As many backspaces as there are cells before the cursor take it home, one at a time. */
  lemma {:induction false} BackspacesGoHome(d: Display, p: Page, n: nat)
    requires Agrees(d, p) && n <= d.y * WIDTH + d.x
    ensures var e, q := PutAll(d, Backspaces(n)), TypeAll(p, Backspaces(n), d.color);
            && Agrees(e, q) && |q.rows| == |p.rows|
            && e.y * WIDTH + e.x == d.y * WIDTH + d.x - n
    decreases n
  {
    if n > 0 {
      assert Backspaces(n)[0] == BACKSPACE && Backspaces(n)[1..] == Backspaces(n - 1);
      PutAgreesIff(d, p, BACKSPACE);
      BackspacesGoHome(Put(d, BACKSPACE), Type(p, BACKSPACE, d.color), n - 1);
    }
  }

  lemma {:induction false} TypeAllConcat(p: Page, a: string, b: string, color: Color)
    requires ValidPage(p)
    ensures TypeAll(p, a + b, color) == TypeAll(TypeAll(p, a, color), b, color)
    decreases |a|
  {
    if a == "" {
      assert a + b == b;
    } else {
      assert (a + b)[1..] == a[1..] + b;
      TypeKeepsPage(p, a[0], color);
      TypeAllConcat(Type(p, a[0], color), a[1..], b, color);
    }
  }

  /** On a scrolled screen, one backspace more than there are cells before the cursor breaks agreement. */
  lemma BackspacingOffTop(d: Display, p: Page, n: nat)
    requires Agrees(d, p) && Top(p) > 0 && n == d.y * WIDTH + d.x
    ensures !Agrees(PutAll(d, Backspaces(n) + [BACKSPACE]), TypeAll(p, Backspaces(n) + [BACKSPACE], d.color))
  {
    BackspacesGoHome(d, p, n);
    PutAllSnoc(d, Backspaces(n), BACKSPACE);
    TypeAllConcat(p, Backspaces(n), [BACKSPACE], d.color);
    var e, q := PutAll(d, Backspaces(n)), TypeAll(p, Backspaces(n), d.color);
    assert [BACKSPACE][1..] == "";
    assert TypeAll(q, [BACKSPACE], d.color) == Type(q, BACKSPACE, d.color);
    PutAgreesIff(e, q, BACKSPACE);
  }

  function Newlines(n: nat): string {
    seq(n, i => '\n')
  }

  lemma {:induction false} NewlinesGrow(p: Page, n: nat, color: Color)
    requires ValidPage(p) && p.r == |p.rows| - 1
    ensures var q := TypeAll(p, Newlines(n), color);
            |q.rows| == |p.rows| + n && q.r == |q.rows| - 1 && q.c == if n == 0 then p.c else 0
    decreases n
  {
    if n > 0 {
      assert Newlines(n)[0] == '\n' && Newlines(n)[1..] == Newlines(n - 1);
      TypeKeepsPage(p, '\n', color);
      NewlinesGrow(NextLine(p, color), n - 1, color);
    }
  }

  /** From a cleared screen: 25 newlines scroll it once, and 24 * 80 + 1 backspaces back off its top. */
  lemma BackspaceCanDisagree(color: Color, newlines: string, back: string)
    requires newlines == Newlines(HEIGHT) && back == Backspaces((HEIGHT - 1) * WIDTH) + [BACKSPACE]
    ensures ValidPage(EmptyPage(color))
    ensures !Agrees(PutAll(Cleared(color), newlines + back), TypeAll(EmptyPage(color), newlines + back, color))
  {
    ScreenShowsLastRows(newlines, color);
    NewlinesGrow(EmptyPage(color), HEIGHT, color);
    PutAllConcat(Cleared(color), newlines, back);
    TypeAllConcat(EmptyPage(color), newlines, back, color);
    var d, p := PutAll(Cleared(color), newlines), TypeAll(EmptyPage(color), newlines, color);
    BackspacingOffTop(d, p, (HEIGHT - 1) * WIDTH);
  }

  // ---------------------------------------------------------------- plain text in closed form

  ghost predicate Plain(text: string) {
    forall k :: 0 <= k < |text| ==> Ordinary(text[k])
  }

  /** The page of a plain text is the text cut every 80 characters. */
  ghost predicate CutsText(p: Page, text: string, color: Color) {
    && ValidPage(p)
    && |p.rows| == |text| / WIDTH + 1 && p.r == |text| / WIDTH && p.c == |text| % WIDTH
    && forall i, j :: 0 <= i < |p.rows| && 0 <= j < WIDTH ==>
         p.rows[i][j] == if WIDTH * i + j < |text| then Glyph(text[WIDTH * i + j], color) else Blank(color)
  }

  lemma CutsOneMore(p: Page, text: string, ch: char, color: Color)
    requires CutsText(p, text, color) && Plain([ch])
    ensures CutsText(Type(p, ch, color), text + [ch], color)
  {
    assert [ch][0] == ch;
    var q, all := Type(p, ch, color), text + [ch];
    forall i, j | 0 <= i < |q.rows| && 0 <= j < WIDTH
      ensures q.rows[i][j] == if WIDTH * i + j < |all| then Glyph(all[WIDTH * i + j], color) else Blank(color)
    {
    }
  }

  lemma {:induction false} PlainTextCuts(p: Page, done: string, text: string, color: Color)
    requires CutsText(p, done, color) && Plain(text)
    ensures CutsText(TypeAll(p, text, color), done + text, color)
    decreases |text|
  {
    if text == "" {
      assert done + text == done;
    } else {
      assert Plain([text[0]]) && Plain(text[1..]);
      CutsOneMore(p, done, text[0], color);
      PlainTextCuts(Type(p, text[0], color), done + [text[0]], text[1..], color);
      assert done + text == done + [text[0]] + text[1..];
    }
  }

  /** How many full rows of a text of this length no longer fit on the screen. */
  function RowsGone(length: nat): nat {
    if length / WIDTH >= HEIGHT then length / WIDTH - (HEIGHT - 1) else 0
  }

  /** A screen that agrees with a cut text, cell by cell. */
  lemma CutOnScreen(d: Display, p: Page, text: string, y: nat, x: nat)
    requires Agrees(d, p) && CutsText(p, text, d.color) && y < HEIGHT && x < WIDTH
    ensures var top := RowsGone(|text|);
            var k := WIDTH * (top + y) + x;
            && d.y == |text| / WIDTH - top && d.x == |text| % WIDTH
            && CellAt(d.cells, y, x) == if k < |text| then Glyph(text[k], d.color) else Blank(d.color)
  {
  }

  lemma PlainTextAgrees(text: string, color: Color) returns (p: Page)
    requires Plain(text)
    ensures Agrees(PutAll(Cleared(color), text), p) && CutsText(p, text, color)
  {
    ScreenShowsLastRows(text, color);
    assert CutsText(EmptyPage(color), "", color);
    PlainTextCuts(EmptyPage(color), "", text, color);
    assert "" + text == text;
    p := TypeAll(EmptyPage(color), text, color);
  }

  lemma BecomesChar(cell: Cell, text: string, k: nat, color: Color)
    requires cell == if k < |text| then Glyph(text[k], color) else Blank(color)
    ensures ShowsChar(cell, if k < |text| then text[k] else ' ', color)
  {
    GlyphShows(if k < |text| then text[k] else ' ', color);
  }

  /**
   Plain text of any length on a cleared screen: cell (y, x) shows character
   80 * (top + y) + x, where `top` is the number of full rows that no longer fit.
   */
  lemma PlainTextOnScreen(text: string, color: Color, d: Display, y: nat, x: nat)
    requires Plain(text) && y < 25 && x < 80 && d == PutAll(Cleared(color), text)
    ensures var top := if |text| / 80 >= 25 then |text| / 80 - 24 else 0;
            var k := 80 * (top + y) + x;
            && |d.cells| == 2000 && d.y == |text| / 80 - top && d.x == |text| % 80
            && ShowsChar(d.cells[80 * y + x], if k < |text| then text[k] else ' ', color)
  {
    var p := PlainTextAgrees(text, color);
    CutOnScreen(d, p, text, y, x);
    BecomesChar(d.cells[80 * y + x], text, 80 * (RowsGone(|text|) + y) + x, color);
  }
}
