/**
 The VGA text screen: 25 rows of 80 cells, a cursor and a colour.  `Display` is its
 value, `Screen` the memory the kernel's loops change in place.
 */
module Screen {
  import opened CStrings

  const WIDTH := 80
  const HEIGHT := 25
  const CELLS := WIDTH * HEIGHT

  type Cell = nat

  /** `uint8_t vga_color` */
  type Color = n: nat | n < 256

  /** `vga_entry`: plain `char` is signed, so a code from 128 up fills the attribute byte with ones. */
  function Glyph(c: char, color: Color): Cell {
    var code := c as int % 256;
    if code < 128 then code + 256 * color else 0xFF00 + code
  }

  /** The cell's low byte is the character, its high byte the attribute: the colour, for ASCII only. */
  predicate ShowsChar(cell: Cell, c: char, color: Color) {
    cell % 256 == c as int % 256 && cell / 256 == if c as int % 256 < 128 then color else 0xFF
  }

  lemma GlyphShows(c: char, color: Color)
    ensures ShowsChar(Glyph(c, color), c, color)
  {
  }

  function Blank(color: Color): Cell {
    Glyph(' ', color)
  }

  datatype Display = Display(cells: seq<Cell>, x: int, y: int, color: Color)

  predicate OnScreen(d: Display) {
    |d.cells| == CELLS && 0 <= d.x < WIDTH && 0 <= d.y < HEIGHT
  }

  function CellAt(cells: seq<Cell>, y: int, x: int): Cell
    requires |cells| == CELLS && 0 <= y < HEIGHT && 0 <= x < WIDTH
  {
    cells[y * WIDTH + x]
  }

  // ---------------------------------------------------------------- one character

  function Scrolled(cells: seq<Cell>, color: Color): (after: seq<Cell>)
    requires |cells| == CELLS
    ensures |after| == CELLS
  {
    cells[WIDTH..] + seq(WIDTH, x => Blank(color))
  }

  /** The wrap and scroll checks at the end of `vga_putchar`. */
  function Settled(d: Display): (after: Display)
    requires |d.cells| == CELLS && 0 <= d.x && 0 <= d.y
    requires d.y < HEIGHT || (d.y == HEIGHT && d.x < WIDTH)
    ensures OnScreen(after) && after.color == d.color
  {
    var w := if d.x >= WIDTH then d.(x := 0, y := d.y + 1) else d;
    if w.y >= HEIGHT then w.(cells := Scrolled(w.cells, w.color), y := HEIGHT - 1) else w
  }

  function Written(d: Display, c: char): Display
    requires OnScreen(d)
  {
    d.(cells := d.cells[d.y * WIDTH + d.x := Glyph(c, d.color)])
  }

  /** `vga_putchar` */
  function Put(d: Display, c: char): (after: Display)
    requires OnScreen(d)
    ensures OnScreen(after) && after.color == d.color
  {
    if c == '\n' then Settled(d.(x := 0, y := d.y + 1))
    else if c == '\r' then d.(x := 0)
    else if c == '\t' then Settled(d.(x := NextTab(d.x)))
    else if c == BACKSPACE then
      if d.x > 0 then Written(d.(x := d.x - 1), ' ')
      else if d.y > 0 then Written(d.(x := WIDTH - 1, y := d.y - 1), ' ')
      else d
    else Settled(Written(d, c).(x := d.x + 1))
  }

  /** `(x + 8) & ~7`: the next multiple of eight. */
  function NextTab(x: int): (stop: int)
    ensures stop % 8 == 0 && x < stop <= x + 8
  {
    x + 8 - x % 8
  }

  /** `vga_write` */
  function PutAll(d: Display, text: string): (after: Display)
    requires OnScreen(d)
    ensures OnScreen(after) && after.color == d.color
    decreases |text|
  {
    if text == "" then d else PutAll(Put(d, text[0]), text[1..])
  }

  function Cleared(color: Color): (d: Display)
    ensures OnScreen(d)
  {
    Display(seq(CELLS, i => Blank(color)), 0, 0, color)
  }

  lemma {:induction false} PutAllConcat(d: Display, a: string, b: string)
    requires OnScreen(d)
    ensures PutAll(d, a + b) == PutAll(PutAll(d, a), b)
    decreases |a|
  {
    if a == "" {
      assert a + b == b;
    } else {
      assert (a + b)[1..] == a[1..] + b;
      PutAllConcat(Put(d, a[0]), a[1..], b);
    }
  }

  lemma PutAllSnoc(d: Display, text: string, c: char)
    requires OnScreen(d)
    ensures PutAll(d, text + [c]) == Put(PutAll(d, text), c)
  {
    PutAllConcat(d, text, [c]);
    assert [c][1..] == "";
  }

  // ---------------------------------------------------------------- the memory

  class Screen {
    const buffer: array<Cell>
    var cursorX: int
    var cursorY: int
    var color: Color

    ghost predicate Valid()
      reads this, buffer
    {
      OnScreen(Value())
    }

    ghost function Value(): Display
      reads this, buffer
    {
      Display(buffer[..], cursorX, cursorY, color)
    }

    /** `vga_init` with a given attribute. */
    constructor (attribute: Color)
      ensures Valid() && fresh(buffer) && Value() == Cleared(attribute)
    {
      buffer := new Cell[CELLS];
      color := attribute;
      cursorX, cursorY := 0, 0;
      new;
      Clear();
    }

    /** `vga_clear` */
    method Clear()
      requires buffer.Length == CELLS
      modifies this`cursorX, this`cursorY, buffer
      ensures Value() == Cleared(color)
    {
      for y := 0 to HEIGHT
        invariant forall k :: 0 <= k < y * WIDTH ==> buffer[k] == Blank(color)
      {
        for x := 0 to WIDTH
          invariant forall k :: 0 <= k < y * WIDTH + x ==> buffer[k] == Blank(color)
        {
          buffer[y * WIDTH + x] := Glyph(' ', color);
        }
      }
      SetCursor(0, 0);
    }

    /** The state effect of `vga_set_cursor`; the port writes are hardware. */
    method SetCursor(x: int, y: int)
      modifies this`cursorX, this`cursorY
      ensures Value() == old(Value()).(x := x, y := y)
    {
      cursorX := x;
      cursorY := y;
    }

    /** `vga_scroll` */
    method Scroll()
      requires buffer.Length == CELLS
      modifies buffer
      ensures buffer[..] == Scrolled(old(buffer[..]), color)
    {
      ghost var was := buffer[..];
      MoveRowsUp();
      for x := 0 to WIDTH
        invariant buffer[..CELLS - WIDTH] == was[WIDTH..]
        invariant forall k :: CELLS - WIDTH <= k < CELLS - WIDTH + x ==> buffer[k] == Blank(color)
      {
        buffer[(HEIGHT - 1) * WIDTH + x] := Glyph(' ', color);
      }
      assert buffer[..] == Scrolled(was, color);
    }

    /** The nested loops of `vga_scroll`. */
    method MoveRowsUp()
      requires buffer.Length == CELLS
      modifies buffer
      ensures buffer[..CELLS - WIDTH] == old(buffer[..])[WIDTH..]
    {
      ghost var was := buffer[..];
      for y := 0 to HEIGHT - 1
        invariant forall k :: 0 <= k < y * WIDTH ==> buffer[k] == was[k + WIDTH]
        invariant forall k :: y * WIDTH <= k < CELLS ==> buffer[k] == was[k]
      {
        for x := 0 to WIDTH
          invariant forall k :: 0 <= k < y * WIDTH + x ==> buffer[k] == was[k + WIDTH]
          invariant forall k :: y * WIDTH + x <= k < CELLS ==> buffer[k] == was[k]
        {
          buffer[y * WIDTH + x] := buffer[(y + 1) * WIDTH + x];
        }
      }
    }

    /** `vga_putchar` */
    method PutChar(c: char)
      requires Valid()
      modifies this`cursorX, this`cursorY, buffer
      ensures Valid() && Value() == Put(old(Value()), c)
    {
      if c == '\n' {
        cursorX := 0;
        cursorY := cursorY + 1;
      } else if c == '\r' {
        cursorX := 0;
      } else if c == '\t' {
        cursorX := NextTab(cursorX);
      } else if c == BACKSPACE {
        if cursorX > 0 {
          cursorX := cursorX - 1;
          buffer[cursorY * WIDTH + cursorX] := Glyph(' ', color);
          SetCursor(cursorX, cursorY);
          return;
        } else if cursorY > 0 {
          cursorY := cursorY - 1;
          cursorX := WIDTH - 1;
          buffer[cursorY * WIDTH + cursorX] := Glyph(' ', color);
          SetCursor(cursorX, cursorY);
          return;
        }
      } else {
        buffer[cursorY * WIDTH + cursorX] := Glyph(c, color);
        cursorX := cursorX + 1;
      }
      if cursorX >= WIDTH {
        cursorX := 0;
        cursorY := cursorY + 1;
      }
      if cursorY >= HEIGHT {
        Scroll();
        cursorY := HEIGHT - 1;
      }
      SetCursor(cursorX, cursorY);
    }

    /** `vga_write` */
    method Write(text: string)
      requires Valid()
      modifies this`cursorX, this`cursorY, buffer
      ensures Valid() && Value() == PutAll(old(Value()), text)
    {
      var i := 0;
      while i < |text|
        invariant 0 <= i <= |text|
        invariant Valid() && PutAll(Value(), text[i..]) == PutAll(old(Value()), text)
      {
        assert text[i..][1..] == text[i + 1..];
        PutChar(text[i]);
        i := i + 1;
      }
    }
  }
}
