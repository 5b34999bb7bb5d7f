/**
 The line editor: a fixed 256-character buffer with a length and a cursor, edited key by
 key by shifting characters, refining a pair of strings around the cursor.
 */
module LineEditor {
  import opened CStrings
  import opened Keyboard

  const LINE_SIZE := 256

  /** The line before and after the cursor. */
  datatype Zipper = Zipper(before: string, after: string)

  const EMPTY := Zipper("", "")

  function Line(z: Zipper): string {
    z.before + z.after
  }

  predicate Printable(c: char) {
    ' ' <= c <= '~'
  }

  ghost predicate AllPrintable(s: string) {
    forall k :: 0 <= k < |s| ==> Printable(s[k])
  }

  ghost predicate Editable(z: Zipper) {
    |Line(z)| < LINE_SIZE && AllPrintable(z.before) && AllPrintable(z.after)
  }

  /** What one key does to the line. */
  function Edit(z: Zipper, c: char): Zipper {
    var b, a := |z.before|, |z.after|;
    if c == CHAR_LEFT then
      if b > 0 then Zipper(z.before[..b - 1], [z.before[b - 1]] + z.after) else z
    else if c == CHAR_RIGHT then
      if a > 0 then Zipper(z.before + [z.after[0]], z.after[1..]) else z
    else if c == CHAR_DEL then
      if a > 0 then Zipper(z.before, z.after[1..]) else z
    else if c == BACKSPACE then
      if b > 0 then Zipper(z.before[..b - 1], z.after) else z
    else if c == '\n' then EMPTY
    else if Printable(c) && a + b < LINE_SIZE - 1 then Zipper(z.before + [c], z.after)
    else z
  }

  function EditAll(z: Zipper, keys: string): Zipper
    decreases |keys|
  {
    if keys == "" then z else EditAll(Edit(z, keys[0]), keys[1..])
  }

  // ---------------------------------------------------------------- laws of editing

  lemma CursorKeepsEditable(z: Zipper)
    requires Editable(z)
    ensures Editable(Edit(z, CHAR_LEFT)) && Editable(Edit(z, CHAR_RIGHT))
  {
  }

  lemma EditKeepsEditable(z: Zipper, c: char)
    requires Editable(z)
    ensures Editable(Edit(z, c))
  {
    if c == CHAR_LEFT || c == CHAR_RIGHT { CursorKeepsEditable(z); }
  }

  lemma {:induction false} EditAllKeepsEditable(z: Zipper, keys: string)
    requires Editable(z)
    ensures Editable(EditAll(z, keys))
    decreases |keys|
  {
    if keys != "" {
      EditKeepsEditable(z, keys[0]);
      EditAllKeepsEditable(Edit(z, keys[0]), keys[1..]);
    }
  }

  /** Typing inserts the text at the cursor, wherever that is, and keeps the rest. */
  lemma {:induction false} TypingInserts(z: Zipper, text: string)
    requires |Line(z)| + |text| < LINE_SIZE && AllPrintable(text)
    ensures EditAll(z, text) == Zipper(z.before + text, z.after)
    decreases |text|
  {
    if text != "" {
      TypingInserts(Edit(z, text[0]), text[1..]);
      assert z.before + [text[0]] + text[1..] == z.before + text;
    } else {
      assert z.before + text == z.before;
    }
  }

  // ---------------------------------------------------------------- what each key does, by position

  /** `after` is `line` without the character at `at`. */
  ghost predicate Without(line: string, at: nat, after: string)
    requires at < |line|
  {
    |after| == |line| - 1 && forall k :: 0 <= k < |after| ==> after[k] == if k < at then line[k] else line[k + 1]
  }

  /** `after` is `line` with `c` put in before the character at `at`. */
  ghost predicate With(line: string, at: nat, c: char, after: string)
    requires at <= |line|
  {
    |after| == |line| + 1 &&
    forall k :: 0 <= k < |after| ==> after[k] == if k < at then line[k] else if k == at then c else line[k - 1]
  }

  /** Left and right move the cursor by one, unless it is at that end, and keep the line. */
  lemma CursorKeys(z: Zipper)
    ensures var left := Edit(z, '\U{0003}');
            Line(left) == Line(z) && |left.before| == if |z.before| > 0 then |z.before| - 1 else 0
    ensures var right := Edit(z, '\U{0004}');
            Line(right) == Line(z) &&
            |right.before| == if |z.before| < |Line(z)| then |z.before| + 1 else |z.before|
    ensures RefreshFor(z, '\U{0003}') == if |z.before| > 0 then CursorMoved else Nothing
    ensures RefreshFor(z, '\U{0004}') == if |z.before| < |Line(z)| then CursorMoved else Nothing
  {
  }

  /** Delete takes the character at the cursor, which stays; at the end of the line it does nothing. */
  lemma DeleteKey(z: Zipper)
    ensures var w := Edit(z, '\U{0005}');
            if |z.before| < |Line(z)|
            then Without(Line(z), |z.before|, Line(w)) && |w.before| == |z.before|
            else w == z
    ensures RefreshFor(z, '\U{0005}') == if |z.before| < |Line(z)| then LineChanged else Nothing
  {
  }

  /** Backspace takes the character before the cursor; at the start of the line it does nothing. */
  lemma BackspaceKey(z: Zipper)
    ensures var w := Edit(z, '\U{0008}');
            if |z.before| > 0
            then Without(Line(z), |z.before| - 1, Line(w)) && |w.before| == |z.before| - 1
            else w == z
    ensures RefreshFor(z, '\U{0008}') == if |z.before| > 0 then LineChanged else Nothing
  {
  }

  /** A printable character goes in at the cursor, while the line is shorter than 255 characters. */
  lemma PrintableKey(z: Zipper, c: char)
    requires ' ' <= c <= '~'
    ensures var w := Edit(z, c);
            if |Line(z)| < 255
            then With(Line(z), |z.before|, c, Line(w)) && |w.before| == |z.before| + 1
            else w == z
    ensures RefreshFor(z, c) == if |Line(z)| < 255 then LineChanged else Nothing
  {
  }

  /** No other character but Enter does anything. */
  lemma OtherKey(z: Zipper, c: char)
    requires !(' ' <= c <= '~') && c !in {'\U{0003}', '\U{0004}', '\U{0005}', '\U{0008}', '\n'}
    ensures Edit(z, c) == z && RefreshFor(z, c) == Nothing
  {
  }

  // ---------------------------------------------------------------- the buffer

  /** What has to happen on the screen after a key. */
  datatype Refresh = Nothing | CursorMoved | LineChanged | Submitted

  function RefreshFor(z: Zipper, c: char): Refresh {
    if c == '\n' then Submitted
    else if Edit(z, c) == z then Nothing
    else if c == CHAR_LEFT || c == CHAR_RIGHT then CursorMoved
    else LineChanged
  }

  class LineBuffer {
    const buffer: array<char>
    var bufferPos: nat
    var cursorPos: nat

    /** Printable characters below `bufferPos`, only zeros from there on. */
    ghost predicate Valid()
      reads this, buffer
    {
      && buffer.Length == LINE_SIZE && cursorPos <= bufferPos < LINE_SIZE
      && (forall k :: 0 <= k < bufferPos ==> Printable(buffer[k]))
      && (forall k :: bufferPos <= k < LINE_SIZE ==> buffer[k] == NUL)
    }

    ghost function Value(): Zipper
      requires Valid()
      reads this, buffer
    {
      Zipper(buffer[..cursorPos], buffer[cursorPos..bufferPos])
    }

    constructor ()
      ensures Valid() && fresh(buffer) && Value() == EMPTY
    {
      buffer := new char[LINE_SIZE];
      bufferPos, cursorPos := 0, 0;
      new;
      Clear();
    }

    /** `clear_buffer` */
    method Clear()
      requires buffer.Length == LINE_SIZE
      modifies this, buffer
      ensures Valid() && Value() == EMPTY
    {
      for i := 0 to LINE_SIZE
        invariant forall k :: 0 <= k < i ==> buffer[k] == NUL
      {
        buffer[i] := NUL;
      }
      bufferPos := 0;
      cursorPos := 0;
    }

    /** The loop shared by delete and backspace: the character at `at` goes, the rest closes up. */
    method RemoveAt(at: nat)
      requires Valid() && at < bufferPos && cursorPos < bufferPos
      modifies this`bufferPos, buffer
      ensures Valid() && bufferPos == old(bufferPos) - 1
      ensures forall k :: 0 <= k < at ==> buffer[k] == old(buffer[k])
      ensures forall k :: at <= k < bufferPos ==> buffer[k] == old(buffer[k + 1])
    {
      for i := at to bufferPos - 1
        invariant bufferPos == old(bufferPos)
        invariant forall k :: 0 <= k < at ==> buffer[k] == old(buffer[k])
        invariant forall k :: at <= k < i ==> buffer[k] == old(buffer[k + 1])
        invariant forall k :: i <= k < LINE_SIZE ==> buffer[k] == old(buffer[k])
      {
        buffer[i] := buffer[i + 1];
      }
      bufferPos := bufferPos - 1;
      buffer[bufferPos] := NUL;
    }

    /** Puts the character at the cursor, the rest of the line one place further. */
    method Insert(c: char)
      requires Valid() && bufferPos < LINE_SIZE - 1 && Printable(c)
      modifies this, buffer
      ensures Valid() && Value() == Edit(old(Value()), c)
      ensures |old(Value()).before| + |old(Value()).after| < LINE_SIZE - 1
    {
      ghost var z := Value();
      OpenGap();
      buffer[cursorPos] := c;
      bufferPos := bufferPos + 1;
      cursorPos := cursorPos + 1;
      assert buffer[..cursorPos] == z.before + [c];
    }

    /** The loop that shifts the line right from the cursor on. */
    method OpenGap()
      requires Valid() && bufferPos < LINE_SIZE - 1
      modifies buffer
      ensures buffer[..cursorPos] == old(buffer[..cursorPos])
      ensures buffer[cursorPos + 1..bufferPos + 1] == old(buffer[cursorPos..bufferPos])
      ensures forall k :: cursorPos < k <= bufferPos ==> Printable(buffer[k])
      ensures forall k :: 0 <= k < cursorPos ==> Printable(buffer[k])
      ensures forall k :: bufferPos < k < LINE_SIZE ==> buffer[k] == NUL
    {
      ghost var was := buffer[..];
      var i := bufferPos;
      while i > cursorPos
        invariant cursorPos <= i <= bufferPos
        invariant forall k :: 0 <= k < i ==> buffer[k] == was[k]
        invariant forall k :: i < k <= bufferPos ==> buffer[k] == was[k - 1]
        invariant forall k :: bufferPos < k < LINE_SIZE ==> buffer[k] == NUL
      {
        buffer[i] := buffer[i - 1];
        i := i - 1;
      }
      assert forall k :: 0 <= k < bufferPos ==> Printable(was[k]);
      ghost var moved, rest := buffer[cursorPos + 1..bufferPos + 1], was[cursorPos..bufferPos];
      forall m | 0 <= m < |rest| ensures moved[m] == rest[m] {
        assert buffer[cursorPos + 1 + m] == was[cursorPos + m];
      }
    }

    /** The key handling of `terminal_run` as far as it changes the buffer. */
    method Key(c: char) returns (refresh: Refresh)
      requires Valid()
      modifies this, buffer
      ensures Valid() && Value() == Edit(old(Value()), c) && refresh == RefreshFor(old(Value()), c)
    {
      ghost var z := Value();
      if c == CHAR_LEFT {
        if cursorPos > 0 {
          cursorPos := cursorPos - 1;
          assert buffer[cursorPos..bufferPos] == [z.before[cursorPos]] + z.after;
          return CursorMoved;
        }
        return Nothing;
      } else if c == CHAR_RIGHT {
        if cursorPos < bufferPos {
          cursorPos := cursorPos + 1;
          assert buffer[..cursorPos] == z.before + [z.after[0]];
          return CursorMoved;
        }
        return Nothing;
      } else if c == CHAR_DEL {
        if cursorPos < bufferPos {
          Delete();
          return LineChanged;
        }
        return Nothing;
      } else if c == '\n' {
        Clear();
        return Submitted;
      } else if c == BACKSPACE {
        if cursorPos > 0 {
          Backspace();
          return LineChanged;
        }
        return Nothing;
      }
      if bufferPos < LINE_SIZE - 1 && ' ' <= c <= '~' {
        Insert(c);
        return LineChanged;
      }
      return Nothing;
    }

    method Delete()
      requires Valid() && cursorPos < bufferPos
      modifies this`bufferPos, buffer
      ensures Valid() && Value() == Edit(old(Value()), CHAR_DEL)
      ensures old(Value()).after != ""
    {
      ghost var z := Value();
      RemoveAt(cursorPos);
      assert buffer[..cursorPos] == z.before;
      forall k | 0 <= k < bufferPos - cursorPos ensures buffer[cursorPos + k] == z.after[1..][k] {
        assert buffer[cursorPos + k] == old(buffer[cursorPos + k + 1]);
      }
      assert buffer[cursorPos..bufferPos] == z.after[1..];
    }

    method Backspace()
      requires Valid() && cursorPos > 0
      modifies this, buffer
      ensures Valid() && Value() == Edit(old(Value()), BACKSPACE)
      ensures old(Value()).before != ""
    {
      ghost var z := Value();
      cursorPos := cursorPos - 1;
      RemoveAt(cursorPos);
      assert buffer[..cursorPos] == z.before[..cursorPos] && buffer[cursorPos..bufferPos] == z.after;
    }
  }
}
