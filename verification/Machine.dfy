/**
 The running machine: scancodes go through the keyboard decoder and the line editor, and
 every finished line through the command interpreter to the file table.
 */
module Machine {
  import opened CStrings
  import opened Paths
  import opened FileTable
  import opened Operations
  import opened Runs
  import opened Shell
  import opened LineEditor
  import opened Keyboard
  import opened Typing
  import opened Terminal

  /** The line being edited, the current directory and the file table. */
  datatype Desk = Desk(line: Zipper, shell: State)

  ghost predicate InOrder(desk: Desk) {
    Editable(desk.line) && Healthy(desk.shell)
  }

  lemma EditableIsCString(z: Zipper)
    requires Editable(z)
    ensures NUL !in Line(z)
  {
  }

  // ---------------------------------------------------------------- one character

  /** If the character submits the line, the path that line builds fits its buffer. */
  ghost predicate CharFits(desk: Desk, c: char)
    requires InOrder(desk)
  {
    EditableIsCString(desk.line);
    c == '\n' ==> LineFits(desk.shell.cwd, Line(desk.line))
  }

  /** `terminal_run` on one character, as far as it changes the line, directory and files. */
  ghost function Receive(desk: Desk, c: char): (after: Desk)
    requires InOrder(desk) && CharFits(desk, c)
    ensures InOrder(after)
  {
    if c == NUL then desk
    else if c == '\n' then
      EditableIsCString(desk.line);
      Desk(EMPTY, Execute(desk.shell, Line(desk.line)))
    else
      EditKeepsEditable(desk.line, c);
      desk.(line := Edit(desk.line, c))
  }

  /** The terminal's buffers and the interpreter behind them. */
  class TerminalLoop {
    const line: LineBuffer
    const shell: Interpreter

    constructor (l: LineBuffer, s: Interpreter)
      ensures line == l && shell == s
    {
      line, shell := l, s;
    }

    ghost predicate Valid()
      reads line, line.buffer, shell, shell.fs, shell.fs.files
    {
      line.Valid() && shell.Valid()
    }

    ghost function Value(): Desk
      requires Valid()
      reads line, line.buffer, shell, shell.fs, shell.fs.files
    {
      Desk(line.Value(), shell.Value())
    }

    /** The buffer holds the line, whatever the cursor position. */
    lemma BufferIsLine()
      requires Valid()
      ensures line.buffer[..line.bufferPos] == Line(line.Value()) && InOrder(Value())
    {
      assert line.buffer[..line.bufferPos] == Line(line.Value());
    }

    /** `terminal_run` after the character is read: Enter executes the buffer and clears it. */
    method Run(c: char)
      requires Valid() && InOrder(Value()) && CharFits(Value(), c)
      modifies line, line.buffer, shell`currentDir, shell.fs`fileCount, shell.fs.files
      ensures Valid() && Value() == Receive(old(Value()), c)
    {
      if c == NUL { return; }
      BufferIsLine();
      if c == '\n' {
        EditableIsCString(line.Value());
        shell.ExecuteCommand(line.buffer[..line.bufferPos]);
        line.Clear();
      } else {
        var refresh := line.Key(c);
      }
    }
  }

  // ---------------------------------------------------------------- traces

  /** Every line submitted along the way builds a path that fits. */
  ghost predicate TextFits(desk: Desk, text: string)
    requires InOrder(desk)
    decreases |text|, 0
  {
    text == "" ||
    (TextFits(desk, text[..|text| - 1]) && CharFits(ReceiveAll(desk, text[..|text| - 1]), text[|text| - 1]))
  }

  ghost function ReceiveAll(desk: Desk, text: string): (after: Desk)
    requires InOrder(desk) && TextFits(desk, text)
    ensures InOrder(after)
    decreases |text|, 1
  {
    if text == "" then desk else Receive(ReceiveAll(desk, text[..|text| - 1]), text[|text| - 1])
  }

  // ---------------------------------------------------------------- Enter executes the line

  lemma ReceiveSnoc(desk: Desk, text: string, c: char)
    requires InOrder(desk)
    ensures TextFits(desk, text + [c]) <==> TextFits(desk, text) && CharFits(ReceiveAll(desk, text), c)
    ensures TextFits(desk, text + [c]) ==> ReceiveAll(desk, text + [c]) == Receive(ReceiveAll(desk, text), c)
  {
    var all := text + [c];
    assert all[..|all| - 1] == text && all[|all| - 1] == c;
  }

  lemma {:induction false} ReceiveConcat(desk: Desk, a: string, b: string)
    requires InOrder(desk)
    ensures TextFits(desk, a + b) <==> TextFits(desk, a) && TextFits(ReceiveAll(desk, a), b)
    ensures TextFits(desk, a + b) ==> ReceiveAll(desk, a + b) == ReceiveAll(ReceiveAll(desk, a), b)
    decreases |b|
  {
    if b == "" {
      assert a + b == a;
    } else {
      var init, c := b[..|b| - 1], b[|b| - 1];
      ReceiveConcat(desk, a, init);
      assert b == init + [c] && a + b == a + init + [c];
      ReceiveSnoc(desk, a + init, c);
      if TextFits(desk, a) { ReceiveSnoc(ReceiveAll(desk, a), init, c); }
    }
  }

  lemma {:induction false} EditAllSnoc(z: Zipper, keys: string, c: char)
    ensures EditAll(z, keys + [c]) == Edit(EditAll(z, keys), c)
    decreases |keys|
  {
    var all := keys + [c];
    if keys == "" {
      assert all[1..] == "" && all[0] == c;
    } else {
      assert all[0] == keys[0] && all[1..] == keys[1..] + [c];
      EditAllSnoc(Edit(z, keys[0]), keys[1..], c);
    }
  }

  lemma KeyEditsLine(desk: Desk, c: char)
    requires InOrder(desk) && c != '\n'
    ensures CharFits(desk, c) && Receive(desk, c) == desk.(line := Edit(desk.line, c))
  {
    if c == NUL { OtherKey(desk.line, c); }
  }

  lemma NextKeyEdits(desk: Desk, init: string, c: char, z: Zipper)
    requires InOrder(desk) && TextFits(desk, init) && ReceiveAll(desk, init) == desk.(line := z) && c != '\n'
    ensures TextFits(desk, init + [c]) && ReceiveAll(desk, init + [c]) == desk.(line := Edit(z, c))
  {
    ReceiveSnoc(desk, init, c);
    KeyEditsLine(ReceiveAll(desk, init), c);
  }

  /** Keys other than Enter edit the line and touch nothing else. */
  lemma {:induction false} KeysEditLine(desk: Desk, keys: string)
    requires InOrder(desk) && '\n' !in keys
    ensures TextFits(desk, keys) && ReceiveAll(desk, keys) == desk.(line := EditAll(desk.line, keys))
    decreases |keys|
  {
    if keys != "" {
      var init, c := keys[..|keys| - 1], keys[|keys| - 1];
      assert keys == init + [c];
      KeysEditLine(desk, init);
      EditAllSnoc(desk.line, init, c);
      NextKeyEdits(desk, init, c, EditAll(desk.line, init));
    }
  }

  /** Enter executes whatever line the keys before it have left, and clears it. */
  lemma EnterExecutes(desk: Desk, keys: string, line: string)
    requires InOrder(desk) && '\n' !in keys && line == Line(EditAll(desk.line, keys))
    ensures NUL !in line && |line| < 256
    ensures TextFits(desk, keys + "\n") <==> LineFits(desk.shell.cwd, line)
    ensures TextFits(desk, keys + "\n") ==>
              ReceiveAll(desk, keys + "\n") == Desk(Zipper("", ""), Execute(desk.shell, line))
  {
    KeysEditLine(desk, keys);
    EditAllKeepsEditable(desk.line, keys);
    EditableIsCString(EditAll(desk.line, keys));
    var text := keys + "\n";
    assert text[..|text| - 1] == keys && text[|text| - 1] == '\n';
  }

  /** A printable line typed at an empty prompt is the line that Enter executes. */
  lemma TypedLineExecutes(desk: Desk, line: CString)
    requires InOrder(desk) && desk.line == Zipper("", "") && AllPrintable(line) && |line| < 256
    ensures TextFits(desk, line + "\n") <==> LineFits(desk.shell.cwd, line)
    ensures TextFits(desk, line + "\n") ==>
              ReceiveAll(desk, line + "\n") == Desk(Zipper("", ""), Execute(desk.shell, line))
  {
    TypingInserts(desk.line, line);
    assert "" + line == line && line + "" == line;
    EnterExecutes(desk, line, line);
  }

  /** Strings of keys, each followed by Enter. */
  function Keystrokes(keys: seq<string>): string {
    if keys == [] then "" else keys[0] + "\n" + Keystrokes(keys[1..])
  }

  /** `lines` are the lines the strings of keys leave at an empty prompt. */
  ghost predicate EditTo(keys: seq<string>, lines: seq<CString>) {
    && |keys| == |lines|
    && forall k :: 0 <= k < |keys| ==> '\n' !in keys[k] && lines[k] == Line(EditAll(EMPTY, keys[k]))
  }

  lemma EditedLinesAreShort(keys: seq<string>, lines: seq<CString>)
    requires EditTo(keys, lines)
    ensures ShortLines(lines)
  {
    forall k | 0 <= k < |lines| ensures |lines[k]| < MAX_FILENAME {
      EditAllKeepsEditable(EMPTY, keys[k]);
    }
  }

  lemma FirstLineRuns(desk: Desk, keys: seq<string>, lines: seq<CString>)
    requires InOrder(desk) && desk.line == EMPTY && EditTo(keys, lines) && ShortLines(lines) && keys != []
    ensures TextFits(desk, keys[0] + "\n") <==> LineFits(desk.shell.cwd, lines[0])
    ensures TextFits(desk, keys[0] + "\n") ==>
              ReceiveAll(desk, keys[0] + "\n") == Desk(EMPTY, Execute(desk.shell, lines[0]))
  {
    EnterExecutes(desk, keys[0], lines[0]);
  }

  /** Editing and entering line after line is running the session of the edited lines. */
  lemma {:induction false} KeystrokesRunSession(desk: Desk, keys: seq<string>, lines: seq<CString>)
    requires InOrder(desk) && desk.line == EMPTY && EditTo(keys, lines) && ShortLines(lines)
    ensures TextFits(desk, Keystrokes(keys)) <==> SessionFits(desk.shell, lines)
    ensures TextFits(desk, Keystrokes(keys)) ==>
              ReceiveAll(desk, Keystrokes(keys)) == Desk(EMPTY, Session(desk.shell, lines))
    decreases |keys|
  {
    if keys != [] {
      FirstLineRuns(desk, keys, lines);
      ReceiveConcat(desk, keys[0] + "\n", Keystrokes(keys[1..]));
      if TextFits(desk, keys[0] + "\n") {
        KeystrokesRunSession(ReceiveAll(desk, keys[0] + "\n"), keys[1..], lines[1..]);
      }
    }
  }

  // ---------------------------------------------------------------- scancodes

  datatype Computer = Computer(keys: Keys, desk: Desk)

  ghost predicate PollFits(c: Computer, trace: seq<Scancode>)
    requires InOrder(c.desk)
    decreases |trace|, 0
  {
    trace == [] ||
    (PollFits(c, trace[..|trace| - 1]) &&
     var before := Poll(c, trace[..|trace| - 1]);
     CharFits(before.desk, React(before.keys, trace[|trace| - 1]).output))
  }

  /** The computer after the polling loop has read a trace of scancodes. */
  ghost function Poll(c: Computer, trace: seq<Scancode>): (after: Computer)
    requires InOrder(c.desk) && PollFits(c, trace)
    ensures InOrder(after.desk)
    decreases |trace|, 1
  {
    if trace == [] then c
    else
      var before := Poll(c, trace[..|trace| - 1]);
      var reaction := React(before.keys, trace[|trace| - 1]);
      Computer(reaction.keys, Receive(before.desk, reaction.output))
  }

  /** Polling is decoding the whole trace and then feeding the typed characters to the terminal. */
  lemma {:induction false} PollDecodesThenReceives(c: Computer, trace: seq<Scancode>)
    requires InOrder(c.desk)
    ensures PollFits(c, trace) <==> TextFits(c.desk, Typed(c.keys, trace))
    ensures PollFits(c, trace) ==>
              Poll(c, trace) == Computer(StateAfter(c.keys, trace), ReceiveAll(c.desk, Typed(c.keys, trace)))
    decreases |trace|
  {
    if trace != [] {
      var init, last := trace[..|trace| - 1], |trace| - 1;
      PollDecodesThenReceives(c, init);
      var output := React(StateAfter(c.keys, init), trace[last]).output;
      var text := Typed(c.keys, init);
      if output == NUL {
        assert Typed(c.keys, trace) == text;
      } else {
        assert Typed(c.keys, trace) == text + [output] && (text + [output])[..|text|] == text;
      }
    }
  }

  /** However often the loop reads each scancode, files, directory and line come out the same. */
  lemma RepeatedReadsChangeNothing(c: Computer, trace: seq<Scancode>, times: seq<nat>)
    requires InOrder(c.desk) && |trace| == |times| && forall k :: 0 <= k < |times| ==> times[k] >= 1
    ensures PollFits(c, Stretched(trace, times)) <==> PollFits(c, trace)
    ensures PollFits(c, trace) ==> Poll(c, Stretched(trace, times)) == Poll(c, trace)
  {
    PollDecodesThenReceives(c, trace);
    PollDecodesThenReceives(c, Stretched(trace, times));
    StretchingTypesTheSame(c.keys, trace, times);
  }

  /** The machine after start-up, over whatever the table's memory held. */
  ghost function PoweredOn(t: Table): (c: Computer)
    requires Shaped(t)
    ensures InOrder(c.desk)
  {
    FormattedIsTree(t);
    ShortPathFits("/");
    Computer(IDLE, Desk(EMPTY, State(Formatted(t), "/")))
  }

  /** A scancode trace after start-up whose text is lines with Enter runs their session from the root. */
  lemma TraceRunsSession(t: Table, trace: seq<Scancode>, keys: seq<string>, lines: seq<CString>)
    requires Shaped(t) && EditTo(keys, lines) && Typed(IDLE, trace) == Keystrokes(keys)
    ensures var start := State(Formatted(t), "/");
            && Healthy(start) && ShortLines(lines)
            && (PollFits(PoweredOn(t), trace) <==> SessionFits(start, lines))
            && (PollFits(PoweredOn(t), trace) ==>
                  Poll(PoweredOn(t), trace).desk == Desk(Zipper("", ""), Session(start, lines)))
  {
    var c := PoweredOn(t);
    EditedLinesAreShort(keys, lines);
    PollDecodesThenReceives(c, trace);
    KeystrokesRunSession(c.desk, keys, lines);
  }

  lemma {:induction false} KeystrokesAreTypeable(lines: seq<CString>)
    requires forall k :: 0 <= k < |lines| ==> AllPrintable(lines[k])
    ensures forall k :: 0 <= k < |Keystrokes(lines)| ==> Typeable(Keystrokes(lines)[k]) && Keystrokes(lines)[k] != NUL
    decreases |lines|
  {
    if lines != [] {
      KeystrokesAreTypeable(lines[1..]);
      var first, rest := lines[0] + "\n", Keystrokes(lines[1..]);
      assert forall k :: 0 <= k < |first| ==> Typeable(first[k]) && first[k] != NUL;
      assert Keystrokes(lines) == first + rest;
    }
  }

  lemma PrintableLinesStay(lines: seq<CString>)
    requires forall k :: 0 <= k < |lines| ==> AllPrintable(lines[k]) && |lines[k]| < 256
    ensures EditTo(lines, lines)
  {
    forall k | 0 <= k < |lines| ensures '\n' !in lines[k] && lines[k] == Line(EditAll(EMPTY, lines[k])) {
      TypingInserts(EMPTY, lines[k]);
      assert "" + lines[k] + "" == lines[k];
    }
  }

  /** Every session of printable lines can be typed, key by key, from start-up. */
  lemma SessionCanBeTyped(t: Table, lines: seq<CString>, shiftKey: KeyCode) returns (keys: seq<Stroke>)
    requires Shaped(t) && IsShift(shiftKey)
    requires forall k :: 0 <= k < |lines| ==> AllPrintable(lines[k]) && |lines[k]| < 256
    ensures var start, trace := State(Formatted(t), "/"), Scancodes(keys, shiftKey);
            && Healthy(start) && ShortLines(lines)
            && (PollFits(PoweredOn(t), trace) <==> SessionFits(start, lines))
            && (PollFits(PoweredOn(t), trace) ==>
                  Poll(PoweredOn(t), trace).desk == Desk(Zipper("", ""), Session(start, lines)))
  {
    KeystrokesAreTypeable(lines);
    keys := TextCanBeTyped(Keystrokes(lines));
    var trace := StrokesTypeText(keys, Keystrokes(lines), shiftKey);
    PrintableLinesStay(lines);
    TraceRunsSession(t, trace, lines, lines);
  }

  /**
   Whatever is typed, as long as the paths built fit their buffer, the table stays ordered,
   the directory path rooted and within its buffer, and the line within its own.
   */
  lemma EveryTraceKeepsOrder(t: Table, trace: seq<Scancode>)
    requires Shaped(t) && PollFits(PoweredOn(t), trace)
    ensures var after := Poll(PoweredOn(t), trace).desk;
            var table := after.shell.table;
            && 1 <= table.count <= 256 && |table.slots| == 256
            && IsRoot(table.slots[0])
            && (forall i :: 0 <= i < table.count ==> table.slots[i].parent <= i && table.slots[i].kind != Unused)
            && Rooted(after.shell.cwd) && |after.shell.cwd| < 512
            && |Line(after.line)| < 256
  {
    var table := Poll(PoweredOn(t), trace).desk.shell.table;
    assert forall i :: 0 <= i < table.count ==> Live(table)[i] == table.slots[i];
  }
}
