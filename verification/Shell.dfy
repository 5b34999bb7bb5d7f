/**
 The commands that touch the file system: argument parsing, joining paths to the current
 directory, and what `cd`, `mkdir`, `touch` and `rm` do.
 */
module Shell {
  import opened CStrings
  import opened Paths
  import opened FileTable
  import opened Deletion
  import opened Operations
  import opened Creation
  import opened Runs

  // ---------------------------------------------------------------- arguments

  function DropWord(s: string): string {
    if s == "" || s[0] == ' ' then s else DropWord(s[1..])
  }

  function DropSpaces(s: string): string {
    if s == "" || s[0] != ' ' then s else DropSpaces(s[1..])
  }

  function TakeWord(s: string): string {
    if s == "" || s[0] == ' ' then "" else [s[0]] + TakeWord(s[1..])
  }

  /** The second word of a command line. */
  function FirstArgument(line: string): string {
    TakeWord(DropSpaces(DropWord(line)))
  }

  /** Everything from the third word on. */
  function SecondArgument(line: string): string {
    DropSpaces(DropWord(DropSpaces(DropWord(line))))
  }

  ghost predicate AllSpaces(s: string) {
    forall k :: 0 <= k < |s| ==> s[k] == ' '
  }

  lemma {:induction false} WordIsPrefix(s: string)
    ensures TakeWord(s) + DropWord(s) == s && ' ' !in TakeWord(s)
    ensures DropWord(s) == "" || DropWord(s)[0] == ' '
  {
    if s == "" || s[0] == ' ' {
      assert "" + s == s;
    } else {
      var rest := s[1..];
      WordIsPrefix(rest);
      var word, left := TakeWord(rest), DropWord(rest);
      assert TakeWord(s) == [s[0]] + word && DropWord(s) == left;
      assert [s[0]] + word + left == [s[0]] + (word + left) == s;
    }
  }

  lemma {:induction false} SpacesArePrefix(s: string) returns (gap: string)
    ensures gap + DropSpaces(s) == s && AllSpaces(gap)
    ensures DropSpaces(s) == "" || DropSpaces(s)[0] != ' '
    ensures s != "" && s[0] == ' ' ==> gap != ""
  {
    if s != "" && s[0] == ' ' {
      var rest := SpacesArePrefix(s[1..]);
      gap := [' '] + rest;
      var left := DropSpaces(s[1..]);
      assert DropSpaces(s) == left;
      assert [' '] + rest + left == [' '] + (rest + left);
      assert s == [s[0]] + s[1..];
    } else {
      gap := "";
      assert "" + s == s;
    }
  }

  /** A command line is a word, spaces, an argument, spaces and the rest, with nothing lost. */
  lemma ArgumentsPartition(line: string) returns (word: string, gap: string, gap2: string)
    ensures line == word + gap + FirstArgument(line) + gap2 + SecondArgument(line)
    ensures ' ' !in word && ' ' !in FirstArgument(line) && AllSpaces(gap) && AllSpaces(gap2)
    ensures FirstArgument(line) != "" ==> gap != ""
    ensures SecondArgument(line) != "" ==> gap2 != "" && FirstArgument(line) != "" && SecondArgument(line)[0] != ' '
  {
    word := TakeWord(line);
    var afterWord := DropWord(line);
    WordIsPrefix(line);
    gap := SpacesArePrefix(afterWord);
    var args := DropSpaces(afterWord);
    WordIsPrefix(args);
    gap2 := SpacesArePrefix(DropWord(args));
    Regroup(word, gap, FirstArgument(line), gap2, SecondArgument(line));
  }

  lemma Regroup(a: string, b: string, c: string, d: string, e: string)
    ensures a + (b + (c + (d + e))) == a + b + c + d + e
  {
  }

  lemma {:induction false} WordOf(word: string, rest: string)
    requires ' ' !in word && (rest == "" || rest[0] == ' ')
    ensures TakeWord(word + rest) == word && DropWord(word + rest) == rest
    decreases |word|
  {
    if word == "" {
      assert word + rest == rest;
    } else {
      assert (word + rest)[1..] == word[1..] + rest;
      WordOf(word[1..], rest);
    }
  }

  lemma {:induction false} SpacesOf(gap: string, rest: string)
    requires AllSpaces(gap) && (rest == "" || rest[0] != ' ')
    ensures DropSpaces(gap + rest) == rest
    decreases |gap|
  {
    if gap == "" {
      assert gap + rest == rest;
    } else {
      assert (gap + rest)[1..] == gap[1..] + rest;
      SpacesOf(gap[1..], rest);
    }
  }

  /** There is only one such way to divide a command line. */
  lemma ArgumentsUnique(word: string, gap: string, first: string, gap2: string, second: string)
    requires ' ' !in word && ' ' !in first && AllSpaces(gap) && AllSpaces(gap2)
    requires first != "" ==> gap != ""
    requires second != "" ==> gap2 != "" && first != "" && second[0] != ' '
    ensures var line := word + gap + first + gap2 + second;
            FirstArgument(line) == first && SecondArgument(line) == second
  {
    var tail := gap2 + second;
    var args := first + tail;
    Regroup(word, gap, first, gap2, second);
    if first == "" {
      assert gap + args == gap + gap2 && AllSpaces(gap + gap2);
      WordOf(word, gap + gap2);
      SpacesOf(gap + gap2, "");
      assert gap + gap2 + "" == gap + gap2;
    } else {
      WordOf(word, gap + args);
      SpacesOf(gap, args);
      WordOf(first, tail);
      SpacesOf(gap2, second);
    }
  }

  // ---------------------------------------------------------------- paths

  /** `build_path` */
  function BuildPath(cwd: CString, relative: CString): CString
    requires cwd != ""
  {
    if relative != "" && relative[0] == '/' then relative
    else cwd + (if |cwd| > 1 then "/" else "") + relative
  }

  predicate Rooted(path: string) {
    path != "" && path[0] == '/'
  }

  /** The components of a joined path are those of both parts. */
  lemma JoinedComponents(cwd: CString, relative: CString)
    requires Rooted(cwd) && !Rooted(relative)
    ensures Rooted(BuildPath(cwd, relative))
    ensures Components(BuildPath(cwd, relative)) == Components(cwd) + Components(relative)
  {
    if |cwd| > 1 {
      ComponentsConcat(cwd, relative);
    } else {
      assert cwd == "/";
      ComponentsRooted(relative);
      ComponentsRooted("");
      ComponentsOfName("");
      assert "/" + "" == "/" && cwd + "" + relative == "/" + relative;
    }
  }

  /** The joined path itself: the argument alone, or both parts with one slash between them. */
  lemma JoinedText(cwd: CString, relative: CString)
    requires Rooted(cwd)
    ensures var full := BuildPath(cwd, relative);
            if Rooted(relative) then full == relative
            else
              var slash := if cwd == "/" then 0 else 1;
              && |full| == |cwd| + slash + |relative|
              && full[..|cwd|] == cwd && full[|cwd| + slash..] == relative
              && (slash == 1 ==> full[|cwd|] == '/')
  {
    assert |cwd| == 1 ==> cwd == "/";
  }

  /** A rooted argument stands for itself; any other is walked from the current directory. */
  lemma JoinedResolves(live: seq<Entry>, cwd: CString, relative: CString)
    requires Rooted(cwd)
    ensures var here := Resolve(live, cwd);
            Resolve(live, BuildPath(cwd, relative)) ==
            if Rooted(relative) then Resolve(live, relative)
            else if here < 0 then -1 else Walk(live, here, Components(relative))
  {
    if !Rooted(relative) {
      JoinedComponents(cwd, relative);
      WalkConcat(live, 0, Components(cwd), Components(relative));
    }
  }

  // ---------------------------------------------------------------- commands

  datatype Command =
    | NoCommand | Help | ClearScreen | Exit | TestFormatting | TestColors | Version | Color | Pwd
    | Ls | Cd | MakeDirectory | TouchFile | Remove | Unknown

  /** The order of the comparisons in `execute_command`; the later ones look at prefixes only. */
  function Classify(line: string): Command {
    if line == "" then NoCommand
    else if line == "help" then Help
    else if line == "clear" then ClearScreen
    else if line == "exit" then Exit
    else if line == "test-formatting" then TestFormatting
    else if line == "test-colors" then TestColors
    else if line == "version" then Version
    else if line == "color" then Color
    else if line == "pwd" then Pwd
    else if "ls" <= line then Ls
    else if "cd" <= line then Cd
    else if "mkdir" <= line then MakeDirectory
    else if "touch" <= line then TouchFile
    else if "rm" <= line then Remove
    else Unknown
  }

  datatype State = State(table: Table, cwd: CString)

  // ---------------------------------------------------------------- buffers

  lemma ArgumentsAreCStrings(line: CString)
    ensures NUL !in FirstArgument(line) && NUL !in SecondArgument(line)
    ensures |FirstArgument(line)| <= |line| && |SecondArgument(line)| <= |line|
  {
    var word, gap, gap2 := ArgumentsPartition(line);
  }

  /** The argument the file system commands work on. */
  function Argument(line: CString): (argument: CString)
    ensures |argument| <= |line|
  {
    ArgumentsAreCStrings(line);
    FirstArgument(line)
  }

  /** A current directory the kernel's buffers can hold. */
  ghost predicate Roomy(cwd: CString) {
    Rooted(cwd) && |cwd| < PATH_BUFFER && ComponentsFit(cwd)
  }

  /** Everything the path buffer, the tokeniser and the creating calls demand of a joined path. */
  ghost predicate RoomFor(cwd: CString, argument: CString)
    requires Rooted(cwd)
  {
    var full := BuildPath(cwd, argument);
    |full| < PATH_BUFFER && ComponentsFit(full) && CreatableHere(full)
  }

  lemma JoinedFits(cwd: CString, argument: CString)
    requires Roomy(cwd) && |argument| < MAX_FILENAME
    ensures ComponentsFit(BuildPath(cwd, argument)) && Rooted(BuildPath(cwd, argument))
  {
    ShortPathFits(argument);
    if !Rooted(argument) { JoinedComponents(cwd, argument); }
  }

  /** A path that fits splits into parts that fit. */
  lemma CreatablePath(path: CString)
    requires Rooted(path) && |path| < PATH_BUFFER && ComponentsFit(path)
    ensures CreatableHere(path)
  {
    PathParts(path);
    ComponentsOfName(BaseName(path));
    var above, name := Components(ParentPath(path)), BaseName(path);
    assert forall c :: c in above ==> c in Components(path);
    if name != "" { assert Components(path)[|above|] == name; }
  }

  /** All those demands come down to one: the joined path is shorter than its buffer. */
  lemma RoomForIff(cwd: CString, argument: CString)
    requires Roomy(cwd) && |argument| < MAX_FILENAME
    ensures RoomFor(cwd, argument) <==> |BuildPath(cwd, argument)| < 512
  {
    JoinedFits(cwd, argument);
    if |BuildPath(cwd, argument)| < PATH_BUFFER { CreatablePath(BuildPath(cwd, argument)); }
  }

  /** The line makes the kernel join its argument to the current directory. */
  predicate JoinsPath(line: CString) {
    match Classify(line)
    case Ls => Argument(line) != "" && Argument(line) != "."
    case Cd => Argument(line) != ""
    case MakeDirectory => Argument(line) != ""
    case TouchFile => Argument(line) != ""
    case Remove => Argument(line) != ""
    case _ => false
  }

  /** The path the line builds, if any, is shorter than the buffer it is built in. */
  predicate LineFits(cwd: CString, line: CString)
    requires Rooted(cwd)
  {
    JoinsPath(line) ==> |BuildPath(cwd, Argument(line))| < PATH_BUFFER
  }

  /** The lines that build a path, and the bound on it, in the words of the kernel. */
  lemma LineFitsIff(cwd: CString, line: CString)
    requires Rooted(cwd)
    ensures LineFits(cwd, line) <==>
            || Argument(line) == "" || ("ls" <= line && Argument(line) == ".")
            || !("ls" <= line || "cd" <= line || "mkdir" <= line || "touch" <= line || "rm" <= line)
            || |BuildPath(cwd, Argument(line))| < 512
  {
    CommandNames(line);
  }

  // ---------------------------------------------------------------- execution

  /** What every state of the shell satisfies. */
  ghost predicate Healthy(s: State) {
    Sound(s.table) && Roomy(s.cwd)
  }

  datatype Effect = NoEffect | Goto(path: CString) | Calls(call: Call)

  /** What a command line asks for. */
  function EffectOf(cwd: CString, line: CString): Effect
    requires Rooted(cwd)
  {
    var argument := Argument(line);
    var full := BuildPath(cwd, argument);
    match Classify(line)
    case Cd => Goto(if argument == "" then "/" else full)
    case MakeDirectory => if argument == "" then NoEffect else Calls(Mkdir(full))
    case TouchFile => if argument == "" then NoEffect else Calls(Touch(full))
    case Remove => if argument == "" then NoEffect else Calls(Delete(full))
    case _ => NoEffect
  }

  /** A call is always on the joined path. */
  lemma CallIsOnJoinedPath(cwd: CString, line: CString)
    requires Rooted(cwd) && EffectOf(cwd, line).Calls?
    ensures JoinsPath(line) && !EffectOf(cwd, line).call.Write?
    ensures EffectOf(cwd, line).call.path == BuildPath(cwd, Argument(line))
  {
  }

  lemma CallFits(cwd: CString, line: CString)
    requires Roomy(cwd) && |line| < MAX_FILENAME && LineFits(cwd, line) && EffectOf(cwd, line).Calls?
    ensures Fits(EffectOf(cwd, line).call)
  {
    CallIsOnJoinedPath(cwd, line);
    RoomForIff(cwd, Argument(line));
  }

  lemma GotoIsJoinedOrRoot(cwd: CString, line: CString)
    requires Rooted(cwd) && EffectOf(cwd, line).Goto?
    ensures var path := EffectOf(cwd, line).path;
            path == "/" || (JoinsPath(line) && path == BuildPath(cwd, Argument(line)))
  {
  }

  lemma GotoIsRoomy(cwd: CString, line: CString)
    requires Roomy(cwd) && |line| < MAX_FILENAME && LineFits(cwd, line) && EffectOf(cwd, line).Goto?
    ensures Roomy(EffectOf(cwd, line).path)
  {
    GotoIsJoinedOrRoot(cwd, line);
    if EffectOf(cwd, line).path == "/" {
      ShortPathFits("/");
    } else {
      JoinedFits(cwd, Argument(line));
    }
  }

  ghost predicate LeadsToDirectory(live: seq<Entry>, path: string) {
    var i := Resolve(live, path);
    0 <= i < |live| && live[i].kind == Directory
  }

  ghost predicate IsDirectory(s: State, path: string)
    requires Sound(s.table)
  {
    LeadsToDirectory(Live(s.table), path)
  }

  /** The state after a command line. */
  ghost function Execute(s: State, line: CString): (after: State)
    requires Healthy(s) && |line| < MAX_FILENAME && LineFits(s.cwd, line)
    ensures Healthy(after)
  {
    match EffectOf(s.cwd, line)
    case NoEffect => s
    case Goto(path) =>
      GotoIsRoomy(s.cwd, line);
      if IsDirectory(s, path) then s.(cwd := path) else s
    case Calls(call) =>
      CallFits(s.cwd, line);
      CallKeepsSound(s.table, call);
      s.(table := Perform(s.table, call).table)
  }

  /** Which lines are file system commands: those that begin with the command's name. */
  lemma CommandNames(line: CString)
    ensures Classify(line) == Ls <==> "ls" <= line
    ensures Classify(line) == Cd <==> "cd" <= line
    ensures Classify(line) == MakeDirectory <==> "mkdir" <= line
    ensures Classify(line) == TouchFile <==> "touch" <= line
    ensures Classify(line) == Remove <==> "rm" <= line
  {
    assert "ls" <= line ==> line[0] == 'l';
    assert "cd" <= line ==> line[0] == 'c' && line[1] == 'd';
    assert "mkdir" <= line ==> line[0] == 'm';
    assert "touch" <= line ==> line[0] == 't' && line[1] == 'o';
    assert "rm" <= line ==> line[0] == 'r';
  }

  /** What a command line with this division into words does to the state. */
  ghost predicate Does(s: State, line: CString, argument: CString, after: State)
    requires Healthy(s)
  {
    var full := BuildPath(s.cwd, argument);
    if "cd" <= line && argument == "" then after == s.(cwd := "/")
    else if "cd" <= line then
      after == if LeadsToDirectory(Live(s.table), full) then s.(cwd := full) else s
    else if "mkdir" <= line && argument != "" then
      full != "" && after == s.(table := CreatePath(s.table, full, Directory).table)
    else if "touch" <= line && argument != "" then
      full != "" && after == s.(table := TouchPath(s.table, full, Regular).table)
    else if "rm" <= line && argument != "" then
      after == s.(table := DeletePath(s.table, full).table)
    else after == s
  }

  lemma RootLeadsToDirectory(t: Table)
    requires Sound(t)
    ensures LeadsToDirectory(Live(t), "/")
  {
  }

  lemma OneCommand(line: CString)
    ensures "cd" <= line ==> !("mkdir" <= line) && !("touch" <= line) && !("rm" <= line)
    ensures "mkdir" <= line ==> !("touch" <= line) && !("rm" <= line)
    ensures "touch" <= line ==> !("rm" <= line)
  {
    assert "cd" <= line ==> line[0] == 'c';
    assert "mkdir" <= line ==> line[0] == 'm';
    assert "touch" <= line ==> line[0] == 't';
    assert "rm" <= line ==> line[0] == 'r';
  }

  lemma ChangingLine(s: State, line: CString)
    requires Healthy(s) && |line| < MAX_FILENAME && LineFits(s.cwd, line) && Classify(line) == Cd && "cd" <= line
    ensures Does(s, line, Argument(line), Execute(s, line))
  {
    RootLeadsToDirectory(s.table);
  }

  lemma CalledFor(cwd: CString, line: CString)
    requires Rooted(cwd) && EffectOf(cwd, line).Calls?
    ensures var full := BuildPath(cwd, Argument(line));
            && Argument(line) != "" && !("cd" <= line) && ("mkdir" <= line || "touch" <= line || "rm" <= line)
            && EffectOf(cwd, line).call ==
               if "mkdir" <= line then Mkdir(full) else if "touch" <= line then Touch(full) else Delete(full)
  {
    CommandNames(line);
    OneCommand(line);
  }

  lemma CallingLine(s: State, line: CString)
    requires Healthy(s) && |line| < MAX_FILENAME && LineFits(s.cwd, line) && EffectOf(s.cwd, line).Calls?
    ensures Does(s, line, Argument(line), Execute(s, line))
  {
    CalledFor(s.cwd, line);
    CallFits(s.cwd, line);
    var call := EffectOf(s.cwd, line).call;
    assert Execute(s, line) == s.(table := Perform(s.table, call).table);
  }

  lemma IdleLine(s: State, line: CString)
    requires Healthy(s) && |line| < MAX_FILENAME && LineFits(s.cwd, line) && EffectOf(s.cwd, line).NoEffect?
    ensures Does(s, line, Argument(line), Execute(s, line))
  {
    CommandNames(line);
  }

  /** What every command line does, from any current directory. */
  lemma ExecuteDoes(s: State, line: CString, word: string, gap: string, argument: CString, gap2: string, rest: string)
    requires Healthy(s) && |line| < MAX_FILENAME && LineFits(s.cwd, line)
    requires line == word + gap + argument + gap2 + rest
    requires ' ' !in word && ' ' !in argument && AllSpaces(gap) && AllSpaces(gap2)
    requires argument != "" ==> gap != ""
    requires rest != "" ==> gap2 != "" && argument != "" && rest[0] != ' '
    ensures Does(s, line, argument, Execute(s, line))
  {
    ArgumentsUnique(word, gap, argument, gap2, rest);
    match EffectOf(s.cwd, line)
    case NoEffect => IdleLine(s, line);
    case Goto(path) =>
      CommandNames(line);
      ChangingLine(s, line);
    case Calls(call) => CallingLine(s, line);
  }

  /** A command line that cannot spoil the tree. */
  ghost predicate TidyLine(s: State, line: CString)
    requires Healthy(s)
  {
    match EffectOf(s.cwd, line)
    case Calls(call) => call.path != "" && Tidy(s.table, call)
    case _ => true
  }

  /** The line removes the current directory itself. */
  ghost predicate RemovesHere(s: State, line: CString)
    requires Healthy(s)
  {
    var effect, live := EffectOf(s.cwd, line), Live(s.table);
    && effect.Calls? && effect.call.Delete?
    && Resolve(live, effect.call.path) == Resolve(live, s.cwd)
    && Removable(live, Resolve(live, s.cwd))
  }

  lemma TidyLineKeepsTree(s: State, line: CString)
    requires Healthy(s) && |line| < MAX_FILENAME && LineFits(s.cwd, line)
    requires WellFormed(Live(s.table)) && TidyLine(s, line)
    ensures WellFormed(Live(Execute(s, line).table))
  {
    if EffectOf(s.cwd, line).Calls? {
      CallFits(s.cwd, line);
      TidyCallKeepsTree(s.table, EffectOf(s.cwd, line).call);
    }
  }

  // ---------------------------------------------------------------- staying in a directory

  /**
   The line deletes a slot, and with the surviving entries hung where they land, the current
   directory path no longer leads to a directory.
   */
  ghost predicate Strands(s: State, line: CString)
    requires Healthy(s)
  {
    var effect, live := EffectOf(s.cwd, line), Live(s.table);
    && effect.Calls? && effect.call.Delete?
    && var d := Resolve(live, effect.call.path);
       d > 0 && Deletable(live, d) && !LeadsToDirectory(Relocated(live, d), s.cwd)
  }

  lemma CreationKeepsDirectory(s: State, path: CString, kind: FileType)
    requires Healthy(s) && IsDirectory(s, s.cwd) && path != "" && kind != Unused && |BaseName(path)| < MAX_FILENAME
    ensures var after := s.(table := TouchPath(s.table, path, kind).table);
            Sound(after.table) && IsDirectory(after, after.cwd)
  {
    var t, o := s.table, TouchPath(s.table, path, kind);
    CreationKeepsOrder(t, path, kind);
    if o.code >= 0 {
      CreationAppends(t, path, kind);
      var e := NewEntry(t, BaseName(path), kind, Resolve(Live(t), ParentPath(path)));
      WalkAfterAppend(Live(t), e, Components(s.cwd));
      assert (Live(t) + [e])[Resolve(Live(t), s.cwd)] == t.slots[Resolve(Live(t), s.cwd)];
    }
  }

  lemma CreatingCallKeepsDirectory(s: State, call: Call)
    requires Healthy(s) && IsDirectory(s, s.cwd) && Fits(call) && !call.Write? && !call.Delete?
    ensures var after := s.(table := Perform(s.table, call).table);
            Sound(after.table) && IsDirectory(after, after.cwd)
  {
    match call
    case Mkdir(path) => CreationKeepsDirectory(s, path, Directory);
    case Create(path) => CreationKeepsDirectory(s, path, Regular);
    case Touch(path) => CreationKeepsDirectory(s, path, Regular);
  }

  /** A compacted table leads to a directory exactly where the relocated one does. */
  lemma DirectoryAfterCompaction(live: seq<Entry>, d: nat, path: string)
    requires Ordered(live) && 1 <= d < |live|
    ensures LeadsToDirectory(Compacted(live, d), path) <==> LeadsToDirectory(Relocated(live, d), path)
  {
    PathsAfterDeletion(live, d, path);
    var i := Resolve(Relocated(live, d), path);
    if i >= 0 { CompactionHalves(live, d, i); }
  }

  lemma DeletionKeepsDirectoryIff(s: State, path: CString)
    requires Healthy(s) && IsDirectory(s, s.cwd)
    ensures var after := s.(table := DeletePath(s.table, path).table);
            var live, d := Live(s.table), Resolve(Live(s.table), path);
            && Sound(after.table)
            && (IsDirectory(after, after.cwd) <==>
                !(d > 0 && Deletable(live, d) && !LeadsToDirectory(Relocated(live, d), s.cwd)))
  {
    DeletionKeepsSound(s.table, path);
    DeletedLive(s.table, path);
    var d := Resolve(Live(s.table), path);
    if d > 0 { DirectoryAfterCompaction(Live(s.table), d, s.cwd); }
  }

  /**
   Whatever the table, any line leaves the shell in an existing directory, unless it deletes
   a slot that takes the current directory with it.
   */
  lemma StaysInDirectoryIff(s: State, line: CString)
    requires Healthy(s) && |line| < MAX_FILENAME && LineFits(s.cwd, line) && IsDirectory(s, s.cwd)
    ensures IsDirectory(Execute(s, line), Execute(s, line).cwd) <==> !Strands(s, line)
  {
    var effect := EffectOf(s.cwd, line);
    if effect.Calls? {
      CallFits(s.cwd, line);
      CallIsOnJoinedPath(s.cwd, line);
      if effect.call.Delete? {
        DeletionKeepsDirectoryIff(s, effect.call.path);
      } else {
        CreatingCallKeepsDirectory(s, effect.call);
      }
    }
  }

  lemma TidyDeletionKeepsDirectoryIff(s: State, path: CString)
    requires Healthy(s) && WellFormed(Live(s.table)) && IsDirectory(s, s.cwd) && Tidy(s.table, Delete(path))
    ensures var after := s.(table := DeletePath(s.table, path).table);
            var d := Resolve(Live(s.table), s.cwd);
            && Sound(after.table)
            && (IsDirectory(after, after.cwd) <==>
                !(Resolve(Live(s.table), path) == d && Removable(Live(s.table), d)))
  {
    DeletionKeepsSound(s.table, path);
    DeletionSucceedsIff(s.table, path);
    var o, live := DeletePath(s.table, path), Live(s.table);
    if o.code >= 0 {
      TidyDeletion(s.table, path);
      var d, i := Resolve(live, path), Resolve(live, s.cwd);
      assert Resolve(Live(o.table), s.cwd) == Moved(i, d);
      if i != d {
        assert Source(Moved(i, d), d) == i;
        assert Live(o.table)[Moved(i, d)] == Removed(live, d)[Moved(i, d)];
      }
    }
  }

  /** For a tidy line in a tree, that comes down to removing the current directory itself. */
  lemma TidyLineStaysIff(s: State, line: CString)
    requires Healthy(s) && |line| < MAX_FILENAME && LineFits(s.cwd, line) && IsDirectory(s, s.cwd)
    requires WellFormed(Live(s.table)) && TidyLine(s, line)
    ensures IsDirectory(Execute(s, line), Execute(s, line).cwd) <==> !RemovesHere(s, line)
    ensures Strands(s, line) <==> RemovesHere(s, line)
  {
    StaysInDirectoryIff(s, line);
    var effect := EffectOf(s.cwd, line);
    if effect.Calls? && effect.call.Delete? { TidyDeletionKeepsDirectoryIff(s, effect.call.path); }
  }

  // ---------------------------------------------------------------- sessions

  ghost predicate ShortLines(lines: seq<CString>) {
    forall k :: 0 <= k < |lines| ==> |lines[k]| < MAX_FILENAME
  }

  /** Every line's path fits its buffer when the line is reached. */
  ghost predicate SessionFits(s: State, lines: seq<CString>)
    requires Healthy(s) && ShortLines(lines)
    decreases |lines|
  {
    lines == [] || (LineFits(s.cwd, lines[0]) && SessionFits(Execute(s, lines[0]), lines[1..]))
  }

  /** The state after a sequence of command lines. */
  ghost function Session(s: State, lines: seq<CString>): (after: State)
    requires Healthy(s) && ShortLines(lines) && SessionFits(s, lines)
    ensures Healthy(after)
    decreases |lines|
  {
    if lines == [] then s else Session(Execute(s, lines[0]), lines[1..])
  }

  /** A session in two parts. */
  lemma {:induction false} SessionConcat(s: State, first: seq<CString>, second: seq<CString>)
    requires Healthy(s) && ShortLines(first) && ShortLines(second) && SessionFits(s, first)
    ensures ShortLines(first + second)
    ensures SessionFits(s, first + second) <==> SessionFits(Session(s, first), second)
    ensures SessionFits(s, first + second) ==>
              Session(s, first + second) == Session(Session(s, first), second)
    decreases |first|
  {
    if first == [] {
      assert first + second == second;
    } else {
      assert (first + second)[0] == first[0] && (first + second)[1..] == first[1..] + second;
      SessionConcat(Execute(s, first[0]), first[1..], second);
    }
  }

  /** Before the first line and after every one, the shell is in an existing directory. */
  ghost predicate AlwaysInDirectory(s: State, lines: seq<CString>)
    requires Healthy(s) && ShortLines(lines) && SessionFits(s, lines)
    decreases |lines|
  {
    IsDirectory(s, s.cwd) && (lines == [] || AlwaysInDirectory(Execute(s, lines[0]), lines[1..]))
  }

  ghost predicate NeverStrands(s: State, lines: seq<CString>)
    requires Healthy(s) && ShortLines(lines) && SessionFits(s, lines)
    decreases |lines|
  {
    lines == [] || (!Strands(s, lines[0]) && NeverStrands(Execute(s, lines[0]), lines[1..]))
  }

  /** A session keeps the shell in existing directories exactly when no line of it strands it. */
  lemma {:induction false} SessionStaysIff(s: State, lines: seq<CString>)
    requires Healthy(s) && ShortLines(lines) && SessionFits(s, lines) && IsDirectory(s, s.cwd)
    ensures AlwaysInDirectory(s, lines) <==> NeverStrands(s, lines)
    decreases |lines|
  {
    if lines != [] {
      StaysInDirectoryIff(s, lines[0]);
      var after := Execute(s, lines[0]);
      if IsDirectory(after, after.cwd) { SessionStaysIff(after, lines[1..]); }
    }
  }

  ghost predicate TidySession(s: State, lines: seq<CString>)
    requires Healthy(s) && ShortLines(lines) && SessionFits(s, lines)
    decreases |lines|
  {
    lines == [] ||
    (TidyLine(s, lines[0]) && !RemovesHere(s, lines[0]) && TidySession(Execute(s, lines[0]), lines[1..]))
  }

  /** Tidy sessions keep the tree, and never strand the shell outside it. */
  lemma {:induction false} TidySessionKeepsTree(s: State, lines: seq<CString>)
    requires Healthy(s) && ShortLines(lines) && SessionFits(s, lines) && TidySession(s, lines)
    requires WellFormed(Live(s.table)) && IsDirectory(s, s.cwd)
    ensures var after := Session(s, lines);
            WellFormed(Live(after.table)) && IsDirectory(after, after.cwd)
    decreases |lines|
  {
    if lines != [] {
      TidyLineKeepsTree(s, lines[0]);
      TidyLineStaysIff(s, lines[0]);
      TidySessionKeepsTree(Execute(s, lines[0]), lines[1..]);
    }
  }
}
