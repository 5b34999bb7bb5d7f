/**
 The command interpreter in the form the kernel runs it: fixed argument and path buffers,
 a current directory, and the file system it acts on.  Proved against `Shell`.
 */
module Terminal {
  import opened CStrings
  import opened Paths
  import opened FileTable
  import opened Listing
  import opened Operations
  import opened Runs
  import opened FileSystem
  import opened Shell

  /** `parse_args` */
  method ParseArgs(cmd: CString, arg1: array<char>, arg2: array<char>)
    requires arg1 != arg2
    requires |FirstArgument(cmd)| < arg1.Length && |SecondArgument(cmd)| < arg2.Length
    modifies arg1, arg2
    ensures Text(arg1[..]) == FirstArgument(cmd)
    ensures Text(arg2[..]) == SecondArgument(cmd)
  {
    ArgumentsAreCStrings(cmd);
    var p := SkipWord(cmd);
    p := SkipSpaces(cmd, p);
    p := CopyWord(cmd, p, arg1);
    p := SkipSpaces(cmd, p);
    SetText(arg2, cmd[p..]);
  }

  method SkipWord(cmd: CString) returns (p: nat)
    ensures p <= |cmd| && cmd[p..] == DropWord(cmd)
  {
    p := 0;
    assert cmd[0..] == cmd;
    while At(cmd, p) != NUL && At(cmd, p) != ' '
      invariant p <= |cmd| && DropWord(cmd[p..]) == DropWord(cmd)
      decreases |cmd| - p
    {
      assert cmd[p..][1..] == cmd[p + 1..];
      p := p + 1;
    }
  }

  method SkipSpaces(cmd: CString, start: nat) returns (p: nat)
    requires start <= |cmd|
    ensures start <= p <= |cmd| && cmd[p..] == DropSpaces(cmd[start..])
  {
    p := start;
    while At(cmd, p) == ' '
      invariant start <= p <= |cmd| && DropSpaces(cmd[p..]) == DropSpaces(cmd[start..])
      decreases |cmd| - p
    {
      assert cmd[p..][1..] == cmd[p + 1..];
      p := p + 1;
    }
  }

  /** Inside a word, one more character is taken and the rest stays. */
  lemma WordGoesOn(cmd: CString, start: nat, p: nat)
    requires start <= p < |cmd| && cmd[p] != ' '
    requires TakeWord(cmd[start..]) == cmd[start..p] + TakeWord(cmd[p..])
    ensures TakeWord(cmd[start..]) == cmd[start..p + 1] + TakeWord(cmd[p + 1..])
    ensures DropWord(cmd[p..]) == DropWord(cmd[p + 1..]) && |TakeWord(cmd[start..])| > p - start
    ensures cmd[start..p + 1] == cmd[start..p] + [cmd[p]]
  {
    assert cmd[p..][1..] == cmd[p + 1..];
    assert cmd[start..p] + ([cmd[p]] + TakeWord(cmd[p + 1..])) == cmd[start..p + 1] + TakeWord(cmd[p + 1..]);
  }

  /** Copies one word and terminates it. */
  method CopyWord(cmd: CString, start: nat, buffer: array<char>) returns (p: nat)
    requires start <= |cmd| && |TakeWord(cmd[start..])| < buffer.Length
    modifies buffer
    ensures start <= p <= |cmd| && cmd[p..] == DropWord(cmd[start..])
    ensures Text(buffer[..]) == TakeWord(cmd[start..])
  {
    p := start;
    while At(cmd, p) != NUL && At(cmd, p) != ' '
      invariant start <= p <= |cmd| && p - start < buffer.Length
      invariant DropWord(cmd[p..]) == DropWord(cmd[start..])
      invariant TakeWord(cmd[start..]) == cmd[start..p] + TakeWord(cmd[p..])
      invariant buffer[..p - start] == cmd[start..p]
      decreases |cmd| - p
    {
      WordGoesOn(cmd, start, p);
      buffer[p - start] := cmd[p];
      p := p + 1;
    }
    buffer[p - start] := NUL;
    assert Holds(buffer[..], cmd[start..p]);
    HoldsText(buffer[..], cmd[start..p]);
  }

  /** The directory part of a path, copied to a buffer of its own. */
  method CopyParent(path: CString, lastSlash: nat) returns (parentPath: array<char>)
    requires CreatableHere(path) && lastSlash == LastSlash(path)
    ensures fresh(parentPath) && Text(parentPath[..]) == ParentPath(path)
  {
    parentPath := new char[PATH_BUFFER](i => NUL);
    StrNCpy(parentPath, path, lastSlash);
    if parentPath[0] == NUL {
      SetText(parentPath, "/");
    } else {
      assert Holds(parentPath[..], path[..lastSlash]);
      HoldsText(parentPath[..], path[..lastSlash]);
    }
  }

  class Interpreter {
    const fs: FileSystem
    var currentDir: CString

    constructor (f: FileSystem)
      ensures fs == f && currentDir == "/"
    {
      fs, currentDir := f, "/";
    }

    ghost predicate Valid()
      reads this, fs, fs.files
    {
      fs.Valid() && Healthy(Value())
    }

    ghost function Value(): State
      reads this, fs, fs.files
    {
      State(fs.Value(), currentDir)
    }

    /** `build_path`, in the caller's buffer. */
    method BuildFullPath(relative: CString, fullPath: array<char>)
      requires Rooted(currentDir) && |BuildPath(currentDir, relative)| < fullPath.Length
      modifies fullPath
      ensures Text(fullPath[..]) == BuildPath(currentDir, relative)
    {
      if At(relative, 0) == '/' {
        SetText(fullPath, relative);
      } else {
        SetText(fullPath, currentDir);
        ghost var so: CString := currentDir;
        if At(currentDir, 1) != NUL {
          StrCat(fullPath, "/", so);
          so := so + "/";
        } else {
          assert so + "" == so;
        }
        StrCat(fullPath, relative, so);
        HoldsText(fullPath[..], so + relative);
      }
    }

    /** The body of the `cd` command once the path is built. */
    method ChangeDirectory(path: CString)
      requires Valid() && Roomy(path)
      modifies this`currentDir
      ensures Valid()
      ensures currentDir == if IsDirectory(old(Value()), path) then path else old(currentDir)
    {
      var index := fs.ParsePath(path);
      if index >= 0 && fs.files[index].kind == Directory {
        currentDir := path;
      }
    }

    /** The body of the `touch` command once the path is built. */
    method TouchAt(path: CString)
      requires Valid() && CreatableHere(path)
      modifies fs`fileCount, fs.files
      ensures fs.Valid() && fs.Value() == TouchPath(old(fs.Value()), path, Regular).table
    {
      var lastSlash := FindLastSlash(path);
      var parentPath := CopyParent(path, lastSlash);
      var parent := fs.ParsePath(Text(parentPath[..]));
      if parent >= 0 {
        var code := fs.CreateFile(path[lastSlash + 1..], Regular, parent);
      }
    }

    /** Which of the file system commands a line is, by the kernel's comparisons. */
    method Recognise(line: CString) returns (command: Command)
      ensures command == Classify(line)
    {
      if line == "" { return NoCommand; }
      var same := StrEqual(line, "help");
      if same { return Help; }
      same := StrEqual(line, "clear");
      if same { return ClearScreen; }
      same := StrEqual(line, "exit");
      if same { return Exit; }
      same := StrEqual(line, "test-formatting");
      if same { return TestFormatting; }
      same := StrEqual(line, "test-colors");
      if same { return TestColors; }
      same := StrEqual(line, "version");
      if same { return Version; }
      same := StrEqual(line, "color");
      if same { return Color; }
      same := StrEqual(line, "pwd");
      if same { return Pwd; }
      command := RecognisePrefix(line);
    }

    method RecognisePrefix(line: CString) returns (command: Command)
      ensures command == if "ls" <= line then Ls else if "cd" <= line then Cd
                         else if "mkdir" <= line then MakeDirectory else if "touch" <= line then TouchFile
                         else if "rm" <= line then Remove else Unknown
    {
      var yes := StartsWith(line, "ls");
      if yes { return Ls; }
      yes := StartsWith(line, "cd");
      if yes { return Cd; }
      yes := StartsWith(line, "mkdir");
      if yes { return MakeDirectory; }
      yes := StartsWith(line, "touch");
      if yes { return TouchFile; }
      yes := StartsWith(line, "rm");
      if yes { return Remove; }
      return Unknown;
    }

    /** `execute_command`, without the messages it prints. */
    method ExecuteCommand(line: CString)
      requires Valid() && |line| < MAX_FILENAME && LineFits(currentDir, line)
      modifies this`currentDir, fs`fileCount, fs.files
      ensures Valid() && Value() == Execute(old(Value()), line)
    {
      var command := Recognise(line);
      if command !in {Cd, MakeDirectory, TouchFile, Remove} { return; }
      var argument := ReadArgument(line);
      if argument == "" {
        if command == Cd {
          RootIsDirectory(Value());
          ShortPathFits("/");
          currentDir := "/";
        }
        return;
      }
      var fullPath := new char[PATH_BUFFER](i => NUL);
      BuildFullPath(argument, fullPath);
      RunOn(command, Text(fullPath[..]), line);
    }

    /** The first argument, by way of the argument buffers. */
    method ReadArgument(line: CString) returns (argument: CString)
      requires |line| < MAX_FILENAME
      ensures argument == Argument(line)
    {
      var arg1 := new char[MAX_FILENAME](i => NUL);
      var arg2 := new char[MAX_FILENAME](i => NUL);
      ArgumentsAreCStrings(line);
      ParseArgs(line, arg1, arg2);
      argument := Text(arg1[..]);
    }

    /** The command applied to its full path. */
    method RunOn(command: Command, path: CString, ghost line: CString)
      requires Valid() && |line| < MAX_FILENAME && LineFits(currentDir, line) && Argument(line) != ""
      requires command == Classify(line) && command in {Cd, MakeDirectory, TouchFile, Remove}
      requires path == BuildPath(currentDir, Argument(line))
      modifies this`currentDir, fs`fileCount, fs.files
      ensures Valid() && Value() == Execute(old(Value()), line)
    {
      RoomForIff(currentDir, Argument(line));
      JoinedFits(currentDir, Argument(line));
      if command == Cd {
        ChangeDirectory(path);
      } else {
        CallFits(currentDir, line);
        RunCall(if command == MakeDirectory then Mkdir(path) else if command == TouchFile then Touch(path)
                else Delete(path));
      }
    }

    /** The file system call of a command. */
    method RunCall(call: Call)
      requires Valid() && Fits(call) && (call.Mkdir? || call.Touch? || call.Delete?)
      modifies fs`fileCount, fs.files
      ensures Valid() && fs.Value() == Perform(old(fs.Value()), call).table
    {
      CallKeepsSound(fs.Value(), call);
      if call.Mkdir? {
        var code := fs.CreateAt(call.path, Directory);
      } else if call.Touch? {
        TouchAt(call.path);
      } else {
        var code := fs.DeleteFile(call.path);
      }
    }

    /** The `ls` command: the listing it prints, or nothing if the path is no directory. */
    method ListCommand(line: CString) returns (listing: string)
      requires Valid() && |line| < MAX_FILENAME && Classify(line) == Ls && LineFits(currentDir, line)
      ensures var argument := Argument(line);
              var path := if argument == "" || argument == "." then currentDir else BuildPath(currentDir, argument);
              var live := Live(fs.Value());
              listing == if IsDirectory(Value(), path) then Lines(live, Children(live, Resolve(live, path))) else ""
    {
      var fullPath := new char[PATH_BUFFER](i => NUL);
      var argument := ReadArgument(line);
      var dot := StrEqual(argument, ".");
      if argument == "" || dot {
        SetText(fullPath, currentDir);
      } else {
        JoinedFits(currentDir, argument);
        BuildFullPath(argument, fullPath);
      }
      listing := ListPath(Text(fullPath[..]));
    }

    /** Lists into the buffer `ls` provides, which is always large enough. */
    method ListPath(path: CString) returns (listing: string)
      requires Valid() && ComponentsFit(path)
      ensures var live := Live(fs.Value());
              listing == if IsDirectory(Value(), path) then Lines(live, Children(live, Resolve(live, path))) else ""
    {
      var buffer := new char[LS_BUFFER];
      var count := fs.ListDir(path, buffer, LS_BUFFER);
      if count < 0 { return ""; }
      ghost var live := Live(fs.Value());
      ghost var children := Children(live, Resolve(live, path));
      LsNeverTruncates(live, Resolve(live, path), LS_BUFFER, count);
      assert children[..count] == children;
      return Text(buffer[..]);
    }
  }

  lemma RootIsDirectory(s: State)
    requires Healthy(s)
    ensures IsDirectory(s, "/")
  {
  }
}
