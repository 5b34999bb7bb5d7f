/**
 Concrete inputs at which the file system and the shell do not do what one would expect:
 a nameless entry, a name that loses its first letter, a shell left in a removed directory,
 and a path that outgrows its buffer.
 */
module Witnesses {
  import opened CStrings
  import opened Paths
  import opened FileTable
  import opened Operations
  import opened Creation
  import opened Runs
  import opened Misplacement
  import opened Shell

  // ---------------------------------------------------------------- creating

  const ROOT_D := [ROOT, D]

  lemma TrailingSlash(path: CString)
    requires path == "/d/"
    ensures ParentPath(path) == "/d" && BaseName(path) == "" && CreatableHere(path)
  {
    assert path[2] == '/' && LastSlash(path) == 2;
    assert path[..2] == "/d" && path[3..] == "";
    ShortPathFits("/d");
  }

  lemma DIsSlotOne(live: seq<Entry>, nodes: seq<Node>)
    requires Shows(live, nodes) && nodes == ROOT_D
    ensures Resolve(live, "/d") == 1 && live[1].kind == Directory
  {
    assert Node(live[0].name, live[0].kind, live[0].parent) == nodes[0];
    assert Node(live[1].name, live[1].kind, live[1].parent) == nodes[1];
    assert Matches(live[1], 0, "d") && !Matches(live[0], 0, "d");
    ChildPath("/d", "d");
    WalkLast(live, 0, [], "d");
    assert [] + ["d"] == ["d"];
  }

  lemma TouchSpoils(t: Table, touch: Call)
    requires Sound(t) && WellFormed(Live(t)) && Shows(Live(t), ROOT_D) && touch == Touch("/d/")
    ensures Fits(touch) && Sound(Perform(t, touch).table) && !WellFormed(Live(Perform(t, touch).table))
  {
    TrailingSlash(touch.path);
    DIsSlotOne(Live(t), ROOT_D);
    assert t.slots[1] == Live(t)[1];
    CallKeepsSound(t, touch);
    CreationKeepsTreeIff(t, touch.path, Regular);
  }

  /** mkdir /d; touch /d/ ends without a tree, from any formatted table. */
  lemma TouchCanSpoilTree(t: Table, mkdir: Call, touch: Call, calls: seq<Call>)
    requires Shaped(t) && mkdir == Mkdir("/d") && touch == Touch("/d/") && calls == [mkdir] + [touch]
    ensures Sound(Formatted(t)) && WellFormed(Live(Formatted(t))) && AllFit(calls)
    ensures !WellFormed(Live(Run(Formatted(t), calls)))
  {
    FormattedIsTree(t);
    var start, nodes := Formatted(t), [ROOT];
    assert Addable(nodes, mkdir, D);
    var after := Grow(start, nodes, mkdir, D);
    assert nodes + [D] == ROOT_D;
    TidyCallKeepsTree(start, mkdir);
    TouchSpoils(after, touch);
    RunCons(after, touch, []);
    assert [touch] + [] == [touch];
    RunCons(start, mkdir, [touch]);
  }

  lemma OnlyRoot(t: Table, name: string)
    requires Shaped(t) && name != ""
    ensures Find(Live(Formatted(t)), 0, name) < 0 && Live(Formatted(t))[0].kind == Directory
  {
  }

  lemma NoSlash(path: CString)
    requires path == "ab"
    ensures ParentPath(path) == "/" && BaseName(path) == "b" && '/' !in path
    ensures Components(path) == ["ab"] && Components("/b") == ["b"] && Components(ParentPath(path)) == []
  {
    ComponentsOfName(path);
    ChildPath("/b", "b");
    RootPath();
    assert path[1..] == "b";
  }

  /** mkdir of "ab", without a slash, creates b in the root; "ab" does not resolve. */
  lemma MkdirCanDropLetter(t: Table, path: CString)
    requires Shaped(t) && path == "ab"
    ensures Shaped(Formatted(t))
    ensures var o := CreatePath(Formatted(t), path, Directory);
            && o.code == 1 && o.table.count <= |o.table.slots|
            && Resolve(Live(o.table), "/b") == 1 && Resolve(Live(o.table), path) == -1
  {
    FormattedIsTree(t);
    var start := Formatted(t);
    NoSlash(path);
    OnlyRoot(t, "b");
    OnlyRoot(t, "ab");
    WalkLast(Live(start), 0, [], "b");
    WalkLast(Live(start), 0, [], "ab");
    assert [] + ["b"] == ["b"] && [] + ["ab"] == ["ab"];
    CreationSucceedsIff(start, path, Directory);
    CreationAppends(start, path, Directory);
    CreationExtendsPaths(start, path, Directory);
    assert NamesIt(path, "/b") && !NamesIt(path, path);
  }

  // ---------------------------------------------------------------- command lines

  lemma ArgumentOf(line: CString, word: string, argument: string)
    requires line == word + " " + argument && ' ' !in word && ' ' !in argument && argument != ""
    ensures Argument(line) == argument
  {
    ArgumentsUnique(word, " ", argument, "", "");
    assert word + " " + argument + "" + "" == line;
  }

  lemma IsMkdir(line: CString, argument: string)
    requires line == "mkdir" + " " + argument
    ensures Classify(line) == MakeDirectory
  {
    assert line[0] == 'm' && line[..5] == "mkdir";
  }

  lemma IsCd(line: CString, argument: string)
    requires line == "cd" + " " + argument
    ensures Classify(line) == Cd
  {
    assert line[0] == 'c' && line[1] == 'd' && line[..2] == "cd";
  }

  lemma IsRm(line: CString, argument: string)
    requires line == "rm" + " " + argument
    ensures Classify(line) == Remove
  {
    assert line[0] == 'r' && line[..2] == "rm";
  }

  lemma IsLs(line: CString, argument: string)
    requires line == "ls" + " " + argument
    ensures Classify(line) == Ls
  {
    assert line[0] == 'l' && line[..2] == "ls";
  }

  lemma NameThenSlashes(argument: string, name: string, slashes: string)
    requires argument == name + slashes && name != "" && '/' !in name && AllSlashes(slashes)
    ensures Components(argument) == [name]
  {
    assert NextToken(argument, name, slashes) by {
      assert AllSlashes("") && argument == "" + name + slashes;
    }
    TokenIsFirstComponent(argument, name, slashes);
    SlashesHaveNoComponents(slashes, "");
    ComponentsOfName("");
    assert slashes + "" == slashes;
  }

  /** A joined path whose argument is a bare name ends in that name. */
  lemma JoinedParts(cwd: CString, name: CString)
    requires Rooted(cwd) && name == "d"
    ensures var full := BuildPath(cwd, name);
            && '/' in full && BaseName(full) == name
            && Components(ParentPath(full)) == Components(cwd)
  {
    var full := BuildPath(cwd, name);
    var at := |full| - 2;
    assert full[at] == '/' && full[at + 1] == 'd';
    var last := LastSlash(full);
    assert '/' in full && last < |full| && full[last] == '/';
    assert forall k :: last < k < |full| ==> full[k] == full[last + 1..][k - last - 1];
    assert last == at && full[at + 1..] == name;
    PathParts(full);
    JoinedComponents(cwd, name);
    ComponentsOfName(name);
    var above, here := Components(ParentPath(full)), Components(cwd);
    assert (above + [name])[..|above|] == above && (here + [name])[..|here|] == here;
  }

  // ---------------------------------------------------------------- making and entering a directory

  /** A state in a directory without entries, with room in the table. */
  ghost predicate InEmptyDirectory(s: State) {
    && Healthy(s) && WellFormed(Live(s.table)) && IsDirectory(s, s.cwd) && s.table.count < MAX_FILES
    && forall name: string :: name != "" ==> Find(Live(s.table), Resolve(Live(s.table), s.cwd), name) < 0
  }

  lemma MakeSucceeds(s: State, path: CString)
    requires InEmptyDirectory(s) && path == BuildPath(s.cwd, "d")
    ensures var o := CreatePath(s.table, path, Directory);
            && o.code == s.table.count && Shaped(o.table) && o.table.count == s.table.count + 1
            && Ordered(Live(o.table))
            && Resolve(Live(o.table), path) == o.code && o.table.slots[o.code].kind == Directory
            && Live(o.table)[..s.table.count] == Live(s.table)
            && Live(o.table)[o.code].parent == Resolve(Live(s.table), s.cwd)
  {
    var t, here := s.table, Resolve(Live(s.table), s.cwd);
    JoinedParts(s.cwd, "d");
    WalkLast(Live(t), 0, Components(s.cwd), "d");
    assert Find(Live(t), here, "d") < 0;
    CreationSucceedsIff(t, path, Directory);
    CreationAppends(t, path, Directory);
    CreationExtendsPaths(t, path, Directory);
    CreationKeepsOrder(t, path, Directory);
  }

  /** The line "mkdir d". */
  lemma MakeLine(s: State, line: CString) returns (after: State)
    requires InEmptyDirectory(s) && line == "mkdir" + " " + "d" && |s.cwd| + 2 < PATH_BUFFER
    ensures LineFits(s.cwd, line) && |line| < MAX_FILENAME && after == Execute(s, line)
    ensures after.cwd == s.cwd && after.table == CreatePath(s.table, BuildPath(s.cwd, "d"), Directory).table
    ensures WellFormed(Live(after.table))
  {
    IsMkdir(line, "d");
    ArgumentOf(line, "mkdir", "d");
    assert EffectOf(s.cwd, line) == Calls(Mkdir(BuildPath(s.cwd, "d")));
    after := Execute(s, line);
    TidyLineKeepsTree(s, line);
  }

  /** The line "cd d///…" into a directory d of the current one. */
  lemma EnterLine(s: State, line: CString, argument: CString, slashes: string) returns (after: State)
    requires Healthy(s) && IsDirectory(s, BuildPath(s.cwd, "d"))
    requires line == "cd" + " " + argument && argument == "d" + slashes && AllSlashes(slashes)
    requires |line| < MAX_FILENAME && |s.cwd| + 1 + |argument| < PATH_BUFFER
    ensures LineFits(s.cwd, line) && after == Execute(s, line)
    ensures after == s.(cwd := BuildPath(s.cwd, argument))
    ensures Components(after.cwd) == Components(BuildPath(s.cwd, "d"))
  {
    IsCd(line, argument);
    ArgumentOf(line, "cd", argument);
    NameThenSlashes(argument, "d", slashes);
    JoinedComponents(s.cwd, argument);
    JoinedComponents(s.cwd, "d");
    ComponentsOfName("d");
    assert EffectOf(s.cwd, line) == Goto(BuildPath(s.cwd, argument));
    after := Execute(s, line);
  }

  lemma SessionOfOne(s: State, a: CString)
    requires Healthy(s) && |a| < MAX_FILENAME && LineFits(s.cwd, a)
    ensures ShortLines([a]) && SessionFits(s, [a]) && Session(s, [a]) == Execute(s, a)
  {
    assert [a][1..] == [];
    assert SessionFits(Execute(s, a), []) && Session(Execute(s, a), []) == Execute(s, a);
  }

  lemma SessionOfTwo(s: State, a: CString, b: CString)
    requires Healthy(s) && |a| < MAX_FILENAME && |b| < MAX_FILENAME && LineFits(s.cwd, a)
    requires LineFits(Execute(s, a).cwd, b)
    ensures ShortLines([a, b]) && SessionFits(s, [a, b]) && Session(s, [a, b]) == Execute(Execute(s, a), b)
  {
    SessionOfOne(s, a);
    SessionOfOne(Execute(s, a), b);
    SessionConcat(s, [a], [b]);
    assert [a] + [b] == [a, b];
  }

  lemma NothingBelowLast(live: seq<Entry>, n: nat)
    requires WellFormed(live) && |live| == n + 1 && n > 0
    ensures forall name: string :: Find(live, n, name) < 0
  {
    forall k | 0 <= k < |live| ensures live[k].parent != n {
      if k > 0 { assert WellPlaced(live, k); }
    }
  }

  lemma NewDirectoryIsEmpty(s: State, after: State)
    requires InEmptyDirectory(s) && Healthy(after) && WellFormed(Live(after.table))
    requires after.table == CreatePath(s.table, BuildPath(s.cwd, "d"), Directory).table
    requires Components(after.cwd) == Components(BuildPath(s.cwd, "d"))
    requires s.table.count < MAX_FILES - 1
    ensures InEmptyDirectory(after) && Resolve(Live(after.table), after.cwd) == s.table.count
  {
    MakeSucceeds(s, BuildPath(s.cwd, "d"));
    NothingBelowLast(Live(after.table), s.table.count);
  }

  /** Making a directory d and entering it with any number of trailing slashes. */
  lemma MakeAndEnter(s: State, make: CString, enter: CString, argument: CString, slashes: string)
    returns (after: State)
    requires InEmptyDirectory(s) && s.table.count < MAX_FILES - 1
    requires make == "mkdir" + " " + "d" && enter == "cd" + " " + argument && argument == "d" + slashes
    requires AllSlashes(slashes) && |enter| < MAX_FILENAME && |s.cwd| + 1 + |argument| < PATH_BUFFER
    ensures ShortLines([make, enter]) && SessionFits(s, [make, enter]) && after == Session(s, [make, enter])
    ensures InEmptyDirectory(after) && after.cwd == BuildPath(s.cwd, argument)
    ensures after.table.count == s.table.count + 1
    ensures Resolve(Live(after.table), after.cwd) == s.table.count
  {
    MakeSucceeds(s, BuildPath(s.cwd, "d"));
    var made := MakeLine(s, make);
    after := EnterLine(made, enter, argument, slashes);
    SessionOfTwo(s, make, enter);
    NewDirectoryIsEmpty(s, after);
  }

  /** The state after start-up is in the empty root directory. */
  lemma FreshIsEmpty(t: Table)
    requires Shaped(t)
    ensures InEmptyDirectory(State(Formatted(t), "/"))
    ensures Resolve(Live(Formatted(t)), "/") == 0 && Formatted(t).count == 1
  {
    FormattedIsTree(t);
    RootPath();
    ShortPathFits("/");
    forall name: string | name != "" ensures Find(Live(Formatted(t)), 0, name) < 0 {
      OnlyRoot(t, name);
    }
  }

  // ---------------------------------------------------------------- stranding the shell

  lemma RemoveHere(s: State, line: CString)
    requires InEmptyDirectory(s) && s.cwd == "/d" && line == "rm" + " " + "/d"
    requires Resolve(Live(s.table), s.cwd) == 1
    requires s.table.count == 2
    ensures |line| < MAX_FILENAME && LineFits(s.cwd, line)
    ensures !IsDirectory(Execute(s, line), Execute(s, line).cwd)
  {
    IsRm(line, "/d");
    ArgumentOf(line, "rm", "/d");
    assert EffectOf(s.cwd, line) == Calls(Delete("/d"));
    var live := Live(s.table);
    assert forall j :: 1 <= j < |live| ==> WellPlaced(live, j);
    TidyLineStaysIff(s, line);
  }

  /** mkdir d; cd d leaves the shell in the new directory. */
  lemma InsideNewDirectory(start: State, two: seq<CString>, make: CString, enter: CString) returns (inside: State)
    requires InEmptyDirectory(start) && start.cwd == "/" && start.table.count == 1
    requires make == "mkdir" + " " + "d" && enter == "cd" + " " + "d" && two == [make, enter]
    ensures ShortLines(two) && SessionFits(start, two) && inside == Session(start, two)
    ensures InEmptyDirectory(inside) && inside.cwd == "/d" && inside.table.count == 2
    ensures Resolve(Live(inside.table), inside.cwd) == 1
  {
    assert "d" + "" == "d" && AllSlashes("");
    inside := MakeAndEnter(start, make, enter, "d", "");
    assert inside.cwd == "/d";
  }

  /** mkdir d; cd d; rm /d leaves the shell in a directory that no longer exists. */
  lemma ShellCanBeStranded(start: State, t: Table, two: seq<CString>, remove: CString)
    requires Shaped(t) && start == State(Formatted(t), "/")
    requires two == ["mkdir" + " " + "d", "cd" + " " + "d"] && remove == "rm" + " " + "/d"
    ensures Healthy(start) && ShortLines(two) && SessionFits(start, two)
    ensures var inside := Session(start, two);
            && IsDirectory(inside, inside.cwd)
            && |remove| < MAX_FILENAME && LineFits(inside.cwd, remove)
            && !IsDirectory(Execute(inside, remove), Execute(inside, remove).cwd)
  {
    FreshIsEmpty(t);
    var inside := InsideNewDirectory(start, two, two[0], two[1]);
    RemoveHere(inside, remove);
  }

  // ---------------------------------------------------------------- outgrowing the path buffer

  function Slashes(n: nat): (s: CString)
    ensures AllSlashes(s) && |s| == n
  {
    seq(n, i => '/')
  }

  /** Two levels down, the current directory path carries both runs of slashes. */
  lemma TwoLevelsDown(start: State, make: CString, enter: CString, four: seq<CString>) returns (deep: State)
    requires InEmptyDirectory(start) && start.cwd == "/" && start.table.count == 1
    requires make == "mkdir" + " " + "d" && enter == "cd" + " " + ("d" + Slashes(250))
    requires four == [make, enter] + [make, enter]
    ensures ShortLines(four) && SessionFits(start, four) && deep == Session(start, four)
    ensures |deep.cwd| == 504
  {
    var argument, slashes := "d" + Slashes(250), Slashes(250);
    var once := MakeAndEnter(start, make, enter, argument, slashes);
    deep := MakeAndEnter(once, make, enter, argument, slashes);
    SessionConcat(start, [make, enter], [make, enter]);
  }

  lemma ListDoesNotFit(deep: State, list: CString)
    requires Healthy(deep) && |deep.cwd| == 504 && list == "ls" + " " + "xxxxxxxxx"
    ensures ShortLines([list]) && |BuildPath(deep.cwd, Argument(list))| == 514
    ensures !LineFits(deep.cwd, list) && !SessionFits(deep, [list])
  {
    IsLs(list, "xxxxxxxxx");
    ArgumentOf(list, "ls", "xxxxxxxxx");
  }

  /**
   mkdir d; cd d and 250 slashes; the same two lines again; then the path built for
   ls xxxxxxxxx has 514 characters and does not fit the 512-byte buffer.
   */
  lemma PathCanOutgrowBuffer(start: State, t: Table, make: CString, enter: CString, list: CString, four: seq<CString>)
    requires Shaped(t) && start == State(Formatted(t), "/")
    requires make == "mkdir" + " " + "d" && enter == "cd" + " " + ("d" + Slashes(250))
    requires list == "ls" + " " + "xxxxxxxxx" && four == [make, enter] + [make, enter]
    ensures Healthy(start) && ShortLines(four) && SessionFits(start, four)
    ensures |BuildPath(Session(start, four).cwd, Argument(list))| == 514
    ensures ShortLines(four + [list]) && !SessionFits(start, four + [list])
  {
    FreshIsEmpty(t);
    var deep := TwoLevelsDown(start, make, enter, four);
    ListDoesNotFit(deep, list);
    SessionConcat(start, four, [list]);
  }
}
