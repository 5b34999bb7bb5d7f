/**
 Seven command lines, typed after start-up, that leave the shell in a directory that no
 longer resolves although none of them removes that directory: deleting /a makes the
 compaction hang /d/x under the regular file c.
 */
module Stranding {
  import opened CStrings
  import opened Paths
  import opened FileTable
  import opened Operations
  import opened Runs
  import opened Misplacement
  import opened Shell
  import opened Witnesses

  // ---------------------------------------------------------------- sessions line by line

  /** The session `lines` can be typed from `start` and ends in `s`. */
  ghost predicate Reaches(start: State, lines: seq<CString>, s: State) {
    && Healthy(start) && ShortLines(lines) && SessionFits(start, lines)
    && Session(start, lines) == s
  }

  /** The line can be typed in `s` and leads to `after`. */
  ghost predicate Leads(s: State, line: CString, after: State) {
    && Healthy(s) && |line| < MAX_FILENAME && LineFits(s.cwd, line)
    && Execute(s, line) == after
  }

  lemma ReachesNext(start: State, lines: seq<CString>, s: State, line: CString, after: State, longer: seq<CString>)
    requires Reaches(start, lines, s) && Leads(s, line, after) && longer == lines + [line]
    ensures Reaches(start, longer, after)
  {
    SessionOfOne(s, line);
    SessionConcat(start, lines, [line]);
  }

  // ---------------------------------------------------------------- lines in the root directory

  /** The shell is in the root of a table with these entries. */
  ghost predicate AtRoot(s: State, nodes: seq<Node>) {
    Healthy(s) && s.cwd == "/" && Shows(Live(s.table), nodes)
  }

  lemma IsTouch(line: CString, argument: string)
    requires line == "touch" + " " + argument
    ensures Classify(line) == TouchFile
  {
    assert line[0] == 't' && line[1] == 'o' && line[..5] == "touch";
  }

  lemma MkdirEffect(line: CString, argument: CString, path: CString)
    requires line == "mkdir" + " " + argument && ' ' !in argument && argument != "" && argument[0] != '/'
    requires path == "/" + argument && |path| < 200
    ensures EffectOf("/", line) == Calls(Mkdir(path)) && |line| < MAX_FILENAME && LineFits("/", line)
  {
    IsMkdir(line, argument);
    ArgumentOf(line, "mkdir", argument);
    assert BuildPath("/", argument) == path;
  }

  lemma TouchEffect(line: CString, argument: CString, path: CString)
    requires line == "touch" + " " + argument && ' ' !in argument && argument != "" && argument[0] != '/'
    requires path == "/" + argument && |path| < 200
    ensures EffectOf("/", line) == Calls(Touch(path)) && |line| < MAX_FILENAME && LineFits("/", line)
  {
    IsTouch(line, argument);
    ArgumentOf(line, "touch", argument);
    assert BuildPath("/", argument) == path;
  }

  /** A new name for the root directory, short and without spaces. */
  ghost predicate NewName(nodes: seq<Node>, name: CString) {
    && name != "" && '/' !in name && ' ' !in name && |name| < 100 && |nodes| < MAX_FILES
    && forall i :: 0 <= i < |nodes| ==> nodes[i].name != name
  }

  lemma MakeAtRoot(s: State, nodes: seq<Node>, line: CString, name: CString, more: seq<Node>) returns (after: State)
    requires AtRoot(s, nodes) && NewName(nodes, name) && line == "mkdir" + " " + name
    requires more == nodes + [Node(name, Directory, 0)]
    ensures Leads(s, line, after) && AtRoot(after, more)
  {
    var call := Mkdir("/" + name);
    MkdirEffect(line, name, call.path);
    var table := Grow(s.table, nodes, call, Node(name, Directory, 0));
    after := Execute(s, line);
  }

  lemma TouchIsCreate(t: Table, path: CString, name: CString)
    requires Shaped(t) && path == "/" + name && name != "" && '/' !in name && |name| < MAX_FILENAME
    ensures Fits(Touch(path)) && Fits(Create(path)) && Perform(t, Touch(path)) == Perform(t, Create(path))
  {
    ChildPath(path, name);
  }

  lemma TouchAtRoot(s: State, nodes: seq<Node>, line: CString, name: CString, more: seq<Node>) returns (after: State)
    requires AtRoot(s, nodes) && NewName(nodes, name) && line == "touch" + " " + name
    requires more == nodes + [Node(name, Regular, 0)]
    ensures Leads(s, line, after) && AtRoot(after, more)
  {
    var path: CString := "/" + name;
    TouchEffect(line, name, path);
    var table := Grow(s.table, nodes, Create(path), Node(name, Regular, 0));
    TouchIsCreate(s.table, path, name);
    after := Execute(s, line);
  }

  // ---------------------------------------------------------------- the nested directory

  lemma MakeNested(s: State, line: CString) returns (after: State)
    requires AtRoot(s, [ROOT, A, B, C, D]) && line == "mkdir" + " " + "d/x"
    ensures Leads(s, line, after) && AtRoot(after, [ROOT, A, B, C, D, X])
  {
    MkdirEffect(line, "d/x", "/d/x");
    var table := GrowNested(s.table, Mkdir("/d/x"));
    after := Execute(s, line);
  }

  lemma XIsSlotFive(live: seq<Entry>, nodes: seq<Node>)
    requires Shows(live, nodes) && nodes == [ROOT, A, B, C, D, X]
    ensures Find(live, 0, "d") == 4 && Find(live, 4, "x") == 5 && live[5].kind == Directory
  {
    assert forall k :: 0 <= k < |nodes| ==> live[k].parent == nodes[k].parent && live[k].name == nodes[k].name;
    assert Node(live[5].name, live[5].kind, live[5].parent) == nodes[5];
    assert Matches(live[4], 0, "d") && Matches(live[5], 4, "x");
  }

  lemma NestedComponents()
    ensures Components("/d/x") == ["d"] + ["x"]
  {
    ChildPath("/d", "d");
    ComponentsConcat("/d", "x");
    ComponentsOfName("x");
    assert "/d" + "/" + "x" == "/d/x";
  }

  lemma XIsFound(live: seq<Entry>, nodes: seq<Node>)
    requires Shows(live, nodes) && nodes == [ROOT, A, B, C, D, X]
    ensures Resolve(live, "/d/x") == 5 && LeadsToDirectory(live, "/d/x")
  {
    XIsSlotFive(live, nodes);
    NestedComponents();
    WalkLast(live, 0, [], "d");
    assert [] + ["d"] == ["d"];
    WalkLast(live, 0, ["d"], "x");
  }

  /** The shell is in /d/x. */
  ghost predicate Inside(s: State) {
    Healthy(s) && s.cwd == "/d/x" && Shows(Live(s.table), [ROOT, A, B, C, D, X])
  }

  lemma EnterNested(s: State, line: CString) returns (after: State)
    requires AtRoot(s, [ROOT, A, B, C, D, X]) && line == "cd" + " " + "d/x"
    ensures Leads(s, line, after) && Inside(after)
  {
    IsCd(line, "d/x");
    ArgumentOf(line, "cd", "d/x");
    assert BuildPath("/", "d/x") == "/d/x";
    XIsFound(Live(s.table), [ROOT, A, B, C, D, X]);
    assert EffectOf(s.cwd, line) == Goto("/d/x");
    after := Execute(s, line);
  }

  lemma RmEffect(cwd: CString, line: CString, path: CString)
    requires Rooted(cwd) && path == "/a" && line == "rm" + " " + path
    ensures EffectOf(cwd, line) == Calls(Delete(path)) && |line| < MAX_FILENAME && LineFits(cwd, line)
  {
    IsRm(line, path);
    ArgumentOf(line, "rm", path);
  }

  lemma NestedIsLost(t: Table, path: CString, here: CString)
    requires Sound(t) && Shows(Live(t), [ROOT, A, B, C, D, X]) && path == "/a" && here == "/d/x"
    ensures Sound(DeletePath(t, path).table) && Resolve(Live(DeletePath(t, path).table), here) == -1
  {
    DeleteFirst(t, path);
    MisplacedIsNoTree(Live(DeletePath(t, path).table), [ROOT, B, C, D, X.(parent := 2)]);
  }

  /** The slot of /a is not that of /d/x. */
  lemma ElsewhereIsNotHere(live: seq<Entry>, nodes: seq<Node>, path: CString, here: CString)
    requires Shows(live, nodes) && nodes == [ROOT, A, B, C, D, X] && path == "/a" && here == "/d/x"
    ensures Resolve(live, path) != Resolve(live, here) && LeadsToDirectory(live, here)
  {
    XIsFound(live, nodes);
    FirstIsDeletable(live, nodes);
  }

  /** A line that deletes `path` does what the deletion does. */
  lemma DeletingLine(s: State, line: CString, path: CString) returns (after: State)
    requires Healthy(s) && |line| < MAX_FILENAME && LineFits(s.cwd, line)
    requires EffectOf(s.cwd, line) == Calls(Delete(path))
    ensures Leads(s, line, after) && after == s.(table := DeletePath(s.table, path).table)
    ensures RemovesHere(s, line) ==> Resolve(Live(s.table), path) == Resolve(Live(s.table), s.cwd)
  {
    after := Execute(s, line);
  }

  lemma RemoveElsewhere(s: State, line: CString, path: CString) returns (after: State)
    requires Inside(s) && path == "/a" && line == "rm" + " " + path
    ensures IsDirectory(s, s.cwd) && !RemovesHere(s, line)
    ensures Leads(s, line, after) && after.cwd == s.cwd && Resolve(Live(after.table), after.cwd) == -1
  {
    RmEffect(s.cwd, line, path);
    ElsewhereIsNotHere(Live(s.table), [ROOT, A, B, C, D, X], path, s.cwd);
    NestedIsLost(s.table, path, s.cwd);
    after := DeletingLine(s, line, path);
  }

  // ---------------------------------------------------------------- the session

  lemma FreshAtRoot(t: Table, start: State)
    requires Shaped(t) && start == State(Formatted(t), "/")
    ensures AtRoot(start, [ROOT]) && Reaches(start, [], start)
  {
    FormattedIsTree(t);
    ShortPathFits("/");
  }

  lemma ThenMake(start: State, lines: seq<CString>, s: State, nodes: seq<Node>, line: CString, name: CString)
    returns (after: State)
    requires Reaches(start, lines, s) && AtRoot(s, nodes) && NewName(nodes, name) && line == "mkdir" + " " + name
    ensures Reaches(start, lines + [line], after) && AtRoot(after, nodes + [Node(name, Directory, 0)])
  {
    after := MakeAtRoot(s, nodes, line, name, nodes + [Node(name, Directory, 0)]);
    ReachesNext(start, lines, s, line, after, lines + [line]);
  }

  lemma ThenTouch(start: State, lines: seq<CString>, s: State, nodes: seq<Node>, line: CString, name: CString)
    returns (after: State)
    requires Reaches(start, lines, s) && AtRoot(s, nodes) && NewName(nodes, name) && line == "touch" + " " + name
    ensures Reaches(start, lines + [line], after) && AtRoot(after, nodes + [Node(name, Regular, 0)])
  {
    after := TouchAtRoot(s, nodes, line, name, nodes + [Node(name, Regular, 0)]);
    ReachesNext(start, lines, s, line, after, lines + [line]);
  }

  /** mkdir a; mkdir b */
  lemma TwoEntries(start: State, a: CString, b: CString) returns (s: State)
    requires AtRoot(start, [ROOT]) && Reaches(start, [], start)
    requires a == "mkdir" + " " + "a" && b == "mkdir" + " " + "b"
    ensures Reaches(start, [a, b], s) && AtRoot(s, [ROOT, A, B])
  {
    var made := ThenMake(start, [], start, [ROOT], a, "a");
    assert [] + [a] == [a] && [ROOT] + [A] == [ROOT, A];
    s := ThenMake(start, [a], made, [ROOT, A], b, "b");
    assert [a] + [b] == [a, b] && [ROOT, A] + [B] == [ROOT, A, B];
  }

  lemma NamesAreNew(nodes: seq<Node>)
    requires nodes == [ROOT, A, B]
    ensures NewName(nodes, "c") && NewName(nodes + [C], "d")
  {
  }

  /** touch c; mkdir d */
  lemma TwoMore(start: State, two: seq<CString>, s: State, nodes: seq<Node>, c: CString, d: CString)
    returns (after: State)
    requires Reaches(start, two, s) && AtRoot(s, nodes) && NewName(nodes, "c") && NewName(nodes + [C], "d")
    requires c == "touch" + " " + "c" && d == "mkdir" + " " + "d"
    ensures Reaches(start, two + [c] + [d], after) && AtRoot(after, nodes + [C] + [D])
  {
    var made := ThenTouch(start, two, s, nodes, c, "c");
    after := ThenMake(start, two + [c], made, nodes + [C], d, "d");
  }

  /** mkdir a; mkdir b; touch c; mkdir d */
  lemma FourEntries(start: State, lines: seq<CString>) returns (s: State)
    requires AtRoot(start, [ROOT]) && Reaches(start, [], start)
    requires lines == ["mkdir" + " " + "a", "mkdir" + " " + "b", "touch" + " " + "c", "mkdir" + " " + "d"]
    ensures Reaches(start, lines, s) && AtRoot(s, [ROOT, A, B, C, D])
  {
    var two := TwoEntries(start, lines[0], lines[1]);
    NamesAreNew([ROOT, A, B]);
    s := TwoMore(start, [lines[0], lines[1]], two, [ROOT, A, B], lines[2], lines[3]);
    assert [lines[0], lines[1]] + [lines[2]] + [lines[3]] == lines;
    assert [ROOT, A, B] + [C] + [D] == [ROOT, A, B, C, D];
  }

  /** mkdir d/x; cd d/x */
  lemma IntoNested(start: State, four: seq<CString>, s: State, make: CString, enter: CString) returns (inside: State)
    requires Reaches(start, four, s) && AtRoot(s, [ROOT, A, B, C, D])
    requires make == "mkdir" + " " + "d/x" && enter == "cd" + " " + "d/x"
    ensures Reaches(start, four + [make] + [enter], inside) && Inside(inside)
  {
    var made := MakeNested(s, make);
    ReachesNext(start, four, s, make, made, four + [make]);
    inside := EnterNested(made, enter);
    ReachesNext(start, four + [make], made, enter, inside, four + [make] + [enter]);
  }

  /**
   After start-up: mkdir a; mkdir b; touch c; mkdir d; mkdir d/x; cd d/x leave the shell in an
   existing directory.  Then rm /a, which does not remove that directory, strands it.
   */
  lemma RemovingElsewhereStrands(
    t: Table, start: State, four: seq<CString>, make: CString, enter: CString, remove: CString)
    returns (inside: State)
    requires Shaped(t) && start == State(Formatted(t), "/")
    requires four == ["mkdir" + " " + "a", "mkdir" + " " + "b", "touch" + " " + "c", "mkdir" + " " + "d"]
    requires make == "mkdir" + " " + "d/x" && enter == "cd" + " " + "d/x" && remove == "rm" + " " + "/a"
    ensures Reaches(start, four + [make] + [enter], inside) && IsDirectory(inside, inside.cwd)
    ensures |remove| < MAX_FILENAME && LineFits(inside.cwd, remove)
    ensures !RemovesHere(inside, remove) && Strands(inside, remove)
    ensures !IsDirectory(Execute(inside, remove), Execute(inside, remove).cwd)
  {
    FreshAtRoot(t, start);
    var s := FourEntries(start, four);
    inside := IntoNested(start, four, s, make, enter);
    var after := RemoveElsewhere(inside, remove, "/a");
    StaysInDirectoryIff(inside, remove);
  }
}
