/**
 A run in which deletion goes wrong.  From any freshly formatted table,
     mkdir /a;  mkdir /b;  create /c;  mkdir /d;  create /d/x;  delete /a
 makes the regular file /c the parent of x: /d/x is gone, and the tree invariant with it.
 */
module Misplacement {
  import opened CStrings
  import opened Paths
  import opened FileTable
  import opened Deletion
  import opened Operations
  import opened Creation
  import opened Runs

  /** A record without its size and data. */
  datatype Node = Node(name: string, kind: FileType, parent: nat)

  ghost predicate Shows(live: seq<Entry>, nodes: seq<Node>) {
    |live| == |nodes| && forall i :: 0 <= i < |nodes| ==> Node(live[i].name, live[i].kind, live[i].parent) == nodes[i]
  }

  const ROOT := Node("", Directory, 0)
  const A := Node("a", Directory, 0)
  const B := Node("b", Directory, 0)
  const C := Node("c", Regular, 0)
  const D := Node("d", Directory, 0)
  const X := Node("x", Directory, 4)

  lemma RootPath()
    ensures Components("/") == []
  {
  }

  lemma ChildPath(path: CString, name: string)
    requires path == "/" + name && name != "" && '/' !in name
    ensures ParentPath(path) == "/" && BaseName(path) == name && Components(path) == [name]
    ensures |name| < MAX_FILENAME ==> CreatableHere(path) && ComponentsFit(path)
  {
    RootPath();
    ComponentsRooted(name);
    ComponentsOfName(name);
    assert path[1..] == name;
    assert LastSlash(path) == 0;
  }

  /** Creating a blank name directly under the root appends it. */
  lemma CreateInRoot(t: Table, nodes: seq<Node>, path: CString, name: string, kind: FileType)
    requires Sound(t) && Shows(Live(t), nodes) && |nodes| < MAX_FILES && kind != Unused
    requires path == "/" + name && '/' !in name && 1 <= |name| < MAX_FILENAME
    requires forall i :: 0 <= i < |nodes| ==> nodes[i].name != name
    ensures var o := CreatePath(t, path, kind);
            Sound(o.table) && Shows(Live(o.table), nodes + [Node(name, kind, 0)])
  {
    ChildPath(path, name);
    RootPath();
    var live := Live(t);
    assert Find(live, 0, name) < 0;
    CreationKeepsOrder(t, path, kind);
    assert live[0].kind == Directory;
    assert CreatePath(t, path, kind).code == t.count;
    CreationAppends(t, path, kind);
  }

  lemma NestedPath(path: CString)
    requires path == "/d/x"
    ensures ParentPath(path) == "/d" && BaseName(path) == "x" && CreatableHere(path)
  {
    assert LastSlash(path) == 2 && path[..2] == "/d" && path[3..] == "x";
    ShortPathFits("/d");
  }

  lemma DIsFound(live: seq<Entry>)
    requires Shows(live, [ROOT, A, B, C, D])
    ensures Resolve(live, "/d") == 4
  {
    var nodes := [ROOT, A, B, C, D];
    forall k | 0 <= k < 5 ensures Matches(live[k], 0, "d") <==> k == 4 {
      assert Node(live[k].name, live[k].kind, live[k].parent) == nodes[k];
    }
    ChildPath("/d", "d");
    WalkLast(live, 0, [], "d");
    assert [] + ["d"] == ["d"];
  }

  lemma DIsEmpty(live: seq<Entry>, nodes: seq<Node>, name: string)
    requires Shows(live, nodes) && nodes == [ROOT, A, B, C, D] && name == "x"
    ensures live[4].kind == Directory && Find(live, 4, name) < 0
  {
  }

  lemma CreateNested(t: Table, path: CString)
    requires Sound(t) && Shows(Live(t), [ROOT, A, B, C, D]) && path == "/d/x"
    ensures Sound(CreatePath(t, path, Directory).table)
    ensures Shows(Live(CreatePath(t, path, Directory).table), [ROOT, A, B, C, D, X])
  {
    NestedPath(path);
    DIsFound(Live(t));
    DIsEmpty(Live(t), [ROOT, A, B, C, D], BaseName(path));
    CreationKeepsOrder(t, path, Directory);
    assert t.slots[4] == Live(t)[4];
    assert CreatePath(t, path, Directory).code == t.count;
    CreationAppends(t, path, Directory);
  }

  /** Slot 1 is found under "/a" and is free to go. */
  lemma FirstIsDeletable(live: seq<Entry>, nodes: seq<Node>)
    requires Shows(live, nodes) && nodes == [ROOT, A, B, C, D, X]
    ensures Resolve(live, "/a") == 1 && !HasChild(live, 1)
  {
    assert forall k :: 0 <= k < |nodes| ==> live[k].parent == nodes[k].parent;
    assert Node(live[0].name, live[0].kind, live[0].parent) == nodes[0];
    assert Node(live[1].name, live[1].kind, live[1].parent) == nodes[1];
    assert Matches(live[1], 0, "a") && !Matches(live[0], 0, "a");
    ChildPath("/a", "a");
    WalkLast(live, 0, [], "a");
    assert [] + ["a"] == ["a"];
  }

  /** The parent of x, slot 4, is halved down to slot 2. */
  lemma CompactionHitsX(live: seq<Entry>)
    requires Shows(live, [ROOT, A, B, C, D, X])
    ensures Shows(Compacted(live, 1), [ROOT, B, C, D, X.(parent := 2)])
  {
  }

  /** The fateful deletion. */
  lemma DeleteFirst(t: Table, path: CString)
    requires Sound(t) && Shows(Live(t), [ROOT, A, B, C, D, X]) && path == "/a"
    ensures Sound(DeletePath(t, path).table)
    ensures Shows(Live(DeletePath(t, path).table), [ROOT, B, C, D, X.(parent := 2)])
  {
    FirstIsDeletable(Live(t), [ROOT, A, B, C, D, X]);
    DeletionKeepsSound(t, path);
    CompactedLive(t, 1);
    CompactionHitsX(Live(t));
  }

  /** The regular file c has become a parent, so the result is no tree. */
  lemma ParentIsFile(live: seq<Entry>, nodes: seq<Node>)
    requires Shows(live, nodes) && nodes == [ROOT, B, C, D, X.(parent := 2)]
    ensures !WellFormed(live)
  {
    assert Node(live[4].name, live[4].kind, live[4].parent) == nodes[4];
    assert Node(live[2].name, live[2].kind, live[2].parent) == nodes[2];
    assert !WellPlaced(live, 4);
  }

  /** Nothing is left under d, which is now slot 3. */
  lemma DirectoryIsEmpty(live: seq<Entry>, nodes: seq<Node>)
    requires Shows(live, nodes) && nodes == [ROOT, B, C, D, X.(parent := 2)]
    ensures Find(live, 0, "d") == 3 && Find(live, 3, "x") < 0
  {
    assert forall k :: 0 <= k < 5 ==> live[k].parent == nodes[k].parent && live[k].name == nodes[k].name;
    assert Matches(live[3], 0, "d");
  }

  /** The result is not a tree, and /d/x no longer resolves. */
  lemma MisplacedIsNoTree(live: seq<Entry>, nodes: seq<Node>)
    requires Shows(live, nodes) && nodes == [ROOT, B, C, D, X.(parent := 2)]
    ensures !WellFormed(live) && Resolve(live, "/d/x") == -1
  {
    ParentIsFile(live, nodes);
    DirectoryIsEmpty(live, nodes);
    ChildPath("/d", "d");
    ComponentsConcat("/d", "x");
    ComponentsOfName("x");
    assert "/d" + "/" + "x" == "/d/x";
    WalkLast(live, 0, [], "d");
    assert [] + ["d"] == ["d"];
    WalkLast(live, 0, ["d"], "x");
  }

  /** One creating call directly under the root. */
  lemma Grow(t: Table, nodes: seq<Node>, call: Call, added: Node) returns (after: Table)
    requires Sound(t) && Shows(Live(t), nodes) && |nodes| < MAX_FILES
    requires Addable(nodes, call, added)
    ensures Fits(call) && after == Perform(t, call).table
    ensures Sound(after) && Shows(Live(after), nodes + [added])
  {
    ChildPath(call.path, added.name);
    CreateInRoot(t, nodes, call.path, added.name, added.kind);
    after := Perform(t, call).table;
  }

  lemma RunCons(t: Table, call: Call, rest: seq<Call>)
    requires Sound(t) && Fits(call) && AllFit(rest)
    ensures AllFit([call] + rest) && Sound(Perform(t, call).table)
    ensures Run(t, [call] + rest) == Run(Perform(t, call).table, rest)
  {
    CallKeepsSound(t, call);
    var calls := [call] + rest;
    assert calls[0] == call && calls[1..] == rest;
  }

  /** The run from `t` ends without a tree and without /d/x. */
  ghost predicate EndsBadly(t: Table, calls: seq<Call>) {
    && Sound(t) && AllFit(calls)
    && !WellFormed(Live(Run(t, calls)))
    && Resolve(Live(Run(t, calls)), "/d/x") == -1
  }

  lemma EndsBadlyAfter(t: Table, call: Call, rest: seq<Call>)
    requires Sound(t) && Fits(call) && EndsBadly(Perform(t, call).table, rest)
    ensures EndsBadly(t, [call] + rest)
  {
    RunCons(t, call, rest);
  }

  lemma LastCall(t: Table, call: Call)
    requires Sound(t) && Shows(Live(t), [ROOT, A, B, C, D, X]) && call == Delete("/a")
    ensures EndsBadly(t, [call])
  {
    DeleteFirst(t, call.path);
    var after := Perform(t, call).table;
    MisplacedIsNoTree(Live(after), [ROOT, B, C, D, X.(parent := 2)]);
    assert Run(after, []) == after;
    EndsBadlyAfter(t, call, []);
    assert [call] + [] == [call];
  }

  /** Creating x under d. */
  lemma GrowNested(t: Table, create: Call) returns (after: Table)
    requires Sound(t) && Shows(Live(t), [ROOT, A, B, C, D]) && create == Mkdir("/d/x")
    ensures Fits(create) && after == Perform(t, create).table
    ensures Sound(after) && Shows(Live(after), [ROOT, A, B, C, D, X])
  {
    NestedPath(create.path);
    CreateNested(t, create.path);
    after := Perform(t, create).table;
  }

  lemma LastTwoCalls(t: Table, create: Call, delete: Call)
    requires Sound(t) && Shows(Live(t), [ROOT, A, B, C, D])
    requires create == Mkdir("/d/x") && delete == Delete("/a")
    ensures EndsBadly(t, [create, delete])
  {
    var after := GrowNested(t, create);
    LastCall(after, delete);
    EndsBadlyAfter(t, create, [delete]);
    assert [create] + [delete] == [create, delete];
  }

  function BadRun(): seq<Call> {
    [Mkdir("/a"), Mkdir("/b"), Create("/c"), Mkdir("/d"), Mkdir("/d/x"), Delete("/a")]
  }

  /** `added` can be the next entry of a root directory holding `nodes`. */
  ghost predicate Addable(nodes: seq<Node>, call: Call, added: Node) {
    && call == (if added.kind == Directory then Mkdir(call.path) else Create(call.path))
    && added.kind != Unused && added.parent == 0
    && call.path == "/" + added.name && '/' !in added.name && 1 <= |added.name| < MAX_FILENAME
    && forall i :: 0 <= i < |nodes| ==> nodes[i].name != added.name
  }

  lemma FromD(t: Table, calls: seq<Call>)
    requires Sound(t) && Shows(Live(t), [ROOT, A, B, C]) && calls == BadRun()[3..]
    ensures EndsBadly(t, calls)
  {
    var nodes := [ROOT, A, B, C];
    NextD(nodes, calls);
    var after := Grow(t, nodes, calls[0], D);
    LastTwoCalls(after, calls[1], calls[2]);
    assert calls[1..] == [calls[1], calls[2]];
    EndsBadlyAfter(t, calls[0], calls[1..]);
  }

  lemma NextD(nodes: seq<Node>, calls: seq<Call>)
    requires nodes == [ROOT, A, B, C] && calls == BadRun()[3..]
    ensures Addable(nodes, calls[0], D) && nodes + [D] == [ROOT, A, B, C, D]
    ensures [calls[0]] + calls[1..] == calls && calls[1..] == BadRun()[4..]
  {
  }

  lemma FromC(t: Table, calls: seq<Call>)
    requires Sound(t) && Shows(Live(t), [ROOT, A, B]) && calls == BadRun()[2..]
    ensures EndsBadly(t, calls)
  {
    var nodes := [ROOT, A, B];
    NextC(nodes, calls);
    var after := Grow(t, nodes, calls[0], C);
    FromD(after, calls[1..]);
    EndsBadlyAfter(t, calls[0], calls[1..]);
  }

  lemma NextC(nodes: seq<Node>, calls: seq<Call>)
    requires nodes == [ROOT, A, B] && calls == BadRun()[2..]
    ensures Addable(nodes, calls[0], C) && nodes + [C] == [ROOT, A, B, C]
    ensures [calls[0]] + calls[1..] == calls && calls[1..] == BadRun()[3..]
  {
  }

  lemma FromB(t: Table, calls: seq<Call>)
    requires Sound(t) && Shows(Live(t), [ROOT, A]) && calls == BadRun()[1..]
    ensures EndsBadly(t, calls)
  {
    var nodes := [ROOT, A];
    NextB(nodes, calls);
    var after := Grow(t, nodes, calls[0], B);
    FromC(after, calls[1..]);
    EndsBadlyAfter(t, calls[0], calls[1..]);
  }

  lemma NextB(nodes: seq<Node>, calls: seq<Call>)
    requires nodes == [ROOT, A] && calls == BadRun()[1..]
    ensures Addable(nodes, calls[0], B) && nodes + [B] == [ROOT, A, B]
    ensures [calls[0]] + calls[1..] == calls && calls[1..] == BadRun()[2..]
  {
  }

  lemma FromA(t: Table, calls: seq<Call>)
    requires Sound(t) && Shows(Live(t), [ROOT]) && calls == BadRun()[0..]
    ensures EndsBadly(t, calls)
  {
    var nodes := [ROOT];
    NextA(nodes, calls);
    var after := Grow(t, nodes, calls[0], A);
    FromB(after, calls[1..]);
    EndsBadlyAfter(t, calls[0], calls[1..]);
  }

  lemma NextA(nodes: seq<Node>, calls: seq<Call>)
    requires nodes == [ROOT] && calls == BadRun()[0..]
    ensures Addable(nodes, calls[0], A) && nodes + [A] == [ROOT, A]
    ensures [calls[0]] + calls[1..] == calls && calls[1..] == BadRun()[1..]
  {
  }

  /** The run in full: it starts from a tree and ends without one. */
  lemma DeletionCanMisplace(t: Table, calls: seq<Call>)
    requires Shaped(t) && calls == BadRun()
    ensures Sound(Formatted(t)) && WellFormed(Live(Formatted(t)))
    ensures EndsBadly(Formatted(t), calls)
  {
    FormattedIsTree(t);
    assert calls == BadRun()[0..];
    FromA(Formatted(t), calls);
  }
}
