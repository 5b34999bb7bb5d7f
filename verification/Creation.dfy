/**
 Creating an entry: which paths start to resolve, and that the tree survives.
 */
module Creation {
  import opened CStrings
  import opened Paths
  import opened FileTable
  import opened Operations

  // ---------------------------------------------------------------- appending one record

  lemma FindAfterAppend(live: seq<Entry>, e: Entry, parent: nat, name: string)
    ensures Find(live + [e], parent, name) ==
            (if Find(live, parent, name) >= 0 then Find(live, parent, name)
             else if Matches(e, parent, name) then |live| else -1)
  {
  }

  /** A component list newly leads somewhere only if it is the new entry's own. */
  lemma {:induction false} WalkAfterAppend(live: seq<Entry>, e: Entry, names: seq<string>)
    requires Ordered(live) && e.parent < |live|
    ensures var before := Walk(live, 0, names);
            Walk(live + [e], 0, names) ==
            if before >= 0 then before
            else if names != [] && Walk(live, 0, names[..|names| - 1]) == e.parent && names[|names| - 1] == e.name
            then |live| else -1
    decreases |names|
  {
    if names != [] {
      var init, name := names[..|names| - 1], names[|names| - 1];
      assert names == init + [name];
      WalkLast(live, 0, init, name);
      WalkLast(live + [e], 0, init, name);
      WalkAfterAppend(live, e, init);
      var middle := Walk(live + [e], 0, init);
      if middle >= 0 { FindAfterAppend(live, e, middle, name); }
      if middle == |live| { assert Find(live, middle, name) < 0; }
    }
  }

  lemma AppendKeepsTree(live: seq<Entry>, e: Entry)
    requires WellFormed(live) && |live| < MAX_FILES
    requires e.kind != Unused && ProperName(e.name)
    requires e.parent < |live| && live[e.parent].kind == Directory
    requires Find(live, e.parent, e.name) < 0
    ensures WellFormed(live + [e])
  {
    var after := live + [e];
    forall i | 1 <= i < |after| ensures WellPlaced(after, i) {
      if i < |live| { assert WellPlaced(live, i); }
    }
    forall i, j | 0 <= i < j < |after| ensures !Matches(after[i], after[j].parent, after[j].name) {
      if j < |live| { assert !Matches(live[i], live[j].parent, live[j].name); }
    }
  }

  // ---------------------------------------------------------------- the calls

  /** A successful call appends exactly one record, under the resolved parent directory. */
  lemma CreationAppends(t: Table, path: CString, kind: FileType)
    requires Shaped(t) && path != "" && TouchPath(t, path, kind).code >= 0 && Ordered(Live(t))
    ensures var parent := Resolve(Live(t), ParentPath(path));
            var o := TouchPath(t, path, kind);
            && o.code == t.count < MAX_FILES && o.table.count == t.count + 1
            && 0 <= parent < t.count && t.slots[parent].kind == Directory
            && Find(Live(t), parent, BaseName(path)) < 0
            && |o.table.slots| == MAX_FILES
            && Live(o.table) == Live(t) + [NewEntry(t, BaseName(path), kind, parent)]
            && o.table.slots[t.count] == Entry(BaseName(path), kind, 0, parent, t.slots[t.count].data)
  {
  }

  /**
   Exactly when `touch` succeeds: there is a free slot, the directory part names a directory,
   and nothing of that name is in it.  Otherwise it returns -1 and changes nothing.
   */
  lemma TouchSucceedsIff(t: Table, path: CString, kind: FileType)
    requires Shaped(t) && path != "" && Ordered(Live(t))
    ensures var o := TouchPath(t, path, kind);
            var above := Components(ParentPath(path));
            var parent := Walk(Live(t), 0, above);
            && (o.code >= 0 <==>
                && t.count < 256
                && 0 <= parent < t.count && t.slots[parent].kind == Directory
                && Walk(Live(t), 0, above + [BaseName(path)]) < 0)
            && (o.code < 0 ==> o == Outcome(t, -1))
  {
    WalkLast(Live(t), 0, Components(ParentPath(path)), BaseName(path));
  }

  /** `fs_mkdir` and `fs_create` succeed exactly when there is a name and `touch` would succeed. */
  lemma CreationSucceedsIff(t: Table, path: CString, kind: FileType)
    requires Shaped(t) && path != "" && Ordered(Live(t))
    ensures var o := CreatePath(t, path, kind);
            var above := Components(ParentPath(path));
            var parent := Walk(Live(t), 0, above);
            && (o.code >= 0 <==>
                && t.count < 256 && BaseName(path) != ""
                && 0 <= parent < t.count && t.slots[parent].kind == Directory
                && Walk(Live(t), 0, above + [BaseName(path)]) < 0)
            && (o.code < 0 ==> o == Outcome(t, -1))
  {
    TouchSucceedsIff(t, path, kind);
  }

  /** `path` and `q` name the same thing: same directory, same last component. */
  ghost predicate NamesIt(path: CString, q: string)
    requires path != ""
  {
    Components(q) == Components(ParentPath(path)) + [BaseName(path)]
  }

  /** In a tree, different component lists lead to different slots. */
  lemma SameSlotSameNames(live: seq<Entry>, a: seq<string>, b: seq<string>)
    requires WellFormed(live) && 0 <= Walk(live, 0, a) == Walk(live, 0, b)
    requires forall k :: 0 <= k < |a| ==> a[k] != ""
    requires forall k :: 0 <= k < |b| ==> b[k] != ""
    ensures a == b
  {
    AncestryUnique(live, a);
    AncestryUnique(live, b);
  }

  lemma LastOf(names: seq<string>, upper: seq<string>, name: string)
    requires names != []
    ensures names == upper + [name] <==> names[..|names| - 1] == upper && names[|names| - 1] == name
  {
    assert names == names[..|names| - 1] + [names[|names| - 1]];
  }

  lemma WalkAfterAppendInTree(live: seq<Entry>, e: Entry, upper: seq<string>, names: seq<string>)
    requires WellFormed(live) && Ordered(live) && Walk(live, 0, upper) == e.parent < |live|
    requires Find(live, e.parent, e.name) < 0
    requires forall k :: 0 <= k < |upper| ==> upper[k] != ""
    requires forall k :: 0 <= k < |names| ==> names[k] != ""
    ensures var before := Walk(live, 0, names);
            Walk(live + [e], 0, names) ==
            if before >= 0 then before else if names == upper + [e.name] then |live| else -1
  {
    WalkAfterAppend(live, e, names);
    WalkLast(live, 0, upper, e.name);
    if names != [] {
      var init := names[..|names| - 1];
      LastOf(names, upper, e.name);
      if Walk(live, 0, init) == e.parent { SameSlotSameNames(live, init, upper); }
    }
  }

  /** In a tree, what newly resolves after appending `e` is what has `e`'s own components. */
  lemma ResolveAfterAppend(live: seq<Entry>, e: Entry, above: string, q: string)
    requires WellFormed(live) && Resolve(live, above) == e.parent < |live|
    requires Find(live, e.parent, e.name) < 0
    ensures Resolve(live + [e], q) ==
            if Resolve(live, q) >= 0 then Resolve(live, q)
            else if Components(q) == Components(above) + [e.name] then |live| else -1
  {
    WellFormedIsOrdered(live);
    ComponentsAreNames(q);
    ComponentsAreNames(above);
    WalkAfterAppendInTree(live, e, Components(above), Components(q));
  }

  lemma CreationResolves(t: Table, path: CString, kind: FileType, q: string)
    requires Shaped(t) && path != "" && WellFormed(Live(t)) && CreatePath(t, path, kind).code >= 0
    ensures var o := CreatePath(t, path, kind);
            o.table.count <= |o.table.slots| &&
            Resolve(Live(o.table), q) ==
            if Resolve(Live(t), q) >= 0 then Resolve(Live(t), q)
            else if NamesIt(path, q) then o.code else -1
  {
    WellFormedIsOrdered(Live(t));
    CreationAppends(t, path, kind);
    var e := NewEntry(t, BaseName(path), kind, Resolve(Live(t), ParentPath(path)));
    ResolveAfterAppend(Live(t), e, ParentPath(path), q);
  }

  /**
   After a successful `fs_mkdir` or `fs_create`: paths that resolved still resolve to the
   same slot, the only new ones are those with the new entry's components, and the
   path given resolves to the returned slot exactly when it contains a slash.
   */
  lemma CreationExtendsPaths(t: Table, path: CString, kind: FileType)
    requires Shaped(t) && path != "" && WellFormed(Live(t)) && CreatePath(t, path, kind).code >= 0
    ensures var o := CreatePath(t, path, kind);
            && o.table.count <= |o.table.slots|
            && (forall q: string :: Resolve(Live(t), q) >= 0 ==> Resolve(Live(o.table), q) == Resolve(Live(t), q))
            && (forall q: string :: Resolve(Live(t), q) < 0 ==>
                 Resolve(Live(o.table), q) == if NamesIt(path, q) then o.code else -1)
            && (Resolve(Live(o.table), path) == o.code <==> '/' in path)
  {
    var o := CreatePath(t, path, kind);
    WellFormedIsOrdered(Live(t));
    CreationAppends(t, path, kind);
    forall q: string
      ensures Resolve(Live(o.table), q) ==
              if Resolve(Live(t), q) >= 0 then Resolve(Live(t), q)
              else if NamesIt(path, q) then o.code else -1
    {
      CreationResolves(t, path, kind, q);
    }
    CreationNamesItself(t, path, kind);
  }

  lemma CreationNamesItself(t: Table, path: CString, kind: FileType)
    requires Shaped(t) && path != "" && WellFormed(Live(t)) && CreatePath(t, path, kind).code >= 0
    ensures '/' in path ==> NamesIt(path, path) && Resolve(Live(t), path) < 0
    ensures '/' !in path ==> !NamesIt(path, path)
  {
    WellFormedIsOrdered(Live(t));
    CreationAppends(t, path, kind);
    if '/' in path {
      PathParts(path);
      ComponentsOfName(BaseName(path));
      WalkLast(Live(t), 0, Components(ParentPath(path)), BaseName(path));
    } else {
      ComponentsOfName(path);
      ComponentsRooted("");
      ComponentsOfName("");
      assert "/" + "" == "/";
    }
  }

  /**
   The guard under which `touch` enters a nameless record: nothing after the last slash, a
   free slot, and a directory other than the root to put it in.  In the root the call fails,
   because the root's own record already matches.
   */
  ghost predicate Nameless(t: Table, path: CString)
    requires Shaped(t) && path != ""
  {
    var parent := Resolve(Live(t), ParentPath(path));
    BaseName(path) == "" && t.count < MAX_FILES && parent > 0 && t.slots[parent].kind == Directory
  }

  /** In a tree only the root has no name. */
  lemma NoNameButRoot(live: seq<Entry>, parent: nat)
    requires WellFormed(live)
    ensures Find(live, parent, "") == if parent == 0 then 0 else -1
  {
    var k := Find(live, parent, "");
    assert k > 0 ==> WellPlaced(live, k);
    assert Matches(live[0], 0, "");
  }

  /** Creation keeps the tree if and only if it does not enter a nameless record. */
  lemma CreationKeepsTreeIff(t: Table, path: CString, kind: FileType)
    requires Shaped(t) && path != "" && WellFormed(Live(t)) && kind != Unused
    requires |BaseName(path)| < MAX_FILENAME
    ensures var o := TouchPath(t, path, kind);
            && o.table.count <= |o.table.slots|
            && (WellFormed(Live(o.table)) <==> !Nameless(t, path))
  {
    var o, parent := TouchPath(t, path, kind), Resolve(Live(t), ParentPath(path));
    WellFormedIsOrdered(Live(t));
    if BaseName(path) == "" && parent >= 0 { NoNameButRoot(Live(t), parent); }
    if o.code >= 0 {
      CreationAppends(t, path, kind);
      if BaseName(path) == "" {
        assert !WellPlaced(Live(o.table), t.count);
      } else {
        BaseNameHasNoSlash(path);
        AppendKeepsTree(Live(t), NewEntry(t, BaseName(path), kind, parent));
      }
    }
  }

  lemma BaseNameHasNoSlash(path: CString)
    requires path != ""
    ensures '/' !in BaseName(path)
  {
  }

  lemma CreationKeepsOrder(t: Table, path: CString, kind: FileType)
    requires Shaped(t) && path != "" && Ordered(Live(t)) && kind != Unused
    requires |BaseName(path)| < MAX_FILENAME
    ensures var o := TouchPath(t, path, kind);
            Shaped(o.table) && Ordered(Live(o.table))
  {
    var o := TouchPath(t, path, kind);
    if o.code >= 0 {
      CreationAppends(t, path, kind);
      BaseNameHasNoSlash(path);
      assert forall i :: 0 <= i < MAX_FILES && i != t.count ==> o.table.slots[i] == t.slots[i];
      assert ShapedEntry(t.slots[t.count]);
    }
  }
}
