/**
 The file table as a value: records with parent indices, first-match lookup, path
 resolution as a walk over components, and the tree invariant.
 */
module FileTable {
  import opened CStrings
  import opened Paths

  const MAX_FILE_SIZE := 4096
  const MAX_FILES := 256

  newtype byte = x: int | 0 <= x < 256

  datatype FileType = Unused | Regular | Directory

  datatype Entry = Entry(name: CString, kind: FileType, size: nat, parent: nat, data: seq<byte>)

  predicate Matches(e: Entry, parent: nat, name: string) {
    e.parent == parent && e.name == name
  }

  /** The first live slot holding `name` under `parent`, or -1. */
  function Find(live: seq<Entry>, parent: nat, name: string): (slot: int)
    ensures -1 <= slot < |live|
    ensures slot >= 0 ==> Matches(live[slot], parent, name)
    ensures forall k :: 0 <= k < (if slot < 0 then |live| else slot) ==> !Matches(live[k], parent, name)
  {
    if live == [] then -1
    else
      var last := |live| - 1;
      var k := Find(live[..last], parent, name);
      if k >= 0 then k else if Matches(live[last], parent, name) then last else -1
  }

  /** Follow component names downwards from slot `from`. */
  function Walk(live: seq<Entry>, from: nat, names: seq<string>): (slot: int)
    ensures -1 <= slot
    ensures slot < |live| || slot == from
    decreases |names|
  {
    if names == [] then from
    else
      var k := Find(live, from, names[0]);
      if k < 0 then -1 else Walk(live, k, names[1..])
  }

  /** What a path denotes: a walk from the root over its components. */
  function Resolve(live: seq<Entry>, path: string): (slot: int)
    ensures -1 <= slot
    ensures slot < |live| || slot == 0
  {
    Walk(live, 0, Components(path))
  }

  lemma {:induction false} WalkConcat(live: seq<Entry>, from: nat, a: seq<string>, b: seq<string>)
    ensures var middle := Walk(live, from, a);
            Walk(live, from, a + b) == if middle < 0 then -1 else Walk(live, middle, b)
    decreases |a|
  {
    if a == [] {
      assert a + b == b;
    } else {
      assert (a + b)[1..] == a[1..] + b;
      var k := Find(live, from, a[0]);
      if k >= 0 { WalkConcat(live, k, a[1..], b); }
    }
  }

  lemma WalkLast(live: seq<Entry>, from: nat, init: seq<string>, name: string)
    ensures var middle := Walk(live, from, init);
            Walk(live, from, init + [name]) == if middle < 0 then -1 else Find(live, middle, name)
  {
    WalkConcat(live, from, init, [name]);
    var middle := Walk(live, from, init);
    if middle >= 0 {
      var k := Find(live, middle, name);
      if k >= 0 { assert Walk(live, k, [name][1..]) == k; }
    }
  }

  // ---------------------------------------------------------------- invariants

  ghost predicate IsRoot(e: Entry) {
    e.name == "" && e.kind == Directory && e.parent == 0
  }

  ghost predicate ProperName(name: string) {
    name != "" && '/' !in name && |name| < MAX_FILENAME
  }

  ghost predicate WellPlaced(live: seq<Entry>, i: nat)
    requires i < |live|
  {
    && live[i].kind != Unused
    && live[i].parent < i
    && live[live[i].parent].kind == Directory
    && ProperName(live[i].name)
  }

  /** The live slots form a directory tree with distinct names in each directory. */
  ghost predicate WellFormed(live: seq<Entry>) {
    && 1 <= |live| <= MAX_FILES
    && IsRoot(live[0])
    && (forall i :: 1 <= i < |live| ==> WellPlaced(live, i))
    && (forall i, j :: 0 <= i < j < |live| ==> !Matches(live[i], live[j].parent, live[j].name))
  }

  /** What every run keeps, whatever is deleted: parents never point upwards. */
  ghost predicate Ordered(live: seq<Entry>) {
    && 1 <= |live| <= MAX_FILES
    && IsRoot(live[0])
    && (forall i :: 0 <= i < |live| ==>
         live[i].kind != Unused && live[i].parent <= i && '/' !in live[i].name && |live[i].name| < MAX_FILENAME)
  }

  lemma WellFormedIsOrdered(live: seq<Entry>)
    requires WellFormed(live)
    ensures Ordered(live)
  {
    forall i | 0 <= i < |live|
      ensures live[i].kind != Unused && live[i].parent <= i && '/' !in live[i].name && |live[i].name| < MAX_FILENAME
    {
      if i > 0 { assert WellPlaced(live, i); }
    }
  }

  /** In a tree the first match is the only match. */
  lemma FindUnique(live: seq<Entry>, i: nat)
    requires WellFormed(live) && i < |live|
    ensures Find(live, live[i].parent, live[i].name) == i
  {
  }

  // ---------------------------------------------------------------- canonical paths

  /** The names from the root down to slot `i`, found by walking parents upwards. */
  ghost function Ancestry(live: seq<Entry>, i: nat): (names: seq<string>)
    requires WellFormed(live) && i < |live|
    decreases i
  {
    if i == 0 then [] else
      assert WellPlaced(live, i);
      Ancestry(live, live[i].parent) + [live[i].name]
  }

  /** The absolute path of slot `i`; the root prints as "/". */
  ghost function Location(live: seq<Entry>, i: nat): (path: string)
    requires WellFormed(live) && i < |live|
    ensures path != "" && path[0] == '/'
    decreases i
  {
    if i == 0 then "/" else
      assert WellPlaced(live, i);
      var parent := live[i].parent;
      (if parent == 0 then "" else Location(live, parent)) + "/" + live[i].name
  }

  lemma {:induction false} LocationComponents(live: seq<Entry>, i: nat)
    requires WellFormed(live) && i < |live|
    ensures Components(Location(live, i)) == Ancestry(live, i)
    decreases i
  {
    ComponentsOfName("");
    if i == 0 {
      ComponentsRooted("");
      assert "/" + "" == "/";
    } else {
      assert WellPlaced(live, i);
      var parent, name := live[i].parent, live[i].name;
      LocationComponents(live, parent);
      ComponentsOfName(name);
      ComponentsConcat(if parent == 0 then "" else Location(live, parent), name);
    }
  }

  lemma {:induction false} AncestryLeadsBack(live: seq<Entry>, i: nat)
    requires WellFormed(live) && i < |live|
    ensures Walk(live, 0, Ancestry(live, i)) == i
    decreases i
  {
    if i > 0 {
      assert WellPlaced(live, i);
      var parent := live[i].parent;
      AncestryLeadsBack(live, parent);
      WalkLast(live, 0, Ancestry(live, parent), live[i].name);
      FindUnique(live, i);
    }
  }

  lemma {:induction false} AncestryFits(live: seq<Entry>, i: nat)
    requires WellFormed(live) && i < |live|
    ensures forall c :: c in Ancestry(live, i) ==> |c| < MAX_FILENAME
    decreases i
  {
    if i > 0 {
      assert WellPlaced(live, i);
      AncestryFits(live, live[i].parent);
    }
  }

  /** Printing a slot's path gives one the tokeniser can hold, and resolving it returns the slot. */
  lemma LocationResolves(live: seq<Entry>, i: nat)
    requires WellFormed(live) && i < |live|
    ensures ComponentsFit(Location(live, i)) && Resolve(live, Location(live, i)) == i
  {
    LocationComponents(live, i);
    AncestryFits(live, i);
    AncestryLeadsBack(live, i);
  }

  /** Only one component list leads to a slot, so a slot's name list is its identity. */
  lemma {:induction false} AncestryUnique(live: seq<Entry>, names: seq<string>)
    requires WellFormed(live) && Walk(live, 0, names) >= 0
    requires forall k :: 0 <= k < |names| ==> names[k] != ""
    ensures names == Ancestry(live, Walk(live, 0, names))
    decreases |names|
  {
    if names != [] {
      var last := |names| - 1;
      var init := names[..last];
      assert names == init + [names[last]];
      WalkLast(live, 0, init, names[last]);
      AncestryUnique(live, init);
      assert WellPlaced(live, Find(live, Walk(live, 0, init), names[last]));
    }
  }

  /** Two paths name the same slot exactly when they have the same components. */
  lemma PathsAgree(live: seq<Entry>, path: string, other: string)
    requires WellFormed(live) && Resolve(live, path) >= 0
    ensures Resolve(live, other) == Resolve(live, path) <==> Components(other) == Components(path)
  {
    ComponentsAreNames(path);
    ComponentsAreNames(other);
    AncestryUnique(live, Components(path));
    if Resolve(live, other) >= 0 { AncestryUnique(live, Components(other)); }
  }
}
