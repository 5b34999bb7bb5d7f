/**
 Whole runs of the file system: what every run keeps, what well-behaved runs keep, and
 that a file's contents outlive everything that does not address the file itself.
 */
module Runs {
  import opened CStrings
  import opened Paths
  import opened FileTable
  import opened Deletion
  import opened Operations
  import opened Creation

  datatype Call =
    | Mkdir(path: CString)
    | Create(path: CString)
    | Touch(path: CString)
    | Write(path: CString, bytes: seq<byte>)
    | Delete(path: CString)

  /** What the C buffers demand of the path of a call. */
  ghost predicate Fits(call: Call) {
    if call.Write? || call.Delete? then ComponentsFit(call.path) else CreatableHere(call.path)
  }

  ghost function Perform(t: Table, call: Call): (o: Outcome)
    requires Shaped(t) && Fits(call)
  {
    match call
    case Mkdir(path) => CreatePath(t, path, Directory)
    case Create(path) => CreatePath(t, path, Regular)
    case Touch(path) => TouchPath(t, path, Regular)
    case Write(path, bytes) => WritePath(t, path, bytes)
    case Delete(path) => DeletePath(t, path)
  }

  /** The slots stay within the sizes C gives them, and the live part stays ordered. */
  ghost predicate Sound(t: Table) {
    Shaped(t) && Ordered(Live(t))
  }

  // ---------------------------------------------------------------- one call

  lemma DeletionKeepsSound(t: Table, path: CString)
    requires Sound(t)
    ensures Sound(DeletePath(t, path).table)
  {
    var d := Resolve(Live(t), path);
    if DeletePath(t, path).code >= 0 {
      CompactionKeepsShape(t, d);
      CompactedLive(t, d);
      CompactionKeepsOrder(Live(t), d);
    }
  }

  /** The guard of a deletion in a tree: a slot other than the root, without children. */
  ghost predicate Removable(live: seq<Entry>, d: int) {
    d > 0 && Childless(live, d)
  }

  /**
   In a tree, deletion succeeds exactly for a slot other than the root without children.
   Otherwise it returns -1 and changes nothing.
   */
  lemma DeletionSucceedsIff(t: Table, path: CString)
    requires Sound(t) && WellFormed(Live(t))
    ensures var o := DeletePath(t, path);
            var d := Resolve(Live(t), path);
            && (o.code == 0 <==> Removable(Live(t), d))
            && (o.code == 0 ==> o.table.count == t.count - 1)
            && (o.code != 0 ==> o == Outcome(t, -1))
  {
    var d := Resolve(Live(t), path);
    if d > 0 {
      DeletableIff(t, d);
      if Deletable(Live(t), d) { DeletableIsChildless(Live(t), d); }
    }
  }

  /** Two lists of records that differ only in sizes and data. */
  ghost predicate SameTree(a: seq<Entry>, b: seq<Entry>) {
    |a| == |b| && forall i :: 0 <= i < |a| ==> SameNode(a[i], b[i])
  }

  ghost predicate SameNode(a: Entry, b: Entry) {
    a.name == b.name && a.kind == b.kind && a.parent == b.parent
  }

  lemma {:induction false} SameFind(a: seq<Entry>, b: seq<Entry>, parent: nat, name: string)
    requires SameTree(a, b)
    ensures Find(a, parent, name) == Find(b, parent, name)
  {
  }

  lemma {:induction false} SameWalk(a: seq<Entry>, b: seq<Entry>, from: nat, names: seq<string>)
    requires SameTree(a, b)
    ensures Walk(a, from, names) == Walk(b, from, names)
    decreases |names|
  {
    if names != [] {
      SameFind(a, b, from, names[0]);
      var k := Find(a, from, names[0]);
      if k >= 0 { SameWalk(a, b, k, names[1..]); }
    }
  }

  lemma WriteKeepsNode(t: Table, path: CString, bytes: seq<byte>, i: nat)
    requires Shaped(t) && i < MAX_FILES
    ensures var slots := WritePath(t, path, bytes).table.slots;
            |slots| == MAX_FILES && ShapedEntry(slots[i]) && SameNode(t.slots[i], slots[i])
  {
    assert ShapedEntry(t.slots[i]);
  }

  lemma WriteKeepsNodes(t: Table, path: CString, bytes: seq<byte>)
    requires Sound(t)
    ensures var o := WritePath(t, path, bytes);
            Sound(o.table) && SameTree(Live(t), Live(o.table))
  {
    var o := WritePath(t, path, bytes);
    forall i | 0 <= i < MAX_FILES ensures ShapedEntry(o.table.slots[i]) && SameNode(t.slots[i], o.table.slots[i]) {
      WriteKeepsNode(t, path, bytes, i);
    }
    SameTreeOrdered(Live(t), Live(o.table));
  }

  lemma SameTreeOrdered(a: seq<Entry>, b: seq<Entry>)
    requires SameTree(a, b) && Ordered(a)
    ensures Ordered(b)
  {
    assert forall i :: 0 <= i < |b| ==> SameNode(a[i], b[i]);
  }

  lemma SameTreeWellFormed(a: seq<Entry>, b: seq<Entry>)
    requires SameTree(a, b) && WellFormed(a)
    ensures WellFormed(b)
  {
    forall i | 0 <= i < |b| ensures SameNode(a[i], b[i]) && (i > 0 ==> WellPlaced(b, i)) {
      assert SameNode(a[i], b[i]);
      if i > 0 {
        assert WellPlaced(a, i);
        assert SameNode(a[a[i].parent], b[a[i].parent]);
      }
    }
    forall i, j | 0 <= i < j < |b| ensures !Matches(b[i], b[j].parent, b[j].name) {
      assert SameNode(a[i], b[i]) && SameNode(a[j], b[j]);
      assert !Matches(a[i], a[j].parent, a[j].name);
    }
  }

  lemma CallKeepsSound(t: Table, call: Call)
    requires Sound(t) && Fits(call)
    ensures Sound(Perform(t, call).table)
  {
    match call
    case Mkdir(path) => CreationKeepsOrder(t, path, Directory);
    case Create(path) => CreationKeepsOrder(t, path, Regular);
    case Touch(path) => CreationKeepsOrder(t, path, Regular);
    case Write(path, bytes) => WriteKeepsNodes(t, path, bytes);
    case Delete(path) => DeletionKeepsSound(t, path);
  }

  /**
   Two ways a call can spoil the table, both visible before the call: removing a slot with a
   surviving parent more than two slots above, and a `touch` that enters a nameless record.
   */
  ghost predicate Tidy(t: Table, call: Call)
    requires Shaped(t) && (call.Touch? ==> call.path != "")
  {
    match call
    case Delete(path) => var d := Resolve(Live(t), path); Removable(Live(t), d) ==> ParentsNearby(Live(t), d)
    case Touch(path) => !Nameless(t, path)
    case _ => true
  }

  lemma TidyDeletion(t: Table, path: CString)
    requires Sound(t) && WellFormed(Live(t)) && Tidy(t, Delete(path)) && DeletePath(t, path).code >= 0
    ensures var d := Resolve(Live(t), path);
            && Deletable(Live(t), d)
            && Live(DeletePath(t, path).table) == Removed(Live(t), d)
            && WellFormed(Removed(Live(t), d))
            && PathsKept(Live(t), Removed(Live(t), d), d)
  {
    var d := Resolve(Live(t), path);
    DeletionSucceedsIff(t, path);
    DeletableIff(t, d);
    CompactedLive(t, d);
    CompactionRenumbersIff(Live(t), d);
    RemovalKeepsTree(Live(t), d);
    RemovalKeepsPaths(Live(t), d);
  }

  lemma TidyCallKeepsTree(t: Table, call: Call)
    requires Sound(t) && WellFormed(Live(t)) && Fits(call) && Tidy(t, call)
    ensures Sound(Perform(t, call).table) && WellFormed(Live(Perform(t, call).table))
  {
    CallKeepsSound(t, call);
    match call
    case Mkdir(path) => CreationKeepsTreeIff(t, path, Directory);
    case Create(path) => CreationKeepsTreeIff(t, path, Regular);
    case Touch(path) => CreationKeepsTreeIff(t, path, Regular);
    case Write(path, bytes) =>
      WriteKeepsNodes(t, path, bytes);
      SameTreeWellFormed(Live(t), Live(Perform(t, call).table));
    case Delete(path) =>
      if DeletePath(t, path).code >= 0 { TidyDeletion(t, path); }
  }

  /** Exactly when a call leaves a tree behind: a condition on the table before the call. */
  ghost predicate LeavesTree(t: Table, call: Call)
    requires Shaped(t) && (call.Touch? ==> call.path != "")
  {
    match call
    case Delete(path) => var d := Resolve(Live(t), path); Removable(Live(t), d) ==> LandsWell(Live(t), d)
    case Touch(path) => !Nameless(t, path)
    case _ => true
  }

  lemma DeletionKeepsTreeIff(t: Table, path: CString)
    requires Sound(t) && WellFormed(Live(t))
    ensures Sound(DeletePath(t, path).table)
    ensures WellFormed(Live(DeletePath(t, path).table)) <==> LeavesTree(t, Delete(path))
  {
    DeletionKeepsSound(t, path);
    DeletedLive(t, path);
    var d := Resolve(Live(t), path);
    if d > 0 && Deletable(Live(t), d) {
      DeletableIsChildless(Live(t), d);
      CompactionKeepsTreeIff(Live(t), d);
    }
  }

  lemma CallKeepsTreeIff(t: Table, call: Call)
    requires Sound(t) && WellFormed(Live(t)) && Fits(call)
    ensures Sound(Perform(t, call).table)
    ensures WellFormed(Live(Perform(t, call).table)) <==> LeavesTree(t, call)
  {
    CallKeepsSound(t, call);
    match call
    case Mkdir(path) => TidyCallKeepsTree(t, call);
    case Create(path) => TidyCallKeepsTree(t, call);
    case Touch(path) => CreationKeepsTreeIff(t, path, Regular);
    case Write(path, bytes) => TidyCallKeepsTree(t, call);
    case Delete(path) => DeletionKeepsTreeIff(t, path);
  }

  // ---------------------------------------------------------------- runs

  ghost predicate AllFit(calls: seq<Call>) {
    forall k :: 0 <= k < |calls| ==> Fits(calls[k])
  }

  /** The table after a sequence of calls. */
  ghost function Run(t: Table, calls: seq<Call>): (after: Table)
    requires Sound(t) && AllFit(calls)
    ensures Sound(after)
    decreases |calls|
  {
    if calls == [] then t
    else
      CallKeepsSound(t, calls[0]);
      Run(Perform(t, calls[0]).table, calls[1..])
  }

  ghost predicate TidyRun(t: Table, calls: seq<Call>)
    requires Sound(t) && AllFit(calls)
    decreases |calls|
  {
    calls == [] ||
    (Tidy(t, calls[0]) &&
     (CallKeepsSound(t, calls[0]);
      TidyRun(Perform(t, calls[0]).table, calls[1..])))
  }

  lemma FormattedIsTree(t: Table)
    requires Shaped(t)
    ensures Sound(Formatted(t)) && WellFormed(Live(Formatted(t))) && Formatted(t).count == 1
    ensures forall i :: 1 <= i < 256 ==> Formatted(t).slots[i] == Entry("", Unused, 0, 0xFFFF_FFFF, t.slots[i].data)
  {
  }

  /** Every run from a fresh table keeps the count, the root and the order of parents. */
  lemma EveryRunIsSound(t: Table, calls: seq<Call>)
    requires Shaped(t) && AllFit(calls)
    ensures Sound(Formatted(t))
    ensures var after := Run(Formatted(t), calls);
            && 1 <= after.count <= 256
            && IsRoot(after.slots[0])
            && forall i :: 0 <= i < after.count ==> after.slots[i].parent <= i
  {
    FormattedIsTree(t);
    var after := Run(Formatted(t), calls);
    assert forall i :: 0 <= i < after.count ==> Live(after)[i] == after.slots[i];
  }

  /** Tidy runs keep the whole tree invariant. */
  lemma {:induction false} TidyRunKeepsTree(t: Table, calls: seq<Call>)
    requires Sound(t) && AllFit(calls) && WellFormed(Live(t)) && TidyRun(t, calls)
    ensures WellFormed(Live(Run(t, calls)))
    decreases |calls|
  {
    if calls != [] {
      TidyCallKeepsTree(t, calls[0]);
      TidyRunKeepsTree(Perform(t, calls[0]).table, calls[1..]);
    }
  }

  // ---------------------------------------------------------------- file contents

  /** A write is read back up to 4096 bytes; what is not a readable file is left alone. */
  lemma WriteThenRead(t: Table, path: CString, bytes: seq<byte>)
    requires Sound(t)
    ensures var o := WritePath(t, path, bytes);
            && Sound(o.table)
            && if Contents(t, path).Unreadable? then o == Outcome(t, -1)
               else
                 && o.code == (if |bytes| < 4096 then |bytes| else 4096)
                 && Contents(o.table, path) == Bytes(bytes[..o.code])
                 && var i := Resolve(Live(t), path);
                    var was, now := t.slots[i], o.table.slots[i];
                    && o.table == t.(slots := t.slots[i := now])
                    && now == was.(size := o.code, data := now.data)
                    && |now.data| == |was.data| && now.data[o.code..] == was.data[o.code..]
  {
    var o := WritePath(t, path, bytes);
    WriteKeepsNodes(t, path, bytes);
    SameWalk(Live(t), Live(o.table), 0, Components(path));
  }

  /** A write reaches no file but the one its path names. */
  lemma WriteElsewhere(t: Table, path: CString, bytes: seq<byte>, other: CString)
    requires Sound(t) && Resolve(Live(t), other) != Resolve(Live(t), path)
    ensures var o := WritePath(t, path, bytes);
            Sound(o.table) && Contents(o.table, other) == Contents(t, other)
  {
    var o := WritePath(t, path, bytes);
    WriteKeepsNodes(t, path, bytes);
    SameWalk(Live(t), Live(o.table), 0, Components(other));
  }

  /** A new file reads as empty, whatever bytes its slot was left with. */
  lemma NewFileIsEmpty(t: Table, path: CString)
    requires Sound(t) && WellFormed(Live(t)) && Fits(Create(path)) && '/' in path
    requires Perform(t, Create(path)).code >= 0
    ensures var o := Perform(t, Create(path));
            && Sound(o.table)
            && o.table.slots[o.code].data == t.slots[o.code].data
            && Contents(o.table, path) == Bytes([])
  {
    CallKeepsSound(t, Create(path));
    CreationAppends(t, path, Regular);
    CreationExtendsPaths(t, path, Regular);
  }

  /** The call does not write to or delete what `path` names. */
  ghost predicate Spares(call: Call, path: CString) {
    (call.Write? || call.Delete?) ==> Components(call.path) != Components(path)
  }

  lemma CreationKeepsContents(t: Table, path: CString, kind: FileType, mine: CString)
    requires Sound(t) && WellFormed(Live(t)) && path != "" && kind != Unused
    requires BaseName(path) != "" && |BaseName(path)| < MAX_FILENAME
    requires Contents(t, mine).Bytes?
    ensures var o := TouchPath(t, path, kind);
            Sound(o.table) && Contents(o.table, mine) == Contents(t, mine)
  {
    CreationKeepsOrder(t, path, kind);
    if TouchPath(t, path, kind).code >= 0 { CreationExtendsPaths(t, path, kind); }
  }

  lemma DeletionKeepsContents(t: Table, path: CString, mine: CString)
    requires Sound(t) && WellFormed(Live(t)) && Tidy(t, Delete(path))
    requires Contents(t, mine).Bytes? && Resolve(Live(t), path) != Resolve(Live(t), mine)
    ensures var o := DeletePath(t, path);
            Sound(o.table) && Contents(o.table, mine) == Contents(t, mine)
  {
    DeletionKeepsSound(t, path);
    var o := DeletePath(t, path);
    if o.code >= 0 {
      TidyDeletion(t, path);
      var d, i := Resolve(Live(t), path), Resolve(Live(t), mine);
      assert Resolve(Live(o.table), mine) == Moved(i, d);
      assert Live(o.table)[Moved(i, d)] == Removed(Live(t), d)[Moved(i, d)];
      assert Source(Moved(i, d), d) == i;
    }
  }

  lemma CallKeepsContents(t: Table, call: Call, path: CString)
    requires Sound(t) && WellFormed(Live(t)) && Fits(call) && Tidy(t, call)
    requires Contents(t, path).Bytes? && Spares(call, path)
    ensures Sound(Perform(t, call).table) && Contents(Perform(t, call).table, path) == Contents(t, path)
  {
    CallKeepsSound(t, call);
    PathsAgree(Live(t), path, call.path);
    match call
    case Mkdir(q) => if BaseName(q) != "" { CreationKeepsContents(t, q, Directory, path); }
    case Create(q) => if BaseName(q) != "" { CreationKeepsContents(t, q, Regular, path); }
    case Touch(q) => if BaseName(q) != "" { CreationKeepsContents(t, q, Regular, path); }
    case Write(q, bytes) => WriteElsewhere(t, q, bytes, path);
    case Delete(q) => DeletionKeepsContents(t, q, path);
  }

  /** A file's contents survive every tidy run that never writes or deletes the file itself. */
  lemma {:induction false} ContentsOutliveRuns(t: Table, calls: seq<Call>, path: CString)
    requires Sound(t) && WellFormed(Live(t)) && AllFit(calls) && TidyRun(t, calls)
    requires Contents(t, path).Bytes?
    requires forall k :: 0 <= k < |calls| ==> Spares(calls[k], path)
    ensures Contents(Run(t, calls), path) == Contents(t, path)
    decreases |calls|
  {
    if calls != [] {
      CallKeepsContents(t, calls[0], path);
      TidyCallKeepsTree(t, calls[0]);
      ContentsOutliveRuns(Perform(t, calls[0]).table, calls[1..], path);
    }
  }

  /** What was written is what is read, however many tidy calls on other files come between. */
  lemma WriteSurvivesRun(t: Table, path: CString, bytes: seq<byte>, calls: seq<Call>, all: seq<Call>)
    requires Sound(t) && WellFormed(Live(t)) && Contents(t, path).Bytes?
    requires all == [Write(path, bytes)] + calls && AllFit(all) && TidyRun(t, all)
    requires forall k :: 0 <= k < |calls| ==> Spares(calls[k], path)
    ensures Contents(Run(t, all), path) == Bytes(bytes[..Min(|bytes|, MAX_FILE_SIZE)])
  {
    assert all[0] == Write(path, bytes) && all[1..] == calls;
    WriteThenRead(t, path, bytes);
    TidyCallKeepsTree(t, all[0]);
    ContentsOutliveRuns(Perform(t, all[0]).table, calls, path);
  }
}
