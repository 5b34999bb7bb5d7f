/**
 The kernel's file system: the global table, changed in place by loops.  Every call is
 proved to compute the function of the same meaning in `Operations`.
 */
module FileSystem {
  import opened CStrings
  import opened Paths
  import opened FileTable
  import opened Deletion
  import opened Operations
  import opened Listing

  function Lowered(e: Entry, i: nat): Entry {
    if e.parent > i then e.(parent := e.parent - 1) else e
  }

  /** One shift: slot `i` takes its neighbour's record, then every live parent is lowered. */
  lemma LowerShifted(t: Table, d: nat, i: nat, k: nat)
    requires |t.slots| == MAX_FILES && d <= i < t.count - 1 && t.count <= MAX_FILES && k < MAX_FILES
    ensures ShiftedSlot(t, d, i + 1, i - d, k) ==
            if k == i then ShiftedSlot(t, d, i, i - d, i + 1) else ShiftedSlot(t, d, i, i - d, k)
    ensures ShiftedSlot(t, d, i + 1, i + 1 - d, k) ==
            if k < t.count then Lowered(ShiftedSlot(t, d, i + 1, i - d, k), i)
            else ShiftedSlot(t, d, i + 1, i - d, k)
  {
    var e := if d <= k < i + 1 then t.slots[k + 1] else t.slots[k];
    SettleStep(e.parent, d, i - d);
  }

  /** The outer loop has come to slot `i`. */
  ghost predicate ShiftedUpTo(slots: seq<Entry>, t: Table, d: nat, i: nat)
    requires d <= i < |t.slots|
  {
    |slots| == |t.slots| && forall k :: 0 <= k < |slots| ==> slots[k] == ShiftedSlot(t, d, i, i - d, k)
  }

  lemma NothingShifted(t: Table, d: nat)
    requires d < t.count <= |t.slots|
    ensures ShiftedUpTo(t.slots, t, d, d)
  {
  }

  lemma ShiftedToTheEnd(slots: seq<Entry>, t: Table, d: nat)
    requires d < t.count <= |t.slots| && ShiftedUpTo(slots, t, d, t.count - 1)
    ensures slots == CompactedSlots(t, d)
  {
  }

  class FileSystem {
    const files: array<Entry>
    var fileCount: nat

    ghost predicate Valid()
      reads this, files
    {
      files.Length == MAX_FILES && Shaped(Value())
    }

    ghost function Value(): Table
      reads this, files
    {
      Table(files[..], fileCount)
    }

    /** The static storage before `fs_init`. */
    constructor ()
      ensures Valid() && fileCount == 0 && fresh(files)
    {
      var zeros := seq(MAX_FILE_SIZE, i => 0 as byte);
      files := new Entry[MAX_FILES](i => Entry("", Unused, 0, 0, zeros));
      fileCount := 0;
    }

    /** `fs_init` */
    method Init()
      requires Valid()
      modifies this`fileCount, files
      ensures Valid() && Value() == Formatted(old(Value()))
    {
      ghost var t := Value();
      for i := 0 to MAX_FILES
        invariant forall k :: 0 <= k < i ==> files[k] == Vacated(t.slots[k])
        invariant forall k :: i <= k < MAX_FILES ==> files[k] == t.slots[k]
      {
        files[i] := Entry("", Unused, 0, 0xFFFF_FFFF, files[i].data);
      }
      files[0] := Entry("", Directory, 0, 0, files[0].data);
      fileCount := 1;
      assert forall k :: 0 <= k < MAX_FILES ==> ShapedEntry(t.slots[k]);
    }

    /** The scan for `name` under `parent` shared by creation and path resolution. */
    method Lookup(parent: nat, name: CString) returns (found: int)
      requires Valid()
      ensures found == Find(Live(Value()), parent, name)
    {
      var i := 0;
      while i < fileCount
        invariant i <= fileCount
        invariant forall k :: 0 <= k < i ==> !Matches(files[k], parent, name)
      {
        if files[i].parent == parent {
          var same := StrEqual(files[i].name, name);
          if same {
            assert Matches(Live(Value())[i], parent, name);
            return i;
          }
        }
        i := i + 1;
      }
      assert forall k :: 0 <= k < fileCount ==> Live(Value())[k] == files[k];
      return -1;
    }

    /** `fs_create_file` */
    method CreateFile(name: CString, kind: FileType, parent: nat) returns (code: int)
      requires Valid() && |name| < MAX_FILENAME
      modifies this`fileCount, files
      ensures Valid() && Outcome(Value(), code) == CreateEntry(old(Value()), name, kind, parent)
    {
      if fileCount >= MAX_FILES { return -1; }
      if parent >= MAX_FILES || files[parent].kind != Directory { return -1; }
      var found := Lookup(parent, name);
      if found >= 0 { return -1; }
      ghost var t := Value();
      var index := fileCount;
      fileCount := fileCount + 1;
      assert ShapedEntry(t.slots[index]);
      files[index] := Entry(name, kind, 0, parent, files[index].data);
      assert Value().slots == t.slots[index := files[index]];
      return index;
    }

    /** `fs_parse_path`: the tokeniser loop resolves exactly as a walk over the components. */
    method ParsePath(path: CString) returns (slot: int)
      requires Valid() && ComponentsFit(path)
      ensures slot == Resolve(Live(Value()), path)
    {
      ghost var live := Live(Value());
      if At(path, 0) == NUL || (At(path, 0) == '/' && At(path, 1) == NUL) {
        TrivialPath(path);
        return 0;
      }
      var component := new char[MAX_FILENAME];
      var current: nat := 0;
      var next := To(0);
      assert path[0..] == path;
      while next.To?
        invariant component.Length == MAX_FILENAME
        invariant next.To? ==> next.offset < |path| && ComponentsFit(path[next.offset..])
        invariant Resolve(live, path) ==
                  if next.To? then Walk(live, current, Components(path[next.offset..])) else current
        decreases if next.To? then |path| - next.offset else 0
      {
        ghost var rest := path[next.offset..];
        next := GetNextPathComponent(path, next.offset, component);
        var name := Text(component[..]);
        ghost var after := if next.To? then path[next.offset..] else "";
        TokenFits(rest, name, after);
        WalkToken(live, current, rest, name, after);
        if component[0] == NUL {
          assert name == "";
          continue;
        }
        var found := Lookup(current, name);
        if found == -1 { return -1; }
        current := found;
      }
      return current;
    }

    /** `fs_mkdir` and `fs_create`, which differ only in the kind they create. */
    method CreateAt(path: CString, kind: FileType) returns (code: int)
      requires Valid() && CreatableHere(path)
      modifies this`fileCount, files
      ensures Valid() && Outcome(Value(), code) == CreatePath(old(Value()), path, kind)
    {
      var parentPath := new char[PATH_BUFFER](i => NUL);
      var name := new char[MAX_FILENAME](i => NUL);
      SplitPath(path, parentPath, name);
      if name[0] == NUL { return -1; }
      var parent := ParsePath(Text(parentPath[..]));
      if parent < 0 { return -1; }
      code := CreateFile(Text(name[..]), kind, parent);
    }

    /** `fs_delete_file`, with the compaction loops as the kernel runs them. */
    method DeleteFile(path: CString) returns (code: int)
      requires Valid() && ComponentsFit(path)
      modifies this`fileCount, files
      ensures Valid() && Outcome(Value(), code) == DeletePath(old(Value()), path)
    {
      var index := ParsePath(path);
      if index <= 0 { return -1; }
      if files[index].kind == Directory {
        var found := AnyChild(index);
        if found { return -1; }
      }
      CompactionKeepsShape(Value(), index);
      Compact(index);
      return 0;
    }

    /** The loop that looks for an entry in the directory at `index`. */
    method AnyChild(index: nat) returns (found: bool)
      requires Valid()
      ensures found <==> HasChild(Live(Value()), index)
    {
      ghost var live := Live(Value());
      for i := 0 to fileCount
        invariant forall k :: 0 <= k < i ==> live[k].parent != index
      {
        if files[i].parent == index {
          assert live[i].parent == index;
          return true;
        }
      }
      return false;
    }

    /** The loops that close the gap at `index`. */
    method Compact(index: nat)
      requires files.Length == MAX_FILES && 1 <= index < fileCount <= MAX_FILES
      modifies this`fileCount, files
      ensures Value() == Table(CompactedSlots(old(Value()), index), old(fileCount) - 1)
    {
      ghost var t := Value();
      NothingShifted(t, index);
      var i := index;
      while i < fileCount - 1
        invariant index <= i <= fileCount - 1 && fileCount == t.count
        invariant ShiftedUpTo(files[..], t, index, i)
      {
        ShiftDown(t, index, i);
        i := i + 1;
      }
      ShiftedToTheEnd(files[..], t, index);
      fileCount := fileCount - 1;
    }

    /** One turn of the outer loop. */
    method ShiftDown(ghost t: Table, ghost index: nat, i: nat)
      requires files.Length == MAX_FILES == |t.slots| && fileCount == t.count <= MAX_FILES
      requires index <= i < fileCount - 1
      requires ShiftedUpTo(files[..], t, index, i)
      modifies files
      ensures ShiftedUpTo(files[..], t, index, i + 1)
    {
      assert forall k :: 0 <= k < MAX_FILES ==> files[k] == files[..][k];
      files[i] := files[i + 1];
      forall k | 0 <= k < MAX_FILES ensures files[k] == ShiftedSlot(t, index, i + 1, i - index, k) {
        LowerShifted(t, index, i, k);
      }
      LowerParents(i);
      forall k | 0 <= k < MAX_FILES ensures files[k] == ShiftedSlot(t, index, i + 1, i + 1 - index, k) {
        LowerShifted(t, index, i, k);
      }
    }

    /** The inner loop: every live parent above `i` drops by one. */
    method LowerParents(i: nat)
      requires files.Length == MAX_FILES && fileCount <= MAX_FILES
      modifies files
      ensures forall k :: fileCount <= k < MAX_FILES ==> files[k] == old(files[k])
      ensures forall k :: 0 <= k < fileCount ==> files[k] == Lowered(old(files[k]), i)
    {
      for j := 0 to fileCount
        invariant forall k :: j <= k < MAX_FILES ==> files[k] == old(files[k])
        invariant forall k :: 0 <= k < j ==> files[k] == Lowered(old(files[k]), i)
      {
        if files[j].parent > i {
          files[j] := files[j].(parent := files[j].parent - 1);
        }
      }
    }

    /** `fs_write` */
    method Write(path: CString, data: array<byte>, size: nat) returns (code: int)
      requires Valid() && ComponentsFit(path) && Min(size, MAX_FILE_SIZE) <= data.Length
      modifies files
      ensures Valid()
      ensures Outcome(Value(), code) == WritePath(old(Value()), path, data[..Min(size, MAX_FILE_SIZE)])
    {
      ghost var t := Value();
      var index := ParsePath(path);
      if index < 0 || files[index].kind != Regular { return -1; }
      var n := if size > MAX_FILE_SIZE then MAX_FILE_SIZE else size;
      assert ShapedEntry(t.slots[index]);
      CopyIn(index, data, n);
      files[index] := files[index].(size := n);
      ghost var stored := t.slots[index].(size := n, data := data[..n] + t.slots[index].data[n..]);
      assert data[..n][..n] == data[..n];
      assert files[..] == t.slots[index := stored];
      StoredShape(t, index, stored);
      return n;
    }

    /** The byte loop of `fs_write`. */
    method CopyIn(index: nat, data: array<byte>, n: nat)
      requires index < files.Length && n <= data.Length && n <= |files[index].data|
      modifies files
      ensures forall k :: 0 <= k < files.Length && k != index ==> files[k] == old(files[k])
      ensures files[index] == old(files[index]).(data := data[..n] + old(files[index]).data[n..])
    {
      ghost var e := files[index];
      for i := 0 to n
        invariant forall k :: 0 <= k < files.Length && k != index ==> files[k] == old(files[k])
        invariant files[index] == e.(data := files[index].data) && |files[index].data| == |e.data|
        invariant forall k :: 0 <= k < i ==> files[index].data[k] == data[k]
        invariant forall k :: i <= k < |e.data| ==> files[index].data[k] == e.data[k]
      {
        files[index] := files[index].(data := files[index].data[i := data[i]]);
      }
      assert files[index].data == data[..n] + e.data[n..];
    }

    /** `fs_read` */
    method Read(path: CString, buffer: array<byte>, size: nat) returns (code: int)
      requires Valid() && ComponentsFit(path)
      requires Contents(Value(), path).Bytes? ==> Min(size, |Contents(Value(), path).bytes|) <= buffer.Length
      modifies buffer
      ensures Value() == old(Value())
      ensures Contents(Value(), path).Unreadable? ==> code == -1 && buffer[..] == old(buffer[..])
      ensures Contents(Value(), path).Bytes? ==>
                var bytes := Contents(Value(), path).bytes;
                && code == Min(size, |bytes|)
                && buffer[..] == bytes[..code] + old(buffer[code..])
    {
      ghost var contents := Contents(Value(), path);
      var index := ParsePath(path);
      if index < 0 || files[index].kind != Regular { return -1; }
      var file := files[index];
      FileContents(Value(), path, index);
      code := if size > file.size then file.size else size;
      CopyOut(file.data, code, buffer);
      assert Value() == old(Value());
      assert file.data[..code] == contents.bytes[..code];
    }

    /** Does `path` name a directory? */
    ghost predicate NamesDirectory(path: string)
      requires Valid()
      reads this, files
    {
      var dir := Resolve(Live(Value()), path);
      dir >= 0 && files[dir].kind == Directory
    }

    /** `fs_list_dir` */
    method ListDir(path: CString, buffer: array<char>, size: nat) returns (count: int)
      requires Valid() && ComponentsFit(path)
      requires 1 <= buffer.Length && size <= buffer.Length
      modifies buffer
      ensures Value() == old(Value()) && Valid()
      ensures !NamesDirectory(path) ==> count == -1 && buffer[..] == old(buffer[..])
      ensures NamesDirectory(path) ==>
                var live := Live(Value());
                var children := Children(live, Resolve(live, path));
                && count >= 0 && StopsAfter(live, children, size, count)
                && Text(buffer[..]) == Lines(live, children[..count])
    {
      var dir := ParsePath(path);
      if dir < 0 || dir >= MAX_FILES || files[dir].kind != Directory { return -1; }
      assert forall k :: 0 <= k < MAX_FILES ==> ShapedEntry(Value().slots[k]);
      count := ListChildren(dir, buffer, size);
    }

    /** The loop over the table that writes one line per child. */
    method ListChildren(dir: nat, buffer: array<char>, size: nat) returns (count: nat)
      requires files.Length == MAX_FILES && fileCount <= MAX_FILES
      requires forall k :: 0 <= k < MAX_FILES ==> |files[k].name| < MAX_FILENAME
      requires 1 <= buffer.Length && size <= buffer.Length
      modifies buffer
      ensures var live := Live(Value());
              && StopsAfter(live, Children(live, dir), size, count)
              && Text(buffer[..]) == Lines(live, Children(live, dir)[..count])
    {
      ghost var live := Live(Value());
      var at: nat, i: nat := 0, 0;
      count := 0;
      while i < fileCount
        invariant i <= fileCount && at < buffer.Length && at <= size
        invariant ListedSoFar(live, dir, i, size, buffer[..at], count)
      {
        ListedStep(live, dir, i, size, buffer[..at], count);
        if i != 0 && files[i].parent == dir {
          if size - at < LINE_ROOM { break; }
          at := WriteLine(buffer, at, files[i]);
          count := count + 1;
        }
        i := i + 1;
      }
      ghost var text := Lines(live, ChildrenBelow(live, dir, i));
      Terminate(buffer, at, text);
      ListedPrefix(live, dir, i, size, ChildrenBelow(live, dir, i));
    }
  }

  method Terminate(buffer: array<char>, at: nat, ghost text: CString)
    requires at < buffer.Length && buffer[..at] == text
    modifies buffer
    ensures Text(buffer[..]) == text
  {
    buffer[at] := NUL;
    assert Holds(buffer[..], text);
    HoldsText(buffer[..], text);
  }

  /** The children below slot `i` are written, `count` of them, and each had room. */
  ghost predicate ListedSoFar(live: seq<Entry>, dir: nat, i: nat, size: nat, text: string, count: nat)
    requires i <= |live|
  {
    var shown := ChildrenBelow(live, dir, i);
    count == |shown| && text == Lines(live, shown) && RoomBefore(live, shown, size)
  }

  lemma ListedStep(live: seq<Entry>, dir: nat, i: nat, size: nat, text: string, count: nat)
    requires i < |live| && ListedSoFar(live, dir, i, size, text, count)
    ensures i == 0 || live[i].parent != dir ==> ListedSoFar(live, dir, i + 1, size, text, count)
    ensures i != 0 && live[i].parent == dir && |text| + LINE_ROOM <= size ==>
              ListedSoFar(live, dir, i + 1, size, text + Label(live[i]) + "\n", count + 1)
  {
    var shown := ChildrenBelow(live, dir, i);
    if i != 0 && live[i].parent == dir && |text| + LINE_ROOM <= size {
      assert ChildrenBelow(live, dir, i + 1) == shown + [i];
      LinesSnoc(live, shown, i);
      RoomSoFar(live, shown, i, size);
    } else if i == 0 || live[i].parent != dir {
      assert ChildrenBelow(live, dir, i + 1) == shown;
    }
  }

  lemma RoomSoFar(live: seq<Entry>, shown: seq<nat>, next: nat, size: nat)
    requires forall k :: 0 <= k < |shown| ==> shown[k] < |live|
    requires next < |live| && |Lines(live, shown)| + LINE_ROOM <= size && RoomBefore(live, shown, size)
    ensures forall k :: 0 <= k < |shown + [next]| ==> (shown + [next])[k] < |live|
    ensures RoomBefore(live, shown + [next], size)
  {
    assert forall j :: 0 <= j <= |shown| ==> (shown + [next])[..j] == shown[..j];
    assert shown[..|shown|] == shown;
  }

  /** The children seen before slot `i`, where listing ended or ran out of room, are where it stops. */
  lemma ListedPrefix(live: seq<Entry>, dir: nat, i: nat, size: nat, shown: seq<nat>)
    requires i <= |live| && shown == ChildrenBelow(live, dir, i) && RoomBefore(live, shown, size)
    requires i < |live| ==> i != 0 && live[i].parent == dir && |Lines(live, shown)| + LINE_ROOM > size
    ensures var children := Children(live, dir);
            && |shown| <= |children| && children[..|shown|] == shown
            && StopsAfter(live, children, size, |shown|)
  {
    ChildrenGrow(live, dir, i, |live|);
  }

  /** One line of a listing: the name, a slash for a directory, a newline. */
  method WriteLine(buffer: array<char>, at: nat, e: Entry) returns (next: nat)
    requires |e.name| < MAX_FILENAME && at + LINE_ROOM <= buffer.Length
    modifies buffer
    ensures next == at + |Label(e)| + 1 < buffer.Length
    ensures buffer[..next] == old(buffer[..at]) + Label(e) + "\n"
  {
    StrCpy(buffer, at, e.name);
    next := at + |e.name|;
    assert buffer[..next] == old(buffer[..at]) + e.name;
    if e.kind == Directory {
      buffer[next] := '/';
      next := next + 1;
    }
    buffer[next] := '\n';
    next := next + 1;
  }

  /** The byte loop of `fs_read`. */
  method CopyOut(data: seq<byte>, n: nat, buffer: array<byte>)
    requires n <= |data| && n <= buffer.Length
    modifies buffer
    ensures buffer[..] == data[..n] + old(buffer[n..])
  {
    for i := 0 to n
      invariant forall k :: 0 <= k < i ==> buffer[k] == data[k]
      invariant forall k :: i <= k < buffer.Length ==> buffer[k] == old(buffer[k])
    {
      buffer[i] := data[i];
    }
  }

  lemma FileContents(t: Table, path: CString, i: nat)
    requires Shaped(t) && i == Resolve(Live(t), path) && i < MAX_FILES && t.slots[i].kind == Regular
    ensures ShapedEntry(t.slots[i]) && Contents(t, path) == Bytes(t.slots[i].data[..t.slots[i].size])
  {
  }

  lemma StoredShape(t: Table, index: nat, e: Entry)
    requires Shaped(t) && index < MAX_FILES && ShapedEntry(e)
    ensures Shaped(t.(slots := t.slots[index := e]))
  {
  }

  /** Consuming one token is one step of the walk; an empty token is none. */
  lemma WalkToken(live: seq<Entry>, from: nat, rest: string, token: string, after: string)
    requires NextToken(rest, token, after)
    ensures var k := Find(live, from, token);
            Walk(live, from, Components(rest)) ==
            if token == "" then Walk(live, from, Components(after))
            else if k < 0 then -1 else Walk(live, k, Components(after))
    ensures Components("") == []
  {
    TokenIsFirstComponent(rest, token, after);
    ComponentsOfName("");
    assert token != "" ==> Components(rest)[0] == token && Components(rest)[1..] == Components(after);
    assert token == "" ==> Components(rest) == Components(after);
  }

  lemma TrivialPath(path: CString)
    requires path == "" || path == "/"
    ensures Components(path) == []
  {
    ComponentsOfName("");
    ComponentsRooted("");
    assert "/" + "" == "/";
  }

  /** Copies the two parts of a path into zeroed buffers. */
  method SplitPath(path: CString, parentPath: array<char>, name: array<char>)
    requires CreatableHere(path) && parentPath != name
    requires parentPath.Length == PATH_BUFFER && name.Length == MAX_FILENAME
    requires forall k :: 0 <= k < PATH_BUFFER ==> parentPath[k] == NUL
    modifies parentPath, name
    ensures Text(parentPath[..]) == ParentPath(path)
    ensures Text(name[..]) == BaseName(path)
  {
    var lastSlash := FindLastSlash(path);
    for p := 0 to lastSlash
      invariant forall k :: 0 <= k < p ==> parentPath[k] == path[k]
      invariant forall k :: p <= k < PATH_BUFFER ==> parentPath[k] == NUL
    {
      parentPath[p] := path[p];
    }
    if parentPath[0] == NUL {
      SetText(parentPath, "/");
    } else {
      assert Holds(parentPath[..], path[..lastSlash]);
      HoldsText(parentPath[..], path[..lastSlash]);
    }
    SetText(name, path[lastSlash + 1..]);
  }

  /** The scan for the last slash. */
  method FindLastSlash(path: CString) returns (at: nat)
    ensures at == LastSlash(path)
  {
    at := 0;
    var p := 0;
    while At(path, p) != NUL
      invariant p <= |path|
      invariant at == LastSlash(path[..p])
      decreases |path| - p
    {
      assert path[..p + 1][..p] == path[..p];
      if At(path, p) == '/' { at := p; }
      p := p + 1;
    }
    assert path[..p] == path;
  }
}
