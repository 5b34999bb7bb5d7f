/**
 The file system calls as functions on the whole table: all 256 slots, live or stale,
 and the count of live ones.  `FileSystem` proves the kernel's loops compute these.
 */
module Operations {
  import opened CStrings
  import opened Paths
  import opened FileTable
  import opened Deletion

  datatype Table = Table(slots: seq<Entry>, count: nat)

  /** The sizes the C declarations give every slot, live or stale. */
  ghost predicate Shaped(t: Table) {
    && |t.slots| == MAX_FILES && t.count <= MAX_FILES
    && forall i :: 0 <= i < |t.slots| ==> ShapedEntry(t.slots[i])
  }

  ghost predicate ShapedEntry(e: Entry) {
    |e.name| < MAX_FILENAME && |e.data| == MAX_FILE_SIZE && e.size <= MAX_FILE_SIZE
  }

  function Live(t: Table): seq<Entry>
    requires t.count <= |t.slots|
  {
    t.slots[..t.count]
  }

  /** What a call leaves behind and the number it returns. */
  datatype Outcome = Outcome(table: Table, code: int)

  // ---------------------------------------------------------------- creating

  function Vacated(e: Entry): Entry {
    Entry("", Unused, 0, 0xFFFF_FFFF, e.data)
  }

  /** `fs_init`: stale data stays, everything else is reset. */
  function Formatted(t: Table): Table
    requires |t.slots| == MAX_FILES
  {
    Table(seq(MAX_FILES, i requires 0 <= i < MAX_FILES =>
      if i == 0 then Entry("", Directory, 0, 0, t.slots[0].data) else Vacated(t.slots[i])), 1)
  }

  /** The record `fs_create_file` fills in; the slot keeps its old bytes. */
  function NewEntry(t: Table, name: CString, kind: FileType, parent: nat): Entry
    requires t.count < |t.slots|
  {
    Entry(name, kind, 0, parent, t.slots[t.count].data)
  }

  function CreateEntry(t: Table, name: CString, kind: FileType, parent: nat): (o: Outcome)
    requires |t.slots| == MAX_FILES && t.count <= MAX_FILES
  {
    if t.count >= MAX_FILES then Outcome(t, -1)
    else if parent >= MAX_FILES || t.slots[parent].kind != Directory then Outcome(t, -1)
    else if Find(Live(t), parent, name) >= 0 then Outcome(t, -1)
    else Outcome(Table(t.slots[t.count := NewEntry(t, name, kind, parent)], t.count + 1), t.count)
  }

  /** The index of the last slash, or 0 when there is none. */
  function LastSlash(path: string): (at: nat)
    ensures path != "" ==> at < |path|
    ensures '/' in path ==> path[at] == '/' && '/' !in path[at + 1..]
    ensures '/' !in path ==> at == 0
  {
    if path == "" then 0
    else
      var last := |path| - 1;
      assert path == path[..last] + [path[last]];
      if path[last] == '/' then last
      else
        var at := LastSlash(path[..last]);
        assert '/' in path[..last] ==> path[at + 1..] == path[..last][at + 1..] + [path[last]];
        at
  }

  /** The directory part handed to the path resolver. */
  function ParentPath(path: CString): CString {
    if LastSlash(path) == 0 then "/" else path[..LastSlash(path)]
  }

  /** The name part: what follows the last slash, or the path without its first character. */
  function BaseName(path: CString): CString
    requires path != ""
  {
    path[LastSlash(path) + 1..]
  }

  /** The arguments a creating call can hold in its two local buffers. */
  ghost predicate CreatableHere(path: CString) {
    && path != ""
    && LastSlash(path) < PATH_BUFFER
    && |BaseName(path)| < MAX_FILENAME
    && ComponentsFit(ParentPath(path))
  }

  /** `fs_mkdir` and `fs_create`. */
  function CreatePath(t: Table, path: CString, kind: FileType): (o: Outcome)
    requires |t.slots| == MAX_FILES && t.count <= MAX_FILES && path != ""
  {
    if BaseName(path) == "" then Outcome(t, -1) else TouchPath(t, path, kind)
  }

  /** The `touch` command creates without checking for an empty name. */
  function TouchPath(t: Table, path: CString, kind: FileType): (o: Outcome)
    requires |t.slots| == MAX_FILES && t.count <= MAX_FILES && path != ""
  {
    var parent := Resolve(Live(t), ParentPath(path));
    if parent < 0 then Outcome(t, -1) else CreateEntry(t, BaseName(path), kind, parent)
  }

  // ---------------------------------------------------------------- deleting

  /**
   Slot `k` once the records from `d + 1` up to `shifted` have moved down and every live
   parent index has been through `rounds` rounds of lowering.
   */
  function ShiftedSlot(t: Table, d: nat, shifted: nat, rounds: nat, k: nat): Entry
    requires k < |t.slots| && shifted < |t.slots|
  {
    var e := if d <= k < shifted then t.slots[k + 1] else t.slots[k];
    if k < t.count then e.(parent := Settle(e.parent, d, rounds)) else e
  }

  /** All slots after compaction: the last live record is left behind as a stale copy. */
  function CompactedSlots(t: Table, d: nat): seq<Entry>
    requires t.count <= |t.slots| && d < t.count
  {
    seq(|t.slots|, k requires 0 <= k < |t.slots| => ShiftedSlot(t, d, t.count - 1, t.count - 1 - d, k))
  }

  lemma CompactionKeepsShape(t: Table, d: nat)
    requires Shaped(t) && d < t.count
    ensures Shaped(Table(CompactedSlots(t, d), t.count - 1))
  {
    forall k | 0 <= k < MAX_FILES ensures ShapedEntry(CompactedSlots(t, d)[k]) {
      assert ShapedEntry(t.slots[k]);
      if k + 1 < MAX_FILES { assert ShapedEntry(t.slots[k + 1]); }
    }
  }

  function HasChild(live: seq<Entry>, d: nat): bool {
    exists j :: 0 <= j < |live| && live[j].parent == d
  }

  /** `fs_delete_file`. */
  function DeletePath(t: Table, path: CString): (o: Outcome)
    requires t.count <= |t.slots|
  {
    var d := Resolve(Live(t), path);
    if d <= 0 then Outcome(t, -1)
    else if t.slots[d].kind == Directory && HasChild(Live(t), d) then Outcome(t, -1)
    else Outcome(Table(CompactedSlots(t, d), t.count - 1), 0)
  }

  // ---------------------------------------------------------------- reading and writing

  function Min(a: nat, b: nat): nat {
    if a < b then a else b
  }

  /** `fs_write`: at most 4096 bytes replace the start of the file's data. */
  function WritePath(t: Table, path: CString, bytes: seq<byte>): (o: Outcome)
    requires Shaped(t)
  {
    var i := Resolve(Live(t), path);
    if i < 0 || t.slots[i].kind != Regular then Outcome(t, -1)
    else
      assert ShapedEntry(t.slots[i]);
      var n := Min(|bytes|, MAX_FILE_SIZE);
      var e := t.slots[i];
      Outcome(t.(slots := t.slots[i := e.(size := n, data := bytes[..n] + e.data[n..])]), n)
  }

  datatype Reading = Unreadable | Bytes(bytes: seq<byte>)

  /** What a whole-file read of `path` yields. */
  function Contents(t: Table, path: CString): Reading
    requires Shaped(t)
  {
    var i := Resolve(Live(t), path);
    if i < 0 || t.slots[i].kind != Regular then Unreadable
    else
      assert ShapedEntry(t.slots[i]);
      Bytes(t.slots[i].data[..t.slots[i].size])
  }

  // ---------------------------------------------------------------- connections

  /** The live part of a compacted table is the compaction of its live part. */
  lemma CompactedLive(t: Table, d: nat)
    requires t.count <= |t.slots| && d < t.count
    ensures Live(Table(CompactedSlots(t, d), t.count - 1)) == Compacted(Live(t), d)
  {
  }

  /** Behind the live part nothing changes, except that the last live record stays as a stale copy. */
  lemma StaleSlots(t: Table, d: nat, k: nat)
    requires t.count <= |t.slots| && d < t.count && t.count - 1 <= k < |t.slots|
    requires k < t.count ==> t.slots[k].parent <= k
    ensures var was, now := t.slots[k], CompactedSlots(t, d)[k];
            && now.(parent := was.parent) == was
            && now.parent == if k >= t.count || k == d || was.parent <= d then was.parent
                             else d + (was.parent - d) / 2
  {
  }

  lemma DeletableIff(t: Table, d: nat)
    requires t.count <= |t.slots| && 1 <= d < t.count
    ensures Deletable(Live(t), d) <==> !(t.slots[d].kind == Directory && HasChild(Live(t), d))
  {
  }

  /** Deletion compacts the live part, or leaves it alone. */
  lemma DeletedLive(t: Table, path: CString)
    requires t.count <= |t.slots|
    ensures var after := DeletePath(t, path).table;
            var d := Resolve(Live(t), path);
            && after.count <= |after.slots|
            && Live(after) == if d > 0 && Deletable(Live(t), d) then Compacted(Live(t), d) else Live(t)
  {
    var d := Resolve(Live(t), path);
    if d > 0 {
      DeletableIff(t, d);
      CompactedLive(t, d);
    }
  }

  /** A slashed path is its directory part followed by its name part. */
  lemma PathParts(path: CString)
    requires '/' in path
    ensures '/' !in BaseName(path)
    ensures Components(path) == Components(ParentPath(path)) + Components(BaseName(path))
  {
    var at := LastSlash(path);
    assert path == path[..at] + "/" + path[at + 1..];
    ComponentsConcat(path[..at], path[at + 1..]);
    if at == 0 {
      ComponentsRooted("");
      assert "/" + "" == "/" && path[..0] == "";
    }
  }
}
