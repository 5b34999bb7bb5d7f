/**
 Directory listings: one line per child in slot order, "name\n" or "name/\n".
 */
module Listing {
  import opened CStrings
  import opened Paths
  import opened FileTable

  /** The room `fs_list_dir` wants before it writes another line. */
  const LINE_ROOM := MAX_FILENAME + 3
  /** The size of the buffer the `ls` command passes. */
  const LS_BUFFER := MAX_FILES * (MAX_FILENAME + 2)

  /** The slots below `n`, other than the root, whose parent is `dir`, in slot order. */
  function ChildrenBelow(live: seq<Entry>, dir: nat, n: nat): (slots: seq<nat>)
    requires n <= |live|
    ensures forall k :: 0 <= k < |slots| ==> 1 <= slots[k] < n && live[slots[k]].parent == dir
    ensures |slots| <= n && (n > 0 ==> |slots| < n)
  {
    if n <= 1 then []
    else ChildrenBelow(live, dir, n - 1) + (if live[n - 1].parent == dir then [n - 1] else [])
  }

  function Children(live: seq<Entry>, dir: nat): seq<nat> {
    ChildrenBelow(live, dir, |live|)
  }

  function Label(e: Entry): CString {
    if e.kind == Directory then e.name + "/" else e.name
  }

  function Lines(live: seq<Entry>, slots: seq<nat>): (text: CString)
    requires forall k :: 0 <= k < |slots| ==> slots[k] < |live|
  {
    if slots == [] then "" else Label(live[slots[0]]) + "\n" + Lines(live, slots[1..])
  }

  lemma {:induction false} LinesSnoc(live: seq<Entry>, slots: seq<nat>, next: nat)
    requires forall k :: 0 <= k < |slots| ==> slots[k] < |live|
    requires next < |live|
    ensures Lines(live, slots + [next]) == Lines(live, slots) + Label(live[next]) + "\n"
    decreases |slots|
  {
    var all := slots + [next];
    if slots == [] {
      assert all[1..] == [];
    } else {
      assert all[1..] == slots[1..] + [next];
      LinesSnoc(live, slots[1..], next);
      Reassociate(Label(live[slots[0]]) + "\n", Lines(live, slots[1..]), Label(live[next]));
    }
  }

  lemma Reassociate(a: string, b: string, c: string)
    ensures a + (b + c + "\n") == a + b + c + "\n"
  {
  }

  /** There was room for a line before each of the slots. */
  ghost predicate RoomBefore(live: seq<Entry>, slots: seq<nat>, size: nat)
    requires forall k :: 0 <= k < |slots| ==> slots[k] < |live|
  {
    forall j :: 0 <= j < |slots| ==> |Lines(live, slots[..j])| + 259 <= size
  }

  /** Listing stopped after `count` children, the first point with too little room left. */
  ghost predicate StopsAfter(live: seq<Entry>, slots: seq<nat>, size: nat, count: nat)
    requires forall k :: 0 <= k < |slots| ==> slots[k] < |live|
  {
    && count <= |slots|
    && RoomBefore(live, slots[..count], size)
    && (count < |slots| ==> |Lines(live, slots[..count])| + 259 > size)
  }

  // ---------------------------------------------------------------- which entries are listed

  lemma {:induction false} ChildrenGrow(live: seq<Entry>, dir: nat, i: nat, n: nat)
    requires i <= n <= |live|
    ensures ChildrenBelow(live, dir, i) <= ChildrenBelow(live, dir, n)
    decreases n
  {
    if i < n { ChildrenGrow(live, dir, i, n - 1); }
  }

  ghost predicate Increasing(slots: seq<nat>) {
    forall j, k :: 0 <= j < k < |slots| ==> slots[j] < slots[k]
  }

  lemma {:induction false} ChildrenInSlotOrder(live: seq<Entry>, dir: nat, n: nat)
    requires n <= |live|
    ensures Increasing(ChildrenBelow(live, dir, n))
    decreases n
  {
    if n > 1 {
      ChildrenInSlotOrder(live, dir, n - 1);
      var earlier, slots := ChildrenBelow(live, dir, n - 1), ChildrenBelow(live, dir, n);
      assert forall j :: 0 <= j < |earlier| ==> slots[j] == earlier[j] < n - 1;
    }
  }

  lemma ListedOnceMore(earlier: seq<nat>, slots: seq<nat>, last: nat, i: nat)
    requires slots == earlier || slots == earlier + [last]
    requires if i == last then slots == earlier + [i] && i !in earlier else multiset(earlier)[i] == 1
    ensures multiset(slots)[i] == 1
  {
    assert multiset(earlier + [last]) == multiset(earlier) + multiset([last]);
  }

  /** Every child is listed, exactly once: its place among the children is unique. */
  lemma {:induction false} ChildIsListedOnce(live: seq<Entry>, dir: nat, n: nat, i: nat)
    requires 1 <= i < n <= |live| && live[i].parent == dir
    ensures multiset(ChildrenBelow(live, dir, n))[i] == 1
    decreases n
  {
    if i < n - 1 { ChildIsListedOnce(live, dir, n - 1, i); }
    var earlier := ChildrenBelow(live, dir, n - 1);
    assert earlier + [] == earlier && n - 1 !in earlier;
    ListedOnceMore(earlier, ChildrenBelow(live, dir, n), n - 1, i);
  }

  /** In a tree, every entry but the root is in the listing of one directory and no other. */
  lemma ListedInOneDirectory(live: seq<Entry>, i: nat)
    requires WellFormed(live) && 1 <= i < |live|
    ensures forall dir :: 0 <= dir < |live| ==>
              multiset(Children(live, dir))[i] == if dir == live[i].parent then 1 else 0
    ensures live[i].parent < |live| && live[live[i].parent].kind == Directory
  {
    assert WellPlaced(live, i);
    ChildIsListedOnce(live, live[i].parent, |live|, i);
    forall dir | 0 <= dir < |live| && dir != live[i].parent ensures i !in Children(live, dir) {
      var slots := Children(live, dir);
      assert forall k :: 0 <= k < |slots| ==> live[slots[k]].parent == dir;
    }
  }

  /** The number of entries below `n` listed by the directories below `m` together. */
  function TotalListed(live: seq<Entry>, m: nat, n: nat): nat
    requires m <= |live| && n <= |live|
  {
    if m == 0 then 0
    else TotalListed(live, m - 1, n)
         + (if live[m - 1].kind == Directory then |ChildrenBelow(live, m - 1, n)| else 0)
  }

  lemma {:induction false} TotalStep(live: seq<Entry>, m: nat, n: nat)
    requires m <= |live| && 1 <= n < |live|
    requires live[n].parent < |live| && live[live[n].parent].kind == Directory
    ensures TotalListed(live, m, n + 1) == TotalListed(live, m, n) + if live[n].parent < m then 1 else 0
    decreases m
  {
    if m > 0 { TotalStep(live, m - 1, n); }
  }

  lemma {:induction false} TotalStart(live: seq<Entry>, m: nat)
    requires m <= |live| && 1 <= |live|
    ensures TotalListed(live, m, 1) == 0
  {
    if m > 0 { TotalStart(live, m - 1); }
  }

  lemma {:induction false} TotalBelow(live: seq<Entry>, n: nat)
    requires WellFormed(live) && 1 <= n <= |live|
    ensures TotalListed(live, |live|, n) == n - 1
    decreases n
  {
    if n == 1 {
      TotalStart(live, |live|);
    } else {
      TotalBelow(live, n - 1);
      assert WellPlaced(live, n - 1);
      TotalStep(live, |live|, n - 1);
    }
  }

  /** The listings of all directories together count every entry but the root. */
  lemma ListingsCoverTable(live: seq<Entry>)
    requires WellFormed(live)
    ensures TotalListed(live, |live|, |live|) == |live| - 1
  {
    TotalBelow(live, |live|);
  }

  // ---------------------------------------------------------------- room

  lemma {:induction false} LinesBound(live: seq<Entry>, slots: seq<nat>)
    requires forall k :: 0 <= k < |slots| ==> slots[k] < |live|
    requires forall k :: 0 <= k < |live| ==> |live[k].name| < MAX_FILENAME
    ensures |Lines(live, slots)| <= (MAX_FILENAME + 1) * |slots|
  {
    if slots != [] { LinesBound(live, slots[1..]); }
  }

  /** With the buffer of the `ls` command nothing is ever cut off. */
  lemma LsNeverTruncates(live: seq<Entry>, dir: nat, size: nat, count: nat)
    requires Ordered(live) && size >= 256 * 258
    requires StopsAfter(live, Children(live, dir), size, count)
    ensures count == |Children(live, dir)|
  {
    LinesBound(live, Children(live, dir)[..count]);
  }

  // ---------------------------------------------------------------- reading a listing back

  datatype Item = Item(name: string, isDirectory: bool)

  function ReadLine(line: string): Item {
    if line != "" && line[|line| - 1] == '/' then Item(line[..|line| - 1], true) else Item(line, false)
  }

  function ReadLines(lines: seq<string>): seq<Item> {
    seq(|lines|, k requires 0 <= k < |lines| => ReadLine(lines[k]))
  }

  /** The names and kinds a listing shows: the pieces between newlines, without the last, empty one. */
  function ReadListing(text: string): seq<Item> {
    var pieces := Split(text, '\n');
    ReadLines(pieces[..|pieces| - 1])
  }

  function Labels(live: seq<Entry>, slots: seq<nat>): seq<string>
    requires forall k :: 0 <= k < |slots| ==> slots[k] < |live|
  {
    seq(|slots|, k requires 0 <= k < |slots| => Label(live[slots[k]]))
  }

  lemma {:induction false} SplitLines(live: seq<Entry>, slots: seq<nat>)
    requires forall k :: 0 <= k < |slots| ==> slots[k] < |live| && '\n' !in live[slots[k]].name
    ensures Split(Lines(live, slots), '\n') == Labels(live, slots) + [""]
    decreases |slots|
  {
    if slots != [] {
      var first := Label(live[slots[0]]);
      SplitLines(live, slots[1..]);
      SplitConcat(first, Lines(live, slots[1..]), '\n');
      SplitPlain(first, '\n');
      assert Labels(live, slots) == [first] + Labels(live, slots[1..]);
    }
  }

  /** A listing of properly named entries can be read back: same names, same kinds, same order. */
  lemma ListingReadsBack(live: seq<Entry>, slots: seq<nat>)
    requires forall k :: 0 <= k < |slots| ==>
               slots[k] < |live| && '\n' !in live[slots[k]].name && ProperName(live[slots[k]].name)
    ensures var items := ReadListing(Lines(live, slots));
            && |items| == |slots|
            && forall k :: 0 <= k < |slots| ==>
                 items[k] == Item(live[slots[k]].name, live[slots[k]].kind == Directory)
  {
    SplitLines(live, slots);
    var labels := Labels(live, slots);
    assert (labels + [""])[..|labels|] == labels;
    forall k | 0 <= k < |slots|
      ensures ReadLine(labels[k]) == Item(live[slots[k]].name, live[slots[k]].kind == Directory)
    {
      var e := live[slots[k]];
      assert e.kind == Directory ==> Label(e)[..|e.name|] == e.name;
      assert e.name[|e.name| - 1] in e.name;
    }
  }
}
