/**
 Deleting a slot.  The kernel closes the gap by shifting records down one by one, and
 after each single shift lowers every parent index above the shifted slot.  This module
 states what that nested loop leaves behind, when it equals "remove the slot and renumber
 the rest", and that this is exactly when path meanings survive.
 */
module Deletion {
  import opened Paths
  import opened FileTable

  /**
   The value a parent index `p` has after `rounds` shifts that started at slot `d`:
   it drops by one per shift until the shifted slot catches up with it half way.
   */
  function Settle(p: nat, d: nat, rounds: nat): nat {
    if p <= d then p
    else if p - d <= 2 * rounds then d + (p - d) / 2
    else p - rounds
  }

  /** One more shift, at slot `d + rounds`, lowers exactly the indices still above it. */
  lemma SettleStep(p: nat, d: nat, rounds: nat)
    ensures Settle(p, d, 0) == p
    ensures var q := Settle(p, d, rounds);
            Settle(p, d, rounds + 1) == if q > d + rounds then q - 1 else q
  {
  }

  /** Where the record that ends up in slot `k` came from. */
  function Source(k: nat, d: nat): nat {
    if k < d then k else k + 1
  }

  /** Where slot `i` ends up; a deleted or missing slot ends up nowhere. */
  function Moved(i: int, d: nat): int {
    if i < 0 || i == d then -1 else if i > d then i - 1 else i
  }

  /** The live slots after the kernel's compaction loop. */
  function Compacted(live: seq<Entry>, d: nat): (after: seq<Entry>)
    requires d < |live|
  {
    seq(|live| - 1, k requires 0 <= k < |live| - 1 =>
      live[Source(k, d)].(parent := Settle(live[Source(k, d)].parent, d, |live| - 1 - d)))
  }

  /** The live slots after removing slot `d` and renumbering every parent above it. */
  function Removed(live: seq<Entry>, d: nat): (after: seq<Entry>)
    requires d < |live|
  {
    seq(|live| - 1, k requires 0 <= k < |live| - 1 =>
      var e := live[Source(k, d)];
      e.(parent := if e.parent > d then e.parent - 1 else e.parent))
  }

  ghost predicate Childless(live: seq<Entry>, d: nat) {
    forall j :: 0 <= j < |live| ==> live[j].parent != d
  }

  /** What `fs_delete_file` checks: not the root, and a directory must be empty. */
  ghost predicate Deletable(live: seq<Entry>, d: nat) {
    1 <= d < |live| && (live[d].kind == Directory ==> Childless(live, d))
  }

  /** No surviving entry has a parent more than two slots above the deleted one. */
  ghost predicate ParentsNearby(live: seq<Entry>, d: nat) {
    forall j :: 0 <= j < |live| && j != d ==> live[j].parent <= d + 2
  }

  // ---------------------------------------------------------------- the compaction loop

  /** In every table the kernel can reach, the loop moves a parent half way down to `d`. */
  lemma CompactionHalves(live: seq<Entry>, d: nat, i: nat)
    requires Ordered(live) && 1 <= d < |live| && i < |live| && i != d
    ensures var after := Compacted(live, d)[Moved(i, d)];
            && after.(parent := live[i].parent) == live[i]
            && after.parent == (if live[i].parent <= d then live[i].parent else d + (live[i].parent - d) / 2)
  {
  }

  /** The loop is "remove and renumber" exactly when no surviving parent is above d + 2. */
  lemma CompactionRenumbersIff(live: seq<Entry>, d: nat)
    requires Ordered(live) && 1 <= d < |live|
    ensures Compacted(live, d) == Removed(live, d) <==> ParentsNearby(live, d)
  {
    var after, wanted := Compacted(live, d), Removed(live, d);
    if ParentsNearby(live, d) {
      forall k | 0 <= k < |after| ensures after[k] == wanted[k] {
        assert live[Source(k, d)].parent <= d + 2;
      }
    } else {
      var j :| 0 <= j < |live| && j != d && live[j].parent > d + 2;
      var k := Moved(j, d);
      assert Source(k, d) == j;
      assert after[k].parent != wanted[k].parent;
    }
  }

  // ---------------------------------------------------------------- the tree survives

  lemma DeletableIsChildless(live: seq<Entry>, d: nat)
    requires WellFormed(live) && Deletable(live, d)
    ensures Childless(live, d)
  {
    forall j | 0 <= j < |live| ensures live[j].parent != d {
      if j > 0 { assert WellPlaced(live, j); }
    }
  }

  lemma RemovalKeepsPlace(live: seq<Entry>, d: nat, k: nat)
    requires WellFormed(live) && Deletable(live, d) && 1 <= k < |live| - 1
    ensures WellPlaced(Removed(live, d), k)
  {
    DeletableIsChildless(live, d);
    var i := Source(k, d);
    assert WellPlaced(live, i);
    var parent := Moved(live[i].parent, d);
    assert Removed(live, d)[k].parent == parent && Source(parent, d) == live[i].parent;
  }

  lemma RemovalKeepsNamesDistinct(live: seq<Entry>, d: nat, i: nat, j: nat)
    requires WellFormed(live) && Deletable(live, d) && i < j < |live| - 1
    ensures !Matches(Removed(live, d)[i], Removed(live, d)[j].parent, Removed(live, d)[j].name)
  {
    DeletableIsChildless(live, d);
    var a, b := live[Source(i, d)], live[Source(j, d)];
    assert !Matches(a, b.parent, b.name);
  }

  lemma RemovalKeepsTree(live: seq<Entry>, d: nat)
    requires WellFormed(live) && Deletable(live, d)
    ensures WellFormed(Removed(live, d))
  {
    forall k | 1 <= k < |live| - 1 ensures WellPlaced(Removed(live, d), k) {
      RemovalKeepsPlace(live, d, k);
    }
    forall i, j | 0 <= i < j < |live| - 1
      ensures !Matches(Removed(live, d)[i], Removed(live, d)[j].parent, Removed(live, d)[j].name)
    {
      RemovalKeepsNamesDistinct(live, d, i, j);
    }
  }

  /** Any compaction, near or not, leaves parents at or below their own slot. */
  lemma CompactionKeepsOrder(live: seq<Entry>, d: nat)
    requires Ordered(live) && 1 <= d < |live|
    ensures Ordered(Compacted(live, d))
  {
  }

  /** The slot, before deletion, of the record that ends up as the parent of entry `j`. */
  function Landing(live: seq<Entry>, d: nat, j: nat): nat
    requires j < |live|
  {
    var p := live[j].parent;
    Source(if p <= d then p else d + (p - d) / 2, d)
  }

  /** Every survivor lands under a directory, and no two of the same name under the same one. */
  ghost predicate LandsWell(live: seq<Entry>, d: nat) {
    && (forall j :: 1 <= j < |live| && j != d ==>
         Landing(live, d, j) < |live| && live[Landing(live, d, j)].kind == Directory)
    && (forall i, j :: 0 <= i < j < |live| && i != d && j != d && live[i].name == live[j].name ==>
         Landing(live, d, i) != Landing(live, d, j))
  }

  /** The parent of a survivor after compaction is where its landing record moved. */
  lemma LandingMoves(live: seq<Entry>, d: nat, j: nat)
    requires Ordered(live) && 1 <= d < |live| && j < |live| && j != d
    ensures var k, landing := Moved(j, d), Landing(live, d, j);
            && landing < |live| && landing != d
            && Compacted(live, d)[k].parent == Moved(landing, d)
            && Compacted(live, d)[k].name == live[j].name && Compacted(live, d)[k].kind == live[j].kind
  {
    CompactionHalves(live, d, j);
  }

  lemma LandingInTree(live: seq<Entry>, d: nat, j: nat)
    requires WellFormed(live) && Deletable(live, d) && j < |live| && j != d
    ensures Ordered(live) && (j > 0 ==> Moved(Landing(live, d, j), d) < Moved(j, d))
  {
    DeletableIsChildless(live, d);
    WellFormedIsOrdered(live);
    if j > 0 { assert WellPlaced(live, j); }
  }

  lemma PlacedIffLandsInDirectory(live: seq<Entry>, d: nat, j: nat)
    requires WellFormed(live) && Deletable(live, d) && 1 <= j < |live| && j != d
    ensures Landing(live, d, j) < |live|
    ensures WellPlaced(Compacted(live, d), Moved(j, d)) <==> live[Landing(live, d, j)].kind == Directory
  {
    LandingInTree(live, d, j);
    LandingMoves(live, d, j);
    LandingMoves(live, d, Landing(live, d, j));
    assert WellPlaced(live, j);
  }

  lemma ClashIffLandsTogether(live: seq<Entry>, d: nat, i: nat, j: nat)
    requires WellFormed(live) && Deletable(live, d) && i < j < |live| && i != d && j != d
    ensures var after := Compacted(live, d);
            Matches(after[Moved(i, d)], after[Moved(j, d)].parent, after[Moved(j, d)].name) <==>
            live[i].name == live[j].name && Landing(live, d, i) == Landing(live, d, j)
  {
    WellFormedIsOrdered(live);
    LandingMoves(live, d, i);
    LandingMoves(live, d, j);
  }

  /** Deletion keeps the tree if and only if every survivor lands well. */
  lemma CompactionKeepsTreeIff(live: seq<Entry>, d: nat)
    requires WellFormed(live) && Deletable(live, d)
    ensures WellFormed(Compacted(live, d)) <==> LandsWell(live, d)
  {
    var after := Compacted(live, d);
    if LandsWell(live, d) {
      forall k | 1 <= k < |after| ensures WellPlaced(after, k) {
        PlacedIffLandsInDirectory(live, d, Source(k, d));
        assert Moved(Source(k, d), d) == k;
      }
      forall h, k | 0 <= h < k < |after| ensures !Matches(after[h], after[k].parent, after[k].name) {
        ClashIffLandsTogether(live, d, Source(h, d), Source(k, d));
        assert Moved(Source(h, d), d) == h && Moved(Source(k, d), d) == k;
      }
      WellFormedIsOrdered(live);
      CompactionKeepsOrder(live, d);
    }
    if WellFormed(after) {
      forall j | 1 <= j < |live| && j != d
        ensures Landing(live, d, j) < |live| && live[Landing(live, d, j)].kind == Directory
      {
        PlacedIffLandsInDirectory(live, d, j);
        assert WellPlaced(after, Moved(j, d));
      }
      forall i, j | 0 <= i < j < |live| && i != d && j != d && live[i].name == live[j].name
        ensures Landing(live, d, i) != Landing(live, d, j)
      {
        ClashIffLandsTogether(live, d, i, j);
        assert !Matches(after[Moved(i, d)], after[Moved(j, d)].parent, after[Moved(j, d)].name);
      }
    }
  }

  // ---------------------------------------------------------------- path meanings

  /** Every path means what it meant, with slots renumbered and the deleted slot gone. */
  ghost predicate PathsKept(live: seq<Entry>, after: seq<Entry>, d: nat) {
    forall path: string :: Resolve(after, path) == Moved(Resolve(live, path), d)
  }

  lemma FindAfterRemoval(live: seq<Entry>, d: nat, parent: nat, name: string)
    requires WellFormed(live) && Deletable(live, d) && parent != d
    ensures Find(Removed(live, d), Moved(parent, d), name) == Moved(Find(live, parent, name), d)
  {
    DeletableIsChildless(live, d);
    var after := Removed(live, d);
    var to := Moved(parent, d);
    assert forall k :: 0 <= k < |after| ==>
      (Matches(after[k], to, name) <==> Matches(live[Source(k, d)], parent, name));
    var i := Find(live, parent, name);
    if i < 0 || i == d {
      assert forall k :: 0 <= k < |after| ==> !Matches(after[k], to, name);
    } else {
      var k := Moved(i, d);
      assert Source(k, d) == i;
      assert Matches(after[k], to, name);
      forall j | 0 <= j < k ensures !Matches(after[j], to, name) {
        assert Source(j, d) < i;
      }
    }
  }

  lemma {:induction false} WalkAfterRemoval(live: seq<Entry>, d: nat, from: nat, names: seq<string>)
    requires WellFormed(live) && Deletable(live, d) && from != d
    ensures Walk(Removed(live, d), Moved(from, d), names) == Moved(Walk(live, from, names), d)
    decreases |names|
  {
    if names != [] {
      FindAfterRemoval(live, d, from, names[0]);
      var k := Find(live, from, names[0]);
      if k == d {
        DeletableIsChildless(live, d);
      } else if k >= 0 {
        WalkAfterRemoval(live, d, k, names[1..]);
      }
    }
  }

  lemma RemovalKeepsPaths(live: seq<Entry>, d: nat)
    requires WellFormed(live) && Deletable(live, d)
    ensures PathsKept(live, Removed(live, d), d)
  {
    forall path: string ensures Resolve(Removed(live, d), path) == Moved(Resolve(live, path), d) {
      WalkAfterRemoval(live, d, 0, Components(path));
    }
  }

  // ---------------------------------------------------------------- what paths mean afterwards

  /**
   The table a deletion of slot `d` really leaves behind, in the old numbering: every entry
   hangs where it lands, and the deleted one hangs from itself, out of reach.
   */
  function Relocated(live: seq<Entry>, d: nat): (after: seq<Entry>) {
    seq(|live|, j requires 0 <= j < |live| => live[j].(parent := if j == d then d else Landing(live, d, j)))
  }

  lemma MatchesAfterCompaction(live: seq<Entry>, d: nat, j: nat, from: nat, name: string)
    requires Ordered(live) && 1 <= d < |live| && j < |live| && j != d && from != d
    ensures Matches(Compacted(live, d)[Moved(j, d)], Moved(from, d), name) <==>
            Matches(Relocated(live, d)[j], from, name)
  {
    LandingMoves(live, d, j);
  }

  lemma FindAfterCompaction(live: seq<Entry>, d: nat, from: nat, name: string)
    requires Ordered(live) && 1 <= d < |live| && from != d
    ensures Find(Relocated(live, d), from, name) != d
    ensures Find(Compacted(live, d), Moved(from, d), name) == Moved(Find(Relocated(live, d), from, name), d)
  {
    var after, to := Compacted(live, d), Moved(from, d);
    forall k | 0 <= k < |after|
      ensures Matches(after[k], to, name) <==> Matches(Relocated(live, d)[Source(k, d)], from, name)
    {
      assert Moved(Source(k, d), d) == k;
      MatchesAfterCompaction(live, d, Source(k, d), from, name);
    }
    var i := Find(Relocated(live, d), from, name);
    if i >= 0 {
      assert Source(Moved(i, d), d) == i;
      assert Matches(after[Moved(i, d)], to, name);
      assert forall j :: 0 <= j < Moved(i, d) ==> Source(j, d) < i;
    }
  }

  lemma {:induction false} WalkAfterCompaction(live: seq<Entry>, d: nat, from: nat, names: seq<string>)
    requires Ordered(live) && 1 <= d < |live| && from != d
    ensures Walk(Relocated(live, d), from, names) != d
    ensures Walk(Compacted(live, d), Moved(from, d), names) == Moved(Walk(Relocated(live, d), from, names), d)
    decreases |names|
  {
    if names != [] {
      FindAfterCompaction(live, d, from, names[0]);
      var k := Find(Relocated(live, d), from, names[0]);
      if k >= 0 { WalkAfterCompaction(live, d, k, names[1..]); }
    }
  }

  /** What every path means after any deletion from any table the kernel can reach. */
  lemma PathsAfterDeletion(live: seq<Entry>, d: nat, path: string)
    requires Ordered(live) && 1 <= d < |live|
    ensures Resolve(Relocated(live, d), path) != d
    ensures Resolve(Compacted(live, d), path) == Moved(Resolve(Relocated(live, d), path), d)
  {
    WalkAfterCompaction(live, d, 0, Components(path));
  }

  // ---------------------------------------------------------------- when meanings are lost

  /** Slots below the first far-parented entry `e` are still renumbered properly. */
  lemma FindBelowFar(live: seq<Entry>, d: nat, e: nat, a: nat)
    requires WellFormed(live) && Deletable(live, d) && e < |live|
    requires forall j :: 0 <= j < e && j != d ==> live[j].parent <= d + 2
    requires 1 <= a < e && a != d && live[a].parent != d
    ensures Find(Compacted(live, d), Moved(live[a].parent, d), live[a].name) == Moved(a, d)
  {
    WellFormedIsOrdered(live);
    DeletableIsChildless(live, d);
    var after, to, name := Compacted(live, d), Moved(live[a].parent, d), live[a].name;
    forall k | 0 <= k <= Moved(a, d)
      ensures Matches(after[k], to, name) <==> k == Moved(a, d)
    {
      var i := Source(k, d);
      CompactionHalves(live, d, i);
      assert after[k].parent == Moved(live[i].parent, d);
      if i != a { assert !Matches(live[i], live[a].parent, name) && live[i].parent != d; }
    }
    assert Matches(after[Moved(a, d)], to, name);
  }

  lemma {:induction false} WalkBelowFar(live: seq<Entry>, d: nat, e: nat, a: nat)
    requires WellFormed(live) && Deletable(live, d) && e < |live|
    requires forall j :: 0 <= j < e && j != d ==> live[j].parent <= d + 2
    requires a < e && a != d
    ensures Walk(Compacted(live, d), 0, Ancestry(live, a)) == Moved(a, d)
    decreases a
  {
    if a > 0 {
      assert WellPlaced(live, a);
      DeletableIsChildless(live, d);
      var parent := live[a].parent;
      WalkBelowFar(live, d, e, parent);
      WalkLast(Compacted(live, d), 0, Ancestry(live, parent), live[a].name);
      FindBelowFar(live, d, e, a);
    }
  }

  lemma {:induction false} FirstFar(live: seq<Entry>, d: nat, bound: nat) returns (e: nat)
    requires bound < |live| && bound != d && live[bound].parent > d + 2
    ensures e < |live| && e != d && live[e].parent > d + 2
    ensures forall j :: 0 <= j < e && j != d ==> live[j].parent <= d + 2
    decreases bound
  {
    if j: nat :| j < bound && j != d && live[j].parent > d + 2 {
      e := FirstFar(live, d, j);
    } else {
      e := bound;
    }
  }

  /** Another entry of the same name has landed in the directory of entry `e`. */
  ghost predicate LandedInstead(live: seq<Entry>, d: nat, e: nat, i: nat)
    requires e < |live|
  {
    i < |live| && i != e && live[i].name == live[e].name && Landing(live, d, i) == live[e].parent
  }

  lemma FarPathNow(live: seq<Entry>, d: nat, e: nat)
    requires WellFormed(live) && Deletable(live, d) && e < |live| && e != d
    requires live[e].parent > d + 2
    requires forall j :: 0 <= j < e && j != d ==> live[j].parent <= d + 2
    ensures Resolve(Compacted(live, d), Location(live, e)) ==
            Find(Compacted(live, d), live[e].parent - 1, live[e].name)
  {
    LocationComponents(live, e);
    assert WellPlaced(live, e);
    var parent := live[e].parent;
    WalkBelowFar(live, d, e, parent);
    WalkLast(Compacted(live, d), 0, Ancestry(live, parent), live[e].name);
  }

  /** What the compacted table holds under a directory above `d + 2` landed there. */
  lemma FoundLanded(live: seq<Entry>, d: nat, e: nat, now: int)
    requires WellFormed(live) && Deletable(live, d) && e < |live| && e != d
    requires live[e].parent > d + 2 && now == Find(Compacted(live, d), live[e].parent - 1, live[e].name)
    ensures now != Moved(e, d) && (now >= 0 ==> LandedInstead(live, d, e, Source(now, d)))
  {
    WellFormedIsOrdered(live);
    LandingMoves(live, d, e);
    if now >= 0 {
      assert Moved(Source(now, d), d) == now;
      LandingMoves(live, d, Source(now, d));
    }
  }

  /**
   The first far-parented entry is no longer found under its own path.  That path now leads
   to whatever landed under the same directory with the same name, or nowhere.
   */
  lemma FarEntryIsLost(live: seq<Entry>, d: nat, e: nat)
    requires WellFormed(live) && Deletable(live, d) && e < |live| && e != d
    requires live[e].parent > d + 2
    requires forall j :: 0 <= j < e && j != d ==> live[j].parent <= d + 2
    ensures Resolve(live, Location(live, e)) == e
    ensures var after := Compacted(live, d);
            var now := Resolve(after, Location(live, e));
            && now == Find(after, live[e].parent - 1, live[e].name)
            && now != Moved(e, d)
            && (now >= 0 ==> LandedInstead(live, d, e, Source(now, d)))
  {
    LocationResolves(live, e);
    FarPathNow(live, d, e);
    FoundLanded(live, d, e, Find(Compacted(live, d), live[e].parent - 1, live[e].name));
  }

  /**
   The kernel's deletion preserves the meaning of every path if and only if no surviving
   entry has a parent above d + 2.
   */
  lemma DeletionKeepsPathsIff(live: seq<Entry>, d: nat)
    requires WellFormed(live) && Deletable(live, d)
    ensures PathsKept(live, Compacted(live, d), d) <==> ParentsNearby(live, d)
  {
    WellFormedIsOrdered(live);
    CompactionRenumbersIff(live, d);
    if ParentsNearby(live, d) {
      RemovalKeepsPaths(live, d);
    } else {
      var far :| 0 <= far < |live| && far != d && live[far].parent > d + 2;
      var e := FirstFar(live, d, far);
      FarEntryIsLost(live, d, e);
      var path := Location(live, e);
      assert Resolve(Compacted(live, d), path) != Moved(Resolve(live, path), d);
    }
  }
}
