/**
 * `remove_duplicates`: for each group, in the dictionary's order, sort the
 * paths stably by (separator count, length), keep the first and try to
 * delete every other one; a deletion that raises is reported and skipped.
 *
 * `os.remove` is the parameter `deletes`: `deletes(p)` is true when the
 * deletion of `p` succeeds and false when it raises.
 */
module Dedup {
  import opened Paths
  import opened StableSort
  import opened Scan

  /** Every group has a first path to keep (`paths[0]` raises on an empty list). */
  predicate NonEmpty(groups: seq<Group>)
  {
    forall g | g in groups :: |g.paths| > 0
  }

  /** `paths[0]` after the sort. */
  function Kept(paths: seq<Path>): Path
    requires |paths| > 0
  {
    SortByKey(paths)[0]
  }

  /** `paths[1:]` after the sort: the paths the loop tries to delete, in that order. */
  function Attempted(paths: seq<Path>): seq<Path>
    requires |paths| > 0
  {
    SortByKey(paths)[1..]
  }

  /** The paths of `tried` whose deletion succeeds, in the order they were tried. */
  function Succeeded(tried: seq<Path>, deletes: Path -> bool): (r: seq<Path>)
    ensures |r| <= |tried|
    ensures forall p :: p in r <==> p in tried && deletes(p)
  {
    if |tried| == 0 then []
    else
      var p := tried[|tried| - 1];
      assert forall q :: q in tried <==> q in tried[..|tried| - 1] || q == p;
      Succeeded(tried[..|tried| - 1], deletes) + (if deletes(p) then [p] else [])
  }

  /** `kept_files`: one path per group, in group order. */
  function KeptPaths(groups: seq<Group>): (r: seq<Path>)
    requires NonEmpty(groups)
    ensures |r| == |groups|
    ensures forall i :: 0 <= i < |groups| ==> r[i] == Kept(groups[i].paths)
  {
    if |groups| == 0 then []
    else KeptPaths(groups[..|groups| - 1]) + [Kept(groups[|groups| - 1].paths)]
  }

  /** `removed_files`: the successful deletions, group after group. */
  function RemovedPaths(groups: seq<Group>, deletes: Path -> bool): seq<Path>
    requires NonEmpty(groups)
  {
    if |groups| == 0 then []
    else
      var g := groups[|groups| - 1];
      RemovedPaths(groups[..|groups| - 1], deletes) + Succeeded(Attempted(g.paths), deletes)
  }

  /** `for dup in paths[1:]`: try each deletion, record the ones that succeed, go on after a failure. */
  method DeleteRest(paths: array<Path>, deletes: Path -> bool) returns (removed: seq<Path>)
    requires paths.Length > 0
    ensures removed == Succeeded(paths[1..], deletes)
  {
    removed := [];
    for j := 1 to paths.Length
      invariant removed == Succeeded(paths[1..j], deletes)
    {
      assert paths[1..j + 1][..j - 1] == paths[1..j];
      if deletes(paths[j]) {
        removed := removed + [paths[j]];
      }
    }
    assert paths[1..paths.Length] == paths[1..];
  }

  /** `remove_duplicates(duplicates, root_dir)`. */
  method RemoveDuplicates(duplicates: seq<Group>, deletes: Path -> bool) returns (kept: seq<Path>, removed: seq<Path>)
    requires NonEmpty(duplicates)
    ensures kept == KeptPaths(duplicates)
    ensures removed == RemovedPaths(duplicates, deletes)
  {
    kept, removed := [], [];
    for i := 0 to |duplicates|
      invariant kept == KeptPaths(duplicates[..i])
      invariant removed == RemovedPaths(duplicates[..i], deletes)
    {
      assert duplicates[..i + 1][..i] == duplicates[..i];
      assert duplicates[i] in duplicates;
      var keep, gone := RemoveGroup(duplicates[i].paths, deletes);
      kept := kept + [keep];
      removed := removed + gone;
    }
    assert duplicates[..|duplicates|] == duplicates;
  }

  /** The body of the loop over `duplicates.items()`: sort one group, keep its head, try to delete the rest. */
  method RemoveGroup(group: seq<Path>, deletes: Path -> bool) returns (keep: Path, gone: seq<Path>)
    requires |group| > 0
    ensures keep == Kept(group)
    ensures gone == Succeeded(Attempted(group), deletes)
  {
    var paths := new Path[|group|](k requires 0 <= k < |group| => group[k]);
    assert paths[..] == group;
    SortByKeyInPlace(paths);
    keep := paths[0];
    gone := DeleteRest(paths, deletes);
  }

  /** `kept` is the path at a first minimum of `paths`. */
  predicate KeepsFirstMinimum(paths: seq<Path>, kept: Path)
  {
    exists k :: 0 <= k < |paths| && FirstMinimum(paths, k) && paths[k] == kept
  }

  /**
   * The kept path of every group has the smallest (separator count, length)
   * key in its group, and every path met before it has a strictly greater key.
   */
  lemma KeptIsFirstShallowest(groups: seq<Group>)
    requires NonEmpty(groups)
    ensures forall i :: 0 <= i < |groups| ==> KeepsFirstMinimum(groups[i].paths, KeptPaths(groups)[i])
  {
    forall i | 0 <= i < |groups| ensures KeepsFirstMinimum(groups[i].paths, KeptPaths(groups)[i]) {
      assert groups[i] in groups;
      SortedHeadIsFirstMinimum(groups[i].paths);
      var k :| FirstMinimum(groups[i].paths, k) && groups[i].paths[k] == SortByKey(groups[i].paths)[0];
      assert KeptPaths(groups)[i] == SortByKey(groups[i].paths)[0];
    }
  }

  /**
   * A group splits into its kept path and the paths tried for deletion: together
   * they are the group's paths, each as often as in the group, and every tried
   * path has a key no smaller than the kept one, tried in key order.
   */
  lemma GroupSplit(paths: seq<Path>)
    requires |paths| > 0
    ensures multiset(paths) == multiset{Kept(paths)} + multiset(Attempted(paths))
    ensures Sorted(Attempted(paths))
    ensures forall q | q in Attempted(paths) :: !Before(q, Kept(paths))
    ensures Kept(paths) in paths && forall q | q in Attempted(paths) :: q in paths
  {
    var s := SortByKey(paths);
    SortPermutes(paths);
    SortSorted(paths);
    assert s == [s[0]] + s[1..];
    forall q | q in s[1..] ensures !Before(q, s[0]) {
      var k :| 0 <= k < |s[1..]| && s[1..][k] == q;
      assert s[k + 1] == q;
    }
    assert Kept(paths) in multiset(paths);
    forall q | q in Attempted(paths) ensures q in paths {
      assert q in multiset(Attempted(paths));
      assert q in multiset(paths);
    }
  }

  /** A path is removed exactly when it was tried for deletion in some group and its deletion succeeded. */
  lemma {:induction false} RemovedExactly(groups: seq<Group>, deletes: Path -> bool, p: Path)
    requires NonEmpty(groups)
    ensures p in RemovedPaths(groups, deletes)
        <==> deletes(p) && exists i :: 0 <= i < |groups| && p in Attempted(groups[i].paths)
  {
    if |groups| > 0 {
      var init := groups[..|groups| - 1];
      var g := groups[|groups| - 1];
      assert forall i :: 0 <= i < |init| ==> init[i] == groups[i];
      RemovedExactly(init, deletes, p);
      if deletes(p) && p in Attempted(g.paths) {
        assert p in Attempted(groups[|groups| - 1].paths);
      }
    }
  }

  lemma NoRepeatsOnce(s: seq<Path>, x: Path)
    requires NoRepeats(s)
    ensures multiset(s)[x] <= 1
  {
    if |s| > 0 {
      var init := s[..|s| - 1];
      NoRepeatsOnce(init, x);
      assert s == init + [s[|s| - 1]];
      forall q | q in init ensures q != s[|s| - 1] {
        var k :| 0 <= k < |init| && init[k] == q;
        assert s[k] == q;
      }
    }
  }

  /** The kept path of group `i` is not among the paths tried in group `j`. */
  lemma KeptNotTried(groups: seq<Group>, i: nat, j: nat)
    requires NonEmpty(groups) && Disjoint(groups)
    requires i < |groups| && j < |groups|
    ensures Kept(groups[i].paths) !in Attempted(groups[j].paths)
  {
    assert groups[i] in groups && groups[j] in groups;
    var p := Kept(groups[i].paths);
    GroupSplit(groups[i].paths);
    GroupSplit(groups[j].paths);
    if j == i {
      NoRepeatsOnce(groups[i].paths, p);
      assert multiset(Attempted(groups[i].paths))[p] == 0;
    } else {
      assert p in multiset(groups[i].paths);
      assert p !in groups[j].paths;
      assert multiset(groups[j].paths)[p] == 0;
      assert p !in multiset(Attempted(groups[j].paths));
    }
  }

  /** When the groups share no path, no kept path is ever removed. */
  lemma KeptNeverRemoved(groups: seq<Group>, deletes: Path -> bool)
    requires NonEmpty(groups) && Disjoint(groups)
    ensures forall p | p in KeptPaths(groups) :: p !in RemovedPaths(groups, deletes)
  {
    var kept := KeptPaths(groups);
    forall p | p in kept ensures p !in RemovedPaths(groups, deletes) {
      var i :| 0 <= i < |kept| && kept[i] == p;
      RemovedExactly(groups, deletes, p);
      forall j | 0 <= j < |groups| ensures p !in Attempted(groups[j].paths) {
        KeptNotTried(groups, i, j);
      }
    }
  }

  /** Only a path of some group is ever kept or removed. */
  lemma TouchedOnlyInGroups(groups: seq<Group>, deletes: Path -> bool, p: Path)
    requires NonEmpty(groups)
    requires p in KeptPaths(groups) || p in RemovedPaths(groups, deletes)
    ensures exists i :: 0 <= i < |groups| && p in groups[i].paths
  {
    var i: int;
    if p in KeptPaths(groups) {
      i :| 0 <= i < |groups| && KeptPaths(groups)[i] == p;
    } else {
      RemovedExactly(groups, deletes, p);
      i :| 0 <= i < |groups| && p in Attempted(groups[i].paths);
    }
    assert groups[i] in groups;
    GroupSplit(groups[i].paths);
  }

}
