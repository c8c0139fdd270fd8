/**
 * `main`: find the duplicate groups, count the extra copies, and only when
 * there is at least one, delete them and write the summary. The root
 * directory, fixed in the script, is the parameter `root`.
 */
module Compaction {
  import opened Wrappers
  import opened Paths
  import opened StableSort
  import opened Scan
  import opened Dedup
  import opened Summary

  /** `sum(len(paths) - 1 for paths in duplicates.values())`. */
  function TotalDuplicates(groups: seq<Group>): int
  {
    if |groups| == 0 then 0
    else TotalDuplicates(groups[..|groups| - 1]) + (|groups[|groups| - 1].paths| - 1)
  }

  /** What one run leaves behind: the counts, the kept and deleted paths, and the summary if one is written. */
  datatype Outcome = Outcome(
    uniqueFiles: nat,
    totalDuplicates: int,
    kept: seq<Path>,
    removed: seq<Path>,
    summary: Option<seq<string>>)

  /** The outcome of a run over the walk `walk`, with digests `hash` and deletion results `deletes`. */
  function Run(root: Path, walk: seq<Visit>, hash: Path -> Option<Digest>, deletes: Path -> bool): Outcome
  {
    var groups := DuplicateGroups(Candidates(root, walk, hash));
    GroupsNonEmpty(Candidates(root, walk, hash));
    var total := TotalDuplicates(groups);
    if total > 0 then
      var removed := RemovedPaths(groups, deletes);
      Outcome(|groups|, total, KeptPaths(groups), removed, Some(SummaryText(|groups|, removed)))
    else
      Outcome(|groups|, total, [], [], None)
  }

  /** `main()`, with the fixed root, the file system and the console abstracted. */
  method Compact(root: Path, walk: seq<Visit>, hash: Path -> Option<Digest>, deletes: Path -> bool) returns (out: Outcome)
    ensures out == Run(root, walk, hash, deletes)
  {
    var duplicates := FindDuplicates(root, walk, hash);
    GroupsNonEmpty(Candidates(root, walk, hash));
    var total := TotalDuplicates(duplicates);
    if total > 0 {
      var kept, removed := RemoveDuplicates(duplicates, deletes);
      var written := WriteSummary(|duplicates|, removed);
      out := Outcome(|duplicates|, total, kept, removed, Some(written));
    } else {
      out := Outcome(|duplicates|, total, [], [], None);
    }
  }

  /** Every group `find_duplicates` returns has a path to keep. */
  lemma GroupsNonEmpty(cs: seq<Candidate>)
    ensures NonEmpty(DuplicateGroups(cs))
  {
    GroupsAreDuplicateSets(cs);
  }

  /**
   * When every group has at least two paths, the count of extra copies is at
   * least the number of groups, so it is positive exactly when there is a group.
   */
  lemma {:induction false} TotalCountsExtraCopies(groups: seq<Group>)
    requires forall g | g in groups :: |g.paths| >= 2
    ensures TotalDuplicates(groups) >= |groups|
    ensures TotalDuplicates(groups) > 0 <==> |groups| > 0
  {
    if |groups| > 0 {
      var init := groups[..|groups| - 1];
      assert forall g | g in init :: g in groups;
      assert groups[|groups| - 1] in groups;
      TotalCountsExtraCopies(init);
    }
  }

  /** No more paths are removed than there are extra copies. */
  lemma {:induction false} RemovedWithinTotal(groups: seq<Group>, deletes: Path -> bool)
    requires NonEmpty(groups)
    ensures |RemovedPaths(groups, deletes)| <= TotalDuplicates(groups)
  {
    if |groups| > 0 {
      var init := groups[..|groups| - 1];
      assert forall g | g in init :: g in groups;
      assert groups[|groups| - 1] in groups;
      RemovedWithinTotal(init, deletes);
    }
  }

  /**
   * The summary is written exactly when two files that take part in grouping
   * share a digest, even if every deletion then fails; the counts are then
   * bounded as the script's output promises.
   */
  lemma SummaryIffShared(root: Path, walk: seq<Visit>, hash: Path -> Option<Digest>, deletes: Path -> bool)
    ensures var cs := Candidates(root, walk, hash);
      var out := Run(root, walk, hash, deletes);
      && (out.summary.Some? <==> exists d :: |PathsWith(cs, d)| >= 2)
      && out.uniqueFiles <= out.totalDuplicates
      && |out.removed| <= out.totalDuplicates
      && |out.kept| == (if out.summary.Some? then out.uniqueFiles else 0)
  {
    var cs := Candidates(root, walk, hash);
    var groups := DuplicateGroups(cs);
    GroupsAreDuplicateSets(cs);
    TotalCountsExtraCopies(groups);
    RemovedWithinTotal(groups, deletes);
    SomeGroupIffShared(cs);
  }

  /**
   * Only a path that takes part in grouping with a digest shared by another
   * candidate is ever kept or removed: an unreadable file, a file with a
   * unique digest, a file that is not `.md` or lies under `.git` is never
   * touched. A removed path is one whose deletion succeeded.
   */
  lemma OnlySharedContentTouched(root: Path, walk: seq<Visit>, hash: Path -> Option<Digest>, deletes: Path -> bool, p: Path)
    ensures var cs := Candidates(root, walk, hash);
      var out := Run(root, walk, hash, deletes);
      (p in out.kept || p in out.removed) ==>
        && hash(p).Some?
        && Candidate(p, hash(p).value) in cs
        && |PathsWith(cs, hash(p).value)| >= 2
    ensures p in Run(root, walk, hash, deletes).removed ==> deletes(p)
  {
    var cs := Candidates(root, walk, hash);
    var groups := DuplicateGroups(cs);
    var out := Run(root, walk, hash, deletes);
    GroupsAreDuplicateSets(cs);
    if out.summary.Some? {
      assert out.kept == KeptPaths(groups) && out.removed == RemovedPaths(groups, deletes);
      RemovedExactly(groups, deletes, p);
      if p in out.kept || p in out.removed {
        TouchedOnlyInGroups(groups, deletes, p);
        var i :| 0 <= i < |groups| && p in groups[i].paths;
        assert groups[i] in groups;
        GroupMemberIsShared(root, walk, hash, groups[i], p);
      }
    }
  }

  /**
   * When the walk lists each path once, the kept paths, one per group in
   * group order, are never among the removed ones, and each is the first
   * shallowest path of its group.
   */
  lemma KeptAreShallowestAndSurvive(root: Path, walk: seq<Visit>, hash: Path -> Option<Digest>, deletes: Path -> bool)
    requires DistinctPaths(Candidates(root, walk, hash))
    ensures var groups := DuplicateGroups(Candidates(root, walk, hash));
      var out := Run(root, walk, hash, deletes);
      out.summary.Some? ==>
        && (forall i :: 0 <= i < |groups| ==> KeepsFirstMinimum(groups[i].paths, out.kept[i]))
        && (forall p | p in out.kept :: p !in out.removed)
  {
    var cs := Candidates(root, walk, hash);
    var groups := DuplicateGroups(cs);
    GroupsAreDuplicateSets(cs);
    GroupsDisjoint(cs);
    KeptIsFirstShallowest(groups);
    KeptNeverRemoved(groups, deletes);
  }

}
