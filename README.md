# compact-cathedral, modelled in Dafny

`CATHEDRAL/compact-cathedral.py` compacts a documentation tree. It walks the
tree and skips `.git` directories. It hashes every `.md` file with SHA-256 and
groups the paths by digest. In each group of two or more, it keeps the path
with the fewest `/` characters, then the shortest, and deletes the others.
Last, it writes a summary listing at most 100 of the deleted paths.

This project models that decision procedure and proves what it promises:

- which files take part in grouping;
- the shape of the groups;
- which path is kept and which are removed;
- the counts, and when the summary is written;
- the truncation of the summary.

The directory walk, the digest, and the success or failure of each deletion are
parameters of the model.

Modules, one per file:

| module | file | models |
|---|---|---|
| `Wrappers` | `wrappers.dfy` | `Option` |
| `Paths` | `paths.dfy` | `os.sep`, `os.path.join`, the sort key `(p.count(os.sep), len(p))` |
| `StableSort` | `stable_sort.dfy` | `paths.sort(key=...)`: a stable sort by that key, in place on an array, proved against a functional insertion sort |
| `Scan` | `scan.dfy` | `find_duplicates`: the nested walk loops, the `defaultdict(list)` in insertion order, the `len(paths) > 1` filter |
| `Dedup` | `dedup.dfy` | `remove_duplicates`: sort each group, keep the head, try to delete the rest, go on after a failure |
| `Summary` | `summary.dfy` | the writes to `COMPACTION_SUMMARY.md`, including the decimal rendering of counts |
| `Compaction` | `compaction.dfy` | `main`: the count of extra copies, the gate on it, and the whole run as one `Outcome` |
| `Scenarios` | `scenarios.dfy` | concrete runs: two copies, three copies, all-distinct content, an unreadable copy |

How the inputs are represented:

- **The walk.** A `seq<Visit>` lists the visits a top-down walk makes. Each visit names its directory by `below`, the directory names on the way down from the root, plus the file names listed there.
- **Pruning.** `dirs[:] = [d for d in dirs if d != '.git']` keeps the walk out of every directory named `.git`. So a visit with `.git` among its components is one the script never reaches (`Scan.Pruned`).
- **The digest.** `hash: Path -> Option<Digest>` gives the digest, or `None` where `get_file_hash` would catch an exception.
- **Deletion.** `deletes: Path -> bool` says whether `os.remove` succeeds.

Where the tool's prose description and the code differ, the model follows the code:

- The sort key counts `/` characters (`p.count(os.sep)`), not path components.
- The docstring of `remove_duplicates` speaks of one copy "in each major directory". The code keeps exactly one path per digest group, wherever it lies.
- The summary also contains the "Space optimization" line and the "## Files Removed" heading.
- The test on line 30 is `if file_hash:`. The model drops both `None` and an empty digest. A SHA-256 hex digest is never empty, so this is the same as dropping only `None`.

## Model

| member | source | states |
|---|---|---|
| Paths.Depth | CATHEDRAL/compact-cathedral.py:42 | the depth of a path is its number of `/` characters: at most its length, and zero exactly when it has no `/` |
| Paths.Join | CATHEDRAL/compact-cathedral.py:28 | an absolute name replaces the directory; otherwise the result starts with the directory and ends with the name, with one `/` inserted between them when the directory is non-empty and does not end in one, and with nothing inserted when the directory is empty or ends in `/` |
| Paths.EndsWith | CATHEDRAL/compact-cathedral.py:27 | `file.endswith('.md')`; no contract of its own, `Scan.CandidatesExactly` admits exactly the names it accepts |
| Paths.JoinAll | CATHEDRAL/compact-cathedral.py:23-28 | the directory string `os.walk` reports for a visit, joined component by component from the root with `Join`; no contract of its own, `Scan.CandidatesExactly` ties each candidate path to it |
| Paths.SortKey | CATHEDRAL/compact-cathedral.py:42 | the key `(p.count(os.sep), len(p))`, built on `Depth`; no contract of its own, the `StableSort` lemmas state the order it induces |
| Paths.KeyLess | CATHEDRAL/compact-cathedral.py:42 | Python's strict lexicographic order on the key tuples; no contract of its own, `StableSort.SortSorted` and `StableSort.SortedHeadIsFirstMinimum` are stated with it |
| Paths.Before | CATHEDRAL/compact-cathedral.py:42 | one path has a strictly smaller key than another; no contract of its own, used by every sort lemma |
| StableSort.SortByKeyInPlace | CATHEDRAL/compact-cathedral.py:42 | sorting the array in place leaves it holding exactly `SortByKey` of its old contents |
| StableSort.InsertInPlace | CATHEDRAL/compact-cathedral.py:42 | one insertion step puts `a[i]` into the sorted prefix as `Insert` does, and leaves the rest of the array unchanged |
| StableSort.SortByKey | CATHEDRAL/compact-cathedral.py:42 | the result of `paths.sort(key=...)`; no contract of its own, its partners `SortPermutes`, `SortSorted`, `SortStable` and `StableSortIsUnique` state that it is the stable sort by the key |
| StableSort.SortPermutes | CATHEDRAL/compact-cathedral.py:42 | the sorted list is a permutation of the input |
| StableSort.SortSorted | CATHEDRAL/compact-cathedral.py:42 | no element of the sorted list is followed by one with a smaller key |
| StableSort.SortStable | CATHEDRAL/compact-cathedral.py:42 | paths with equal keys keep their relative order |
| StableSort.SortedHeadIsFirstMinimum | CATHEDRAL/compact-cathedral.py:42-45 | the head of the sorted list has the smallest key, and every path met before it has a strictly greater key |
| StableSort.StableSortIsUnique | CATHEDRAL/compact-cathedral.py:42 | any list that is sorted by the key and keeps equal keys in their original order equals `SortByKey` of the input, so Python's sort gives the same result |
| Scan.Digests | CATHEDRAL/compact-cathedral.py:20-31 | the keys of `hash_map`: a digest is present exactly when some candidate has it, and no digest appears twice |
| Scan.Pruned | CATHEDRAL/compact-cathedral.py:24 | a visit under a directory named `.git`, which the pruned walk never makes; no contract of its own, `Scan.CandidatesExactly` excludes such visits |
| Scan.Truthy | CATHEDRAL/compact-cathedral.py:30 | `if file_hash:`: a digest was computed and is not empty; no contract of its own, `Scan.CandidatesExactly` admits exactly such digests |
| Scan.Consider | CATHEDRAL/compact-cathedral.py:27-31 | what the inner loop appends for one file name; no contract of its own, `Scan.CandidatesExactly` characterises it |
| Scan.FileCandidates | CATHEDRAL/compact-cathedral.py:26-31 | what the inner loop appends for one directory, in listing order; no contract of its own, `Scan.ScanDirectory` is proved against it |
| Scan.Candidates | CATHEDRAL/compact-cathedral.py:23-31 | what the nested loops append over the whole walk, in walk order; no contract of its own, `Scan.CandidatesExactly` states which pairs occur |
| Scan.PathsWith | CATHEDRAL/compact-cathedral.py:20-31 | `hash_map[d]`: the paths of the candidates with digest `d`, in encounter order; its contract bounds it by the candidates, and `Scan.AppendCandidate` and `Scan.PathsWithNoRepeats` are its partners |
| Scan.Buckets | CATHEDRAL/compact-cathedral.py:20-31 | `hash_map` as a map from each digest met to its paths; no contract of its own, `Scan.AppendCandidate` shows that one append changes it exactly as `hash_map[file_hash].append(filepath)` does |
| Scan.DuplicateGroups | CATHEDRAL/compact-cathedral.py:33 | the dictionary `find_duplicates` returns; no contract of its own, `Scan.GroupsAreDuplicateSets`, `Scan.GroupsDisjoint` and `Scan.SomeGroupIffShared` state what it holds |
| Scan.Append | CATHEDRAL/compact-cathedral.py:31 | `hash_map[file_hash].append(filepath)`: the key order and the buckets become those of the candidates seen so far plus the new one |
| Scan.AppendCandidate | CATHEDRAL/compact-cathedral.py:31 | appending a candidate adds its digest at the end of the key order only if it is new, and appends its path to that digest's list |
| Scan.ScanDirectory | CATHEDRAL/compact-cathedral.py:26-31 | the inner loop leaves `hash_map` as the grouping of the candidates seen so far plus those of this directory's files |
| Scan.Shared | CATHEDRAL/compact-cathedral.py:33 | a group is returned exactly for each key with more than one path, carrying that key's list, and only keys of the map appear |
| Scan.FindDuplicates | CATHEDRAL/compact-cathedral.py:18-33 | the returned groups are exactly `DuplicateGroups` of the candidates the walk produces |
| Scan.CandidatesExactly | CATHEDRAL/compact-cathedral.py:23-31 | a (path, digest) pair takes part in grouping exactly when it comes from a listed `.md` file outside any `.git` directory whose path hashes to that non-empty digest |
| Scan.GroupsAreDuplicateSets | CATHEDRAL/compact-cathedral.py:31-33 | every group has at least two paths, all candidates with the group's digest, in encounter order; no digest heads two groups; a digest heads a group exactly when at least two candidates have it |
| Scan.CandidateInItsGroup | CATHEDRAL/compact-cathedral.py:31-33 | a candidate whose digest is shared lies in the group of its own digest |
| Scan.PathsWithNoRepeats | CATHEDRAL/compact-cathedral.py:31 | when the walk lists each path once, no bucket lists a path twice |
| Scan.GroupsDisjoint | CATHEDRAL/compact-cathedral.py:31-33 | when the walk lists each path once, no path is in two groups or twice in one group |
| Scan.SomeGroupIffShared | CATHEDRAL/compact-cathedral.py:33 | the result is non-empty exactly when two candidates share a digest |
| Scan.GroupMemberIsShared | CATHEDRAL/compact-cathedral.py:29-33 | a grouped path was readable, hashes to its group's digest, and that digest is shared by at least two candidates |
| Dedup.Succeeded | CATHEDRAL/compact-cathedral.py:48-54 | a tried path is recorded exactly when its deletion succeeds, and never more paths than were tried |
| Dedup.Kept | CATHEDRAL/compact-cathedral.py:42-45 | `paths[0]` after the sort; no contract of its own, `Dedup.GroupSplit` and `Dedup.KeptIsFirstShallowest` state that it is a first shallowest path of the group |
| Dedup.Attempted | CATHEDRAL/compact-cathedral.py:42-48 | `paths[1:]` after the sort; no contract of its own, `Dedup.GroupSplit` states that it and `Kept` together are the group |
| Dedup.RemovedPaths | CATHEDRAL/compact-cathedral.py:37-51 | `removed_files`, group after group; no contract of its own, `Dedup.RemovedExactly` states which paths it holds |
| Dedup.KeptPaths | CATHEDRAL/compact-cathedral.py:40-46 | one kept path per group, in group order, each the head of its sorted group |
| Dedup.DeleteRest | CATHEDRAL/compact-cathedral.py:48-54 | the deletion loop records exactly the successful deletions among `paths[1:]`, in order, and goes on after a failure |
| Dedup.RemoveGroup | CATHEDRAL/compact-cathedral.py:40-54 | one pass of the outer loop keeps the head of the sorted group and removes the successful deletions among the rest |
| Dedup.RemoveDuplicates | CATHEDRAL/compact-cathedral.py:35-56 | returns `KeptPaths` and `RemovedPaths` of the groups |
| Dedup.KeptIsFirstShallowest | CATHEDRAL/compact-cathedral.py:42-46 | each kept path has the smallest `(count of '/', length)` key in its group, and every path met before it in the group has a strictly greater key |
| Dedup.GroupSplit | CATHEDRAL/compact-cathedral.py:42-48 | the kept path and the tried paths together are the group, with multiplicity; the tried paths are in key order and none sorts before the kept one |
| Dedup.RemovedExactly | CATHEDRAL/compact-cathedral.py:40-54 | a path is removed exactly when it was tried in some group and its deletion succeeded |
| Dedup.KeptNeverRemoved | CATHEDRAL/compact-cathedral.py:45-51 | when the groups share no path, no kept path is ever removed |
| Dedup.TouchedOnlyInGroups | CATHEDRAL/compact-cathedral.py:40-51 | only a path of some group is kept or removed |
| Summary.NatToString | CATHEDRAL/compact-cathedral.py:75-82 | the decimal rendering of a count has only digits, no leading zero, and reads back as the count |
| Summary.Listing | CATHEDRAL/compact-cathedral.py:79-80 | one `- path` line per listed path, in order |
| Summary.Header | CATHEDRAL/compact-cathedral.py:74-78 | the five fixed writes before the listing; no contract of its own, `Summary.SummaryShape` states that they are the first five strings of every summary, and the counts in them are rendered by `NatToString`, whose contract gives the read-back |
| Summary.Line | CATHEDRAL/compact-cathedral.py:80 | one listing line `- path`; no contract of its own, `Summary.ListedExactly` relates it to the listed paths |
| Summary.Overflow | CATHEDRAL/compact-cathedral.py:81-82 | the overflow line; no contract of its own, `Summary.SummaryShape` states that it appears exactly when more than 100 paths were removed and carries the number left out |
| Summary.SummaryText | CATHEDRAL/compact-cathedral.py:73-82 | everything written to the summary file; no contract of its own, `Summary.SummaryShape`, `Summary.ListedExactly` and `Summary.WriteSummary` state its shape |
| Summary.WriteSummary | CATHEDRAL/compact-cathedral.py:73-82 | the strings written are the header, one line for each of the first 100 removed paths, and the overflow line when there are more |
| Summary.SummaryShape | CATHEDRAL/compact-cathedral.py:74-82 | for any removed list, the empty one included, the first five strings are exactly `Header` of the group count and the removed count (title, the two counts, the space line, the heading), then `min(100, len(removed))` listing lines in order; one more string, "...and N more files" with N the number left out, follows exactly when more than 100 were removed |
| Summary.ListedExactly | CATHEDRAL/compact-cathedral.py:79-80 | a path has a listing line exactly when it is among the first 100 removed |
| Summary.HundredFiftyRemoved | CATHEDRAL/compact-cathedral.py:79-82 | with 150 removed paths the first 100 are listed and the last line is "...and 50 more files" |
| Compaction.Compact | CATHEDRAL/compact-cathedral.py:58-84 | a run computes exactly `Run`: the groups, the count of extra copies and, only when it is positive, the kept and removed paths and the summary |
| Compaction.TotalDuplicates | CATHEDRAL/compact-cathedral.py:64 | `sum(len(paths) - 1 ...)`; no contract of its own, `Compaction.TotalCountsExtraCopies` and `Compaction.RemovedWithinTotal` are its partners |
| Compaction.Run | CATHEDRAL/compact-cathedral.py:58-84 | what one run of `main` leaves behind; no contract of its own, `Compaction.Compact` is proved against it, and `SummaryIffShared`, `OnlySharedContentTouched` and `KeptAreShallowestAndSurvive` state its properties |
| Compaction.TotalCountsExtraCopies | CATHEDRAL/compact-cathedral.py:64-67 | when every group has two or more paths, the count of extra copies is at least the number of groups, so it is positive exactly when there is a group |
| Compaction.RemovedWithinTotal | CATHEDRAL/compact-cathedral.py:48-64 | no more paths are removed than there are extra copies |
| Compaction.SummaryIffShared | CATHEDRAL/compact-cathedral.py:64-82 | the summary is written exactly when two candidates share a digest, even if every deletion fails; the number of groups and of removed paths are both at most the count of extra copies, and one path is kept per group |
| Compaction.OnlySharedContentTouched | CATHEDRAL/compact-cathedral.py:29-51 | a kept or removed path was readable, takes part in grouping with its own digest, and shares that digest with another candidate; a removed path was deleted successfully |
| Compaction.KeptAreShallowestAndSurvive | CATHEDRAL/compact-cathedral.py:42-51 | when the walk lists each path once, each kept path is the first shallowest path of its group and no kept path is removed |
| Scenarios.ScenarioA | CATHEDRAL/compact-cathedral.py:58-84 | with identical `/a/x.md` and `/a/b/x.md`, `/a/x.md` is kept, `/a/b/x.md` is removed, one group is counted and a summary is written |
| Scenarios.ScenarioB | CATHEDRAL/compact-cathedral.py:40-54 | with three identical files at depths 1, 2 and 2, the depth-1 file is kept and both depth-2 files are removed, in group order |
| Scenarios.ScenarioC | CATHEDRAL/compact-cathedral.py:58-84 | with distinct contents nothing is kept or removed and no summary is written |
| Scenarios.ScenarioD | CATHEDRAL/compact-cathedral.py:58-84 | when one file of a pair cannot be read, the other is alone, nothing is touched and no summary is written |
| Scenarios.EmptyWalk | CATHEDRAL/compact-cathedral.py:23 | when the walk yields no visit, as `os.walk` does for a missing or unreadable root, nothing is kept or removed and no summary is written |

## Left out

- The traversal by `os.walk` and the order of directory listings (lines 23-24) are not modelled. The walk is an input sequence of visits in whatever order the walk makes them.
- `get_file_hash` (lines 10-16) is not modelled: no file reading and no SHA-256. The digest is the parameter `hash`, with `None` standing for a caught read failure.
- `os.remove` and its exception types (lines 50, 53) are not modelled. Each deletion's success is the parameter `deletes`. The file system's state is not modelled, so neither is a second run over the same tree: repeating a run, and the byte contents of what remains, are outside the model.
- The console messages (lines 52, 54, 61, 65, 68, 70, 84) are left out.
- Opening and closing the summary file (line 73) is left out. The model gives the list of strings passed to `f.write`.
- The hard-coded root `/mnt/f/CATHEDRAL` (line 59) is the parameter `root`. The fixed summary path (line 73) is not modelled.
- `paths.sort` on line 42 reorders the lists held by `duplicates` in place. The model sorts a fresh array copied from each group, so the caller's lists are not reordered: this aliasing is not captured.
- Python's sort algorithm is replaced by a stable insertion sort. `StableSort.StableSortIsUnique` shows that any stable sort by the same key gives the same list.
- Paths use `/` as `os.sep` and `posixpath.join`. Windows separators are not modelled.
- An exception the script leaves unguarded is not modelled. Examples are the `open` on line 73 failing after the deletions, or the `print` on line 54 raising inside the `except` handler. A missing or unreadable root makes `os.walk` (line 23) yield nothing: the model covers this as the empty walk, which gives no groups and no summary.
- Dedup.KeptNeverRemoved: stated only when no path occurs in two groups or twice in one group. This holds when the walk lists each path at most once, as `os.walk` does.
- Compaction.KeptAreShallowestAndSurvive: stated only when the walk lists each path at most once, as `os.walk` does.
