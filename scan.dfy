/**
 * `find_duplicates`: walk the tree, keep the `.md` files outside `.git`
 * directories whose digest could be computed, bucket their paths by digest
 * in the order the digests are first met, and return the buckets holding
 * more than one path.
 *
 * The walk is given as the sequence of directory visits a top-down walk
 * makes; each visit names the directory by its components below the root.
 * Removing ".git" from `dirs` keeps the walk out of those directories, so
 * the visits that have ".git" among their components are never reached.
 * The digest of a path (SHA-256 of its bytes, or nothing when the file
 * cannot be read) is the parameter `hash`.
 */
module Scan {
  import opened Wrappers
  import opened Paths

  /** `hashlib.sha256(...).hexdigest()`. */
  type Digest = string

  /** One `(root, dirs, files)` triple of `os.walk`, its root given by `below`, the directory names on the way down from the top (not the triple's `dirs`, the subdirectories). */
  datatype Visit = Visit(below: seq<string>, files: seq<string>)

  /** A file that takes part in grouping: its path and its digest. */
  datatype Candidate = Candidate(path: Path, digest: Digest)

  /** One entry `h: paths` of the returned dictionary. */
  datatype Group = Group(digest: Digest, paths: seq<Path>)

  const GitDir: string := ".git"
  const Extension: string := ".md"

  /** A visit the pruned walk never makes: it lies under a `.git` directory. */
  predicate Pruned(v: Visit)
  {
    GitDir in v.below
  }

  /** `if file_hash:` — a digest was computed and it is not the empty string. */
  predicate Truthy(h: Option<Digest>)
  {
    h.Some? && h.value != ""
  }

  /** What the inner loop adds for the file `name` of the directory `dir`. */
  function Consider(dir: Path, name: string, hash: Path -> Option<Digest>): seq<Candidate>
  {
    if EndsWith(name, Extension) && Truthy(hash(Join(dir, name))) then
      [Candidate(Join(dir, name), hash(Join(dir, name)).value)]
    else []
  }

  /** The candidates among the files `files` of the directory `dir`, in listing order. */
  function FileCandidates(dir: Path, files: seq<string>, hash: Path -> Option<Digest>): seq<Candidate>
  {
    if |files| == 0 then []
    else FileCandidates(dir, files[..|files| - 1], hash) + Consider(dir, files[|files| - 1], hash)
  }

  /** The candidates of the whole walk, in the order the walk meets them. */
  function Candidates(root: Path, walk: seq<Visit>, hash: Path -> Option<Digest>): seq<Candidate>
  {
    if |walk| == 0 then []
    else
      var v := walk[|walk| - 1];
      Candidates(root, walk[..|walk| - 1], hash)
        + (if Pruned(v) then [] else FileCandidates(JoinAll(root, v.below), v.files, hash))
  }

  /** The keys of `hash_map` in insertion order: each digest once, where it is first met. */
  function Digests(cs: seq<Candidate>): (ds: seq<Digest>)
    ensures forall d :: d in ds <==> exists c :: c in cs && c.digest == d
    ensures forall i, j :: 0 <= i < j < |ds| ==> ds[i] != ds[j]
  {
    if |cs| == 0 then []
    else
      var ds := Digests(cs[..|cs| - 1]);
      var c := cs[|cs| - 1];
      assert forall x :: x in cs <==> x in cs[..|cs| - 1] || x == c;
      if c.digest in ds then ds else ds + [c.digest]
  }

  /** The paths with digest `d`, in the order they were met. */
  function PathsWith(cs: seq<Candidate>, d: Digest): (ps: seq<Path>)
    ensures |ps| <= |cs|
  {
    if |cs| == 0 then []
    else
      var c := cs[|cs| - 1];
      PathsWith(cs[..|cs| - 1], d) + (if c.digest == d then [c.path] else [])
  }

  /** `hash_map` once the candidates `cs` have been appended. */
  function Buckets(cs: seq<Candidate>): map<Digest, seq<Path>>
  {
    map d | d in Digests(cs) :: PathsWith(cs, d)
  }

  /** `{h: paths for h, paths in hash_map.items() if len(paths) > 1}`, in key order. */
  function Shared(order: seq<Digest>, buckets: map<Digest, seq<Path>>): (groups: seq<Group>)
    requires forall d | d in order :: d in buckets
    ensures forall g | g in groups :: g.digest in order && g.paths == buckets[g.digest] && |g.paths| > 1
    ensures forall d | d in order && |buckets[d]| > 1 :: Group(d, buckets[d]) in groups
  {
    if |order| == 0 then []
    else
      var d := order[|order| - 1];
      Shared(order[..|order| - 1], buckets) + (if |buckets[d]| > 1 then [Group(d, buckets[d])] else [])
  }

  /** The value `find_duplicates` returns for the candidates `cs`. */
  function DuplicateGroups(cs: seq<Candidate>): seq<Group>
  {
    Shared(Digests(cs), Buckets(cs))
  }

  lemma PathsWithSnoc(cs: seq<Candidate>, c: Candidate, d: Digest)
    ensures PathsWith(cs + [c], d) == PathsWith(cs, d) + (if c.digest == d then [c.path] else [])
  {
    assert (cs + [c])[..|cs|] == cs;
  }

  /** Appending one path under its digest, as `hash_map[file_hash].append(filepath)` does. */
  lemma AppendCandidate(cs: seq<Candidate>, c: Candidate)
    ensures Digests(cs + [c]) == if c.digest in Buckets(cs) then Digests(cs) else Digests(cs) + [c.digest]
    ensures Buckets(cs + [c])
         == Buckets(cs)[c.digest := (if c.digest in Buckets(cs) then Buckets(cs)[c.digest] else []) + [c.path]]
  {
    AppendDigest(cs, c);
    AppendBuckets(cs, c);
  }

  lemma AppendDigest(cs: seq<Candidate>, c: Candidate)
    ensures Digests(cs + [c]) == if c.digest in Digests(cs) then Digests(cs) else Digests(cs) + [c.digest]
  {
    assert (cs + [c])[..|cs|] == cs;
  }

  lemma AppendBuckets(cs: seq<Candidate>, c: Candidate)
    ensures Buckets(cs + [c])
         == Buckets(cs)[c.digest := (if c.digest in Buckets(cs) then Buckets(cs)[c.digest] else []) + [c.path]]
  {
    var before := Buckets(cs);
    var after := Buckets(cs + [c]);
    var expected := before[c.digest := (if c.digest in before then before[c.digest] else []) + [c.path]];
    AppendKeys(cs, c);
    forall d | d in after ensures after[d] == expected[d] {
      AppendBucket(cs, c, d);
    }
    SameEntries(after, expected);
  }

  /** Two maps with the same keys and the same value at each key are equal. */
  lemma SameEntries(m: map<Digest, seq<Path>>, n: map<Digest, seq<Path>>)
    requires m.Keys == n.Keys
    requires forall d | d in m :: m[d] == n[d]
    ensures m == n
  {
  }

  lemma AppendKeys(cs: seq<Candidate>, c: Candidate)
    ensures Buckets(cs + [c]).Keys == Buckets(cs).Keys + {c.digest}
  {
    AppendDigest(cs, c);
  }

  lemma AppendBucket(cs: seq<Candidate>, c: Candidate, d: Digest)
    requires d in Digests(cs + [c])
    ensures PathsWith(cs + [c], d)
         == if d == c.digest then (if c.digest in Buckets(cs) then Buckets(cs)[c.digest] else []) + [c.path]
            else Buckets(cs)[d]
  {
    PathsWithSnoc(cs, c, d);
    if d != c.digest {
      assert d in Digests(cs);
    } else if c.digest !in Buckets(cs) {
      assert PathsWith(cs, d) == [] by {
        if PathsWith(cs, d) != [] {
          PathsWithMember(cs, d, PathsWith(cs, d)[0]);
        }
      }
    }
  }

  /** A path is listed under `d` only for a candidate that has digest `d`. */
  lemma {:induction false} PathsWithMember(cs: seq<Candidate>, d: Digest, p: Path)
    requires p in PathsWith(cs, d)
    ensures Candidate(p, d) in cs
  {
    var init := cs[..|cs| - 1];
    if p in PathsWith(init, d) {
      PathsWithMember(init, d, p);
      assert forall x | x in init :: x in cs;
    } else {
      assert cs[|cs| - 1] == Candidate(p, d);
    }
  }

  lemma CandidatesSnoc(root: Path, walk: seq<Visit>, i: nat, hash: Path -> Option<Digest>)
    requires i < |walk|
    ensures Candidates(root, walk[..i + 1], hash)
         == Candidates(root, walk[..i], hash)
          + (if Pruned(walk[i]) then [] else FileCandidates(JoinAll(root, walk[i].below), walk[i].files, hash))
  {
    assert walk[..i + 1][..i] == walk[..i];
  }

  lemma FileCandidatesSnoc(dir: Path, files: seq<string>, k: nat, hash: Path -> Option<Digest>)
    requires k < |files|
    ensures FileCandidates(dir, files[..k + 1], hash) == FileCandidates(dir, files[..k], hash) + Consider(dir, files[k], hash)
  {
    assert files[..k + 1][..k] == files[..k];
  }

  /** `hash_map[file_hash].append(filepath)` on a `defaultdict(list)` kept as its key order and its map. */
  method Append(order: seq<Digest>, buckets: map<Digest, seq<Path>>, ghost seen: seq<Candidate>, c: Candidate)
    returns (order': seq<Digest>, buckets': map<Digest, seq<Path>>)
    requires order == Digests(seen) && buckets == Buckets(seen)
    ensures order' == Digests(seen + [c]) && buckets' == Buckets(seen + [c])
  {
    AppendCandidate(seen, c);
    order' := if c.digest in buckets then order else order + [c.digest];
    var bucket := if c.digest in buckets then buckets[c.digest] else [];
    buckets' := buckets[c.digest := bucket + [c.path]];
  }

  /** One more file of the directory adds what `Consider` makes of it. */
  lemma ScanStep(seen: seq<Candidate>, dir: Path, files: seq<string>, k: nat, hash: Path -> Option<Digest>, now: seq<Candidate>)
    requires k < |files|
    requires now == seen + FileCandidates(dir, files[..k], hash)
    ensures seen + FileCandidates(dir, files[..k + 1], hash)
         == if EndsWith(files[k], Extension) && Truthy(hash(Join(dir, files[k])))
            then now + [Candidate(Join(dir, files[k]), hash(Join(dir, files[k])).value)]
            else now
  {
    FileCandidatesSnoc(dir, files, k, hash);
  }

  /** The inner loop of `find_duplicates`: `for file in files`, in the directory `dir`. */
  method ScanDirectory(dir: Path, files: seq<string>, hash: Path -> Option<Digest>,
                       order: seq<Digest>, buckets: map<Digest, seq<Path>>, ghost seen: seq<Candidate>)
    returns (order': seq<Digest>, buckets': map<Digest, seq<Path>>)
    requires order == Digests(seen) && buckets == Buckets(seen)
    ensures order' == Digests(seen + FileCandidates(dir, files, hash))
    ensures buckets' == Buckets(seen + FileCandidates(dir, files, hash))
  {
    order', buckets' := order, buckets;
    ghost var now := seen;
    for k := 0 to |files|
      invariant now == seen + FileCandidates(dir, files[..k], hash)
      invariant order' == Digests(now) && buckets' == Buckets(now)
    {
      ScanStep(seen, dir, files, k, hash, now);
      var file := files[k];
      if EndsWith(file, Extension) {
        var filepath := Join(dir, file);
        var fileHash := hash(filepath);
        if Truthy(fileHash) {
          var c := Candidate(filepath, fileHash.value);
          order', buckets' := Append(order', buckets', now, c);
          now := now + [c];
        }
      }
    }
    assert files[..|files|] == files;
  }

  /** `find_duplicates(root_dir)` over the walk `walk` with digests `hash`. */
  method FindDuplicates(root: Path, walk: seq<Visit>, hash: Path -> Option<Digest>) returns (duplicates: seq<Group>)
    ensures duplicates == DuplicateGroups(Candidates(root, walk, hash))
  {
    var order: seq<Digest> := [];
    var buckets: map<Digest, seq<Path>> := map[];
    ghost var seen: seq<Candidate> := [];
    for i := 0 to |walk|
      invariant seen == Candidates(root, walk[..i], hash)
      invariant order == Digests(seen) && buckets == Buckets(seen)
    {
      CandidatesSnoc(root, walk, i, hash);
      var visit := walk[i];
      // pruning `.git` from the subdirectories means the walk never makes this visit
      if !Pruned(visit) {
        var dir := JoinAll(root, visit.below);
        order, buckets := ScanDirectory(dir, visit.files, hash, order, buckets, seen);
        seen := seen + FileCandidates(dir, visit.files, hash);
      }
    }
    assert walk[..|walk|] == walk;
    duplicates := Shared(order, buckets);
  }

  /** `c` is the candidate the script makes of the file `name` listed in the visit `v`. */
  predicate Admits(root: Path, v: Visit, name: string, hash: Path -> Option<Digest>, c: Candidate)
  {
    && !Pruned(v)
    && EndsWith(name, Extension)
    && c.path == Join(JoinAll(root, v.below), name)
    && hash(c.path) == Some(c.digest)
    && c.digest != ""
  }

  lemma ConsiderExactly(root: Path, v: Visit, name: string, hash: Path -> Option<Digest>, c: Candidate)
    requires !Pruned(v)
    ensures c in Consider(JoinAll(root, v.below), name, hash) <==> Admits(root, v, name, hash, c)
  {
  }

  lemma {:induction false} FileCandidatesExactly(root: Path, v: Visit, files: seq<string>, hash: Path -> Option<Digest>, c: Candidate)
    requires !Pruned(v)
    ensures c in FileCandidates(JoinAll(root, v.below), files, hash)
        <==> exists k :: 0 <= k < |files| && Admits(root, v, files[k], hash, c)
  {
    if |files| > 0 {
      var dir := JoinAll(root, v.below);
      var init := files[..|files| - 1];
      var last := files[|files| - 1];
      FileCandidatesExactly(root, v, init, hash, c);
      ConsiderExactly(root, v, last, hash, c);
      assert FileCandidates(dir, files, hash) == FileCandidates(dir, init, hash) + Consider(dir, last, hash);
      if c in FileCandidates(dir, init, hash) {
        var k :| 0 <= k < |init| && Admits(root, v, init[k], hash, c);
        assert files[k] == init[k];
      }
      if exists k :: 0 <= k < |files| && Admits(root, v, files[k], hash, c) {
        var k :| 0 <= k < |files| && Admits(root, v, files[k], hash, c);
        if k < |files| - 1 {
          assert init[k] == files[k];
        }
      }
    }
  }

  /**
   * The files that take part in grouping are exactly the `.md` files outside
   * `.git` directories whose digest could be computed (and is not empty), each
   * with that digest: an unreadable file is never grouped.
   */
  lemma CandidatesExactly(root: Path, walk: seq<Visit>, hash: Path -> Option<Digest>, c: Candidate)
    ensures c in Candidates(root, walk, hash)
        <==> exists i, k :: 0 <= i < |walk| && 0 <= k < |walk[i].files| && Admits(root, walk[i], walk[i].files[k], hash, c)
  {
    if c in Candidates(root, walk, hash) {
      CandidatesSound(root, walk, hash, c);
    }
    if exists i, k :: 0 <= i < |walk| && 0 <= k < |walk[i].files| && Admits(root, walk[i], walk[i].files[k], hash, c) {
      var i, k :| 0 <= i < |walk| && 0 <= k < |walk[i].files| && Admits(root, walk[i], walk[i].files[k], hash, c);
      CandidatesComplete(root, walk, hash, c, i, k);
    }
  }

  lemma {:induction false} CandidatesSound(root: Path, walk: seq<Visit>, hash: Path -> Option<Digest>, c: Candidate)
    requires c in Candidates(root, walk, hash)
    ensures exists i, k :: 0 <= i < |walk| && 0 <= k < |walk[i].files| && Admits(root, walk[i], walk[i].files[k], hash, c)
  {
    var init := walk[..|walk| - 1];
    var v := walk[|walk| - 1];
    assert Candidates(root, walk, hash) == Candidates(root, init, hash) + VisitCandidates(root, v, hash);
    if c in Candidates(root, init, hash) {
      CandidatesSound(root, init, hash, c);
      var i, k :| 0 <= i < |init| && 0 <= k < |init[i].files| && Admits(root, init[i], init[i].files[k], hash, c);
      assert walk[i] == init[i];
    } else {
      VisitCandidatesExactly(root, v, hash, c);
      var k :| 0 <= k < |v.files| && Admits(root, v, v.files[k], hash, c);
      assert walk[|walk| - 1] == v;
    }
  }

  lemma {:induction false} CandidatesComplete(root: Path, walk: seq<Visit>, hash: Path -> Option<Digest>, c: Candidate, i: nat, k: nat)
    requires i < |walk| && k < |walk[i].files| && Admits(root, walk[i], walk[i].files[k], hash, c)
    ensures c in Candidates(root, walk, hash)
  {
    var init := walk[..|walk| - 1];
    var v := walk[|walk| - 1];
    assert Candidates(root, walk, hash) == Candidates(root, init, hash) + VisitCandidates(root, v, hash);
    if i < |walk| - 1 {
      assert init[i] == walk[i];
      CandidatesComplete(root, init, hash, c, i, k);
    } else {
      VisitCandidatesExactly(root, v, hash, c);
    }
  }

  /** What the visit `v` contributes to the candidates. */
  function VisitCandidates(root: Path, v: Visit, hash: Path -> Option<Digest>): seq<Candidate>
  {
    if Pruned(v) then [] else FileCandidates(JoinAll(root, v.below), v.files, hash)
  }

  lemma VisitCandidatesExactly(root: Path, v: Visit, hash: Path -> Option<Digest>, c: Candidate)
    ensures c in VisitCandidates(root, v, hash) <==> exists k :: 0 <= k < |v.files| && Admits(root, v, v.files[k], hash, c)
  {
    if !Pruned(v) {
      FileCandidatesExactly(root, v, v.files, hash, c);
    }
  }

  lemma {:induction false} PathsWithHas(cs: seq<Candidate>, c: Candidate)
    requires c in cs
    ensures c.path in PathsWith(cs, c.digest)
  {
    var init := cs[..|cs| - 1];
    if c != cs[|cs| - 1] {
      assert c in init by { assert cs == init + [cs[|cs| - 1]]; }
      PathsWithHas(init, c);
    }
  }

  /** No digest heads two groups. */
  predicate DistinctDigests(groups: seq<Group>)
  {
    forall i, j :: 0 <= i < j < |groups| ==> groups[i].digest != groups[j].digest
  }

  lemma {:induction false} SharedDistinct(order: seq<Digest>, buckets: map<Digest, seq<Path>>)
    requires forall d | d in order :: d in buckets
    requires forall i, j :: 0 <= i < j < |order| ==> order[i] != order[j]
    ensures DistinctDigests(Shared(order, buckets))
  {
    if |order| > 0 {
      var init := order[..|order| - 1];
      SharedDistinct(init, buckets);
      var d := order[|order| - 1];
      var prefix := Shared(init, buckets);
      var gs := Shared(order, buckets);
      assert d !in init;
      forall i, j | 0 <= i < j < |gs| ensures gs[i].digest != gs[j].digest {
        if j >= |prefix| {
          assert gs[j].digest == d;
          assert gs[i] == prefix[i] && prefix[i] in prefix;
          assert prefix[i].digest in init;
          assert gs[i].digest != gs[j].digest;
        } else {
          assert gs[i] == prefix[i] && gs[j] == prefix[j];
          assert prefix[i].digest != prefix[j].digest;
        }
      }
    }
  }

  /**
   * The groups returned for the candidates `cs`: each holds at least two
   * paths, each of them a candidate with the group's digest, in the order
   * they were met; no digest heads two groups; and a digest heads a group
   * exactly when at least two candidates have it, so a digest met once
   * never appears.
   */
  lemma GroupsAreDuplicateSets(cs: seq<Candidate>)
    ensures var gs := DuplicateGroups(cs);
      && (forall g | g in gs :: |g.paths| >= 2 && g.paths == PathsWith(cs, g.digest))
      && (forall g, p | g in gs && p in g.paths :: Candidate(p, g.digest) in cs)
      && DistinctDigests(gs)
      && (forall d :: (exists g :: g in gs && g.digest == d) <==> |PathsWith(cs, d)| >= 2)
  {
    var gs := DuplicateGroups(cs);
    SharedDistinct(Digests(cs), Buckets(cs));
    forall g, p | g in gs && p in g.paths ensures Candidate(p, g.digest) in cs {
      PathsWithMember(cs, g.digest, p);
    }
    forall d | |PathsWith(cs, d)| >= 2 ensures Group(d, PathsWith(cs, d)) in gs {
      PathsWithMember(cs, d, PathsWith(cs, d)[0]);
      assert d in Digests(cs);
      assert Buckets(cs)[d] == PathsWith(cs, d);
    }
  }

  /** Every candidate whose digest is shared lands in the group for its own digest. */
  lemma CandidateInItsGroup(cs: seq<Candidate>, c: Candidate)
    requires c in cs
    requires |PathsWith(cs, c.digest)| >= 2
    ensures exists g :: g in DuplicateGroups(cs) && g.digest == c.digest && c.path in g.paths
  {
    GroupsAreDuplicateSets(cs);
    PathsWithHas(cs, c);
    var g :| g in DuplicateGroups(cs) && g.digest == c.digest;
  }

  /** No path is listed twice. */
  predicate NoRepeats(s: seq<Path>)
  {
    forall i, j :: 0 <= i < j < |s| ==> s[i] != s[j]
  }

  /** The walk lists every path at most once. */
  predicate DistinctPaths(cs: seq<Candidate>)
  {
    forall i, j :: 0 <= i < j < |cs| ==> cs[i].path != cs[j].path
  }

  /** No path occurs twice in one group or in two groups. */
  predicate Disjoint(groups: seq<Group>)
  {
    && (forall i :: 0 <= i < |groups| ==> NoRepeats(groups[i].paths))
    && (forall i, j, p :: 0 <= i < |groups| && 0 <= j < |groups| && i != j && p in groups[i].paths ==> p !in groups[j].paths)
  }

  lemma {:induction false} PathsWithNoRepeats(cs: seq<Candidate>, d: Digest)
    requires DistinctPaths(cs)
    ensures NoRepeats(PathsWith(cs, d))
  {
    if |cs| > 0 {
      var init := cs[..|cs| - 1];
      var c := cs[|cs| - 1];
      PathsWithNoRepeats(init, d);
      forall p | p in PathsWith(init, d) ensures p != c.path {
        PathsWithMember(init, d, p);
        var k :| 0 <= k < |init| && init[k] == Candidate(p, d);
        assert cs[k] == init[k];
      }
      var ps := PathsWith(init, d);
      if c.digest == d {
        var qs := ps + [c.path];
        forall i, j | 0 <= i < j < |qs| ensures qs[i] != qs[j] {
          if j == |ps| {
            assert qs[i] == ps[i] && ps[i] in ps;
          } else {
            assert qs[i] == ps[i] && qs[j] == ps[j];
          }
        }
      }
    }
  }

  /** When the walk lists each path once, a path has one digest among the candidates. */
  lemma OneDigestPerPath(cs: seq<Candidate>, p: Path, d1: Digest, d2: Digest)
    requires DistinctPaths(cs)
    requires Candidate(p, d1) in cs && Candidate(p, d2) in cs
    ensures d1 == d2
  {
    var a :| 0 <= a < |cs| && cs[a] == Candidate(p, d1);
    var b :| 0 <= b < |cs| && cs[b] == Candidate(p, d2);
    assert a == b;
  }

  /** When the walk lists each path once, the groups share no path. */
  lemma GroupsDisjoint(cs: seq<Candidate>)
    requires DistinctPaths(cs)
    ensures Disjoint(DuplicateGroups(cs))
  {
    var gs := DuplicateGroups(cs);
    GroupsAreDuplicateSets(cs);
    forall i | 0 <= i < |gs| ensures NoRepeats(gs[i].paths) {
      PathsWithNoRepeats(cs, gs[i].digest);
    }
    forall i, j, p | 0 <= i < |gs| && 0 <= j < |gs| && p in gs[i].paths && p in gs[j].paths ensures i == j {
      assert gs[i] in gs && gs[j] in gs;
      OneDigestPerPath(cs, p, gs[i].digest, gs[j].digest);
    }
  }

  /** There is a group exactly when two candidates share a digest. */
  lemma SomeGroupIffShared(cs: seq<Candidate>)
    ensures |DuplicateGroups(cs)| > 0 <==> exists d :: |PathsWith(cs, d)| >= 2
  {
    var gs := DuplicateGroups(cs);
    GroupsAreDuplicateSets(cs);
    if |gs| > 0 {
      assert gs[0] in gs;
      assert |PathsWith(cs, gs[0].digest)| >= 2;
    }
  }

  /** A grouped path is a candidate of the walk whose digest is shared, and it is that path's own digest. */
  lemma GroupMemberIsShared(root: Path, walk: seq<Visit>, hash: Path -> Option<Digest>, g: Group, p: Path)
    requires g in DuplicateGroups(Candidates(root, walk, hash)) && p in g.paths
    ensures hash(p) == Some(g.digest)
    ensures Candidate(p, g.digest) in Candidates(root, walk, hash)
    ensures |PathsWith(Candidates(root, walk, hash), g.digest)| >= 2
  {
    GroupsAreDuplicateSets(Candidates(root, walk, hash));
    CandidatesExactly(root, walk, hash, Candidate(p, g.digest));
  }

}
