/**
 * Concrete runs of the whole model, one per example run of the program.
 */
module Scenarios {
  import opened Wrappers
  import opened Paths
  import opened StableSort
  import opened Scan
  import opened Dedup
  import opened Summary
  import opened Compaction

  /** The walk of a root `/a` holding `x.md` and `b/x.md`. */
  const TwoCopies: seq<Visit> := [Visit([], ["x.md"]), Visit(["b"], ["x.md"])]

  /** What the walk of `TwoCopies` collects, in terms of the hash oracle. */
  lemma TwoCopiesCandidates(hash: Path -> Option<Digest>)
    ensures Candidates("/a", TwoCopies, hash) == Consider("/a", "x.md", hash) + Consider("/a/b", "x.md", hash)
    ensures Consider("/a", "x.md", hash) == if Truthy(hash("/a/x.md")) then [Candidate("/a/x.md", hash("/a/x.md").value)] else []
    ensures Consider("/a/b", "x.md", hash) == if Truthy(hash("/a/b/x.md")) then [Candidate("/a/b/x.md", hash("/a/b/x.md").value)] else []
  {
    assert EndsWith("x.md", ".md");
    assert Join("/a", "x.md") == "/a/x.md";
    assert JoinAll("/a", ["b"]) == "/a/b";
    assert Join("/a/b", "x.md") == "/a/b/x.md";
    assert TwoCopies[..1] == [Visit([], ["x.md"])];
    assert ["x.md"][..0] == [];
  }

  /** The bucketing of two candidates with the same digest. */
  lemma SameDigestPair(p: Path, q: Path, h: Digest)
    ensures DuplicateGroups([Candidate(p, h), Candidate(q, h)]) == [Group(h, [p, q])]
  {
    var cs := [Candidate(p, h), Candidate(q, h)];
    assert cs[..1] == [Candidate(p, h)];
    assert cs[..1][..0] == [];
    assert Digests(cs[..1]) == [h];
    assert Digests(cs) == [h];
    assert PathsWith(cs, h) == [p, q];
    assert Buckets(cs)[h] == [p, q];
    SharedSingle(h, Buckets(cs));
  }

  lemma SharedSingle(d: Digest, b: map<Digest, seq<Path>>)
    requires d in b
    ensures Shared([d], b) == if |b[d]| > 1 then [Group(d, b[d])] else []
  {
    assert [d][..0] == [];
  }

  /** Equal readable content under `/a/x.md` and `/a/b/x.md` makes one group, in walk order. */
  lemma TwoCopiesGroups(hash: Path -> Option<Digest>)
    requires Truthy(hash("/a/x.md")) && hash("/a/b/x.md") == hash("/a/x.md")
    ensures DuplicateGroups(Candidates("/a", TwoCopies, hash)) == [Group(hash("/a/x.md").value, ["/a/x.md", "/a/b/x.md"])]
  {
    var h := hash("/a/x.md").value;
    TwoCopiesCandidates(hash);
    assert Consider("/a", "x.md", hash) == [Candidate("/a/x.md", h)];
    assert Consider("/a/b", "x.md", hash) == [Candidate("/a/b/x.md", h)];
    assert Candidates("/a", TwoCopies, hash) == [Candidate("/a/x.md", h), Candidate("/a/b/x.md", h)];
    SameDigestPair("/a/x.md", "/a/b/x.md", h);
  }

  /** `/a/x.md` is shallower than `/a/b/x.md`. */
  lemma TwoCopiesKeys()
    ensures Before("/a/x.md", "/a/b/x.md")
  {
    assert Depth("/a/x.md") == 2;
    assert Depth("/a/b/x.md") == 3;
  }

  lemma TwoCopiesSorted()
    ensures SortByKey(["/a/x.md", "/a/b/x.md"]) == ["/a/x.md", "/a/b/x.md"]
  {
    TwoCopiesKeys();
    SortPair("/a/x.md", "/a/b/x.md");
  }

  /** Sorting two paths puts the second first exactly when its key is smaller. */
  lemma SortPair(a: Path, b: Path)
    ensures SortByKey([a, b]) == if Before(b, a) then [b, a] else [a, b]
  {
    assert [a, b][..1] == [a] && [a][..0] == [];
    assert SortByKey([a]) == [a];
    assert Insert(b, []) == [b];
  }

  /** The shallower copy is kept; the deeper one is removed. */
  lemma TwoCopiesDedup(h: Digest, deletes: Path -> bool)
    requires deletes("/a/b/x.md")
    ensures KeptPaths([Group(h, ["/a/x.md", "/a/b/x.md"])]) == ["/a/x.md"]
    ensures RemovedPaths([Group(h, ["/a/x.md", "/a/b/x.md"])], deletes) == ["/a/b/x.md"]
  {
    TwoCopiesSorted();
    assert Attempted(["/a/x.md", "/a/b/x.md"]) == ["/a/b/x.md"];
    assert Succeeded(["/a/b/x.md"], deletes) == ["/a/b/x.md"];
  }

  /** Two identical files: the shallow one stays, the deep one is removed, one group is reported. */
  lemma ScenarioA()
    ensures var out := Run("/a", TwoCopies, p => Some("h"), p => true);
      out.kept == ["/a/x.md"] && out.removed == ["/a/b/x.md"] && out.uniqueFiles == 1 && out.summary.Some?
  {
    var hash: Path -> Option<Digest> := p => Some("h");
    TwoCopiesGroups(hash);
    TwoCopiesDedup("h", p => true);
  }

  /** A single candidate forms no group. */
  lemma SingleCandidate(c: Candidate)
    ensures DuplicateGroups([c]) == []
  {
    assert [c][..0] == [];
    assert Digests([c]) == [c.digest];
    assert PathsWith([c], c.digest) == [c.path];
    assert Buckets([c])[c.digest] == [c.path];
    SharedSingle(c.digest, Buckets([c]));
  }

  /** One of a pair cannot be read: the readable one is alone, so nothing is touched and no report is written. */
  lemma ScenarioD()
    ensures var out := Run("/a", TwoCopies, p => if p == "/a/b/x.md" then None else Some("h"), p => true);
      out == Outcome(0, 0, [], [], None)
  {
    var hash: Path -> Option<Digest> := p => if p == "/a/b/x.md" then None else Some("h");
    TwoCopiesCandidates(hash);
    SingleCandidate(Candidate("/a/x.md", "h"));
  }

  /** A missing or unreadable root: the walk yields nothing, so nothing is touched and no report is written. */
  lemma EmptyWalk(root: Path, hash: Path -> Option<Digest>, deletes: Path -> bool)
    ensures Run(root, [], hash, deletes) == Outcome(0, 0, [], [], None)
  {
  }

  /** Two candidates with different digests form no group. */
  lemma DistinctDigestPair(p: Path, q: Path, h: Digest, k: Digest)
    requires h != k
    ensures DuplicateGroups([Candidate(p, h), Candidate(q, k)]) == []
  {
    var cs := [Candidate(p, h), Candidate(q, k)];
    DistinctPairBuckets(p, q, h, k);
    var b := Buckets(cs);
    assert [h, k][..1] == [h];
    SharedSingle(h, b);
    assert Shared([h, k], b) == Shared([h], b) + [];
  }

  lemma DistinctPairBuckets(p: Path, q: Path, h: Digest, k: Digest)
    requires h != k
    ensures Digests([Candidate(p, h), Candidate(q, k)]) == [h, k]
    ensures Buckets([Candidate(p, h), Candidate(q, k)])[h] == [p]
    ensures Buckets([Candidate(p, h), Candidate(q, k)])[k] == [q]
  {
    var cs := [Candidate(p, h), Candidate(q, k)];
    assert cs[..1] == [Candidate(p, h)] && cs[..1][..0] == [];
    assert Digests(cs[..1]) == [h];
    assert PathsWith(cs[..1], h) == [p] && PathsWith(cs[..1], k) == [];
  }

  /** All-distinct content: nothing is removed and no report is written. */
  lemma ScenarioC()
    ensures var out := Run("/a", TwoCopies, p => if p == "/a/x.md" then Some("h") else Some("k"), p => true);
      out == Outcome(0, 0, [], [], None)
  {
    var hash: Path -> Option<Digest> := p => if p == "/a/x.md" then Some("h") else Some("k");
    TwoCopiesCandidates(hash);
    assert Candidates("/a", TwoCopies, hash) == [Candidate("/a/x.md", "h"), Candidate("/a/b/x.md", "k")];
    DistinctDigestPair("/a/x.md", "/a/b/x.md", "h", "k");
  }

  /** `/x.md` is shallower than both `/b/x.md` and `/c/x.md`, which share a sort key. */
  lemma ThreeCopiesKeys()
    ensures Before("/x.md", "/b/x.md") && SortKey("/b/x.md") == SortKey("/c/x.md")
  {
    assert Depth("/x.md") == 1;
    assert Depth("/b/x.md") == 2;
    assert Depth("/c/x.md") == 2;
  }

  /** The stable sort moves `/x.md` first and keeps `/b/x.md` before `/c/x.md`. */
  lemma ThreeCopiesSorted()
    ensures SortByKey(["/b/x.md", "/x.md", "/c/x.md"]) == ["/x.md", "/b/x.md", "/c/x.md"]
  {
    ThreeCopiesKeys();
    SortPair("/b/x.md", "/x.md");
    SortThird("/b/x.md", "/x.md", "/c/x.md");
  }

  /** The third path goes last when its key is not smaller than that of the last of the first two, once sorted. */
  lemma SortThird(a: Path, b: Path, c: Path)
    ensures var t := SortByKey([a, b]); |t| == 2 && (!Before(c, t[1]) ==> SortByKey([a, b, c]) == t + [c])
  {
    SortPair(a, b);
    assert [a, b, c][..2] == [a, b];
  }

  lemma ThreeCopiesSplit()
    ensures Kept(["/b/x.md", "/x.md", "/c/x.md"]) == "/x.md"
    ensures Attempted(["/b/x.md", "/x.md", "/c/x.md"]) == ["/b/x.md", "/c/x.md"]
  {
    ThreeCopiesSorted();
  }

  lemma AllSucceed()
    ensures Succeeded(["/b/x.md", "/c/x.md"], p => true) == ["/b/x.md", "/c/x.md"]
  {
    var tried := ["/b/x.md", "/c/x.md"];
    assert tried[..1] == ["/b/x.md"] && tried[..1][..0] == [];
    assert Succeeded(tried[..1], p => true) == ["/b/x.md"];
  }

  /** Three copies: the shallowest is kept, the two deeper ones are removed in their walk order. */
  lemma ScenarioB(h: Digest)
    ensures KeptPaths([Group(h, ["/b/x.md", "/x.md", "/c/x.md"])]) == ["/x.md"]
    ensures RemovedPaths([Group(h, ["/b/x.md", "/x.md", "/c/x.md"])], p => true) == ["/b/x.md", "/c/x.md"]
  {
    var groups := [Group(h, ["/b/x.md", "/x.md", "/c/x.md"])];
    ThreeCopiesSplit();
    AllSucceed();
    assert groups[..0] == [];
  }
}
