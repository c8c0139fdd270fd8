/**
 * POSIX path strings as the script handles them: `os.sep` is '/',
 * `os.path.join` is `posixpath.join`, and the sort key of a path is the
 * pair (number of separator characters, length).
 */
module Paths {

  type Path = string

  const Sep: char := '/'

  /** `p.count(os.sep)`: the number of '/' characters, not of path components. */
  function Depth(p: Path): (n: nat)
    ensures n <= |p|
    ensures n == 0 <==> Sep !in p
  {
    multiset(p)[Sep]
  }

  /** `name.endswith(suffix)`. */
  predicate EndsWith(name: string, suffix: string)
  {
    |suffix| <= |name| && name[|name| - |suffix|..] == suffix
  }

  /** `posixpath.join(a, b)`: an absolute `b` replaces `a`; otherwise one '/' separates them unless `a` is empty or already ends in '/'. */
  function Join(a: Path, b: string): (r: Path)
    ensures |b| > 0 && b[0] == Sep ==> r == b
    ensures (|b| == 0 || b[0] != Sep) ==> a <= r && EndsWith(r, b)
    ensures (|b| == 0 || b[0] != Sep) && |a| > 0 && a[|a| - 1] != Sep ==> |r| == |a| + 1 + |b| && r[|a|] == Sep
    ensures (|b| == 0 || b[0] != Sep) && (|a| == 0 || a[|a| - 1] == Sep) ==> r == a + b
  {
    if |b| > 0 && b[0] == Sep then b
    else if |a| == 0 || a[|a| - 1] == Sep then a + b
    else a + [Sep] + b
  }

  /** The directory `os.walk` reports after descending through `names` from `root`. */
  function JoinAll(root: Path, names: seq<string>): Path
  {
    if |names| == 0 then root else Join(JoinAll(root, names[..|names| - 1]), names[|names| - 1])
  }

  /** The sort key `(p.count(os.sep), len(p))`. */
  function SortKey(p: Path): (nat, nat)
  {
    (Depth(p), |p|)
  }

  /** Python's ordering of the key tuples: lexicographic, strict. */
  predicate KeyLess(k: (nat, nat), l: (nat, nat))
  {
    k.0 < l.0 || (k.0 == l.0 && k.1 < l.1)
  }

  /** `q` sorts strictly after `p`. */
  predicate Before(p: Path, q: Path)
  {
    KeyLess(SortKey(p), SortKey(q))
  }

}
