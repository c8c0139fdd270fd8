/**
 * `paths.sort(key=lambda p: (p.count(os.sep), len(p)))`: Python's list sort
 * is stable, so it is specified here by a stable insertion sort on the key,
 * `SortByKey`, and carried out in place on an array by `SortByKeyInPlace`.
 */
module StableSort {
  import opened Paths

  /** Inserts `x` after every element of `t` whose key is not greater than its own. */
  function Insert(x: Path, t: seq<Path>): (r: seq<Path>)
    ensures |r| == |t| + 1
  {
    if |t| == 0 || !Before(x, t[|t| - 1]) then t + [x]
    else Insert(x, t[..|t| - 1]) + [t[|t| - 1]]
  }

  /** The stable sort of `s` by `SortKey`. */
  function SortByKey(s: seq<Path>): (r: seq<Path>)
    ensures |r| == |s|
  {
    if |s| == 0 then [] else Insert(s[|s| - 1], SortByKey(s[..|s| - 1]))
  }

  /** No element is followed by one with a smaller key. */
  predicate Sorted(s: seq<Path>)
  {
    forall i, j :: 0 <= i < j < |s| ==> !Before(s[j], s[i])
  }

  /** The elements of `s` whose key is `k`, in their order in `s`. */
  function WithKey(s: seq<Path>, k: (nat, nat)): (r: seq<Path>)
    ensures |r| <= |s|
    ensures forall p | p in r :: p in s && SortKey(p) == k
  {
    if |s| == 0 then []
    else WithKey(s[..|s| - 1], k) + (if SortKey(s[|s| - 1]) == k then [s[|s| - 1]] else [])
  }

  /** `s[i]` has the smallest key in `s`, and every earlier element has a strictly greater one. */
  predicate FirstMinimum(s: seq<Path>, i: int)
  {
    && 0 <= i < |s|
    && (forall j :: 0 <= j < |s| ==> !Before(s[j], s[i]))
    && (forall j :: 0 <= j < i ==> Before(s[i], s[j]))
  }

  lemma {:induction false} InsertPermutes(x: Path, t: seq<Path>)
    ensures multiset(Insert(x, t)) == multiset(t) + multiset{x}
    decreases |t|
  {
    if |t| > 0 && Before(x, t[|t| - 1]) {
      var init := t[..|t| - 1];
      InsertPermutes(x, init);
      assert t == init + [t[|t| - 1]];
    }
  }

  /** Sorting only reorders: the result is a permutation of the input. */
  lemma {:induction false} SortPermutes(s: seq<Path>)
    ensures multiset(SortByKey(s)) == multiset(s)
  {
    if |s| > 0 {
      var init, last := s[..|s| - 1], s[|s| - 1];
      SortPermutes(init);
      InsertPermutes(last, SortByKey(init));
      assert SortByKey(s) == Insert(last, SortByKey(init));
      assert s == init + [last];
      assert multiset(s) == multiset(init) + multiset{last};
    }
  }

  /** An element of `Insert(x, t)` is `x` or an element of `t`. */
  lemma InsertElements(x: Path, t: seq<Path>, y: Path)
    requires y in Insert(x, t)
    ensures y == x || y in t
  {
    InsertPermutes(x, t);
    assert y in multiset(Insert(x, t));
  }

  lemma {:induction false} InsertSorted(x: Path, t: seq<Path>)
    requires Sorted(t)
    ensures Sorted(Insert(x, t))
    decreases |t|
  {
    if |t| > 0 && Before(x, t[|t| - 1]) {
      var init := t[..|t| - 1];
      var last := t[|t| - 1];
      InsertSorted(x, init);
      var u := Insert(x, init);
      forall i | 0 <= i < |u| ensures !Before(last, u[i]) {
        InsertElements(x, init, u[i]);
        if u[i] != x {
          var k :| 0 <= k < |init| && init[k] == u[i];
        }
      }
    }
  }

  /** The sorted list never has an element followed by one with a smaller key. */
  lemma {:induction false} SortSorted(s: seq<Path>)
    ensures Sorted(SortByKey(s))
  {
    if |s| > 0 {
      SortSorted(s[..|s| - 1]);
      InsertSorted(s[|s| - 1], SortByKey(s[..|s| - 1]));
    }
  }

  /** One element appended to the input adds at most itself to the filtered list. */
  lemma WithKeySnoc(s: seq<Path>, x: Path, k: (nat, nat))
    ensures WithKey(s + [x], k) == WithKey(s, k) + (if SortKey(x) == k then [x] else [])
  {
    assert (s + [x])[..|s|] == s;
  }

  lemma {:induction false} InsertStable(x: Path, t: seq<Path>, k: (nat, nat))
    ensures WithKey(Insert(x, t), k) == WithKey(t + [x], k)
    decreases |t|
  {
    if |t| > 0 && Before(x, t[|t| - 1]) {
      var init := t[..|t| - 1];
      var last := t[|t| - 1];
      assert t + [x] == init + [last] + [x];
      assert Insert(x, t) == Insert(x, init) + [last];
      InsertStable(x, init, k);
      PassOver(Insert(x, init), init, x, last, k);
    }
  }

  /** Moving `x` in front of an element of another key does not change the elements of any one key. */
  lemma PassOver(u: seq<Path>, init: seq<Path>, x: Path, last: Path, k: (nat, nat))
    requires WithKey(u, k) == WithKey(init + [x], k)
    requires SortKey(x) != SortKey(last)
    ensures WithKey(u + [last], k) == WithKey(init + [last] + [x], k)
  {
    WithKeySnoc(u, last, k);
    WithKeySnoc(init, x, k);
    WithKeySnoc(init, last, k);
    WithKeySnoc(init + [last], x, k);
    var w := WithKey(init, k);
    if SortKey(x) == k {
      assert WithKey(u + [last], k) == w + [x];
      assert WithKey(init + [last] + [x], k) == w + [x];
    } else if SortKey(last) == k {
      assert WithKey(u + [last], k) == w + [last];
      assert WithKey(init + [last] + [x], k) == w + [last];
    } else {
      assert WithKey(u + [last], k) == w;
      assert WithKey(init + [last] + [x], k) == w;
    }
  }

  /** Stability: the elements with any one key keep their relative order. */
  lemma {:induction false} SortStable(s: seq<Path>, k: (nat, nat))
    ensures WithKey(SortByKey(s), k) == WithKey(s, k)
  {
    if |s| > 0 {
      var init := s[..|s| - 1];
      assert s == init + [s[|s| - 1]];
      SortStable(init, k);
      InsertStable(s[|s| - 1], SortByKey(init), k);
      WithKeySnoc(SortByKey(init), s[|s| - 1], k);
      WithKeySnoc(init, s[|s| - 1], k);
    }
  }

  lemma {:induction false} InsertHead(x: Path, t: seq<Path>)
    requires Sorted(t) && |t| > 0
    ensures Insert(x, t)[0] == if Before(x, t[0]) then x else t[0]
    decreases |t|
  {
    if Before(x, t[|t| - 1]) && |t| > 1 {
      InsertHead(x, t[..|t| - 1]);
    }
  }

  /**
   * The path that ends up first has the smallest key, and among paths with
   * that key it is the earliest one: the stable sort keeps encounter order.
   */
  lemma {:induction false} SortedHeadIsFirstMinimum(s: seq<Path>)
    requires |s| > 0
    ensures exists i :: FirstMinimum(s, i) && s[i] == SortByKey(s)[0]
  {
    var init := s[..|s| - 1];
    var x := s[|s| - 1];
    assert s == init + [x];
    if |init| == 0 {
      assert SortByKey(s) == [x];
      assert FirstMinimum(s, 0);
    } else {
      SortedHeadIsFirstMinimum(init);
      var i0 :| FirstMinimum(init, i0) && init[i0] == SortByKey(init)[0];
      SortSorted(init);
      InsertHead(x, SortByKey(init));
      var m := init[i0];
      if Before(x, m) {
        forall j | 0 <= j < |s| ensures !Before(s[j], x) && (j < |s| - 1 ==> Before(x, s[j])) {
          if j < |s| - 1 {
            assert s[j] == init[j] && !Before(init[j], m);
          }
        }
        assert FirstMinimum(s, |s| - 1);
      } else {
        forall j | 0 <= j < |s| ensures !Before(s[j], m) && (j < i0 ==> Before(m, s[j])) {
          if j < |s| - 1 {
            assert s[j] == init[j];
          }
        }
        assert FirstMinimum(s, i0);
      }
    }
  }

  /** `r` and `t` hold the same elements of each key, in the same order. */
  ghost predicate SameKeys(r: seq<Path>, t: seq<Path>)
  {
    forall k :: WithKey(r, k) == WithKey(t, k)
  }

  /** The last element of `s` is the last one with its key. */
  lemma LastWithKey(s: seq<Path>)
    requires |s| > 0
    ensures WithKey(s, SortKey(s[|s| - 1])) == WithKey(s[..|s| - 1], SortKey(s[|s| - 1])) + [s[|s| - 1]]
  {
  }

  /** Two sequences with the same elements of each key are both empty or both not. */
  lemma SameKeysBothNonEmpty(r: seq<Path>, t: seq<Path>)
    requires SameKeys(r, t)
    requires |r| > 0
    ensures |t| > 0
  {
    LastWithKey(r);
    assert |WithKey(t, SortKey(r[|r| - 1]))| > 0;
  }

  /** Sorted sequences with the same elements of each key end with the same element. */
  lemma SameKeysSameLast(r: seq<Path>, t: seq<Path>)
    requires Sorted(r) && Sorted(t) && |r| > 0 && |t| > 0
    requires SameKeys(r, t)
    ensures r[|r| - 1] == t[|t| - 1]
    ensures SameKeys(r[..|r| - 1], t[..|t| - 1])
  {
    var x, y := r[|r| - 1], t[|t| - 1];
    SameLastKey(r, t);
    var w := WithKey(r, SortKey(x));
    LastWithKey(r);
    LastWithKey(t);
    assert w == WithKey(t, SortKey(y));
    assert x == w[|w| - 1] == y;
    var ri, ti := r[..|r| - 1], t[..|t| - 1];
    forall k ensures WithKey(ri, k) == WithKey(ti, k) {
      DropLastSameKey(r, t, k);
    }
  }

  /** Sorted sequences with the same elements of each key end with elements of the same key. */
  lemma SameLastKey(r: seq<Path>, t: seq<Path>)
    requires Sorted(r) && Sorted(t) && |r| > 0 && |t| > 0
    requires SameKeys(r, t)
    ensures SortKey(r[|r| - 1]) == SortKey(t[|t| - 1])
  {
    var x, y := r[|r| - 1], t[|t| - 1];
    LastWithKey(r);
    LastWithKey(t);
    assert x in WithKey(t, SortKey(x));
    assert y in WithKey(r, SortKey(y));
    var j :| 0 <= j < |t| && t[j] == x;
    var i :| 0 <= i < |r| && r[i] == y;
    assert !Before(y, x) && !Before(x, y);
  }

  /** Dropping the same last element from two sequences with the same elements of key `k` keeps them so. */
  lemma DropLastSameKey(r: seq<Path>, t: seq<Path>, k: (nat, nat))
    requires |r| > 0 && |t| > 0 && r[|r| - 1] == t[|t| - 1]
    requires WithKey(r, k) == WithKey(t, k)
    ensures WithKey(r[..|r| - 1], k) == WithKey(t[..|t| - 1], k)
  {
    var a, b := WithKey(r[..|r| - 1], k), WithKey(t[..|t| - 1], k);
    var x := r[|r| - 1];
    var f := if SortKey(x) == k then [x] else [];
    assert WithKey(r, k) == a + f;
    assert WithKey(t, k) == b + f;
    assert a == (a + f)[..|a|];
    assert b == (b + f)[..|b|];
  }

  lemma {:induction false} SortedByKeysUnique(r: seq<Path>, t: seq<Path>)
    requires Sorted(r) && Sorted(t)
    requires SameKeys(r, t)
    ensures r == t
    decreases |r|
  {
    if |r| > 0 {
      SameKeysBothNonEmpty(r, t);
      SameKeysSameLast(r, t);
      SortedByKeysUnique(r[..|r| - 1], t[..|t| - 1]);
      assert r == r[..|r| - 1] + [r[|r| - 1]] && t == t[..|t| - 1] + [t[|t| - 1]];
    } else if |t| > 0 {
      SameKeysBothNonEmpty(t, r);
    }
  }

  /**
   * A stable sort by `SortKey` has only one possible result: any ordering that
   * is sorted by the key and keeps the relative order of equal keys is
   * `SortByKey(s)`, whatever algorithm produced it.
   */
  lemma StableSortIsUnique(s: seq<Path>, r: seq<Path>)
    requires Sorted(r)
    requires forall k :: WithKey(r, k) == WithKey(s, k)
    ensures r == SortByKey(s)
  {
    SortSorted(s);
    forall k ensures WithKey(r, k) == WithKey(SortByKey(s), k) {
      SortStable(s, k);
    }
    assert SameKeys(r, SortByKey(s));
    SortedByKeysUnique(r, SortByKey(s));
  }

  /**
   * `x` goes after the first `j` elements of `t` when the element before that
   * point does not sort after `x` and every element from there on does.
   */
  lemma {:induction false} InsertAt(x: Path, t: seq<Path>, j: nat)
    requires j <= |t|
    requires j == 0 || !Before(x, t[j - 1])
    requires forall k :: j <= k < |t| ==> Before(x, t[k])
    ensures Insert(x, t) == t[..j] + [x] + t[j..]
    decreases |t|
  {
    if j < |t| {
      var init := t[..|t| - 1];
      InsertAt(x, init, j);
      assert t[j..] == init[j..] + [t[|t| - 1]];
      assert t[..j] == init[..j];
    } else {
      assert t[..j] == t;
    }
  }

  /** A sequence that holds `t[..j]`, then `x`, then the rest of `t` is `t` with `x` put at `j`. */
  lemma PlacedAt(u: seq<Path>, t: seq<Path>, x: Path, j: nat)
    requires j <= |t| && |u| == |t| + 1
    requires forall k :: 0 <= k < j ==> u[k] == t[k]
    requires u[j] == x
    requires forall k :: j < k < |u| ==> u[k] == t[k - 1]
    ensures u == t[..j] + [x] + t[j..]
  {
    var placed := t[..j] + [x] + t[j..];
    forall k | 0 <= k < |u|
      ensures u[k] == placed[k]
    {
      if k > j {
        assert placed[k] == t[k - 1];
      }
    }
  }

  /** Moves `a[i]` left past every element of the sorted prefix `a[..i]` whose key is greater. */
  method InsertInPlace(a: array<Path>, i: nat)
    requires i < a.Length
    modifies a
    ensures a[..i + 1] == Insert(old(a[i]), old(a[..i]))
    ensures a[i + 1..] == old(a[i + 1..])
  {
    var x := a[i];
    ghost var t := a[..i];
    var j := MakeRoom(a, i, x, t);
    a[j] := x;
    InsertAt(x, t, j);
    PlacedAt(a[..i + 1], t, x, j);
  }

  /**
   * The inner loop: shifts right by one every element of `a[..i]`, from the
   * end, as long as `x` sorts strictly before it; returns where `x` goes.
   */
  method MakeRoom(a: array<Path>, i: nat, x: Path, ghost t: seq<Path>) returns (j: nat)
    requires i < a.Length && t == a[..i]
    modifies a
    ensures j <= i
    ensures forall k :: 0 <= k < j ==> a[k] == t[k]
    ensures forall k :: j < k <= i ==> a[k] == t[k - 1]
    ensures a[i + 1..] == old(a[i + 1..])
    ensures j == 0 || !Before(x, t[j - 1])
    ensures forall k :: j <= k < i ==> Before(x, t[k])
  {
    j := i;
    while j > 0 && Before(x, a[j - 1])
      invariant 0 <= j <= i
      invariant forall k :: 0 <= k < j ==> a[k] == t[k]
      invariant forall k :: j < k <= i ==> a[k] == t[k - 1]
      invariant a[i + 1..] == old(a[i + 1..])
      invariant forall k :: j <= k < i ==> Before(x, t[k])
    {
      a[j] := a[j - 1];
      j := j - 1;
    }
  }

  /** Sorts `a` in place, stably, by `SortKey`. */
  method SortByKeyInPlace(a: array<Path>)
    modifies a
    ensures a[..] == SortByKey(old(a[..]))
  {
    ghost var s := a[..];
    for i := 0 to a.Length
      invariant a[..i] == SortByKey(s[..i])
      invariant a[i..] == s[i..]
    {
      InsertInPlace(a, i);
      assert s[..i + 1][..i] == s[..i];
    }
    assert a[..] == a[..a.Length];
    assert s == s[..a.Length];
  }

}
