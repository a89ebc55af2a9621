/** The pandas operations the pipeline relies on, pinned down over sequences:
    `Series.unique` keeps first-appearance order, `Series.nunique` counts the
    distinct values, `groupby` sorts its keys and `first` takes the first row
    of each group, and `str.contains` with a pattern that holds no regular
    expression metacharacter is plain substring search. */
module Pandas {

  /** No value occurs twice. */
  predicate Distinct<T(==)>(s: seq<T>)
  {
    forall i, j :: 0 <= i < j < |s| ==> s[i] != s[j]
  }

  /** Position of the first occurrence of `x` in `s`: what a lookup of `x`
      finds in a list, or in a dictionary zipped from a list of distinct keys. */
  function FirstIndex<T(==)>(s: seq<T>, x: T): (k: nat)
    requires x in s
    ensures k < |s| && s[k] == x && x !in s[..k]
    decreases |s|
  {
    assert s == s[..|s| - 1] + [s[|s| - 1]];
    if x in s[..|s| - 1] then
      var k := FirstIndex(s[..|s| - 1], x);
      assert s[..|s| - 1][..k] == s[..k];
      k
    else
      |s| - 1
  }

  /** An occurrence with no earlier occurrence is the first one. */
  lemma FirstIndexIs<T>(s: seq<T>, x: T, k: nat)
    requires k < |s| && s[k] == x && x !in s[..k]
    ensures FirstIndex(s, x) == k
  {
    var f := FirstIndex(s, x);
  }

  /** In a list without repetitions, the element at `k` is found at `k`. */
  lemma FirstIndexDistinct<T>(u: seq<T>, k: nat)
    requires Distinct(u) && k < |u|
    ensures FirstIndex(u, u[k]) == k
  {
    assert forall j :: 0 <= j < k ==> u[..k][j] != u[k];
    FirstIndexIs(u, u[k], k);
  }

  /** `Series.unique()`: each distinct value once, in order of first appearance. */
  function Unique<T(==,!new)>(s: seq<T>): (u: seq<T>)
    ensures Distinct(u)
    ensures forall x :: x in u <==> x in s
    decreases |s|
  {
    if |s| == 0 then []
    else
      var init := s[..|s| - 1];
      assert s == init + [s[|s| - 1]];
      var u := Unique(init);
      if s[|s| - 1] in u then u else u + [s[|s| - 1]]
  }

  /** `unique()` lists the values in the order in which they first appear. */
  lemma {:induction false} UniqueOrder<T(!new)>(s: seq<T>)
    ensures forall p, q :: 0 <= p < q < |Unique(s)| ==> FirstIndex(s, Unique(s)[p]) < FirstIndex(s, Unique(s)[q])
    decreases |s|
  {
    if |s| > 0 {
      var init := s[..|s| - 1];
      assert s == init + [s[|s| - 1]];
      UniqueOrder(init);
      var u := Unique(init);
      forall x | x in init
        ensures FirstIndex(s, x) == FirstIndex(init, x) < |s| - 1
      {
      }
    }
  }

  /** `Series.nunique()`. */
  function NUnique<T(==,!new)>(s: seq<T>): nat
  {
    |Unique(s)|
  }

  /** A list without repetitions has as many elements as its set. */
  lemma {:induction false} DistinctCard<T>(u: seq<T>)
    requires Distinct(u)
    ensures |set x | x in u| == |u|
  {
    if |u| > 0 {
      var init := u[..|u| - 1];
      DistinctCard(init);
      assert u == init + [u[|u| - 1]];
      assert (set x | x in u) == (set x | x in init) + {u[|u| - 1]};
      assert u[|u| - 1] !in (set x | x in init);
    }
  }

  /** Two lists without repetitions holding the same values have the same length. */
  lemma DistinctSameLength<T(!new)>(a: seq<T>, b: seq<T>)
    requires Distinct(a) && Distinct(b)
    requires forall x :: x in a <==> x in b
    ensures |a| == |b|
  {
    DistinctCard(a);
    DistinctCard(b);
    assert (set x | x in a) == (set x | x in b);
  }

  /** `nunique` is the number of distinct values. */
  lemma NUniqueCard<T(!new)>(s: seq<T>)
    ensures NUnique(s) == |set x | x in s|
  {
    DistinctCard(Unique(s));
    assert (set x | x in Unique(s)) == (set x | x in s);
  }

  /** `pat` occurs in `s` starting at position `i`. */
  predicate OccursAt(s: string, pat: string, i: nat)
  {
    i + |pat| <= |s| && s[i..i + |pat|] == pat
  }

  /** `Series.str.contains(pat)` for a pattern without regular-expression
      metacharacters: some window of `s` equals `pat`. */
  predicate Contains(s: string, pat: string)
    decreases |s|
  {
    |pat| <= |s| && (s[..|pat|] == pat || (0 < |s| && Contains(s[1..], pat)))
  }

  /** The recursive search finds exactly the occurrences. */
  lemma {:induction false} ContainsOccurs(s: string, pat: string)
    ensures Contains(s, pat) <==> exists i: nat :: OccursAt(s, pat, i)
    decreases |s|
  {
    if |pat| <= |s| {
      if s[..|pat|] == pat {
        assert OccursAt(s, pat, 0);
      } else if 0 < |s| {
        ContainsOccurs(s[1..], pat);
        if exists i: nat :: OccursAt(s[1..], pat, i) {
          var i: nat :| OccursAt(s[1..], pat, i);
          assert s[1..][i..i + |pat|] == s[i + 1..i + 1 + |pat|];
          assert OccursAt(s, pat, i + 1);
        }
        if exists i: nat :: OccursAt(s, pat, i) {
          var i: nat :| OccursAt(s, pat, i);
          assert i != 0;
          assert s[1..][i - 1..i - 1 + |pat|] == s[i..i + |pat|];
          assert OccursAt(s[1..], pat, i - 1);
        }
      }
    }
  }

  predicate StrictlyIncreasing(u: seq<int>)
  {
    forall i, j :: 0 <= i < j < |u| ==> u[i] < u[j]
  }

  /** Adds `x` to an ascending list of distinct keys. */
  function InsertSorted(u: seq<int>, x: int): (r: seq<int>)
    requires StrictlyIncreasing(u)
    ensures StrictlyIncreasing(r)
    ensures forall y :: y in r <==> y in u || y == x
    decreases |u|
  {
    if |u| == 0 || x < u[0] then [x] + u
    else if x == u[0] then u
    else
      var rest := InsertSorted(u[1..], x);
      assert forall j :: 0 <= j < |rest| ==> u[0] < rest[j] by {
        forall j | 0 <= j < |rest|
          ensures u[0] < rest[j]
        {
          assert rest[j] in rest;
          if rest[j] != x {
            var k :| 0 <= k < |u[1..]| && u[1..][k] == rest[j];
            assert u[k + 1] == rest[j];
          }
        }
      }
      [u[0]] + rest
  }

  /** The group keys of `groupby` (default `sort=True`): the distinct keys in
      ascending order. */
  function SortedDistinct(keys: seq<int>): (g: seq<int>)
    ensures StrictlyIncreasing(g)
    ensures forall y :: y in g <==> y in keys
    decreases |keys|
  {
    if |keys| == 0 then []
    else
      assert keys == keys[..|keys| - 1] + [keys[|keys| - 1]];
      InsertSorted(SortedDistinct(keys[..|keys| - 1]), keys[|keys| - 1])
  }

  /** `groupby(keys)[col].first()`: one entry per distinct key, in ascending key
      order, holding the value of the first row that has that key. */
  function GroupFirst<V>(keys: seq<int>, vals: seq<V>): (r: seq<V>)
    requires |keys| == |vals|
    ensures |r| == NUnique(keys)
  {
    var g := SortedDistinct(keys);
    DistinctSameLength(g, Unique(keys));
    seq(|g|, j requires 0 <= j < |g| => vals[FirstIndex(keys, g[j])])
  }

  /** The keys are exactly the codes `1..n`, every one of them used. */
  predicate Contiguous(keys: seq<int>, n: nat)
  {
    && (forall i :: 0 <= i < |keys| ==> 1 <= keys[i] <= n)
    && (forall k :: 1 <= k <= n ==> k in keys)
  }

  /** An ascending list of exactly the values `1..n` holds `i + 1` at `i`. */
  lemma {:induction false} IncreasingCoverAt(u: seq<int>, n: nat, i: nat)
    requires StrictlyIncreasing(u)
    requires forall y :: y in u <==> 1 <= y <= n
    requires i < |u|
    ensures u[i] == i + 1
    decreases i
  {
    if i > 0 {
      IncreasingCoverAt(u, n, i - 1);
    }
    assert u[i] in u;
    assert i + 1 in u;
    var j :| 0 <= j < |u| && u[j] == i + 1;
    if j < i {
      IncreasingCoverAt(u, n, j);
    }
  }

  lemma IncreasingCover(u: seq<int>, n: nat)
    requires StrictlyIncreasing(u)
    requires forall y :: y in u <==> 1 <= y <= n
    ensures |u| == n
    ensures forall i :: 0 <= i < n ==> u[i] == i + 1
  {
    if 0 < |u| {
      IncreasingCoverAt(u, n, |u| - 1);
      assert u[|u| - 1] in u;
    }
    if 0 < n {
      assert n in u;
      var j :| 0 <= j < |u| && u[j] == n;
      IncreasingCoverAt(u, n, j);
    }
    forall i | 0 <= i < n
      ensures u[i] == i + 1
    {
      IncreasingCoverAt(u, n, i);
    }
  }

  /** With contiguous codes the groups are the codes `1, 2, ..., n`. */
  lemma ContiguousGroups(keys: seq<int>, n: nat)
    requires Contiguous(keys, n)
    ensures |SortedDistinct(keys)| == n
    ensures forall i :: 0 <= i < n ==> SortedDistinct(keys)[i] == i + 1
  {
    var g := SortedDistinct(keys);
    forall y
      ensures y in g <==> 1 <= y <= n
    {
      if y in keys {
        var i :| 0 <= i < |keys| && keys[i] == y;
      }
    }
    IncreasingCover(g, n);
  }

  /** With contiguous codes `1..n`, `groupby(keys)[col].first()` has one entry
      per code in ascending order: entry `k - 1` is the value of the first row
      whose code is `k`. */
  lemma GroupFirstContiguous<V>(keys: seq<int>, vals: seq<V>, n: nat)
    requires |keys| == |vals|
    requires Contiguous(keys, n)
    ensures NUnique(keys) == n
    ensures |GroupFirst(keys, vals)| == n
    ensures forall k :: 1 <= k <= n ==> GroupFirst(keys, vals)[k - 1] == vals[FirstIndex(keys, k)]
  {
    ContiguousGroups(keys, n);
    DistinctSameLength(SortedDistinct(keys), Unique(keys));
  }
}
