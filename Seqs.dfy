/**
 * The array builtins the application leans on, `filter` and `find`, and the
 * facts about them that the inventory proofs reuse.
 */
module Seqs {
  import opened Types

  /** `s.filter(keep)`: the elements satisfying `keep`, in their original order. */
  function Filter<T(!new)>(s: seq<T>, keep: T -> bool): (r: seq<T>)
    ensures |r| <= |s|
    ensures forall i :: 0 <= i < |r| ==> r[i] in s && keep(r[i])
  {
    if s == [] then [] else (if keep(s[0]) then [s[0]] else []) + Filter(s[1..], keep)
  }

  /** What a filter keeps: each element with its multiplicity exactly when it passes the test. */
  lemma {:induction false} FilterCounts<T(!new)>(s: seq<T>, keep: T -> bool)
    ensures forall x :: multiset(Filter(s, keep))[x] == if keep(x) then multiset(s)[x] else 0
  {
    if s != [] {
      FilterCounts(s[1..], keep);
      assert s == [s[0]] + s[1..];
    }
  }

  lemma FilterMembers<T(!new)>(s: seq<T>, keep: T -> bool)
    ensures forall x :: x in Filter(s, keep) <==> x in s && keep(x)
  {
    FilterCounts(s, keep);
    forall x ensures x in Filter(s, keep) <==> x in s && keep(x) {
      assert x in Filter(s, keep) <==> multiset(Filter(s, keep))[x] > 0;
      assert x in s <==> multiset(s)[x] > 0;
    }
  }

  /** `s.find(p)`: the first element satisfying `p`, if any. */
  function Find<T>(s: seq<T>, p: T -> bool): (r: Option<T>)
    ensures r.None? <==> forall i :: 0 <= i < |s| ==> !p(s[i])
    ensures r.Some? ==> exists i :: 0 <= i < |s| && s[i] == r.value && p(s[i])
                                   && forall j :: 0 <= j < i ==> !p(s[j])
  {
    if s == [] then None
    else if p(s[0]) then Some(s[0])
    else
      var r := Find(s[1..], p);
      assert r.Some? ==> exists i :: 0 <= i < |s| - 1 && s[1..][i] == r.value && p(s[1..][i])
                                       && forall j :: 0 <= j < i ==> !p(s[1..][j]);
      assert forall i :: 0 < i < |s| ==> s[i] == s[1..][i - 1];
      r
  }

  /** `a` is `b` with some elements dropped and the rest kept in order. */
  ghost predicate IsSubsequence<T>(a: seq<T>, b: seq<T>)
    decreases |b|
  {
    if b == [] then a == []
    else (a != [] && a[0] == b[0] && IsSubsequence(a[1..], b[1..])) || IsSubsequence(a, b[1..])
  }

  ghost predicate Pairwise<T>(s: seq<T>, rel: (T, T) -> bool) {
    forall i, j :: 0 <= i < j < |s| ==> rel(s[i], s[j])
  }

  /** Filtering keeps the relative order of what it keeps. */
  lemma {:induction false} FilterIsSubsequence<T(!new)>(s: seq<T>, keep: T -> bool)
    ensures IsSubsequence(Filter(s, keep), s)
  {
    if s != [] {
      FilterIsSubsequence(s[1..], keep);
      var r := Filter(s, keep);
      if keep(s[0]) {
        assert r[0] == s[0] && r[1..] == Filter(s[1..], keep);
        assert IsSubsequence(r[1..], s[1..]);
      } else {
        assert r == Filter(s[1..], keep);
        assert IsSubsequence(r, s[1..]);
      }
    }
  }

  /** Filtering twice by the same test is filtering once. */
  lemma {:induction false} FilterIdempotent<T(!new)>(s: seq<T>, keep: T -> bool)
    ensures Filter(Filter(s, keep), keep) == Filter(s, keep)
  {
    if s != [] {
      FilterIdempotent(s[1..], keep);
      var r := Filter(s, keep);
      if keep(s[0]) {
        assert r == [s[0]] + Filter(s[1..], keep);
        assert r[0] == s[0] && r[1..] == Filter(s[1..], keep);
        assert Filter(r, keep) == [s[0]] + Filter(r[1..], keep);
      } else {
        assert r == Filter(s[1..], keep);
      }
    }
  }

  lemma {:induction false} FilterAppend<T(!new)>(a: seq<T>, b: seq<T>, keep: T -> bool)
    ensures Filter(a + b, keep) == Filter(a, keep) + Filter(b, keep)
  {
    if a == [] {
      assert a + b == b;
    } else {
      var ab := a + b;
      assert ab[0] == a[0] && ab[1..] == a[1..] + b;
      FilterAppend(a[1..], b, keep);
      assert Filter(ab, keep) == (if keep(a[0]) then [a[0]] else []) + Filter(ab[1..], keep);
      assert Filter(a, keep) == (if keep(a[0]) then [a[0]] else []) + Filter(a[1..], keep);
    }
  }

  /** Filtering by a stronger test after a weaker one is filtering by the stronger one. */
  lemma {:induction false} FilterOfFilter<T(!new)>(s: seq<T>, weak: T -> bool, strong: T -> bool)
    requires forall x :: strong(x) ==> weak(x)
    ensures Filter(Filter(s, weak), strong) == Filter(s, strong)
  {
    if s != [] {
      FilterOfFilter(s[1..], weak, strong);
      var r := Filter(s, weak);
      if weak(s[0]) {
        assert r == [s[0]] + Filter(s[1..], weak);
        assert r[0] == s[0] && r[1..] == Filter(s[1..], weak);
        assert Filter(r, strong) == (if strong(s[0]) then [s[0]] else []) + Filter(r[1..], strong);
      } else {
        assert r == Filter(s[1..], weak);
        assert !strong(s[0]);
      }
    }
  }

  /** Changing an element the filter drops, into one it still drops, does not change the result. */
  lemma {:induction false} FilterUpdateDropped<T(!new)>(s: seq<T>, m: nat, y: T, keep: T -> bool)
    requires m < |s| && !keep(s[m]) && !keep(y)
    ensures Filter(s[m := y], keep) == Filter(s, keep)
  {
    if m > 0 {
      assert s[m := y][1..] == s[1..][m - 1 := y];
      FilterUpdateDropped(s[1..], m - 1, y, keep);
    }
  }

  /** Whatever holds of every pair in order holds of every pair of a filtered sequence. */
  lemma {:induction false} FilterKeepsPairwise<T(!new)>(s: seq<T>, keep: T -> bool, rel: (T, T) -> bool)
    requires Pairwise(s, rel)
    ensures Pairwise(Filter(s, keep), rel)
  {
    if s != [] {
      assert Pairwise(s[1..], rel) by {
        forall i, j | 0 <= i < j < |s| - 1 ensures rel(s[1..][i], s[1..][j]) {
          assert rel(s[i + 1], s[j + 1]);
        }
      }
      FilterKeepsPairwise(s[1..], keep, rel);
      var t := Filter(s[1..], keep);
      if keep(s[0]) {
        var r := [s[0]] + t;
        forall i, j | 0 <= i < j < |r| ensures rel(r[i], r[j]) {
          if i == 0 {
            FilterMembers(s[1..], keep);
            assert r[j] == t[j - 1] && t[j - 1] in t;
            assert r[j] in s[1..];
            var k :| 0 <= k < |s| - 1 && s[1..][k] == r[j];
            assert rel(s[0], s[k + 1]);
          } else {
            assert r[i] == t[i - 1] && r[j] == t[j - 1];
          }
        }
      }
    }
  }
}
