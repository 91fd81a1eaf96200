/**
 * The array operations the dataset engine is built from: `Array.prototype.filter`
 * (Keep), `findIndex` (IndexWhere) and the uniqueness that the add and edit
 * handlers try to keep (Distinct).
 */
module Seqs {

  /** The elements of `s` that satisfy `p`, in their original order. */
  function Keep<T(==)>(s: seq<T>, p: T -> bool): (r: seq<T>)
    ensures |r| <= |s|
    ensures forall i :: 0 <= i < |r| ==> p(r[i]) && r[i] in s
    ensures forall i :: 0 <= i < |s| && p(s[i]) ==> s[i] in r
  {
    if s == [] then [] else (if p(s[0]) then [s[0]] else []) + Keep(s[1..], p)
  }

  /** Filtering a concatenation filters each part: the filter is stable. */
  lemma {:induction false} KeepAppend<T>(a: seq<T>, b: seq<T>, p: T -> bool)
    ensures Keep(a + b, p) == Keep(a, p) + Keep(b, p)
  {
    if a == [] {
      assert a + b == b;
    } else {
      assert (a + b)[0] == a[0];
      assert (a + b)[1..] == a[1..] + b;
      KeepAppend(a[1..], b, p);
    }
  }

  /** When every element passes, the filter returns its input unchanged. */
  lemma {:induction false} KeepAllPass<T>(s: seq<T>, p: T -> bool)
    requires forall i :: 0 <= i < |s| ==> p(s[i])
    ensures Keep(s, p) == s
  {
    if s != [] {
      KeepAllPass(s[1..], p);
    }
  }

  /** Filtering twice with the same test is filtering once. */
  lemma KeepIdempotent<T>(s: seq<T>, p: T -> bool)
    ensures Keep(Keep(s, p), p) == Keep(s, p)
  {
    KeepAllPass(Keep(s, p), p);
  }

  /** Some kept element has property `q` exactly when some element of `s` passes `p` and has `q`. */
  lemma KeepSome<T>(s: seq<T>, p: T -> bool, q: T -> bool)
    ensures (exists j :: 0 <= j < |Keep(s, p)| && q(Keep(s, p)[j])) <==> exists i :: 0 <= i < |s| && p(s[i]) && q(s[i])
  {
    var r := Keep(s, p);
    forall i | 0 <= i < |s| && p(s[i]) && q(s[i]) ensures exists j :: 0 <= j < |r| && q(r[j]) {
      var j :| 0 <= j < |r| && r[j] == s[i];
      assert q(r[j]);
    }
    forall j | 0 <= j < |r| && q(r[j]) ensures exists i :: 0 <= i < |s| && p(s[i]) && q(s[i]) {
      var i :| 0 <= i < |s| && s[i] == r[j];
      assert p(s[i]) && q(s[i]);
    }
  }

  /** Every passing element keeps all its occurrences, every failing one loses all of them. */
  lemma {:induction false} KeepCount<T>(s: seq<T>, p: T -> bool, x: T)
    ensures multiset(Keep(s, p))[x] == if p(x) then multiset(s)[x] else 0
  {
    if s != [] {
      KeepCount(s[1..], p, x);
      var rest := Keep(s[1..], p);
      assert s == [s[0]] + s[1..];
      if p(s[0]) {
        assert Keep(s, p) == [s[0]] + rest;
      } else {
        assert Keep(s, p) == rest;
      }
    }
  }

  /** `findIndex`: the first position whose element satisfies `p`, or -1. */
  function IndexWhere<T>(s: seq<T>, p: T -> bool): (r: int)
    ensures -1 <= r < |s|
    ensures r == -1 <==> forall i :: 0 <= i < |s| ==> !p(s[i])
    ensures r >= 0 ==> p(s[r]) && forall i :: 0 <= i < r ==> !p(s[i])
  {
    if s == [] then -1
    else if p(s[0]) then 0
    else
      var k := IndexWhere(s[1..], p);
      if k == -1 then -1 else k + 1
  }

  /** No two positions of `s` share a key. */
  ghost predicate Distinct<T, K>(s: seq<T>, key: T -> K) {
    forall i, j :: 0 <= i < |s| && 0 <= j < |s| && i != j ==> key(s[i]) != key(s[j])
  }

  /** Appending an element whose key is new keeps the keys distinct. */
  lemma AppendKeepsDistinct<T, K>(s: seq<T>, x: T, key: T -> K)
    requires Distinct(s, key)
    requires forall i :: 0 <= i < |s| ==> key(s[i]) != key(x)
    ensures Distinct(s + [x], key)
  {
    var s' := s + [x];
    forall i, j | 0 <= i < |s'| && 0 <= j < |s'| && i != j
      ensures key(s'[i]) != key(s'[j])
    {
      if i < |s| && j < |s| {
        assert s'[i] == s[i] && s'[j] == s[j];
      } else if i < |s| {
        assert s'[i] == s[i] && s'[j] == x;
      } else {
        assert s'[j] == s[j] && s'[i] == x;
      }
    }
  }

  /**
   * Replacing the element at `idx` by one whose key no OTHER position has
   * keeps the keys distinct.
   */
  lemma ReplaceKeepsDistinct<T, K>(s: seq<T>, idx: int, x: T, key: T -> K)
    requires Distinct(s, key)
    requires 0 <= idx < |s|
    requires forall i :: 0 <= i < |s| && i != idx ==> key(s[i]) != key(x)
    ensures Distinct(s[idx := x], key)
  {
  }

  /** Filtering keeps keys unique: the kept elements are a sub-list of distinct ones. */
  lemma {:induction false} KeepKeepsDistinct<T, K>(s: seq<T>, p: T -> bool, key: T -> K)
    requires Distinct(s, key)
    ensures Distinct(Keep(s, p), key)
  {
    if s != [] {
      var rest := s[1..];
      assert Distinct(rest, key) by {
        assert forall i :: 0 <= i < |rest| ==> rest[i] == s[i + 1];
      }
      KeepKeepsDistinct(rest, p, key);
      var k := Keep(rest, p);
      if p(s[0]) {
        var r := [s[0]] + k;
        forall i, j | 0 <= i < |r| && 0 <= j < |r| && i != j
          ensures key(r[i]) != key(r[j])
        {
          if i > 0 && j > 0 {
            assert r[i] == k[i - 1] && r[j] == k[j - 1];
          } else if i == 0 {
            assert r[j] == k[j - 1];
            var m :| 0 <= m < |rest| && rest[m] == r[j];
            assert s[m + 1] == r[j];
          } else {
            assert r[i] == k[i - 1];
            var m :| 0 <= m < |rest| && rest[m] == r[i];
            assert s[m + 1] == r[i];
          }
        }
      }
    }
  }

  /** `KeepKeepsDistinct` for every test at once. */
  lemma KeepKeepsDistinctForAll<T, K>(s: seq<T>, key: T -> K)
    requires Distinct(s, key)
    ensures forall p :: Distinct(Keep(s, p), key)
  {
    forall p {
      KeepKeepsDistinct(s, p, key);
    }
  }
}
