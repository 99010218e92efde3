/** Sorting and ordering facts for the result sets of the SQL queries
    (`ORDER BY ... LIMIT n`). A query's order is a relation `before`; the
    database may break ties any way it likes, and the insertion sort below
    is one such choice (a stable one). */
module Sequences {

  ghost predicate Total<T(!new)>(before: (T, T) -> bool)
  {
    forall a, b :: before(a, b) || before(b, a)
  }

  ghost predicate Transitive<T(!new)>(before: (T, T) -> bool)
  {
    forall a, b, c :: before(a, b) && before(b, c) ==> before(a, c)
  }

  /** Each element comes, by `before`, no later than its successor. */
  ghost predicate Sorted<T>(s: seq<T>, before: (T, T) -> bool)
  {
    forall i :: 0 <= i < |s| - 1 ==> before(s[i], s[i + 1])
  }

  /** Each element comes, by `before`, no later than every later element. */
  ghost predicate SortedPairwise<T>(s: seq<T>, before: (T, T) -> bool)
  {
    forall i, j :: 0 <= i < j < |s| ==> before(s[i], s[j])
  }

  /** No two elements share a key. */
  ghost predicate DistinctKeys<T, K>(s: seq<T>, key: T -> K)
  {
    forall i, j :: 0 <= i < j < |s| ==> key(s[i]) != key(s[j])
  }

  /** Puts `x` in front of the first element it may precede. */
  function Insert<T(!new)>(x: T, s: seq<T>, before: (T, T) -> bool): (r: seq<T>)
    ensures |r| == |s| + 1
    ensures multiset(r) == multiset(s) + multiset{x}
    ensures r[0] == x || (s != [] && r[0] == s[0])
  {
    if s == [] then [x]
    else if before(x, s[0]) then [x] + s
    else
      assert s == [s[0]] + s[1..];
      [s[0]] + Insert(x, s[1..], before)
  }

  /** Inserting into a sorted sequence keeps it sorted when `before` is total. */
  lemma {:induction false} InsertSorted<T(!new)>(x: T, s: seq<T>, before: (T, T) -> bool)
    requires Total(before) && Sorted(s, before)
    ensures Sorted(Insert(x, s, before), before)
  {
    if s != [] && !before(x, s[0]) {
      var t := Insert(x, s[1..], before);
      assert Sorted(s[1..], before) by {
        forall i | 0 <= i < |s[1..]| - 1 ensures before(s[1..][i], s[1..][i + 1]) {
          assert s[1..][i] == s[i + 1] && s[1..][i + 1] == s[i + 2];
        }
      }
      InsertSorted(x, s[1..], before);
      var r := [s[0]] + t;
      assert before(s[0], t[0]);
      forall i | 0 <= i < |r| - 1 ensures before(r[i], r[i + 1]) {
        if i > 0 { assert r[i] == t[i - 1] && r[i + 1] == t[i]; }
      }
    }
  }

  /** Insertion sort: a permutation of `s`. */
  function Sort<T(!new)>(s: seq<T>, before: (T, T) -> bool): (r: seq<T>)
    ensures |r| == |s|
    ensures multiset(r) == multiset(s)
  {
    if s == [] then []
    else
      assert s == [s[0]] + s[1..];
      Insert(s[0], Sort(s[1..], before), before)
  }

  /** ... and sorted whenever `before` is total. */
  lemma {:induction false} SortSorted<T(!new)>(s: seq<T>, before: (T, T) -> bool)
    requires Total(before)
    ensures Sorted(Sort(s, before), before)
  {
    if s != [] {
      SortSorted(s[1..], before);
      InsertSorted(s[0], Sort(s[1..], before), before);
    }
  }

  lemma {:induction false} SortedIsPairwise<T(!new)>(s: seq<T>, before: (T, T) -> bool)
    requires Transitive(before) && Sorted(s, before)
    ensures SortedPairwise(s, before)
  {
    if |s| > 1 {
      SortedIsPairwise(s[1..], before);
      forall j | 1 <= j < |s| ensures before(s[0], s[j]) {
        if j > 1 {
          assert before(s[1], s[j]) by { assert s[1] == s[1..][0] && s[j] == s[1..][j - 1]; }
        }
      }
      forall i, j | 0 <= i < j < |s| ensures before(s[i], s[j]) {
        if i > 0 { assert s[i] == s[1..][i - 1] && s[j] == s[1..][j - 1]; }
      }
    }
  }

  /** What a LIMIT cuts off of a sorted result comes no earlier than
      anything it keeps. */
  lemma TakeKeepsSmallest<T>(l: seq<T>, k: nat, before: (T, T) -> bool, x: T, y: T)
    requires k <= |l| && SortedPairwise(l, before)
    requires x in multiset(l) - multiset(l[..k])
    requires y in l[..k]
    ensures before(y, x)
  {
    assert l == l[..k] + l[k..];
    assert multiset(l) == multiset(l[..k]) + multiset(l[k..]);
    assert x in multiset(l[k..]);
    var j :| 0 <= j < |l[k..]| && l[k..][j] == x;
    var i :| 0 <= i < k && l[..k][i] == y;
    assert l[i] == y && l[k + j] == x;
  }

  lemma {:induction false} InsertKeepsKeysDistinct<T(!new), K>(x: T, s: seq<T>, before: (T, T) -> bool, key: T -> K)
    requires DistinctKeys(s, key)
    requires forall i :: 0 <= i < |s| ==> key(s[i]) != key(x)
    ensures DistinctKeys(Insert(x, s, before), key)
  {
    var r := Insert(x, s, before);
    if s != [] && !before(x, s[0]) {
      var t := Insert(x, s[1..], before);
      assert DistinctKeys(s[1..], key) by {
        forall i, j | 0 <= i < j < |s[1..]| ensures key(s[1..][i]) != key(s[1..][j]) {
          assert s[1..][i] == s[i + 1] && s[1..][j] == s[j + 1];
        }
      }
      InsertKeepsKeysDistinct(x, s[1..], before, key);
      forall j | 0 <= j < |t| ensures key(t[j]) != key(s[0]) {
        assert t[j] in multiset(t);
        assert t[j] in multiset(s[1..]) || t[j] == x;
        if t[j] != x {
          var m :| 0 <= m < |s[1..]| && s[1..][m] == t[j];
          assert s[m + 1] == t[j];
        }
      }
      assert r == [s[0]] + t;
      forall i, j | 0 <= i < j < |r| ensures key(r[i]) != key(r[j]) {
        if i > 0 { assert r[i] == t[i - 1] && r[j] == t[j - 1]; }
        else { assert r[j] == t[j - 1]; }
      }
    }
  }

  lemma {:induction false} SortKeepsKeysDistinct<T(!new), K>(s: seq<T>, before: (T, T) -> bool, key: T -> K)
    requires DistinctKeys(s, key)
    ensures DistinctKeys(Sort(s, before), key)
  {
    if s != [] {
      var rest := Sort(s[1..], before);
      assert DistinctKeys(s[1..], key) by {
        forall i, j | 0 <= i < j < |s[1..]| ensures key(s[1..][i]) != key(s[1..][j]) {
          assert s[1..][i] == s[i + 1] && s[1..][j] == s[j + 1];
        }
      }
      SortKeepsKeysDistinct(s[1..], before, key);
      forall i | 0 <= i < |rest| ensures key(rest[i]) != key(s[0]) {
        assert rest[i] in multiset(s[1..]);
        var m :| 0 <= m < |s[1..]| && s[1..][m] == rest[i];
        assert s[m + 1] == rest[i];
      }
      InsertKeepsKeysDistinct(s[0], rest, before, key);
    }
  }
}
