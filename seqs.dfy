/**
 * Sequence operations the record store performs for the services:
 * `WHERE` filtering, uniqueness of a key, and `ORDER BY ... DESC`.
 */
module Seqs {

  /** The rows of `s` that satisfy `p`, in their original order. */
  function Filter<T(==)>(s: seq<T>, p: T -> bool): (r: seq<T>)
    ensures |r| <= |s|
    ensures forall x <- r :: x in s && p(x)
    ensures forall x <- s :: p(x) ==> x in r
  {
    if s == [] then [] else (if p(s[0]) then [s[0]] else []) + Filter(s[1..], p)
  }

  lemma {:induction false} FilterConcat<T>(a: seq<T>, b: seq<T>, p: T -> bool)
    ensures Filter(a + b, p) == Filter(a, p) + Filter(b, p)
  {
    if a == [] {
      assert a + b == b;
    } else {
      assert (a + b)[1..] == a[1..] + b;
      FilterConcat(a[1..], b, p);
    }
  }

  /** Filtering keeps every row when every row passes. */
  lemma {:induction false} FilterKeepsAll<T>(s: seq<T>, p: T -> bool)
    requires forall x <- s :: p(x)
    ensures Filter(s, p) == s
  {
    if s != [] {
      assert s[0] in s;
      FilterKeepsAll(s[1..], p);
    }
  }

  /** Filtering drops every row when no row passes. */
  lemma {:induction false} FilterDropsAll<T>(s: seq<T>, p: T -> bool)
    requires forall x <- s :: !p(x)
    ensures Filter(s, p) == []
  {
    if s != [] {
      assert s[0] in s;
      FilterDropsAll(s[1..], p);
    }
  }

  /** No two rows of `s` share a `key` (a primary key or a unique constraint). */
  ghost predicate DistinctBy<T, K>(s: seq<T>, key: T -> K) {
    forall i, j :: 0 <= i < j < |s| ==> key(s[i]) != key(s[j])
  }

  /** Deleting rows cannot break a uniqueness constraint. */
  lemma {:induction false} FilterKeepsDistinct<T, K>(s: seq<T>, p: T -> bool, key: T -> K)
    requires DistinctBy(s, key)
    ensures DistinctBy(Filter(s, p), key)
  {
    if s != [] {
      FilterKeepsDistinct(s[1..], p, key);
      var rest := Filter(s[1..], p);
      forall x | x in rest
        ensures key(x) != key(s[0])
      {
        var k :| 0 <= k < |s[1..]| && s[1..][k] == x;
        assert s[k + 1] == x;
      }
    }
  }

  /** Under a uniqueness constraint, two rows with the same key are the same row. */
  lemma DistinctByUnique<T, K>(s: seq<T>, key: T -> K, x: T, y: T)
    requires DistinctBy(s, key)
    requires x in s && y in s && key(x) == key(y)
    ensures x == y
  {
    var i :| 0 <= i < |s| && s[i] == x;
    var j :| 0 <= j < |s| && s[j] == y;
    assert !(i < j) && !(j < i);
  }

  /** The rows of `s` whose key differs from `k`: a delete by primary key. */
  function WithoutKey<T(==), K(==)>(s: seq<T>, key: T -> K, k: K): (r: seq<T>)
    ensures forall x <- r :: x in s && key(x) != k
    ensures forall x <- s :: key(x) != k ==> x in r
  {
    Filter(s, (y: T) => key(y) != k)
  }

  /** Deleting by key cannot break a uniqueness constraint. */
  lemma WithoutKeyKeepsDistinct<T, K, K2>(s: seq<T>, key: T -> K, k: K, key2: T -> K2)
    requires DistinctBy(s, key2)
    ensures DistinctBy(WithoutKey(s, key, k), key2)
  {
    FilterKeepsDistinct(s, (y: T) => key(y) != k, key2);
  }

  /** Deleting by a key that no row carries changes nothing. */
  lemma WithoutAbsentKey<T, K>(s: seq<T>, key: T -> K, k: K)
    requires forall x <- s :: key(x) != k
    ensures WithoutKey(s, key, k) == s
  {
    FilterKeepsAll(s, (y: T) => key(y) != k);
  }

  /** Deleting the row just appended, by its key that no earlier row carries, restores the rows. */
  lemma WithoutKeyUndoesAppend<T, K>(s: seq<T>, y: T, key: T -> K)
    requires forall x <- s :: key(x) != key(y)
    ensures WithoutKey(s + [y], key, key(y)) == s
  {
    var p := (z: T) => key(z) != key(y);
    FilterConcat(s, [y], p);
    FilterKeepsAll(s, p);
    assert Filter([y], p) == [];
  }

  /** Deleting a row by its unique key removes exactly that one row. */
  lemma {:induction false} WithoutKeyRemovesOne<T, K>(s: seq<T>, key: T -> K, x: T)
    requires DistinctBy(s, key) && x in s
    ensures |WithoutKey(s, key, key(x))| == |s| - 1
  {
    if s[0] == x {
      assert forall y <- s[1..] :: key(y) != key(x) by {
        forall y | y in s[1..]
          ensures key(y) != key(x)
        {
          var j :| 0 <= j < |s[1..]| && s[1..][j] == y;
          assert s[j + 1] == y;
        }
      }
      WithoutAbsentKey(s[1..], key, key(x));
    } else {
      assert x in s[1..];
      assert key(s[0]) != key(x) by {
        var i :| 0 <= i < |s| && s[i] == x;
        assert 0 < i;
      }
      WithoutKeyRemovesOne(s[1..], key, x);
    }
  }

  /** The rows of `s` with the row whose key is `key(x)` replaced by `x`: an update by primary key. */
  function ReplaceByKey<T, K(==)>(s: seq<T>, key: T -> K, x: T): (r: seq<T>)
    ensures |r| == |s|
    ensures forall i :: 0 <= i < |s| ==> r[i] == (if key(s[i]) == key(x) then x else s[i])
    ensures forall i :: 0 <= i < |s| ==> key(r[i]) == key(s[i])
    ensures DistinctBy(s, key) ==> DistinctBy(r, key)
  {
    seq(|s|, i requires 0 <= i < |s| => if key(s[i]) == key(x) then x else s[i])
  }

  /** Inserting a row whose key is new keeps a uniqueness constraint. */
  lemma AppendKeepsDistinct<T, K>(s: seq<T>, y: T, key: T -> K)
    requires DistinctBy(s, key)
    requires forall x <- s :: key(x) != key(y)
    ensures DistinctBy(s + [y], key)
  {
    var t := s + [y];
    forall i, j | 0 <= i < j < |t|
      ensures key(t[i]) != key(t[j])
    {
      if j < |s| {
        assert t[i] == s[i] && t[j] == s[j];
      } else {
        assert t[i] == s[i] && s[i] in s;
      }
    }
  }

  /** `s` is ordered by `key`, largest first (`ORDER BY key DESC`). */
  ghost predicate SortedDesc<T>(s: seq<T>, key: T -> int) {
    forall i, j :: 0 <= i < j < |s| ==> key(s[i]) >= key(s[j])
  }

  /** Inserts `x` into the descending sequence `s`, before the rows with an equal key. */
  function InsertDesc<T>(x: T, s: seq<T>, key: T -> int): (r: seq<T>)
    requires SortedDesc(s, key)
    ensures multiset(r) == multiset(s) + multiset{x}
    ensures SortedDesc(r, key)
  {
    if s == [] then [x]
    else if key(x) >= key(s[0]) then [x] + s
    else
      var tail := InsertDesc(x, s[1..], key);
      assert s == [s[0]] + s[1..];
      assert forall y <- tail :: key(s[0]) >= key(y) by {
        forall y | y in tail
          ensures key(s[0]) >= key(y)
        {
          assert y in multiset(tail);
          if y != x {
            assert y in multiset(s[1..]);
            var k :| 0 <= k < |s[1..]| && s[1..][k] == y;
            assert s[k + 1] == y;
          }
        }
      }
      [s[0]] + tail
  }

  /**
   * The rows of `s` ordered by `key`, largest first. Rows with equal keys
   * keep their relative order.
   */
  function SortDesc<T>(s: seq<T>, key: T -> int): (r: seq<T>)
    ensures multiset(r) == multiset(s)
    ensures |r| == |s|
    ensures SortedDesc(r, key)
  {
    if s == [] then []
    else
      assert s == [s[0]] + s[1..];
      var r := InsertDesc(s[0], SortDesc(s[1..], key), key);
      assert |r| == |multiset(r)|;
      r
  }

  /** Sorting keeps exactly the rows it was given. */
  lemma SortDescMembers<T>(s: seq<T>, key: T -> int)
    ensures forall x :: x in SortDesc(s, key) <==> x in s
  {
    var r := SortDesc(s, key);
    forall x
      ensures x in r <==> x in s
    {
      assert x in r <==> x in multiset(r);
      assert x in s <==> x in multiset(s);
    }
  }
}
