/**
 * `df.sort_index()` (utils.py:49-50) on the five-level categorical index.
 * pandas orders a MultiIndex with a stable lexicographic sort over the
 * level codes, so rows with equal keys keep their input order. The model
 * is a stable insertion sort by `KeyLess`.
 */
module Sorting {
  import opened Ordering
  import opened Frame

  /** Non-decreasing in the five-level key. */
  predicate Sorted<V>(s: seq<Row<V>>) {
    forall i, j :: 0 <= i < j < |s| ==> KeyLe(s[i].key, s[j].key)
  }

  /** Every row of `s` sorts no earlier than `b`. */
  predicate AllAtLeast<V>(b: Key, s: seq<Row<V>>) {
    forall i :: 0 <= i < |s| ==> KeyLe(b, s[i].key)
  }

  /** The rows of `s` whose key is `k`, in their order in `s`. */
  function WithKey<V>(s: seq<Row<V>>, k: Key): seq<Row<V>>
  {
    if s == [] then []
    else (if s[0].key == k then [s[0]] else []) + WithKey(s[1..], k)
  }

  lemma {:induction false} WithKeyAppend<V>(a: seq<Row<V>>, b: seq<Row<V>>, k: Key)
    ensures WithKey(a + b, k) == WithKey(a, k) + WithKey(b, k)
  {
    if a == [] {
      assert a + b == b;
    } else {
      assert (a + b)[1..] == a[1..] + b;
      WithKeyAppend(a[1..], b, k);
    }
  }

  /** Filtering a sequence by key, seen from its last row. */
  lemma {:induction false} WithKeySnoc<V>(s: seq<Row<V>>, k: Key)
    requires |s| > 0
    ensures WithKey(s, k) == WithKey(s[..|s| - 1], k) + (if s[|s| - 1].key == k then [s[|s| - 1]] else [])
  {
    var init, last := s[..|s| - 1], s[|s| - 1];
    assert s == init + [last];
    WithKeyAppend(init, [last], k);
    assert [last][1..] == [];
  }

  /** Places `x` after every row whose key sorts no later than its own. */
  function Insert<V>(x: Row<V>, s: seq<Row<V>>): (r: seq<Row<V>>)
    ensures |r| == |s| + 1
    ensures multiset(r) == multiset(s) + multiset{x}
  {
    if s == [] then [x]
    else if KeyLess(x.key, s[0].key) then [x] + s
    else
      assert s == [s[0]] + s[1..];
      [s[0]] + Insert(x, s[1..])
  }

  lemma {:induction false} InsertAtLeast<V>(b: Key, x: Row<V>, s: seq<Row<V>>)
    requires AllAtLeast(b, s) && KeyLe(b, x.key)
    ensures AllAtLeast(b, Insert(x, s))
  {
    if s != [] && !KeyLess(x.key, s[0].key) {
      InsertAtLeast(b, x, s[1..]);
    }
  }

  lemma {:induction false} InsertSorted<V>(x: Row<V>, s: seq<Row<V>>)
    requires Sorted(s)
    ensures Sorted(Insert(x, s))
  {
    if s == [] {
    } else if KeyLess(x.key, s[0].key) {
      forall j | 0 <= j < |s|
        ensures KeyLe(x.key, s[j].key)
      {
        if KeyLess(s[j].key, x.key) {
          KeyLessTransitive(s[j].key, x.key, s[0].key);
        }
      }
    } else {
      InsertSorted(x, s[1..]);
      InsertAtLeast(s[0].key, x, s[1..]);
    }
  }

  /** A row inserted before `s[0]` has no equal-keyed row in the sorted `s`. */
  lemma {:induction false} NoneWithSmallerKey<V>(s: seq<Row<V>>, k: Key)
    requires Sorted(s) && |s| > 0 && KeyLess(k, s[0].key)
    ensures WithKey(s, k) == []
  {
    if |s| > 1 {
      KeyLessTotal(s[0].key, s[1].key);
      if s[0].key != s[1].key {
        KeyLessTransitive(k, s[0].key, s[1].key);
      }
      NoneWithSmallerKey(s[1..], k);
    }
  }

  lemma {:induction false} SortedTail<V>(s: seq<Row<V>>)
    requires Sorted(s) && |s| > 0
    ensures Sorted(s[1..])
  {
    forall i, j | 0 <= i < j < |s| - 1
      ensures KeyLe(s[1..][i].key, s[1..][j].key)
    {
      assert s[1..][i] == s[i + 1] && s[1..][j] == s[j + 1];
    }
  }

  /** Filtering a sequence by key, seen from its first row. */
  lemma {:induction false} WithKeyCons<V>(x: Row<V>, s: seq<Row<V>>, k: Key)
    ensures WithKey([x] + s, k) == (if x.key == k then [x] else []) + WithKey(s, k)
  {
    assert ([x] + s)[1..] == s;
  }

  /** Inserting `x` appends it to the rows that share its key and leaves other keys alone. */
  lemma {:induction false} InsertStable<V>(x: Row<V>, s: seq<Row<V>>, k: Key)
    requires Sorted(s)
    ensures WithKey(Insert(x, s), k) == WithKey(s, k) + (if x.key == k then [x] else [])
  {
    if s == [] {
      WithKeyCons(x, [], k);
    } else if KeyLess(x.key, s[0].key) {
      WithKeyCons(x, s, k);
      if x.key == k {
        NoneWithSmallerKey(s, k);
      }
    } else {
      var t := Insert(x, s[1..]);
      SortedTail(s);
      InsertStable(x, s[1..], k);
      WithKeyCons(s[0], t, k);
    }
  }

  /** `df.sort_index()`: a stable sort, here by insertion from the last row backwards. */
  function SortRows<V>(rows: seq<Row<V>>): (r: seq<Row<V>>)
    ensures |r| == |rows|
  {
    if rows == [] then []
    else Insert(rows[|rows| - 1], SortRows(rows[..|rows| - 1]))
  }

  /** After the sort the rows are non-decreasing in the composite key. */
  lemma {:induction false} SortRowsSorted<V>(rows: seq<Row<V>>)
    ensures Sorted(SortRows(rows))
  {
    if rows != [] {
      SortRowsSorted(rows[..|rows| - 1]);
      InsertSorted(rows[|rows| - 1], SortRows(rows[..|rows| - 1]));
    }
  }

  /** The sort neither loses nor duplicates a row. */
  lemma {:induction false} SortRowsPermutation<V>(rows: seq<Row<V>>)
    ensures multiset(SortRows(rows)) == multiset(rows)
  {
    if rows != [] {
      var init := rows[..|rows| - 1];
      SortRowsPermutation(init);
      assert rows == init + [rows[|rows| - 1]];
    }
  }

  /** Stability: rows sharing a key come out in the order they went in. */
  lemma {:induction false} SortRowsStable<V>(rows: seq<Row<V>>, k: Key)
    ensures WithKey(SortRows(rows), k) == WithKey(rows, k)
  {
    if rows != [] {
      var init, last := rows[..|rows| - 1], rows[|rows| - 1];
      var sortedInit := SortRows(init);
      assert SortRows(rows) == Insert(last, sortedInit);
      SortRowsStable(init, k);
      SortRowsSorted(init);
      InsertStable(last, sortedInit, k);
      WithKeySnoc(rows, k);
    }
  }

  /** Every sorted row is an input row. */
  lemma {:induction false} SortedRowFrom<V>(rows: seq<Row<V>>, i: nat) returns (j: nat)
    requires i < |SortRows(rows)|
    ensures j < |rows| && rows[j] == SortRows(rows)[i]
  {
    SortRowsPermutation(rows);
    assert SortRows(rows)[i] in multiset(rows);
    j :| 0 <= j < |rows| && rows[j] == SortRows(rows)[i];
  }

  /** Every input row is a sorted row. */
  lemma {:induction false} SortedRowTo<V>(rows: seq<Row<V>>, j: nat) returns (i: nat)
    requires j < |rows|
    ensures i < |SortRows(rows)| && SortRows(rows)[i] == rows[j]
  {
    SortRowsPermutation(rows);
    assert rows[j] in multiset(SortRows(rows));
    i :| 0 <= i < |SortRows(rows)| && SortRows(rows)[i] == rows[j];
  }

  /** No two rows share a five-part key. */
  predicate DistinctKeys<V>(s: seq<Row<V>>) {
    forall i, j :: 0 <= i < j < |s| ==> s[i].key != s[j].key
  }

  /** With distinct keys, a row occurs at most once. */
  lemma {:induction false} DistinctKeysCount<V>(s: seq<Row<V>>, x: Row<V>)
    requires DistinctKeys(s)
    ensures multiset(s)[x] <= 1
  {
    if s != [] {
      var t := s[1..];
      assert s == [s[0]] + t;
      DistinctKeysTail(s);
      DistinctKeysCount(t, x);
      if x == s[0] {
        forall i | 0 <= i < |t|
          ensures t[i] != x
        {
          assert t[i] == s[i + 1];
        }
        assert x !in multiset(t);
      }
    }
  }

  /** A row found at two positions occurs at least twice. */
  lemma {:induction false} TwoPositionsCount<V>(s: seq<Row<V>>, i: nat, j: nat)
    requires i < j < |s| && s[i] == s[j]
    ensures multiset(s)[s[i]] >= 2
  {
    assert s == s[..j] + [s[j]] + s[j + 1..];
    assert s[..j][i] == s[i];
    assert s[i] in multiset(s[..j]);
  }

  /** Rearranging rows with distinct keys keeps their keys distinct. */
  lemma {:induction false} DistinctKeysPermutation<V>(a: seq<Row<V>>, b: seq<Row<V>>)
    requires multiset(a) == multiset(b) && DistinctKeys(a)
    ensures DistinctKeys(b)
  {
    forall i, j | 0 <= i < j < |b|
      ensures b[i].key != b[j].key
    {
      if b[i].key == b[j].key {
        assert b[i] in multiset(a) && b[j] in multiset(a);
        var p :| 0 <= p < |a| && a[p] == b[i];
        var q :| 0 <= q < |a| && a[q] == b[j];
        assert p == q;
        TwoPositionsCount(b, i, j);
        DistinctKeysCount(a, b[i]);
        assert false;
      }
    }
  }

  /** Two sorted arrangements of the same rows with distinct keys start with the same row. */
  lemma {:induction false} SortedSameFirst<V>(s1: seq<Row<V>>, s2: seq<Row<V>>)
    requires Sorted(s1) && Sorted(s2) && multiset(s1) == multiset(s2) && DistinctKeys(s1)
    requires |s1| > 0 && |s2| > 0
    ensures s1[0] == s2[0]
  {
    var x, y := s1[0], s2[0];
    assert y in multiset(s1) && x in multiset(s2);
    var p :| 0 <= p < |s1| && s1[p] == y;
    var q :| 0 <= q < |s2| && s2[q] == x;
    assert KeyLe(x.key, y.key) && KeyLe(y.key, x.key);
    KeyLessTotal(x.key, y.key);
    assert s1[0].key == s1[p].key;
  }

  /** Dropping the first row keeps the keys distinct. */
  lemma {:induction false} DistinctKeysTail<V>(s: seq<Row<V>>)
    requires DistinctKeys(s) && |s| > 0
    ensures DistinctKeys(s[1..])
  {
    forall i, j | 0 <= i < j < |s| - 1
      ensures s[1..][i].key != s[1..][j].key
    {
      assert s[1..][i] == s[i + 1] && s[1..][j] == s[j + 1];
    }
  }

  /** Two sequences with the same multiset and the same first element have tails with the same multiset. */
  lemma {:induction false} MultisetTail<T>(s1: seq<T>, s2: seq<T>)
    requires multiset(s1) == multiset(s2) && |s1| > 0 && |s2| > 0 && s1[0] == s2[0]
    ensures multiset(s1[1..]) == multiset(s2[1..])
  {
    assert s1 == [s1[0]] + s1[1..] && s2 == [s2[0]] + s2[1..];
    assert multiset(s1) == multiset{s1[0]} + multiset(s1[1..]);
    assert multiset(s2) == multiset{s1[0]} + multiset(s2[1..]);
    assert multiset(s1[1..]) == multiset(s1) - multiset{s1[0]} == multiset(s2[1..]);
  }

  /**
   * Two sorted arrangements of the same rows are equal when no two rows
   * share a key: the sorted order of such rows is unique.
   */
  lemma {:induction false} SortedUnique<V>(s1: seq<Row<V>>, s2: seq<Row<V>>)
    requires Sorted(s1) && Sorted(s2) && multiset(s1) == multiset(s2) && DistinctKeys(s1)
    ensures s1 == s2
    decreases |s1|
  {
    assert |s1| == |multiset(s1)| == |multiset(s2)| == |s2|;
    if s1 != [] {
      SortedSameFirst(s1, s2);
      var t1, t2 := s1[1..], s2[1..];
      MultisetTail(s1, s2);
      SortedTail(s1);
      SortedTail(s2);
      DistinctKeysTail(s1);
      SortedUnique(t1, t2);
    }
  }
}
