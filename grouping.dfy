/**
 * `dataframe_to_nested_dict` (utils.py:53-61): the sorted rows are walked
 * once and each row's metrics are stored under its five key labels, a
 * later row replacing an earlier one with the same key.
 *
 * The five-level `defaultdict` is modelled as one insertion-ordered dict
 * keyed by the whole five-part key. The rows arrive sorted, so its keys are
 * strictly increasing (`GroupKeysIncreasing`): rows that share a prefix of
 * the key are adjacent, and walking the nested levels in insertion order
 * visits the leaves in exactly this dict's key order.
 */
module Grouping {
  import opened Ordering
  import opened Frame
  import opened Sorting

  /** The grouped rows: the keys in first-insertion order, and the metrics stored under each. */
  datatype Grouped<V> = Grouped(keys: seq<Key>, leaves: map<Key, map<string, V>>)

  /** The shape of a Python dict: every key listed once, and exactly the keys that have a leaf. */
  ghost predicate WellFormed<V>(g: Grouped<V>) {
    && (forall i, j :: 0 <= i < j < |g.keys| ==> g.keys[i] != g.keys[j])
    && (forall k :: k in g.leaves <==> k in g.keys)
  }

  /**
   * The dict once the assignment at utils.py:59 has run for every row of
   * `rows` in turn. A key met for the first time is appended to the keys;
   * every row replaces the leaf of its key.
   */
  function Group<V>(rows: seq<Row<V>>): (g: Grouped<V>)
    ensures |g.keys| <= |rows|
  {
    if rows == [] then Grouped([], map[])
    else
      var g := Group(rows[..|rows| - 1]);
      var r := rows[|rows| - 1];
      Grouped(if r.key in g.leaves then g.keys else g.keys + [r.key], g.leaves[r.key := r.metrics])
  }

  /** One step of the fold: the dict after the last row, in terms of the dict before it. */
  lemma {:induction false} GroupStep<V>(rows: seq<Row<V>>)
    requires |rows| > 0
    ensures var g, r := Group(rows[..|rows| - 1]), rows[|rows| - 1];
            Group(rows) == Grouped(if r.key in g.leaves then g.keys else g.keys + [r.key], g.leaves[r.key := r.metrics])
  {
  }

  /** The dict lists each key once, and lists exactly the keys that have a leaf. */
  lemma {:induction false} GroupWellFormed<V>(rows: seq<Row<V>>)
    ensures WellFormed(Group(rows))
  {
    if rows != [] {
      var init, r := rows[..|rows| - 1], rows[|rows| - 1];
      GroupWellFormed(init);
      var g := Group(init);
      if r.key !in g.leaves {
        var ks := g.keys + [r.key];
        forall i, j | 0 <= i < j < |ks|
          ensures ks[i] != ks[j]
        {
          assert ks[i] == g.keys[i];
          if j < |g.keys| {
            assert ks[j] == g.keys[j];
          } else {
            assert g.keys[i] in g.leaves;
          }
        }
      }
    }
  }

  /** A key has a leaf exactly when some row carries it. */
  lemma {:induction false} GroupHasKey<V>(rows: seq<Row<V>>, k: Key)
    ensures k in Group(rows).leaves <==> exists i :: 0 <= i < |rows| && rows[i].key == k
  {
    if rows != [] {
      var init := rows[..|rows| - 1];
      GroupHasKey(init, k);
      if k in Group(init).leaves {
        var i :| 0 <= i < |init| && init[i].key == k;
        assert rows[i].key == k;
      }
      if exists i :: 0 <= i < |rows| && rows[i].key == k {
        var i :| 0 <= i < |rows| && rows[i].key == k;
        if i < |init| {
          assert init[i].key == k;
        }
      }
    }
  }

  /** The loop at utils.py:57-59. */
  method GroupRows<V>(rows: seq<Row<V>>) returns (g: Grouped<V>)
    ensures g == Group(rows)
  {
    var keys: seq<Key> := [];
    var leaves: map<Key, map<string, V>> := map[];
    for i := 0 to |rows|
      invariant Grouped(keys, leaves) == Group(rows[..i])
    {
      var r := rows[i];
      assert rows[..i + 1][..i] == rows[..i];
      if r.key !in leaves {
        keys := keys + [r.key];
      }
      leaves := leaves[r.key := r.metrics];
    }
    assert rows[..|rows|] == rows;
    g := Grouped(keys, leaves);
  }

  /**
   * Last write wins: a key has a leaf exactly when some row carries it,
   * and the leaf holds the metrics of the last such row.
   */
  lemma {:induction false} GroupLastWins<V>(rows: seq<Row<V>>, k: Key)
    ensures k in Group(rows).leaves <==> WithKey(rows, k) != []
    ensures WithKey(rows, k) != [] ==>
              Group(rows).leaves[k] == WithKey(rows, k)[|WithKey(rows, k)| - 1].metrics
  {
    if rows != [] {
      var init := rows[..|rows| - 1];
      GroupLastWins(init, k);
      WithKeySnoc(rows, k);
    }
  }

  /**
   * Sorting then grouping keeps, for every key, the metrics of the last
   * row with that key in the INPUT order, because the sort is stable.
   */
  lemma {:induction false} GroupAfterSortKeepsLastInputRow<V>(rows: seq<Row<V>>, k: Key)
    requires WithKey(rows, k) != []
    ensures k in Group(SortRows(rows)).leaves
    ensures Group(SortRows(rows)).leaves[k] == WithKey(rows, k)[|WithKey(rows, k)| - 1].metrics
  {
    SortRowsStable(rows, k);
    GroupLastWins(SortRows(rows), k);
  }

  /** Strictly increasing in the five-level key, so in particular without repetition. */
  predicate Increasing(keys: seq<Key>) {
    forall i, j :: 0 <= i < j < |keys| ==> KeyLess(keys[i], keys[j])
  }

  /**
   * For sorted rows the dict's keys come out strictly increasing, and the
   * most recently inserted key is the last row's key.
   */
  lemma {:induction false} GroupKeysIncreasing<V>(rows: seq<Row<V>>)
    requires Sorted(rows)
    ensures Increasing(Group(rows).keys)
    ensures |rows| > 0 ==> |Group(rows).keys| > 0
                           && Group(rows).keys[|Group(rows).keys| - 1] == rows[|rows| - 1].key
    decreases |rows|, 1
  {
    if rows != [] {
      var init, r := rows[..|rows| - 1], rows[|rows| - 1];
      SortedFront(rows);
      GroupKeysIncreasing(init);
      var g := Group(init);
      if r.key !in g.leaves {
        assert forall i :: 0 <= i < |init| ==> init[i] == rows[i];
        KeysBeforeNew(init, r.key);
        IncreasingSnoc(g.keys, r.key);
      } else {
        GroupRepeatIsLast(rows);
      }
    }
  }

  /** For sorted rows, a row whose key is already stored repeats the most recently stored key. */
  lemma {:induction false} GroupRepeatIsLast<V>(rows: seq<Row<V>>)
    requires Sorted(rows) && |rows| > 0
    requires rows[|rows| - 1].key in Group(rows[..|rows| - 1]).leaves
    ensures |Group(rows[..|rows| - 1]).keys| > 0
    ensures Group(rows[..|rows| - 1]).keys[|Group(rows[..|rows| - 1]).keys| - 1] == rows[|rows| - 1].key
    decreases |rows|, 0
  {
    var init, r := rows[..|rows| - 1], rows[|rows| - 1];
    SortedFront(rows);
    GroupKeysIncreasing(init);
    GroupWellFormed(init);
    IncreasingLast(Group(init).keys, init[|init| - 1].key, r.key);
  }

  /** Dropping the last of sorted rows leaves sorted rows, none after the dropped one. */
  lemma {:induction false} SortedFront<V>(rows: seq<Row<V>>)
    requires Sorted(rows) && |rows| > 0
    ensures Sorted(rows[..|rows| - 1])
    ensures forall i :: 0 <= i < |rows| - 1 ==> KeyLe(rows[i].key, rows[|rows| - 1].key)
  {
    var init := rows[..|rows| - 1];
    assert forall i :: 0 <= i < |init| ==> init[i] == rows[i];
  }

  /** A key no earlier row carries sorts after every key stored so far. */
  lemma {:induction false} KeysBeforeNew<V>(init: seq<Row<V>>, k: Key)
    requires forall i :: 0 <= i < |init| ==> KeyLe(init[i].key, k)
    requires k !in Group(init).leaves
    ensures forall i :: 0 <= i < |Group(init).keys| ==> KeyLess(Group(init).keys[i], k)
  {
    var g := Group(init);
    GroupWellFormed(init);
    forall i | 0 <= i < |g.keys|
      ensures KeyLess(g.keys[i], k)
    {
      var key := g.keys[i];
      GroupHasKey(init, key);
      var m :| 0 <= m < |init| && init[m].key == key;
      KeyLessTotal(key, k);
    }
  }

  /** Appending a key above all others keeps a key sequence increasing. */
  lemma {:induction false} IncreasingSnoc(keys: seq<Key>, k: Key)
    requires Increasing(keys)
    requires forall i :: 0 <= i < |keys| ==> KeyLess(keys[i], k)
    ensures Increasing(keys + [k])
  {
    var ks := keys + [k];
    forall i, j | 0 <= i < j < |ks|
      ensures KeyLess(ks[i], ks[j])
    {
      assert ks[i] == keys[i];
      if j < |keys| {
        assert ks[j] == keys[j];
      }
    }
  }

  /** In an increasing key sequence, a member not below the last key is the last key. */
  lemma {:induction false} IncreasingLast(keys: seq<Key>, last: Key, k: Key)
    requires Increasing(keys) && |keys| > 0 && k in keys
    requires keys[|keys| - 1] == last && KeyLe(last, k)
    ensures last == k
  {
    var n := |keys|;
    var m :| 0 <= m < n && keys[m] == k;
    if m < n - 1 {
      assert false;
    }
  }

  /** When every row has the same metric columns, so does every leaf. */
  lemma {:induction false} GroupLeafColumns<V>(rows: seq<Row<V>>, columns: set<string>)
    requires forall i :: 0 <= i < |rows| ==> rows[i].metrics.Keys == columns
    ensures forall k :: k in Group(rows).leaves ==> Group(rows).leaves[k].Keys == columns
  {
    if rows != [] {
      GroupLeafColumns(rows[..|rows| - 1], columns);
    }
  }
}
