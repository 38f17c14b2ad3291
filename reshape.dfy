/**
 * `process_dataframe` (utils.py:9-86) end to end: clean and index the key
 * columns, sort, group into the nested dict, and flatten it to one wide
 * row per PatientID.
 *
 * `ProcessDataFrame` runs the steps as the source does and is proved
 * against their meaning: the key-column error of `SetIndex`, one output
 * row per distinct cleaned PatientID in increasing order, and each row
 * equal to `PatientRow` over the sorted rows. The lemmas below say what
 * such a row holds.
 */
module Reshape {
  import opened Ordering
  import opened Frame
  import opened Sorting
  import opened Grouping
  import opened Flattening

  /** The PatientIDs carried by the rows of a table after `set_index`. */
  function InputIds<V>(rows: seq<Row<V>>): set<string> {
    set i | 0 <= i < |rows| :: rows[i].key.patientId
  }

  /** The PatientIDs of the output frame. */
  function OutputIds<V>(out: seq<WideRow<V>>): set<string> {
    set i | 0 <= i < |out| :: out[i].patientId
  }

  /** The PatientIDs of the output rows strictly increase, so none repeats. */
  predicate IdsIncreasing<V>(out: seq<WideRow<V>>) {
    forall i, j :: 0 <= i < j < |out| ==> StrLess(out[i].patientId, out[j].patientId)
  }

  /** The metric columns every row keeps: all columns but the five key columns. */
  function MetricColumns<V>(t: Table<V>): set<string> {
    t.columns - set c | c in t.columns && IsIndexColumn(c)
  }

  /**
   * The whole reshape. A missing key column is the error of `SetIndex`.
   * Otherwise the output has one row per distinct cleaned PatientID, in
   * strictly increasing string order (hence no ID twice), and every row is
   * the accumulation `PatientRow` of the sorted rows carrying its ID.
   */
  method ProcessDataFrame<V>(t: Table<V>, show: V -> string) returns (r: Result<seq<WideRow<V>>>)
    requires Rectangular(t)
    ensures r.Err? <==> SetIndex(t, show).Err?
    ensures r.Err? ==> r.error == SetIndex(t, show).error
    ensures r.Ok? ==> IdsIncreasing(r.value)
    ensures r.Ok? ==> OutputIds(r.value) == InputIds(SetIndex(t, show).value)
    ensures r.Ok? ==> forall i :: 0 <= i < |r.value| ==>
              r.value[i] == PatientRow(SortRows(SetIndex(t, show).value), r.value[i].patientId)
    ensures r.Ok? && t.rows == [] ==> r.value == []
  {
    var indexed := SetIndex(t, show);
    if indexed.Err? {
      return Err(indexed.error);
    }
    var rows := SortRows(indexed.value);
    var g := GroupRows(rows);
    GroupWellFormed(rows);
    var out := Flatten(g);

    var ids := PatientIds(g.keys);
    SortRowsSorted(indexed.value);
    GroupKeysIncreasing(rows);
    PatientIdsIncreasing(g.keys);
    SortedMetricColumns(indexed.value, MetricColumns(t));
    forall i | 0 <= i < |out|
      ensures out[i] == PatientRow(rows, ids[i])
    {
      FlattenMatchesRows(rows, ids[i], MetricColumns(t));
    }
    GroupedIds(indexed.value);
    OutputIdsOf(out, ids);
    r := Ok(out);
  }

  /** Sorting keeps the metric columns shared by every row. */
  lemma {:induction false} SortedMetricColumns<V>(rows: seq<Row<V>>, columns: set<string>)
    requires forall i :: 0 <= i < |rows| ==> rows[i].metrics.Keys == columns
    ensures forall i :: 0 <= i < |SortRows(rows)| ==> SortRows(rows)[i].metrics.Keys == columns
  {
    forall i | 0 <= i < |SortRows(rows)|
      ensures SortRows(rows)[i].metrics.Keys == columns
    {
      var j := SortedRowFrom(rows, i);
    }
  }

  /** The outer keys of the dict are exactly the PatientIDs of the rows that went in. */
  lemma {:induction false} GroupedIds<V>(rows: seq<Row<V>>)
    ensures (set p | p in PatientIds(Group(SortRows(rows)).keys)) == InputIds(rows)
  {
    forall p | p in InputIds(rows)
      ensures p in PatientIds(Group(SortRows(rows)).keys)
    {
      var k :| 0 <= k < |rows| && rows[k].key.patientId == p;
      InputIdGrouped(rows, k);
    }
    forall p | p in PatientIds(Group(SortRows(rows)).keys)
      ensures p in InputIds(rows)
    {
      var k := GroupedIdInput(rows, p);
    }
  }

  lemma {:induction false} InputIdGrouped<V>(rows: seq<Row<V>>, k: nat)
    requires k < |rows|
    ensures rows[k].key.patientId in PatientIds(Group(SortRows(rows)).keys)
  {
    var s := SortRows(rows);
    var i := SortedRowTo(rows, k);
    GroupHasKey(s, rows[k].key);
    GroupWellFormed(s);
    assert rows[k].key in Group(s).keys;
  }

  lemma {:induction false} GroupedIdInput<V>(rows: seq<Row<V>>, p: string) returns (k: nat)
    requires p in PatientIds(Group(SortRows(rows)).keys)
    ensures k < |rows| && rows[k].key.patientId == p
  {
    var s := SortRows(rows);
    var g := Group(s);
    var j :| 0 <= j < |g.keys| && g.keys[j].patientId == p;
    GroupWellFormed(s);
    GroupHasKey(s, g.keys[j]);
    var i :| 0 <= i < |s| && s[i].key == g.keys[j];
    k := SortedRowFrom(rows, i);
  }

  lemma {:induction false} OutputIdsOf<V>(out: seq<WideRow<V>>, ids: seq<string>)
    requires |out| == |ids| && forall i :: 0 <= i < |out| ==> out[i].patientId == ids[i]
    ensures OutputIds(out) == set p | p in ids
  {
    forall p | p in ids
      ensures p in OutputIds(out)
    {
      var i :| 0 <= i < |ids| && ids[i] == p;
    }
  }

  /** The last position of `s` holding a row with PatientID `pid`, at or after `j`. */
  lemma {:induction false} LastWithId<V>(s: seq<Row<V>>, pid: string, j: nat) returns (i: nat)
    requires j < |s| && s[j].key.patientId == pid
    ensures j <= i < |s| && s[i].key.patientId == pid
    ensures forall k :: i < k < |s| ==> s[k].key.patientId != pid
  {
    if s[|s| - 1].key.patientId == pid {
      i := |s| - 1;
    } else {
      i := LastWithId(s[..|s| - 1], pid, j);
    }
  }

  /**
   * The output `PatientName` of an ID is a name that ID carries in the
   * input, and no name under that ID sorts after it: the rows arrive sorted,
   * so the name written last is the greatest.
   */
  lemma {:induction false} OutputNameIsGreatest<V>(rows: seq<Row<V>>, pid: string, j: nat)
    requires j < |rows| && rows[j].key.patientId == pid
    ensures exists i :: 0 <= i < |rows| && rows[i].key.patientId == pid
                        && rows[i].key.patientName == PatientRow(SortRows(rows), pid).patientName
    ensures forall i :: 0 <= i < |rows| && rows[i].key.patientId == pid ==>
              !StrLess(PatientRow(SortRows(rows), pid).patientName, rows[i].key.patientName)
  {
    var s := SortRows(rows);
    SortRowsSorted(rows);
    var j' := SortedRowTo(rows, j);
    var last := LastWithId(s, pid, j');
    PatientRowName(s, pid, last);
    var from := SortedRowFrom(rows, last);
    forall i | 0 <= i < |rows| && rows[i].key.patientId == pid
      ensures !StrLess(s[last].key.patientName, rows[i].key.patientName)
    {
      var k := SortedRowTo(rows, i);
      NameNotAfterLast(s, pid, last, k);
    }
  }

  /** In sorted rows, no name under `pid` sorts after the name on the last row with `pid`. */
  lemma {:induction false} NameNotAfterLast<V>(s: seq<Row<V>>, pid: string, last: nat, k: nat)
    requires Sorted(s) && last < |s| && k < |s|
    requires s[last].key.patientId == pid && s[k].key.patientId == pid
    requires forall k' :: last < k' < |s| ==> s[k'].key.patientId != pid
    ensures !StrLess(s[last].key.patientName, s[k].key.patientName)
  {
    if s[k].key.patientName != s[last].key.patientName && k < last {
      assert KeyLe(s[k].key, s[last].key);
    }
  }

  /**
   * Every cell of an output row sits in a column `nature_obj_series_metric`
   * named after one metric of some row with that ID: the flattening adds no
   * other column.
   */
  lemma {:induction false} OutputCells<V>(rows: seq<Row<V>>, pid: string, c: string)
    requires c in PatientRow(rows, pid).cells
    ensures exists i, m :: 0 <= i < |rows| && rows[i].key.patientId == pid && m in rows[i].metrics
                           && c == ColumnName(rows[i].key, m)
  {
    PatientRowColumns(rows, pid, c);
    var i :| 0 <= i < |rows| && rows[i].key.patientId == pid && c in ColumnsOf(rows[i].key, rows[i].metrics);
    var m :| m in rows[i].metrics && c == ColumnName(rows[i].key, m);
  }

  /**
   * Shuffling the rows of a table whose cleaned five-part keys are distinct
   * does not change what the reshape works from: the same key-column error,
   * the same sorted rows and the same PatientIDs. With `OutputDetermined`
   * and the contract of `ProcessDataFrame`, the output is the same.
   */
  lemma {:induction false} ShuffledInputSameSort<V>(t1: Table<V>, t2: Table<V>, show: V -> string)
    requires Rectangular(t1) && Rectangular(t2)
    requires t1.columns == t2.columns && multiset(t1.rows) == multiset(t2.rows)
    ensures SetIndex(t1, show).Err? <==> SetIndex(t2, show).Err?
    ensures SetIndex(t1, show).Ok? && DistinctKeys(SetIndex(t1, show).value) ==>
              SortRows(SetIndex(t1, show).value) == SortRows(SetIndex(t2, show).value)
              && InputIds(SetIndex(t1, show).value) == InputIds(SetIndex(t2, show).value)
  {
    SetIndexPermutation(t1, t2, show);
    if SetIndex(t1, show).Ok? && DistinctKeys(SetIndex(t1, show).value) {
      var r1, r2 := SetIndex(t1, show).value, SetIndex(t2, show).value;
      SortRowsPermutation(r1);
      SortRowsPermutation(r2);
      SortRowsSorted(r1);
      SortRowsSorted(r2);
      DistinctKeysPermutation(r1, SortRows(r1));
      SortedUnique(SortRows(r1), SortRows(r2));
      InputIdsSorted(r1);
      InputIdsSorted(r2);
    }
  }

  /** Sorting keeps the set of PatientIDs. */
  lemma {:induction false} InputIdsSorted<V>(rows: seq<Row<V>>)
    ensures InputIds(SortRows(rows)) == InputIds(rows)
  {
    forall p | p in InputIds(rows)
      ensures p in InputIds(SortRows(rows))
    {
      var k :| 0 <= k < |rows| && rows[k].key.patientId == p;
      var i := SortedRowTo(rows, k);
    }
    forall p | p in InputIds(SortRows(rows))
      ensures p in InputIds(rows)
    {
      var i :| 0 <= i < |SortRows(rows)| && SortRows(rows)[i].key.patientId == p;
      var k := SortedRowFrom(rows, i);
    }
  }

  /**
   * The contract of `ProcessDataFrame` leaves one possible output: two
   * outputs with strictly increasing IDs, the same set of IDs and every row
   * the reference row over the same sorted rows are equal.
   */
  lemma {:induction false} OutputDetermined<V>(o1: seq<WideRow<V>>, o2: seq<WideRow<V>>, s: seq<Row<V>>)
    requires IdsIncreasing(o1) && IdsIncreasing(o2) && OutputIds(o1) == OutputIds(o2)
    requires forall i :: 0 <= i < |o1| ==> o1[i] == PatientRow(s, o1[i].patientId)
    requires forall i :: 0 <= i < |o2| ==> o2[i] == PatientRow(s, o2[i].patientId)
    ensures o1 == o2
    decreases |o1|
  {
    OutputIdsEmpty(o1);
    OutputIdsEmpty(o2);
    if o1 != [] {
      assert o1[0].patientId in OutputIds(o2) && o2 != [];
      SameFirstId(o1, o2);
      var t1, t2 := o1[1..], o2[1..];
      TailIds(o1);
      TailIds(o2);
      assert IdsIncreasing(t1) && IdsIncreasing(t2) by {
        assert forall i :: 0 <= i < |t1| ==> t1[i] == o1[i + 1];
        assert forall i :: 0 <= i < |t2| ==> t2[i] == o2[i + 1];
      }
      assert forall i :: 0 <= i < |t1| ==> t1[i] == o1[i + 1];
      assert forall i :: 0 <= i < |t2| ==> t2[i] == o2[i + 1];
      OutputDetermined(t1, t2, s);
      assert o1 == [o1[0]] + t1 && o2 == [o2[0]] + t2;
    }
  }

  /** An output has no IDs exactly when it has no rows. */
  lemma {:induction false} OutputIdsEmpty<V>(o: seq<WideRow<V>>)
    ensures OutputIds(o) == {} <==> o == []
  {
    if o != [] {
      assert o[0].patientId in OutputIds(o);
    }
  }

  /** Two outputs with strictly increasing IDs and the same set of IDs start with the same ID. */
  lemma {:induction false} SameFirstId<V>(o1: seq<WideRow<V>>, o2: seq<WideRow<V>>)
    requires IdsIncreasing(o1) && IdsIncreasing(o2) && OutputIds(o1) == OutputIds(o2)
    requires |o1| > 0 && |o2| > 0
    ensures o1[0].patientId == o2[0].patientId
  {
    var x, y := o1[0].patientId, o2[0].patientId;
    assert x in OutputIds(o2) && y in OutputIds(o1);
    var q :| 0 <= q < |o2| && o2[q].patientId == x;
    var p :| 0 <= p < |o1| && o1[p].patientId == y;
    if x != y {
      assert p > 0 && q > 0;
      StrLessAsymmetric(x, y);
    }
  }

  /** Dropping the first output row drops exactly its ID. */
  lemma {:induction false} TailIds<V>(o: seq<WideRow<V>>)
    requires IdsIncreasing(o) && |o| > 0
    ensures OutputIds(o[1..]) == OutputIds(o) - {o[0].patientId}
  {
    var t := o[1..];
    assert forall i :: 0 <= i < |t| ==> t[i] == o[i + 1];
    forall p | p in OutputIds(o) - {o[0].patientId}
      ensures p in OutputIds(t)
    {
      var i :| 0 <= i < |o| && o[i].patientId == p;
      assert t[i - 1].patientId == p;
    }
  }
}
