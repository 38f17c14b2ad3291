/**
 * The flattening loops of `process_dataframe` (utils.py:65-81): one wide
 * row per PatientID, whose PatientName is overwritten by every name met
 * under that ID and whose metric cells are written into columns named
 * `nature_obj_series_metric`.
 *
 * `PatientRow` is the reference meaning of one output row, accumulated
 * directly over the sorted rows; `FlattenMatchesRows` proves that walking
 * the grouped dict builds exactly that row.
 */
module Flattening {
  import opened Ordering
  import opened Frame
  import opened Sorting
  import opened Grouping

  /**
   * One row of the output frame: `base_row` with its `PatientID`, its
   * `PatientName` and one cell per metric column. A cell absent from
   * `cells` is an empty cell of the output frame.
   */
  datatype WideRow<V> = WideRow(patientId: string, patientName: string, cells: map<string, V>)

  function ColumnPrefix(k: Key): string {
    k.nature + "_" + k.obj + "_" + k.series + "_"
  }

  /**
   * `f"{nature}_{obj_desc}_{series}_{metric}"` (utils.py:78). Such a name
   * always contains an underscore, so it never overwrites the `PatientID`
   * or `PatientName` entry of `base_row`.
   */
  function ColumnName(k: Key, metric: string): (c: string)
    ensures |c| == |ColumnPrefix(k)| + |metric|
    ensures c[..|ColumnPrefix(k)|] == ColumnPrefix(k) && c[|ColumnPrefix(k)|..] == metric
    ensures c != "PatientID" && c != "PatientName"
  {
    var c := ColumnPrefix(k) + metric;
    assert c[|ColumnPrefix(k)| - 1] == '_';
    c
  }

  /** Within one leaf, different metrics give different columns. */
  lemma ColumnNameInjective(k: Key)
    ensures forall m1, m2 :: ColumnName(k, m1) == ColumnName(k, m2) ==> m1 == m2
  {
  }

  /** The cells one leaf contributes: every metric `m` under column `ColumnName(k, m)`. */
  function ColumnsOf<V>(k: Key, metrics: map<string, V>): (c: map<string, V>)
    ensures forall m :: m in metrics ==> ColumnName(k, m) in c && c[ColumnName(k, m)] == metrics[m]
    ensures forall name :: name in c ==> exists m :: m in metrics && name == ColumnName(k, m)
  {
    ColumnNameInjective(k);
    map m | m in metrics :: ColumnName(k, m) := metrics[m]
  }

  lemma ColumnsOfSameKeys<V>(k: Key, a: map<string, V>, b: map<string, V>)
    requires a.Keys == b.Keys
    ensures ColumnsOf(k, a).Keys == ColumnsOf(k, b).Keys
  {
  }

  lemma ColumnsOfExtend<V>(k: Key, done: map<string, V>, m: string, v: V)
    requires m !in done
    ensures ColumnsOf(k, done[m := v]) == ColumnsOf(k, done)[ColumnName(k, m) := v]
  {
    ColumnNameInjective(k);
  }

  /** One step of the innermost loop: writing metric `m` extends the written part by `m`. */
  lemma {:induction false} WriteOneCell<V>(cells: map<string, V>, k: Key, values: map<string, V>, todo: set<string>, m: string)
    requires m in todo && todo <= values.Keys
    ensures (cells + ColumnsOf(k, values - todo))[ColumnName(k, m) := values[m]]
            == cells + ColumnsOf(k, values - (todo - {m}))
  {
    var done := values - todo;
    assert values - (todo - {m}) == done[m := values[m]];
    ColumnsOfExtend(k, done, m, values[m]);
    UpdateUnion(cells, ColumnsOf(k, done), ColumnName(k, m), values[m]);
  }

  lemma UpdateUnion<V>(a: map<string, V>, b: map<string, V>, x: string, v: V)
    ensures (a + b)[x := v] == a + b[x := v]
  {
  }

  /**
   * The innermost loop (utils.py:77-79): every metric of one leaf written
   * into the row. Python visits the metrics in column order; distinct
   * metrics of one leaf give distinct columns, so any order gives this result.
   */
  method WriteCells<V>(cells: map<string, V>, k: Key, values: map<string, V>) returns (out: map<string, V>)
    ensures out == cells + ColumnsOf(k, values)
  {
    out := cells;
    var todo := values.Keys;
    while todo != {}
      invariant todo <= values.Keys
      invariant out == cells + ColumnsOf(k, values - todo)
      decreases todo
    {
      var m :| m in todo;
      WriteOneCell(cells, k, values, todo, m);
      out := out[ColumnName(k, m) := values[m]];
      todo := todo - {m};
    }
    assert values - todo == values;
  }

  /** Distinct PatientIDs of `keys` in order of first appearance: the keys of the outer dict. */
  function PatientIds(keys: seq<Key>): (ids: seq<string>)
    ensures forall i, j :: 0 <= i < j < |ids| ==> ids[i] != ids[j]
    ensures forall p :: p in ids <==> exists i :: 0 <= i < |keys| && keys[i].patientId == p
  {
    if keys == [] then []
    else
      var init, k := keys[..|keys| - 1], keys[|keys| - 1];
      var ids := PatientIds(init);
      assert forall i :: 0 <= i < |init| ==> init[i] == keys[i];
      if k.patientId in ids then ids else ids + [k.patientId]
  }

  /** The leaves under `pid`, in dict order. */
  function LeavesOf(keys: seq<Key>, pid: string): (ls: seq<Key>)
    ensures forall i :: 0 <= i < |ls| ==> ls[i] in keys && ls[i].patientId == pid
  {
    if keys == [] then []
    else
      var init, k := keys[..|keys| - 1], keys[|keys| - 1];
      var ls := LeavesOf(init, pid);
      assert forall i :: 0 <= i < |ls| ==> ls[i] in keys;
      if k.patientId == pid then ls + [k] else ls
  }

  /**
   * `base_row` for `pid` once the loops at utils.py:71-79 have visited
   * `leaves` in order: the name of the last leaf, and the cells of all of
   * them, a later leaf overwriting an earlier one column by column.
   */
  function BuildRow<V>(g: Grouped<V>, pid: string, leaves: seq<Key>): (w: WideRow<V>)
    requires forall i :: 0 <= i < |leaves| ==> leaves[i] in g.leaves
    ensures w.patientId == pid
    ensures |leaves| > 0 ==> w.patientName == leaves[|leaves| - 1].patientName
  {
    if leaves == [] then WideRow(pid, "", map[])
    else
      var row := BuildRow(g, pid, leaves[..|leaves| - 1]);
      var k := leaves[|leaves| - 1];
      WideRow(pid, k.patientName, row.cells + ColumnsOf(k, g.leaves[k]))
  }

  /** The row built from `leaves` has a column exactly when one of the visited leaves produces it. */
  lemma {:induction false} BuildRowColumns<V>(g: Grouped<V>, pid: string, leaves: seq<Key>, c: string)
    requires forall i :: 0 <= i < |leaves| ==> leaves[i] in g.leaves
    ensures c in BuildRow(g, pid, leaves).cells <==>
              exists i :: 0 <= i < |leaves| && c in ColumnsOf(leaves[i], g.leaves[leaves[i]])
  {
    if leaves != [] {
      var init := leaves[..|leaves| - 1];
      var k := leaves[|leaves| - 1];
      var before, added := BuildRow(g, pid, init).cells, ColumnsOf(k, g.leaves[k]);
      assert BuildRow(g, pid, leaves).cells == before + added;
      BuildRowColumns(g, pid, init, c);
      if c in added {
        assert c in ColumnsOf(leaves[|leaves| - 1], g.leaves[leaves[|leaves| - 1]]);
      } else if c in before {
        var i :| 0 <= i < |init| && c in ColumnsOf(init[i], g.leaves[init[i]]);
        assert init[i] == leaves[i];
      } else {
        forall i | 0 <= i < |leaves|
          ensures c !in ColumnsOf(leaves[i], g.leaves[leaves[i]])
        {
          if i < |init| {
            assert init[i] == leaves[i];
            assert c !in ColumnsOf(init[i], g.leaves[init[i]]);
          } else {
            assert leaves[i] == k;
          }
        }
      }
    }
  }

  /** The loops at utils.py:66-81: one row per outer key, appended in dict order. */
  method Flatten<V>(g: Grouped<V>) returns (out: seq<WideRow<V>>)
    requires WellFormed(g)
    ensures |out| == |PatientIds(g.keys)|
    ensures forall i :: 0 <= i < |out| ==>
              out[i] == BuildRow(g, PatientIds(g.keys)[i], LeavesOf(g.keys, PatientIds(g.keys)[i]))
  {
    var ids := PatientIds(g.keys);
    out := [];
    for i := 0 to |ids|
      invariant |out| == i
      invariant forall j :: 0 <= j < i ==> out[j] == BuildRow(g, ids[j], LeavesOf(g.keys, ids[j]))
    {
      var pid := ids[i];
      var leaves := LeavesOf(g.keys, pid);
      var row := WideRow(pid, "", map[]);
      for j := 0 to |leaves|
        invariant row == BuildRow(g, pid, leaves[..j])
      {
        var k := leaves[j];
        assert leaves[..j + 1][..j] == leaves[..j];
        row := row.(patientName := k.patientName);
        var cells := WriteCells(row.cells, k, g.leaves[k]);
        row := row.(cells := cells);
      }
      assert leaves[..|leaves|] == leaves;
      out := out + [row];
    }
  }

  /**
   * The reference meaning of the output row for `pid`: start from the ID
   * alone, and for every row with that ID, in order, take its name and
   * write its metric cells over the ones already there.
   */
  function PatientRow<V>(rows: seq<Row<V>>, pid: string): (w: WideRow<V>)
    ensures w.patientId == pid
  {
    if rows == [] then WideRow(pid, "", map[])
    else
      var row := PatientRow(rows[..|rows| - 1], pid);
      var r := rows[|rows| - 1];
      if r.key.patientId == pid then WideRow(pid, r.key.patientName, row.cells + ColumnsOf(r.key, r.metrics))
      else row
  }

  /** The output `PatientName` is the name on the last row with that ID. */
  lemma {:induction false} PatientRowName<V>(rows: seq<Row<V>>, pid: string, i: nat)
    requires i < |rows| && rows[i].key.patientId == pid
    requires forall j :: i < j < |rows| ==> rows[j].key.patientId != pid
    ensures PatientRow(rows, pid).patientName == rows[i].key.patientName
  {
    if i < |rows| - 1 {
      PatientRowName(rows[..|rows| - 1], pid, i);
    }
  }

  /**
   * The columns of the row for `pid` are exactly the columns produced by
   * the rows with that ID: nothing is added besides them.
   */
  lemma {:induction false} PatientRowColumns<V>(rows: seq<Row<V>>, pid: string, c: string)
    ensures c in PatientRow(rows, pid).cells <==>
              exists i :: 0 <= i < |rows| && rows[i].key.patientId == pid && c in ColumnsOf(rows[i].key, rows[i].metrics)
  {
    if rows != [] {
      var init := rows[..|rows| - 1];
      PatientRowColumns(init, pid, c);
      assert forall i :: 0 <= i < |init| ==> init[i] == rows[i];
    }
  }

  /** Last write wins per column name: a cell holds the value of the last row with that ID producing it. */
  lemma {:induction false} PatientRowLastWriter<V>(rows: seq<Row<V>>, pid: string, c: string, i: nat)
    requires i < |rows| && rows[i].key.patientId == pid && c in ColumnsOf(rows[i].key, rows[i].metrics)
    requires forall j :: i < j < |rows| && rows[j].key.patientId == pid ==> c !in ColumnsOf(rows[j].key, rows[j].metrics)
    ensures c in PatientRow(rows, pid).cells
    ensures PatientRow(rows, pid).cells[c] == ColumnsOf(rows[i].key, rows[i].metrics)[c]
  {
    if i < |rows| - 1 {
      PatientRowLastWriter(rows[..|rows| - 1], pid, c, i);
    }
  }

  /** `BuildRow` reads the leaves it visits and nothing else. */
  lemma {:induction false} BuildRowFrame<V>(g1: Grouped<V>, g2: Grouped<V>, pid: string, leaves: seq<Key>)
    requires forall i :: 0 <= i < |leaves| ==> leaves[i] in g1.leaves && leaves[i] in g2.leaves
                                               && g1.leaves[leaves[i]] == g2.leaves[leaves[i]]
    ensures BuildRow(g1, pid, leaves) == BuildRow(g2, pid, leaves)
  {
    if leaves != [] {
      BuildRowFrame(g1, g2, pid, leaves[..|leaves| - 1]);
    }
  }

  /** Overwriting with cells that cover every earlier column erases the earlier ones. */
  lemma OverwriteCovers<V>(a: map<string, V>, b: map<string, V>, c: map<string, V>)
    requires b.Keys <= c.Keys
    ensures a + b + c == a + c
  {
  }

  /** Appending a key to the dict appends it to the leaves of its PatientID and of no other. */
  lemma {:induction false} LeavesOfSnoc(keys: seq<Key>, k: Key, pid: string)
    ensures LeavesOf(keys + [k], pid) == LeavesOf(keys, pid) + (if k.patientId == pid then [k] else [])
  {
    assert (keys + [k])[..|keys|] == keys;
  }

  /** In a well-formed dict every leaf listed under `pid` has its metrics stored. */
  lemma LeavesStored<V>(g: Grouped<V>, pid: string)
    requires WellFormed(g)
    ensures forall i :: 0 <= i < |LeavesOf(g.keys, pid)| ==> LeavesOf(g.keys, pid)[i] in g.leaves
  {
  }

  /** The row built for `pid` after storing a row under a key the dict did not have yet. */
  lemma {:induction false} FlattenStepNew<V>(g: Grouped<V>, g': Grouped<V>, r: Row<V>, pid: string)
    requires WellFormed(g) && r.key !in g.leaves
    requires g' == Grouped(g.keys + [r.key], g.leaves[r.key := r.metrics])
    ensures forall i :: 0 <= i < |LeavesOf(g.keys, pid)| ==> LeavesOf(g.keys, pid)[i] in g.leaves
    ensures forall i :: 0 <= i < |LeavesOf(g'.keys, pid)| ==> LeavesOf(g'.keys, pid)[i] in g'.leaves
    ensures BuildRow(g', pid, LeavesOf(g'.keys, pid))
            == if r.key.patientId == pid
               then WideRow(pid, r.key.patientName, BuildRow(g, pid, LeavesOf(g.keys, pid)).cells + ColumnsOf(r.key, r.metrics))
               else BuildRow(g, pid, LeavesOf(g.keys, pid))
  {
    var ls := LeavesOf(g.keys, pid);
    LeavesStored(g, pid);
    LeavesOfSnoc(g.keys, r.key, pid);
    BuildRowFrame(g, g', pid, ls);
    if r.key.patientId == pid {
      assert (ls + [r.key])[..|ls|] == ls;
    }
  }

  /**
   * The row built for `pid` after storing a row again under the key stored
   * last: the new metrics cover every column of the old ones.
   */
  lemma {:induction false} FlattenStepDup<V>(g: Grouped<V>, g': Grouped<V>, r: Row<V>, pid: string)
    requires WellFormed(g) && |g.keys| > 0 && g.keys[|g.keys| - 1] == r.key
    requires r.key in g.leaves && g.leaves[r.key].Keys == r.metrics.Keys
    requires g' == Grouped(g.keys, g.leaves[r.key := r.metrics])
    ensures forall i :: 0 <= i < |LeavesOf(g.keys, pid)| ==> LeavesOf(g.keys, pid)[i] in g.leaves
    ensures forall i :: 0 <= i < |LeavesOf(g'.keys, pid)| ==> LeavesOf(g'.keys, pid)[i] in g'.leaves
    ensures BuildRow(g', pid, LeavesOf(g'.keys, pid))
            == if r.key.patientId == pid
               then WideRow(pid, r.key.patientName, BuildRow(g, pid, LeavesOf(g.keys, pid)).cells + ColumnsOf(r.key, r.metrics))
               else BuildRow(g, pid, LeavesOf(g.keys, pid))
  {
    LeavesStored(g, pid);
    var front := g.keys[..|g.keys| - 1];
    assert g.keys == front + [r.key];
    LeavesOfSnoc(front, r.key, pid);
    var ls0 := LeavesOf(front, pid);
    LeavesBeforeLast(g, front, r.key, pid);
    BuildRowFrame(g, g', pid, ls0);
    if r.key.patientId == pid {
      assert LeavesOf(g.keys, pid) == ls0 + [r.key];
      DupOverwrites(g, g', r, pid, ls0);
    } else {
      assert LeavesOf(g.keys, pid) == ls0;
    }
  }

  /** The leaves listed under `pid` before the last key are stored and differ from it. */
  lemma {:induction false} LeavesBeforeLast<V>(g: Grouped<V>, front: seq<Key>, last: Key, pid: string)
    requires WellFormed(g) && g.keys == front + [last]
    ensures forall i :: 0 <= i < |LeavesOf(front, pid)| ==> LeavesOf(front, pid)[i] in g.leaves && LeavesOf(front, pid)[i] != last
  {
    var ls0 := LeavesOf(front, pid);
    forall i | 0 <= i < |ls0|
      ensures ls0[i] in g.leaves && ls0[i] != last
    {
      var m :| 0 <= m < |front| && front[m] == ls0[i];
      assert g.keys[m] == ls0[i] && g.keys[|front|] == last;
    }
  }

  lemma {:induction false} DupOverwrites<V>(g: Grouped<V>, g': Grouped<V>, r: Row<V>, pid: string, ls0: seq<Key>)
    requires r.key in g.leaves && g.leaves[r.key].Keys == r.metrics.Keys
    requires g' == Grouped(g.keys, g.leaves[r.key := r.metrics])
    requires forall i :: 0 <= i < |ls0| ==> ls0[i] in g.leaves && ls0[i] != r.key
    requires BuildRow(g, pid, ls0) == BuildRow(g', pid, ls0)
    ensures BuildRow(g', pid, ls0 + [r.key])
            == WideRow(pid, r.key.patientName, BuildRow(g, pid, ls0 + [r.key]).cells + ColumnsOf(r.key, r.metrics))
  {
    var ls := ls0 + [r.key];
    assert ls[..|ls0|] == ls0;
    ColumnsOfSameKeys(r.key, g.leaves[r.key], r.metrics);
    OverwriteCovers(BuildRow(g, pid, ls0).cells, ColumnsOf(r.key, g.leaves[r.key]), ColumnsOf(r.key, r.metrics));
  }

  /**
   * For sorted rows that all have the same metric columns, walking the
   * grouped dict builds, for every PatientID, the same row as the reference
   * accumulation over the rows: deduplicating equal keys in the dict loses
   * nothing, because a duplicate's cells are all overwritten by the later row.
   */
  lemma {:induction false} FlattenMatchesRows<V>(rows: seq<Row<V>>, pid: string, columns: set<string>)
    requires Sorted(rows)
    requires forall i :: 0 <= i < |rows| ==> rows[i].metrics.Keys == columns
    ensures forall i :: 0 <= i < |LeavesOf(Group(rows).keys, pid)| ==> LeavesOf(Group(rows).keys, pid)[i] in Group(rows).leaves
    ensures BuildRow(Group(rows), pid, LeavesOf(Group(rows).keys, pid)) == PatientRow(rows, pid)
  {
    if rows != [] {
      var init, r := rows[..|rows| - 1], rows[|rows| - 1];
      SortedFront(rows);
      assert forall i :: 0 <= i < |init| ==> init[i].metrics.Keys == columns;
      FlattenMatchesRows(init, pid, columns);
      var g, g' := Group(init), Group(rows);
      GroupWellFormed(init);
      GroupStep(rows);
      if r.key !in g.leaves {
        FlattenStepNew(g, g', r, pid);
      } else {
        GroupRepeatIsLast(rows);
        assert g.keys[|g.keys| - 1] == r.key;
        GroupLeafColumns(init, columns);
        assert g.leaves[r.key].Keys == r.metrics.Keys;
        FlattenStepDup(g, g', r, pid);
      }
    }
  }

  /** For sorted rows the outer dict's PatientIDs come out in strictly increasing string order. */
  lemma {:induction false} PatientIdsIncreasing(keys: seq<Key>)
    requires Increasing(keys)
    ensures forall i, j :: 0 <= i < j < |PatientIds(keys)| ==> StrLess(PatientIds(keys)[i], PatientIds(keys)[j])
  {
    if keys != [] {
      var init, k := keys[..|keys| - 1], keys[|keys| - 1];
      PatientIdsIncreasing(init);
      var ids := PatientIds(init);
      if k.patientId !in ids {
        forall i | 0 <= i < |ids|
          ensures StrLess(ids[i], k.patientId)
        {
          assert ids[i] in ids;
          var m :| 0 <= m < |init| && init[m].patientId == ids[i];
          KeyLessAsymmetric(keys[m], k);
          KeyLePatientId(keys[m], k);
          StrLessTotal(ids[i], k.patientId);
        }
      }
    }
  }
}
