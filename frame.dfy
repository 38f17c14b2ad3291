/**
 * The input table and the first step of `process_dataframe`
 * (utils.py:19-33): the five key columns are stringified and cleaned, then
 * moved into a five-level index. The cells that remain in a row are its
 * metrics.
 *
 * Cell values are of an arbitrary type `V`; Python's `str()` of a cell is
 * the parameter `show`.
 */
module Frame {
  import opened Text
  import opened Ordering

  datatype Option<T> = None | Some(value: T)

  /** Why the reshape can fail: `df[col]` raises `KeyError` for an absent key column. */
  datatype Error = MissingColumn(column: string)

  datatype Result<T> = Ok(value: T) | Err(error: Error)

  /** The key columns, in index order (utils.py:20-26). */
  const IndexColumns: seq<string> := ["PatientID", "PatientName", "AcquisitionDate", "ObjectDescription", "SeriesDataRole"]

  predicate IsIndexColumn(c: string) {
    c in IndexColumns
  }

  /** A data frame: its column names and, per row, one cell for each column. */
  datatype Table<V> = Table(columns: set<string>, rows: seq<map<string, V>>)

  /** Every row has a cell in every column and in no other column. */
  predicate Rectangular<V>(t: Table<V>) {
    forall i :: 0 <= i < |t.rows| ==> t.rows[i].Keys == t.columns
  }

  /** A row after `set_index`: its cleaned five-part key and the cells of its other columns. */
  datatype Row<V> = Row(key: Key, metrics: map<string, V>)

  /** The first of `names` that `columns` lacks, as the column loop at utils.py:29-30 meets it. */
  function FirstMissing(columns: set<string>, names: seq<string>): (r: Option<string>)
    ensures r.None? <==> forall i :: 0 <= i < |names| ==> names[i] in columns
    ensures r.Some? ==> exists i :: 0 <= i < |names| && names[i] == r.value && r.value !in columns
                                   && forall j :: 0 <= j < i ==> names[j] in columns
  {
    if names == [] then None
    else if names[0] !in columns then Some(names[0])
    else
      var r := FirstMissing(columns, names[1..]);
      assert forall i :: 1 <= i < |names| ==> names[i] == names[1..][i - 1];
      r
  }

  predicate HasIndexColumns<V>(cells: map<string, V>) {
    "PatientID" in cells && "PatientName" in cells && "AcquisitionDate" in cells
    && "ObjectDescription" in cells && "SeriesDataRole" in cells
  }

  /** The cleaned key labels of one row (utils.py:30) and its remaining cells (utils.py:33). */
  function ToRow<V>(cells: map<string, V>, show: V -> string): (r: Row<V>)
    requires HasIndexColumns(cells)
    ensures r.metrics.Keys == cells.Keys - set c | c in cells && IsIndexColumn(c)
    ensures forall c :: c in r.metrics ==> r.metrics[c] == cells[c]
    ensures r.key.patientId == CleanText(show(cells["PatientID"]))
    ensures r.key.patientName == CleanText(show(cells["PatientName"]))
    ensures r.key.nature == CleanText(show(cells["AcquisitionDate"]))
    ensures r.key.obj == CleanText(show(cells["ObjectDescription"]))
    ensures r.key.series == CleanText(show(cells["SeriesDataRole"]))
  {
    var key := Key(CleanText(show(cells["PatientID"])), CleanText(show(cells["PatientName"])),
                   CleanText(show(cells["AcquisitionDate"])), CleanText(show(cells["ObjectDescription"])),
                   CleanText(show(cells["SeriesDataRole"])));
    Row(key, map c | c in cells && !IsIndexColumn(c) :: cells[c])
  }

  /**
   * Lines 28-33: fail on the first absent key column; otherwise every row
   * keeps its position, gets its cleaned key, and keeps exactly its
   * non-key cells as metrics.
   */
  function SetIndex<V>(t: Table<V>, show: V -> string): (r: Result<seq<Row<V>>>)
    requires Rectangular(t)
    ensures r.Err? <==> exists i :: 0 <= i < |IndexColumns| && IndexColumns[i] !in t.columns
    ensures r.Err? ==> r.error.column !in t.columns
                       && exists i :: 0 <= i < |IndexColumns| && IndexColumns[i] == r.error.column
                                      && forall j :: 0 <= j < i ==> IndexColumns[j] in t.columns
    ensures r.Ok? ==> |r.value| == |t.rows|
    ensures r.Ok? ==> forall i :: 0 <= i < |t.rows| ==> HasIndexColumns(t.rows[i])
    ensures r.Ok? ==> forall i :: 0 <= i < |t.rows| ==> r.value[i] == ToRow(t.rows[i], show)
    ensures r.Ok? ==> forall i :: 0 <= i < |t.rows| ==>
                        r.value[i].metrics.Keys == t.columns - set c | c in t.columns && IsIndexColumn(c)
  {
    match FirstMissing(t.columns, IndexColumns)
    case Some(c) => Err(MissingColumn(c))
    case None =>
      assert forall i :: 0 <= i < |t.rows| ==> HasIndexColumns(t.rows[i]) by {
        assert forall i :: 0 <= i < |IndexColumns| ==> IndexColumns[i] in t.columns;
        assert IndexColumns[0] == "PatientID" && IndexColumns[1] == "PatientName";
        assert IndexColumns[2] == "AcquisitionDate" && IndexColumns[3] == "ObjectDescription";
        assert IndexColumns[4] == "SeriesDataRole";
      }
      Ok(seq(|t.rows|, i requires 0 <= i < |t.rows| => ToRow(t.rows[i], show)))
  }

  /** `f` applied to every element of `s` in turn. */
  function Apply<A, B>(f: A -> B, s: seq<A>): (r: seq<B>)
    ensures |r| == |s|
  {
    if s == [] then []
    else Apply(f, s[..|s| - 1]) + [f(s[|s| - 1])]
  }

  /** The element at `i` of `Apply(f, s)` is `f` of the element at `i` of `s`. */
  lemma {:induction false} ApplyAt<A, B>(f: A -> B, s: seq<A>, i: nat)
    requires i < |s|
    ensures Apply(f, s)[i] == f(s[i])
    decreases |s|
  {
    if i < |s| - 1 {
      ApplyAt(f, s[..|s| - 1], i);
    }
  }

  /** Applying `f` commutes with putting sequences side by side. */
  lemma {:induction false} ApplyAppend<A, B>(f: A -> B, u: seq<A>, v: seq<A>)
    ensures Apply(f, u + v) == Apply(f, u) + Apply(f, v)
    decreases |v|
  {
    if v == [] {
      assert u + v == u;
    } else {
      var w := v[..|v| - 1];
      assert (u + v)[..|u + v| - 1] == u + w;
      assert (u + v)[|u + v| - 1] == v[|v| - 1];
      ApplyAppend(f, u, w);
    }
  }

  /** Applying `f` to a rearrangement gives a rearrangement of the results. */
  lemma {:induction false} ApplyPermutation<A, B>(f: A -> B, a: seq<A>, b: seq<A>)
    requires multiset(a) == multiset(b)
    ensures multiset(Apply(f, a)) == multiset(Apply(f, b))
    decreases |a|
  {
    assert |a| == |multiset(a)| == |multiset(b)| == |b|;
    if a != [] {
      var init, x := a[..|a| - 1], a[|a| - 1];
      var k, lo, hi := SplitAt(b, x);
      assert a == init + [x];
      assert multiset(init) == multiset(a) - multiset{x} == multiset(lo + hi);
      ApplyPermutation(f, init, lo + hi);
      ApplySplit(f, lo, x, hi);
      ApplyAppend(f, init, [x]);
      var y := f(x);
      assert Apply(f, [x]) == [y];
      calc {
        multiset(Apply(f, a));
        multiset(Apply(f, init) + [y]);
        multiset(Apply(f, init)) + multiset{y};
        multiset(Apply(f, lo) + Apply(f, hi)) + multiset{y};
        { MultisetAround(Apply(f, lo), y, Apply(f, hi)); }
        multiset(Apply(f, lo) + [y] + Apply(f, hi));
      }
    }
  }

  /** Moving one element to the middle of a sequence keeps its multiset. */
  lemma {:induction false} MultisetAround<T>(lo: seq<T>, y: T, hi: seq<T>)
    ensures multiset(lo + hi) + multiset{y} == multiset(lo + [y] + hi)
  {
    calc {
      multiset(lo + [y] + hi);
      multiset(lo + [y]) + multiset(hi);
      multiset(lo) + multiset{y} + multiset(hi);
      multiset(lo) + multiset(hi) + multiset{y};
      multiset(lo + hi) + multiset{y};
    }
  }

  /** `Apply` on a sequence split around one element. */
  lemma {:induction false} ApplySplit<A, B>(f: A -> B, lo: seq<A>, x: A, hi: seq<A>)
    ensures Apply(f, lo + [x] + hi) == Apply(f, lo) + [f(x)] + Apply(f, hi)
    ensures Apply(f, lo + hi) == Apply(f, lo) + Apply(f, hi)
  {
    ApplyAppend(f, lo, hi);
    ApplyAppend(f, lo, [x]);
    ApplyAppend(f, lo + [x], hi);
    assert Apply(f, [x]) == [f(x)];
  }

  /** An element of `b` splits it into the part before it and the part after it. */
  lemma {:induction false} SplitAt<A>(b: seq<A>, x: A) returns (k: nat, lo: seq<A>, hi: seq<A>)
    requires x in multiset(b)
    ensures k < |b| && b[k] == x && b == lo + [x] + hi
    ensures multiset(b) == multiset(lo + hi) + multiset{x}
  {
    k :| 0 <= k < |b| && b[k] == x;
    lo, hi := b[..k], b[k + 1..];
    assert b == lo + [x] + hi;
  }

  /**
   * The five key columns are looked up by name, so rearranging the rows of
   * a table rearranges the indexed rows the same way, and a missing key
   * column is missing whatever the order of the rows.
   */
  lemma {:induction false} SetIndexPermutation<V>(t1: Table<V>, t2: Table<V>, show: V -> string)
    requires Rectangular(t1) && Rectangular(t2)
    requires t1.columns == t2.columns && multiset(t1.rows) == multiset(t2.rows)
    ensures SetIndex(t1, show).Err? <==> SetIndex(t2, show).Err?
    ensures SetIndex(t1, show).Ok? ==> multiset(SetIndex(t1, show).value) == multiset(SetIndex(t2, show).value)
  {
    if SetIndex(t1, show).Ok? {
      var f := (cells: map<string, V>) =>
        if HasIndexColumns(cells) then ToRow(cells, show) else Row(Key("", "", "", "", ""), map[]);
      SetIndexIsApply(t1, show, f);
      SetIndexIsApply(t2, show, f);
      ApplyPermutation(f, t1.rows, t2.rows);
    }
  }

  /** An indexed table is `ToRow` applied to every row. */
  lemma {:induction false} SetIndexIsApply<V>(t: Table<V>, show: V -> string, f: map<string, V> -> Row<V>)
    requires Rectangular(t) && SetIndex(t, show).Ok?
    requires forall c :: HasIndexColumns(c) ==> f(c) == ToRow(c, show)
    ensures SetIndex(t, show).value == Apply(f, t.rows)
  {
    var r, s := SetIndex(t, show).value, Apply(f, t.rows);
    forall i | 0 <= i < |t.rows|
      ensures r[i] == s[i]
    {
      ApplyAt(f, t.rows, i);
    }
  }
}
