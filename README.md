# Radiomics table reshape, modelled in Dafny

This project models `process_dataframe` and `clean_text` from `utils.py`. Together they turn a long radiomics table into a wide one. Each input row has five key labels: PatientID, PatientName, AcquisitionDate (the timepoint, called the *nature*), ObjectDescription and SeriesDataRole. It also has any number of metric columns. The output has one row per PatientID, and each metric value lands in a column named `nature_obj_series_metric`.

There is one module per step of the pipeline:

- `Text` (`text.dfy`) covers `clean_text`: Unicode NFKC followed by `str.strip()`.
- `Ordering` (`ordering.dfy`) covers the order of the five-level index. It compares strings the Python way for PatientID and PatientName, and by fixed categorical ranks for the other three levels.
- `Frame` (`frame.dfy`) covers the input table and the cleaning of the key columns into the index. A missing key column is an error.
- `Sorting` (`sorting.dfy`) covers `sort_index`, as a stable sort. It is proved sorted, a permutation of its input, and stable.
- `Grouping` (`grouping.dfy`) covers the nested dict built by `dataframe_to_nested_dict`. The loop is a method proved against a fold, and the last write wins.
- `Flattening` (`flattening.dfy`) covers the loops that build one `base_row` per PatientID. They are methods proved against builder functions. The lemma `FlattenMatchesRows` proves that these builders produce the same result as the reference function `PatientRow`.
- `Reshape` (`reshape.dfy`) covers the whole pipeline in `ProcessDataFrame`, together with lemmas about its output.

Cell values have an arbitrary type `V`. Python's `str()` of a key cell is the function parameter `show`.

Three behaviours of the code are worth stating outright:

- The output has one row per PatientID, even when an ID carries several names. The flattening loop keys `base_row` by PatientID and overwrites `PatientName` with every name it meets under that ID (utils.py:68-72), so the name that remains is the last one in sorted order.
- An input table that has all five key columns but no rows gives an empty result. No error is raised: the loops simply run zero times (utils.py:53-86).
- The timepoint vocabulary at utils.py:36 spells the middle label `Mid-treatment`, while the comment at utils.py:23 writes `Mid-Treatment`. Labels are compared exactly and case-sensitively, so a cell reading `Mid-Treatment` is an unknown label.
- The output does not depend on the order of the input rows as long as no two rows share a cleaned five-part key (`Reshape.ShuffledInputSameSort`, `Reshape.OutputDetermined`). When two rows do share a key, the stable sort keeps them in input order and the later one overwrites the earlier one (utils.py:50, utils.py:59), so the surviving metrics are those of the last such row in input order (`Grouping.GroupAfterSortKeepsLastInputRow`), and shuffling the rows can change the output.

Labels outside a vocabulary get the rank just past the last known label, so they sort after every known label and lexicographically among themselves. What pandas does with such labels is described under "## Left out".

## Model

| member | source | states |
|---|---|---|
| Text.NormalizeChar | utils.py:7 | NFKC of one character leaves no compatibility form behind, fixes every other character, and keeps whether the character is whitespace |
| Text.Normalize | utils.py:7 | the modelled subset of NFKC's one-to-one mappings works character by character (so it keeps the length), leaves a normalised result, and is the identity on normalised text |
| Text.Strip | utils.py:7 | `strip()` returns the middle of its input, with only whitespace removed before and after it, and the result neither starts nor ends with whitespace |
| Text.CleanText | utils.py:5-7 | a cleaned label is normalised and has no whitespace at either end, and the normalised input is that label with only whitespace before and after it |
| Text.CleanTextIdempotent | utils.py:5-7 | cleaning a cleaned label changes nothing |
| Text.StripFramed | utils.py:7 | stripping whitespace + trimmed core + whitespace gives back exactly the core |
| Text.CleanTextIgnoresPadding | utils.py:5-7 | whitespace around a label does not change its cleaned form, so padded spellings group together |
| Ordering.StrLess | utils.py:42-43 | Python string `<` is irreflexive: it never holds between equal strings, and it always holds from a proper prefix to the longer string |
| Ordering.StrLessAtFirstDifference | utils.py:42-43 | at the first position where two strings differ, Python string `<` agrees with the code points there |
| Ordering.StrLessTransitive | utils.py:42-43 | Python string `<` is transitive |
| Ordering.StrLessTotal | utils.py:42-43 | any two different strings are ordered one way or the other |
| Ordering.Rank | utils.py:36-38 | the categorical code of a label is its position in the vocabulary, or just past the end when the label is unknown |
| Ordering.LabelLess | utils.py:44-46 | the order of a categorical level is irreflexive: it never holds between equal labels. It puts every vocabulary label before every unknown one, and orders unknown labels as strings among themselves |
| Ordering.LabelLessTransitive | utils.py:44-46 | the order of a categorical level is transitive, including the fallback for unknown labels |
| Ordering.LabelLessTotal | utils.py:44-46 | any two different labels of a categorical level are ordered |
| Ordering.VocabularyOrders | utils.py:36-38 | Baseline < Mid-treatment < Post-treatment, Tumor < Peritumoral, T2 < SUB < T1 |
| Ordering.KeyLess | utils.py:41-50 | the five-level index order is irreflexive: it never holds between equal keys, and a smaller PatientID always sorts first |
| Ordering.KeyLessTransitive | utils.py:41-50 | the five-level index order is transitive |
| Ordering.KeyLessTotal | utils.py:41-50 | any two different keys are ordered, so the index order is a strict total order |
| Ordering.KeyLePatientId | utils.py:41-50 | the index order never reverses the PatientID order |
| Frame.FirstMissing | utils.py:29-30 | finds the first key column, in index order, that the table lacks, or reports that none is missing |
| Frame.SetIndexPermutation | utils.py:28-33 | rearranging the rows of a table gives the same key-column error, or a rearrangement of the indexed rows |
| Frame.ToRow | utils.py:30-33 | each key label is `clean_text(str(cell))`, and the metrics are exactly the non-key cells with their values |
| Frame.SetIndex | utils.py:28-33 | fails exactly when a key column is missing, naming the first one; otherwise keeps every row in place with its cleaned key, and its metrics are all columns except the five key columns |
| Sorting.Insert | utils.py:50 | inserting one row adds exactly that row to the multiset |
| Sorting.InsertSorted | utils.py:50 | inserting into sorted rows keeps them sorted |
| Sorting.InsertStable | utils.py:50 | an inserted row goes after every row with an equal key |
| Sorting.SortRows | utils.py:50 | `sort_index` keeps the number of rows; its order, permutation and stability are the three lemmas below |
| Sorting.SortRowsSorted | utils.py:49-50 | after `sort_index` the rows are non-decreasing in the five-level key |
| Sorting.SortRowsPermutation | utils.py:49-50 | the sorted rows are a permutation of the input rows |
| Sorting.SortRowsStable | utils.py:49-50 | rows with an equal key keep their input order |
| Sorting.SortedUnique | utils.py:50 | two sorted arrangements of the same rows are equal when no two rows share a key |
| Sorting.DistinctKeysPermutation | utils.py:50 | rearranging rows keeps their keys distinct |
| Sorting.SortedRowFrom | utils.py:50 | every sorted row is an input row |
| Sorting.SortedRowTo | utils.py:50 | every input row is a sorted row |
| Grouping.Group | utils.py:57-59 | the dict never holds more keys than there are rows |
| Grouping.GroupWellFormed | utils.py:57-59 | the dict lists each key once, and lists exactly the keys that have a leaf |
| Grouping.GroupHasKey | utils.py:57-59 | a key has a leaf exactly when some row carries it |
| Grouping.GroupRows | utils.py:53-61 | the loop builds the dict `Group` describes |
| Grouping.GroupLastWins | utils.py:57-59 | a key has a leaf exactly when a row carries it, and the leaf holds the metrics of the last such row |
| Grouping.GroupAfterSortKeepsLastInputRow | utils.py:50-59 | after the stable sort, each leaf holds the metrics of the last row with that key in input order |
| Grouping.GroupKeysIncreasing | utils.py:50-59 | for sorted rows the dict's keys are strictly increasing, which implies that the nested traversal visits the leaves in the same order, because keys sharing a prefix are then adjacent |
| Grouping.GroupRepeatIsLast | utils.py:50-59 | for sorted rows, a row whose key is already stored repeats the key stored most recently |
| Grouping.GroupLeafColumns | utils.py:59 | when all rows share their metric columns, so do all leaves |
| Flattening.ColumnName | utils.py:78 | the column is the prefix `nature_obj_series_` followed by the metric, and it is never `PatientID` or `PatientName` |
| Flattening.ColumnNameInjective | utils.py:77-79 | within one leaf, different metrics give different columns |
| Flattening.ColumnsOf | utils.py:77-79 | one leaf writes each of its metrics under that metric's column, and writes no other column |
| Flattening.WriteCells | utils.py:77-79 | the innermost loop writes the cells of one leaf over the row's earlier cells |
| Flattening.PatientIds | utils.py:68 | the outer keys list each PatientID of the dict exactly once |
| Flattening.LeavesOf | utils.py:71-76 | the leaves visited for a PatientID are keys of the dict with that ID |
| Flattening.BuildRow | utils.py:69-79 | the row built from the visited leaves carries the ID, and its PatientName is that of the last leaf visited, because every leaf overwrites it |
| Flattening.BuildRowColumns | utils.py:74-79 | the row built from the visited leaves has a column exactly when one of those leaves produces it |
| Flattening.Flatten | utils.py:66-81 | one row per outer key, in dict order, each built from that ID's leaves |
| Flattening.PatientRow | utils.py:68-81 | the reference row for an ID carries that ID |
| Flattening.PatientRowName | utils.py:71-72 | PatientName is the name on the last row with that ID |
| Flattening.PatientRowColumns | utils.py:74-79 | a column is in the row exactly when some row with that ID produces it, so no other column is added |
| Flattening.PatientRowLastWriter | utils.py:77-79 | a column holds the value of the last row with that ID that produces it |
| Flattening.FlattenMatchesRows | utils.py:57-81 | for sorted rows, walking the grouped dict builds the same row as the reference, because a duplicate key's cells are all overwritten |
| Flattening.PatientIdsIncreasing | utils.py:50-68 | for sorted rows the outer keys are in strictly increasing PatientID order |
| Reshape.ProcessDataFrame | utils.py:9-86 | fails exactly on a missing key column, with that error. Otherwise there is one row per distinct cleaned PatientID, in strictly increasing order, and each row is the reference row over the sorted rows. Empty input gives empty output |
| Reshape.ShuffledInputSameSort | utils.py:28-50 | two tables with the same columns and the same rows in any order give the same key-column error, and when their cleaned keys are distinct, the same sorted rows and the same PatientIDs |
| Reshape.OutputDetermined | utils.py:66-86 | two outputs with strictly increasing IDs, the same set of IDs and every row the reference row over the same sorted rows are equal, so the contract of `ProcessDataFrame` fixes its output |
| Reshape.GroupedIds | utils.py:57-68 | the outer keys of the dict are exactly the PatientIDs of the input rows |
| Reshape.OutputNameIsGreatest | utils.py:71-72 | the output PatientName is a name carried by that ID, and no name under that ID sorts after it |
| Reshape.OutputCells | utils.py:74-79 | every output cell is in a column `nature_obj_series_metric` built from a row with that ID and one of that row's metrics |

## Left out

- `main.py`, the web front end, is not part of this model. It handles file upload, reading the Excel sheet, previews, CSV and Excel export, download buttons and error display. All of that is I/O and UI.
- Text.Normalize: the length is kept only by the modelled part of NFKC. Real NFKC can lengthen text (a ligature such as U+FB01 becomes `fi`, U+2026 becomes `...`) and can shorten it (a letter followed by a combining accent composes into one character), so `clean_text` is not in general length-preserving.
- Text.NormalizeChar, Text.Normalize: model only a few of NFKC's one-to-one mappings (full-width ASCII forms and compatibility spaces). Other one-to-one mappings such as U+00B2 → `2` or U+212A → `K` are left unchanged, and so are decomposition and composition, so composed and decomposed accents stay different labels.
- Frame.SetIndex: takes `str()` of a cell as the parameter `show`. What pandas prints for NaN or for numbers is not modelled.
- Frame.SetIndex: the in-place update of the caller's frame is not modelled: the cleaned key columns and `set_index(inplace=True)` also change the frame the caller passed in. The model returns new rows and leaves the input table unchanged.
- Frame.Table: a table is rectangular: every row has a cell in every column. Empty cells of pandas (NaN) are values of type `V`.
- Ordering.Rank: an unknown label sorts after every known label, and unknown labels sort lexicographically among themselves. pandas instead makes such a label a missing category: a single unknown label in a level becomes NaN and reaches the column name as `nan_…`, and two distinct unknown labels in one level make `set_levels` raise ValueError because its level values must be unique. Neither behaviour is modelled.
- Sorting.SortRows: `sort_index` is modelled as a stable sort. Its order among rows with equal keys matters only for which duplicate wins.
- Grouping.Group: the five-level nested dict is one dict keyed by the whole five-part key, kept in insertion order. `GroupKeysIncreasing` proves that for sorted rows its keys strictly increase. That implies the nested traversal visits the leaves in the same order, because keys sharing a prefix are then adjacent.
- Flattening.BuildRow: sets PatientName once per leaf, not once per name group. The last value written is the same.
- Flattening.WideRow: the model returns one map of cells per row. Building the output frame is not modelled: the column order of `pd.DataFrame(flattened_data)` and its filling of absent cells are left out, and an absent cell is a column missing from the row's map.
- Flattening.ColumnName: makes no claim that column names are distinct across leaves. A label that contains `_` can collide with another, and then the last write in sorted order wins.
