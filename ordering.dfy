/**
 * The row order of the reshape (utils.py:35-50): the five key levels are
 * compared one after the other. PatientID and PatientName compare as
 * Python strings; the other three levels compare by their position in a
 * fixed vocabulary.
 *
 * A label outside its vocabulary gets the rank just past the last known
 * label, and such labels compare lexicographically among themselves.
 */
module Ordering {

  /**
   * Python's `<` on `str`: lexicographic by code point, a proper prefix
   * first. It never holds between equal strings and always holds from a
   * proper prefix; `StrLessAtFirstDifference` gives the other case.
   */
  function StrLess(a: string, b: string): (r: bool)
    ensures r ==> a != b
    ensures |a| < |b| && a == b[..|a|] ==> r
    decreases |a|
  {
    if |a| == 0 then |b| > 0
    else if |b| == 0 then false
    else if a[0] != b[0] then a[0] < b[0]
    else
      assert |a| < |b| && a == b[..|a|] ==> a[1..] == b[1..][..|a| - 1];
      StrLess(a[1..], b[1..])
  }

  /** At the first position where two strings differ, their code points decide. */
  lemma {:induction false} StrLessAtFirstDifference(a: string, b: string, i: nat)
    requires i < |a| && i < |b| && a[..i] == b[..i] && a[i] != b[i]
    ensures StrLess(a, b) <==> a[i] < b[i]
    decreases i
  {
    if i > 0 {
      assert a[0] == a[..i][0] == b[..i][0] == b[0];
      assert a[1..][..i - 1] == a[..i][1..] && b[1..][..i - 1] == b[..i][1..];
      StrLessAtFirstDifference(a[1..], b[1..], i - 1);
    }
  }

  lemma {:induction false} StrLessTransitive(a: string, b: string, c: string)
    requires StrLess(a, b) && StrLess(b, c)
    ensures StrLess(a, c)
    decreases |a|
  {
    if |a| > 0 && |b| > 0 && |c| > 0 && a[0] == b[0] == c[0] {
      StrLessTransitive(a[1..], b[1..], c[1..]);
    }
  }

  lemma {:induction false} StrLessTotal(a: string, b: string)
    ensures a == b || StrLess(a, b) || StrLess(b, a)
    decreases |a|
  {
    if |a| > 0 && |b| > 0 && a[0] == b[0] {
      StrLessTotal(a[1..], b[1..]);
      assert a == [a[0]] + a[1..] && b == [b[0]] + b[1..];
    }
  }

  lemma StrLessAsymmetric(a: string, b: string)
    requires StrLess(a, b)
    ensures !StrLess(b, a)
  {
    if StrLess(b, a) {
      StrLessTransitive(a, b, a);
    }
  }

  /** Timepoints (utils.py:36). */
  const NatureOrder: seq<string> := ["Baseline", "Mid-treatment", "Post-treatment"]
  /** Regions (utils.py:37). */
  const ObjectOrder: seq<string> := ["Tumor", "Peritumoral"]
  /** Series (utils.py:38). */
  const SeriesOrder: seq<string> := ["T2", "SUB", "T1"]

  /**
   * The categorical code of `tag`: its first position in `vocab`, or
   * `|vocab|` when the vocabulary does not contain it.
   */
  function Rank(vocab: seq<string>, tag: string): (r: nat)
    ensures r <= |vocab|
    ensures r < |vocab| ==> vocab[r] == tag
    ensures forall j :: 0 <= j < r ==> vocab[j] != tag
  {
    if |vocab| == 0 then 0
    else if vocab[0] == tag then 0
    else 1 + Rank(vocab[1..], tag)
  }

  /**
   * Ordering of one categorical level: by rank, unknown labels last and
   * lexicographic among themselves.
   */
  function LabelLess(vocab: seq<string>, a: string, b: string): (r: bool)
    ensures r ==> a != b
    ensures a in vocab && b !in vocab ==> r
    ensures a !in vocab ==> (r <==> b !in vocab && StrLess(a, b))
  {
    var ra, rb := Rank(vocab, a), Rank(vocab, b);
    ra < rb || (ra == rb == |vocab| && StrLess(a, b))
  }

  lemma LabelLessTransitive(vocab: seq<string>, a: string, b: string, c: string)
    requires LabelLess(vocab, a, b) && LabelLess(vocab, b, c)
    ensures LabelLess(vocab, a, c)
  {
    if Rank(vocab, a) == Rank(vocab, b) == Rank(vocab, c) {
      StrLessTransitive(a, b, c);
    }
  }

  lemma LabelLessTotal(vocab: seq<string>, a: string, b: string)
    ensures a == b || LabelLess(vocab, a, b) || LabelLess(vocab, b, a)
  {
    StrLessTotal(a, b);
  }

  /** The three fixed orders: Baseline < Mid-treatment < Post-treatment, Tumor < Peritumoral, T2 < SUB < T1. */
  lemma VocabularyOrders()
    ensures LabelLess(NatureOrder, "Baseline", "Mid-treatment")
    ensures LabelLess(NatureOrder, "Mid-treatment", "Post-treatment")
    ensures LabelLess(ObjectOrder, "Tumor", "Peritumoral")
    ensures LabelLess(SeriesOrder, "T2", "SUB")
    ensures LabelLess(SeriesOrder, "SUB", "T1")
  {
    assert Rank(NatureOrder, "Mid-treatment") == 1;
    assert Rank(NatureOrder, "Post-treatment") == 2;
    assert Rank(ObjectOrder, "Peritumoral") == 1;
    assert Rank(SeriesOrder, "SUB") == 1;
    assert Rank(SeriesOrder, "T1") == 2;
  }

  /** The five key labels of a row, in index order (utils.py:20-26). */
  datatype Key = Key(patientId: string, patientName: string, nature: string, obj: string, series: string)

  /** Strict order of `sort_index` on the five-level index: the first level that differs decides. */
  function KeyLess(a: Key, b: Key): (r: bool)
    ensures r ==> a != b
    ensures StrLess(a.patientId, b.patientId) ==> r
  {
    if a.patientId != b.patientId then StrLess(a.patientId, b.patientId)
    else if a.patientName != b.patientName then StrLess(a.patientName, b.patientName)
    else if a.nature != b.nature then LabelLess(NatureOrder, a.nature, b.nature)
    else if a.obj != b.obj then LabelLess(ObjectOrder, a.obj, b.obj)
    else LabelLess(SeriesOrder, a.series, b.series)
  }

  lemma KeyLessTransitive(a: Key, b: Key, c: Key)
    requires KeyLess(a, b) && KeyLess(b, c)
    ensures KeyLess(a, c)
  {
    if a.patientId != b.patientId || b.patientId != c.patientId {
      if a.patientId == c.patientId {
        StrLessAsymmetric(a.patientId, b.patientId);
      } else if a.patientId != b.patientId && b.patientId != c.patientId {
        StrLessTransitive(a.patientId, b.patientId, c.patientId);
      }
    } else if a.patientName != b.patientName || b.patientName != c.patientName {
      if a.patientName == c.patientName {
        StrLessAsymmetric(a.patientName, b.patientName);
      } else if a.patientName != b.patientName && b.patientName != c.patientName {
        StrLessTransitive(a.patientName, b.patientName, c.patientName);
      }
    } else if a.nature != b.nature || b.nature != c.nature {
      if a.nature == c.nature {
        LabelLessTransitive(NatureOrder, a.nature, b.nature, a.nature);
      } else if a.nature != b.nature && b.nature != c.nature {
        LabelLessTransitive(NatureOrder, a.nature, b.nature, c.nature);
      }
    } else if a.obj != b.obj || b.obj != c.obj {
      if a.obj == c.obj {
        LabelLessTransitive(ObjectOrder, a.obj, b.obj, a.obj);
      } else if a.obj != b.obj && b.obj != c.obj {
        LabelLessTransitive(ObjectOrder, a.obj, b.obj, c.obj);
      }
    } else {
      LabelLessTransitive(SeriesOrder, a.series, b.series, c.series);
    }
  }

  /** Two different keys are always ordered one way or the other. */
  lemma KeyLessTotal(a: Key, b: Key)
    ensures a == b || KeyLess(a, b) || KeyLess(b, a)
  {
    StrLessTotal(a.patientId, b.patientId);
    StrLessTotal(a.patientName, b.patientName);
    LabelLessTotal(NatureOrder, a.nature, b.nature);
    LabelLessTotal(ObjectOrder, a.obj, b.obj);
    LabelLessTotal(SeriesOrder, a.series, b.series);
  }

  lemma KeyLessAsymmetric(a: Key, b: Key)
    requires KeyLess(a, b)
    ensures !KeyLess(b, a)
  {
    if KeyLess(b, a) {
      KeyLessTransitive(a, b, a);
    }
  }

  /** `a` sorts no later than `b`. */
  predicate KeyLe(a: Key, b: Key) {
    !KeyLess(b, a)
  }

  /** The first level dominates: key order never reverses the PatientID order. */
  lemma KeyLePatientId(a: Key, b: Key)
    requires KeyLe(a, b)
    ensures !StrLess(b.patientId, a.patientId)
  {
    if a.patientId != b.patientId {
      StrLessTotal(a.patientId, b.patientId);
      if StrLess(b.patientId, a.patientId) {
        StrLessAsymmetric(b.patientId, a.patientId);
      }
    }
  }
}
