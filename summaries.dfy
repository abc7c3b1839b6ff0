/** The statistics appended to the two tables: for continuous rows an opaque
    summary computed by the caller, for categorical rows the mode and the
    second most frequent value with their frequencies and percentages. */
module Summaries {
  import opened Frame
  import opened ColumnStats
  import opened ValueCounts
  import opened DataTypes
  import opened Partition

  /** A report row: the `data_types` row and the statistics appended to it. */
  datatype Row<X> = Row(meta: TypeRow, stats: X)

  function Metas<X>(rows: seq<Row<X>>): (ms: seq<TypeRow>)
    ensures |ms| == |rows| && forall k :: 0 <= k < |rows| ==> ms[k] == rows[k].meta
  {
    seq(|rows|, k requires 0 <= k < |rows| => rows[k].meta)
  }

  /** Every row names a column of `f`. */
  predicate Locatable<V>(f: Frame<V>, rows: seq<TypeRow>) {
    forall k :: 0 <= k < |rows| ==> HasColumn(f.columns, rows[k].name)
  }

  /** `_update_continuous_df`: every row gains the statistics `describe`
      computes from its label and its column's cells; the rows, their order
      and their metadata stay as they are. */
  function UpdateContinuous<V, S>(f: Frame<V>, rows: seq<TypeRow>, describe: (string, seq<Option<V>>) -> S): (r: seq<Row<S>>)
    requires Locatable(f, rows)
    ensures Metas(r) == rows
    ensures forall k :: 0 <= k < |r| ==> r[k].stats == describe(rows[k].dataType, ColumnNamed(f, rows[k].name).values)
  {
    seq(|rows|, k requires 0 <= k < |rows| => Row(rows[k], describe(rows[k].dataType, ColumnNamed(f, rows[k].name).values)))
  }

  /** The six columns `_update_categorical_df` appends; `None` is NaN. */
  datatype ModeStats<V> = ModeStats(
    mode: V, modeFreq: nat, modePercent: real,
    mode2: Option<V>, mode2Freq: Option<nat>, mode2Percent: Option<real>)

  /** What the categorical summary of the cells `vs` of a frame with `n`
      rows must be: the mode is a most frequent present value with its
      frequency and percentage; with fewer than two distinct values the
      second-mode fields are all NaN, otherwise they hold a present value
      that no value outnumbers except one that attains the mode frequency. */
  ghost predicate IsModeSummary<V(!new)>(vs: seq<Option<V>>, n: nat, s: ModeStats<V>)
    requires 0 < n
  {
    && Some(s.mode) in vs
    && Occurrences(vs, s.mode) == s.modeFreq
    && (forall v :: Some(v) in vs ==> Occurrences(vs, v) <= s.modeFreq)
    && s.modePercent == Percent(s.modeFreq, n)
    && (Cardinality(vs) <= 1 <==> s.mode2.None?)
    && (s.mode2.None? <==> s.mode2Freq.None?)
    && (s.mode2.None? <==> s.mode2Percent.None?)
    && (s.mode2.Some? ==>
          && Some(s.mode2.value) in vs
          && s.mode2Freq == Some(Occurrences(vs, s.mode2.value))
          && s.mode2Percent == Some(Percent(s.mode2Freq.value, n))
          && exists w :: Some(w) in vs && w != s.mode2.value && Occurrences(vs, w) == s.modeFreq
                         && forall v :: Some(v) in vs && v != w ==> Occurrences(vs, v) <= s.mode2Freq.value)
  }

  /** The summary of one categorical column, read off its value counts as
      `_update_categorical_df` does, the second entry guarded by the
      cardinality. It fails in pandas on a column without present values
      (`mode().values[0]` is out of range), hence `Count(vs) > 0`. */
  function Summarize<V(==,!new)>(vs: seq<Option<V>>, n: nat): ModeStats<V>
    requires 0 < n && |vs| == n && Count(vs) > 0
  {
    TopIsMaximal(vs);
    var vc := ValueCountsOf(vs);
    var freq := vc[0].freq;
    if Cardinality(vs) > 1 then
      ModeStats(Mode(vs), freq, Percent(freq, n), Some(vc[1].value), Some(vc[1].freq), Some(Percent(vc[1].freq, n)))
    else
      ModeStats(Mode(vs), freq, Percent(freq, n), None, None, None)
  }

  /** The summary meets `IsModeSummary`; the mode is present, its share and
      the missing share add up to at most 100, and the second mode is no
      more frequent than the mode, the two together no more than `count`. */
  lemma SummaryIsModeSummary<V(!new)>(vs: seq<Option<V>>, n: nat)
    requires 0 < n && |vs| == n && Count(vs) > 0
    ensures var s := Summarize(vs, n);
      && IsModeSummary(vs, n, s)
      && s.modeFreq > 0 && s.modePercent + MissingPercent(Count(vs), n) <= 100.0
      && (s.mode2Freq.Some? ==> s.mode2Freq.value <= s.modeFreq && s.modeFreq + s.mode2Freq.value <= Count(vs))
  {
    TopIsMaximal(vs);
    var vc := ValueCountsOf(vs);
    var m := Mode(vs);
    var freq := vc[0].freq;
    assert Occurrences(vs, m) == freq;
    PercentMonotone(freq, Count(vs), n);
    if Cardinality(vs) > 1 {
      SecondIsRunnerUp(vs);
      OccurrencesOfTwo(vs, vc[0].value, vc[1].value);
      assert Some(vc[0].value) in vs;
    }
  }

  /** Every row names a column of `f` that has a present value. */
  predicate Summarizable<V(==)>(f: Frame<V>, rows: seq<TypeRow>) {
    && Locatable(f, rows)
    && forall k :: 0 <= k < |rows| ==> Count(ColumnNamed(f, rows[k].name).values) > 0
  }

  /** `_update_categorical_df`: every row gains the summary of its column;
      the rows, their order and their metadata stay as they are. */
  function UpdateCategorical<V(==,!new)>(f: Frame<V>, rows: seq<TypeRow>): (r: seq<Row<ModeStats<V>>>)
    requires f.Valid() && Summarizable(f, rows)
    ensures Metas(r) == rows
  {
    seq(|rows|, k requires 0 <= k < |rows| => Row(rows[k], Summarize(ColumnNamed(f, rows[k].name).values, f.length)))
  }

  /** Each row gains the mode summary of its own column. */
  lemma UpdateCategoricalSummarizes<V(!new)>(f: Frame<V>, rows: seq<TypeRow>)
    requires f.Valid() && Summarizable(f, rows)
    ensures forall k :: 0 <= k < |rows| ==>
      IsModeSummary(ColumnNamed(f, rows[k].name).values, f.length, UpdateCategorical(f, rows)[k].stats)
  {
    forall k | 0 <= k < |rows|
      ensures IsModeSummary(ColumnNamed(f, rows[k].name).values, f.length, UpdateCategorical(f, rows)[k].stats)
    {
      SummaryIsModeSummary(ColumnNamed(f, rows[k].name).values, f.length);
    }
  }

  /** The rows the continuous table is made of, before sorting. */
  function ContinuousRows<V(==), S>(f: Frame<V>, describe: (string, seq<Option<V>>) -> S): (r: seq<Row<S>>)
    requires f.Valid()
    ensures Metas(r) == Where(DataTypesOf(f), ContinuousMask)
  {
    var selected := Where(DataTypesOf(f), ContinuousMask);
    SelectedLocatable(f, selected);
    UpdateContinuous(f, selected, describe)
  }

  /** The source raises unless every column that lands in the categorical
      table has a present value. */
  predicate CategoricalColumnsNonEmpty<V(==)>(f: Frame<V>) {
    f.Valid() && forall row :: row in DataTypesOf(f) && CategoricalMask(row) ==> row.count > 0
  }

  /** The rows the categorical table is made of, before sorting. */
  function CategoricalRows<V(==,!new)>(f: Frame<V>): (r: seq<Row<ModeStats<V>>>)
    requires CategoricalColumnsNonEmpty(f)
    ensures Metas(r) == Where(DataTypesOf(f), CategoricalMask)
  {
    var selected := Where(DataTypesOf(f), CategoricalMask);
    SelectionSummarizable(f);
    UpdateCategorical(f, selected)
  }

  lemma SelectionSummarizable<V>(f: Frame<V>)
    requires CategoricalColumnsNonEmpty(f)
    ensures Summarizable(f, Where(DataTypesOf(f), CategoricalMask))
  {
    SelectedLocatable(f, Where(DataTypesOf(f), CategoricalMask));
  }

  /** Each categorical row carries the mode summary of its own column. */
  lemma CategoricalRowsSummarize<V(!new)>(f: Frame<V>)
    requires CategoricalColumnsNonEmpty(f)
    ensures forall l :: 0 <= l < |CategoricalRows(f)| ==>
      && HasColumn(f.columns, CategoricalRows(f)[l].meta.name)
      && IsModeSummary(ColumnNamed(f, CategoricalRows(f)[l].meta.name).values, f.length, CategoricalRows(f)[l].stats)
  {
    SelectionSummarizable(f);
    UpdateCategoricalSummarizes(f, Where(DataTypesOf(f), CategoricalMask));
  }

  lemma SelectedLocatable<V>(f: Frame<V>, selected: seq<TypeRow>)
    requires f.Valid() && forall x :: x in selected ==> x in DataTypesOf(f)
    ensures Locatable(f, selected)
    ensures forall k :: 0 <= k < |selected| ==>
      && Count(ColumnNamed(f, selected[k].name).values) == selected[k].count
      && Cardinality(ColumnNamed(f, selected[k].name).values) == selected[k].cardinality
  {
    forall k | 0 <= k < |selected|
      ensures HasColumn(f.columns, selected[k].name)
      ensures Count(ColumnNamed(f, selected[k].name).values) == selected[k].count
      ensures Cardinality(ColumnNamed(f, selected[k].name).values) == selected[k].cardinality
    {
      RowOfColumn(f, selected[k]);
    }
  }
}
