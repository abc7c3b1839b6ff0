/** The earlier draft `dqr(df)`: the same `data_types` table and the same
    split, but neither table sorted, every continuous statistic passed
    through `round()` whatever the column's dtype, and the second mode read
    off the value counts without a cardinality guard. A continuous column
    whose statistics cannot be rounded, or a categorical column with fewer
    than two distinct values, makes the whole call fail. */
module Draft {
  import opened Frame
  import opened ColumnStats
  import opened ValueCounts
  import opened DataTypes
  import opened Partition
  import opened Summaries

  /** Python raises a `TypeError` when `round()` meets a statistic that is
      not a number; pandas raises when `value_counts()[0]` or
      `value_counts()[1]` has no such entry. */
  datatype Error = RoundError | LookupError

  datatype Result<T> = Ok(value: T) | Err(error: Error)

  /** The statistics for one categorical column, as the draft computes them:
      both value-count entries read unconditionally. Whenever it succeeds it
      agrees with the guarded summary of the class. */
  function DraftSummarize<V(==,!new)>(vs: seq<Option<V>>, n: nat): (r: Result<ModeStats<V>>)
    requires 0 < n && |vs| == n
    ensures r.Ok? <==> Cardinality(vs) >= 2
    ensures r.Ok? ==> Count(vs) > 0
  {
    var vc := ValueCountsOf(vs);
    if |vc| < 2 then Err(LookupError)
    else
      CardinalityBounds(vs);
      var freq, freq2 := vc[0].freq, vc[1].freq;
      Ok(ModeStats(Mode(vs), freq, Percent(freq, n), Some(vc[1].value), Some(freq2), Some(Percent(freq2, n))))
  }

  /** Whenever the draft's summary succeeds it agrees with the guarded
      summary of the class. */
  lemma DraftSummaryAgrees<V(!new)>(vs: seq<Option<V>>, n: nat)
    requires 0 < n && |vs| == n && Cardinality(vs) >= 2
    ensures Count(vs) > 0 && DraftSummarize(vs, n) == Ok(Summarize(vs, n))
  {
  }

  /** A text column holding one value twice: the draft fails on it, where
      the class reports the mode and leaves the second mode NaN. */
  lemma SingleValueColumn()
    ensures Cardinality([Some("a"), Some("a")]) == 1
    ensures DraftSummarize([Some("a"), Some("a")], 2).Err?
    ensures Count([Some("a"), Some("a")]) > 0
    ensures var s := Summarize([Some("a"), Some("a")], 2);
      s.mode == "a" && s.modeFreq == 2 && s.modePercent == 100.0 && s.mode2.None?
  {
    var vs := [Some("a"), Some("a")];
    assert Distinct(vs) == {"a"} by {
      InDistinct(vs, "a");
      forall v | v in Distinct(vs) ensures v == "a" {
        InDistinct(vs, v);
      }
    }
    assert Occurrences(vs, "a") == 2;
    SummaryIsModeSummary(vs, 2);
  }

  /** The categorical columns of the draft's table: the per-row lists are
      comprehensions, so one failing row fails the whole table. */
  function DraftCategorical<V(==,!new)>(f: Frame<V>, rows: seq<TypeRow>): (r: Result<seq<Row<ModeStats<V>>>>)
    requires f.Valid() && Locatable(f, rows)
    ensures r.Ok? <==> forall k :: 0 <= k < |rows| ==> Cardinality(ColumnNamed(f, rows[k].name).values) >= 2
    ensures r.Ok? ==> Summarizable(f, rows) && r.value == UpdateCategorical(f, rows)
  {
    var results := seq(|rows|, k requires 0 <= k < |rows| => DraftSummarize(ColumnNamed(f, rows[k].name).values, f.length));
    if exists k :: 0 <= k < |rows| && results[k].Err? then
      DraftResultsFail(f, rows, results);
      Err(LookupError)
    else
      DraftResultsAgree(f, rows, results);
      var t := seq(|rows|, k requires 0 <= k < |rows| => Row(rows[k], results[k].value));
      DraftRowsAgree(f, rows, t);
      Ok(t)
  }

  /** A failing row has fewer than two distinct values. */
  lemma DraftResultsFail<V(!new)>(f: Frame<V>, rows: seq<TypeRow>, results: seq<Result<ModeStats<V>>>)
    requires f.Valid() && Locatable(f, rows)
    requires results == seq(|rows|, k requires 0 <= k < |rows| => DraftSummarize(ColumnNamed(f, rows[k].name).values, f.length))
    requires exists k :: 0 <= k < |rows| && results[k].Err?
    ensures !forall k :: 0 <= k < |rows| ==> Cardinality(ColumnNamed(f, rows[k].name).values) >= 2
  {
    var k :| 0 <= k < |rows| && results[k].Err?;
  }

  /** When every row succeeds, every column has two distinct values, a
      present value, and the class's summary. */
  lemma DraftResultsAgree<V(!new)>(f: Frame<V>, rows: seq<TypeRow>, results: seq<Result<ModeStats<V>>>)
    requires f.Valid() && Locatable(f, rows)
    requires results == seq(|rows|, k requires 0 <= k < |rows| => DraftSummarize(ColumnNamed(f, rows[k].name).values, f.length))
    requires forall k :: 0 <= k < |rows| ==> results[k].Ok?
    ensures forall k :: 0 <= k < |rows| ==> Cardinality(ColumnNamed(f, rows[k].name).values) >= 2
    ensures forall k :: 0 <= k < |rows| ==> Count(ColumnNamed(f, rows[k].name).values) > 0
    ensures forall k :: 0 <= k < |rows| ==> results[k] == Ok(Summarize(ColumnNamed(f, rows[k].name).values, f.length))
  {
    forall k | 0 <= k < |rows|
      ensures Count(ColumnNamed(f, rows[k].name).values) > 0
      ensures results[k] == Ok(Summarize(ColumnNamed(f, rows[k].name).values, f.length))
    {
      assert results[k] == DraftSummarize(ColumnNamed(f, rows[k].name).values, f.length);
      DraftSummaryAgrees(ColumnNamed(f, rows[k].name).values, f.length);
    }
  }

  /** Row by row, the draft's categorical statistics are the class's. */
  lemma DraftRowsAgree<V(!new)>(f: Frame<V>, rows: seq<TypeRow>, t: seq<Row<ModeStats<V>>>)
    requires f.Valid() && Locatable(f, rows)
    requires forall k :: 0 <= k < |rows| ==> Count(ColumnNamed(f, rows[k].name).values) > 0
    requires |t| == |rows|
    requires forall k :: 0 <= k < |rows| ==> t[k] == Row(rows[k], Summarize(ColumnNamed(f, rows[k].name).values, f.length))
    ensures Summarizable(f, rows) && t == UpdateCategorical(f, rows)
  {
    var u := UpdateCategorical(f, rows);
    assert forall k :: 0 <= k < |rows| ==> t[k] == u[k];
  }

  /** Whether `round()` raises on the statistics of a column with this
      dtype and these cells: always for a datetime column, whose minimum is
      a Timestamp (or NaT) and so has no rounding, and otherwise as the
      caller-supplied `raises` says. */
  predicate RoundRaises<V>(dtype: string, cells: seq<Option<V>>, raises: (string, seq<Option<V>>) -> bool) {
    dtype == DatetimeLabel || raises(dtype, cells)
  }

  /** The draft's statistics for one continuous column: the class's
      statistics, unless `round()` raises on them. */
  function DraftDescribe<V, S>(dtype: string, cells: seq<Option<V>>, describe: (string, seq<Option<V>>) -> S,
                               raises: (string, seq<Option<V>>) -> bool): (r: Result<S>)
    ensures r.Ok? <==> !RoundRaises(dtype, cells, raises)
    ensures dtype == DatetimeLabel ==> r == Err(RoundError)
  {
    if RoundRaises(dtype, cells, raises) then Err(RoundError) else Ok(describe(dtype, cells))
  }

  /** The continuous columns of the draft's table. Each statistic is passed
      through `round(…, 2)` with no `<M8[ns]` branch, so any datetime column
      fails the whole table, as does any column `raises` names. The per-row
      lists are comprehensions: one failing column fails the whole table;
      otherwise the rows gain the statistics the class gives them. */
  function DraftContinuous<V, S>(f: Frame<V>, rows: seq<TypeRow>, describe: (string, seq<Option<V>>) -> S,
                                 raises: (string, seq<Option<V>>) -> bool): (r: Result<seq<Row<S>>>)
    requires Locatable(f, rows)
    ensures r.Ok? <==> forall k :: 0 <= k < |rows| ==> !RoundRaises(rows[k].dataType, ColumnNamed(f, rows[k].name).values, raises)
    ensures (exists k :: 0 <= k < |rows| && rows[k].dataType == DatetimeLabel) ==> r == Err(RoundError)
    ensures r.Err? ==> r.error == RoundError
    ensures r.Ok? ==> r.value == UpdateContinuous(f, rows, describe)
  {
    var results := seq(|rows|, k requires 0 <= k < |rows| =>
      DraftDescribe(rows[k].dataType, ColumnNamed(f, rows[k].name).values, describe, raises));
    if exists k :: 0 <= k < |rows| && results[k].Err? then
      Err(RoundError)
    else
      var t := seq(|rows|, k requires 0 <= k < |rows| => Row(rows[k], results[k].value));
      var u := UpdateContinuous(f, rows, describe);
      assert forall k :: 0 <= k < |rows| ==> t[k] == u[k];
      Ok(t)
  }

  /** No column the draft puts in its continuous table makes `round()`
      raise. */
  predicate ContinuousColumnsRound<V(==)>(df: Frame<V>, raises: (string, seq<Option<V>>) -> bool) {
    df.Valid() && forall row :: row in DataTypesOf(df) && DraftContinuousMask(row) ==>
      HasColumn(df.columns, row.name) && !RoundRaises(row.dataType, ColumnNamed(df, row.name).values, raises)
  }

  /** A frame whose only column holds three distinct timestamps: its
      cardinality is 3, so it keeps the label "datetime64[ns]" and goes to
      the continuous table, where `round()` raises; by `Dqr`'s contract the
      draft returns `Err(RoundError)` on it, whatever `raises` says. */
  lemma DatetimeColumnFails(raises: (string, seq<Option<int>>) -> bool)
    ensures Frame(3, [Column("d", DatetimeLabel, [Some(1), Some(2), Some(3)])]).Valid()
    ensures !ContinuousColumnsRound(Frame(3, [Column("d", DatetimeLabel, [Some(1), Some(2), Some(3)])]), raises)
  {
    var vs := [Some(1), Some(2), Some(3)];
    var c := Column("d", DatetimeLabel, vs);
    var f := Frame(3, [c]);
    assert Distinct(vs) == {1, 2, 3} by {
      InDistinct(vs, 1);
      InDistinct(vs, 2);
      InDistinct(vs, 3);
      forall v | v in Distinct(vs) ensures v in {1, 2, 3} {
        InDistinct(vs, v);
      }
    }
    DataTypesRows(f);
    var row := DataTypesOf(f)[0];
    assert row in DataTypesOf(f);
    assert row.dataType == DatetimeLabel;
    assert HasColumn(f.columns, "d");
    ColumnNamedFindsColumn(f, 0);
  }

  /** Every column labelled "object" in `data_types` has at least two
      distinct values. */
  predicate ObjectColumnsTwoValued<V(==)>(df: Frame<V>) {
    df.Valid() && forall row :: row in DataTypesOf(df) && row.dataType == ObjectLabel ==> row.cardinality >= 2
  }

  /** The two tables of the draft. */
  datatype Tables<V, S> = Tables(continuous: seq<Row<S>>, categorical: seq<Row<ModeStats<V>>>)

  /** `dqr(df)`: the same metadata and split as the class, the tables left
      in column order. It succeeds exactly when no continuous column makes
      `round()` raise and every "object" column has at least two distinct
      values; the continuous table is computed first, so its failure is the
      one reported. On success its tables hold the same rows as the
      class's, in input order rather than sorted. */
  method Dqr<V(==,!new), S>(df: Frame<V>, describe: (string, seq<Option<V>>) -> S,
                            raises: (string, seq<Option<V>>) -> bool) returns (r: Result<Tables<V, S>>)
    requires df.Valid()
    ensures r.Ok? <==> ContinuousColumnsRound(df, raises) && ObjectColumnsTwoValued(df)
    ensures r.Err? ==> (r.error == RoundError <==> !ContinuousColumnsRound(df, raises))
    ensures r.Ok? ==> Metas(r.value.continuous) == Where(DataTypesOf(df), DraftContinuousMask)
    ensures r.Ok? ==> Metas(r.value.categorical) == Where(DataTypesOf(df), DraftCategoricalMask)
    ensures r.Ok? ==> r.value.continuous == ContinuousRows(df, describe)
    ensures r.Ok? ==> CategoricalColumnsNonEmpty(df) && r.value.categorical == CategoricalRows(df)
  {
    var dataTypes := GetDataTypes(df);
    var continuousData := Where(dataTypes, DraftContinuousMask);
    var categoricalData := Where(dataTypes, DraftCategoricalMask);
    MasksAgree(dataTypes);
    SelectedLocatable(df, continuousData);
    SelectedLocatable(df, categoricalData);
    var continuous := DraftContinuous(df, continuousData, describe, raises);
    AllRound(df, continuousData, raises);
    if continuous.Err? {
      r := Err(continuous.error);
      return;
    }
    var categorical := DraftCategorical(df, categoricalData);
    AllSummarizable(df, categoricalData);
    if categorical.Err? {
      r := Err(categorical.error);
    } else {
      r := Ok(Tables(continuous.value, categorical.value));
    }
  }

  /** The per-row success condition of the continuous table, restated over
      the rows of `data_types`. */
  lemma AllRound<V>(f: Frame<V>, selected: seq<TypeRow>, raises: (string, seq<Option<V>>) -> bool)
    requires f.Valid()
    requires selected == Where(DataTypesOf(f), DraftContinuousMask)
    ensures Locatable(f, selected)
    ensures (forall k :: 0 <= k < |selected| ==> !RoundRaises(selected[k].dataType, ColumnNamed(f, selected[k].name).values, raises))
        <==> ContinuousColumnsRound(f, raises)
  {
    SelectedLocatable(f, selected);
    var p := (row: TypeRow) => HasColumn(f.columns, row.name) && !RoundRaises(row.dataType, ColumnNamed(f, row.name).values, raises);
    WhereAll(DataTypesOf(f), DraftContinuousMask, p);
    assert forall k :: 0 <= k < |selected| ==>
      (p(selected[k]) <==> !RoundRaises(selected[k].dataType, ColumnNamed(f, selected[k].name).values, raises));
  }

  /** The per-row success condition of the categorical table, restated over
      the rows of `data_types`; it implies the class's precondition. */
  lemma AllSummarizable<V>(f: Frame<V>, selected: seq<TypeRow>)
    requires f.Valid() && selected == Where(DataTypesOf(f), DraftCategoricalMask)
    ensures Locatable(f, selected)
    ensures (forall k :: 0 <= k < |selected| ==> Cardinality(ColumnNamed(f, selected[k].name).values) >= 2)
        <==> ObjectColumnsTwoValued(f)
    ensures (forall k :: 0 <= k < |selected| ==> Cardinality(ColumnNamed(f, selected[k].name).values) >= 2)
        ==> CategoricalColumnsNonEmpty(f)
  {
    SelectedLocatable(f, selected);
    WhereAll(DataTypesOf(f), DraftCategoricalMask, TwoValues);
    ObjectRowsNonEmpty(f);
  }

  predicate TwoValues(row: TypeRow) {
    row.cardinality >= 2
  }

  /** An "object" row with two distinct values has a present value. */
  lemma ObjectRowsNonEmpty<V>(f: Frame<V>)
    requires f.Valid()
    ensures ObjectColumnsTwoValued(f) ==> CategoricalColumnsNonEmpty(f)
  {
    forall row | row in DataTypesOf(f)
      ensures row.cardinality <= row.count
    {
      RowOfColumn(f, row);
    }
  }
}
