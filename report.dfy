/** The `DQR` class: built from a data frame, it computes the `data_types`
    table and from it the continuous and the categorical report tables, each
    sorted by `missing`, highest first, and hands them out through getters. */
module Report {
  import opened Frame
  import opened DataTypes
  import opened Partition
  import opened Summaries
  import opened Sorting

  class DQR<V(==,!new), S> {
    const df: Frame<V>
    /** The continuous statistics (min, quartiles, mean, median, max,
        standard deviation) of a column, from its label and its cells. */
    const describe: (string, seq<Option<V>>) -> S
    var dataTypes: seq<TypeRow>
    var continuousData: seq<Row<S>>
    var categoricalData: seq<Row<ModeStats<V>>>

    ghost predicate Valid()
      reads this
    {
      && CategoricalColumnsNonEmpty(df)
      && dataTypes == DataTypesOf(df)
      && SortedPermutationOf(continuousData, ContinuousRows(df, describe))
      && SortedPermutationOf(categoricalData, CategoricalRows(df))
    }

    /** `DQR(df)`: fills `data_types`, then the two tables. */
    constructor (df: Frame<V>, describe: (string, seq<Option<V>>) -> S)
      requires CategoricalColumnsNonEmpty(df)
      ensures Valid()
      ensures this.df == df && this.describe == describe
    {
      this.df := df;
      this.describe := describe;
      new;
      dataTypes := GetDataTypes(df);
      continuousData := CreateContinuousDf();
      categoricalData := CreateCategoricalDf();
    }

    /** `_create_continuous_df`: select the continuous rows, append their
        statistics, sort the table in place by `missing`. */
    method CreateContinuousDf() returns (table: seq<Row<S>>)
      requires df.Valid() && dataTypes == DataTypesOf(df)
      ensures SortedPermutationOf(table, ContinuousRows(df, describe))
    {
      var selected := Where(dataTypes, ContinuousMask);
      SelectedLocatable(df, selected);
      var updated := UpdateContinuous(df, selected, describe);
      var a := new Row<S>[|updated|](k requires 0 <= k < |updated| => updated[k]);
      assert a[..] == updated;
      SortByMissing(a);
      table := a[..];
    }

    /** `_create_categorical_df`: select the categorical rows, append their
        mode statistics, sort the table in place by `missing`. */
    method CreateCategoricalDf() returns (table: seq<Row<ModeStats<V>>>)
      requires CategoricalColumnsNonEmpty(df) && dataTypes == DataTypesOf(df)
      ensures SortedPermutationOf(table, CategoricalRows(df))
    {
      var selected := Where(dataTypes, CategoricalMask);
      SelectionSummarizable(df);
      var updated := UpdateCategorical(df, selected);
      var a := new Row<ModeStats<V>>[|updated|](k requires 0 <= k < |updated| => updated[k]);
      assert a[..] == updated;
      SortByMissing(a);
      table := a[..];
    }

    /** `get_continuous_df`: the continuous table — sorted by `missing`,
        holding exactly the rows of `data_types` whose label is not
        "object", each once. */
    method GetContinuousDf() returns (r: seq<Row<S>>)
      requires Valid()
      ensures r == continuousData
      ensures MissingDescending(r)
      ensures |r| == |Where(dataTypes, DraftContinuousMask)|
      ensures forall row :: row in dataTypes ==>
        (row.dataType != ObjectLabel <==> exists k :: 0 <= k < |r| && r[k].meta == row)
      ensures forall k :: 0 <= k < |r| ==> r[k].meta in dataTypes
    {
      r := continuousData;
      TableHoldsSelection(r, ContinuousRows(df, describe), ContinuousMask);
      MasksAgree(dataTypes);
    }

    /** `get_categorical_df`: the categorical table — sorted by `missing`,
        holding exactly the rows of `data_types` labelled "object", each
        once, with the mode statistics of its column. */
    method GetCategoricalDf() returns (r: seq<Row<ModeStats<V>>>)
      requires Valid()
      ensures r == categoricalData
      ensures MissingDescending(r)
      ensures |r| == |Where(dataTypes, DraftCategoricalMask)|
      ensures forall row :: row in dataTypes ==>
        (row.dataType == ObjectLabel <==> exists k :: 0 <= k < |r| && r[k].meta == row)
      ensures forall k :: 0 <= k < |r| ==> r[k].meta in dataTypes
      ensures forall k :: 0 <= k < |r| ==>
        HasColumn(df.columns, r[k].meta.name) && IsModeSummary(ColumnNamed(df, r[k].meta.name).values, df.length, r[k].stats)
    {
      r := categoricalData;
      TableHoldsSelection(r, CategoricalRows(df), CategoricalMask);
      MasksAgree(dataTypes);
      CategoricalTableSummarizes();
    }

    lemma CategoricalTableSummarizes()
      requires Valid()
      ensures forall k :: 0 <= k < |categoricalData| ==>
        && HasColumn(df.columns, categoricalData[k].meta.name)
        && IsModeSummary(ColumnNamed(df, categoricalData[k].meta.name).values, df.length, categoricalData[k].stats)
    {
      var t := CategoricalRows(df);
      CategoricalRowsSummarize(df);
      forall k | 0 <= k < |categoricalData|
        ensures HasColumn(df.columns, categoricalData[k].meta.name)
        ensures IsModeSummary(ColumnNamed(df, categoricalData[k].meta.name).values, df.length, categoricalData[k].stats)
      {
        assert categoricalData[k] in multiset(t);
        var l :| 0 <= l < |t| && t[l] == categoricalData[k];
      }
    }

    /** Every column of the frame has its row in exactly one of the two
        tables, and the tables together have one row per column. */
    lemma TablesPartitionColumns()
      requires Valid()
      ensures |continuousData| + |categoricalData| == |df.columns|
      ensures forall i :: 0 <= i < |df.columns| ==>
        ((exists k :: 0 <= k < |continuousData| && continuousData[k].meta == dataTypes[i])
         <==> !(exists k :: 0 <= k < |categoricalData| && categoricalData[k].meta == dataTypes[i]))
    {
      TableHoldsSelection(continuousData, ContinuousRows(df, describe), ContinuousMask);
      TableHoldsSelection(categoricalData, CategoricalRows(df), CategoricalMask);
      MasksPartition(dataTypes);
      forall i | 0 <= i < |df.columns|
        ensures (exists k :: 0 <= k < |continuousData| && continuousData[k].meta == dataTypes[i])
          <==> !(exists k :: 0 <= k < |categoricalData| && categoricalData[k].meta == dataTypes[i])
      {
        var row := dataTypes[i];
        assert row in dataTypes;
        assert ContinuousMask(row) <==> !CategoricalMask(row);
      }
    }

    /** A table that is a permutation of the selected rows with their
        statistics holds the selected metadata rows and nothing else. */
    lemma TableHoldsSelection<X>(r: seq<Row<X>>, t: seq<Row<X>>, keep: TypeRow -> bool)
      requires multiset(r) == multiset(t) && Metas(t) == Where(dataTypes, keep)
      ensures |r| == |Where(dataTypes, keep)|
      ensures forall row :: row in dataTypes ==> (keep(row) <==> exists k :: 0 <= k < |r| && r[k].meta == row)
      ensures forall k :: 0 <= k < |r| ==> r[k].meta in dataTypes && keep(r[k].meta)
    {
      assert |r| == |multiset(r)| == |multiset(t)| == |t|;
      var w := Where(dataTypes, keep);
      forall row | row in dataTypes
        ensures keep(row) <==> exists k :: 0 <= k < |r| && r[k].meta == row
      {
        if keep(row) {
          assert row in w;
          var l :| 0 <= l < |w| && w[l] == row;
          assert t[l] in multiset(r);
          var k :| 0 <= k < |r| && r[k] == t[l];
        }
        if exists k :: 0 <= k < |r| && r[k].meta == row {
          var k :| 0 <= k < |r| && r[k].meta == row;
          assert r[k] in multiset(t);
          var l :| 0 <= l < |t| && t[l] == r[k];
          assert w[l] == row;
        }
      }
      forall k | 0 <= k < |r| ensures r[k].meta in dataTypes && keep(r[k].meta) {
        assert r[k] in multiset(t);
        var l :| 0 <= l < |t| && t[l] == r[k];
        assert w[l] == r[k].meta;
      }
    }
  }
}
