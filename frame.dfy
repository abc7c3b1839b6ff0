/** The tabular input of a report: a pandas DataFrame reduced to what the
    report reads from it — its row count, and per column the name, the dtype
    label pandas inferred and the cells, where `None` is a missing value. */
module Frame {

  datatype Option<+T> = None | Some(value: T)

  /** One column: its name (the row label of the report tables), the dtype
      label as pandas prints it ("object", "int64", "datetime64[ns]", ...)
      and its cells. */
  datatype Column<V> = Column(name: string, dtype: string, values: seq<Option<V>>)

  /** A data frame with `length` rows. */
  datatype Frame<V> = Frame(length: nat, columns: seq<Column<V>>)
  {
    /** At least one row, every column exactly `length` cells long, and
        column names unique (the report looks columns up by name). */
    predicate Valid() {
      && length > 0
      && (forall i :: 0 <= i < |columns| ==> |columns[i].values| == length)
      && (forall i, j :: 0 <= i < j < |columns| ==> columns[i].name != columns[j].name)
    }
  }

  predicate HasColumn<V>(columns: seq<Column<V>>, name: string) {
    exists i :: 0 <= i < |columns| && columns[i].name == name
  }

  /** Position of the first column called `name`. */
  function IndexOf<V>(columns: seq<Column<V>>, name: string): (k: nat)
    requires HasColumn(columns, name)
    ensures k < |columns| && columns[k].name == name
    ensures forall j :: 0 <= j < k ==> columns[j].name != name
  {
    if columns[0].name == name then 0
    else
      assert HasColumn(columns[1..], name) by {
        var i :| 0 <= i < |columns| && columns[i].name == name;
        assert columns[1..][i - 1].name == name;
      }
      1 + IndexOf(columns[1..], name)
  }

  /** `df[name]`: the column called `name`. */
  function ColumnNamed<V>(f: Frame<V>, name: string): (c: Column<V>)
    requires HasColumn(f.columns, name)
    ensures c in f.columns && c.name == name
  {
    f.columns[IndexOf(f.columns, name)]
  }

  /** With unique names, looking a column up by its own name finds it. */
  lemma ColumnNamedFindsColumn<V>(f: Frame<V>, i: nat)
    requires f.Valid() && i < |f.columns|
    ensures HasColumn(f.columns, f.columns[i].name)
    ensures ColumnNamed(f, f.columns[i].name) == f.columns[i]
  {
    assert HasColumn(f.columns, f.columns[i].name);
  }
}
