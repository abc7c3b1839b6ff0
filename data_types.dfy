/** The `data_types` table: one row per column with its dtype label, count,
    missing percentage and cardinality, and the label of every column with
    exactly two distinct values overwritten with "object". */
module DataTypes {
  import opened Frame
  import opened ColumnStats

  const ObjectLabel: string := "object"
  const DatetimeLabel: string := "datetime64[ns]"

  /** One row of `data_types`, indexed by the column's name. */
  datatype TypeRow = TypeRow(name: string, dataType: string, count: nat, missing: real, cardinality: nat)

  /** The row for column `c` of a frame with `n` rows, before the
      cardinality-2 override. */
  function Metadata<V(==)>(c: Column<V>, n: nat): (r: TypeRow)
    requires 0 < n && |c.values| == n
    ensures r.name == c.name && r.dataType == c.dtype
    ensures r.count == Count(c.values) <= n
    ensures r.cardinality == Cardinality(c.values) <= r.count
    ensures r.cardinality == 0 <==> r.count == 0
    ensures r.missing == Percent(n - r.count, n)
    ensures 0.0 <= r.missing <= 100.0
    ensures r.missing == 0.0 <==> forall i :: 0 <= i < n ==> c.values[i].Some?
    ensures r.missing == 100.0 <==> forall i :: 0 <= i < n ==> c.values[i].None?
  {
    CardinalityBounds(c.values);
    var count := Count(c.values);
    TypeRow(c.name, c.dtype, count, MissingPercent(count, n), Cardinality(c.values))
  }

  /** A column with exactly two distinct values is treated as categorical:
      its label becomes "object"; nothing else in the row changes. */
  function Relabel(row: TypeRow): (r: TypeRow)
    ensures r.(dataType := row.dataType) == row
    ensures row.cardinality == 2 ==> r.dataType == ObjectLabel
    ensures row.cardinality != 2 ==> r == row
  {
    if row.cardinality == 2 then row.(dataType := ObjectLabel) else row
  }

  /** The `data_types` table of `f`, in column order. */
  function DataTypesOf<V(==)>(f: Frame<V>): (rows: seq<TypeRow>)
    requires f.Valid()
  {
    seq(|f.columns|, i requires 0 <= i < |f.columns| => Relabel(Metadata(f.columns[i], f.length)))
  }

  /** Row `i` of the table describes column `i`: its name, its count, its
      missing percentage and its cardinality, and the label "object" if the
      cardinality is 2, else the column's own dtype. */
  lemma DataTypesRows<V>(f: Frame<V>)
    requires f.Valid()
    ensures |DataTypesOf(f)| == |f.columns|
    ensures forall i :: 0 <= i < |f.columns| ==>
      var row := DataTypesOf(f)[i];
      && row.name == f.columns[i].name
      && row.count == Count(f.columns[i].values)
      && row.missing == MissingPercent(row.count, f.length)
      && row.cardinality == Cardinality(f.columns[i].values)
      && row.dataType == (if row.cardinality == 2 then ObjectLabel else f.columns[i].dtype)
  {
  }

  /** `_get_data_types`: builds the table column by column, then overwrites
      the labels of the cardinality-2 rows in place. */
  method GetDataTypes<V(==)>(f: Frame<V>) returns (rows: seq<TypeRow>)
    requires f.Valid()
    ensures rows == DataTypesOf(f)
  {
    rows := [];
    var i := 0;
    while i < |f.columns|
      invariant 0 <= i <= |f.columns|
      invariant |rows| == i
      invariant forall k :: 0 <= k < i ==> rows[k] == Metadata(f.columns[k], f.length)
    {
      rows := rows + [Metadata(f.columns[i], f.length)];
      i := i + 1;
    }
    var j := 0;
    while j < |rows|
      invariant 0 <= j <= |rows| == |f.columns|
      invariant forall k :: 0 <= k < j ==> rows[k] == Relabel(Metadata(f.columns[k], f.length))
      invariant forall k :: j <= k < |rows| ==> rows[k] == Metadata(f.columns[k], f.length)
    {
      if rows[j].cardinality == 2 {
        rows := rows[j := rows[j].(dataType := ObjectLabel)];
      }
      j := j + 1;
    }
  }

  /** Every row of the table is the row of some column, with that column's
      count and cardinality; the column is found again by the row's name. */
  lemma RowOfColumn<V>(f: Frame<V>, row: TypeRow)
    requires f.Valid() && row in DataTypesOf(f)
    ensures HasColumn(f.columns, row.name)
    ensures var c := ColumnNamed(f, row.name);
      && row == Relabel(Metadata(c, f.length))
      && row.count == Count(c.values)
      && row.cardinality == Cardinality(c.values)
  {
    var i :| 0 <= i < |f.columns| && DataTypesOf(f)[i] == row;
    ColumnNamedFindsColumn(f, i);
  }
}
