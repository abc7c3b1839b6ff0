/** pandas `Series.value_counts()` and `Series.mode()`, as functions: the
    distinct present values with their occurrence counts, ordered by count,
    highest first. Which of several equally frequent values comes first is
    left open, as pandas leaves it. */
module ValueCounts {
  import opened Frame
  import opened ColumnStats

  predicate Unique<V(==,!new)>(ks: seq<V>) {
    forall i, j :: 0 <= i < j < |ks| ==> ks[i] != ks[j]
  }

  /** `ks` is ordered by occurrence count in `vs`, highest first. */
  predicate ByFrequency<V(==,!new)>(vs: seq<Option<V>>, ks: seq<V>) {
    forall i, j :: 0 <= i < j < |ks| ==> Occurrences(vs, ks[i]) >= Occurrences(vs, ks[j])
  }

  /** The distinct present values of `vs`, each once. */
  function Keys<V(==,!new)>(vs: seq<Option<V>>): (ks: seq<V>)
    ensures forall v :: v in ks <==> Some(v) in vs
    ensures Unique(ks)
    ensures |ks| == Cardinality(vs)
  {
    if vs == [] then []
    else
      var rest := Keys(vs[1..]);
      DistinctCons(vs);
      assert vs == [vs[0]] + vs[1..];
      match vs[0]
      case None => rest
      case Some(v) =>
        InDistinct(vs[1..], v);
        if v in rest then rest else [v] + rest
  }

  function InsertByFrequency<V(==,!new)>(vs: seq<Option<V>>, k: V, ks: seq<V>): (r: seq<V>)
    requires ByFrequency(vs, ks)
    ensures |r| == |ks| + 1
    ensures forall x :: x in r <==> x == k || x in ks
    ensures ByFrequency(vs, r)
    ensures Unique(ks) && k !in ks ==> Unique(r)
  {
    if ks == [] || Occurrences(vs, k) >= Occurrences(vs, ks[0]) then
      ConsUnique(k, ks);
      [k] + ks
    else
      TailOrdered(vs, ks);
      var rest := InsertByFrequency(vs, k, ks[1..]);
      ConsByFrequency(vs, ks[0], rest);
      ConsUnique(ks[0], rest);
      [ks[0]] + rest
  }

  /** The tail of a frequency-ordered list is frequency-ordered, and its
      head is at least as frequent as every key of the tail; the tail of a
      list without repeats has none and lacks the head. */
  lemma TailOrdered<V(!new)>(vs: seq<Option<V>>, ks: seq<V>)
    requires ByFrequency(vs, ks) && ks != []
    ensures ByFrequency(vs, ks[1..])
    ensures forall x :: x in ks[1..] ==> Occurrences(vs, ks[0]) >= Occurrences(vs, x)
    ensures Unique(ks) ==> Unique(ks[1..]) && ks[0] !in ks[1..]
  {
    assert forall i :: 0 <= i < |ks[1..]| ==> ks[1..][i] == ks[i + 1];
  }

  /** A key not in a list without repeats can go in front of it. */
  lemma ConsUnique<V(!new)>(x: V, rest: seq<V>)
    ensures Unique(rest) && x !in rest ==> Unique([x] + rest)
  {
    var r := [x] + rest;
    if Unique(rest) && x !in rest {
      forall i, j | 0 <= i < j < |r| ensures r[i] != r[j] {
        assert r[j] == rest[j - 1];
        if i > 0 {
          assert r[i] == rest[i - 1];
        }
      }
    }
  }

  /** A key at least as frequent as every key of a frequency-ordered list
      can go in front of it. */
  lemma ConsByFrequency<V(!new)>(vs: seq<Option<V>>, x: V, rest: seq<V>)
    requires ByFrequency(vs, rest)
    requires forall y :: y in rest ==> Occurrences(vs, x) >= Occurrences(vs, y)
    ensures ByFrequency(vs, [x] + rest)
  {
    var r := [x] + rest;
    forall i, j | 0 <= i < j < |r| ensures Occurrences(vs, r[i]) >= Occurrences(vs, r[j]) {
      assert r[j] == rest[j - 1];
      if i > 0 {
        assert r[i] == rest[i - 1];
      }
    }
  }

  function SortByFrequency<V(==,!new)>(vs: seq<Option<V>>, ks: seq<V>): (r: seq<V>)
    ensures |r| == |ks|
    ensures forall x :: x in r <==> x in ks
    ensures ByFrequency(vs, r)
    ensures Unique(ks) ==> Unique(r)
  {
    if ks == [] then []
    else
      assert ks == [ks[0]] + ks[1..];
      InsertByFrequency(vs, ks[0], SortByFrequency(vs, ks[1..]))
  }

  /** One entry of `value_counts()`: a value and how often it occurs. */
  datatype ValueCount<V> = ValueCount(value: V, freq: nat)

  /** `vs.value_counts()` (missing cells dropped). */
  function ValueCountsOf<V(==,!new)>(vs: seq<Option<V>>): (vc: seq<ValueCount<V>>)
    ensures |vc| == Cardinality(vs)
    ensures forall k :: 0 <= k < |vc| ==> Some(vc[k].value) in vs && vc[k].freq == Occurrences(vs, vc[k].value) > 0
    ensures forall v :: Some(v) in vs ==> exists k :: 0 <= k < |vc| && vc[k].value == v
    ensures forall i, j :: 0 <= i < j < |vc| ==> vc[i].value != vc[j].value
    ensures forall i, j :: 0 <= i < j < |vc| ==> vc[i].freq >= vc[j].freq
  {
    var ks := SortByFrequency(vs, Keys(vs));
    var vc := seq(|ks|, k requires 0 <= k < |ks| => ValueCount(ks[k], Occurrences(vs, ks[k])));
    EntriesCoverKeys(ks, vc);
    vc
  }

  lemma EntriesCoverKeys<V>(ks: seq<V>, vc: seq<ValueCount<V>>)
    requires |vc| == |ks| && forall k :: 0 <= k < |ks| ==> vc[k].value == ks[k]
    ensures forall v :: v in ks ==> exists k :: 0 <= k < |vc| && vc[k].value == v
  {
    forall v | v in ks ensures exists k :: 0 <= k < |vc| && vc[k].value == v {
      var k :| 0 <= k < |ks| && ks[k] == v;
      assert vc[k].value == v;
    }
  }

  /** The first entry of the value counts holds the highest occurrence
      count of any present value. */
  lemma TopIsMaximal<V(!new)>(vs: seq<Option<V>>)
    requires Count(vs) > 0
    ensures |ValueCountsOf(vs)| > 0
    ensures forall v :: Some(v) in vs ==> Occurrences(vs, v) <= ValueCountsOf(vs)[0].freq
  {
    CardinalityBounds(vs);
    var vc := ValueCountsOf(vs);
    forall v | Some(v) in vs ensures Occurrences(vs, v) <= vc[0].freq {
      var k :| 0 <= k < |vc| && vc[k].value == v;
    }
  }

  /** The second entry holds the highest occurrence count among the values
      other than the first entry's. */
  lemma SecondIsRunnerUp<V(!new)>(vs: seq<Option<V>>)
    requires Cardinality(vs) > 1
    ensures forall v :: Some(v) in vs && v != ValueCountsOf(vs)[0].value ==> Occurrences(vs, v) <= ValueCountsOf(vs)[1].freq
  {
    var vc := ValueCountsOf(vs);
    forall v | Some(v) in vs && v != vc[0].value ensures Occurrences(vs, v) <= vc[1].freq {
      var k :| 0 <= k < |vc| && vc[k].value == v;
    }
  }

  /** The first cell of `cells` whose value occurs `f` times in `vs`. */
  function FirstOfFrequency<V(==,!new)>(vs: seq<Option<V>>, cells: seq<Option<V>>, f: nat): (m: V)
    requires exists i :: 0 <= i < |cells| && cells[i].Some? && Occurrences(vs, cells[i].value) == f
    ensures Some(m) in cells && Occurrences(vs, m) == f
  {
    if cells[0].Some? && Occurrences(vs, cells[0].value) == f then cells[0].value
    else
      assert exists i :: 0 <= i < |cells[1..]| && cells[1..][i].Some? && Occurrences(vs, cells[1..][i].value) == f by {
        var i :| 0 <= i < |cells| && cells[i].Some? && Occurrences(vs, cells[i].value) == f;
        assert cells[1..][i - 1] == cells[i];
      }
      var m := FirstOfFrequency(vs, cells[1..], f);
      assert Some(m) in cells[1..];
      m
  }

  /** `vs.mode().values[0]`: a present value that no other present value
      outnumbers. pandas returns the modes sorted and takes the least; the
      values here carry no order, so when several values tie this model
      picks the one whose cell comes first, and its contract promises only
      a value of highest frequency. */
  function Mode<V(==,!new)>(vs: seq<Option<V>>): (m: V)
    requires Count(vs) > 0
    ensures Some(m) in vs
    ensures forall v :: Some(v) in vs ==> Occurrences(vs, v) <= Occurrences(vs, m)
  {
    TopIsMaximal(vs);
    var top := ValueCountsOf(vs)[0];
    assert exists i :: 0 <= i < |vs| && vs[i].Some? && Occurrences(vs, vs[i].value) == top.freq by {
      var i :| 0 <= i < |vs| && vs[i] == Some(top.value);
    }
    FirstOfFrequency(vs, vs, top.freq)
  }
}
