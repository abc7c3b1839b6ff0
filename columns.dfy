/** Per-column counting: pandas `count`, `nunique`, the occurrence count of
    one value, and percentages of the row count as exact rationals. */
module ColumnStats {
  import opened Frame

  /** `Series.count()`: the number of present cells. */
  function Count<V>(vs: seq<Option<V>>): (r: nat)
    ensures r <= |vs|
    ensures r == |vs| <==> forall i :: 0 <= i < |vs| ==> vs[i].Some?
    ensures r == 0 <==> forall i :: 0 <= i < |vs| ==> vs[i].None?
  {
    if vs == [] then 0
    else
      var rest := Count(vs[1..]);
      assert forall i :: 1 <= i < |vs| ==> vs[i] == vs[1..][i - 1];
      (if vs[0].Some? then 1 else 0) + rest
  }

  /** The set of present values; missing cells never count as a value. */
  function Distinct<V(==)>(vs: seq<Option<V>>): set<V> {
    set x | x in vs && x.Some? :: x.value
  }

  /** `Series.nunique()`: the number of distinct present values. */
  function Cardinality<V(==)>(vs: seq<Option<V>>): nat {
    |Distinct(vs)|
  }

  lemma InDistinct<V>(vs: seq<Option<V>>, v: V)
    ensures v in Distinct(vs) <==> Some(v) in vs
  {
    if Some(v) in vs {
      assert Some(v).value == v;
    }
  }

  lemma DistinctCons<V>(vs: seq<Option<V>>)
    requires vs != []
    ensures Distinct(vs) == (if vs[0].Some? then {vs[0].value} else {}) + Distinct(vs[1..])
  {
    assert vs == [vs[0]] + vs[1..];
    forall v ensures v in Distinct(vs) <==> v in (if vs[0].Some? then {vs[0].value} else {}) + Distinct(vs[1..]) {
      InDistinct(vs, v);
      InDistinct(vs[1..], v);
    }
  }

  /** A column has no more distinct values than present cells, and it has
      none exactly when every cell is missing. */
  lemma {:induction false} CardinalityBounds<V>(vs: seq<Option<V>>)
    ensures Cardinality(vs) <= Count(vs)
    ensures Cardinality(vs) == 0 <==> Count(vs) == 0
  {
    if vs != [] {
      DistinctCons(vs);
      CardinalityBounds(vs[1..]);
      if vs[0].Some? {
        assert vs[0].value in Distinct(vs);
      }
    }
  }

  /** How many cells hold `v`. */
  function Occurrences<V(==)>(vs: seq<Option<V>>, v: V): (r: nat)
    ensures r <= Count(vs)
    ensures r > 0 <==> Some(v) in vs
  {
    if vs == [] then 0
    else
      assert vs == [vs[0]] + vs[1..];
      (if vs[0] == Some(v) then 1 else 0) + Occurrences(vs[1..], v)
  }

  /** Two different values together occur at most as often as there are
      present cells. */
  lemma {:induction false} OccurrencesOfTwo<V>(vs: seq<Option<V>>, a: V, b: V)
    requires a != b
    ensures Occurrences(vs, a) + Occurrences(vs, b) <= Count(vs)
  {
    if vs != [] {
      OccurrencesOfTwo(vs[1..], a, b);
    }
  }

  /** `k / n * 100`, exactly. */
  function Percent(k: nat, n: nat): (r: real)
    requires n > 0
    ensures 0.0 <= r
    ensures r == 0.0 <==> k == 0
    ensures k <= n ==> r <= 100.0
    ensures r == 100.0 <==> k == n
  {
    var q := k as real / n as real;
    assert q * n as real == k as real;
    assert q == 1.0 <==> k == n;
    q * 100.0
  }

  lemma PercentAdd(a: nat, b: nat, n: nat)
    requires n > 0
    ensures Percent(a, n) + Percent(b, n) == Percent(a + b, n)
  {
  }

  lemma PercentMonotone(a: nat, b: nat, n: nat)
    requires n > 0 && a <= b
    ensures Percent(a, n) <= Percent(b, n)
  {
    PercentAdd(a, b - a, n);
  }

  /** The `missing` column: the share of missing cells among `n` rows, in
      percent. */
  function MissingPercent(count: nat, n: nat): (r: real)
    requires 0 < n && count <= n
    ensures 0.0 <= r <= 100.0
    ensures r == 0.0 <==> count == n
    ensures r == 100.0 <==> count == 0
    ensures r + Percent(count, n) == 100.0
  {
    PercentAdd(n - count, count, n);
    Percent(n - count, n)
  }
}
