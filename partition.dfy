/** Splitting the `data_types` table into the continuous and the categorical
    rows by boolean masks on the label, as `data_types[mask]` does: the rows
    that pass, in their original order. */
module Partition {
  import opened DataTypes

  /** `rows[mask]`: the rows that `keep` accepts, in order. */
  function Where<R(!new)>(rows: seq<R>, keep: R -> bool): (r: seq<R>)
    ensures |r| <= |rows|
    ensures forall x :: x in r <==> x in rows && keep(x)
  {
    if rows == [] then []
    else
      assert rows == [rows[0]] + rows[1..];
      (if keep(rows[0]) then [rows[0]] else []) + Where(rows[1..], keep)
  }

  /** The positions in `rows` of the rows `Where` keeps: strictly
      increasing, so the kept rows stay in input order, and covering every
      row `keep` accepts, so none is dropped. */
  function Positions<R(!new)>(rows: seq<R>, keep: R -> bool): (ps: seq<nat>)
    ensures |ps| == |Where(rows, keep)|
    ensures forall k :: 0 <= k < |ps| ==> ps[k] < |rows| && rows[ps[k]] == Where(rows, keep)[k]
    ensures forall k, l :: 0 <= k < l < |ps| ==> ps[k] < ps[l]
    ensures forall i :: 0 <= i < |rows| && keep(rows[i]) ==> i in ps
  {
    if rows == [] then []
    else
      var w, wt := Where(rows, keep), Where(rows[1..], keep);
      assert w == (if keep(rows[0]) then [rows[0]] else []) + wt;
      var tail := Positions(rows[1..], keep);
      var shifted := Shift(rows, keep, wt, tail);
      JoinPositions(rows, keep, w, wt, shifted);
      (if keep(rows[0]) then [0] else []) + shifted
  }

  /** The positions of a selection, from those of the selection of its
      tail `wt`. */
  lemma JoinPositions<R>(rows: seq<R>, keep: R -> bool, w: seq<R>, wt: seq<R>, shifted: seq<nat>)
    requires rows != []
    requires w == (if keep(rows[0]) then [rows[0]] else []) + wt
    requires |shifted| == |wt|
    requires forall k :: 0 <= k < |shifted| ==> 1 <= shifted[k] < |rows| && rows[shifted[k]] == wt[k]
    requires forall k, l :: 0 <= k < l < |shifted| ==> shifted[k] < shifted[l]
    requires forall i :: 1 <= i < |rows| && keep(rows[i]) ==> i in shifted
    ensures var ps := (if keep(rows[0]) then [0] else []) + shifted;
      && |ps| == |w|
      && (forall k :: 0 <= k < |ps| ==> ps[k] < |rows| && rows[ps[k]] == w[k])
      && (forall k, l :: 0 <= k < l < |ps| ==> ps[k] < ps[l])
      && (forall i :: 0 <= i < |rows| && keep(rows[i]) ==> i in ps)
  {
    var ps := (if keep(rows[0]) then [0] else []) + shifted;
    forall i | 0 <= i < |rows| && keep(rows[i]) ensures i in ps {
      if i == 0 {
        assert ps[0] == 0;
      } else {
        assert i in shifted;
      }
    }
  }

  /** The positions `tail` of the selection `wt` of `rows[1..]`, moved one
      place right to index `rows`. */
  function Shift<R>(rows: seq<R>, keep: R -> bool, wt: seq<R>, tail: seq<nat>): (shifted: seq<nat>)
    requires rows != []
    requires |tail| == |wt|
    requires forall k :: 0 <= k < |tail| ==> tail[k] < |rows[1..]| && rows[1..][tail[k]] == wt[k]
    requires forall k, l :: 0 <= k < l < |tail| ==> tail[k] < tail[l]
    requires forall i :: 0 <= i < |rows[1..]| && keep(rows[1..][i]) ==> i in tail
    ensures |shifted| == |tail|
    ensures forall k :: 0 <= k < |shifted| ==> 1 <= shifted[k] < |rows| && rows[shifted[k]] == wt[k]
    ensures forall k, l :: 0 <= k < l < |shifted| ==> shifted[k] < shifted[l]
    ensures forall i :: 1 <= i < |rows| && keep(rows[i]) ==> i in shifted
  {
    var shifted := seq(|tail|, k requires 0 <= k < |tail| => tail[k] + 1);
    ShiftCovers(rows, keep, tail, shifted);
    shifted
  }

  /** Every accepted row of `rows[1..]` has its position, moved by one,
      among the shifted positions. */
  lemma ShiftCovers<R>(rows: seq<R>, keep: R -> bool, tail: seq<nat>, shifted: seq<nat>)
    requires rows != []
    requires forall i :: 0 <= i < |rows[1..]| && keep(rows[1..][i]) ==> i in tail
    requires |shifted| == |tail| && forall k :: 0 <= k < |tail| ==> shifted[k] == tail[k] + 1
    ensures forall i :: 1 <= i < |rows| && keep(rows[i]) ==> i in shifted
  {
    forall i | 1 <= i < |rows| && keep(rows[i]) ensures i in shifted {
      assert rows[1..][i - 1] == rows[i];
      var k :| 0 <= k < |tail| && tail[k] == i - 1;
      assert shifted[k] == i;
    }
  }

  /** A property holds of every selected row iff it holds of every row the
      mask accepts. */
  lemma WhereAll<R(!new)>(rows: seq<R>, keep: R -> bool, p: R -> bool)
    ensures (forall k :: 0 <= k < |Where(rows, keep)| ==> p(Where(rows, keep)[k])) ==> (forall x :: x in rows && keep(x) ==> p(x))
    ensures (forall x :: x in rows && keep(x) ==> p(x)) ==> (forall k :: 0 <= k < |Where(rows, keep)| ==> p(Where(rows, keep)[k]))
  {
    MembersAll(Where(rows, keep), rows, keep, p);
  }

  /** The same, for any `w` whose members are the accepted rows. */
  lemma MembersAll<R(!new)>(w: seq<R>, rows: seq<R>, keep: R -> bool, p: R -> bool)
    requires forall x :: x in w <==> x in rows && keep(x)
    ensures (forall k :: 0 <= k < |w| ==> p(w[k])) <==> (forall x :: x in rows && keep(x) ==> p(x))
  {
    if forall k :: 0 <= k < |w| ==> p(w[k]) {
      SelectedToAccepted(w, rows, keep, p);
    }
    if forall x :: x in rows && keep(x) ==> p(x) {
      AcceptedToSelected(w, rows, keep, p);
    }
  }

  /** What holds at every position of a selection holds of every row the
      mask accepts. */
  lemma SelectedToAccepted<R(!new)>(w: seq<R>, rows: seq<R>, keep: R -> bool, p: R -> bool)
    requires forall x :: x in w <==> x in rows && keep(x)
    requires forall k :: 0 <= k < |w| ==> p(w[k])
    ensures forall x :: x in rows && keep(x) ==> p(x)
  {
    forall x | x in rows && keep(x) ensures p(x) {
      var i :| 0 <= i < |w| && w[i] == x;
    }
  }

  /** What holds of every row the mask accepts holds at every position of
      the selection. */
  lemma AcceptedToSelected<R(!new)>(w: seq<R>, rows: seq<R>, keep: R -> bool, p: R -> bool)
    requires forall x :: x in w <==> x in rows && keep(x)
    requires forall x :: x in rows && keep(x) ==> p(x)
    ensures forall k :: 0 <= k < |w| ==> p(w[k])
  {
    forall k | 0 <= k < |w| ensures p(w[k]) {
      assert w[k] in w;
    }
  }

  /** The mask of `_create_continuous_df`. Its datetime clause adds
      nothing: it accepts exactly the rows not labelled "object". */
  predicate ContinuousMask(row: TypeRow): (b: bool)
    ensures b <==> row.dataType != ObjectLabel
  {
    row.dataType != ObjectLabel || row.dataType == DatetimeLabel
  }

  /** The mask of `_create_categorical_df`. Its datetime clause adds
      nothing: it accepts exactly the rows labelled "object". */
  predicate CategoricalMask(row: TypeRow): (b: bool)
    ensures b <==> row.dataType == ObjectLabel
  {
    row.dataType == ObjectLabel && row.dataType != DatetimeLabel
  }

  /** The continuous mask of the earlier draft `dqr(df)`: it accepts the
      rows the class's continuous mask accepts, and exactly the rows its
      categorical mask rejects. */
  predicate DraftContinuousMask(row: TypeRow): (b: bool)
    ensures b <==> ContinuousMask(row)
    ensures b <==> !CategoricalMask(row)
  {
    row.dataType != ObjectLabel
  }

  /** The categorical mask of the earlier draft `dqr(df)`: it accepts the
      rows the class's categorical mask accepts. */
  predicate DraftCategoricalMask(row: TypeRow): (b: bool)
    ensures b <==> CategoricalMask(row)
  {
    row.dataType == ObjectLabel
  }

  /** "datetime64[ns]" is never "object", so the class's masks select
      exactly what the draft's plain comparisons select. */
  lemma {:induction false} MasksAgree(rows: seq<TypeRow>)
    ensures Where(rows, ContinuousMask) == Where(rows, DraftContinuousMask)
    ensures Where(rows, CategoricalMask) == Where(rows, DraftCategoricalMask)
  {
    if rows != [] {
      MasksAgree(rows[1..]);
    }
  }

  /** Every row lands in exactly one of the two tables: their contents add
      up to the whole table, and no row is in both. */
  lemma MasksPartition(rows: seq<TypeRow>)
    ensures multiset(Where(rows, ContinuousMask)) + multiset(Where(rows, CategoricalMask)) == multiset(rows)
    ensures |Where(rows, ContinuousMask)| + |Where(rows, CategoricalMask)| == |rows|
    ensures forall x :: x in rows ==> (x in Where(rows, ContinuousMask) <==> x !in Where(rows, CategoricalMask))
  {
    MasksSplit(rows);
    assert |multiset(rows)| == |rows|;
  }

  lemma MasksSplit(rows: seq<TypeRow>)
    ensures multiset(Where(rows, ContinuousMask)) + multiset(Where(rows, CategoricalMask)) == multiset(rows)
  {
    WhereSplit(rows, ContinuousMask, CategoricalMask);
  }

  /** Two complementary filters share out the rows between them. */
  lemma {:induction false} WhereSplit<R(!new)>(rows: seq<R>, keep: R -> bool, other: R -> bool)
    requires forall x :: keep(x) <==> !other(x)
    ensures multiset(Where(rows, keep)) + multiset(Where(rows, other)) == multiset(rows)
  {
    if rows != [] {
      WhereSplit(rows[1..], keep, other);
      WhereCons(rows, keep);
      WhereCons(rows, other);
      SplitStep(rows, keep(rows[0]),
        Where(rows, keep), Where(rows, other), Where(rows[1..], keep), Where(rows[1..], other));
    }
  }

  /** `Where` takes the first row or not, then filters the rest. */
  lemma WhereCons<R(!new)>(rows: seq<R>, keep: R -> bool)
    requires rows != []
    ensures Where(rows, keep) == (if keep(rows[0]) then [rows[0]] else []) + Where(rows[1..], keep)
  {
  }

  /** One row more goes to exactly one side. */
  lemma SplitStep<R>(rows: seq<R>, left: bool, a: seq<R>, b: seq<R>, at: seq<R>, bt: seq<R>)
    requires rows != []
    requires multiset(at) + multiset(bt) == multiset(rows[1..])
    requires a == (if left then [rows[0]] else []) + at
    requires b == (if left then [] else [rows[0]]) + bt
    ensures multiset(a) + multiset(b) == multiset(rows)
  {
    assert rows == [rows[0]] + rows[1..];
    if left {
      assert b == bt;
    } else {
      assert a == at;
    }
  }
}
