/** `sort_values("missing", ascending=False, inplace=True)` on a report
    table: the rows are rearranged in place so that `missing` never
    increases down the table. pandas' default sort is not stable, so nothing
    is promised about the order of rows with equal `missing`. */
module Sorting {
  import opened Summaries

  predicate MissingDescending<X>(s: seq<Row<X>>) {
    forall i, j :: 0 <= i < j < |s| ==> s[i].meta.missing >= s[j].meta.missing
  }

  /** `s` holds the rows of `t`, each as often, ordered by `missing`,
      highest first. */
  ghost predicate SortedPermutationOf<X>(s: seq<Row<X>>, t: seq<Row<X>>) {
    MissingDescending(s) && multiset(s) == multiset(t)
  }

  /** Insertion sort, descending in `missing`. */
  method SortByMissing<X>(a: array<Row<X>>)
    modifies a
    ensures SortedPermutationOf(a[..], old(a[..]))
  {
    if a.Length == 0 {
      return;
    }
    var i := 1;
    while i < a.Length
      invariant 1 <= i <= a.Length
      invariant DescendingTo(a[..], i)
      invariant multiset(a[..]) == multiset(old(a[..]))
    {
      InsertAt(a, i);
      i := i + 1;
    }
  }

  /** The first `n` rows of `s` are ordered by `missing`, highest first. */
  predicate DescendingTo<X>(s: seq<Row<X>>, n: nat)
    requires n <= |s|
  {
    forall p, q :: 0 <= p < q < n ==> s[p].meta.missing >= s[q].meta.missing
  }

  /** Moves `a[i]` left into the descending prefix `a[..i]`: afterwards
      `a[..i+1]` is descending and holds the old prefix and the old `a[i]`,
      and the rows after `i` are untouched. */
  method InsertAt<X>(a: array<Row<X>>, i: nat)
    requires i < a.Length
    requires DescendingTo(a[..], i)
    modifies a
    ensures DescendingTo(a[..], i + 1)
    ensures multiset(a[..i + 1]) == multiset(old(a[..i])) + multiset{old(a[i])}
    ensures a[i + 1..] == old(a[i + 1..])
    ensures multiset(a[..]) == multiset(old(a[..]))
  {
    ghost var orig := a[..];
    var j := i;
    assert DescendingBut(a[..], i, j) && AboveRest(a[..], i, j);
    while j > 0 && a[j - 1].meta.missing < a[j].meta.missing
      invariant 0 <= j <= i
      invariant DescendingBut(a[..], i, j) && AboveRest(a[..], i, j)
      invariant a[..][i + 1..] == orig[i + 1..]
      invariant multiset(a[..]) == multiset(orig)
    {
      ghost var s := a[..];
      Swap(a, j - 1, j);
      SwapStep(s, a[..], i, j);
      j := j - 1;
    }
    Inserted(a[..], i, j);
    SuffixKept(a[..], orig, i);
  }

  /** `s[..i+1]` is descending in `missing` except perhaps at position `j`. */
  predicate DescendingBut<X>(s: seq<Row<X>>, i: nat, j: nat)
    requires i < |s|
  {
    forall p, q :: 0 <= p < q <= i && p != j && q != j ==> s[p].meta.missing >= s[q].meta.missing
  }

  /** The row at `j` has more missing than every row after it up to `i`. */
  predicate AboveRest<X>(s: seq<Row<X>>, i: nat, j: nat)
    requires j <= i < |s|
  {
    forall q :: j < q <= i ==> s[j].meta.missing > s[q].meta.missing
  }

  /** Swapping the moving row with the one before it, when that one has
      less missing, moves the gap one place left. */
  lemma SwapStep<X>(s: seq<Row<X>>, t: seq<Row<X>>, i: nat, j: nat)
    requires 0 < j <= i < |s|
    requires DescendingBut(s, i, j) && AboveRest(s, i, j)
    requires s[j - 1].meta.missing < s[j].meta.missing
    requires t == s[j - 1 := s[j]][j := s[j - 1]]
    ensures DescendingBut(t, i, j - 1) && AboveRest(t, i, j - 1)
    ensures t[i + 1..] == s[i + 1..] && multiset(t) == multiset(s)
  {
    assert t[i + 1..] == s[i + 1..];
  }

  /** Once the moving row is no lower than the one before it, the prefix is
      descending. */
  lemma Inserted<X>(s: seq<Row<X>>, i: nat, j: nat)
    requires j <= i < |s|
    requires DescendingBut(s, i, j) && AboveRest(s, i, j)
    requires j == 0 || s[j - 1].meta.missing >= s[j].meta.missing
    ensures DescendingTo(s, i + 1)
  {
  }

  /** The insertion's frame, in terms of the array's contents before and
      after. */
  lemma SuffixKept<T>(s: seq<T>, t: seq<T>, i: nat)
    requires i < |s| == |t|
    requires multiset(s) == multiset(t)
    requires s[i + 1..] == t[i + 1..]
    ensures multiset(s[..i + 1]) == multiset(t[..i]) + multiset{t[i]}
  {
    PrefixMultiset(s, t, i + 1);
    assert t[..i + 1] == t[..i] + [t[i]];
  }

  /** Two sequences with the same contents and the same suffix from `n` on
      have the same contents before `n`. */
  lemma PrefixMultiset<T>(s: seq<T>, t: seq<T>, n: nat)
    requires n <= |s| == |t|
    requires multiset(s) == multiset(t) && s[n..] == t[n..]
    ensures multiset(s[..n]) == multiset(t[..n])
  {
    assert s == s[..n] + s[n..];
    assert t == t[..n] + t[n..];
    assert multiset(s) == multiset(s[..n]) + multiset(s[n..]);
    assert multiset(t) == multiset(t[..n]) + multiset(t[n..]);
    assert multiset(s[..n]) == multiset(s) - multiset(s[n..]);
  }

  method Swap<X>(a: array<Row<X>>, i: nat, j: nat)
    requires i < j < a.Length
    modifies a
    ensures a[..] == old(a[..])[i := old(a[j])][j := old(a[i])]
    ensures multiset(a[..]) == multiset(old(a[..]))
  {
    a[i], a[j] := a[j], a[i];
  }
}
