/** The grouping `computeNodeDepths` starts from (`nodesByBreadth`): the
    nodes sharing a column, the columns in ascending order, each in node order.
    The original groups by the scaled `x` through `d3.nest`; this model groups
    by the integer column. */
module Columns {
  import opened Seqs
  import opened Graph

  /** One more than the largest key; 0 when there are none. */
  function KeyBound(keys: seq<nat>): (r: nat)
    ensures forall i :: 0 <= i < |keys| ==> keys[i] < r
  {
    if keys == [] then 0
    else
      var b := KeyBound(keys[..|keys| - 1]);
      var last := keys[|keys| - 1];
      if last + 1 > b then last + 1 else b
  }

  /** The key values below c that occur in `keys`, ascending. */
  function ColumnKeys(keys: seq<nat>, c: nat): (r: seq<nat>)
    ensures Increasing(r)
    ensures forall i :: 0 <= i < |r| ==> r[i] < c && r[i] in keys
  {
    if c == 0 then [] else ColumnKeys(keys, c - 1) + (if c - 1 in keys then [c - 1] else [])
  }

  /** The groups of positions sharing a key, for every key that occurs,
      ascending by key; each group in position order. */
  function Nest(keys: seq<nat>): seq<seq<nat>> {
    var ck := ColumnKeys(keys, KeyBound(keys));
    seq(|ck|, c requires 0 <= c < |ck| => IndicesOf(keys, ck[c], |keys|))
  }

  /** The key every entry of column c shares. */
  function ColumnKey(keys: seq<nat>, cols: seq<seq<nat>>, c: nat): nat
    requires c < |cols| && cols[c] != [] && cols[c][0] < |keys|
  {
    keys[cols[c][0]]
  }

  /** `cols` groups positions of `keys` by key: each column is non-empty and
      free of duplicates, all its entries share one key, and the keys
      strictly ascend from column to column. */
  ghost predicate GroupedBy(keys: seq<nat>, cols: seq<seq<nat>>) {
    && (forall c :: 0 <= c < |cols| ==> cols[c] != [] && NoDup(cols[c]) && InRange(cols[c], |keys|))
    && (forall c, i :: 0 <= c < |cols| && 0 <= i < |cols[c]| ==> keys[cols[c][i]] == ColumnKey(keys, cols, c))
    && (forall c, c' :: 0 <= c < c' < |cols| ==> ColumnKey(keys, cols, c) < ColumnKey(keys, cols, c'))
  }

  /** Each column of `b` is a reordering of the same column of `a`. */
  predicate Permuted(a: seq<seq<nat>>, b: seq<seq<nat>>) {
    |a| == |b| && forall c :: 0 <= c < |a| ==> multiset(a[c]) == multiset(b[c])
  }

  ghost predicate InSomeColumn(cols: seq<seq<nat>>, v: nat) {
    exists c :: 0 <= c < |cols| && v in cols[c]
  }

  /** Every position appears in some column. */
  ghost predicate Covers(cols: seq<seq<nat>>, n: nat) {
    forall v: nat :: v < n ==> InSomeColumn(cols, v)
  }

  lemma {:induction false} ColumnKeysComplete(keys: seq<nat>, c: nat, v: nat)
    requires v < |keys| && keys[v] < c
    ensures keys[v] in ColumnKeys(keys, c)
  {
    if keys[v] < c - 1 {
      ColumnKeysComplete(keys, c - 1, v);
    }
  }

  /** The grouping is a partition of the nodes into columns, and within a
      column a node's position is the number of nodes before it in the
      arena that share its column. */
  lemma ColumnsPartition(keys: seq<nat>)
    ensures GroupedBy(keys, Nest(keys))
    ensures Covers(Nest(keys), |keys|)
    ensures forall c, i :: 0 <= c < |Nest(keys)| && 0 <= i < |Nest(keys)[c]| ==>
      |IndicesOf(keys, keys[Nest(keys)[c][i]], Nest(keys)[c][i])| == i
  {
    var cols := Nest(keys);
    var ck := ColumnKeys(keys, KeyBound(keys));
    forall c | 0 <= c < |cols|
      ensures cols[c] != [] && NoDup(cols[c]) && InRange(cols[c], |keys|)
    {
      var v :| 0 <= v < |keys| && keys[v] == ck[c];
      IndicesOfComplete(keys, ck[c], |keys|, v);
      IndicesOfIncreasing(keys, ck[c], |keys|);
    }
    forall v: nat | v < |keys|
      ensures InSomeColumn(cols, v)
    {
      ColumnKeysComplete(keys, KeyBound(keys), v);
      var c :| 0 <= c < |ck| && ck[c] == keys[v];
      IndicesOfComplete(keys, keys[v], |keys|, v);
      assert v in cols[c];
    }
    forall c, i | 0 <= c < |cols| && 0 <= i < |cols[c]|
      ensures |IndicesOf(keys, keys[cols[c][i]], cols[c][i])| == i
    {
      IndicesOfPrefix(keys, ck[c], |keys|, i);
    }
  }

  /** Two entries of grouped columns that name the same node are the same
      entry: the columns are disjoint. */
  lemma GroupedDisjoint(keys: seq<nat>, cols: seq<seq<nat>>, c: nat, i: nat, c': nat, i': nat)
    requires GroupedBy(keys, cols)
    requires c < |cols| && i < |cols[c]| && c' < |cols| && i' < |cols[c']|
    requires cols[c][i] == cols[c'][i']
    ensures c == c' && i == i'
  {
    assert ColumnKey(keys, cols, c) == ColumnKey(keys, cols, c');
  }

  /** Reordering within columns keeps the grouping and the cover. */
  lemma PermutedGrouped(keys: seq<nat>, a: seq<seq<nat>>, b: seq<seq<nat>>)
    requires GroupedBy(keys, a) && Permuted(a, b)
    ensures GroupedBy(keys, b)
    ensures Covers(a, |keys|) ==> Covers(b, |keys|)
  {
    forall c | 0 <= c < |b|
      ensures b[c] != [] && NoDup(b[c]) && InRange(b[c], |keys|)
      ensures forall i :: 0 <= i < |b[c]| ==> keys[b[c][i]] == ColumnKey(keys, a, c)
    {
      assert |b[c]| == |multiset(b[c])| == |multiset(a[c])| == |a[c]|;
      NoDupPerm(a[c], b[c]);
      forall i | 0 <= i < |b[c]|
        ensures b[c][i] < |keys| && keys[b[c][i]] == ColumnKey(keys, a, c)
      {
        assert b[c][i] in multiset(a[c]);
        var k :| 0 <= k < |a[c]| && a[c][k] == b[c][i];
      }
    }
    if Covers(a, |keys|) {
      forall v: nat | v < |keys|
        ensures InSomeColumn(b, v)
      {
        assert InSomeColumn(a, v);
        var c :| 0 <= c < |a| && v in a[c];
        assert v in multiset(b[c]);
      }
    }
  }
}
