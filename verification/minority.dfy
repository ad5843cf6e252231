/**
 The minority subset: the rows with a 1 in some tail column (`get_index`), and the feature
 and label rows at those positions (`get_minority_instace`).
 */
module Minority {
  import opened Frames
  import opened Imbalance
  import opened Tail

  /** The row has a 1 in one of the columns `tail`. */
  predicate HasTail(row: seq<int>, tail: seq<nat>) {
    exists k :: 0 <= k < |tail| && tail[k] < |row| && row[tail[k]] == 1
  }

  /** `set(df[df[t] == 1].index)`: the positions of the rows with a 1 in column `t`. */
  function RowsWith(y: Frame<int>, t: nat): (s: set<nat>)
    ensures forall r: nat :: r in s <==> r < |y.rows| && t < |y.rows[r]| && y.rows[r][t] == 1
  {
    set r: nat | r < |y.rows| && t < |y.rows[r]| && y.rows[r][t] == 1
  }

  /** The positions of the rows with a 1 in one of the columns `tail`. */
  function RowsWithAny(y: Frame<int>, tail: seq<nat>): (s: set<nat>)
    ensures forall r: nat :: r in s <==> r < |y.rows| && HasTail(y.rows[r], tail)
  {
    set r: nat | r < |y.rows| && HasTail(y.rows[r], tail)
  }

  /** Adding one column to the tail adds the rows with a 1 in it. */
  lemma RowsWithAnySnoc(y: Frame<int>, tail: seq<nat>, i: nat)
    requires i < |tail|
    ensures RowsWithAny(y, tail[..i + 1]) == RowsWithAny(y, tail[..i]) + RowsWith(y, tail[i])
  {
    var longer, shorter := tail[..i + 1], tail[..i];
    forall r: nat | r < |y.rows|
      ensures HasTail(y.rows[r], longer) <==> HasTail(y.rows[r], shorter) || r in RowsWith(y, tail[i])
    {
      var row := y.rows[r];
      if HasTail(row, longer) {
        var k :| 0 <= k < |longer| && longer[k] < |row| && row[longer[k]] == 1;
        if k < i {
          assert shorter[k] == longer[k];
        }
      }
      if HasTail(row, shorter) {
        var k :| 0 <= k < |shorter| && shorter[k] < |row| && row[shorter[k]] == 1;
        assert longer[k] == shorter[k];
      }
      if r in RowsWith(y, tail[i]) {
        assert longer[i] == tail[i];
      }
    }
  }

  /** The result of `get_index(y)`, as a set of row positions. */
  function MinorityIndex(y: Frame<int>): set<nat>
    requires y.Valid() && y.width > 0 && Binary(y)
  {
    RowsWithAny(y, TailLabels(y))
  }

  /** `get_index`: the union, over the tail labels, of the rows with a 1 in that label. */
  method GetIndex(y: Frame<int>) returns (index: set<nat>)
    requires y.Valid() && y.width > 0 && Binary(y)
    ensures index == MinorityIndex(y)
    ensures forall r: nat :: r in index <==> r < |y.rows| && HasTail(y.rows[r], TailLabels(y))
  {
    var tailLabels := GetTailLabel(y);
    index := {};
    for i := 0 to |tailLabels|
      invariant index == RowsWithAny(y, tailLabels[..i])
    {
      var subIndex := RowsWith(y, tailLabels[i]);
      RowsWithAnySnoc(y, tailLabels, i);
      index := index + subIndex;
    }
    assert tailLabels[..|tailLabels|] == tailLabels;
  }

  /**
   `get_minority_instace(X, y)`: the feature rows and the label rows at the positions of
   `get_index(y)`, renumbered from 0. Both hold one row per selected position, and every
   selected label row has a 1 in some tail column.
   */
  function MinorityInstance(X: Frame<real>, y: Frame<int>): (sub: (Frame<real>, Frame<int>))
    requires Aligned(X, y) && y.width > 0 && Binary(y)
    ensures Aligned(sub.0, sub.1) && Binary(sub.1)
    ensures sub.0.width == X.width && sub.1.width == y.width
    ensures |sub.0.rows| == |sub.1.rows| == |MinorityIndex(y)|
    ensures forall i :: 0 <= i < |sub.1.rows| ==> HasTail(sub.1.rows[i], TailLabels(y))
  {
    var index := MinorityIndex(y);
    PositionsOfIndex(|y.rows|, index);
    (Restrict(X, index), Restrict(y, index))
  }

  /**
   The subset holds exactly the selected rows in their original relative order: row i of
   both frames is the input row at the i-th selected position, the positions ascend, and
   they are exactly the positions `get_index` returns.
   */
  lemma MinorityInOrder(X: Frame<real>, y: Frame<int>)
    requires Aligned(X, y) && y.width > 0 && Binary(y)
    ensures var sub, p := MinorityInstance(X, y), Positions(|X.rows|, MinorityIndex(y));
      && Increasing(p)
      && (forall r: nat :: r in p <==> r in MinorityIndex(y))
      && |p| == |sub.0.rows|
      && forall i :: 0 <= i < |p| ==> sub.0.rows[i] == X.rows[p[i]] && sub.1.rows[i] == y.rows[p[i]]
  {
    PositionsIncreasing(|X.rows|, MinorityIndex(y));
  }
}
