/** Tail labels: the label columns whose IRLbl is above MeanIR (`get_tail_label`). */
module Tail {
  import opened Frames
  import opened Imbalance

  /** The columns, in ascending order, whose ratio is strictly above `mean`. */
  function TailColumns(ratios: seq<real>, mean: real): (t: seq<nat>)
    ensures forall i :: 0 <= i < |t| ==> t[i] < |ratios| && ratios[t[i]] > mean
    ensures forall j :: 0 <= j < |ratios| && ratios[j] > mean ==> j in t
  {
    if ratios == [] then []
    else
      var k := |ratios| - 1;
      TailColumns(ratios[..k], mean) + (if ratios[k] > mean then [k] else [])
  }

  lemma {:induction false} TailColumnsIncreasing(ratios: seq<real>, mean: real)
    ensures Increasing(TailColumns(ratios, mean))
  {
    if ratios != [] {
      TailColumnsIncreasing(ratios[..|ratios| - 1], mean);
    }
  }

  /** Extending the ratios by one column extends the tail columns by that column or by nothing. */
  lemma TailColumnsSnoc(ratios: seq<real>, mean: real, i: nat)
    requires i < |ratios|
    ensures TailColumns(ratios[..i + 1], mean) == TailColumns(ratios[..i], mean) + (if ratios[i] > mean then [i] else [])
  {
    assert ratios[..i + 1][..i] == ratios[..i];
  }

  /** The tail labels of `y`, from the counts of `get_tail_label`. */
  function TailLabels(y: Frame<int>): seq<nat>
    requires y.Valid() && y.width > 0 && Binary(y)
  {
    TailColumns(IRLbl(y, TwoDistinct), MeanIR(y, TwoDistinct))
  }

  /**
   A column is a tail label exactly when its IRLbl is strictly above MeanIR; the tail labels
   come in column order, without duplicates.
   */
  lemma TailLabelsExact(y: Frame<int>)
    requires y.Valid() && y.width > 0 && Binary(y)
    ensures forall j: nat :: j in TailLabels(y) <==> j < y.width && IRLbl(y, TwoDistinct)[j] > MeanIR(y, TwoDistinct)
    ensures Increasing(TailLabels(y))
  {
    TailColumnsIncreasing(IRLbl(y, TwoDistinct), MeanIR(y, TwoDistinct));
  }

  /** `get_tail_label`: compute IRLbl and MeanIR, then keep the columns above the mean. */
  method GetTailLabel(y: Frame<int>) returns (tail: seq<nat>)
    requires y.Valid() && y.width > 0 && Binary(y)
    ensures tail == TailLabels(y)
    ensures forall j: nat :: j in tail <==> j < y.width && IRLbl(y, TwoDistinct)[j] > MeanIR(y, TwoDistinct)
    ensures Increasing(tail)
  {
    var irpl, mir := ImbalanceRatios(y, TwoDistinct);
    tail := [];
    for i := 0 to y.width
      invariant tail == TailColumns(irpl[..i], mir)
    {
      TailColumnsSnoc(irpl, mir, i);
      if irpl[i] > mir {
        tail := tail + [i];
      }
    }
    assert irpl[..y.width] == irpl;
    assert tail == TailLabels(y);
    TailLabelsExact(y);
  }

  /** A column with the largest, positive count is never a tail label. */
  lemma MaxColumnNotTail(y: Frame<int>, j: nat)
    requires y.Valid() && y.width > 0 && Binary(y)
    requires j < y.width
    requires Counts(y, TwoDistinct)[j] == MaxCount(Counts(y, TwoDistinct)) > 0
    ensures j !in TailLabels(y)
  {
    MeanIRAtLeastOne(y, TwoDistinct);
    TailLabelsExact(y);
  }

  /** No ratio above the mean leaves no tail column. */
  lemma {:induction false} TailColumnsEmpty(ratios: seq<real>, mean: real)
    requires forall j :: 0 <= j < |ratios| ==> ratios[j] <= mean
    ensures TailColumns(ratios, mean) == []
  {
    if ratios != [] {
      TailColumnsEmpty(ratios[..|ratios| - 1], mean);
    }
  }

  /** When every label is equally imbalanced there is no tail label. */
  lemma EqualRatiosNoTail(y: Frame<int>)
    requires y.Valid() && y.width > 0 && Binary(y)
    requires forall i, k :: 0 <= i < k < y.width ==> IRLbl(y, TwoDistinct)[i] == IRLbl(y, TwoDistinct)[k]
    ensures TailLabels(y) == []
  {
    var r := IRLbl(y, TwoDistinct);
    assert forall i :: 0 <= i < |r| ==> r[i] == r[0];
    MeanBounds(r, r[0], r[0]);
    TailColumnsEmpty(r, MeanIR(y, TwoDistinct));
  }

  /** Counts 100, 10 and 50 give IRLbl 1, 10 and 2. */
  lemma ScenarioRatios()
    ensures Ratios([100, 10, 50]) == [1.0, 10.0, 2.0]
  {
    var c: seq<nat> := [100, 10, 50];
    assert c[..2][..1] == [100];
    assert MaxCount(c[..2]) == 100;
    assert MaxCount(c) == 100;
  }

  /** ... their MeanIR is 13/3, and the second column is the only tail label. */
  lemma ScenarioTail()
    ensures Mean([1.0, 10.0, 2.0]) == 13.0 / 3.0
    ensures TailColumns([1.0, 10.0, 2.0], 13.0 / 3.0) == [1]
  {
    var r := [1.0, 10.0, 2.0];
    assert r[..2] == [1.0, 10.0];
    assert r[..2][..1] == [1.0];
    assert [1.0][..0] == [];
    assert Sum(r[..2][..1]) == 1.0;
    assert Sum(r) == 13.0;
    assert TailColumns(r[..2][..1], 13.0 / 3.0) == [];
  }
}
