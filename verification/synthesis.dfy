/**
 Synthetic samples (`augment`): each new sample takes a reference row and one of its four
 non-self neighbours, sets every label by majority vote over the reference's five-row
 neighbourhood, and moves the reference's features by `ratio * (ref - neighbour)`.
 The random draws and the nearest-neighbour table are inputs.
 */
module Synthesis {
  import opened Wrappers
  import opened Frames

  /** Why the nearest-neighbour search that `augment` starts with raises. */
  datatype Error =
    | TooFewSamples  // fewer than 5 rows: 5 neighbours per row cannot be found
    | NoFeatures     // the feature frame has no column to measure distances on

  /**
   The random generator as the values its successive calls return: call `k` of
   `randbelow(n)` (behind `randint(0, n - 1)` and `random.choice`) returns `below(k, n)`,
   and call `k` of `random()` returns `unit(k)`.
   */
  datatype Generator = Generator(below: (nat, nat) -> nat, unit: nat -> real)

  /** Integer draws lie below their bound; `random()` lies in [0, 1). */
  ghost predicate Ranged(g: Generator) {
    && (forall k, n :: 0 < n ==> g.below(k, n) < n)
    && (forall k :: 0.0 <= g.unit(k) < 1.0)
  }

  /** The draws of one synthetic sample: a reference row, a neighbour slot, a blend ratio. */
  datatype Draw = Draw(reference: nat, slot: nat, ratio: real)

  /**
   The three consecutive calls from position `p`: `randint(0, n - 1)`, then
   `choice(indices2[reference, 1:])` as a slot among 1..4, then `random()`.
   */
  function DrawAt(g: Generator, p: nat, n: nat): (d: Draw)
    requires Ranged(g) && n > 0
    ensures d.reference < n && 1 <= d.slot < 5 && 0.0 <= d.ratio < 1.0
  {
    Draw(g.below(p, n), 1 + g.below(p + 1, 4), g.unit(p + 2))
  }

  /**
   What `nearest_neighbour` returns for `n` rows: one row of 5 distinct positions below `n`
   for each row.
   */
  predicate NeighbourTable(table: seq<seq<nat>>, n: nat) {
    && |table| == n
    && (forall i :: 0 <= i < n ==> |table[i]| == 5)
    && (forall i, a :: 0 <= i < n && 0 <= a < |table[i]| ==> table[i][a] < n)
    && (forall i, a, b :: 0 <= i < n && 0 <= a < b < |table[i]| ==> table[i][a] != table[i][b])
  }

  function Members(s: seq<nat>): set<nat> {
    set x | x in s
  }

  /** `y[y.index.isin(nb)].sum()` in column `j`. */
  function NeighbourhoodSum(rows: seq<seq<int>>, nb: set<nat>, j: nat): int
    requires HasColumn(rows, j)
  {
    if rows == [] then 0
    else
      var last := |rows| - 1;
      NeighbourhoodSum(rows[..last], nb, j) + (if last in nb then rows[last][j] else 0)
  }

  /** The vote in column `j`: 1 when the column sums to more than 2 over the neighbourhood. */
  function Vote(y: Frame<int>, nb: set<nat>, j: nat): (v: int)
    requires y.Valid() && j < y.width
    ensures v == 0 || v == 1
  {
    if NeighbourhoodSum(y.rows, nb, j) > 2 then 1 else 0
  }

  /** The label row voted by a neighbourhood: 1 in the columns whose sum exceeds 2, else 0. */
  function VoteLabels(y: Frame<int>, nb: set<nat>): (t: seq<int>)
    requires y.Valid()
    ensures |t| == y.width
    ensures forall j :: 0 <= j < |t| ==> t[j] == Vote(y, nb, j)
  {
    seq(y.width, j requires 0 <= j < y.width => Vote(y, nb, j))
  }

  /**
   `ref + ratio * (ref - nb)`: the result moves away from `nb`; its offset from `nb` is the
   reference's offset scaled by 1 + ratio.
   */
  function Interpolate(ref: seq<real>, nb: seq<real>, ratio: real): (s: seq<real>)
    requires |ref| == |nb|
    ensures |s| == |ref|
    ensures forall k :: 0 <= k < |s| ==> s[k] - nb[k] == (1.0 + ratio) * (ref[k] - nb[k])
  {
    seq(|ref|, k requires 0 <= k < |ref| => ref[k] + ratio * (ref[k] - nb[k]))
  }

  /** `n_sample`, defaulting to 5 per label column. */
  function SampleCount(y: Frame<int>, nSample: Option<nat>): nat {
    if nSample.None? then 5 * y.width else nSample.value
  }

  /** The inputs `augment` works on once its neighbour search has succeeded. */
  ghost predicate Searchable(X: Frame<real>, y: Frame<int>, table: seq<seq<nat>>, g: Generator) {
    Aligned(X, y) && |X.rows| >= 5 && X.width > 0 && NeighbourTable(table, |X.rows|) && Ranged(g)
  }

  /** The features of synthetic sample `i`, from the draws at position `pos + 3 * i`. */
  function SyntheticFeatures(X: Frame<real>, y: Frame<int>, table: seq<seq<nat>>, g: Generator, pos: nat, i: nat): (s: seq<real>)
    requires Searchable(X, y, table, g)
    ensures |s| == X.width
  {
    var d := DrawAt(g, pos + 3 * i, |X.rows|);
    Interpolate(X.rows[d.reference], X.rows[table[d.reference][d.slot]], d.ratio)
  }

  /** The labels of synthetic sample `i`: the vote of the reference row's neighbourhood. */
  function SyntheticLabels(X: Frame<real>, y: Frame<int>, table: seq<seq<nat>>, g: Generator, pos: nat, i: nat): (t: seq<int>)
    requires Searchable(X, y, table, g)
    ensures |t| == y.width
  {
    var d := DrawAt(g, pos + 3 * i, |X.rows|);
    VoteLabels(y, Members(table[d.reference]))
  }

  /** The feature rows of synthetic samples 0 .. count - 1. */
  function NewFeatureRows(X: Frame<real>, y: Frame<int>, table: seq<seq<nat>>, g: Generator, pos: nat, count: nat): (rows: seq<seq<real>>)
    requires Searchable(X, y, table, g)
    ensures |rows| == count
    ensures forall i :: 0 <= i < count ==> rows[i] == SyntheticFeatures(X, y, table, g, pos, i)
  {
    seq(count, i requires 0 <= i < count => SyntheticFeatures(X, y, table, g, pos, i))
  }

  /** The label rows of synthetic samples 0 .. count - 1. */
  function NewLabelRows(X: Frame<real>, y: Frame<int>, table: seq<seq<nat>>, g: Generator, pos: nat, count: nat): (rows: seq<seq<int>>)
    requires Searchable(X, y, table, g)
    ensures |rows| == count
    ensures forall i :: 0 <= i < count ==> rows[i] == SyntheticLabels(X, y, table, g, pos, i)
  {
    seq(count, i requires 0 <= i < count => SyntheticLabels(X, y, table, g, pos, i))
  }

  /** The augmented frames and the position of the next unused draw. */
  datatype Augmentation = Augmentation(x: Frame<real>, y: Frame<int>, next: nat)

  /**
   `augment(X, y, n_sample)` with the draws from position `pos`: the input rows followed by
   n_sample synthetic rows, in both frames; or the error the neighbour search raises.
   */
  function Synthesized(X: Frame<real>, y: Frame<int>, nSample: Option<nat>, table: seq<seq<nat>>, g: Generator, pos: nat): (r: Result<Augmentation, Error>)
    requires Aligned(X, y) && Ranged(g)
    requires |X.rows| >= 5 ==> NeighbourTable(table, |X.rows|)
    ensures r.Failure? <==> |X.rows| < 5 || X.width == 0
    ensures r.Failure? ==> r.error == if |X.rows| > 0 && X.width == 0 then NoFeatures else TooFewSamples
    ensures r.Success? ==> r.value.x.width == X.width && r.value.y.width == y.width
    ensures r.Success? ==> |r.value.x.rows| == |r.value.y.rows| == |X.rows| + SampleCount(y, nSample)
  {
    if |X.rows| == 0 then Failure(TooFewSamples)
    else if X.width == 0 then Failure(NoFeatures)
    else if |X.rows| < 5 then Failure(TooFewSamples)
    else
      var count := SampleCount(y, nSample);
      var newX := NewFeatureRows(X, y, table, g, pos, count);
      var target := NewLabelRows(X, y, table, g, pos, count);
      Success(Augmentation(X.Concat(Frame(X.width, newX)), y.Concat(Frame(y.width, target)), pos + 3 * count))
  }

  /**
   On success both output frames hold the len(X) input rows followed by n_sample synthetic
   rows (n_sample defaulting to 5 per label column) and stay aligned; the next unused draw
   is 3 per sample on.
   */
  lemma SynthesizedShape(X: Frame<real>, y: Frame<int>, nSample: Option<nat>, table: seq<seq<nat>>, g: Generator, pos: nat)
    requires Aligned(X, y) && Ranged(g)
    requires |X.rows| >= 5 ==> NeighbourTable(table, |X.rows|)
    requires Synthesized(X, y, nSample, table, g, pos).Success?
    ensures
      var a, n := Synthesized(X, y, nSample, table, g, pos).value, |X.rows|;
      && Aligned(a.x, a.y)
      && a.x.rows[..n] == X.rows && a.y.rows[..n] == y.rows
      && a.next == pos + 3 * SampleCount(y, nSample)
  {
  }

  /** The synthetic labels are 0 or 1, so 0/1 input labels give 0/1 output labels. */
  lemma SynthesizedBinary(X: Frame<real>, y: Frame<int>, nSample: Option<nat>, table: seq<seq<nat>>, g: Generator, pos: nat)
    requires Aligned(X, y) && Ranged(g) && Binary(y)
    requires |X.rows| >= 5 ==> NeighbourTable(table, |X.rows|)
    requires Synthesized(X, y, nSample, table, g, pos).Success?
    ensures Binary(Synthesized(X, y, nSample, table, g, pos).value.y)
  {
    var count := SampleCount(y, nSample);
    var made := Frame(y.width, NewLabelRows(X, y, table, g, pos, count));
    forall r, j | 0 <= r < |made.rows| && 0 <= j < |made.rows[r]|
      ensures made.rows[r][j] == 0 || made.rows[r][j] == 1
    {
      assert made.rows[r] == SyntheticLabels(X, y, table, g, pos, r);
    }
    ConcatBinary(y, made);
  }

  /**
   The loop of `augment`: for each of the n_sample new rows draw the reference, the
   neighbour and the ratio, and write the voted labels and the shifted features into the
   preallocated row buffers; then append the buffers to the input frames.
   */
  method Augment(X: Frame<real>, y: Frame<int>, nSample: Option<nat>, table: seq<seq<nat>>, g: Generator, pos: nat)
    returns (r: Result<Augmentation, Error>)
    requires Aligned(X, y) && Ranged(g)
    requires |X.rows| >= 5 ==> NeighbourTable(table, |X.rows|)
    ensures r == Synthesized(X, y, nSample, table, g, pos)
  {
    var n := |X.rows|;
    if n == 0 {
      return Failure(TooFewSamples);
    }
    if X.width == 0 {
      return Failure(NoFeatures);
    }
    if n < 5 {
      return Failure(TooFewSamples);
    }
    assert Searchable(X, y, table, g);
    var count := SampleCount(y, nSample);
    var newX := new seq<real>[count];
    var target := new seq<int>[count];
    for i := 0 to count
      invariant newX[..i] == NewFeatureRows(X, y, table, g, pos, i)
      invariant target[..i] == NewLabelRows(X, y, table, g, pos, i)
    {
      var features, labels := Sample(X, y, table, g, pos, i);
      newX[i] := features;
      target[i] := labels;
    }
    assert newX[..] == newX[..count];
    assert target[..] == target[..count];
    r := Success(Augmentation(X.Concat(Frame(X.width, newX[..])), y.Concat(Frame(y.width, target[..])), pos + 3 * count));
  }

  /**
   One pass of the loop of `augment`: draw the reference and one of its neighbours, vote
   the labels over the reference's neighbourhood, then draw the ratio and shift the
   reference's features.
   */
  method Sample(X: Frame<real>, y: Frame<int>, table: seq<seq<nat>>, g: Generator, pos: nat, i: nat)
    returns (features: seq<real>, labels: seq<int>)
    requires Searchable(X, y, table, g)
    ensures features == SyntheticFeatures(X, y, table, g, pos, i)
    ensures labels == SyntheticLabels(X, y, table, g, pos, i)
  {
    var n, p := |X.rows|, pos + 3 * i;
    var reference := g.below(p, n);
    var neighbour := table[reference][1 + g.below(p + 1, 4)];
    var allPoint := table[reference];
    labels := VoteLabels(y, Members(allPoint));
    var ratio := g.unit(p + 2);
    features := Interpolate(X.rows[reference], X.rows[neighbour], ratio);
  }

  /**
   `s` and `t` are a synthetic sample drawn with `d`: each feature is ref[k] + ratio *
   (ref[k] - nb[k]) for the reference row and the neighbour in slot `d.slot` of its table
   row; each label is 0 or 1, and 1 exactly when the column sums to more than 2 over the
   reference's neighbourhood.
   */
  predicate IsSample(X: Frame<real>, y: Frame<int>, table: seq<seq<nat>>, d: Draw, s: seq<real>, t: seq<int>)
    requires Aligned(X, y) && NeighbourTable(table, |X.rows|)
    requires d.reference < |X.rows| && 1 <= d.slot < 5
  {
    var ref, nb := X.rows[d.reference], X.rows[table[d.reference][d.slot]];
    && |s| == X.width && |t| == y.width
    && (forall k :: 0 <= k < X.width ==> s[k] == ref[k] + d.ratio * (ref[k] - nb[k]))
    && (forall j :: 0 <= j < y.width ==> t[j] == 0 || t[j] == 1)
    && (forall j :: 0 <= j < y.width ==> (t[j] == 1 <==> NeighbourhoodSum(y.rows, Members(table[d.reference]), j) > 2))
  }

  /** Sample `i` is the synthetic sample drawn at `pos + 3 * i`. */
  lemma SyntheticSample(X: Frame<real>, y: Frame<int>, table: seq<seq<nat>>, g: Generator, pos: nat, i: nat)
    requires Searchable(X, y, table, g)
    ensures IsSample(X, y, table, DrawAt(g, pos + 3 * i, |X.rows|),
                     SyntheticFeatures(X, y, table, g, pos, i), SyntheticLabels(X, y, table, g, pos, i))
  {
  }

  /**
   Synthetic row `i` (row n + i of both output frames) is the synthetic sample drawn at
   `pos + 3 * i`: a reference row below n, a neighbour from slots 1..4 of its table row and
   a ratio in [0, 1).
   */
  lemma SyntheticRow(X: Frame<real>, y: Frame<int>, nSample: Option<nat>, table: seq<seq<nat>>, g: Generator, pos: nat,
                     a: Augmentation, i: nat)
    requires Searchable(X, y, table, g)
    requires Synthesized(X, y, nSample, table, g, pos) == Success(a)
    requires i < SampleCount(y, nSample)
    ensures
      var n, d := |X.rows|, DrawAt(g, pos + 3 * i, |X.rows|);
      && d.reference < n && 1 <= d.slot < 5 && 0.0 <= d.ratio < 1.0
      && IsSample(X, y, table, d, a.x.rows[n + i], a.y.rows[n + i])
  {
    var n, count := |X.rows|, SampleCount(y, nSample);
    assert a.x.rows[n..] == NewFeatureRows(X, y, table, g, pos, count);
    assert a.y.rows[n..] == NewLabelRows(X, y, table, g, pos, count);
    assert a.x.rows[n + i] == a.x.rows[n..][i];
    assert a.y.rows[n + i] == a.y.rows[n..][i];
    SyntheticSample(X, y, table, g, pos, i);
  }

  // ---------------------------------------------------------------------------
  // The vote counts neighbourhood rows

  /** The rows of the neighbourhood `nb` that carry label `j`. */
  function Carriers(rows: seq<seq<int>>, nb: set<nat>, j: nat): set<nat>
    requires HasColumn(rows, j)
  {
    set r: nat | r < |rows| && r in nb && rows[r][j] == 1
  }

  lemma CarriersStep(rows: seq<seq<int>>, nb: set<nat>, j: nat)
    requires rows != []
    requires HasColumn(rows, j)
    ensures var last := |rows| - 1;
      |Carriers(rows, nb, j)| == |Carriers(rows[..last], nb, j)| + (if last in nb && rows[last][j] == 1 then 1 else 0)
  {
    var last := |rows| - 1;
    var all, init := Carriers(rows, nb, j), Carriers(rows[..last], nb, j);
    if last in nb && rows[last][j] == 1 {
      assert all == init + {last};
    } else {
      assert all == init;
    }
  }

  /** On a 0/1 column the neighbourhood sum is the number of neighbourhood rows carrying the label. */
  lemma {:induction false} SumCountsCarriers(rows: seq<seq<int>>, nb: set<nat>, j: nat)
    requires HasColumn(rows, j)
    requires forall r :: 0 <= r < |rows| ==> rows[r][j] == 0 || rows[r][j] == 1
    ensures NeighbourhoodSum(rows, nb, j) == |Carriers(rows, nb, j)|
  {
    if rows == [] {
      assert Carriers(rows, nb, j) == {};
    } else {
      SumCountsCarriers(rows[..|rows| - 1], nb, j);
      CarriersStep(rows, nb, j);
    }
  }

  /** A sequence of distinct positions has as many members as entries. */
  lemma {:induction false} DistinctMembers(s: seq<nat>)
    requires forall a, b :: 0 <= a < b < |s| ==> s[a] != s[b]
    ensures |Members(s)| == |s|
  {
    if s == [] {
      assert Members(s) == {};
    } else {
      var init := s[..|s| - 1];
      DistinctMembers(init);
      assert Members(s) == Members(init) + {s[|s| - 1]};
      assert s[|s| - 1] !in Members(init);
    }
  }

  /**
   With 0/1 labels the vote is a majority of the five neighbourhood rows: a synthetic label
   is 1 exactly when more than 2 of the reference's 5 neighbourhood rows carry it.
   */
  lemma VoteIsMajority(y: Frame<int>, table: seq<seq<nat>>, ref: nat, j: nat)
    requires y.Valid() && Binary(y) && NeighbourTable(table, |y.rows|)
    requires ref < |y.rows| && j < y.width
    ensures |Members(table[ref])| == 5
    ensures Carriers(y.rows, Members(table[ref]), j) <= Members(table[ref])
    ensures VoteLabels(y, Members(table[ref]))[j] == 1 <==> |Carriers(y.rows, Members(table[ref]), j)| > 2
  {
    DistinctMembers(table[ref]);
    SumCountsCarriers(y.rows, Members(table[ref]), j);
  }
}
